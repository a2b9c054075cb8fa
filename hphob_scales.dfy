/**
 * The hydrophobicity scales: seventeen published scales, each giving an index
 * to each of the twenty standard amino acids, keyed by the three-letter
 * residue name. Each scale is a Python dict literal; its insertion order is
 * kept, because the lookup in the moment computation walks it in that order.
 */
module HphobScales {
  import opened Wrappers
  import PyDict

  /** One scale: residue name to hydrophobicity index, in literal order. */
  type Scale = PyDict.Dict<string, real>

  /** The OMH_Sweet scale. */
  const OMHSweet: Scale := [
    ("ALA", -0.400), ("ARG", -0.590), ("ASN", -0.920), ("ASP", -1.310), ("CYS", 0.170),
    ("GLN", -0.910), ("GLU", -1.220), ("GLY", -0.670), ("HIS", -0.640), ("ILE", 1.250),
    ("LEU", 1.220), ("LYS", -0.670), ("MET", 1.020), ("PHE", 1.920), ("PRO", -0.490),
    ("SER", -0.550), ("THR", -0.280), ("TRP", 0.500), ("TYR", 1.670), ("VAL", 0.910)
  ]

  /** The Kyte_Doolitle scale. */
  const KyteDoolitle: Scale := [
    ("ALA", 1.800), ("ARG", -4.500), ("ASN", -3.500), ("ASP", -3.500), ("CYS", 2.500),
    ("GLN", -3.500), ("GLU", -3.500), ("GLY", -0.400), ("HIS", -3.200), ("ILE", 4.500),
    ("LEU", 3.800), ("LYS", -3.900), ("MET", 1.900), ("PHE", 2.800), ("PRO", -1.600),
    ("SER", -0.800), ("THR", -0.700), ("TRP", -0.900), ("TYR", -1.300), ("VAL", 4.200)
  ]

  /** The Abraham_Leo scale. */
  const AbrahamLeo: Scale := [
    ("ALA", 0.440), ("ARG", -2.420), ("ASN", -1.320), ("ASP", -0.310), ("CYS", 0.580),
    ("GLN", -0.710), ("GLU", -0.340), ("GLY", 0.000), ("HIS", -0.010), ("ILE", 2.460),
    ("LEU", 2.460), ("LYS", -2.450), ("MET", 1.100), ("PHE", 2.540), ("PRO", 1.290),
    ("SER", -0.840), ("THR", -0.410), ("TRP", 2.560), ("TYR", 1.630), ("VAL", 1.730)
  ]

  /** The Bull_Breese scale. */
  const BullBreese: Scale := [
    ("ALA", 0.610), ("ARG", 0.690), ("ASN", 0.890), ("ASP", 0.610), ("CYS", 0.360),
    ("GLN", 0.970), ("GLU", 0.510), ("GLY", 0.810), ("HIS", 0.690), ("ILE", -1.450),
    ("LEU", -1.650), ("LYS", 0.460), ("MET", -0.660), ("PHE", -1.520), ("PRO", -0.170),
    ("SER", 0.420), ("THR", 0.290), ("TRP", -1.200), ("TYR", -1.430), ("VAL", -0.750)
  ]

  /** The Guy scale. */
  const Guy: Scale := [
    ("ALA", 0.100), ("ARG", 1.910), ("ASN", 0.480), ("ASP", 0.780), ("CYS", -1.420),
    ("GLN", 0.950), ("GLU", 0.830), ("GLY", 0.330), ("HIS", -0.500), ("ILE", -1.130),
    ("LEU", -1.180), ("LYS", 1.400), ("MET", -1.590), ("PHE", -2.120), ("PRO", 0.730),
    ("SER", 0.520), ("THR", 0.070), ("TRP", -0.510), ("TYR", -0.210), ("VAL", -1.270)
  ]

  /** The Miyazawa scale. */
  const Miyazawa: Scale := [
    ("ALA", 5.330), ("ARG", 4.180), ("ASN", 3.710), ("ASP", 3.590), ("CYS", 7.930),
    ("GLN", 3.870), ("GLU", 3.650), ("GLY", 4.480), ("HIS", 5.100), ("ILE", 8.830),
    ("LEU", 8.470), ("LYS", 2.950), ("MET", 8.950), ("PHE", 9.030), ("PRO", 3.870),
    ("SER", 4.090), ("THR", 4.490), ("TRP", 7.660), ("TYR", 5.890), ("VAL", 7.630)
  ]

  /** The Roseman scale. */
  const Roseman: Scale := [
    ("ALA", 0.390), ("ARG", -3.950), ("ASN", -1.910), ("ASP", -3.810), ("CYS", 0.250),
    ("GLN", -1.300), ("GLU", -2.910), ("GLY", 0.000), ("HIS", -0.640), ("ILE", 1.820),
    ("LEU", 1.820), ("LYS", -2.770), ("MET", 0.960), ("PHE", 2.270), ("PRO", 0.990),
    ("SER", -1.240), ("THR", -1.000), ("TRP", 2.130), ("TYR", 1.470), ("VAL", 1.300)
  ]

  /** The Wolfenden scale. */
  const Wolfenden: Scale := [
    ("ALA", 1.940), ("ARG", -19.920), ("ASN", -9.680), ("ASP", -10.950), ("CYS", -1.240),
    ("GLN", -9.380), ("GLU", -10.200), ("GLY", 2.390), ("HIS", -10.270), ("ILE", 2.150),
    ("LEU", 2.280), ("LYS", -9.520), ("MET", -1.480), ("PHE", -0.760), ("PRO", 0.000),
    ("SER", -5.060), ("THR", -4.880), ("TRP", -5.880), ("TYR", -6.110), ("VAL", 1.990)
  ]

  /** The Eisenberg scale. */
  const Eisenberg: Scale := [
    ("ALA", 0.620), ("ARG", -2.530), ("ASN", -0.780), ("ASP", -0.900), ("CYS", 0.290),
    ("GLN", -0.850), ("GLU", -0.740), ("GLY", 0.480), ("HIS", -0.400), ("ILE", 1.380),
    ("LEU", 1.060), ("LYS", -1.500), ("MET", 0.640), ("PHE", 1.190), ("PRO", 0.120),
    ("SER", -0.180), ("THR", -0.050), ("TRP", 0.810), ("TYR", 0.260), ("VAL", 1.080)
  ]

  /** The Hopp_Woods scale. */
  const HoppWoods: Scale := [
    ("ALA", -0.500), ("ARG", 3.000), ("ASN", 0.200), ("ASP", 3.000), ("CYS", -1.000),
    ("GLN", 0.200), ("GLU", 3.000), ("GLY", 0.000), ("HIS", -0.500), ("ILE", -1.800),
    ("LEU", -1.800), ("LYS", 3.000), ("MET", -1.300), ("PHE", -2.500), ("PRO", 0.000),
    ("SER", 0.300), ("THR", -0.400), ("TRP", -3.400), ("TYR", -2.300), ("VAL", -1.500)
  ]

  /** The Manavalan scale. */
  const Manavalan: Scale := [
    ("ALA", 12.970), ("ARG", 11.720), ("ASN", 11.420), ("ASP", 10.850), ("CYS", 14.630),
    ("GLN", 11.760), ("GLU", 11.890), ("GLY", 12.430), ("HIS", 12.160), ("ILE", 15.670),
    ("LEU", 14.900), ("LYS", 11.360), ("MET", 14.390), ("PHE", 14.000), ("PRO", 11.370),
    ("SER", 11.230), ("THR", 11.690), ("TRP", 13.930), ("TYR", 13.420), ("VAL", 15.710)
  ]

  /** The Black scale. */
  const Black: Scale := [
    ("ALA", 0.616), ("ARG", 0.000), ("ASN", 0.236), ("ASP", 0.028), ("CYS", 0.680),
    ("GLN", 0.251), ("GLU", 0.043), ("GLY", 0.501), ("HIS", 0.165), ("ILE", 0.943),
    ("LEU", 0.943), ("LYS", 0.283), ("MET", 0.738), ("PHE", 1.000), ("PRO", 0.711),
    ("SER", 0.359), ("THR", 0.450), ("TRP", 0.878), ("TYR", 0.880), ("VAL", 0.825)
  ]

  /** The Fauchere scale. */
  const Fauchere: Scale := [
    ("ALA", 0.310), ("ARG", -1.010), ("ASN", -0.600), ("ASP", -0.770), ("CYS", 1.540),
    ("GLN", -0.220), ("GLU", -0.640), ("GLY", 0.000), ("HIS", 0.130), ("ILE", 1.800),
    ("LEU", 1.700), ("LYS", -0.990), ("MET", 1.230), ("PHE", 1.790), ("PRO", 0.720),
    ("SER", -0.040), ("THR", 0.260), ("TRP", 2.250), ("TYR", 0.960), ("VAL", 1.220)
  ]

  /** The Janin scale. */
  const Janin: Scale := [
    ("ALA", 0.300), ("ARG", -1.400), ("ASN", -0.500), ("ASP", -0.600), ("CYS", 0.900),
    ("GLN", -0.700), ("GLU", -0.700), ("GLY", 0.300), ("HIS", -0.100), ("ILE", 0.700),
    ("LEU", 0.500), ("LYS", -1.800), ("MET", 0.400), ("PHE", 0.500), ("PRO", -0.300),
    ("SER", -0.100), ("THR", -0.200), ("TRP", 0.300), ("TYR", -0.400), ("VAL", 0.600)
  ]

  /** The Rao_Argos scale. */
  const RaoArgos: Scale := [
    ("ALA", 1.360), ("ARG", 0.150), ("ASN", 0.330), ("ASP", 0.110), ("CYS", 1.270),
    ("GLN", 0.330), ("GLU", 0.250), ("GLY", 1.090), ("HIS", 0.680), ("ILE", 1.440),
    ("LEU", 1.470), ("LYS", 0.090), ("MET", 1.420), ("PHE", 1.570), ("PRO", 0.540),
    ("SER", 0.970), ("THR", 1.080), ("TRP", 1.000), ("TYR", 0.830), ("VAL", 1.370)
  ]

  /** The Tanford scale. */
  const Tanford: Scale := [
    ("ALA", 0.620), ("ARG", -2.530), ("ASN", -0.780), ("ASP", -0.090), ("CYS", 0.290),
    ("GLN", -0.850), ("GLU", -0.740), ("GLY", 0.480), ("HIS", -0.400), ("ILE", 1.380),
    ("LEU", 1.530), ("LYS", -1.500), ("MET", 0.640), ("PHE", 1.190), ("PRO", 0.120),
    ("SER", -0.180), ("THR", -0.050), ("TRP", 0.810), ("TYR", 0.260), ("VAL", 1.800)
  ]

  /** The Welling scale. */
  const Welling: Scale := [
    ("ALA", 1.150), ("ARG", 0.580), ("ASN", -0.770), ("ASP", 0.650), ("CYS", -1.200),
    ("GLN", -0.110), ("GLU", -0.710), ("GLY", -1.840), ("HIS", 3.120), ("ILE", -2.920),
    ("LEU", 0.750), ("LYS", 2.060), ("MET", -3.850), ("PHE", -1.410), ("PRO", -0.530),
    ("SER", -0.260), ("THR", -0.450), ("TRP", -1.140), ("TYR", 0.130), ("VAL", -0.130)
  ]

  /** `hphob_scales_dict`: scale name to scale, in the order of the literal. */
  const ScalesDict: PyDict.Dict<string, Scale> := [
    ("OMH_Sweet", OMHSweet), ("Kyte_Doolitle", KyteDoolitle), ("Abraham_Leo", AbrahamLeo), ("Bull_Breese", BullBreese),
    ("Guy", Guy), ("Miyazawa", Miyazawa), ("Roseman", Roseman), ("Wolfenden", Wolfenden),
    ("Eisenberg", Eisenberg), ("Hopp_Woods", HoppWoods), ("Manavalan", Manavalan), ("Black", Black),
    ("Fauchere", Fauchere), ("Janin", Janin), ("Rao_Argos", RaoArgos), ("Tanford", Tanford),
    ("Welling", Welling)
  ]

  /** The twenty residue names every scale is keyed by, in literal order. */
  const ResidueCodes: seq<string> := ["ALA", "ARG", "ASN", "ASP", "CYS", "GLN", "GLU", "GLY", "HIS", "ILE", "LEU", "LYS", "MET", "PHE", "PRO", "SER", "THR", "TRP", "TYR", "VAL"]

  /** A scale keyed by exactly the twenty residue names, in the standard order. */
  ghost predicate WellFormed(s: Scale) {
    |s| == |ResidueCodes| && forall i :: 0 <= i < |s| ==> s[i].0 == ResidueCodes[i]
  }

  /** `hphob_scales_dict[name]`, or None where Python raises KeyError. */
  function Lookup(name: string): (r: Option<Scale>)
    ensures r.Some? <==> name in PyDict.Keys(ScalesDict)
  {
    PyDict.Get(ScalesDict, name)
  }

  /** `max(scale.values())`. */
  function MaxValue(s: Scale): (r: real)
    requires |s| > 0
    ensures exists i :: 0 <= i < |s| && s[i].1 == r
    ensures forall i :: 0 <= i < |s| ==> s[i].1 <= r
  {
    if |s| == 1 then s[0].1
    else
      var m := MaxValue(s[..|s| - 1]);
      if s[|s| - 1].1 > m then s[|s| - 1].1 else m
  }

  /** `min(scale.values())`. */
  function MinValue(s: Scale): (r: real)
    requires |s| > 0
    ensures exists i :: 0 <= i < |s| && s[i].1 == r
    ensures forall i :: 0 <= i < |s| ==> r <= s[i].1
  {
    if |s| == 1 then s[0].1
    else
      var m := MinValue(s[..|s| - 1]);
      if s[|s| - 1].1 < m then s[|s| - 1].1 else m
  }

  // Each scale literal is keyed by the twenty residue names in order.

  lemma OMHSweetWellFormed() ensures WellFormed(OMHSweet) { }
  lemma KyteDoolitleWellFormed() ensures WellFormed(KyteDoolitle) { }
  lemma AbrahamLeoWellFormed() ensures WellFormed(AbrahamLeo) { }
  lemma BullBreeseWellFormed() ensures WellFormed(BullBreese) { }
  lemma GuyWellFormed() ensures WellFormed(Guy) { }
  lemma MiyazawaWellFormed() ensures WellFormed(Miyazawa) { }
  lemma RosemanWellFormed() ensures WellFormed(Roseman) { }
  lemma WolfendenWellFormed() ensures WellFormed(Wolfenden) { }
  lemma EisenbergWellFormed() ensures WellFormed(Eisenberg) { }
  lemma HoppWoodsWellFormed() ensures WellFormed(HoppWoods) { }
  lemma ManavalanWellFormed() ensures WellFormed(Manavalan) { }
  lemma BlackWellFormed() ensures WellFormed(Black) { }
  lemma FauchereWellFormed() ensures WellFormed(Fauchere) { }
  lemma JaninWellFormed() ensures WellFormed(Janin) { }
  lemma RaoArgosWellFormed() ensures WellFormed(RaoArgos) { }
  lemma TanfordWellFormed() ensures WellFormed(Tanford) { }
  lemma WellingWellFormed() ensures WellFormed(Welling) { }

  /** There are seventeen scales, and each is keyed by the twenty residue names. */
  lemma AllScalesWellFormed()
    ensures |ScalesDict| == 17
    ensures forall i :: 0 <= i < |ScalesDict| ==> WellFormed(ScalesDict[i].1)
  {
    OMHSweetWellFormed();
    KyteDoolitleWellFormed();
    AbrahamLeoWellFormed();
    BullBreeseWellFormed();
    GuyWellFormed();
    MiyazawaWellFormed();
    RosemanWellFormed();
    WolfendenWellFormed();
    EisenbergWellFormed();
    HoppWoodsWellFormed();
    ManavalanWellFormed();
    BlackWellFormed();
    FauchereWellFormed();
    JaninWellFormed();
    RaoArgosWellFormed();
    TanfordWellFormed();
    WellingWellFormed();
  }

  /** Every scale a name finds is keyed by the twenty residue names. */
  lemma LookupWellFormed(name: string)
    requires Lookup(name).Some?
    ensures WellFormed(Lookup(name).value)
  {
    AllScalesWellFormed();
    var i := PyDict.Find(ScalesDict, name).value;
    assert Lookup(name).value == ScalesDict[i].1;
  }

  /** The residue names are twenty, each three letters long. */
  lemma ResidueCodeLengths()
    ensures |ResidueCodes| == 20
    ensures forall i :: 0 <= i < |ResidueCodes| ==> |ResidueCodes[i]| == 3
  {
  }

  /** The residue names are pairwise distinct. */
  lemma ResidueCodesDistinct()
    ensures forall i, j :: 0 <= i < j < |ResidueCodes| ==> ResidueCodes[i] != ResidueCodes[j]
  {
  }

  /**
   * A residue id starts with at most one key of a well-formed scale, so the
   * `startswith` loop of the moment computation sets the index at most once.
   */
  lemma AtMostOneMatch(s: Scale, id: string, i: int, j: int)
    requires WellFormed(s)
    requires 0 <= i < |s| && 0 <= j < |s|
    requires s[i].0 <= id && s[j].0 <= id
    ensures i == j
  {
    ResidueCodeLengths();
    ResidueCodesDistinct();
    assert s[i].0 == ResidueCodes[i] && s[j].0 == ResidueCodes[j];
    assert s[i].0 == id[..3] == s[j].0;
  }

  /** The default scale spans [-4.5, 4.5]: ARG at the bottom, ILE at the top. */
  lemma KyteDoolitleBounds()
    ensures MaxValue(KyteDoolitle) == 4.5 && MinValue(KyteDoolitle) == -4.5
  {
    var s := KyteDoolitle;
    forall i | 0 <= i < |s| ensures -4.5 <= s[i].1 <= 4.5 { }
    assert s[1].1 == -4.5 && s[9].1 == 4.5;
  }

  /** The Black scale spans [0, 1]: ARG at the bottom, PHE at the top. */
  lemma BlackBounds()
    ensures MaxValue(Black) == 1.0 && MinValue(Black) == 0.0
  {
    var s := Black;
    forall i | 0 <= i < |s| ensures 0.0 <= s[i].1 <= 1.0 { }
    assert s[1].1 == 0.0 && s[13].1 == 1.0;
  }
}
