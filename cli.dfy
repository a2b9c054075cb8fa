/**
 * The command line around the moment computation: the checks made on the
 * parsed arguments, the output file names derived from the prefix, the rows
 * of the results table and the arrows written to the Chimera `.bild` file.
 */
module Cli {
  import opened Wrappers
  import opened Vectors
  import ColorScales
  import HphobScales
  import Moments
  import MomentsFacts

  /** The parsed command line. */
  datatype Args = Args(infile: string, outfile: string, accArray: string,
                       threshold: real, radius: real, hphobScale: string)

  /** The three exceptions the checks raise, each with the offending value. */
  datatype ArgError =
    | FileExtensionError(file: string)
    | ThresholdError(threshold: real)
    | RadiusError(radius: real)

  const DefaultOutfile: string := "results"
  const DefaultAccArray: string := "Sander"
  const DefaultThreshold: real := 0.2
  const DefaultRadius: real := 6.0
  const DefaultScale: string := "Kyte_Doolitle"

  /** The values `--hyphob_scale` accepts. */
  const ScaleChoices: seq<string> := [
    "OMH_Sweet", "Kyte_Doolitle", "Abraham_Leo", "Bull_Breese", "Guy", "Miyazawa", "Roseman",
    "Wolfenden", "Eisenberg", "Hopp_Woods", "Manavalan", "Black", "Fauchere", "Janin",
    "Rao_Argos", "Tanford", "Welling"]

  const MinThreshold: real := 0.2
  const MaxThreshold: real := 0.8
  const MinRadius: real := 4.0
  const MaxRadius: real := 10.0

  /** `s.endswith(suffix)`. */
  predicate EndsWith(s: string, suffix: string) {
    |suffix| <= |s| && s[|s| - |suffix|..] == suffix
  }

  /** The arguments a run goes on with: a `.pdb` input, a threshold and a radius in range, ends included. */
  ghost predicate Acceptable(a: Args) {
    EndsWith(a.infile, ".pdb") &&
    MinThreshold <= a.threshold <= MaxThreshold &&
    MinRadius <= a.radius <= MaxRadius
  }

  /**
   * The checks on the parsed arguments, in the order they are made: the
   * input extension, then the threshold, then the radius. The first that
   * fails raises its exception; a run that passes all three goes on with the
   * arguments unchanged.
   */
  function Validate(a: Args): (r: Result<Args, ArgError>)
    ensures r.Ok? <==> Acceptable(a)
    ensures r.Ok? ==> r.value == a
    ensures r.Fail? ==> r.error in {FileExtensionError(a.infile), ThresholdError(a.threshold), RadiusError(a.radius)}
  {
    if !EndsWith(a.infile, ".pdb") then Fail(FileExtensionError(a.infile))
    else if a.threshold < MinThreshold || a.threshold > MaxThreshold then Fail(ThresholdError(a.threshold))
    else if a.radius < MinRadius || a.radius > MaxRadius then Fail(RadiusError(a.radius))
    else Ok(a)
  }

  /** Which exception is raised: a wrong extension wins over everything, a wrong threshold over a wrong radius. */
  lemma ValidateErrorOrder(a: Args)
    ensures Validate(a) == Fail(FileExtensionError(a.infile)) <==> !EndsWith(a.infile, ".pdb")
    ensures Validate(a) == Fail(ThresholdError(a.threshold)) <==>
      EndsWith(a.infile, ".pdb") && !(MinThreshold <= a.threshold <= MaxThreshold)
    ensures Validate(a) == Fail(RadiusError(a.radius)) <==>
      EndsWith(a.infile, ".pdb") && MinThreshold <= a.threshold <= MaxThreshold &&
      !(MinRadius <= a.radius <= MaxRadius)
  {
  }

  /** The default options pass the checks for any `.pdb` input. */
  lemma DefaultsAccepted(infile: string)
    requires EndsWith(infile, ".pdb")
    ensures Validate(Args(infile, DefaultOutfile, DefaultAccArray, DefaultThreshold, DefaultRadius, DefaultScale)).Ok?
  {
  }

  /** A `.pdb` name is at least four characters long and its last four are the extension. */
  lemma PdbNames(s: string)
    ensures EndsWith(s, ".pdb") <==> 4 <= |s| && s[|s| - 4] == '.' && s[|s| - 3..] == "pdb"
  {
    if 4 <= |s| {
      assert s[|s| - 4..] == [s[|s| - 4]] + s[|s| - 3..];
    }
  }

  /** The scale choices are exactly the scales of the scale table. */
  lemma ChoicesAreScales()
    ensures |ScaleChoices| == |HphobScales.ScalesDict|
    ensures forall i :: 0 <= i < |ScaleChoices| ==> ScaleChoices[i] == HphobScales.ScalesDict[i].0
  {
  }

  /** A scale the command line accepts is one `get_H_moments` can look up. */
  lemma ChoiceIsKnown(name: string)
    requires name in ScaleChoices
    ensures HphobScales.Lookup(name).Some?
  {
    ChoicesAreScales();
    var i :| 0 <= i < |ScaleChoices| && ScaleChoices[i] == name;
    assert HphobScales.ScalesDict[i].0 == name;
  }

  /**
   * After the checks and the choice of scale, the moment computation raises
   * neither `KeyError` nor `ZeroDivisionError`: only a residue met before any
   * id matched a key can make it fail.
   */
  lemma AcceptedRunFaults(a: Args, coords: Moments.Coords, sqrt: real -> real)
    requires Validate(a).Ok? && a.hphobScale in ScaleChoices
    ensures Moments.HMoments(coords, a.radius, a.hphobScale, sqrt).Fail? ==>
      Moments.HMoments(coords, a.radius, a.hphobScale, sqrt).error.UnboundIndex?
  {
    ChoiceIsKnown(a.hphobScale);
    MomentsFacts.PositiveRadiusOnlyUnbound(coords, a.radius, a.hphobScale, sqrt);
  }

  // ----- output file names -----

  /** `re.sub('\.', '_', s)`: every dot becomes an underscore. */
  function ReplaceDots(s: string): (r: string)
    ensures |r| == |s|
    ensures '.' !in r
    ensures forall i :: 0 <= i < |s| && s[i] != '.' ==> r[i] == s[i]
    ensures forall i :: 0 <= i < |s| && s[i] == '.' ==> r[i] == '_'
  {
    if s == [] then []
    else ReplaceDots(s[..|s| - 1]) + [if s[|s| - 1] == '.' then '_' else s[|s| - 1]]
  }

  /** Rewriting the dots a second time changes nothing. */
  lemma ReplaceDotsIdempotent(s: string)
    ensures ReplaceDots(ReplaceDots(s)) == ReplaceDots(s)
  {
    var r := ReplaceDots(s);
    assert forall i :: 0 <= i < |r| ==> r[i] != '.';
  }

  /** A prefix without dots is kept as it is. */
  lemma ReplaceDotsKeeps(s: string)
    requires '.' !in s
    ensures ReplaceDots(s) == s
  {
  }

  /** The names of the table, arrow and macro files. */
  datatype OutputFiles = OutputFiles(tab: string, bild: string, cmd: string)

  /**
   * The three file names: each is the rewritten prefix followed by its
   * extension, so the only dot in it is the one that starts the extension,
   * and the three are distinct whatever prefix was given.
   */
  function OutputNames(outfile: string): (f: OutputFiles)
    ensures |f.tab| == |outfile| + 4 && |f.bild| == |outfile| + 5 && |f.cmd| == |outfile| + 4
    ensures f.tab[..|outfile|] == ReplaceDots(outfile) && f.tab[|outfile|..] == ".tab"
    ensures f.bild[..|outfile|] == ReplaceDots(outfile) && f.bild[|outfile|..] == ".bild"
    ensures f.cmd[..|outfile|] == ReplaceDots(outfile) && f.cmd[|outfile|..] == ".cmd"
    ensures forall i :: 0 <= i < |outfile| ==> f.tab[i] != '.' && f.bild[i] != '.' && f.cmd[i] != '.'
    ensures f.tab != f.bild && f.tab != f.cmd && f.bild != f.cmd
  {
    var prefix := ReplaceDots(outfile);
    var f := OutputFiles(prefix + ".tab", prefix + ".bild", prefix + ".cmd");
    assert f.tab[|outfile| + 1] == 't' && f.bild[|outfile| + 1] == 'b' && f.cmd[|outfile| + 1] == 'c';
    f
  }

  /**
   * Two prefixes give the same file names exactly when they agree once
   * their dots are rewritten: `a.b` and `a_b` overwrite each other's files.
   */
  lemma OutputNamesCollide(s: string, t: string)
    ensures OutputNames(s) == OutputNames(t) <==> ReplaceDots(s) == ReplaceDots(t)
  {
    if OutputNames(s) == OutputNames(t) {
      assert |s| == |t|;
      assert OutputNames(s).tab[..|s|] == OutputNames(t).tab[..|t|];
    }
  }

  /** The concrete collision: a dotted prefix and its underscored twin. */
  lemma DottedPrefixCollides()
    ensures OutputNames("a.b") == OutputNames("a_b")
  {
    assert ReplaceDots("a.b") == ReplaceDots("a_b") by {
      ReplaceDotsKeeps("a_b");
      assert ReplaceDots("a.b")[1] == '_';
    }
  }

  // ----- the results table -----

  /** A line of the results table: its number, the centre's coordinates and the moment. */
  datatype Row = Row(number: int, origin: Vec, vector: Vec)

  /**
   * The rows written for the moments, in the dictionary's order, numbered
   * by a counter that starts at 1 and goes up by one per row.
   */
  method TabRows(moments: Moments.Moments) returns (rows: seq<Row>)
    ensures |rows| == |moments|
    ensures forall i :: 0 <= i < |rows| ==>
      rows[i] == Row(i + 1, moments[i].0, moments[i].1.vector)
  {
    rows := [];
    var count := 1;
    for k := 0 to |moments|
      invariant |rows| == k && count == k + 1
      invariant forall i :: 0 <= i < k ==> rows[i] == Row(i + 1, moments[i].0, moments[i].1.vector)
    {
      var (key, value) := moments[k];
      rows := rows + [Row(count, key, value.vector)];
      count := count + 1;
    }
  }

  // ----- the arrows -----

  /** A `.color` line and the `.arrow` line after it. */
  datatype Arrow = Arrow(color: ColorScales.Rgb, tail: Vec, head: Vec)

  /** A moment drawn as an arrow: one with no zero component. */
  predicate Drawn(v: Vec) {
    v.x != 0.0 && v.y != 0.0 && v.z != 0.0
  }

  /** The arrow for a moment: from the centre to the centre moved by the moment, in its colour. */
  function ArrowFor(key: Vec, m: Moments.Moment): Arrow {
    Arrow(m.color, key, Add(key, m.vector))
  }

  /** The arrows for the moments, in the dictionary's order. */
  function Arrows(moments: Moments.Moments): (r: seq<Arrow>)
    ensures |r| <= |moments|
  {
    if moments == [] then []
    else
      var rest := Arrows(moments[..|moments| - 1]);
      var (key, m) := moments[|moments| - 1];
      if Drawn(m.vector) then rest + [ArrowFor(key, m)] else rest
  }

  /** Writes the `.bild` records: for every moment with no zero component, its colour and its arrow. */
  method BildArrows(moments: Moments.Moments) returns (arrows: seq<Arrow>)
    ensures arrows == Arrows(moments)
  {
    arrows := [];
    for k := 0 to |moments|
      invariant arrows == Arrows(moments[..k])
    {
      assert moments[..k + 1][..k] == moments[..k];
      var (key, value) := moments[k];
      if value.vector.x != 0.0 && value.vector.y != 0.0 && value.vector.z != 0.0 {
        var head := Vec(key.x + value.vector.x, key.y + value.vector.y, key.z + value.vector.z);
        arrows := arrows + [Arrow(value.color, key, head)];
      }
    }
    assert moments[..|moments|] == moments;
  }

  /** Every arrow belongs to a moment with no zero component. */
  lemma {:induction false} ArrowsSound(moments: Moments.Moments)
    ensures forall a :: a in Arrows(moments) ==>
      exists i :: 0 <= i < |moments| && Drawn(moments[i].1.vector) && a == ArrowFor(moments[i].0, moments[i].1)
  {
    if moments != [] {
      var p := moments[..|moments| - 1];
      ArrowsSound(p);
      forall a | a in Arrows(moments)
        ensures exists i :: 0 <= i < |moments| && Drawn(moments[i].1.vector) && a == ArrowFor(moments[i].0, moments[i].1)
      {
        if a in Arrows(p) {
          var i :| 0 <= i < |p| && Drawn(p[i].1.vector) && a == ArrowFor(p[i].0, p[i].1);
          assert p[i] == moments[i];
        } else {
          assert a == ArrowFor(moments[|moments| - 1].0, moments[|moments| - 1].1);
        }
      }
    }
  }

  /** Every moment with no zero component gets its arrow. */
  lemma {:induction false} ArrowsComplete(moments: Moments.Moments)
    ensures forall i :: 0 <= i < |moments| && Drawn(moments[i].1.vector) ==>
      ArrowFor(moments[i].0, moments[i].1) in Arrows(moments)
  {
    if moments != [] {
      var p := moments[..|moments| - 1];
      ArrowsComplete(p);
      assert forall i :: 0 <= i < |p| ==> p[i] == moments[i];
    }
  }

  /** A moment with a zero component, such as that of a centre alone in its sphere, draws no arrow. */
  lemma {:induction false} UndrawnLeaveNoArrow(moments: Moments.Moments, key: Vec, m: Moments.Moment)
    requires !Drawn(m.vector)
    ensures Arrows(moments + [(key, m)]) == Arrows(moments)
  {
    assert (moments + [(key, m)])[..|moments|] == moments;
  }
}
