/**
 * What the moment computation guarantees: the meaning of its distance,
 * unit vector and mean; which exceptions it raises and when; the keys of
 * its result; that a region's colour is that of a mean inside the scale's
 * range; and, when every residue id names a residue of the scale, that
 * every region's moment is the plain sum over its members.
 */
module MomentsFacts {
  import opened Wrappers
  import opened Vectors
  import PyDict
  import HphobScales
  import Colors
  import opened Moments

  // ----- distance -----

  /** With a true square root, `distance` is the integer part of the Euclidean distance. */
  lemma DistanceIsTruncatedRoot(a: Vec, b: Vec, sqrt: real -> real)
    requires SqrtAt(sqrt, DistSq(a, b))
    ensures Distance(a, b) == sqrt(DistSq(a, b)).Floor
  {
    NormSqNonNegative(Sub(a, b));
    var n := Distance(a, b);
    var m := sqrt(DistSq(a, b));
    CastSquare(n);
    CastSquare(n + 1);
    if m < n as real {
      RealSquareStrict(m, n as real);
      assert false;
    }
    if (n + 1) as real <= m {
      RealSquareMono((n + 1) as real, m);
      assert false;
    }
  }

  lemma DistanceSelf(a: Vec)
    ensures Distance(a, a) == 0
  {
    DistSqSelf(a);
    var n := Distance(a, a);
    if 1 <= n {
      SquareMono(1, n);
    }
  }

  lemma DistanceSymmetric(a: Vec, b: Vec)
    ensures Distance(a, b) == Distance(b, a)
  {
    DistSqSymmetric(a, b);
  }

  /**
   * Membership `distance < radius` compares the truncated distance with the
   * radius, so for a positive radius it holds exactly when the squared
   * distance is below the square of the radius rounded up.
   */
  lemma MembershipByCeiling(a: Vec, b: Vec, radius: real)
    requires 0.0 < radius
    ensures (Distance(a, b) as real) < radius <==> DistSq(a, b) < (Ceiling(radius) * Ceiling(radius)) as real
  {
    var n := Distance(a, b);
    var c := Ceiling(radius);
    assert (c - 1) as real < radius <= c as real;
    if n < c {
      SquareMono(n + 1, c);
    } else {
      SquareMono(c, n);
    }
  }

  /**
   * With a true square root, a residue strictly inside the sphere is always
   * counted: truncating the distance can only let more residues in.
   */
  lemma TruncationIsGenerous(a: Vec, b: Vec, radius: real, sqrt: real -> real)
    requires SqrtAt(sqrt, DistSq(a, b)) && sqrt(DistSq(a, b)) < radius
    ensures (Distance(a, b) as real) < radius
  {
    DistanceIsTruncatedRoot(a, b, sqrt);
  }

  // ----- unit vector -----

  /** The zero vector is returned unchanged, whatever the square root gives. */
  lemma UnitVectorOfZero(sqrt: real -> real)
    ensures UnitVector(Zero, sqrt) == Zero
  {
  }

  /** Scaling the result back by the length restores the vector. */
  lemma UnitVectorScalesBack(v: Vec, sqrt: real -> real)
    requires sqrt(NormSq(v)) != 0.0
    ensures Times(UnitVector(v, sqrt), sqrt(NormSq(v))) == v
  {
    OverTimes(v, sqrt(NormSq(v)));
  }

  /** With a true square root, a non-zero vector becomes one of length one. */
  lemma UnitVectorHasNormOne(v: Vec, sqrt: real -> real)
    requires SqrtAt(sqrt, NormSq(v)) && v != Zero
    ensures NormSq(UnitVector(v, sqrt)) == 1.0
  {
    ModuleNonZero(v, sqrt);
    UnitRaw(v.x, v.y, v.z, sqrt(NormSq(v)));
  }

  /**
   * The centre met in its own sphere adds nothing to the moment: its
   * displacement is zero, and so is its unit vector scaled by any index.
   * It still appends an index, and fails only when none is bound yet.
   */
  lemma CentreAddsNothing(c: Vec, id: string, radius: real, scale: HphobScales.Scale,
                          sqrt: real -> real, sp: Sphere)
    requires 0.0 < radius
    ensures Visit(c, (id, c), radius, scale, sqrt, sp).Ok? <==>
      (LastMatch(scale, id).Some? || sp.last.Some?)
    ensures Visit(c, (id, c), radius, scale, sqrt, sp).Ok? ==>
      Visit(c, (id, c), radius, scale, sqrt, sp).value.sum == sp.sum &&
      |Visit(c, (id, c), radius, scale, sqrt, sp).value.indices| == |sp.indices| + 1
  {
    DistanceSelf(c);
    assert Sub(c, c) == Zero;
    UnitVectorOfZero(sqrt);
    var m := LastMatch(scale, id);
    if m.Some? {
      TimesZero(m.value);
    }
  }

  // ----- average -----

  lemma {:induction false} SumBounds(s: seq<real>, lo: real, hi: real)
    requires forall j :: 0 <= j < |s| ==> lo <= s[j] <= hi
    ensures (|s| as real) * lo <= Sum(s) <= (|s| as real) * hi
  {
    if s != [] {
      SumBounds(s[..|s| - 1], lo, hi);
      assert (|s| as real) * lo == ((|s| - 1) as real) * lo + lo;
      assert (|s| as real) * hi == ((|s| - 1) as real) * hi + hi;
    }
  }

  lemma DivBounds(t: real, n: real, lo: real, hi: real)
    requires 0.0 < n && n * lo <= t <= n * hi
    ensures lo <= t / n <= hi
  {
    assert t / n * n == t;
  }

  /** The mean of values that lie in [lo, hi] lies in [lo, hi]. */
  lemma AverageBounds(s: seq<real>, lo: real, hi: real)
    requires |s| > 0
    requires forall j :: 0 <= j < |s| ==> lo <= s[j] <= hi
    ensures lo <= Average(s) <= hi
  {
    SumBounds(s, lo, hi);
    DivBounds(Sum(s), |s| as real, lo, hi);
  }

  // ----- key matching -----

  /**
   * On a scale keyed by the twenty residue names, an id starting with a key
   * gets exactly that key's value.
   */
  lemma LastMatchWellFormed(scale: HphobScales.Scale, id: string, i: int)
    requires HphobScales.WellFormed(scale)
    requires 0 <= i < |scale| && scale[i].0 <= id
    ensures LastMatch(scale, id) == Some(scale[i].1)
  {
    LastMatchSpec(scale, id);
    var r := LastMatch(scale, id);
    var j :| 0 <= j < |scale| && scale[j].0 <= id && scale[j].1 == r.value;
    HphobScales.AtMostOneMatch(scale, id, i, j);
  }

  // ----- exceptions -----

  lemma {:induction false} SphereFaults(c: Vec, coords: Coords, k: nat, radius: real,
                                        scale: HphobScales.Scale, sqrt: real -> real, h0: Option<real>)
    requires k <= |coords|
    requires SphereOf(c, coords, k, radius, scale, sqrt, h0).Fail?
    ensures SphereOf(c, coords, k, radius, scale, sqrt, h0).error.UnboundIndex?
  {
    if SphereOf(c, coords, k - 1, radius, scale, sqrt, h0).Fail? {
      SphereFaults(c, coords, k - 1, radius, scale, sqrt, h0);
    }
  }

  lemma {:induction false} RegionsFaults(coords: Coords, n: nat, radius: real,
                                         scale: HphobScales.Scale, name: string, sqrt: real -> real)
    requires n <= |coords| && |scale| > 0
    requires Regions(coords, n, radius, scale, name, sqrt).Fail?
    ensures !Regions(coords, n, radius, scale, name, sqrt).error.UnknownScale?
  {
    var prev := Regions(coords, n - 1, radius, scale, name, sqrt);
    if prev.Fail? {
      RegionsFaults(coords, n - 1, radius, scale, name, sqrt);
    } else {
      var sp := SphereOf(coords[n - 1].1, coords, |coords|, radius, scale, sqrt, prev.value.last);
      if sp.Fail? {
        SphereFaults(coords[n - 1].1, coords, |coords|, radius, scale, sqrt, prev.value.last);
      }
    }
  }

  /** The computation raises KeyError exactly when the scale name is not a key of the scale table. */
  lemma UnknownScaleIff(coords: Coords, radius: real, name: string, sqrt: real -> real)
    ensures HMoments(coords, radius, name, sqrt) == Fail(UnknownScale(name)) <==>
      name !in PyDict.Keys(HphobScales.ScalesDict)
  {
    if HphobScales.Lookup(name).Some? {
      var scale := HphobScales.Lookup(name).value;
      HphobScales.LookupWellFormed(name);
      if Regions(coords, |coords|, radius, scale, name, sqrt).Fail? {
        RegionsFaults(coords, |coords|, radius, scale, name, sqrt);
      }
    }
  }

  lemma {:induction false} NoMembers(c: Vec, coords: Coords, k: nat, radius: real,
                                     scale: HphobScales.Scale, sqrt: real -> real, h0: Option<real>)
    requires k <= |coords| && radius <= 0.0
    ensures SphereOf(c, coords, k, radius, scale, sqrt, h0) == Ok(Sphere(Zero, [], h0))
  {
    if k > 0 {
      NoMembers(c, coords, k - 1, radius, scale, sqrt, h0);
    }
  }

  /**
   * With a radius of zero or less no residue is ever a member, so the first
   * centre's mean divides by zero.
   */
  lemma NonPositiveRadiusFails(coords: Coords, radius: real, name: string, sqrt: real -> real)
    requires radius <= 0.0 && |coords| > 0 && HphobScales.Lookup(name).Some?
    ensures HMoments(coords, radius, name, sqrt) == Fail(EmptyNeighbourhood(coords[0].0))
  {
    var scale := HphobScales.Lookup(name).value;
    HphobScales.LookupWellFormed(name);
    NoMembers(coords[0].1, coords, |coords|, radius, scale, sqrt, None);
    assert Regions(coords, 1, radius, scale, name, sqrt) == Fail(EmptyNeighbourhood(coords[0].0));
    RegionsFailPersists(coords, 1, radius, scale, name, sqrt);
  }

  /** With a positive radius a sphere that includes its centre's residue is never empty. */
  lemma {:induction false} CentreIsMember(c: Vec, coords: Coords, k: nat, j: nat, radius: real,
                                          scale: HphobScales.Scale, sqrt: real -> real, h0: Option<real>)
    requires 0.0 < radius && j < k <= |coords| && coords[j].1 == c
    requires SphereOf(c, coords, k, radius, scale, sqrt, h0).Ok?
    ensures SphereOf(c, coords, k, radius, scale, sqrt, h0).value.indices != []
  {
    if j < k - 1 {
      CentreIsMember(c, coords, k - 1, j, radius, scale, sqrt, h0);
    } else {
      DistanceSelf(c);
    }
  }

  lemma {:induction false} PositiveRadiusFaults(coords: Coords, n: nat, radius: real,
                                                scale: HphobScales.Scale, name: string, sqrt: real -> real)
    requires 0.0 < radius && n <= |coords| && |scale| > 0
    requires Regions(coords, n, radius, scale, name, sqrt).Fail?
    ensures Regions(coords, n, radius, scale, name, sqrt).error.UnboundIndex?
  {
    assert n > 0;
    var prev := Regions(coords, n - 1, radius, scale, name, sqrt);
    if prev.Fail? {
      assert Regions(coords, n, radius, scale, name, sqrt) == prev;
      PositiveRadiusFaults(coords, n - 1, radius, scale, name, sqrt);
    } else {
      assert Regions(coords, n, radius, scale, name, sqrt) ==
        Region(coords, coords[n - 1], radius, scale, name, sqrt, prev.value);
      RegionFaults(coords, n - 1, radius, scale, name, sqrt, prev.value);
    }
  }

  /** The region of a residue of `coords` can fail only on an unbound index. */
  lemma RegionFaults(coords: Coords, j: nat, radius: real, scale: HphobScales.Scale,
                     name: string, sqrt: real -> real, st: State)
    requires 0.0 < radius && j < |coords| && |scale| > 0
    requires Region(coords, coords[j], radius, scale, name, sqrt, st).Fail?
    ensures Region(coords, coords[j], radius, scale, name, sqrt, st).error.UnboundIndex?
  {
    var c := coords[j].1;
    var sp := SphereOf(c, coords, |coords|, radius, scale, sqrt, st.last);
    if sp.Fail? {
      SphereFaults(c, coords, |coords|, radius, scale, sqrt, st.last);
    } else {
      CentreIsMember(c, coords, |coords|, j, radius, scale, sqrt, st.last);
    }
  }

  /**
   * With a known scale and a positive radius the only exception left is the
   * one raised for a residue that matches no key before any index was set.
   */
  lemma PositiveRadiusOnlyUnbound(coords: Coords, radius: real, name: string, sqrt: real -> real)
    requires 0.0 < radius && HphobScales.Lookup(name).Some?
    ensures HMoments(coords, radius, name, sqrt).Fail? ==> HMoments(coords, radius, name, sqrt).error.UnboundIndex?
  {
    var scale := HphobScales.Lookup(name).value;
    HphobScales.LookupWellFormed(name);
    if Regions(coords, |coords|, radius, scale, name, sqrt).Fail? {
      PositiveRadiusFaults(coords, |coords|, radius, scale, name, sqrt);
    }
  }

  // ----- the result's keys -----

  /** The coordinates of the first `n` residues. */
  ghost function Points(coords: Coords, n: nat): set<Vec>
    requires n <= |coords|
  {
    set i | 0 <= i < n :: coords[i].1
  }

  lemma PointsStep(coords: Coords, n: nat)
    requires 0 < n <= |coords|
    ensures Points(coords, n) == Points(coords, n - 1) + {coords[n - 1].1}
  {
  }

  /** One region adds its centre to the keys and keeps them distinct. */
  lemma RegionKeys(coords: Coords, centre: (string, Vec), radius: real, scale: HphobScales.Scale,
                   name: string, sqrt: real -> real, st: State)
    requires |scale| > 0 && PyDict.DistinctKeys(st.out)
    requires Region(coords, centre, radius, scale, name, sqrt, st).Ok?
    ensures PyDict.Keys(Region(coords, centre, radius, scale, name, sqrt, st).value.out) ==
      PyDict.Keys(st.out) + {centre.1}
    ensures PyDict.DistinctKeys(Region(coords, centre, radius, scale, name, sqrt, st).value.out)
    ensures |Region(coords, centre, radius, scale, name, sqrt, st).value.out| <= |st.out| + 1
  {
    var sp := SphereOf(centre.1, coords, |coords|, radius, scale, sqrt, st.last).value;
    var m := Moment(sp.sum, Colors.Classify(Average(sp.indices),
      HphobScales.MinValue(scale), HphobScales.MaxValue(scale), name));
    PyDict.PutPreservesDistinct(st.out, centre.1, m);
  }

  lemma {:induction false} RegionsKeys(coords: Coords, n: nat, radius: real,
                                       scale: HphobScales.Scale, name: string, sqrt: real -> real)
    requires n <= |coords| && |scale| > 0
    requires Regions(coords, n, radius, scale, name, sqrt).Ok?
    ensures PyDict.Keys(Regions(coords, n, radius, scale, name, sqrt).value.out) == Points(coords, n)
    ensures PyDict.DistinctKeys(Regions(coords, n, radius, scale, name, sqrt).value.out)
    ensures |Regions(coords, n, radius, scale, name, sqrt).value.out| <= n
  {
    if n > 0 {
      RegionsKeys(coords, n - 1, radius, scale, name, sqrt);
      var st := Regions(coords, n - 1, radius, scale, name, sqrt).value;
      assert Regions(coords, n, radius, scale, name, sqrt) ==
        Region(coords, coords[n - 1], radius, scale, name, sqrt, st);
      RegionKeys(coords, coords[n - 1], radius, scale, name, sqrt, st);
      PointsStep(coords, n);
    }
  }

  /**
   * The result is keyed by the distinct centre coordinates: one moment per
   * distinct alpha-carbon position, so never more moments than residues.
   */
  lemma HMomentsKeys(coords: Coords, radius: real, name: string, sqrt: real -> real)
    requires HMoments(coords, radius, name, sqrt).Ok?
    ensures PyDict.Keys(HMoments(coords, radius, name, sqrt).value) == Points(coords, |coords|)
    ensures PyDict.DistinctKeys(HMoments(coords, radius, name, sqrt).value)
    ensures |HMoments(coords, radius, name, sqrt).value| <= |coords|
  {
    var scale := HphobScales.Lookup(name).value;
    HphobScales.LookupWellFormed(name);
    RegionsKeys(coords, |coords|, radius, scale, name, sqrt);
  }

  // ----- the colour of a region -----

  /** A value of the scale. */
  ghost predicate InScale(scale: HphobScales.Scale, v: real) {
    exists i :: 0 <= i < |scale| && scale[i].1 == v
  }

  ghost predicate StartsInScale(scale: HphobScales.Scale, h: Option<real>) {
    h.Some? ==> InScale(scale, h.value)
  }

  lemma {:induction false} SphereIndicesInScale(c: Vec, coords: Coords, k: nat, radius: real,
                                                scale: HphobScales.Scale, sqrt: real -> real, h0: Option<real>)
    requires k <= |coords| && StartsInScale(scale, h0)
    requires SphereOf(c, coords, k, radius, scale, sqrt, h0).Ok?
    ensures StartsInScale(scale, SphereOf(c, coords, k, radius, scale, sqrt, h0).value.last)
    ensures forall j :: 0 <= j < |SphereOf(c, coords, k, radius, scale, sqrt, h0).value.indices| ==>
      InScale(scale, SphereOf(c, coords, k, radius, scale, sqrt, h0).value.indices[j])
  {
    if k > 0 {
      SphereIndicesInScale(c, coords, k - 1, radius, scale, sqrt, h0);
      LastMatchSpec(scale, coords[k - 1].0);
    }
  }

  lemma {:induction false} RegionsLastInScale(coords: Coords, n: nat, radius: real,
                                              scale: HphobScales.Scale, name: string, sqrt: real -> real)
    requires n <= |coords| && |scale| > 0
    requires Regions(coords, n, radius, scale, name, sqrt).Ok?
    ensures StartsInScale(scale, Regions(coords, n, radius, scale, name, sqrt).value.last)
  {
    if n > 0 {
      RegionsLastInScale(coords, n - 1, radius, scale, name, sqrt);
      var st := Regions(coords, n - 1, radius, scale, name, sqrt).value;
      SphereIndicesInScale(coords[n - 1].1, coords, |coords|, radius, scale, sqrt, st.last);
    }
  }

  /** At every centre the mean index lies between the scale's minimum and maximum. */
  lemma RegionMeanInRange(coords: Coords, n: nat, radius: real,
                          scale: HphobScales.Scale, name: string, sqrt: real -> real)
    requires n < |coords| && |scale| > 0
    requires Regions(coords, n, radius, scale, name, sqrt).Ok?
    requires SphereOf(coords[n].1, coords, |coords|, radius, scale, sqrt,
                      Regions(coords, n, radius, scale, name, sqrt).value.last).Ok?
    requires SphereOf(coords[n].1, coords, |coords|, radius, scale, sqrt,
                      Regions(coords, n, radius, scale, name, sqrt).value.last).value.indices != []
    ensures var mean := Average(SphereOf(coords[n].1, coords, |coords|, radius, scale, sqrt,
                                         Regions(coords, n, radius, scale, name, sqrt).value.last).value.indices);
      HphobScales.MinValue(scale) <= mean <= HphobScales.MaxValue(scale)
  {
    var h := Regions(coords, n, radius, scale, name, sqrt).value.last;
    RegionsLastInScale(coords, n, radius, scale, name, sqrt);
    SphereIndicesInScale(coords[n].1, coords, |coords|, radius, scale, sqrt, h);
    var s := SphereOf(coords[n].1, coords, |coords|, radius, scale, sqrt, h).value.indices;
    var lo, hi := HphobScales.MinValue(scale), HphobScales.MaxValue(scale);
    forall j | 0 <= j < |s|
      ensures lo <= s[j] <= hi
    {
      assert InScale(scale, s[j]);
    }
    AverageBounds(s, lo, hi);
  }

  /**
   * Since the mean lies in the scale's range, `get_color` never takes its
   * wrap-around path: the colour is the one of the band the mean falls in.
   */
  lemma RegionColourBand(coords: Coords, n: nat, radius: real,
                         scale: HphobScales.Scale, name: string, sqrt: real -> real)
    requires n < |coords| && |scale| > 0
    requires Regions(coords, n, radius, scale, name, sqrt).Ok?
    requires SphereOf(coords[n].1, coords, |coords|, radius, scale, sqrt,
                      Regions(coords, n, radius, scale, name, sqrt).value.last).Ok?
    requires SphereOf(coords[n].1, coords, |coords|, radius, scale, sqrt,
                      Regions(coords, n, radius, scale, name, sqrt).value.last).value.indices != []
    ensures var mean := Average(SphereOf(coords[n].1, coords, |coords|, radius, scale, sqrt,
                                         Regions(coords, n, radius, scale, name, sqrt).value.last).value.indices);
      var lo, hi := HphobScales.MinValue(scale), HphobScales.MaxValue(scale);
      var e := Colors.Entry(mean, lo, hi);
      lo <= mean <= hi &&
      Colors.Threshold(lo, hi, e - 1) <= mean && (e < 10 ==> mean < Colors.Threshold(lo, hi, e))
  {
    RegionMeanInRange(coords, n, radius, scale, name, sqrt);
    var h := Regions(coords, n, radius, scale, name, sqrt).value.last;
    var mean := Average(SphereOf(coords[n].1, coords, |coords|, radius, scale, sqrt, h).value.indices);
    Colors.ClassifyBand(mean, HphobScales.MinValue(scale), HphobScales.MaxValue(scale), name);
  }

  // ----- the moments as a plain sum -----

  /** Every residue id starts with a key of the scale. */
  ghost predicate WellKeyed(coords: Coords, scale: HphobScales.Scale) {
    forall i :: 0 <= i < |coords| ==> LastMatch(scale, coords[i].0).Some?
  }

  /** The sum, over the members among the first `k` residues, of their unit vectors scaled by their indices. */
  ghost function MemberSum(c: Vec, coords: Coords, k: nat, radius: real,
                           scale: HphobScales.Scale, sqrt: real -> real): Vec
    requires k <= |coords| && WellKeyed(coords, scale)
  {
    if k == 0 then Zero
    else
      var rest := MemberSum(c, coords, k - 1, radius, scale, sqrt);
      var e := coords[k - 1];
      if (Distance(c, e.1) as real) < radius
      then Add(rest, Times(UnitVector(Sub(e.1, c), sqrt), LastMatch(scale, e.0).value))
      else rest
  }

  /** The indices of the members among the first `k` residues, in order. */
  ghost function MemberIndices(c: Vec, coords: Coords, k: nat, radius: real,
                               scale: HphobScales.Scale): seq<real>
    requires k <= |coords| && WellKeyed(coords, scale)
  {
    if k == 0 then []
    else
      var rest := MemberIndices(c, coords, k - 1, radius, scale);
      var e := coords[k - 1];
      if (Distance(c, e.1) as real) < radius then rest + [LastMatch(scale, e.0).value] else rest
  }

  /** When every id is matched, a sphere is the plain sum over its members, whatever index came before. */
  lemma {:induction false} SphereIsMemberSum(c: Vec, coords: Coords, k: nat, radius: real,
                                             scale: HphobScales.Scale, sqrt: real -> real, h0: Option<real>)
    requires k <= |coords| && WellKeyed(coords, scale)
    ensures SphereOf(c, coords, k, radius, scale, sqrt, h0).Ok?
    ensures SphereOf(c, coords, k, radius, scale, sqrt, h0).value.sum == MemberSum(c, coords, k, radius, scale, sqrt)
    ensures SphereOf(c, coords, k, radius, scale, sqrt, h0).value.indices == MemberIndices(c, coords, k, radius, scale)
  {
    if k > 0 {
      SphereIsMemberSum(c, coords, k - 1, radius, scale, sqrt, h0);
      assert LastMatch(scale, coords[k - 1].0).Some?;
    }
  }

  lemma {:induction false} CentreIsMemberIndex(c: Vec, coords: Coords, k: nat, j: nat, radius: real,
                                               scale: HphobScales.Scale)
    requires 0.0 < radius && j < k <= |coords| && coords[j].1 == c && WellKeyed(coords, scale)
    ensures MemberIndices(c, coords, k, radius, scale) != []
  {
    var rest := MemberIndices(c, coords, k - 1, radius, scale);
    if j < k - 1 {
      CentreIsMemberIndex(c, coords, k - 1, j, radius, scale);
      assert |MemberIndices(c, coords, k, radius, scale)| >= |rest|;
    } else {
      DistanceSelf(c);
      assert MemberIndices(c, coords, k, radius, scale) == rest + [LastMatch(scale, coords[j].0).value];
    }
  }

  /**
   * The moment the plain sum gives for the region centred at `c`: the sum
   * of its members' scaled unit vectors, coloured by the mean of their
   * indices. A point with no members, which no centre is under a positive
   * radius, gets the zero vector and the colour of a zero mean.
   */
  ghost function MemberMoment(c: Vec, coords: Coords, radius: real, scale: HphobScales.Scale,
                              name: string, sqrt: real -> real): Moment
    requires WellKeyed(coords, scale) && |scale| > 0
  {
    var indices := MemberIndices(c, coords, |coords|, radius, scale);
    Moment(MemberSum(c, coords, |coords|, radius, scale, sqrt),
      Colors.Classify(if indices == [] then 0.0 else Average(indices),
        HphobScales.MinValue(scale), HphobScales.MaxValue(scale), name))
  }

  /** The assignments the first `n` centres make under the plain sum: each point with its moment. */
  ghost function MemberPairs(coords: Coords, n: nat, radius: real, scale: HphobScales.Scale,
                             name: string, sqrt: real -> real): (ps: seq<(Vec, Moment)>)
    requires n <= |coords| && WellKeyed(coords, scale) && |scale| > 0
    ensures |ps| == n
  {
    seq(n, i requires 0 <= i < n => (coords[i].1, MemberMoment(coords[i].1, coords, radius, scale, name, sqrt)))
  }

  /** When every id is matched, the region at a centre assigns the plain-sum moment to its point. */
  lemma RegionIsMemberMoment(coords: Coords, j: nat, radius: real, scale: HphobScales.Scale,
                             name: string, sqrt: real -> real, st: State)
    requires 0.0 < radius && j < |coords| && |scale| > 0 && WellKeyed(coords, scale)
    ensures MemberIndices(coords[j].1, coords, |coords|, radius, scale) != []
    ensures Region(coords, coords[j], radius, scale, name, sqrt, st).Ok?
    ensures Region(coords, coords[j], radius, scale, name, sqrt, st).value.out ==
      PyDict.Put(st.out, coords[j].1, MemberMoment(coords[j].1, coords, radius, scale, name, sqrt))
  {
    SphereIsMemberSum(coords[j].1, coords, |coords|, radius, scale, sqrt, st.last);
    CentreIsMemberIndex(coords[j].1, coords, |coords|, j, radius, scale);
  }

  /** When every id is matched, the first `n` centres make exactly the plain-sum assignments, in order. */
  lemma {:induction false} RegionsAreMemberPairs(coords: Coords, n: nat, radius: real,
                                                 scale: HphobScales.Scale, name: string, sqrt: real -> real)
    requires 0.0 < radius && n <= |coords| && |scale| > 0 && WellKeyed(coords, scale)
    ensures Regions(coords, n, radius, scale, name, sqrt).Ok?
    ensures Regions(coords, n, radius, scale, name, sqrt).value.out ==
      PyDict.PutAll(MemberPairs(coords, n, radius, scale, name, sqrt))
  {
    if n > 0 {
      RegionsAreMemberPairs(coords, n - 1, radius, scale, name, sqrt);
      var st := Regions(coords, n - 1, radius, scale, name, sqrt).value;
      RegionIsMemberMoment(coords, n - 1, radius, scale, name, sqrt, st);
      var ps := MemberPairs(coords, n, radius, scale, name, sqrt);
      assert ps[..n - 1] == MemberPairs(coords, n - 1, radius, scale, name, sqrt);
    }
  }

  /** The plain-sum assignments read back as each centre's moment. */
  lemma MemberPairsGet(coords: Coords, radius: real, scale: HphobScales.Scale,
                       name: string, sqrt: real -> real)
    requires WellKeyed(coords, scale) && |scale| > 0
    ensures forall i :: 0 <= i < |coords| ==>
      PyDict.Get(PyDict.PutAll(MemberPairs(coords, |coords|, radius, scale, name, sqrt)), coords[i].1) ==
        Some(MemberMoment(coords[i].1, coords, radius, scale, name, sqrt))
  {
    var ps := MemberPairs(coords, |coords|, radius, scale, name, sqrt);
    assert forall i :: 0 <= i < |ps| ==> ps[i].0 == coords[i].1;
    PyDict.PutAllGet(ps);
  }

  /** When every id is matched and the radius is positive, every centre has a member. */
  lemma CentresHaveMembers(coords: Coords, radius: real, scale: HphobScales.Scale)
    requires 0.0 < radius && WellKeyed(coords, scale)
    ensures forall i :: 0 <= i < |coords| ==> MemberIndices(coords[i].1, coords, |coords|, radius, scale) != []
  {
    forall i | 0 <= i < |coords|
      ensures MemberIndices(coords[i].1, coords, |coords|, radius, scale) != []
    {
      CentreIsMemberIndex(coords[i].1, coords, |coords|, i, radius, scale);
    }
  }

  /**
   * When every residue id starts with a key of the scale and the radius is
   * positive, the computation succeeds and every centre's coordinates map to
   * the plain sum of its members' scaled unit vectors, coloured by the mean
   * of their indices.
   */
  lemma WellKeyedMoments(coords: Coords, radius: real, name: string, sqrt: real -> real)
    requires 0.0 < radius && HphobScales.Lookup(name).Some?
    requires WellKeyed(coords, HphobScales.Lookup(name).value)
    ensures HMoments(coords, radius, name, sqrt).Ok?
    ensures forall i :: 0 <= i < |coords| ==>
      var scale := HphobScales.Lookup(name).value;
      |scale| > 0 &&
      MemberIndices(coords[i].1, coords, |coords|, radius, scale) != [] &&
      PyDict.Get(HMoments(coords, radius, name, sqrt).value, coords[i].1) ==
        Some(MemberMoment(coords[i].1, coords, radius, scale, name, sqrt))
  {
    var scale := HphobScales.Lookup(name).value;
    HphobScales.LookupWellFormed(name);
    RegionsAreMemberPairs(coords, |coords|, radius, scale, name, sqrt);
    MemberPairsGet(coords, radius, scale, name, sqrt);
    CentresHaveMembers(coords, radius, scale);
  }

  // ----- the stale index -----

  lemma FloorSqrtOfSquare(n: nat)
    ensures FloorSqrt((n * n) as real) == n
  {
    var r := FloorSqrt((n * n) as real);
    if r < n {
      SquareMono(r + 1, n);
    } else if n < r {
      SquareMono(n + 1, r);
    }
  }

  lemma PrefixOf(a: string, b: string)
    ensures a <= b ==> |a| <= |b| && b[..|a|] == a
  {
  }

  /** An id whose first three letters are no residue name matches no key of a well-formed scale. */
  lemma NoKeyMatches(scale: HphobScales.Scale, id: string)
    requires HphobScales.WellFormed(scale)
    requires |id| >= 3 && id[..3] !in HphobScales.ResidueCodes
    ensures LastMatch(scale, id) == None
  {
    HphobScales.ResidueCodeLengths();
    forall i | 0 <= i < |scale|
      ensures !(scale[i].0 <= id)
    {
      var code := HphobScales.ResidueCodes[i];
      assert scale[i].0 == code && |code| == 3;
      PrefixOf(code, id);
      assert code in HphobScales.ResidueCodes;
    }
    LastMatchSpec(scale, id);
  }

  lemma WaterIsNoResidue()
    ensures "HOH" !in HphobScales.ResidueCodes
  {
  }

  /**
   * On any of the scales, a residue whose id matches no key (a water here)
   * still counts as a member: it adds its raw displacement and repeats the
   * index set last, the alanine's.
   */
  lemma StaleIndexExample(c: Vec, scale: HphobScales.Scale, sqrt: real -> real)
    requires HphobScales.WellFormed(scale)
    ensures SphereOf(c, [("ALA1", c), ("HOH2", Add(c, Vec(1.0, 0.0, 0.0)))], 2, 4.0, scale, sqrt, None)
      == Ok(Sphere(Vec(1.0, 0.0, 0.0), [scale[0].1, scale[0].1], Some(scale[0].1)))
  {
    var p := Add(c, Vec(1.0, 0.0, 0.0));
    var coords := [("ALA1", c), ("HOH2", p)];
    var v := scale[0].1;
    var s1 := Sphere(Zero, [v], Some(v));
    assert Visit(c, coords[0], 4.0, scale, sqrt, Sphere(Zero, [], None)) == Ok(s1) by {
      DistanceSelf(c);
      assert scale[0].0 == "ALA" <= "ALA1";
      LastMatchWellFormed(scale, "ALA1", 0);
      assert Sub(c, c) == Zero;
      UnitVectorOfZero(sqrt);
      TimesZero(v);
      assert [] + [v] == [v];
    }
    assert Visit(c, coords[1], 4.0, scale, sqrt, s1) == Ok(Sphere(Vec(1.0, 0.0, 0.0), [v, v], Some(v))) by {
      FloorSqrtOfSquare(1);
      assert Sub(p, c) == Vec(1.0, 0.0, 0.0);
      assert DistSq(c, p) == 1.0;
      WaterIsNoResidue();
      assert "HOH2"[..3] == "HOH";
      NoKeyMatches(scale, "HOH2");
      assert [v] + [v] == [v, v];
    }
    assert SphereOf(c, coords, 1, 4.0, scale, sqrt, None) == Ok(s1);
  }

  /** On any of the scales, a first member that matches no key, with no index set before, raises UnboundLocalError. */
  lemma UnboundIndexExample(c: Vec, scale: HphobScales.Scale, sqrt: real -> real)
    requires HphobScales.WellFormed(scale)
    ensures SphereOf(c, [("HOH1", c)], 1, 4.0, scale, sqrt, None) == Fail(UnboundIndex("HOH1"))
  {
    DistanceSelf(c);
    WaterIsNoResidue();
    assert "HOH1"[..3] == "HOH";
    NoKeyMatches(scale, "HOH1");
  }
}
