/**
 * The hydropathy moments of the surface regions. Every surface residue's
 * alpha carbon is the centre of a sphere; the residues whose truncated
 * distance from it is below the radius are its members. The region's moment
 * is the sum, over its members, of the unit vector from the centre scaled by
 * the member's hydropathy index; its colour is that of the members' mean
 * index on the chosen scale.
 */
module Moments {
  import opened Wrappers
  import opened Vectors
  import PyDict
  import HphobScales
  import ColorScales
  import Colors

  /** Residue ids (residue name followed by its number) mapped to alpha-carbon coordinates. */
  type Coords = PyDict.Dict<string, Vec>

  /** A region's moment and the colour of its mean index. */
  datatype Moment = Moment(vector: Vec, color: ColorScales.Rgb)

  /** Moments keyed by the coordinates of their centre. */
  type Moments = PyDict.Dict<Vec, Moment>

  /** The ways the computation stops with a Python exception. */
  datatype Fault =
    | UnknownScale(name: string)          // KeyError on the scale name
    | UnboundIndex(id: string)            // UnboundLocalError: no index set yet
    | EmptyNeighbourhood(centre: string)  // ZeroDivisionError: a sphere without members

  /**
   * A sphere under construction: the running moment, the indices appended so
   * far, and the last index set, which persists across spheres.
   */
  datatype Sphere = Sphere(sum: Vec, indices: seq<real>, last: Option<real>)

  /** The moments computed so far and the last index set. */
  datatype State = State(out: Moments, last: Option<real>)

  function FloorSqrtFrom(x: real, n: nat): (r: nat)
    requires (n * n) as real <= x
    ensures (r * r) as real <= x < ((r + 1) * (r + 1)) as real
    decreases x.Floor - n
  {
    if x < ((n + 1) * (n + 1)) as real then n
    else
      assert n + 1 <= (n + 1) * (n + 1);
      FloorSqrtFrom(x, n + 1)
  }

  /** The largest natural number whose square is at most `x`. */
  function FloorSqrt(x: real): (r: nat)
    requires 0.0 <= x
    ensures (r * r) as real <= x < ((r + 1) * (r + 1)) as real
  {
    FloorSqrtFrom(x, 0)
  }

  /** `distance`: the Euclidean distance between two points, truncated to an integer. */
  function Distance(a: Vec, b: Vec): nat {
    NormSqNonNegative(Sub(a, b));
    FloorSqrt(DistSq(a, b))
  }

  /** The least integer at or above `r`. */
  function Ceiling(r: real): int {
    -((-r).Floor)
  }

  /**
   * `unit_vector`: the vector divided by its length, or the vector itself
   * when the length is zero. `sqrt` stands for `math.sqrt`.
   */
  function UnitVector(v: Vec, sqrt: real -> real): Vec {
    var m := sqrt(NormSq(v));
    if m != 0.0 then Vec(v.x / m, v.y / m, v.z / m) else v
  }

  function Sum(s: seq<real>): real {
    if s == [] then 0.0 else Sum(s[..|s| - 1]) + s[|s| - 1]
  }

  /** `get_average`: the arithmetic mean; Python divides by zero on an empty list. */
  function Average(s: seq<real>): real
    requires |s| > 0
  {
    Sum(s) / (|s| as real)
  }

  /**
   * The index the key loop leaves set for a residue id: the value of the
   * last key of the scale the id starts with, if any.
   */
  function LastMatch(scale: HphobScales.Scale, id: string): Option<real> {
    if scale == [] then None
    else if scale[|scale| - 1].0 <= id then Some(scale[|scale| - 1].1)
    else LastMatch(scale[..|scale| - 1], id)
  }

  /** No index is set exactly when the id starts with no key. */
  lemma {:induction false} LastMatchNone(scale: HphobScales.Scale, id: string)
    ensures LastMatch(scale, id).None? <==> forall i :: 0 <= i < |scale| ==> !(scale[i].0 <= id)
  {
    if scale != [] && !(scale[|scale| - 1].0 <= id) {
      var p := scale[..|scale| - 1];
      LastMatchNone(p, id);
      assert forall i :: 0 <= i < |p| ==> p[i] == scale[i];
    }
  }

  /** A set index is the value of key `i`, which the id starts with, and no later key matches. */
  lemma {:induction false} LastMatchIndex(scale: HphobScales.Scale, id: string) returns (i: nat)
    requires LastMatch(scale, id).Some?
    ensures i < |scale| && scale[i].0 <= id && scale[i].1 == LastMatch(scale, id).value
    ensures forall j :: i < j < |scale| ==> !(scale[j].0 <= id)
  {
    var n := |scale| - 1;
    if scale[n].0 <= id {
      i := n;
    } else {
      var p := scale[..n];
      i := LastMatchIndex(p, id);
      assert forall j :: 0 <= j < |p| ==> p[j] == scale[j];
    }
  }

  /**
   * No index is set exactly when the id starts with no key; otherwise the
   * index is the value of a key it starts with, and no later key matches.
   */
  lemma LastMatchSpec(scale: HphobScales.Scale, id: string)
    ensures LastMatch(scale, id).None? <==> forall i :: 0 <= i < |scale| ==> !(scale[i].0 <= id)
    ensures LastMatch(scale, id).Some? ==> exists i :: (0 <= i < |scale| && scale[i].0 <= id &&
      scale[i].1 == LastMatch(scale, id).value && forall j :: i < j < |scale| ==> !(scale[j].0 <= id))
  {
    LastMatchNone(scale, id);
    if LastMatch(scale, id).Some? {
      var i := LastMatchIndex(scale, id);
    }
  }

  /**
   * What one member adds to the moment: its unit vector scaled by the index
   * the key loop matched, or, when no key matched, the raw displacement.
   */
  function Contribution(d: Vec, u: Vec, m: Option<real>): Vec {
    if m.Some? then Times(u, m.value) else d
  }

  /** One step of the inner loop: the residue `e` seen from centre `c`. */
  function Visit(c: Vec, e: (string, Vec), radius: real, scale: HphobScales.Scale,
                 sqrt: real -> real, sp: Sphere): Result<Sphere, Fault>
  {
    if (Distance(c, e.1) as real) < radius then
      var d := Sub(e.1, c);
      var m := LastMatch(scale, e.0);
      var h := if m.Some? then m else sp.last;
      if h.None? then Fail(UnboundIndex(e.0))
      else Ok(Sphere(Add(sp.sum, Contribution(d, UnitVector(d, sqrt), m)), sp.indices + [h.value], h))
    else Ok(sp)
  }

  /** The sphere around `c` after visiting the first `k` residues, starting from index `h0`. */
  function SphereOf(c: Vec, coords: Coords, k: nat, radius: real, scale: HphobScales.Scale,
                    sqrt: real -> real, h0: Option<real>): Result<Sphere, Fault>
    requires k <= |coords|
  {
    if k == 0 then Ok(Sphere(Zero, [], h0))
    else
      match SphereOf(c, coords, k - 1, radius, scale, sqrt, h0)
      case Fail(f) => Fail(f)
      case Ok(sp) => Visit(c, coords[k - 1], radius, scale, sqrt, sp)
  }

  /** One step of the outer loop: the region centred on the residue `centre`. */
  function Region(coords: Coords, centre: (string, Vec), radius: real, scale: HphobScales.Scale,
                  name: string, sqrt: real -> real, st: State): Result<State, Fault>
    requires |scale| > 0
  {
    match SphereOf(centre.1, coords, |coords|, radius, scale, sqrt, st.last)
    case Fail(f) => Fail(f)
    case Ok(sp) =>
      if sp.indices == [] then Fail(EmptyNeighbourhood(centre.0))
      else
        var color := Colors.Classify(Average(sp.indices),
          HphobScales.MinValue(scale), HphobScales.MaxValue(scale), name);
        Ok(State(PyDict.Put(st.out, centre.1, Moment(sp.sum, color)), sp.last))
  }

  /** The state after the first `n` centres. */
  function Regions(coords: Coords, n: nat, radius: real, scale: HphobScales.Scale,
                   name: string, sqrt: real -> real): Result<State, Fault>
    requires n <= |coords| && |scale| > 0
  {
    if n == 0 then Ok(State([], None))
    else
      match Regions(coords, n - 1, radius, scale, name, sqrt)
      case Fail(f) => Fail(f)
      case Ok(st) => Region(coords, coords[n - 1], radius, scale, name, sqrt, st)
  }

  /** What `get_H_moments` returns, or the exception it raises. */
  function HMoments(coords: Coords, radius: real, name: string, sqrt: real -> real): Result<Moments, Fault> {
    match HphobScales.Lookup(name)
    case None => Fail(UnknownScale(name))
    case Some(scale) =>
      HphobScales.LookupWellFormed(name);
      match Regions(coords, |coords|, radius, scale, name, sqrt)
      case Fail(f) => Fail(f)
      case Ok(st) => Ok(st.out)
  }

  lemma {:induction false} SphereFailPersists(c: Vec, coords: Coords, k: nat, radius: real,
                                              scale: HphobScales.Scale, sqrt: real -> real, h0: Option<real>)
    requires k <= |coords|
    requires SphereOf(c, coords, k, radius, scale, sqrt, h0).Fail?
    ensures SphereOf(c, coords, |coords|, radius, scale, sqrt, h0) == SphereOf(c, coords, k, radius, scale, sqrt, h0)
    decreases |coords| - k
  {
    if k < |coords| {
      SphereFailPersists(c, coords, k + 1, radius, scale, sqrt, h0);
    }
  }

  lemma {:induction false} RegionsFailPersists(coords: Coords, n: nat, radius: real,
                                               scale: HphobScales.Scale, name: string, sqrt: real -> real)
    requires n <= |coords| && |scale| > 0
    requires Regions(coords, n, radius, scale, name, sqrt).Fail?
    ensures Regions(coords, |coords|, radius, scale, name, sqrt) == Regions(coords, n, radius, scale, name, sqrt)
    decreases |coords| - n
  {
    if n < |coords| {
      RegionsFailPersists(coords, n + 1, radius, scale, name, sqrt);
    }
  }

  /**
   * The key loop of `get_H_moments`: every key the id starts with sets the
   * index and replaces the displacement `d` by the unit vector `u` scaled by
   * that key's value.
   */
  method ScanKeys(scale: HphobScales.Scale, id: string, d: Vec, u: Vec, h: Option<real>)
    returns (x: Vec, h': Option<real>)
    ensures x == Contribution(d, u, LastMatch(scale, id))
    ensures h' == if LastMatch(scale, id).Some? then LastMatch(scale, id) else h
  {
    x, h' := d, h;
    var t := 0;
    while t < |scale|
      invariant 0 <= t <= |scale|
      invariant x == Contribution(d, u, LastMatch(scale[..t], id))
      invariant h' == if LastMatch(scale[..t], id).Some? then LastMatch(scale[..t], id) else h
    {
      assert scale[..t + 1][..t] == scale[..t];
      if scale[t].0 <= id {
        h' := Some(scale[t].1);
        x := Times(u, scale[t].1);
      }
      t := t + 1;
    }
    assert scale[..|scale|] == scale;
  }

  /**
   * The inner loop of `get_H_moments`: visits every residue from centre `c`,
   * accumulating the moment and the members' indices.
   */
  method BuildSphere(c: Vec, coords: Coords, radius: real, scale: HphobScales.Scale,
                     sqrt: real -> real, h0: Option<real>) returns (r: Result<Sphere, Fault>)
    ensures r == SphereOf(c, coords, |coords|, radius, scale, sqrt, h0)
  {
    var sum := Zero;
    var indices: seq<real> := [];
    var h := h0;
    var k := 0;
    while k < |coords|
      invariant 0 <= k <= |coords|
      invariant SphereOf(c, coords, k, radius, scale, sqrt, h0) == Ok(Sphere(sum, indices, h))
    {
      var (id2, ca2) := coords[k];
      if (Distance(c, ca2) as real) < radius {
        var d := Sub(ca2, c);
        var x;
        x, h := ScanKeys(scale, id2, d, UnitVector(d, sqrt), h);
        if h.None? {
          SphereFailPersists(c, coords, k + 1, radius, scale, sqrt, h0);
          return Fail(UnboundIndex(id2));
        }
        sum := Add(sum, x);
        indices := indices + [h.value];
      }
      k := k + 1;
    }
    return Ok(Sphere(sum, indices, h));
  }

  /**
   * `get_H_moments`: for every residue as centre, builds its sphere and
   * records the moment and the colour of the mean index under the centre's
   * coordinates.
   */
  method GetHMoments(coords: Coords, radius: real, name: string, sqrt: real -> real)
    returns (r: Result<Moments, Fault>)
    ensures r == HMoments(coords, radius, name, sqrt)
  {
    var found := HphobScales.Lookup(name);
    if found.None? {
      return Fail(UnknownScale(name));
    }
    var scale := found.value;
    HphobScales.LookupWellFormed(name);
    var maxH := HphobScales.MaxValue(scale);
    var minH := HphobScales.MinValue(scale);
    var moments: Moments := [];
    var h: Option<real> := None;
    var n := 0;
    while n < |coords|
      invariant 0 <= n <= |coords|
      invariant Regions(coords, n, radius, scale, name, sqrt) == Ok(State(moments, h))
    {
      var (id1, ca1) := coords[n];
      var sphere := BuildSphere(ca1, coords, radius, scale, sqrt, h);
      if sphere.Fail? {
        RegionsFailPersists(coords, n + 1, radius, scale, name, sqrt);
        return Fail(sphere.error);
      }
      if sphere.value.indices == [] {
        RegionsFailPersists(coords, n + 1, radius, scale, name, sqrt);
        return Fail(EmptyNeighbourhood(id1));
      }
      var mean := Average(sphere.value.indices);
      var color := Colors.GetColor(mean, minH, maxH, name);
      moments := PyDict.Put(moments, ca1, Moment(sphere.value.sum, color));
      h := sphere.value.last;
      n := n + 1;
    }
    return Ok(moments);
  }
}
