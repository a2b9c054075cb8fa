/**
 * `get_color`: the colour of a hydropathy value on a scale running from
 * `minimum` to `maximum`. The range is cut by ten evenly spaced thresholds
 * (both ends included); a value takes the colour of the last threshold it
 * reaches. Four scales whose signs run the other way use the reverse table.
 */
module Colors {
  import opened ColorScales

  /** The scales coloured with the reverse table. */
  const ReverseScales: set<string> := {"Guy", "Hopp_Woods", "Welling", "Bull_Breese"}

  /** The gap between consecutive thresholds. */
  function Step(minimum: real, maximum: real): real {
    (maximum - minimum) / 9.0
  }

  /** The `t`-th of the ten thresholds, as `linspace(minimum, maximum, 10)` yields it. */
  function Threshold(minimum: real, maximum: real, t: int): real {
    minimum + (t as real) * Step(minimum, maximum)
  }

  /**
   * The ten thresholds in order: they start at `minimum`, end at `maximum`
   * and are evenly spaced.
   */
  function Linspace(minimum: real, maximum: real): (r: seq<real>)
    ensures |r| == 10
    ensures r[0] == minimum && r[9] == maximum
    ensures forall t :: 0 <= t < 9 ==> r[t + 1] - r[t] == Step(minimum, maximum)
  {
    seq(10, t => Threshold(minimum, maximum, t))
  }

  /** How many elements of `s` the value reaches (`value >= element`). */
  function CountReached(value: real, s: seq<real>): (c: nat)
    ensures c <= |s|
  {
    if s == [] then 0
    else CountReached(value, s[..|s| - 1]) + (if value >= s[|s| - 1] then 1 else 0)
  }

  /**
   * The entry of the colour table that `get_color` picks: one more than the
   * final value of its counter `j`, where `j == -1` reads the last entry.
   */
  function Entry(value: real, minimum: real, maximum: real): (e: int)
    ensures IsEntry(e)
  {
    var c := CountReached(value, Linspace(minimum, maximum));
    if c == 0 then 10 else c
  }

  /** The table a scale is coloured with. */
  function Palette(scale: string): map<int, Rgb> {
    if scale in ReverseScales then ColorsReverseDict else ColorsDict
  }

  /** The colour `get_color` returns. */
  function Classify(value: real, minimum: real, maximum: real, scale: string): Rgb {
    var e := Entry(value, minimum, maximum);
    assert e in Palette(scale) by { TableKeys(); }
    Palette(scale)[e]
  }

  /**
   * `get_color`: lists the ten colours of the scale's table, counts the
   * thresholds the value reaches and returns the colour at that count minus
   * one, with Python's index -1 reading the last colour.
   */
  method GetColor(value: real, minimum: real, maximum: real, scale: string) returns (color: Rgb)
    ensures color == Classify(value, minimum, maximum, scale)
  {
    TableKeys();
    var ranges := Linspace(minimum, maximum);
    var table := Palette(scale);
    var colors: seq<Rgb> := [];
    var i := 1;
    for k := 0 to |ranges|
      invariant |colors| == k && i == k + 1
      invariant forall t :: 0 <= t < k ==> colors[t] == table[t + 1]
    {
      colors := colors + [table[i]];
      i := i + 1;
    }
    var j := -1;
    for k := 0 to |ranges|
      invariant j == CountReached(value, ranges[..k]) - 1
    {
      assert ranges[..k + 1][..k] == ranges[..k];
      if value >= ranges[k] {
        j := j + 1;
      }
    }
    assert ranges[..|ranges|] == ranges;
    if j == -1 {
      color := colors[|colors| - 1];
    } else {
      color := colors[j];
    }
  }

  ghost predicate Sorted(s: seq<real>) {
    forall a, b :: 0 <= a <= b < |s| ==> s[a] <= s[b]
  }

  /** A later threshold is never below an earlier one when the range ascends. */
  lemma ThresholdMono(minimum: real, maximum: real, a: int, b: int)
    requires minimum <= maximum && a <= b
    ensures Threshold(minimum, maximum, a) <= Threshold(minimum, maximum, b)
  {
    var step := Step(minimum, maximum);
    assert 0.0 <= step;
    assert Threshold(minimum, maximum, b) - Threshold(minimum, maximum, a) == ((b - a) as real) * step;
    assert 0.0 <= ((b - a) as real) * step;
  }

  /** The `t`-th element of the sequence is the `t`-th threshold. */
  lemma LinspaceAt(minimum: real, maximum: real)
    ensures forall t :: 0 <= t < 10 ==> Linspace(minimum, maximum)[t] == Threshold(minimum, maximum, t)
  {
  }

  /** The thresholds ascend when the range does. */
  lemma LinspaceSorted(minimum: real, maximum: real)
    requires minimum <= maximum
    ensures Sorted(Linspace(minimum, maximum))
  {
    LinspaceAt(minimum, maximum);
    forall a, b | 0 <= a <= b < 10
      ensures Threshold(minimum, maximum, a) <= Threshold(minimum, maximum, b)
    {
      ThresholdMono(minimum, maximum, a, b);
    }
  }

  /** Reaching more is monotone in the value. */
  lemma {:induction false} CountMonotone(v: real, w: real, s: seq<real>)
    requires v <= w
    ensures CountReached(v, s) <= CountReached(w, s)
  {
    if s != [] {
      CountMonotone(v, w, s[..|s| - 1]);
    }
  }

  /**
   * On ascending thresholds the reached ones form a prefix: those before the
   * count are at most the value and those from the count on exceed it.
   */
  lemma {:induction false} CountSorted(v: real, s: seq<real>)
    requires Sorted(s)
    ensures forall t :: 0 <= t < CountReached(v, s) ==> s[t] <= v
    ensures forall t :: CountReached(v, s) <= t < |s| ==> v < s[t]
  {
    if s != [] {
      var p := s[..|s| - 1];
      assert Sorted(p);
      CountSorted(v, p);
    }
  }

  /**
   * Every colour comes from the ten entries of the scale's table; a value on
   * or above the minimum lands in the band between its entry's threshold and
   * the next one, and a value below the minimum wraps to the last entry.
   */
  lemma ClassifyBand(value: real, minimum: real, maximum: real, scale: string)
    requires minimum <= maximum
    ensures IsEntry(Entry(value, minimum, maximum))
    ensures Classify(value, minimum, maximum, scale) == Palette(scale)[Entry(value, minimum, maximum)]
    ensures minimum <= value ==>
      Threshold(minimum, maximum, Entry(value, minimum, maximum) - 1) <= value
    ensures minimum <= value && Entry(value, minimum, maximum) < 10 ==>
      value < Threshold(minimum, maximum, Entry(value, minimum, maximum))
    ensures value < minimum ==> Entry(value, minimum, maximum) == 10
  {
    var s := Linspace(minimum, maximum);
    LinspaceAt(minimum, maximum);
    LinspaceSorted(minimum, maximum);
    CountSorted(value, s);
    var c := CountReached(value, s);
    if minimum <= value {
      assert s[0] == minimum;
      assert 1 <= c;
      assert s[c - 1] <= value;
    }
  }

  /** Whatever the value and range, the colour's components lie in [0, 1]. */
  lemma ClassifyInUnit(value: real, minimum: real, maximum: real, scale: string)
    ensures InUnit(Classify(value, minimum, maximum, scale))
  {
    TablesInUnit();
    assert IsEntry(Entry(value, minimum, maximum));
  }

  /** Conversely, a value in the band of entry `k` is given entry `k`. */
  lemma EntryOfBand(value: real, minimum: real, maximum: real, k: int)
    requires minimum <= maximum && 1 <= k <= 10
    requires Threshold(minimum, maximum, k - 1) <= value
    requires k < 10 ==> value < Threshold(minimum, maximum, k)
    ensures Entry(value, minimum, maximum) == k
  {
    var s := Linspace(minimum, maximum);
    LinspaceAt(minimum, maximum);
    LinspaceSorted(minimum, maximum);
    CountSorted(value, s);
  }

  /** From the minimum up, a higher value never gets a lower entry. */
  lemma EntryMonotone(v: real, w: real, minimum: real, maximum: real)
    requires minimum <= maximum && minimum <= v <= w
    ensures Entry(v, minimum, maximum) <= Entry(w, minimum, maximum)
  {
    var s := Linspace(minimum, maximum);
    CountMonotone(v, w, s);
    CountMonotone(minimum, v, s);
    assert s[0] == minimum;
    LinspaceSorted(minimum, maximum);
    CountSorted(minimum, s);
  }

  /** The minimum of a proper range takes the first colour of the table. */
  lemma MinimumIsFirst(minimum: real, maximum: real, scale: string)
    requires minimum < maximum
    ensures Classify(minimum, minimum, maximum, scale) == Palette(scale)[1]
  {
    assert 0.0 < Step(minimum, maximum);
    assert minimum < Threshold(minimum, maximum, 1);
    EntryOfBand(minimum, minimum, maximum, 1);
  }

  /** A value at or above the maximum takes the last colour of the table. */
  lemma MaximumIsLast(value: real, minimum: real, maximum: real, scale: string)
    requires minimum <= maximum <= value
    ensures Classify(value, minimum, maximum, scale) == Palette(scale)[10]
  {
    assert Threshold(minimum, maximum, 9) == maximum;
    EntryOfBand(value, minimum, maximum, 10);
  }

  /**
   * The reverse scales get the mirrored colour: entry `e` of the reverse
   * table is entry `11 - e` of the forward one.
   */
  lemma ReverseScalesMirror(value: real, minimum: real, maximum: real, scale: string)
    requires minimum <= maximum && scale in ReverseScales
    ensures Classify(value, minimum, maximum, scale) ==
      ColorsDict[11 - Entry(value, minimum, maximum)]
  {
    ClassifyBand(value, minimum, maximum, scale);
    ReverseMirrorsForward();
  }

  /** Every other scale is coloured with the forward table. */
  lemma ForwardScales(value: real, minimum: real, maximum: real, scale: string)
    requires minimum <= maximum && scale !in ReverseScales
    ensures Classify(value, minimum, maximum, scale) == ColorsDict[Entry(value, minimum, maximum)]
  {
    ClassifyBand(value, minimum, maximum, scale);
  }
}
