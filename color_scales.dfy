/**
 * The two ten-colour tables used to colour hydropathy moments: a forward
 * table running from blue (entry 1, most hydrophilic) to red (entry 10, most
 * hydrophobic), and its mirror image for the scales whose signs run the other
 * way. Colours are triples of components in [0, 1], each an 8-bit code
 * divided by 255, which is the form UCSF Chimera reads.
 */
module ColorScales {

  /** A colour with three components, each meant to lie in [0, 1]. */
  datatype Rgb = Rgb(red: real, green: real, blue: real)

  /** An 8-bit colour code, each component meant to lie in 0..255. */
  datatype Code = Code(r: int, g: int, b: int)

  /** The codes `rgb_colors` starts from, keyed 1..10, in literal order. */
  const Codes: seq<(int, Code)> := [
    (1, Code(0, 0, 255)),
    (2, Code(0, 64, 255)),
    (3, Code(51, 153, 255)),
    (4, Code(102, 178, 255)),
    (5, Code(204, 229, 255)),
    (6, Code(255, 204, 204)),
    (7, Code(255, 153, 153)),
    (8, Code(255, 102, 102)),
    (9, Code(255, 51, 51)),
    (10, Code(255, 0, 0))
  ]

  /** The forward table as stored: blue to red. */
  const ColorsDict: map<int, Rgb> := map[
    1 := Rgb(0.0, 0.0, 1.0),
    2 := Rgb(0.0, 0.25098039215686274, 1.0),
    3 := Rgb(0.2, 0.6, 1.0),
    4 := Rgb(0.4, 0.6980392156862745, 1.0),
    5 := Rgb(0.8, 0.8980392156862745, 1.0),
    6 := Rgb(1.0, 0.8, 0.8),
    7 := Rgb(1.0, 0.6, 0.6),
    8 := Rgb(1.0, 0.4, 0.4),
    9 := Rgb(1.0, 0.2, 0.2),
    10 := Rgb(1.0, 0.0, 0.0)
  ]

  /** The reverse table as stored: red to blue. */
  const ColorsReverseDict: map<int, Rgb> := map[
    1 := Rgb(1.0, 0.0, 0.0),
    2 := Rgb(1.0, 0.2, 0.2),
    3 := Rgb(1.0, 0.4, 0.4),
    4 := Rgb(1.0, 0.6, 0.6),
    5 := Rgb(1.0, 0.8, 0.8),
    6 := Rgb(0.8, 0.8980392156862745, 1.0),
    7 := Rgb(0.4, 0.6980392156862745, 1.0),
    8 := Rgb(0.2, 0.6, 1.0),
    9 := Rgb(0.0, 0.25098039215686274, 1.0),
    10 := Rgb(0.0, 0.0, 1.0)
  ]

  /** The table entries 1..10. */
  ghost predicate IsEntry(i: int) {
    1 <= i <= 10
  }

  ghost predicate InUnit(c: Rgb) {
    0.0 <= c.red <= 1.0 && 0.0 <= c.green <= 1.0 && 0.0 <= c.blue <= 1.0
  }

  ghost predicate IsByte(c: Code) {
    0 <= c.r <= 255 && 0 <= c.g <= 255 && 0 <= c.b <= 255
  }

  /** A code divided by 255, component by component. */
  function Scaled(c: Code): (r: Rgb)
    ensures IsByte(c) ==> InUnit(r)
  {
    Rgb(c.r as real / 255.0, c.g as real / 255.0, c.b as real / 255.0)
  }

  /** Two colours whose components differ by less than 10^-16. */
  ghost predicate Close(a: Rgb, b: Rgb) {
    -0.0000000000000001 < a.red - b.red < 0.0000000000000001 &&
    -0.0000000000000001 < a.green - b.green < 0.0000000000000001 &&
    -0.0000000000000001 < a.blue - b.blue < 0.0000000000000001
  }

  /** The code list is keyed 1..10 in order, and every code is a byte triple. */
  lemma CodesShape()
    ensures |Codes| == 10
    ensures forall k :: 0 <= k < |Codes| ==> Codes[k].0 == k + 1 && IsByte(Codes[k].1)
  {
  }

  /**
   * `rgb_colors`: divides every code by 255 into a forward table, then fills
   * a reverse table by walking the sorted keys while counting down from 10.
   */
  method RgbColors() returns (forward: map<int, Rgb>, reverse: map<int, Rgb>)
    ensures forall i :: i in forward <==> IsEntry(i)
    ensures forall i :: i in reverse <==> IsEntry(i)
    ensures forall k :: 0 <= k < |Codes| ==>
      Codes[k].0 in forward && forward[Codes[k].0] == Scaled(Codes[k].1)
    ensures forall i :: IsEntry(i) ==> 11 - i in forward && reverse[i] == forward[11 - i]
  {
    CodesShape();
    forward := map[];
    var k := 0;
    while k < |Codes|
      invariant 0 <= k <= |Codes|
      invariant forall i :: i in forward <==> 1 <= i <= k
      invariant forall t :: 0 <= t < k ==> forward[Codes[t].0] == Scaled(Codes[t].1)
    {
      var (key, value) := Codes[k];
      forward := forward[key := Scaled(value)];
      k := k + 1;
    }
    // sorted(colors_dict.keys()) is 1, 2, ..., 10
    reverse := map[];
    var i := 10;
    var key := 1;
    while key <= 10
      invariant 1 <= key <= 11 && i == 11 - key
      invariant forall j :: j in reverse <==> i < j <= 10
      invariant forall j :: i < j <= 10 ==> reverse[j] == forward[11 - j]
    {
      reverse := reverse[i := forward[key]];
      i := i - 1;
      key := key + 1;
    }
  }

  /** Both stored tables have exactly the keys 1..10. */
  lemma TableKeys()
    ensures forall i :: i in ColorsDict <==> IsEntry(i)
    ensures forall i :: i in ColorsReverseDict <==> IsEntry(i)
  {
  }

  /** The reverse table is the forward table read backwards. */
  lemma ReverseMirrorsForward()
    ensures forall i :: IsEntry(i) ==> ColorsReverseDict[i] == ColorsDict[11 - i]
  {
  }

  /** Every stored colour has its components in [0, 1]. */
  lemma TablesInUnit()
    ensures forall i :: IsEntry(i) ==> InUnit(ColorsDict[i]) && InUnit(ColorsReverseDict[i])
  {
  }

  /** The forward table runs from pure blue to pure red. */
  lemma BlueToRed()
    ensures ColorsDict[1] == Rgb(0.0, 0.0, 1.0)
    ensures ColorsDict[10] == Rgb(1.0, 0.0, 0.0)
  {
  }

  /**
   * Each stored forward colour is its code divided by 255, up to the rounding
   * of the decimal literals (exact for all but 64/255, 178/255 and 229/255).
   */
  lemma LiteralsAreScaledCodes()
    ensures forall k :: 0 <= k < |Codes| ==> Close(ColorsDict[Codes[k].0], Scaled(Codes[k].1))
  {
    CodesShape();
  }
}
