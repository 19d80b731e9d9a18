/**
  LED frames and the preset resolver: the `BUTTON_ENTER` arm of `loop`
  clears `nextLeds` to black and then lights, with `fill_solid`, the span of
  white LEDs that the selected menu item names. The strip length `n` is a
  parameter; the firmware's LED_COUNT is 144.
 */
module Preset {
  import opened Units
  import opened Menu

  /** A `CRGB` value. */
  datatype Color = Rgb(red: Byte, green: Byte, blue: Byte)

  const Black: Color := Rgb(0, 0, 0)
  const White: Color := Rgb(255, 255, 255)

  /** One colour per LED, in strip order. */
  type Frame = seq<Color>

  /** LED_COUNT. */
  const LedCount: nat := 144

  /** A frame of `n` LEDs all of colour `c`. */
  function Solid(n: nat, c: Color): (r: Frame)
    ensures |r| == n
    ensures forall i :: 0 <= i < n ==> r[i] == c
  {
    seq(n, _ => c)
  }

  /** `fill_solid(&f[start], count, c)`: the `count` LEDs from `start` take
      colour `c` and every other LED keeps its colour. The C call writes past
      the buffer unless the span fits, which is the precondition here. */
  function FillSolid(f: Frame, start: nat, count: nat, c: Color): (r: Frame)
    requires start + count <= |f|
    ensures |r| == |f|
    ensures forall i :: 0 <= i < |f| ==> r[i] == if start <= i < start + count then c else f[i]
  {
    f[..start] + Solid(count, c) + f[start + count..]
  }

  /** The span [lo, hi) of LEDs a menu item lights white on an `n`-LED strip:
      nothing for Off, everything for All, the first third for Left, the
      last third for Right, and for Center a third whose start sits half a
      third before the middle (all divisions rounding down). An item outside
      the menu lights nothing. */
  function WhiteSpan(m: Byte, n: nat): (span: (nat, nat))
  {
    if m == ItemAll then (0, n)
    else if m == ItemLeft then (0, n / 3)
    else if m == ItemCenter then (n / 2 - n / 3 / 2, n / 2 - n / 3 / 2 + n / 3)
    else if m == ItemRight then (n - n / 3, n)
    else (0, 0)
  }

  /** Every span lies inside the strip; Left, Center and Right each light
      exactly a third of it (rounded down). */
  lemma SpanFitsStrip(m: Byte, n: nat)
    ensures WhiteSpan(m, n).0 <= WhiteSpan(m, n).1 <= n
    ensures m == ItemLeft || m == ItemCenter || m == ItemRight ==>
              WhiteSpan(m, n).1 - WhiteSpan(m, n).0 == n / 3
  {
  }

  /** The frame the `BUTTON_ENTER` arm leaves in `nextLeds`. It depends on
      the selected item and the strip length only, and is white exactly on
      the item's span and black everywhere else. */
  function Resolve(m: Byte, n: nat): (r: Frame)
    ensures |r| == n
    ensures forall i :: 0 <= i < n ==>
              r[i] == if WhiteSpan(m, n).0 <= i < WhiteSpan(m, n).1 then White else Black
  {
    var cleared := Solid(n, Black);
    if m == ItemOff then FillSolid(cleared, 0, n, Black)
    else if m == ItemAll then FillSolid(cleared, 0, n, White)
    else if m == ItemLeft then FillSolid(cleared, 0, n / 3, White)
    else if m == ItemCenter then FillSolid(cleared, n / 2 - n / 3 / 2, n / 3, White)
    else if m == ItemRight then FillSolid(cleared, n - n / 3, n / 3, White)
    else cleared
  }

  /** Off and All give uniform frames, all black and all white. */
  lemma OffAndAllAreUniform(n: nat)
    ensures Resolve(ItemOff, n) == Solid(n, Black)
    ensures Resolve(ItemAll, n) == Solid(n, White)
  {
  }

  /** On the firmware's 144-LED strip Left lights [0, 48), Center [48, 96)
      and Right [96, 144). */
  lemma SpansOfFirmwareStrip()
    ensures WhiteSpan(ItemLeft, LedCount) == (0, 48)
    ensures WhiteSpan(ItemCenter, LedCount) == (48, 96)
    ensures WhiteSpan(ItemRight, LedCount) == (96, 144)
  {
  }

  /** When the strip length is a multiple of six the Left, Center and Right
      presets tile it: every LED is white in exactly one of the three. */
  lemma ThirdsTileStrip(n: nat, i: nat)
    requires n % 6 == 0
    requires i < n
    ensures var l := Resolve(ItemLeft, n)[i] == White;
            var c := Resolve(ItemCenter, n)[i] == White;
            var r := Resolve(ItemRight, n)[i] == White;
            (l || c || r) && !(l && c) && !(l && r) && !(c && r)
  {
  }
}
