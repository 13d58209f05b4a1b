/**
 Colour arithmetic of the strip driver: the six-sector HSV to RGB conversion
 and the 64-entry brightness (gamma) table used by the breathing effect.

 The source derives the largest and smallest channel values from the
 saturation and value percentages with single-precision floats; here they are
 the inputs `rgbMax` and `rgbMin`. The only caller passes saturation and value
 100, for which they are 255 and 0.
 */
module ColorMath {
  import opened LedTypes

  function Max3(c: Rgb): int {
    if c.r >= c.g && c.r >= c.b then c.r else if c.g >= c.b then c.g else c.b
  }

  function Min3(c: Rgb): int {
    if c.r <= c.g && c.r <= c.b then c.r else if c.g <= c.b then c.g else c.b
  }

  /** The adjustment `(rgbMax - rgbMin) * diff / 60` never exceeds the channel span. */
  lemma AdjBound(span: nat, diff: nat)
    requires diff < 60
    ensures 0 <= span * diff / 60 <= span
  {
    assert span * diff <= span * 60;
  }

  /** The conversion inside one turn: `hue` in 0..359 is split into a 60-degree
      sector and an offset inside it, and the offset becomes a linear
      adjustment of the rising or falling channel. */
  function SectorColor(hue: int, rgbMax: int, rgbMin: int): (c: Rgb)
    requires 0 <= hue < 360
    requires 0 <= rgbMin <= rgbMax <= 255
    ensures rgbMin <= c.r <= rgbMax && rgbMin <= c.g <= rgbMax && rgbMin <= c.b <= rgbMax
    ensures Max3(c) == rgbMax && Min3(c) == rgbMin
  {
    var sector := hue / 60;
    var diff := hue % 60;
    AdjBound(rgbMax - rgbMin, diff);
    var adj := (rgbMax - rgbMin) * diff / 60;
    if sector == 0 then Rgb(rgbMax, rgbMin + adj, rgbMin)
    else if sector == 1 then Rgb(rgbMax - adj, rgbMax, rgbMin)
    else if sector == 2 then Rgb(rgbMin, rgbMax, rgbMin + adj)
    else if sector == 3 then Rgb(rgbMin, rgbMax - adj, rgbMax)
    else if sector == 4 then Rgb(rgbMin + adj, rgbMin, rgbMax)
    else Rgb(rgbMax, rgbMin, rgbMax - adj)
  }

  /** `led_strip_hsv2rgb` on a 32-bit hue, which is first reduced mod 360.
      Every channel lies between the two bounds, one channel sits at the upper
      bound and one at the lower bound. */
  function Hsv2Rgb(h: U32, rgbMax: int, rgbMin: int): (c: Rgb)
    requires 0 <= rgbMin <= rgbMax <= 255
    ensures rgbMin <= c.r <= rgbMax && rgbMin <= c.g <= rgbMax && rgbMin <= c.b <= rgbMax
    ensures Max3(c) == rgbMax && Min3(c) == rgbMin
  {
    SectorColor(h % 360, rgbMax, rgbMin)
  }

  /** Hue is taken mod 360: a hue and the same hue one turn later give the same colour. */
  lemma HuePeriodic(h: U32, rgbMax: int, rgbMin: int)
    requires 0 <= rgbMin <= rgbMax <= 255
    requires h + 360 < 0x1_0000_0000
    ensures Hsv2Rgb(h + 360, rgbMax, rgbMin) == Hsv2Rgb(h, rgbMax, rgbMin)
  {
    assert (h + 360) % 360 == h % 360;
  }

  // ---------------------------------------------------------------------------
  // Inverse at full saturation and value
  // ---------------------------------------------------------------------------

  /** The sector offset recovered from the adjustment 255 * diff / 60. */
  function OffsetOf(adj: int): int {
    (4 * adj + 16) / 17
  }

  /** 255 * d / 60 is 17 * d / 4, from which d is recovered as ceil(4 * adj / 17). */
  lemma OffsetRoundTrip(d: int)
    requires 0 <= d < 60
    ensures 0 <= 255 * d / 60 <= 250
    ensures OffsetOf(255 * d / 60) == d
  {
    var q := 17 * d / 4;
    var rem := 17 * d % 4;
    assert 17 * d == 4 * q + rem;
    assert 255 * d == 60 * q + 15 * rem;
    assert 255 * d / 60 == q;
    assert 4 * q + 16 == 17 * d + (16 - rem);
    assert (4 * q + 16) / 17 == d;
  }

  /** The hue (in 0..359) of a fully saturated, full-value colour, read off from
      which channel is at 255, which is at 0, and where the third one sits. */
  function HueOf(c: Rgb): int {
    if c.r == 255 && c.b == 0 && c.g < 255 then OffsetOf(c.g)
    else if c.g == 255 && c.b == 0 && c.r > 0 then 60 + OffsetOf(255 - c.r)
    else if c.r == 0 && c.g == 255 && c.b < 255 then 120 + OffsetOf(c.b)
    else if c.r == 0 && c.b == 255 && c.g > 0 then 180 + OffsetOf(255 - c.g)
    else if c.g == 0 && c.b == 255 && c.r < 255 then 240 + OffsetOf(c.r)
    else 300 + OffsetOf(255 - c.b)
  }

  /** At saturation and value 100 the conversion loses no hue: the colour
      determines the hue mod 360. */
  lemma HueRoundTrip(h: U32)
    ensures HueOf(Hsv2Rgb(h, 255, 0)) == h % 360
  {
    OffsetRoundTrip(h % 360 % 60);
  }

  /** Two hues that differ mod 360 never produce the same fully saturated colour. */
  lemma Hsv2RgbInjective(h1: U32, h2: U32)
    requires h1 % 360 != h2 % 360
    ensures Hsv2Rgb(h1, 255, 0) != Hsv2Rgb(h2, 255, 0)
  {
    HueRoundTrip(h1);
    HueRoundTrip(h2);
  }

  // ---------------------------------------------------------------------------
  // The brightness table
  // ---------------------------------------------------------------------------

  /** The 64-entry table `gama`, eight entries per row. */
  const Gama: seq<int> :=
      [  0,   1,   2,   3,   4,   5,   6,   7]
    + [  8,  10,  12,  14,  16,  18,  20,  22]
    + [ 24,  26,  29,  32,  35,  38,  41,  44]
    + [ 47,  50,  53,  57,  61,  65,  69,  73]
    + [ 77,  81,  85,  89,  94,  99, 104, 109]
    + [114, 119, 124, 129, 134, 140, 146, 152]
    + [158, 164, 170, 176, 182, 188, 195, 202]
    + [209, 216, 223, 230, 237, 244, 251, 255]

  lemma GamaStepUpLow(i: int)
    requires 0 <= i < 32
    ensures 0 <= Gama[i] < Gama[i + 1] <= 255
  {
    if i < 8 {
    } else if i < 16 {
    } else if i < 24 {
    } else {
    }
  }

  lemma GamaStepUpHigh(i: int)
    requires 32 <= i < 63
    ensures 0 <= Gama[i] < Gama[i + 1] <= 255
  {
    if i < 40 {
    } else if i < 48 {
    } else if i < 56 {
    } else {
    }
  }

  /** Each entry is below the next one, checked row by row. */
  lemma GamaStepUp(i: int)
    requires 0 <= i < 63
    ensures 0 <= Gama[i] < Gama[i + 1] <= 255
  {
    if i < 32 {
      GamaStepUpLow(i);
    } else {
      GamaStepUpHigh(i);
    }
  }

  lemma {:induction false} GamaRises(j: int, k: int)
    requires 0 <= j < k < 64
    ensures 0 <= Gama[j] < Gama[k] <= 255
    decreases k - j
  {
    GamaStepUp(k - 1);
    if j < k - 1 {
      GamaRises(j, k - 1);
    }
  }

  /** The table has 64 entries running strictly upwards from 0 to 255. */
  lemma GamaStrictlyIncreasing()
    ensures |Gama| == 64 && Gama[0] == 0 && Gama[63] == 255
    ensures forall j, k :: 0 <= j < k < |Gama| ==> Gama[j] < Gama[k]
    ensures forall j :: 0 <= j < |Gama| ==> 0 <= Gama[j] <= 255
  {
    forall j, k | 0 <= j < k < |Gama|
      ensures Gama[j] < Gama[k]
    {
      GamaRises(j, k);
    }
    forall j | 0 <= j < |Gama|
      ensures 0 <= Gama[j] <= 255
    {
      if j < 63 {
        GamaStepUp(j);
      } else {
        GamaStepUp(62);
      }
    }
  }

  /** A table read `gama[i]`: in range exactly for the indices 0..63. */
  function GamaAt(i: int): (v: int)
    requires 0 <= i < 64
    ensures 0 <= v <= 255
    ensures i == 0 <==> v == 0
    ensures i == 63 <==> v == 255
  {
    GamaStrictlyIncreasing();
    Gama[i]
  }

  /** Reading the table at a larger index gives a strictly larger value, and conversely. */
  lemma GamaMonotone(i: int, j: int)
    requires 0 <= i < 64 && 0 <= j < 64
    ensures i < j <==> GamaAt(i) < GamaAt(j)
  {
    GamaStrictlyIncreasing();
  }
}
