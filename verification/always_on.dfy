/**
 The steady effect: the packed colour is split into its three channels, each
 channel is scaled by the brightness percentage with truncation, every
 unmasked pixel gets that triple, the strip is flushed once, and the effect
 then only polls the status until it leaves ON, making no further strip call.
 */
module AlwaysOn {
  import opened LedTypes
  import opened Strip

  /** `channel * brightness / 100` on unsigned operands: the truncated percentage. */
  function Scale(ch: int, b: Byte): (v: int)
    requires 0 <= ch < 0x100
    ensures 100 * v <= ch * b < 100 * v + 100
    ensures b <= 100 ==> 0 <= v <= ch
    ensures b == 100 ==> v == ch
  {
    assert b <= 100 ==> ch * b <= ch * 100;
    ch * b / 100
  }

  /** The triple written to every pixel for `color` at brightness b. Up to
      brightness 100 it is a byte triple no brighter than the colour in any
      channel, and at 100 it is the colour itself. */
  function Color(color: U32, b: Byte): (c: Rgb)
    ensures b <= 100 ==> IsByteRgb(c)
    ensures b <= 100 ==> c.r <= Split(color).r && c.g <= Split(color).g && c.b <= Split(color).b
    ensures b == 100 ==> c == Split(color)
    ensures 100 * c.r <= Split(color).r * b < 100 * c.r + 100
    ensures 100 * c.g <= Split(color).g * b < 100 * c.g + 100
    ensures 100 * c.b <= Split(color).b * b < 100 * c.b + 100
  {
    var rgb := Split(color);
    Rgb(Scale(rgb.r, b), Scale(rgb.g, b), Scale(rgb.b, b))
  }

  /** Half brightness truncates: yellow gives (127, 127, 0) and orange (127, 82, 0). */
  lemma HalfBrightness()
    ensures Color(YellowColor, 50) == Rgb(127, 127, 0)
    ensures Color(Orange, 50) == Rgb(127, 82, 0)
    ensures Color(White, 50) == Rgb(127, 127, 127)
  {
  }

  /** `led_effect_always_on`: one pixel pass with the scaled colour and one flush.
      The polling that follows makes no strip call, however long it lasts. */
  function Effect(n: nat, circle: bool, color: U32, b: Byte): (r: seq<StripEvent>)
    ensures CountRefresh(r) == 1 && CountClear(r) == 0
    ensures |r| > 0 && r[|r| - 1] == Refresh
    ensures forall k :: 0 <= k < |r| - 1 ==> r[k].SetPixel? && r[k].color == Color(color, b)
    ensures forall k :: 0 <= k < |r| - 1 ==> 0 <= r[k].index < n && !Skipped(circle, r[k].index)
    ensures forall k, k' :: 0 <= k < k' < |r| - 1 ==> r[k].index < r[k'].index
    ensures forall i :: 0 <= i < n && !Skipped(circle, i) ==> SetPixel(i, Color(color, b)) in r
    ensures circle ==> AvoidsMask(r)
  {
    var pass := Paint(n, circle, Color(color, b));
    PaintShape(n, circle, Color(color, b));
    CountsAppend(pass, [Refresh]);
    assert AvoidsMask([Refresh]);
    if circle then
      AvoidsMaskAppend(pass, [Refresh]);
      pass + [Refresh]
    else
      pass + [Refresh]
  }
}
