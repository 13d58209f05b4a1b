/**
 The types of the LED strip driver header: the status and effect enums, the colour
 presets, the per-strip brightness record and the 24-bit colour constants.

 C enums are modelled as datatypes together with their integer codes; the
 unsigned integer widths of the header become subset types.
 */
module LedTypes {

  datatype Option<T> = None | Some(value: T)

  /** uint8_t */
  type Byte = x: int | 0 <= x < 0x100
  /** int8_t */
  type I8 = x: int | -0x80 <= x < 0x80
  /** uint16_t */
  type U16 = x: int | 0 <= x < 0x1_0000
  /** uint32_t */
  type U32 = x: int | 0 <= x < 0x1_0000_0000

  // ---------------------------------------------------------------------------
  // led_status_t
  // ---------------------------------------------------------------------------

  /** Off: the render loop must not run an effect; On: an effect is rendering;
      Idle: the render loop has unwound the last effect and cleared the strip. */
  datatype Status = Off | On | Idle

  function StatusCode(s: Status): (c: int)
    ensures 0 <= c < 3
  {
    match s
    case Off => 0
    case On => 1
    case Idle => 2
  }

  function StatusOfCode(c: int): (r: Option<Status>)
    ensures r.Some? <==> 0 <= c < 3
    ensures r.Some? ==> StatusCode(r.value) == c
  {
    if c == 0 then Some(Off)
    else if c == 1 then Some(On)
    else if c == 2 then Some(Idle)
    else None
  }

  /** The three status codes are exactly 0, 1 and 2 and decode back to their status. */
  lemma StatusCodeRoundTrip(s: Status)
    ensures StatusOfCode(StatusCode(s)) == Some(s)
  {
  }

  // ---------------------------------------------------------------------------
  // led_effect_t
  // ---------------------------------------------------------------------------

  datatype EffectKind = Breathe | Rainbow | AlwaysOn | AlwaysOnWhite | Flash | Circle | Test

  /** LED_EFFECT_MAX, the sentinel after the last effect. */
  const EffectMax: int := 7

  function EffectCode(k: EffectKind): (c: int)
    ensures 0 <= c < EffectMax
  {
    match k
    case Breathe => 0
    case Rainbow => 1
    case AlwaysOn => 2
    case AlwaysOnWhite => 3
    case Flash => 4
    case Circle => 5
    case Test => 6
  }

  /** The effect a code below LED_EFFECT_MAX names. */
  function EffectOfCode(c: int): (k: EffectKind)
    requires 0 <= c < EffectMax
    ensures EffectCode(k) == c
  {
    if c == 0 then Breathe
    else if c == 1 then Rainbow
    else if c == 2 then AlwaysOn
    else if c == 3 then AlwaysOnWhite
    else if c == 4 then Flash
    else if c == 5 then Circle
    else Test
  }

  /** Every effect kind, CIRCLE included, is named by exactly one code below
      LED_EFFECT_MAX, so a uniformly chosen code can select any of them. */
  lemma EffectCodesBijective(k: EffectKind)
    ensures EffectOfCode(EffectCode(k)) == k
    ensures forall k' :: EffectCode(k') == EffectCode(k) ==> k' == k
  {
  }

  // ---------------------------------------------------------------------------
  // led_color_t and led_info_t
  // ---------------------------------------------------------------------------

  datatype LedColor = WhiteWarm | WhiteCold | Yellow | Blue | Green | Red

  function ColorCode(c: LedColor): (code: int)
    ensures 0 <= code < 6
  {
    match c
    case WhiteWarm => 0
    case WhiteCold => 1
    case Yellow => 2
    case Blue => 3
    case Green => 4
    case Red => 5
  }

  /** The brightness is an 8-bit unsigned field: nothing in the type keeps it in 0..100. */
  datatype LedInfo = LedInfo(color: LedColor, brightness: Byte)

  // ---------------------------------------------------------------------------
  // Colours
  // ---------------------------------------------------------------------------

  datatype Rgb = Rgb(r: int, g: int, b: int)

  predicate IsByteRgb(c: Rgb) {
    0 <= c.r < 0x100 && 0 <= c.g < 0x100 && 0 <= c.b < 0x100
  }

  const Black: U32 := 0x000000
  const White: U32 := 0xFFFFFF
  const RedColor: U32 := 0xFF0000
  const GreenColor: U32 := 0x00FF00
  const BlueColor: U32 := 0x0000FF
  const YellowColor: U32 := 0xFFFF00
  const Cyan: U32 := 0x00FFFF
  const Magenta: U32 := 0xFF00FF
  const Purple: U32 := 0x800080
  const Orange: U32 := 0xFFA500

  const Palette: seq<U32> :=
    [Black, White, RedColor, GreenColor, BlueColor, YellowColor, Cyan, Magenta, Purple, Orange]

  /** The red, green and blue bytes of an unsigned 32-bit colour: bits 16..23,
      8..15 and 0..7, written with division and remainder. */
  function Split(c: U32): (rgb: Rgb)
    ensures IsByteRgb(rgb)
  {
    Rgb((c / 0x1_0000) % 0x100, (c / 0x100) % 0x100, c % 0x100)
  }

  /** The 24-bit colour with the three byte channels in that order. */
  function Pack(rgb: Rgb): (c: U32)
    requires IsByteRgb(rgb)
    ensures c < 0x100_0000
  {
    rgb.r * 0x1_0000 + rgb.g * 0x100 + rgb.b
  }

  /** Splitting a colour below 2^24 into channels and packing them again gives the colour back. */
  lemma SplitPack(c: U32)
    requires c < 0x100_0000
    ensures Pack(Split(c)) == c
  {
    var q := c / 0x100;
    assert c == q * 0x100 + c % 0x100;
    assert q / 0x100 == c / 0x1_0000;
    assert q == (q / 0x100) * 0x100 + q % 0x100;
  }

  /** Packing byte channels and splitting the result gives the channels back. */
  lemma PackSplit(rgb: Rgb)
    requires IsByteRgb(rgb)
    ensures Split(Pack(rgb)) == rgb
  {
    var c := Pack(rgb);
    var q := rgb.r * 0x100 + rgb.g;
    assert c == q * 0x100 + rgb.b;
    assert c / 0x100 == q;
    assert c % 0x100 == rgb.b;
    assert q / 0x100 == rgb.r;
    assert q % 0x100 == rgb.g;
    assert c / 0x1_0000 == q / 0x100;
  }

  /** Every named colour constant fits in 24 bits, so the channel split round-trips on each. */
  lemma PaletteRoundTrips()
    ensures forall i :: 0 <= i < |Palette| ==> Palette[i] < 0x100_0000 && Pack(Split(Palette[i])) == Palette[i]
  {
    forall i | 0 <= i < |Palette|
      ensures Palette[i] < 0x100_0000 && Pack(Split(Palette[i])) == Palette[i]
    {
      SplitPack(Palette[i]);
    }
  }
}
