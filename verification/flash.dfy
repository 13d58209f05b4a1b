/**
 The flashing effects. `led_flash_ctl` alternates two colours over the whole
 strip, ignoring the CIRCLE mask, one flush per frame. A positive `times`
 bounds the run to 2 * times - 1 frames whatever the status; a negative one
 runs while the status is ON; a zero `times` or a zero rate returns at once.
 `led_effect_flash` is the unbounded variant at 2 Hz, `led_effect_test` the
 general one with an 8-bit count.
 */
module Flash {
  import opened LedTypes
  import opened Strip

  /** The frames of a flash starting on `c1`: the colours swap after every frame. */
  function FlashFrames(c1: U32, c2: U32, k: nat): (fs: seq<Frame>)
    ensures |fs| == k
    ensures forall i :: 0 <= i < k ==> fs[i] == Frame(false, Split(if i % 2 == 0 then c1 else c2))
    decreases k
  {
    if k == 0 then [] else [Frame(false, Split(c1))] + FlashFrames(c2, c1, k - 1)
  }

  /** The number of frames: 2 * times - 1 for a bounded flash (the count drops
      after every second frame and the loop stops at zero), otherwise one per
      status check that saw ON. */
  function FrameCount(times: I8, onFrames: nat): nat {
    if times > 0 then 2 * times - 1 else onFrames
  }

  /** `led_flash_ctl` as a trace: no call at all for rate 0 or times 0, and
      otherwise one flush per frame and no clear. */
  function FlashCtl(n: nat, c1: U32, c2: U32, rate: Byte, times: I8, onFrames: nat): (r: seq<StripEvent>)
    ensures rate == 0 || times == 0 ==> r == []
    ensures rate > 0 && times > 0 ==> CountRefresh(r) == 2 * times - 1
    ensures rate > 0 && times < 0 ==> CountRefresh(r) == onFrames
    ensures CountClear(r) == 0
  {
    if rate == 0 || times == 0 then []
    else Render(n, FlashFrames(c1, c2, FrameCount(times, onFrames)))
  }

  /** The colour `flag_id` selects. */
  function Pick(c1: U32, c2: U32, flagId: int): U32 {
    if flagId == 0 then c1 else c2
  }

  /** One more frame of a flash is a frame of the colour the frame's parity selects. */
  lemma FlashStep(c1: U32, c2: U32, k: nat, flagId: int)
    requires flagId == k % 2
    ensures FlashFrames(c1, c2, k + 1) == FlashFrames(c1, c2, k) + [Frame(false, Split(Pick(c1, c2, flagId)))]
  {
  }

  /** The while loop of `led_flash_ctl` with its `flag_id` and `times`
      variables, collecting the frames it draws; `onFrames` is how many of
      its status checks see ON. */
  method FlashLoop(n: nat, c1: U32, c2: U32, rate: Byte, times: I8, onFrames: nat)
    returns (events: seq<StripEvent>)
    ensures events == FlashCtl(n, c1, c2, rate, times, onFrames)
  {
    if rate == 0 || times == 0 {
      return [];
    }
    var t: int := times;
    var flagId := 0;
    var k: nat := 0;
    var frames: seq<Frame> := [];
    while (t < 0 && k < onFrames) || t > 0
      invariant 0 <= flagId <= 1 && flagId == k % 2
      invariant frames == FlashFrames(c1, c2, k)
      invariant times < 0 ==> t == times && k <= onFrames
      invariant times > 0 ==> 0 <= t && k == 2 * (times - t) - flagId
      invariant times > 0 && t == 0 ==> flagId == 1
      decreases if times > 0 then 2 * t + flagId else onFrames - k
    {
      FlashStep(c1, c2, k, flagId);
      frames := frames + [Frame(false, Split(Pick(c1, c2, flagId)))];
      flagId := 1 - flagId;
      if flagId == 1 && t > 0 {
        t := t - 1;
      }
      k := k + 1;
    }
    assert k == FrameCount(times, onFrames);
    events := Render(n, frames);
  }

  /** A bounded flash ends on the first colour: its trace is the first
      2 * times - 2 frames followed by one frame of `c1`. */
  lemma FlashEndsOnFirst(n: nat, c1: U32, c2: U32, rate: Byte, times: I8, onFrames: nat)
    requires rate > 0 && times > 0
    ensures FlashCtl(n, c1, c2, rate, times, onFrames) ==
            Render(n, FlashFrames(c1, c2, 2 * times - 2)) + FrameEvents(n, Frame(false, Split(c1)))
  {
    var k: nat := 2 * times - 2;
    assert k % 2 == 0;
    assert FrameCount(times, onFrames) == k + 1;
    FlashStep(c1, c2, k, 0);
    RenderAppend(n, FlashFrames(c1, c2, k), Frame(false, Split(c1)));
  }

  /** A flash paints every pixel below N, the masked corners included. */
  lemma FlashIgnoresMask(n: nat, c1: U32, c2: U32, rate: Byte, times: I8, onFrames: nat)
    requires rate > 0 && times != 0 && FrameCount(times, onFrames) > 0
    ensures forall i :: 0 <= i < n ==> SetPixel(i, Split(c1)) in FlashCtl(n, c1, c2, rate, times, onFrames)
  {
    var fs := FlashFrames(c1, c2, FrameCount(times, onFrames));
    assert Render(n, fs) == FrameEvents(n, fs[0]) + Render(n, fs[1..]);
    forall i | 0 <= i < n
      ensures SetPixel(i, Split(c1)) in FlashCtl(n, c1, c2, rate, times, onFrames)
    {
      assert SetPixel(i, Split(c1)) in Paint(n, false, Split(c1));
    }
  }

  /** `led_effect_flash`: an unbounded flash at 2 Hz, one frame per status check that saw ON. */
  function FlashEffect(n: nat, c1: U32, c2: U32, onFrames: nat): (r: seq<StripEvent>)
    ensures CountRefresh(r) == onFrames && CountClear(r) == 0
  {
    FlashCtl(n, c1, c2, 2, -1, onFrames)
  }

  /** The conversion of the 8-bit count to `int8_t`: two's complement, so
      counts from 128 on read as negative. */
  function ToI8(x: Byte): (t: I8)
    ensures t % 0x100 == x
    ensures t >= 0 <==> x < 0x80
  {
    if x < 0x80 then x else x - 0x100
  }

  /** `led_effect_test`: below 128 a nonzero count gives exactly 2 * times - 1
      frames whatever the status; from 128 on the count reads as negative and
      the flash runs while the status is ON. */
  function TestEffect(n: nat, c1: U32, c2: U32, rate: Byte, times: Byte, onFrames: nat): (r: seq<StripEvent>)
    ensures rate == 0 || times == 0 ==> r == []
    ensures rate > 0 && 0 < times < 0x80 ==> CountRefresh(r) == 2 * times - 1
    ensures rate > 0 && times >= 0x80 ==> CountRefresh(r) == onFrames
    ensures CountClear(r) == 0
  {
    FlashCtl(n, c1, c2, rate, ToI8(times), onFrames)
  }
}
