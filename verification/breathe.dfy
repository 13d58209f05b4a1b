/**
 The breathing effect: a counter ping-pongs between 0 and a peak that scales
 with the brightness percentage, each frame paints every unmasked pixel with
 the table value `gama[count]` on the channels the colour preset enables, and
 flushes.

 The preset and the zero-brightness early return are read once when the
 effect starts; the mask flag and the brightness used by the direction flip
 are read again at every frame.
 */
module Breathe {
  import opened LedTypes
  import opened Strip
  import opened ColorMath

  /** Which of the red, green and blue channels follow the brightness ramp. */
  datatype Channels = Channels(red: bool, green: bool, blue: bool)

  /** The preset switch, over the integer value of the `led_color_t` field.
      Values outside the six presets keep the initial flags: green and blue. */
  function ChannelsOfCode(code: int): (ch: Channels)
    ensures ch.red <==> code == 0 || code == 2 || code == 5
    ensures ch.green <==> code != 3 && code != 5
    ensures ch.blue <==> code != 2 && code != 4 && code != 5
  {
    if code == 0 then Channels(true, true, true)
    else if code == 1 then Channels(false, true, true)
    else if code == 2 then Channels(true, true, false)
    else if code == 3 then Channels(false, false, true)
    else if code == 4 then Channels(false, true, false)
    else if code == 5 then Channels(true, false, false)
    else Channels(false, true, true)
  }

  function ChannelsOf(c: LedColor): Channels {
    ChannelsOfCode(ColorCode(c))
  }

  /** Warm white lights all three channels, cold white green and blue, yellow
      red and green, and blue, green and red only their own channel. */
  lemma PresetChannels()
    ensures ChannelsOf(WhiteWarm) == Channels(true, true, true)
    ensures ChannelsOf(WhiteCold) == Channels(false, true, true)
    ensures ChannelsOf(Yellow) == Channels(true, true, false)
    ensures ChannelsOf(Blue) == Channels(false, false, true)
    ensures ChannelsOf(Green) == Channels(false, true, false)
    ensures ChannelsOf(Red) == Channels(true, false, false)
  {
  }

  /** The colour of a frame at counter value `count`. */
  function Level(ch: Channels, count: int): (c: Rgb)
    requires 0 <= count < 64
    ensures IsByteRgb(c)
    ensures c.r == (if ch.red then Gama[count] else 0)
    ensures c.g == (if ch.green then Gama[count] else 0)
    ensures c.b == (if ch.blue then Gama[count] else 0)
  {
    var v := GamaAt(count);
    Rgb(if ch.red then v else 0, if ch.green then v else 0, if ch.blue then v else 0)
  }

  // ---------------------------------------------------------------------------
  // The counter
  // ---------------------------------------------------------------------------

  /** `count` (uint8) and `count_flag` (1: getting brighter, 0: getting darker). */
  datatype Counter = Counter(count: Byte, rising: bool)

  const Start: Counter := Counter(0, true)

  /** The flip threshold `63 * brightness / 100`. */
  function Peak(b: Byte): int {
    63 * b / 100
  }

  /** The counter stays where the next frame can read the table: at most 62
      while rising, in 1..63 while falling. */
  predicate InTable(c: Counter) {
    (c.rising ==> c.count <= 62) && (!c.rising ==> 1 <= c.count <= 63)
  }

  /** The step after each frame, for flip threshold p: move one way with 8-bit
      wrap-around, then flip direction when the counter reaches p or 0. */
  function Turn(c: Counter, p: int): (r: Counter)
    ensures r.count == (c.count + (if c.rising then 1 else -1)) % 0x100
    ensures r.rising != c.rising <==> r.count >= p || r.count == 0
    ensures InTable(c) && p <= 63 ==> InTable(r)
  {
    var next: Byte := if c.rising then (c.count + 1) % 0x100 else (c.count - 1) % 0x100;
    if next >= p || next == 0 then Counter(next, !c.rising) else Counter(next, c.rising)
  }

  /** The step at the brightness read in this frame. */
  function Step(c: Counter, b: Byte): Counter {
    Turn(c, Peak(b))
  }

  /** The counter after k frames with a constant threshold p. */
  function After(c: Counter, p: int, k: nat): Counter
    decreases k
  {
    if k == 0 then c else Turn(After(c, p, k - 1), p)
  }

  /** The peak of an 8-bit brightness is at most 160, and at most 63 exactly up to brightness 101. */
  lemma PeakBound(b: Byte)
    ensures 0 <= Peak(b) <= 160
    ensures Peak(b) <= 63 <==> b <= 101
  {
    assert 63 * b <= 63 * 255;
    if b >= 102 {
      assert 63 * b >= 63 * 102;
    }
  }

  /** Up to brightness 101 a step keeps the counter in the table, whatever
      brightness the earlier frames used. */
  lemma StepInTable(c: Counter, b: Byte)
    requires InTable(c) && b <= 101
    ensures InTable(Step(c, b))
  {
    PeakBound(b);
  }

  /** The turning point of the triangle wave for threshold p. */
  function Top(p: int): int {
    if p < 1 then 1 else p
  }

  /** The reference triangle wave of half-period `top`: up from 0 to `top`,
      back down to 0, and again every `2 * top` frames. */
  function Triangle(k: nat, top: nat): (v: nat)
    requires top > 0
    ensures v <= top
    decreases k
  {
    if k >= 2 * top then Triangle(k - 2 * top, top)
    else if k <= top then k
    else 2 * top - k
  }

  /** A rising step below the turning point moves up by one, and turns at it. */
  lemma TurnRising(m: int, p: int)
    requires 0 <= p <= 160 && 0 <= m < Top(p)
    ensures Turn(Counter(m, true), p) == Counter(m + 1, m + 1 < Top(p))
  {
    assert (m + 1) % 0x100 == m + 1;
  }

  /** A falling step moves down by one, and turns up again at 0. */
  lemma TurnFalling(m: int, p: int)
    requires 0 <= p <= 160 && 1 <= m <= Top(p)
    ensures Turn(Counter(m, false), p) == Counter(m - 1, m - 1 == 0)
  {
    assert (m - 1) % 0x100 == m - 1;
  }

  /** Over its first period the counter climbs from 0 to the turning point
      and falls back to 0, where its direction turns up again. */
  lemma {:induction false} FirstPeriod(p: int, k: nat)
    requires 0 <= p <= 160
    requires k <= 2 * Top(p)
    ensures After(Start, p, k) ==
            if k < Top(p) then Counter(k, true)
            else Counter(2 * Top(p) - k, k == 2 * Top(p))
    decreases k
  {
    if k > 0 {
      FirstPeriod(p, k - 1);
      var top := Top(p);
      if k - 1 < top {
        TurnRising(k - 1, p);
      } else {
        TurnFalling(2 * top - k + 1, p);
      }
    }
  }

  lemma {:induction false} AfterAdd(c: Counter, p: int, j: nat, k: nat)
    ensures After(c, p, j + k) == After(After(c, p, j), p, k)
    decreases k
  {
    if k > 0 {
      AfterAdd(c, p, j, k - 1);
    }
  }

  /** After one full period the counter is back where it started. */
  lemma OnePeriod(p: int, m: nat)
    requires 0 <= p <= 160
    ensures After(Start, p, 2 * Top(p) + m) == After(Start, p, m)
  {
    FirstPeriod(p, 2 * Top(p));
    AfterAdd(Start, p, 2 * Top(p), m);
  }

  /** With a constant threshold p the counter follows the triangle wave between 0 and max(1, p). */
  lemma {:induction false} TriangleAt(p: int, k: nat)
    requires 0 <= p <= 160
    ensures After(Start, p, k).count == Triangle(k, Top(p))
    decreases k
  {
    var d := 2 * Top(p);
    if k < d {
      FirstPeriod(p, k);
    } else {
      OnePeriod(p, k - d);
      TriangleAt(p, k - d);
    }
  }

  /** At a constant brightness b the counter follows the triangle wave between
      0 and max(1, 63 * b / 100), for any 8-bit brightness. */
  lemma BreatheTriangle(b: Byte, k: nat)
    ensures After(Start, Peak(b), k).count == Triangle(k, Top(Peak(b)))
  {
    PeakBound(b);
    TriangleAt(Peak(b), k);
  }

  /** The table index stays in range at every frame exactly when the
      brightness is at most 101. */
  lemma BreatheBoundedIff(b: Byte)
    ensures (forall k: nat :: After(Start, Peak(b), k).count < |Gama|) <==> b <= 101
  {
    GamaStrictlyIncreasing();
    PeakBound(b);
    if b <= 101 {
      forall k: nat
        ensures After(Start, Peak(b), k).count < |Gama|
      {
        BreatheTriangle(b, k);
      }
    } else {
      BreatheOverrun(b);
    }
  }

  /** From brightness 102 on the peak is 64 or more, so after 64 frames the
      counter is 64 and the next frame reads one entry past the end of the table. */
  lemma BreatheOverrun(b: Byte)
    requires b >= 102
    ensures After(Start, Peak(b), 64).count == |Gama|
  {
    PeakBound(b);
    FirstPeriod(Peak(b), 64);
  }

  /** Up to brightness 101 the counter stays in the table at every frame. */
  lemma {:induction false} AfterInTable(c: Counter, b: Byte, j: nat)
    requires InTable(c) && b <= 101
    ensures InTable(After(c, Peak(b), j))
    decreases j
  {
    if j > 0 {
      AfterInTable(c, b, j - 1);
      StepInTable(After(c, Peak(b), j - 1), b);
    }
  }

  /** Counting frames from the second one on is counting from the counter after the first. */
  lemma AfterShift(c: Counter, p: int, j: nat)
    ensures After(c, p, j + 1) == After(Turn(c, p), p, j)
  {
    AfterAdd(c, p, 1, j);
  }

  // ---------------------------------------------------------------------------
  // Frames
  // ---------------------------------------------------------------------------

  /** What the loop reads from the shared state at each frame. */
  datatype FrameEnv = FrameEnv(circle: bool, brightness: Byte)

  predicate Dimmed(envs: seq<FrameEnv>) {
    forall k :: 0 <= k < |envs| ==> envs[k].brightness <= 101
  }

  /** Every frame reads the same brightness b. */
  predicate SteadyBrightness(envs: seq<FrameEnv>, b: Byte) {
    forall k :: 0 <= k < |envs| ==> envs[k].brightness == b
  }

  /** The counter stays inside the table at every frame of the run: each
      frame reads `gama[count]` before the step at that frame's brightness. */
  predicate Readable(c: Counter, envs: seq<FrameEnv>)
    decreases |envs|
  {
    envs == [] || (c.count < 64 && Readable(Step(c, envs[0].brightness), envs[1..]))
  }

  /** Up to brightness 101 at every frame, a run from inside the table stays readable. */
  lemma {:induction false} DimmedReadable(c: Counter, envs: seq<FrameEnv>)
    requires InTable(c) && Dimmed(envs)
    ensures Readable(c, envs)
    decreases |envs|
  {
    if envs != [] {
      StepInTable(c, envs[0].brightness);
      assert Dimmed(envs[1..]);
      DimmedReadable(Step(c, envs[0].brightness), envs[1..]);
    }
  }

  /** At a constant brightness b a run is readable exactly when the counter
      stays below 64 at every frame. */
  lemma {:induction false} ReadableAfter(c: Counter, b: Byte, envs: seq<FrameEnv>)
    requires SteadyBrightness(envs, b)
    ensures Readable(c, envs) <==> forall j :: 0 <= j < |envs| ==> After(c, Peak(b), j).count < 64
    decreases |envs|
  {
    if envs != [] {
      var p := Peak(b);
      var rest := envs[1..];
      assert SteadyBrightness(rest, b);
      assert envs[0].brightness == b;
      ReadableAfter(Turn(c, p), b, rest);
      if Readable(c, envs) {
        forall j | 0 <= j < |envs|
          ensures After(c, p, j).count < 64
        {
          if j > 0 {
            AfterShift(c, p, j - 1);
          }
        }
      } else if c.count < 64 {
        var j :| 0 <= j < |rest| && After(Turn(c, p), p, j).count >= 64;
        AfterShift(c, p, j);
        assert After(c, p, j + 1).count >= 64;
      } else {
        assert After(c, p, 0) == c;
      }
    }
  }

  /** A run at a constant brightness b from the start is readable exactly
      when b is at most 101 or the run lasts at most 64 frames: a larger
      brightness held for a 65th frame reads `gama[64]`. */
  lemma SteadyReadable(b: Byte, envs: seq<FrameEnv>)
    requires SteadyBrightness(envs, b)
    ensures Readable(Start, envs) <==> b <= 101 || |envs| <= 64
  {
    ReadableAfter(Start, b, envs);
    PeakBound(b);
    GamaStrictlyIncreasing();
    if b <= 101 {
      BreatheBoundedIff(b);
    } else if |envs| <= 64 {
      forall j | 0 <= j < |envs|
        ensures After(Start, Peak(b), j).count < 64
      {
        FirstPeriod(Peak(b), j);
      }
    } else {
      BreatheOverrun(b);
    }
  }

  /** The frames of one activation, one per status check that saw ON. */
  function Frames(ch: Channels, c: Counter, envs: seq<FrameEnv>): (fs: seq<Frame>)
    requires Readable(c, envs)
    ensures |fs| == |envs|
    ensures forall k :: 0 <= k < |fs| ==> fs[k].circle == envs[k].circle
    ensures |fs| > 0 ==> fs[0].color == Level(ch, c.count)
    decreases |envs|
  {
    if envs == [] then []
    else
      [Frame(envs[0].circle, Level(ch, c.count))] + Frames(ch, Step(c, envs[0].brightness), envs[1..])
  }

  /** After its first frame, a run's frames are those of the rest of the run
      from the counter one step on. */
  lemma FramesTail(ch: Channels, c: Counter, envs: seq<FrameEnv>)
    requires Readable(c, envs) && envs != []
    ensures Readable(Step(c, envs[0].brightness), envs[1..])
    ensures Frames(ch, c, envs)[1..] == Frames(ch, Step(c, envs[0].brightness), envs[1..])
  {
  }

  /** Frame j of a readable run at a constant brightness b is drawn at the
      counter value after j steps, whatever b is. */
  lemma {:induction false} FramesFollow(ch: Channels, c: Counter, b: Byte, envs: seq<FrameEnv>, j: nat)
    requires SteadyBrightness(envs, b) && Readable(c, envs) && j < |envs|
    ensures After(c, Peak(b), j).count < 64
    ensures Frames(ch, c, envs)[j].color == Level(ch, After(c, Peak(b), j).count)
    decreases j
  {
    if j == 0 {
      assert After(c, Peak(b), 0) == c;
    } else {
      var next := Turn(c, Peak(b));
      var rest := envs[1..];
      FramesTail(ch, c, envs);
      assert envs[0].brightness == b && SteadyBrightness(rest, b);
      assert Frames(ch, c, envs)[j] == Frames(ch, next, rest)[j - 1];
      FramesFollow(ch, next, b, rest, j - 1);
      AfterShift(c, Peak(b), j - 1);
    }
  }

  /** The colour of frame j at a constant brightness b: the preset's channels
      at the triangle wave's value for frame j. */
  function WaveLevel(ch: Channels, b: Byte, j: nat): (c: Rgb)
    requires b <= 101
    ensures IsByteRgb(c)
  {
    PeakBound(b);
    Level(ch, Triangle(j, Top(Peak(b))))
  }

  /** The frames of an activation at a constant brightness b, in closed form:
      frame j has its own mask flag and the colour of the triangle wave at j. */
  function Wave(ch: Channels, b: Byte, envs: seq<FrameEnv>): seq<Frame>
    requires b <= 101
  {
    seq(|envs|, j requires 0 <= j < |envs| => Frame(envs[j].circle, WaveLevel(ch, b, j)))
  }

  /** At a constant brightness of at most 101, the frames of an activation
      are the triangle-wave frames. */
  lemma FramesWave(ch: Channels, b: Byte, envs: seq<FrameEnv>)
    requires b <= 101 && SteadyBrightness(envs, b)
    ensures Readable(Start, envs)
    ensures Frames(ch, Start, envs) == Wave(ch, b, envs)
  {
    DimmedReadable(Start, envs);
    var fs := Frames(ch, Start, envs);
    forall j | 0 <= j < |envs|
      ensures fs[j] == Wave(ch, b, envs)[j]
    {
      FramesFollow(ch, Start, b, envs, j);
      BreatheTriangle(b, j);
    }
  }

  /** `led_effect_breathe` for the given preset and starting brightness. At
      brightness 0 it returns before touching the strip; otherwise it flushes
      once per frame and never clears, and when every frame reads the starting
      brightness, frame j paints the triangle wave's colour for j. */
  function Effect(info: LedInfo, n: nat, envs: seq<FrameEnv>): (r: seq<StripEvent>)
    requires info.brightness > 0 ==> Readable(Start, envs)
    ensures info.brightness == 0 ==> r == []
    ensures info.brightness > 0 ==> CountRefresh(r) == |envs| && CountClear(r) == 0
    ensures (forall k :: 0 <= k < |envs| ==> envs[k].circle) ==> AvoidsMask(r)
    ensures 0 < info.brightness <= 101 && SteadyBrightness(envs, info.brightness) ==>
              r == Render(n, Wave(ChannelsOf(info.color), info.brightness, envs))
  {
    if info.brightness == 0 then []
    else
      var ch := ChannelsOf(info.color);
      if info.brightness <= 101 && SteadyBrightness(envs, info.brightness) then
        FramesWave(ch, info.brightness, envs);
        Render(n, Frames(ch, Start, envs))
      else
        Render(n, Frames(ch, Start, envs))
  }

  /** At a constant brightness b in 1..101, frame j writes every unmasked
      pixel below N (by that frame's mask flag) with the triangle wave's colour for j. */
  lemma EffectPaints(info: LedInfo, n: nat, envs: seq<FrameEnv>, j: nat, i: nat)
    requires 0 < info.brightness <= 101 && SteadyBrightness(envs, info.brightness)
    requires j < |envs| && i < n && !Skipped(envs[j].circle, i)
    ensures Readable(Start, envs)
    ensures SetPixel(i, WaveLevel(ChannelsOf(info.color), info.brightness, j)) in Effect(info, n, envs)
  {
    DimmedReadable(Start, envs);
    var r := Effect(info, n, envs);
    var fs := Wave(ChannelsOf(info.color), info.brightness, envs);
    assert r == Render(n, fs);
    RenderHasFrame(n, fs, j, i);
  }
}
