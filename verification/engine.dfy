/**
 The effect engine as a state record and pure transitions: the request
 handler `set_led_effect`, the handlers built on it, one pass of the render
 task (dispatch on the selected effect, clear, report IDLE), and the
 brightness update.

 Here the handlers and the render task take turns: when a restart has to wait
 for the render task to report IDLE, the wait is taken to succeed, and the
 handler's status writes are returned as a list of steps. How the two tasks
 interleave is the subject of the Handshake module.
 */
module Engine {
  import opened LedTypes
  import opened Strip
  import ColorMath
  import BreatheFx = Breathe
  import RainbowFx = Rainbow
  import AlwaysOnFx = AlwaysOn
  import Flash

  /** The shared globals `led_status`, `led_effect`, `flag_circle` and `led_info`. */
  datatype Globals = Globals(status: Status, effect: EffectKind, circle: bool, info: LedInfo)

  /** The initial values of the globals. */
  const Boot: Globals := Globals(Off, AlwaysOn, false, LedInfo(WhiteWarm, 100))

  /** A status write by a handler, or its wait until the status reads IDLE. */
  datatype HandlerStep = Write(status: Status) | AwaitIdle

  datatype Handled = Handled(engine: Globals, steps: seq<HandlerStep>)

  /** The status the handler last wrote or waited for, starting from `s`. */
  function Replay(s: Status, steps: seq<HandlerStep>): Status
    decreases |steps|
  {
    if steps == [] then s
    else Replay(match steps[0] case Write(x) => x case AwaitIdle => Idle, steps[1..])
  }

  /** The selection part of `set_led_effect`: CIRCLE toggles the mask, any
      other kind becomes the selected effect. */
  function Select(e: Globals, kind: EffectKind): Globals {
    if kind == Circle then e.(circle := !e.circle) else e.(effect := kind)
  }

  /** `set_led_effect`. A CIRCLE request toggles the mask and keeps the effect,
      any other request selects that effect and keeps the mask. While ON the
      handler stops the render task, waits for IDLE and restarts, whatever
      `force`; otherwise it switches on only when forced. It never writes IDLE. */
  function SetLedEffect(e: Globals, kind: EffectKind, force: bool): (h: Handled)
    ensures kind == Circle ==> h.engine.circle == !e.circle && h.engine.effect == e.effect
    ensures kind != Circle ==> h.engine.effect == kind && h.engine.circle == e.circle
    ensures h.engine.info == e.info
    ensures h.engine.status == (if e.status == On || force then On else e.status)
    ensures AwaitIdle in h.steps <==> e.status == On
    ensures Write(Idle) !in h.steps
    ensures Replay(e.status, h.steps) == h.engine.status
  {
    var selected := Select(e, kind);
    if e.status == On then
      Handled(selected.(status := On), [Write(Off), AwaitIdle, Write(On)])
    else if force then
      Handled(selected.(status := On), [Write(On)])
    else
      Handled(selected, [])
  }

  /** A CIRCLE request made while ON restarts the effect like any other request. */
  lemma CircleRestarts(e: Globals, force: bool)
    requires e.status == On
    ensures SetLedEffect(e, Circle, force).steps == [Write(Off), AwaitIdle, Write(On)]
    ensures SetLedEffect(e, Circle, force).engine == e.(circle := !e.circle)
  {
  }

  // ---------------------------------------------------------------------------
  // Dispatch
  // ---------------------------------------------------------------------------

  /** The effect call a render pass makes. */
  datatype EffectCall =
    | CallBreathe
    | CallRainbow
    | CallAlwaysOn(color: U32)
    | CallFlash(c1: U32, c2: U32)
    | CallTest(c1: U32, c2: U32, rate: Byte, times: Byte)
    | NoCall

  /** The `switch (led_effect)` of the render task. Only CIRCLE has no renderer. */
  function Dispatch(k: EffectKind): (c: EffectCall)
    ensures c.NoCall? <==> k == Circle
  {
    match k
    case Breathe => CallBreathe
    case Rainbow => CallRainbow
    case AlwaysOn => CallAlwaysOn(YellowColor)
    case AlwaysOnWhite => CallAlwaysOn(White)
    case Flash => CallFlash(YellowColor, Black)
    case Test => CallTest(White, Black, 2, 3)
    case Circle => NoCall
  }

  /** Distinct effects make distinct calls. */
  lemma DispatchInjective(k: EffectKind, k': EffectKind)
    requires Dispatch(k) == Dispatch(k')
    ensures k == k'
  {
  }

  /** All frames of one activation see the same mask and brightness. */
  function Steady(e: Globals, onFrames: nat): seq<BreatheFx.FrameEnv> {
    seq(onFrames, _ => BreatheFx.FrameEnv(e.circle, e.info.brightness))
  }

  /** The strip calls of the selected effect on a strip of n pixels, where
      `onFrames` of the effect's status checks see ON before one sees another
      status. The globals stay as they are while the effect runs. Per effect:
      breathe flushes once per frame (never at brightness 0) along the triangle
      wave, the rainbow flushes and clears three times per sweep, the steady
      light flushes once, the flash once per frame, the test five times, and
      CIRCLE makes no call; with the mask on the masking effects leave the
      masked pixels alone. Only the breathing effect at a nonzero brightness
      constrains the run: it must keep the counter inside the table, which holds
      for any length up to brightness 101 and for any brightness over at most
      64 frames. */
  function EffectEvents(e: Globals, n: nat, onFrames: nat): (r: seq<StripEvent>)
    requires n > 0 && (e.effect == Breathe && e.info.brightness > 0 ==> BreatheFx.Readable(BreatheFx.Start, Steady(e, onFrames)))
    ensures CountRefresh(r) == Flushes(e, onFrames)
    ensures CountClear(r) == if e.effect == Rainbow then 3 * onFrames else 0
    ensures e.circle && e.effect in {Breathe, Rainbow, AlwaysOn, AlwaysOnWhite} ==> AvoidsMask(r)
    ensures e.effect == Breathe && 0 < e.info.brightness <= 101 ==>
              r == Render(n, BreatheFx.Wave(BreatheFx.ChannelsOf(e.info.color), e.info.brightness, Steady(e, onFrames)))
    ensures Dispatch(e.effect).CallAlwaysOn? ==>
              forall i :: 0 <= i < n && !Skipped(e.circle, i) ==>
                SetPixel(i, AlwaysOnFx.Color(Dispatch(e.effect).color, e.info.brightness)) in r
  {
    match Dispatch(e.effect)
    case CallBreathe =>
      SteadyFrames(e, onFrames);
      BreatheFx.Effect(e.info, n, Steady(e, onFrames))
    case CallRainbow =>
      SteadyCircles(e, onFrames);
      RainbowFx.Run(n, seq(onFrames, _ => e.circle), 0).events
    case CallAlwaysOn(c) => AlwaysOnFx.Effect(n, e.circle, c, e.info.brightness)
    case CallFlash(c1, c2) => Flash.FlashEffect(n, c1, c2, onFrames)
    case CallTest(c1, c2, rate, times) => Flash.TestEffect(n, c1, c2, rate, times, onFrames)
    case NoCall => []
  }

  /** Every frame of a steady activation reads the globals' brightness and mask. */
  lemma SteadyFrames(e: Globals, onFrames: nat)
    ensures BreatheFx.SteadyBrightness(Steady(e, onFrames), e.info.brightness)
    ensures e.circle ==> forall k :: 0 <= k < onFrames ==> Steady(e, onFrames)[k].circle
  {
  }

  /** Every sweep of a steady activation reads the globals' mask. */
  lemma SteadyCircles(e: Globals, onFrames: nat)
    ensures e.circle ==> RainbowFx.AllSet(seq(onFrames, _ => e.circle))
  {
  }

  /** The flushes each effect makes in one activation. */
  function Flushes(e: Globals, onFrames: nat): nat {
    match e.effect
    case Breathe => if e.info.brightness == 0 then 0 else onFrames
    case Rainbow => 3 * onFrames
    case AlwaysOn => 1
    case AlwaysOnWhite => 1
    case Flash => onFrames
    case Test => 5
    case Circle => 0
  }

  /** The state after a render pass: a pass that ran an effect reports IDLE. */
  function AfterPass(e: Globals): Globals {
    if e.status == On then e.(status := Idle) else e
  }

  datatype Pass = Pass(engine: Globals, events: seq<StripEvent>)

  /** One turn of the render task's loop. Unless ON it makes no strip call and
      changes nothing. Otherwise it runs the selected effect, clears the strip,
      and reports IDLE: the effect's flushes, the rainbow's own clears plus one,
      and with the mask on no masked pixel written by a masking effect. */
  function LedTaskPass(e: Globals, n: nat, onFrames: nat): (p: Pass)
    requires n > 0
    requires e.status == On && e.effect == Breathe && e.info.brightness > 0 ==>
               BreatheFx.Readable(BreatheFx.Start, Steady(e, onFrames))
    ensures e.status != On ==> p == Pass(e, [])
    ensures e.status == On ==> p.engine == e.(status := Idle)
    ensures e.status == On ==> |p.events| > 0 && p.events[|p.events| - 1] == Clear
    ensures e.status == On ==> CountRefresh(p.events) == Flushes(e, onFrames)
    ensures e.status == On ==>
              CountClear(p.events) == (if e.effect == Rainbow then 3 * onFrames else 0) + 1
    ensures e.circle && e.effect in {Breathe, Rainbow, AlwaysOn, AlwaysOnWhite} ==> AvoidsMask(p.events)
  {
    if e.status != On then Pass(e, [])
    else
      var fx := EffectEvents(e, n, onFrames);
      CountsAppend(fx, [Clear]);
      assert AvoidsMask([Clear]);
      if e.circle && e.effect in {Breathe, Rainbow, AlwaysOn, AlwaysOnWhite} then
        AvoidsMaskAppend(fx, [Clear]);
        Pass(AfterPass(e), fx + [Clear])
      else
        Pass(AfterPass(e), fx + [Clear])
  }

  // ---------------------------------------------------------------------------
  // Handlers
  // ---------------------------------------------------------------------------

  /** `button_close_callback`: the status becomes OFF at once, with no wait. */
  function ButtonClose(e: Globals): (h: Handled)
    ensures h.engine.status == Off && h.steps == [Write(Off)]
    ensures h.engine.effect == e.effect && h.engine.circle == e.circle && h.engine.info == e.info
  {
    Handled(e.(status := Off), [Write(Off)])
  }

  /** `button_open_callback`: a forced request for the effect named by a random
      code below LED_EFFECT_MAX. The lights end up ON, and the code either
      selects its effect or, for CIRCLE, toggles the mask. */
  function ButtonOpen(e: Globals, rnd: nat): (h: Handled)
    ensures h.engine.status == On && h.engine.info == e.info
    ensures rnd % EffectMax == EffectCode(Circle) ==> h.engine.circle == !e.circle && h.engine.effect == e.effect
    ensures rnd % EffectMax != EffectCode(Circle) ==>
              EffectCode(h.engine.effect) == rnd % EffectMax && h.engine.circle == e.circle
  {
    SetLedEffect(e, EffectOfCode(rnd % EffectMax), true)
  }

  /** `miot_callback` for a power command: "on" is a forced request for the
      white steady light, "off" stops at once, and a missing or other string
      changes nothing. */
  function Miot(e: Globals, cmd: Option<string>): (h: Handled)
    ensures cmd == Some("on") ==>
              h.engine == e.(status := On, effect := AlwaysOnWhite)
              && h.steps == (if e.status == On then [Write(Off), AwaitIdle, Write(On)] else [Write(On)])
    ensures cmd == Some("off") ==> h.engine == e.(status := Off) && h.steps == [Write(Off)]
    ensures cmd != Some("on") && cmd != Some("off") ==> h == Handled(e, [])
  {
    match cmd
    case None => Handled(e, [])
    case Some(s) =>
      if s == "on" then SetLedEffect(e, AlwaysOnWhite, true)
      else if s == "off" then ButtonClose(e)
      else Handled(e, [])
  }

  /** `data_callback` as the source writes it: the JSON integer goes into the
      8-bit brightness field unchecked, keeping its low eight bits. */
  function DataUpdateAsWritten(e: Globals, value: Option<int>): (r: Globals)
    ensures value.None? ==> r == e
    ensures value.Some? ==> r.info.brightness % 0x100 == value.value % 0x100 && r.info.color == e.info.color
    ensures value.Some? ==> r == e.(info := r.info)
  {
    match value
    case None => e
    case Some(v) => e.(info := e.info.(brightness := v % 0x100))
  }

  /** `data_callback` keeping the brightness a percentage: values are clamped to 0..100. */
  function DataUpdate(e: Globals, value: Option<int>): (r: Globals)
    ensures value.None? ==> r == e
    ensures value.Some? || e.info.brightness <= 100 ==> r.info.brightness <= 100
    ensures value.Some? && 0 <= value.value <= 100 ==> r.info.brightness == value.value
    ensures value.Some? && value.value > 100 ==> r.info.brightness == 100
    ensures value.Some? && value.value < 0 ==> r.info.brightness == 0
    ensures value.Some? ==> r == e.(info := r.info) && r.info.color == e.info.color
    ensures value.Some? && 0 <= value.value <= 100 ==> r == DataUpdateAsWritten(e, value)
  {
    match value
    case None => e
    case Some(v) =>
      var b := if v < 0 then 0 else if v > 100 then 100 else v;
      e.(info := e.info.(brightness := b))
  }

  /** A brightness of 150 from the app is stored as is; the breathing effect
      then reaches the counter value 64 after 64 frames and reads one entry
      past the end of its 64-entry table. */
  lemma StoredBrightnessOverruns()
    ensures DataUpdateAsWritten(Boot, Some(150)).info.brightness == 150
    ensures EngineInv(Boot) && !EngineInv(ApplyAsWritten(Boot, Data(Some(150))))
    ensures BreatheFx.After(BreatheFx.Start, BreatheFx.Peak(150), 64).count == |ColorMath.Gama|
  {
    var b := DataUpdateAsWritten(Boot, Some(150)).info.brightness;
    assert b == 150;
    BreatheFx.BreatheOverrun(b);
  }

  // ---------------------------------------------------------------------------
  // Reachable states
  // ---------------------------------------------------------------------------

  /** What holds of every state reachable with the corrected data handler:
      CIRCLE is never the selected effect (so the render task never takes its
      no-op branch), and the brightness is a percentage. */
  predicate EngineInv(e: Globals) {
    e.effect != Circle && e.info.brightness <= 100
  }

  /** An input to the engine: a button, a power command, a data message, or a
      render pass. */
  datatype Input =
    | Open(rnd: nat)
    | Close
    | Power(cmd: Option<string>)
    | Data(value: Option<int>)
    | RenderPass

  /** One input, with the corrected data handler. */
  function Apply(e: Globals, i: Input): Globals {
    match i
    case Open(rnd) => ButtonOpen(e, rnd).engine
    case Close => ButtonClose(e).engine
    case Power(cmd) => Miot(e, cmd).engine
    case Data(v) => DataUpdate(e, v)
    case RenderPass => AfterPass(e)
  }

  /** One input, with the data handler as the source writes it. It differs
      from the corrected one only on a data message outside 0..100. */
  function ApplyAsWritten(e: Globals, i: Input): (r: Globals)
    ensures !(i.Data? && i.value.Some? && !(0 <= i.value.value <= 100)) ==> r == Apply(e, i)
  {
    match i
    case Data(v) => DataUpdateAsWritten(e, v)
    case _ => Apply(e, i)
  }

  function ApplyAll(e: Globals, inputs: seq<Input>): Globals
    decreases |inputs|
  {
    if inputs == [] then e else ApplyAll(Apply(e, inputs[0]), inputs[1..])
  }

  /** With the corrected data handler, every input keeps the invariant. */
  lemma ApplyKeepsInv(e: Globals, i: Input)
    requires EngineInv(e)
    ensures EngineInv(Apply(e, i))
  {
    match i
    case Open(rnd) =>
      var k := EffectOfCode(rnd % EffectMax);
      assert ButtonOpen(e, rnd) == SetLedEffect(e, k, true);
    case Close =>
    case Power(cmd) =>
    case Data(v) =>
    case RenderPass =>
  }

  /** From boot, whatever the inputs, with the corrected data handler CIRCLE
      is never selected, the brightness stays a percentage, and the breathing
      effect never reads past its table. */
  lemma {:induction false} Reachable(inputs: seq<Input>)
    ensures EngineInv(ApplyAll(Boot, inputs))
    ensures forall k: nat ::
              BreatheFx.After(BreatheFx.Start, BreatheFx.Peak(ApplyAll(Boot, inputs).info.brightness), k).count
              < |ColorMath.Gama|
    ensures Dispatch(ApplyAll(Boot, inputs).effect) != NoCall
  {
    ReachableFrom(Boot, inputs);
    BreatheFx.BreatheBoundedIff(ApplyAll(Boot, inputs).info.brightness);
  }

  lemma {:induction false} ReachableFrom(e: Globals, inputs: seq<Input>)
    requires EngineInv(e)
    ensures EngineInv(ApplyAll(e, inputs))
    decreases |inputs|
  {
    if inputs != [] {
      ApplyKeepsInv(e, inputs[0]);
      ReachableFrom(Apply(e, inputs[0]), inputs[1..]);
    }
  }
}
