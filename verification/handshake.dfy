/**
 The status handshake between the handlers and the render task, as an
 interleaving of atomic steps over the shared globals.

 The render task waits while the status is not ON, dispatches on the
 selected effect when it sees ON, keeps rendering while it sees ON, and on
 the way out clears the strip and writes IDLE. A handler that finds the
 status ON writes OFF and waits for IDLE before writing ON again; one that
 finds it not ON writes ON at once when forced. The handlers run one at a
 time on the cloud library's callback task, so a new request or stop only
 starts once the previous handler has returned.

 Two protocols are modelled: the one the source implements, and a corrected
 one in which the render task acknowledges an OFF with IDLE while it waits,
 and a forced request that finds OFF waits for IDLE before writing ON.
 */
module Handshake {
  import opened LedTypes
  import opened Engine

  /** Where the render task is: in its polling wait, inside an effect, or
      between the effect's return and its IDLE write. */
  datatype RenderPhase = Waiting | Running(kind: EffectKind) | Unwinding

  /** Whether a handler is blocked in its wait for IDLE. */
  datatype HandlerPhase = Ready | Awaiting

  datatype Sys = Sys(g: Globals, render: RenderPhase, handler: HandlerPhase)

  datatype Action =
    | RenderStep                               // the render task's next status read and what follows it
    | RenderReturn                             // an effect that returns without looking at the status
    | Request(kind: EffectKind, force: bool)   // set_led_effect starts
    | Stop                                     // the close button, or the "off" power command
    | Resume                                   // a waiting handler reads IDLE and writes ON

  datatype Protocol = AsWritten | Corrected

  const Init: Sys := Sys(Boot, Waiting, Ready)

  /** Test and the no-op CIRCLE branch return on their own; breathe does only
      at brightness 0, before its first status check. */
  predicate SelfReturning(k: EffectKind, info: LedInfo) {
    k == Test || k == Circle || (k == Breathe && info.brightness == 0)
  }

  function WithStatus(s: Sys, st: Status): Sys {
    s.(g := s.g.(status := st))
  }

  /** One atomic step. An action that is not enabled leaves the state as it is.
      Only a request changes the selection; only the render task writes IDLE
      or moves between its phases; only a handler writes ON or moves between
      ready and waiting; nothing touches the brightness record. */
  function Step(p: Protocol, s: Sys, a: Action): (r: Sys)
    ensures r.g.info == s.g.info
    ensures !a.Request? ==> r.g.effect == s.g.effect && r.g.circle == s.g.circle
    ensures r.g.status == Idle && s.g.status != Idle ==> a == RenderStep
    ensures r.g.status == On && s.g.status != On ==> a.Request? || a == Resume
    ensures r.render != s.render ==> a == RenderStep || a == RenderReturn
    ensures r.handler != s.handler ==> a.Request? || a == Resume
    ensures a == RenderReturn && r != s ==> s.render.Running? && SelfReturning(s.render.kind, s.g.info)
    ensures s.render.Running? && r.render == Unwinding ==>
              s.g.status != On || SelfReturning(s.render.kind, s.g.info)
  {
    match a
    case RenderStep =>
      (match s.render
       case Waiting =>
         if s.g.status == On then s.(render := Running(s.g.effect))
         else if p == Corrected && s.g.status == Off then WithStatus(s, Idle)
         else s
       case Running(k) =>
         if s.g.status == On then s else s.(render := Unwinding)
       case Unwinding =>
         WithStatus(s, Idle).(render := Waiting))
    case RenderReturn =>
      if s.render.Running? && SelfReturning(s.render.kind, s.g.info) then s.(render := Unwinding) else s
    case Request(kind, force) =>
      if s.handler != Ready then s
      else
        var t := s.(g := Select(s.g, kind));
        if s.g.status == On then WithStatus(t, Off).(handler := Awaiting)
        else if force && p == Corrected && s.g.status == Off then t.(handler := Awaiting)
        else if force then WithStatus(t, On)
        else t
    case Stop =>
      if s.handler == Ready then WithStatus(s, Off) else s
    case Resume =>
      if s.handler == Awaiting && s.g.status == Idle then WithStatus(s, On).(handler := Ready) else s
  }

  function Run(p: Protocol, s: Sys, schedule: seq<Action>): Sys
    decreases |schedule|
  {
    if schedule == [] then s else Run(p, Step(p, s, schedule[0]), schedule[1..])
  }

  lemma {:induction false} RunAppend(p: Protocol, s: Sys, a: seq<Action>, b: seq<Action>)
    ensures Run(p, s, a + b) == Run(p, Run(p, s, a), b)
    decreases |a|
  {
    if a != [] {
      assert (a + b)[0] == a[0];
      assert (a + b)[1..] == a[1..] + b;
      RunAppend(p, Step(p, s, a[0]), a[1..], b);
    } else {
      assert a + b == b;
    }
  }

  /** A request as the handler runs it up to its wait, next to the
      sequential handler: the globals agree, except that a restart has only
      written OFF so far and is waiting. */
  lemma RequestAgrees(s: Sys, kind: EffectKind, force: bool)
    requires s.handler == Ready
    ensures s.g.status != On ==>
              Step(AsWritten, s, Request(kind, force)).g == SetLedEffect(s.g, kind, force).engine
    ensures s.g.status == On ==>
              Step(AsWritten, s, Request(kind, force)).g == SetLedEffect(s.g, kind, force).engine.(status := Off)
              && Step(AsWritten, s, Request(kind, force)).handler == Awaiting
  {
  }

  // ---------------------------------------------------------------------------
  // The corrected protocol
  // ---------------------------------------------------------------------------

  /** IDLE is only seen while the render task waits; a running effect that
      sees ON is the selected one; a waiting handler never sees ON. */
  predicate ProtocolInv(s: Sys) {
    && (s.g.status == Idle ==> s.render == Waiting)
    && (s.render.Running? && s.g.status == On ==> s.render.kind == s.g.effect)
    && (s.handler == Awaiting ==> s.g.status != On)
  }

  lemma CorrectedKeepsInv(s: Sys, a: Action)
    requires ProtocolInv(s)
    ensures ProtocolInv(Step(Corrected, s, a))
  {
  }

  /** Whatever the schedule, the corrected protocol keeps the invariant from the initial state. */
  lemma {:induction false} CorrectedRuns(s: Sys, schedule: seq<Action>)
    requires ProtocolInv(s)
    ensures ProtocolInv(Run(Corrected, s, schedule))
    decreases |schedule|
  {
    if schedule != [] {
      CorrectedKeepsInv(s, schedule[0]);
      CorrectedRuns(Step(Corrected, s, schedule[0]), schedule[1..]);
    }
  }

  /** In the corrected protocol a handler's ON always finds the render task
      waiting, and its next step starts the selected effect: no request is
      lost and no earlier effect keeps running under it. */
  lemma NoLostRequest(s: Sys, a: Action)
    requires ProtocolInv(s) && s.g.status != On
    requires Step(Corrected, s, a).g.status == On
    ensures Step(Corrected, s, a).render == Waiting
    ensures Step(Corrected, Step(Corrected, s, a), RenderStep).render == Running(Step(Corrected, s, a).g.effect)
  {
  }

  /** In the corrected protocol a waiting handler always gets through: two
      render steps bring the status to IDLE, and the handler then writes ON. */
  lemma HandlerProceeds(s: Sys)
    requires ProtocolInv(s) && s.handler == Awaiting
    ensures Run(Corrected, s, [RenderStep, RenderStep, Resume]).handler == Ready
    ensures Run(Corrected, s, [RenderStep, RenderStep, Resume]).g.status == On
    ensures Run(Corrected, s, [RenderStep, RenderStep, Resume]).g.effect == s.g.effect
  {
    var s1 := Step(Corrected, s, RenderStep);
    var s2 := Step(Corrected, s1, RenderStep);
    assert s2.g.status == Idle;
    assert Run(Corrected, s, [RenderStep, RenderStep, Resume]) == Run(Corrected, s1, [RenderStep, Resume]);
    assert Run(Corrected, s1, [RenderStep, Resume]) == Run(Corrected, s2, [Resume]);
  }

  // ---------------------------------------------------------------------------
  // The protocol as written
  // ---------------------------------------------------------------------------

  /** Start the rainbow, stop it, and ask for the white light before the
      render task has looked at the status: the rainbow keeps running while
      the white light is selected and the status is ON. */
  lemma StaleEffectAsWritten()
    ensures Run(AsWritten, Init, [Request(Rainbow, true), RenderStep, Stop, Request(AlwaysOnWhite, true)]) ==
            Sys(Boot.(status := On, effect := AlwaysOnWhite), Running(Rainbow), Ready)
    ensures !ProtocolInv(Run(AsWritten, Init, [Request(Rainbow, true), RenderStep, Stop, Request(AlwaysOnWhite, true)]))
  {
    var s1 := Step(AsWritten, Init, Request(Rainbow, true));
    var s2 := Step(AsWritten, s1, RenderStep);
    var s3 := Step(AsWritten, s2, Stop);
    assert Run(AsWritten, Init, [Request(Rainbow, true), RenderStep, Stop, Request(AlwaysOnWhite, true)])
        == Run(AsWritten, s1, [RenderStep, Stop, Request(AlwaysOnWhite, true)]);
    assert Run(AsWritten, s1, [RenderStep, Stop, Request(AlwaysOnWhite, true)])
        == Run(AsWritten, s2, [Stop, Request(AlwaysOnWhite, true)]);
    assert Run(AsWritten, s2, [Stop, Request(AlwaysOnWhite, true)])
        == Run(AsWritten, s3, [Request(AlwaysOnWhite, true)]);
  }

  /** The rainbow was started and stopped, and the render task has seen the
      stop: its effect has returned and it is about to clear and write IDLE. */
  const Unwound: Sys := Sys(Boot.(status := Off, effect := Rainbow), Unwinding, Ready)

  lemma UnwoundReached()
    ensures Run(AsWritten, Init, [Request(Rainbow, true), RenderStep, Stop, RenderStep]) == Unwound
  {
    var s1 := Step(AsWritten, Init, Request(Rainbow, true));
    var s2 := Step(AsWritten, s1, RenderStep);
    var s3 := Step(AsWritten, s2, Stop);
    assert Run(AsWritten, Init, [Request(Rainbow, true), RenderStep, Stop, RenderStep])
        == Run(AsWritten, s1, [RenderStep, Stop, RenderStep]);
    assert Run(AsWritten, s1, [RenderStep, Stop, RenderStep]) == Run(AsWritten, s2, [Stop, RenderStep]);
    assert Run(AsWritten, s2, [Stop, RenderStep]) == Run(AsWritten, s3, [RenderStep]);
  }

  /** The corrected protocol reaches the same state, with one more render
      step at the start to acknowledge the initial OFF, and the invariant holds there. */
  lemma UnwoundReachedCorrected()
    ensures Run(Corrected, Init, [RenderStep, Request(Rainbow, true), RenderStep, Stop, RenderStep]) == Unwound
    ensures ProtocolInv(Unwound)
  {
    var sched := [RenderStep, Request(Rainbow, true), RenderStep, Stop, RenderStep];
    var s1 := Step(Corrected, Init, sched[0]);
    var s2 := Step(Corrected, s1, sched[1]);
    var s3 := Step(Corrected, s2, sched[2]);
    var s4 := Step(Corrected, s3, sched[3]);
    assert Run(Corrected, Init, sched) == Run(Corrected, s1, sched[1..]);
    assert Run(Corrected, s1, sched[1..]) == Run(Corrected, s2, sched[2..]);
    assert Run(Corrected, s2, sched[2..]) == Run(Corrected, s3, sched[3..]);
    assert Run(Corrected, s3, sched[3..]) == Run(Corrected, s4, sched[4..]);
    CorrectedRuns(Init, sched);
  }

  /** A forced request followed by enough turns for a restart: the render
      task steps twice, a waiting handler resumes, and the render task steps
      once more. */
  function Serve(k: EffectKind): seq<Action> {
    [Request(k, true), RenderStep, RenderStep, Resume, RenderStep]
  }

  /** The state a forced request for the white light leaves behind when it
      meets the unwinding render task: the white light is selected, no
      handler is waiting, and the status reads IDLE. */
  const Lost: Sys := Sys(Boot.(status := Idle, effect := AlwaysOnWhite), Waiting, Ready)

  /** As written, the request's ON is overwritten by the render task's IDLE,
      and polling changes nothing after that: the lights stay dark until the
      next request, although the power command was accepted. */
  lemma {:induction false} LostRequestAsWritten(polls: nat)
    ensures Run(AsWritten, Unwound, Serve(AlwaysOnWhite)) == Lost
    ensures Run(AsWritten, Lost, seq(polls, _ => RenderStep)) == Lost
    decreases polls
  {
    var sched := Serve(AlwaysOnWhite);
    var s1 := Step(AsWritten, Unwound, sched[0]);
    var s2 := Step(AsWritten, s1, sched[1]);
    var s3 := Step(AsWritten, s2, sched[2]);
    var s4 := Step(AsWritten, s3, sched[3]);
    assert Run(AsWritten, Unwound, sched) == Run(AsWritten, s1, sched[1..]);
    assert Run(AsWritten, s1, sched[1..]) == Run(AsWritten, s2, sched[2..]);
    assert Run(AsWritten, s2, sched[2..]) == Run(AsWritten, s3, sched[3..]);
    assert Run(AsWritten, s3, sched[3..]) == Run(AsWritten, s4, sched[4..]);
    if polls > 0 {
      LostRequestAsWritten(polls - 1);
      assert seq(polls, _ => RenderStep)[1..] == seq(polls - 1, _ => RenderStep);
    }
  }

  /** In the corrected protocol the same turns serve any forced request from
      any state the invariant admits: the status ends ON and the render task
      runs the requested effect. */
  lemma ForcedRequestServed(s: Sys, k: EffectKind)
    requires ProtocolInv(s) && s.handler == Ready && k != Circle
    ensures Run(Corrected, s, Serve(k)).g.status == On
    ensures Run(Corrected, s, Serve(k)).render == Running(k)
  {
    var sched := Serve(k);
    var s1 := Step(Corrected, s, sched[0]);
    assert s1.g.effect == k;
    assert s1.g.status == On ==> s1.render == Waiting && s1.handler == Ready;
    assert s1.g.status != On ==> s1.handler == Awaiting && s1.g.status == Off;
    var s2 := Step(Corrected, s1, sched[1]);
    var s3 := Step(Corrected, s2, sched[2]);
    assert s3.g.effect == k;
    assert s1.g.status == On ==> s3 == s1.(render := Running(k));
    assert s1.g.status != On ==> s3.g.status == Idle && s3.render == Waiting;
    var s4 := Step(Corrected, s3, sched[3]);
    assert s4.g.status == On && s4.g.effect == k;
    assert Run(Corrected, s, sched) == Run(Corrected, s1, sched[1..]);
    assert Run(Corrected, s1, sched[1..]) == Run(Corrected, s2, sched[2..]);
    assert Run(Corrected, s2, sched[2..]) == Run(Corrected, s3, sched[3..]);
    assert Run(Corrected, s3, sched[3..]) == Run(Corrected, s4, sched[4..]);
  }


  /** Two forced requests while the render task sits in its wait: the second
      finds ON, writes OFF and waits for IDLE. */
  const Stuck: Sys := Sys(Boot.(status := Off, effect := Breathe), Waiting, Awaiting)

  lemma DeadlockReached()
    ensures Run(AsWritten, Init, [Request(Rainbow, true), Request(Breathe, true)]) == Stuck
  {
    var s1 := Step(AsWritten, Init, Request(Rainbow, true));
    assert Run(AsWritten, Init, [Request(Rainbow, true), Request(Breathe, true)])
        == Run(AsWritten, s1, [Request(Breathe, true)]);
  }

  /** No schedule gets out of that state: the render task never starts an
      effect, so it never writes IDLE, and the handler waits forever. */
  lemma {:induction false} DeadlockAsWritten(schedule: seq<Action>)
    ensures Run(AsWritten, Stuck, schedule) == Stuck
    decreases |schedule|
  {
    if schedule != [] {
      assert Step(AsWritten, Stuck, schedule[0]) == Stuck;
      DeadlockAsWritten(schedule[1..]);
    }
  }
}
