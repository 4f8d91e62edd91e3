/** The wake-cycle flags of the firmware (`didSync`, `didUpdateScreen`,
    `didPublish`) and the decisions `loop()` takes on them, as a state
    machine over values.  A pass of `loop()` acts only when the cloud is
    connected and the configuration has been synchronised; it then either
    requests hibernation (once the screen was redrawn) and, unless that
    request took the device down, publishes the telemetry event (until one
    publish was confirmed). */
module Cycle {

  /** The three flags, plus whether the device has gone into hibernation
      (after which no code of this wake cycle runs). */
  datatype Flags = Flags(didSync: bool, didUpdateScreen: bool, didPublish: bool, hibernated: bool)

  /** Every flag false: the state at boot. */
  const Boot := Flags(false, false, false, false)

  /** How `Particle.publish` followed by the 60-second wait ended:
      `isSent()`, a failure (`!isOk()`), or still in flight / neither. */
  datatype PublishOutcome = Sent | Failed | StillSending

  /** What one pass of `loop()` did to the outside world. */
  datatype Action = Idle | Hibernate | Publish(outcome: PublishOutcome)

  /** What can happen between two observations of the flags: a pass of
      `loop()`, the configuration-sync callback, or a forecast response
      that got through to the redraw.  `slept` says whether a hibernation
      request made by the pass takes effect; a request that fails returns,
      and the pass goes on to the publish check. */
  datatype Input = Pass(connected: bool, slept: bool, outcome: PublishOutcome) | ConfigSynced | ScreenUpdated

  datatype StepResult = StepResult(flags: Flags, action: Action)

  /** One pass of `loop()` with the given connectivity, hibernation result
      and publish outcome. */
  function LoopPass(f: Flags, connected: bool, slept: bool, outcome: PublishOutcome): StepResult
    requires !f.hibernated
  {
    if !(connected && f.didSync) then StepResult(f, Idle)
    else if f.didUpdateScreen && slept then StepResult(f.(hibernated := true), Hibernate)
    else if !f.didPublish then StepResult(f.(didPublish := outcome == Sent), Publish(outcome))
    else StepResult(f, Idle)
  }

  /** One input applied to the flags. */
  function Step(f: Flags, input: Input): StepResult
    requires !f.hibernated
  {
    match input
    case Pass(connected, slept, outcome) => LoopPass(f, connected, slept, outcome)
    case ConfigSynced => StepResult(f.(didSync := true), Idle)
    case ScreenUpdated => StepResult(f.(didUpdateScreen := true), Idle)
  }

  /** The flags and the actions after a sequence of inputs; inputs that
      would come after hibernation never happen. */
  function Run(f: Flags, inputs: seq<Input>): (r: (Flags, seq<Action>))
    ensures |r.1| <= |inputs|
    decreases |inputs|
  {
    if inputs == [] || f.hibernated then (f, [])
    else
      var s := Step(f, inputs[0]);
      var rest := Run(s.flags, inputs[1..]);
      (rest.0, [s.action] + rest.1)
  }

  /** No flag went from true back to false. */
  predicate Widened(f: Flags, g: Flags)
  {
    (f.didSync ==> g.didSync) && (f.didUpdateScreen ==> g.didUpdateScreen) &&
    (f.didPublish ==> g.didPublish) && (f.hibernated ==> g.hibernated)
  }

  /** Number of confirmed publishes among the actions. */
  function SentCount(acts: seq<Action>): nat
  {
    if acts == [] then 0
    else (if acts[0] == Publish(Sent) then 1 else 0) + SentCount(acts[1..])
  }

  /** `n` copies of `x`. */
  function Repeat<T>(x: T, n: nat): (r: seq<T>)
    ensures |r| == n
  {
    if n == 0 then [] else [x] + Repeat(x, n - 1)
  }

  /** What one pass does: nothing without a connection and a synchronised
      configuration; hibernation, before any publish, once the screen was
      redrawn and the request takes effect; otherwise a publish exactly
      while no publish was confirmed, and `didPublish` set only by a
      confirmed one. */
  lemma LoopPassSpec(f: Flags, connected: bool, slept: bool, outcome: PublishOutcome)
    requires !f.hibernated
    ensures var s := LoopPass(f, connected, slept, outcome);
      && (!(connected && f.didSync) ==> s == StepResult(f, Idle))
      && (s.action == Hibernate <==> connected && f.didSync && f.didUpdateScreen && slept)
      && (s.action.Publish? <==> connected && f.didSync && !(f.didUpdateScreen && slept) && !f.didPublish)
      && (s.action.Publish? ==> s.action.outcome == outcome)
      && (s.flags.didPublish <==> f.didPublish || (s.action.Publish? && outcome == Sent))
      && s.flags.didSync == f.didSync && s.flags.didUpdateScreen == f.didUpdateScreen
      && (s.flags.hibernated <==> s.action == Hibernate)
  {
  }

  /** Along any run the flags only go from false to true. */
  lemma {:induction false} RunWidens(f: Flags, inputs: seq<Input>)
    ensures Widened(f, Run(f, inputs).0)
    decreases |inputs|
  {
    if inputs != [] && !f.hibernated {
      RunWidens(Step(f, inputs[0]).flags, inputs[1..]);
    }
  }

  /** Once a publish was confirmed no further publish is attempted, however
      many passes follow. */
  lemma {:induction false} NoPublishAfterConfirmed(f: Flags, inputs: seq<Input>)
    requires f.didPublish
    ensures forall i :: 0 <= i < |Run(f, inputs).1| ==> !Run(f, inputs).1[i].Publish?
    decreases |inputs|
  {
    if inputs != [] && !f.hibernated {
      NoPublishAfterConfirmed(Step(f, inputs[0]).flags, inputs[1..]);
    }
  }

  /** Once the screen was redrawn a pass publishes only when its
      hibernation request failed and returned: every publish of the run
      comes from a pass whose sleep did not take effect. */
  lemma {:induction false} NoPublishAfterRedraw(f: Flags, inputs: seq<Input>)
    requires f.didUpdateScreen
    ensures forall i :: 0 <= i < |Run(f, inputs).1| && Run(f, inputs).1[i].Publish? ==>
      inputs[i].Pass? && !inputs[i].slept
    decreases |inputs|
  {
    if inputs != [] && !f.hibernated {
      var s := Step(f, inputs[0]);
      var rest := Run(s.flags, inputs[1..]);
      var acts := [s.action] + rest.1;
      NoPublishAfterRedraw(s.flags, inputs[1..]);
      forall i | 0 <= i < |acts| && acts[i].Publish?
        ensures inputs[i].Pass? && !inputs[i].slept
      {
        if i > 0 {
          assert rest.1[i - 1].Publish?;
          assert inputs[1..][i - 1] == inputs[i];
        }
      }
    }
  }

  /** A hibernation request that fails does not end the pass: with no
      publish confirmed yet, the same pass goes on to publish after the
      redraw. */
  lemma FailedSleepFallsThrough(f: Flags, outcome: PublishOutcome)
    requires f.didSync && f.didUpdateScreen && !f.didPublish && !f.hibernated
    ensures Run(f, [Pass(true, false, outcome)])
         == (f.(didPublish := outcome == Sent), [Publish(outcome)])
  {
    assert [Publish(outcome)] + [] == [Publish(outcome)];
  }

  /** At most one publish is confirmed per wake cycle, and none once one
      was. */
  lemma {:induction false} AtMostOneConfirmedPublish(f: Flags, inputs: seq<Input>)
    ensures SentCount(Run(f, inputs).1) <= if f.didPublish then 0 else 1
    decreases |inputs|
  {
    if inputs != [] && !f.hibernated {
      var s := Step(f, inputs[0]);
      AtMostOneConfirmedPublish(s.flags, inputs[1..]);
      assert ([s.action] + Run(s.flags, inputs[1..]).1)[1..] == Run(s.flags, inputs[1..]).1;
    }
  }

  /** Hibernation ends the run: it is the last action, and only a redrawn
      screen leads to it. */
  lemma {:induction false} HibernateIsLast(f: Flags, inputs: seq<Input>)
    ensures forall i :: 0 <= i < |Run(f, inputs).1| && Run(f, inputs).1[i] == Hibernate ==>
      i == |Run(f, inputs).1| - 1 && Run(f, inputs).0.hibernated && Run(f, inputs).0.didUpdateScreen
    decreases |inputs|
  {
    if inputs != [] && !f.hibernated {
      var s := Step(f, inputs[0]);
      var rest := Run(s.flags, inputs[1..]);
      var acts := [s.action] + rest.1;
      HibernateIsLast(s.flags, inputs[1..]);
      forall i | 0 <= i < |acts| && acts[i] == Hibernate
        ensures i == |acts| - 1 && rest.0.hibernated && rest.0.didUpdateScreen
      {
        if i == 0 {
          assert s.flags.hibernated && s.flags.didUpdateScreen;
          assert rest == (s.flags, []);
        } else {
          assert rest.1[i - 1] == Hibernate;
        }
      }
    }
  }

  /** A failed publish is retried on every following pass, with no retry
      limit: `n` failing passes make `n` publish attempts and leave the
      flags as they were. */
  lemma {:induction false} FailedPublishRetried(f: Flags, n: nat)
    requires f.didSync && !f.didUpdateScreen && !f.didPublish && !f.hibernated
    ensures Run(f, Repeat(Pass(true, true, Failed), n)) == (f, Repeat(Publish(Failed), n))
    decreases n
  {
    if n > 0 {
      FailedPublishRetried(f, n - 1);
      assert Repeat(Pass(true, true, Failed), n)[1..] == Repeat(Pass(true, true, Failed), n - 1);
    }
  }

  /** The intended cycle: boot, synchronise, publish (which triggers the
      forecast webhook), redraw, hibernate. */
  lemma NominalCycle()
    ensures Run(Boot, [ConfigSynced, Pass(true, true, Sent), ScreenUpdated, Pass(true, true, Sent)])
         == (Flags(true, true, true, true), [Idle, Publish(Sent), Idle, Hibernate])
  {
    // the run unrolled from its last input back to its first
    var f1, f2, f3 := Flags(true, false, false, false), Flags(true, false, true, false),
                      Flags(true, true, true, false);
    var r3 := Run(f3, [Pass(true, true, Sent)]);
    assert [Hibernate] + [] == [Hibernate];
    var r2 := Run(f2, [ScreenUpdated, Pass(true, true, Sent)]);
    var r1 := Run(f1, [Pass(true, true, Sent), ScreenUpdated, Pass(true, true, Sent)]);
    assert [Idle] + [Hibernate] == [Idle, Hibernate];
    assert [Publish(Sent)] + [Idle, Hibernate] == [Publish(Sent), Idle, Hibernate];
    assert [Idle] + [Publish(Sent), Idle, Hibernate] == [Idle, Publish(Sent), Idle, Hibernate];
  }
}
