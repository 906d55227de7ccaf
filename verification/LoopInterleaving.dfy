/**
 * A read's event loop among other tasks is the sequential `EventLoop.Loop`: what
 * is proved of the loop by itself holds of it in every interleaving.
 */
module LoopInterleaving {
  import opened Status
  import opened ReaderTypes
  import opened Lifecycle
  import EventLoop
  import CardWait

  /** Where the loop finds the stop flag set. */
  const STOPPED := EventLoop.Iteration(true, true, EventLoop.SYSTEM_OK, 0, false, CardWait.NoCard, MUTE_CARD)

  /** What the loop of a read meets in a step of its own: the stop flag, if it
      finds it set, or what a turn meets. */
  function Meets(r: Reader, cfg: Config, stop: bool, a: Action): seq<EventLoop.Iteration> {
    match (a, r.pc)
    case (TestStop(_), AtTop(l)) => if EventLoop.Goes(cfg, l) && stop then [STOPPED] else []
    case (Turn(_, it), InTurn(l)) => if EventLoop.Goes(cfg, l) then [it.(stop := false)] else []
    case _ => []
  }

  predicate OwnStep(n: nat, a: Action) {
    !a.Read? && !a.Stop? && a.i == n
  }

  /** ... and in a run of the whole system. */
  function Met(s: Sys, n: nat, actions: seq<Action>): seq<EventLoop.Iteration>
    requires n < |s.readers|
    decreases |actions|
  {
    if actions == [] then []
    else
      var a, t := actions[0], Step(s, actions[0]).sys;
      (if OwnStep(n, a) then Meets(s.readers[n], CfgOf(s, n), s.stop, a) else [])
      + if n < |t.readers| then Met(t, n, actions[1..]) else []
  }

  /** Turns the loop has finished. */
  function TurnsDone(r: Reader): int {
    if r.pc.InTurn? then r.turns - 1 else r.turns
  }

  /** The read stands where the sequential run `run` ends, if its loop started
      with `done` turns behind it. */
  predicate StandsAt(cfg: Config, r: Reader, done: int, run: EventLoop.LoopRun) {
    && TurnsDone(r) == done + run.turns
    && match run
       case Ongoing(l, _, _) => (r.pc.AtTop? || r.pc.InTurn?) && r.pc.s == l
       case Ended(cause, _, _) =>
         if r.pc.AtTop? then cause.TimedOut? && !EventLoop.Goes(cfg, r.pc.s)
         else Settled(r.pc) && r.pc.status == EventLoop.StatusOf(cause)
  }

  lemma TurnIgnoresStop(cfg: Config, l: EventLoop.LoopState, it: EventLoop.Iteration)
    requires EventLoop.Goes(cfg, l)
    ensures EventLoop.Body(cfg, l, it.(stop := false)) == EventLoop.Body(cfg, l, it)
  {
    hide EventLoop.CardCalls;
  }

  /** One step of the read in its loop, against the sequential loop: what is met
      then leads to where the rest is carried on. */
  lemma OwnStepIsTheLoops(r: Reader, cfg: Config, stop: bool, a: Action, rest: seq<EventLoop.Iteration>, fin: Reader)
    requires r.pc.AtTop? || (r.pc.InTurn? && EventLoop.Goes(cfg, r.pc.s))
    requires var t := Progress(r, cfg, stop, a);
             if Settled(t.pc) then rest == [] && SameEnd(t, fin)
             else StandsAt(cfg, fin, TurnsDone(t), EventLoop.Loop(cfg, t.pc.s, rest))
    ensures StandsAt(cfg, fin, TurnsDone(r), EventLoop.Loop(cfg, r.pc.s, Meets(r, cfg, stop, a) + rest))
  {
    hide EventLoop.Body, EventLoop.Goes;
    var met := Meets(r, cfg, stop, a);
    if met == [] {
      assert met + rest == rest;
    } else {
      assert (met + rest)[1..] == rest;
      if a.Turn? {
        TurnIgnoresStop(cfg, r.pc.s, a.it);
      }
    }
  }

  /** Both settled, on the same outcome. */
  predicate SameEnd(r: Reader, t: Reader) {
    Settled(r.pc) && Settled(t.pc) && t.pc.status == r.pc.status && t.turns == r.turns
  }

  lemma SettledProgress(r: Reader, cfg: Config, stop: bool, a: Action)
    requires Settled(r.pc)
    ensures SameEnd(r, Progress(r, cfg, stop, a))
    ensures Meets(r, cfg, stop, a) == []
  {
  }

  lemma SettledEffect(s: Sys, n: nat, a: Action)
    requires n < |s.readers| && Settled(s.readers[n].pc) && OwnStep(n, a)
    ensures var t := ReaderEffect(s, a); n < |t.readers| && SameEnd(s.readers[n], t.readers[n])
  {
    hide Progress;
    var r := s.readers[n];
    SettledProgress(r, CfgOf(s, n), s.stop, a);
    if CallsBack(r, a) {
      assert SameEnd(r, r.(pc := CalledBack(r.pc.status)));
    } else if Leaves(r, a) {
      assert SameEnd(r, r.(pc := Gone(r.pc.status)));
    }
    hide SameEnd, Settled;
  }

  lemma SettledStays(s: Sys, n: nat, a: Action)
    requires n < |s.readers| && Settled(s.readers[n].pc)
    ensures var t := Step(s, a).sys; n < |t.readers| && SameEnd(s.readers[n], t.readers[n])
    ensures Meets(s.readers[n], CfgOf(s, n), s.stop, a) == []
  {
    hide Progress, Meets, ReaderEffect, ReadEffect, StopEffect;
    SettledProgress(s.readers[n], CfgOf(s, n), s.stop, a);
    if OwnStep(n, a) {
      SettledEffect(s, n, a);
    } else {
      OthersUntouched(s, n, a);
    }
  }

  lemma OthersUntouched(s: Sys, n: nat, a: Action)
    requires n < |s.readers| && !OwnStep(n, a)
    ensures var t := Step(s, a).sys; n < |t.readers| && t.readers[n] == s.readers[n]
  {
    hide ReaderEffect;
    if !a.Read? && !a.Stop? && a.i < |s.readers| {
      EffectElsewhere(s, n, a);
    }
  }

  lemma EffectElsewhere(s: Sys, n: nat, a: Action)
    requires n < |s.readers| && !a.Read? && !a.Stop? && a.i < |s.readers| && a.i != n
    ensures var t := ReaderEffect(s, a); n < |t.readers| && t.readers[n] == s.readers[n]
  {
    hide Progress, CallsBack, Leaves, CfgOf;
  }

  lemma {:induction false} SettledRun(s: Sys, n: nat, actions: seq<Action>)
    requires n < |s.readers| && Settled(s.readers[n].pc)
    ensures var t := Run(s, actions); n < |t.readers| && SameEnd(s.readers[n], t.readers[n])
    ensures Met(s, n, actions) == []
    decreases |actions|
  {
    hide Step, Meets;
    if actions != [] {
      SettledStays(s, n, actions[0]);
      SettledRun(Step(s, actions[0]).sys, n, actions[1..]);
    }
  }

  /** While a read lives, other steps change neither it nor its configuration. */
  lemma OtherStep(s: Sys, n: nat, a: Action)
    requires Inv(s) && Admissible(s, a) && n < |s.readers| && Live(s.readers[n]) && !OwnStep(n, a)
    ensures var t := Step(s, a).sys;
            && n < |t.readers| && t.readers[n] == s.readers[n] && CfgOf(t, n) == CfgOf(s, n)
  {
    hide Progress;
    OthersUntouched(s, n, a);
    assert s.readers[n] in s.readers;
  }

  lemma OwnStepEffect(s: Sys, n: nat, a: Action)
    requires n < |s.readers| && OwnStep(n, a) && !Settled(s.readers[n].pc)
    ensures var t := Step(s, a).sys;
            && n < |t.readers| && t.readers[n] == Progress(s.readers[n], CfgOf(s, n), s.stop, a)
            && CfgOf(t, n) == CfgOf(s, n)
  {
    hide EventLoop.Body, EventLoop.Goes;
  }

  lemma OwnStepStays(r: Reader, cfg: Config, stop: bool, a: Action)
    requires r.pc.AtTop? || (r.pc.InTurn? && EventLoop.Goes(cfg, r.pc.s))
    ensures var t := Progress(r, cfg, stop, a);
            t.pc.AtTop? || (t.pc.InTurn? && EventLoop.Goes(cfg, t.pc.s)) || Settled(t.pc)
  {
    hide EventLoop.Body, EventLoop.Goes;
  }

  lemma {:induction false} InterleavedFrom(s: Sys, n: nat, actions: seq<Action>)
    requires Inv(s) && AdmissibleRun(s, actions) && n < |s.readers|
    requires var pc := s.readers[n].pc; pc.AtTop? || (pc.InTurn? && EventLoop.Goes(CfgOf(s, n), pc.s))
    ensures n < |Run(s, actions).readers|
    ensures var r := s.readers[n];
            StandsAt(CfgOf(s, n), Run(s, actions).readers[n], TurnsDone(r),
                     EventLoop.Loop(CfgOf(s, n), r.pc.s, Met(s, n, actions)))
    decreases |actions|
  {
    hide Inv, Step, Admissible, Progress, Meets, EventLoop.Body, EventLoop.Goes, CfgOf;
    if actions != [] {
      var a, t := actions[0], Step(s, actions[0]).sys;
      InvStep(s, a);
      if OwnStep(n, a) {
        hide EventLoop.Loop;
        OwnStepEffect(s, n, a);
        OwnStepStays(s.readers[n], CfgOf(s, n), s.stop, a);
        if Settled(t.readers[n].pc) {
          SettledRun(t, n, actions[1..]);
        } else {
          InterleavedFrom(t, n, actions[1..]);
        }
        OwnStepIsTheLoops(s.readers[n], CfgOf(s, n), s.stop, a, Met(t, n, actions[1..]), Run(s, actions).readers[n]);
      } else {
        hide EventLoop.Loop;
        OtherStep(s, n, a);
        InterleavedFrom(t, n, actions[1..]);
        assert [] + Met(t, n, actions[1..]) == Met(t, n, actions[1..]);
      }
    }
  }

  /** From the moment its start-up succeeds, and whatever else goes on, a read in
      event mode makes the turns that the sequential loop makes, under the
      configuration it was accepted with, on just what it met; and it ends when
      that ends, for the same cause. */
  lemma InterleavedRunIsALoop(cfg: Config, before: seq<Action>, n: nat, after: seq<Action>)
    requires AdmissibleRun(Init(cfg), before) && n < |Run(Init(cfg), before).readers|
    requires var r := Run(Init(cfg), before).readers[n]; r.pc.Starting? && r.given.onCardEvent
    requires AdmissibleRun(Step(Run(Init(cfg), before), StartUp(n, OK)).sys, after)
    ensures var s := Run(Init(cfg), before);
            var t, r := Step(s, StartUp(n, OK)).sys, s.readers[n];
            && n < |t.readers| && n < |Run(t, after).readers|
            && StandsAt(r.given, Run(t, after).readers[n], r.turns,
                        EventLoop.Loop(r.given, EventLoop.START, Met(t, n, after)))
  {
    hide Run, AdmissibleRun, EventLoop.Loop, Met;
    var s := Run(Init(cfg), before);
    InvRun(cfg, before);
    InvStep(s, StartUp(n, OK));
    assert s.readers[n] == Last(s) && CfgOf(s, n) == s.readers[n].given;
    InterleavedFrom(Step(s, StartUp(n, OK)).sys, n, after);
  }
}
