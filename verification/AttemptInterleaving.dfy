/**
 * Outside event mode, a read among other tasks makes the attempts of the
 * sequential `SingleRead.Retry`, and asks nothing new after a stop request.
 */
module AttemptInterleaving {
  import opened Bytes
  import opened Status
  import opened ReaderTypes
  import opened Lifecycle
  import opened LoopInterleaving
  import CardWait
  import SingleRead
  import StopRequests

  /** An attempt that finds the stop flag set. */
  const STOPPED_ATTEMPT := SingleRead.Attempt(true, OK, CardWait.NoCard, false, MUTE_CARD)

  predicate Attempting(pc: Pc) { pc.Trying? || pc.Awaiting? || pc.Reading? }

  /** The attempt that is over with a step of the read's own, if one is. */
  function AttemptOver(r: Reader, stop: bool, a: Action): seq<SingleRead.Attempt> {
    match (a, r.pc)
    case (TestAttempt(_), Trying(_)) => if stop then [STOPPED_ATTEMPT] else []
    case (AttemptDone(_), Reading(_, met)) => [met]
    case _ => []
  }

  /** ... and all of them in a run of the whole system. */
  function AttemptsOf(s: Sys, n: nat, actions: seq<Action>): seq<SingleRead.Attempt>
    requires n < |s.readers|
    decreases |actions|
  {
    if actions == [] then []
    else
      var a, t := actions[0], Step(s, actions[0]).sys;
      (if OwnStep(n, a) then AttemptOver(s.readers[n], s.stop, a) else [])
      + if n < |t.readers| then AttemptsOf(t, n, actions[1..]) else []
  }

  /** The read stands where the retried read `run` ends, or is in an attempt where
      that goes on. */
  predicate StandsInRetry(r: Reader, run: SingleRead.RetryRun) {
    match run
    case Ongoing(_, _) => Attempting(r.pc)
    case Ended(st, _, _, _) => Settled(r.pc) && r.pc.status == st
  }

  function RetryOn(cfg: Config, attempt: byte, last: Status, given: seq<SingleRead.Attempt>): SingleRead.RetryRun {
    SingleRead.RetryFrom(cfg, cfg.retryCount, attempt, last, given)
  }

  /** The status that counts as the last one after a step. */
  function LastAfter(cfg: Config, r: Reader, a: Action, last: Status): Status {
    if a.AttemptDone? && r.pc.Reading? then SingleRead.TryOnce(cfg, r.pc.met).status else last
  }

  /** The read stands at `t`, and what is left of its run is `rest`. */
  predicate LeftOver(cfg: Config, t: Reader, last: Status, rest: seq<SingleRead.Attempt>, fin: Reader) {
    if Settled(t.pc) then rest == [] && SameEnd(t, fin)
    else
      && Attempting(t.pc)
      && var run := RetryOn(cfg, t.pc.attempt, last, rest);
         StandsInRetry(fin, run) && run.attempts == |rest|
  }

  /** The retried read, by its first attempt. */
  lemma FirstAttempt(cfg: Config, attempt: byte, last: Status, m: SingleRead.Attempt, rest: seq<SingleRead.Attempt>)
    requires attempt <= cfg.retryCount
    ensures var st, next := SingleRead.TryOnce(cfg, m).status, (attempt + 1) % 0x100;
            var run, later := RetryOn(cfg, attempt, last, [m] + rest), RetryOn(cfg, next, st, rest);
            if st == OK || next > cfg.retryCount then run.Ended? && run.status == st && run.attempts == 1
            else
              && run.Ended? == later.Ended? && run.attempts == later.attempts + 1
              && (run.Ended? ==> run.status == later.status)
  {
    assert ([m] + rest)[0] == m && ([m] + rest)[1..] == rest;
    SingleRead.RetryStep(cfg, cfg.retryCount, attempt, last, [m] + rest);
    var st, next := SingleRead.TryOnce(cfg, m).status, (attempt + 1) % 0x100;
    if next > cfg.retryCount {
      SingleRead.RetryAtEnd(cfg, cfg.retryCount, next, st, rest);
    }
    hide SingleRead.TryOnce, SingleRead.RetryFrom, SingleRead.Deactivations;
  }

  lemma OwnStepIsTheRetrys(r: Reader, cfg: Config, stop: bool, a: Action, last: Status,
                           rest: seq<SingleRead.Attempt>, fin: Reader)
    requires Attempting(r.pc) && r.pc.attempt <= cfg.retryCount
    requires LeftOver(cfg, Progress(r, cfg, stop, a), LastAfter(cfg, r, a, last), rest, fin)
    ensures LeftOver(cfg, r, last, AttemptOver(r, stop, a) + rest, fin)
  {
    hide RetryOn;
    var over := AttemptOver(r, stop, a);
    if over == [] {
      assert over + rest == rest;
    } else {
      assert SingleRead.TryOnce(cfg, STOPPED_ATTEMPT).status == OK;
      hide SingleRead.TryOnce;
      FirstAttempt(cfg, r.pc.attempt, last, over[0], rest);
    }
  }

  lemma OwnStepKeepsOn(r: Reader, cfg: Config, stop: bool, a: Action)
    requires Attempting(r.pc)
    ensures var t := Progress(r, cfg, stop, a);
            && (Settled(t.pc) || Attempting(t.pc))
            && (r.pc.attempt <= cfg.retryCount && Attempting(t.pc) ==> t.pc.attempt <= cfg.retryCount)
  {
    hide SingleRead.TryOnce;
  }

  lemma {:induction false} SettledAttempts(s: Sys, n: nat, actions: seq<Action>)
    requires n < |s.readers| && Settled(s.readers[n].pc)
    ensures AttemptsOf(s, n, actions) == []
    decreases |actions|
  {
    hide Step;
    if actions != [] {
      SettledStays(s, n, actions[0]);
      SettledAttempts(Step(s, actions[0]).sys, n, actions[1..]);
    }
  }

  lemma {:induction false} RetriedFrom(s: Sys, n: nat, actions: seq<Action>, last: Status)
    requires Inv(s) && AdmissibleRun(s, actions) && n < |s.readers|
    requires Attempting(s.readers[n].pc) && s.readers[n].pc.attempt <= CfgOf(s, n).retryCount
    ensures n < |Run(s, actions).readers|
    ensures var met := AttemptsOf(s, n, actions);
            var run := RetryOn(CfgOf(s, n), s.readers[n].pc.attempt, last, met);
            StandsInRetry(Run(s, actions).readers[n], run) && run.attempts == |met|
    decreases |actions|
  {
    hide Inv, Step, Admissible, Progress, AttemptOver, CfgOf, SingleRead.TryOnce, LastAfter;
    if actions != [] {
      hide RetryOn, StandsInRetry, SameEnd;
      var a, t := actions[0], Step(s, actions[0]).sys;
      InvStep(s, a);
      if OwnStep(n, a) {
        var r, cfg := s.readers[n], CfgOf(s, n);
        OwnStepEffect(s, n, a);
        OwnStepKeepsOn(r, cfg, s.stop, a);
        if Settled(t.readers[n].pc) {
          SettledRun(t, n, actions[1..]);
          SettledAttempts(t, n, actions[1..]);
        } else {
          RetriedFrom(t, n, actions[1..], LastAfter(cfg, r, a, last));
        }
        OwnStepIsTheRetrys(r, cfg, s.stop, a, last, AttemptsOf(t, n, actions[1..]), Run(s, actions).readers[n]);
      } else {
        OtherStep(s, n, a);
        RetriedFrom(t, n, actions[1..], last);
        assert [] + AttemptsOf(t, n, actions[1..]) == AttemptsOf(t, n, actions[1..]);
      }
    }
  }

  /** From the moment its start-up succeeds, and whatever else goes on, a read
      outside event mode makes the attempts of the sequential retried read (just
      one if it may not retry), under the configuration it was accepted with, on
      just what it met; it ends when that ends, with the same status. */
  lemma InterleavedRunIsARetry(cfg: Config, before: seq<Action>, n: nat, after: seq<Action>)
    requires AdmissibleRun(Init(cfg), before) && n < |Run(Init(cfg), before).readers|
    requires var r := Run(Init(cfg), before).readers[n]; r.pc.Starting? && !r.given.onCardEvent
    requires AdmissibleRun(Step(Run(Init(cfg), before), StartUp(n, OK)).sys, after)
    ensures var s := Run(Init(cfg), before);
            var t, r := Step(s, StartUp(n, OK)).sys, s.readers[n];
            && n < |t.readers| && n < |Run(t, after).readers|
            && var met := AttemptsOf(t, n, after);
               var run := SingleRead.Retry(r.given, r.given.retryCount, met);
               StandsInRetry(Run(t, after).readers[n], run) && run.attempts == |met|
  {
    hide Run, AdmissibleRun, SingleRead.RetryFrom, AttemptsOf, StandsInRetry;
    var s := Run(Init(cfg), before);
    InvRun(cfg, before);
    InvStep(s, StartUp(n, OK));
    assert s.readers[n] == Last(s) && CfgOf(s, n) == s.readers[n].given;
    RetriedFrom(Step(s, StartUp(n, OK)).sys, n, after, ErrTimeout);
  }

  // ----- After a stop request ---------------------------------------------

  /** None, or the one attempt that finds the flag set. */
  ghost predicate AtMostStopped(met: seq<SingleRead.Attempt>) {
    met == [] || met == [STOPPED_ATTEMPT]
  }

  /** The attempts of a read that was at `pc` when it was asked to stop: the one
      under way, with the flag found set if its wait was not over, and one that
      finds it set. */
  ghost predicate AfterStop(pc: Pc, met: seq<SingleRead.Attempt>)
    requires Attempting(pc)
  {
    match pc
    case Trying(_) => AtMostStopped(met)
    case Awaiting(_) => met == [] || (!met[0].stopBefore && met[0].stopAfter && AtMostStopped(met[1..]))
    case Reading(_, m) => met == [] || (met[0] == m && AtMostStopped(met[1..]))
  }

  lemma AfterStopOwnStep(r: Reader, cfg: Config, a: Action, rest: seq<SingleRead.Attempt>)
    requires Attempting(r.pc)
    requires var t := Progress(r, cfg, true, a);
             if Settled(t.pc) then rest == [] else Attempting(t.pc) && AfterStop(t.pc, rest)
    ensures AfterStop(r.pc, AttemptOver(r, true, a) + rest)
  {
    hide SingleRead.TryOnce;
    var over := AttemptOver(r, true, a);
    if over == [] {
      assert over + rest == rest;
    } else {
      assert (over + rest)[1..] == rest;
      if r.pc.Trying? {
        assert over + rest == [STOPPED_ATTEMPT];
      }
    }
  }

  lemma StopStays(s: Sys, n: nat, a: Action)
    requires Inv(s) && Admissible(s, a) && s.stop && n == |s.readers| - 1
    ensures var t := Step(s, a).sys; n < |t.readers| && (Live(t.readers[n]) ==> t.stop && n == |t.readers| - 1)
  {
    assert StopRequests.Winding(s.readers[n], s.readers[n]) && Coherent(s.readers[n]);
    hide Inv, Step, Admissible, StopRequests.Winding;
    StopRequests.WindingStep(s, a, n, s.readers[n]);
  }

  lemma {:induction false} AttemptsAfterStop(s: Sys, n: nat, actions: seq<Action>)
    requires Inv(s) && AdmissibleRun(s, actions) && s.stop && n == |s.readers| - 1 && Attempting(s.readers[n].pc)
    ensures AfterStop(s.readers[n].pc, AttemptsOf(s, n, actions))
    decreases |actions|
  {
    hide Inv, Step, Admissible, Progress, AttemptOver, CfgOf;
    if actions != [] {
      hide AfterStop;
      var a, t := actions[0], Step(s, actions[0]).sys;
      InvStep(s, a);
      StopStays(s, n, a);
      if OwnStep(n, a) {
        var r, cfg := s.readers[n], CfgOf(s, n);
        OwnStepEffect(s, n, a);
        OwnStepKeepsOn(r, cfg, s.stop, a);
        if Settled(t.readers[n].pc) {
          SettledAttempts(t, n, actions[1..]);
        } else {
          AttemptsAfterStop(t, n, actions[1..]);
        }
        AfterStopOwnStep(r, cfg, a, AttemptsOf(t, n, actions[1..]));
      } else {
        OtherStep(s, n, a);
        AttemptsAfterStop(t, n, actions[1..]);
        assert [] + AttemptsOf(t, n, actions[1..]) == AttemptsOf(t, n, actions[1..]);
      }
    }
  }

  /** What those attempts ask the adapter: nothing, where they found the flag set
      before the wait; just that wait, where they found it set behind it. */
  lemma NothingNewAsked(cfg: Config, a: SingleRead.Attempt)
    ensures a.stopBefore ==> SingleRead.TryOnce(cfg, a).calls == []
    ensures !a.stopBefore && a.stopAfter ==>
              SingleRead.TryOnce(cfg, a).calls == [Wait(cfg.timeoutMs, a.waitStatus == OK, a.disc)]
  {
    hide SingleRead.SingleReport;
  }

  /** Once Stop has returned RS_OK to an application whose read is in an attempt,
      whatever follows: that attempt, if under way, asks at most for the wait it
      is in, unless it has its card already, and no other asks for anything. */
  lemma StopEndsTheAttempts(cfg: Config, before: seq<Action>, after: seq<Action>)
    requires AdmissibleRun(Init(cfg), before)
    requires Step(Run(Init(cfg), before), Stop).answer == Some(OK)
    requires AdmissibleRun(Step(Run(Init(cfg), before), Stop).sys, after)
    ensures var s := Run(Init(cfg), before);
            && s.readers != []
            && (Attempting(Last(s).pc) ==>
                  var met := AttemptsOf(Step(s, Stop).sys, |s.readers| - 1, after);
                  && AfterStop(Last(s).pc, met)
                  && (forall i :: 1 <= i < |met| ==> SingleRead.TryOnce(Last(s).given, met[i]).calls == [])
                  && (Last(s).pc.Trying? && met != [] ==> SingleRead.TryOnce(Last(s).given, met[0]).calls == [])
                  && (Last(s).pc.Awaiting? && met != [] ==>
                        exists ok, disc :: SingleRead.TryOnce(Last(s).given, met[0]).calls ==
                                           [Wait(Last(s).given.timeoutMs, ok, disc)]))
  {
    hide Run, AdmissibleRun, AttemptsOf, SingleRead.TryOnce;
    var s := Run(Init(cfg), before);
    InvRun(cfg, before);
    InvStop(s);
    if Attempting(Last(s).pc) {
      var met := AttemptsOf(Step(s, Stop).sys, |s.readers| - 1, after);
      AttemptsAfterStop(Step(s, Stop).sys, |s.readers| - 1, after);
      forall m | m in met {
        NothingNewAsked(Last(s).given, m);
      }
      AllButTheFirst(Last(s).pc, met);
    }
  }

  lemma AllButTheFirst(pc: Pc, met: seq<SingleRead.Attempt>)
    requires Attempting(pc) && AfterStop(pc, met)
    ensures forall i :: 1 <= i < |met| ==> met[i].stopBefore
    ensures pc.Trying? && met != [] ==> met[0].stopBefore
  {
    if 1 < |met| {
      assert met[1..][0] == met[1];
    }
  }
}
