/** What asking a read to stop does, over every interleaving. */
module StopRequests {
  import opened Bytes
  import opened Status
  import opened ReaderTypes
  import opened Lifecycle
  import EventLoop
  import SingleRead

  // ----- What Stop answers ------------------------------------------------

  /** A Read call that goes past its checks, and so clears the stop flag. */
  predicate Begins(s: Sys, a: Action) {
    a.Read? && a.check == OK && !(a.cfg.callback && s.ctxActive)
  }

  predicate StopAccepted(s: Sys, a: Action) {
    a.Stop? && Step(s, a).answer == Some(OK)
  }

  /** Stop calls answered RS_OK since the last Read began, `k` of them before. */
  function StopsSince(s: Sys, k: nat, actions: seq<Action>): nat
    decreases |actions|
  {
    if actions == [] then k
    else
      var a := actions[0];
      StopsSince(Step(s, a).sys, if Begins(s, a) then 0 else if StopAccepted(s, a) then k + 1 else k, actions[1..])
  }

  lemma {:induction false} StopFlagCounts(s: Sys, k: nat, actions: seq<Action>)
    requires k == if s.stop then 1 else 0
    ensures StopsSince(s, k, actions) == if Run(s, actions).stop then 1 else 0
    decreases |actions|
  {
    hide EventLoop.Body, EventLoop.Goes, Progress;
    if actions != [] {
      var a := actions[0];
      StopFlagCounts(Step(s, a).sys, if Begins(s, a) then 0 else if StopAccepted(s, a) then k + 1 else k, actions[1..]);
    }
  }

  lemma BusyIsActive(s: Sys)
    requires Inv(s)
    ensures Busy(s) <==> s.active
  {
    if s.active {
      assert Last(s) in s.readers && Live(Last(s));
    }
  }

  /** After every admissible run, the status of Stop says exactly whether a read
      is alive and whether it was asked to stop before; of the Stop calls between
      one Read and the next at most one is answered RS_OK. */
  lemma StopAnswers(cfg: Config, actions: seq<Action>)
    requires AdmissibleRun(Init(cfg), actions)
    ensures var s, n := Run(Init(cfg), actions), StopsSince(Init(cfg), 0, actions);
            var answer := Step(s, Stop).answer;
            && n <= 1
            && (answer == Some(ErrDependency) <==> !Busy(s))
            && (answer == Some(ErrInternal) <==> Busy(s) && n == 1)
            && (answer == Some(OK) <==> Busy(s) && n == 0)
  {
    hide Run, Inv, StopsSince, Busy;
    InvRun(cfg, actions);
    BusyIsActive(Run(Init(cfg), actions));
    StopFlagCounts(Init(cfg), 0, actions);
  }

  // ----- What a stop request achieves -------------------------------------

  /** How a read may stand that was at `was` when its stop request came: no turn
      of the loop and no attempt has begun since. Before its start-up, it ends with
      the failure of that or RS_OK; in the loop only the turn then under way could
      fail it, and between attempts only the last one allowed, if under way. */
  ghost predicate Winding(was: Reader, r: Reader) {
    && r.turns == was.turns && r.given == was.given
    && match was.pc
       case Starting => StopsAtStart(r)
       case AtTop(_) => StaysOrStops(was, r)
       case InTurn(_) =>
         || r.pc == was.pc
         || r.pc.AtTop?
         || (Settled(r.pc) && r.pc.status == r.failure.GetOr(OK) && r.failure in {None, Some(ErrInternal)})
       case Trying(_) => StaysOrStops(was, r)
       case Awaiting(k) =>
         || r.pc == was.pc
         || (r.pc.Reading? && r.pc.attempt == k && r.pc.met.stopAfter)
         || TriedOut(was, r)
       case Reading(_, _) => r.pc == was.pc || TriedOut(was, r)
       case _ => Settled(r.pc) && r.pc.status == was.pc.status
  }

  ghost predicate StaysOrStops(was: Reader, r: Reader) {
    r.pc == was.pc || (Settled(r.pc) && r.pc.status == OK)
  }

  /** The attempt that was under way is over. */
  predicate TriedOut(was: Reader, r: Reader)
    requires was.pc.Awaiting? || was.pc.Reading?
  {
    || r.pc.Trying?
    || (&& Settled(r.pc) && r.pc.status == r.failure.GetOr(OK)
        && (r.failure.Some? ==> (was.pc.attempt + 1) % 0x100 > was.given.retryCount))
  }

  /** A read asked to stop before its start-up. */
  ghost predicate StopsAtStart(r: Reader) {
    match r.startUp
    case None => r.pc.Starting?
    case Some(up) =>
      if up != OK then Settled(r.pc) && r.pc.status == up
      else
        || r.pc == (if r.given.onCardEvent then AtTop(EventLoop.START) else Trying(0))
        || (Settled(r.pc) && r.pc.status == OK)
  }

  /** Read `n` winds down, and the request stands until it has gone. */
  ghost predicate WindsDown(s: Sys, n: nat, was: Reader) {
    && n < |s.readers| && Winding(was, s.readers[n])
    && (Live(s.readers[n]) ==> s.stop && n == |s.readers| - 1)
  }

  lemma WindingProgress(was: Reader, r: Reader, cfg: Config, a: Action)
    requires Coherent(was) && Coherent(r) && Winding(was, r)
    requires cfg == r.given
    ensures Winding(was, Progress(r, cfg, true, a))
  {
    hide EventLoop.Body, EventLoop.Goes, SingleRead.TryOnce;
  }

  lemma WindingReader(s: Sys, a: Action, n: nat, was: Reader)
    requires Inv(s) && !a.Read? && !a.Stop? && a.i < |s.readers|
    requires Coherent(was) && WindsDown(s, n, was)
    ensures WindsDown(ReaderEffect(s, a), n, was)
  {
    hide Progress;
    var r := s.readers[a.i];
    if !Live(r) {
      GoneStays(r, CfgOf(s, a.i), s.stop, a);
    } else if a.i == n {
      WindingProgress(was, r, CfgOf(s, n), a);
      assert Live(s.readers[n]);
    }
  }

  lemma GoneStays(r: Reader, cfg: Config, stop: bool, a: Action)
    requires !Live(r)
    ensures Progress(r, cfg, stop, a) == r && !CallsBack(r, a) && !Leaves(r, a)
  {
  }

  lemma WindingRead(s: Sys, a: Action, n: nat, was: Reader)
    requires Inv(s) && a.Read? && Admissible(s, a) && WindsDown(s, n, was)
    ensures WindsDown(Step(s, a).sys, n, was)
  {
    hide Winding;
    if Live(s.readers[n]) {
      assert s.readers[n] in s.readers;
    }
  }

  lemma WindingStep(s: Sys, a: Action, n: nat, was: Reader)
    requires Inv(s) && Admissible(s, a)
    requires Coherent(was) && WindsDown(s, n, was)
    ensures WindsDown(Step(s, a).sys, n, was)
  {
    hide Inv, ReaderEffect, ReadEffect, Admissible, Winding;
    match a
    case Read(_, _, _) => WindingRead(s, a, n, was);
    case Stop =>
    case _ => if a.i < |s.readers| { WindingReader(s, a, n, was); }
  }

  lemma {:induction false} WindingRun(s: Sys, actions: seq<Action>, n: nat, was: Reader)
    requires Inv(s) && AdmissibleRun(s, actions)
    requires Coherent(was) && WindsDown(s, n, was)
    ensures WindsDown(Run(s, actions), n, was)
    decreases |actions|
  {
    hide Inv, Step, Admissible, WindsDown;
    if actions != [] {
      InvStep(s, actions[0]);
      WindingStep(s, actions[0], n, was);
      WindingRun(Step(s, actions[0]).sys, actions[1..], n, was);
    }
  }

  /** Once Stop has returned RS_OK, whatever follows, the read it was for begins
      no further turn of the loop and no further attempt. Caught before its
      start-up it ends with the failure of that, or RS_OK; caught in the loop it
      ends RS_OK, or RS_ERR_INTERNAL if just the turn under way met a system error;
      caught in an attempt it ends RS_OK, or with the failure of just that one if
      no retry is left; and the request stands as long as the read lives. */
  lemma StopSafety(cfg: Config, before: seq<Action>, after: seq<Action>)
    requires AdmissibleRun(Init(cfg), before)
    requires Step(Run(Init(cfg), before), Stop).answer == Some(OK)
    requires AdmissibleRun(Step(Run(Init(cfg), before), Stop).sys, after)
    ensures var s := Run(Init(cfg), before);
            && s.readers != [] && Live(Last(s))
            && WindsDown(Run(Step(s, Stop).sys, after), |s.readers| - 1, Last(s))
  {
    hide Run, AdmissibleRun;
    var s := Run(Init(cfg), before);
    InvRun(cfg, before);
    InvStop(s);
    assert Winding(Last(s), Last(s));
    WindingRun(Step(s, Stop).sys, after, |s.readers| - 1, Last(s));
  }

  /** A worker asked to stop at the top of its loop needs four steps of its own
      to be gone: then its one notice says RS_OK, and a next Read is accepted. */
  lemma StopCompletes(s: Sys, n: nat, cfg: Config)
    requires Inv(s) && s.stop && n < |s.readers| && s.readers[n].async && s.readers[n].pc.AtTop?
    requires cfg.callback
    ensures var t := Run(s, [TestStop(n), TearDown(n), CallBack(n), Leave(n)]);
            && t == s.(active := false, ctxActive := false, handle := false,
                       readers := s.readers[n := s.readers[n].(pc := Gone(OK))],
                       notices := s.notices + [Notice(n, OK)])
            && Step(t, Read(cfg, OK, true)).answer == Some(OK)
  {
    hide EventLoop.Goes, EventLoop.Body, Inv, Step, Progress;
    var r := s.readers[n];
    var s1 := SetPc(s, n, Closing(OK));
    var s2 := SetPc(s, n, Finished(OK));
    var s3 := SetPc(s, n, CalledBack(OK)).(notices := s.notices + [Notice(n, OK)]);
    var s4 := SetPc(s3, n, Gone(OK)).(active := false, ctxActive := false, handle := false);
    FourSteps(s, n, s1, s2, s3, s4);
    var as4 := [TestStop(n), TearDown(n), CallBack(n), Leave(n)];
    assert as4[1..] == [TearDown(n), CallBack(n), Leave(n)];
    assert as4[1..][1..] == [CallBack(n), Leave(n)];
    assert as4[1..][1..][1..] == [Leave(n)];
    assert as4[1..][1..][1..][1..] == [];
    assert Run(s3, [Leave(n)]) == Run(s4, []);
    assert Run(s2, [CallBack(n), Leave(n)]) == Run(s3, [Leave(n)]);
    assert Run(s1, [TearDown(n), CallBack(n), Leave(n)]) == Run(s2, [CallBack(n), Leave(n)]);
    assert s4.readers == s.readers[n := r.(pc := Gone(OK))];
    AcceptsRead(s4, cfg);
  }

  lemma AcceptsRead(s: Sys, cfg: Config)
    requires cfg.callback && !s.ctxActive
    ensures Step(s, Read(cfg, OK, true)).answer == Some(OK)
  {
  }

  lemma FourSteps(s: Sys, n: nat, s1: Sys, s2: Sys, s3: Sys, s4: Sys)
    requires s.stop && n < |s.readers| && s.readers[n].async && s.readers[n].pc.AtTop?
    requires s1 == SetPc(s, n, Closing(OK)) && s2 == SetPc(s, n, Finished(OK))
    requires s3 == SetPc(s, n, CalledBack(OK)).(notices := s.notices + [Notice(n, OK)])
    requires s4 == SetPc(s3, n, Gone(OK)).(active := false, ctxActive := false, handle := false)
    ensures Step(s, TestStop(n)).sys == s1
    ensures Step(s1, TearDown(n)).sys == s2
    ensures Step(s2, CallBack(n)).sys == s3
    ensures Step(s3, Leave(n)).sys == s4
  {
    hide EventLoop.Goes, EventLoop.Body, SingleRead.TryOnce;
    assert s1.readers[n := s1.readers[n].(pc := Finished(OK))] == s2.readers;
    assert s2.readers[n := s2.readers[n].(pc := CalledBack(OK))] == s3.readers;
  }

  // ----- Why reads must be kept apart -------------------------------------

  /** A blocking Read that overlaps a worker withdraws the worker's stop request,
      already answered RS_OK: the worker begins another turn. */
  lemma OverlapLosesStop(s: Sys, n: nat, cfg: Config)
    requires Inv(s) && s.stop && n < |s.readers| && s.readers[n].async && s.readers[n].pc.AtTop?
    requires EventLoop.Goes(CfgOf(s, n), s.readers[n].pc.s) && !cfg.callback
    ensures !Admissible(s, Read(cfg, OK, true))
    ensures var t := Run(s, [Read(cfg, OK, true), TestStop(n)]);
            && n < |t.readers| && t.readers[n].turns == s.readers[n].turns + 1
            && !WindsDown(t, n, s.readers[n])
  {
    hide EventLoop.Goes, EventLoop.Body, Inv;
    assert s.readers[n] in s.readers;
    var u := Step(s, Read(cfg, OK, true)).sys;
    assert [Read(cfg, OK, true), TestStop(n)][1..] == [TestStop(n)];
    assert [TestStop(n)][1..] == [];
    assert Run(u, [TestStop(n)]) == Run(Step(u, TestStop(n)).sys, []);
    assert u.readers[n] == s.readers[n];
  }

  /** What any step does to the stop flag, admissible or not. */
  lemma StopFlagStep(s: Sys, a: Action)
    ensures Step(s, a).sys.stop <==> (s.stop && !Begins(s, a)) || StopAccepted(s, a)
  {
    hide Progress;
  }

  /** The flag is set after every step of the run. */
  predicate RequestStands(s: Sys, actions: seq<Action>)
    decreases |actions|
  {
    s.stop && (actions == [] || RequestStands(Step(s, actions[0]).sys, actions[1..]))
  }

  predicate SomeReadBegins(s: Sys, actions: seq<Action>)
    decreases |actions|
  {
    actions != [] && (Begins(s, actions[0]) || SomeReadBegins(Step(s, actions[0]).sys, actions[1..]))
  }

  /** In every run, overlapping reads included, a request once made stands
      throughout if and only if no Read begins meanwhile. */
  lemma {:induction false} StandsUntilRead(s: Sys, actions: seq<Action>)
    requires s.stop
    ensures RequestStands(s, actions) <==> !SomeReadBegins(s, actions)
    decreases |actions|
  {
    hide Step, Begins, StopAccepted;
    if actions != [] {
      StopFlagStep(s, actions[0]);
      BeginsNoStop(s, actions[0]);
      if Begins(s, actions[0]) {
        assert !RequestStands(Step(s, actions[0]).sys, actions[1..]);
      } else {
        StandsUntilRead(Step(s, actions[0]).sys, actions[1..]);
      }
    }
  }

  lemma BeginsNoStop(s: Sys, a: Action)
    ensures !(Begins(s, a) && StopAccepted(s, a))
  {
  }

  /** A run from the start in which that happens: the worker is up and asked to
      stop with RS_OK, a blocking Read comes in between, and the worker makes its
      first turn. */
  lemma OverlapFromTheStart(first: Config, worker: Config, other: Config)
    requires worker.callback && worker.onCardEvent && EventLoop.Goes(worker, EventLoop.START) && !other.callback
    ensures var s := Run(Init(first), [Read(worker, OK, true), StartUp(0, OK)]);
            var t := Run(Step(s, Stop).sys, [Read(other, OK, true), TestStop(0)]);
            && AdmissibleRun(Init(first), [Read(worker, OK, true), StartUp(0, OK)])
            && Step(s, Stop).answer == Some(OK)
            && |t.readers| > 0 && t.readers[0].turns == 1
  {
    hide EventLoop.Goes, EventLoop.Body, SingleRead.TryOnce;
    var as2 := [Read(worker, OK, true), StartUp(0, OK)];
    var s1 := Step(Init(first), as2[0]).sys;
    var s := Step(s1, as2[1]).sys;
    assert as2[1..] == [StartUp(0, OK)] && [StartUp(0, OK)][1..] == [];
    assert s1.readers == [NewReader(worker)];
    assert s.readers[0] == NewReader(worker).(startUp := Some(OK), pc := AtTop(EventLoop.START));
    assert Run(s1, [StartUp(0, OK)]) == Run(s, []) == s;
    assert AdmissibleRun(s, []) && AdmissibleRun(s1, [StartUp(0, OK)]) && AdmissibleRun(Init(first), as2);
    hide Inv, Step, Run, AdmissibleRun, Progress;
    InvRun(first, as2);
    WorkerAsked(s, worker, other);
  }

  lemma WorkerAsked(s: Sys, worker: Config, other: Config)
    requires Inv(s) && !s.stop && s.active && s.ctxCfg == worker && |s.readers| == 1 && s.readers[0].async
    requires s.readers[0].pc == AtTop(EventLoop.START) && s.readers[0].turns == 0
    requires EventLoop.Goes(worker, EventLoop.START) && !other.callback
    ensures Step(s, Stop).answer == Some(OK)
    ensures var t := Run(Step(s, Stop).sys, [Read(other, OK, true), TestStop(0)]);
            |t.readers| > 0 && t.readers[0].turns == 1
  {
    InvStop(s);
    hide Inv, EventLoop.Goes, Run;
    OverlapLosesStop(Step(s, Stop).sys, 0, other);
  }
}
