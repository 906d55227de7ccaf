/**
 * A blocking read from open to close, in any of its three modes: event loop,
 * retried single shot, single shot.
 */
module BlockingRead {
  import opened Bytes
  import opened Status
  import opened CardResult
  import opened CardSummary
  import opened ReaderTypes
  import opened AdapterTrace
  import CardWait
  import EventLoop
  import SingleRead

  // ----- Specification ----------------------------------------------------

  /** How bringing up the peripherals and the SDK goes, where the SDK gets a second
      try, and whether the SDK shuts down. */
  datatype Platform = Platform(gpio: bool, timer: bool, appTimer: bool, spi: bool,
                               init: bool, initAgain: bool, deinit: bool)

  predicate Opens(p: Platform) {
    p.gpio && p.timer && p.appTimer && p.spi && (p.init || p.initAgain)
  }

  /** Everything one read meets; `turns` and `attempts` may end before it does. */
  datatype Env = Env(platform: Platform, configure: Status, start: Status,
                     turns: seq<EventLoop.Iteration>, attempts: seq<SingleRead.Attempt>)

  /** What a read comes to: returned with a status and the result it leaves, or
      still in its body. */
  datatype Run = Returned(status: Status, report: Option<Report>, calls: seq<Call>) | Going(calls: seq<Call>)

  function Body(cfg: Config, env: Env): Run {
    if cfg.onCardEvent then
      match EventLoop.Loop(cfg, EventLoop.START, env.turns)
      case Ended(cause, _, calls) =>
        var met := EventLoop.CardsMet(cfg, EventLoop.START, env.turns);
        Returned(EventLoop.StatusOf(cause), EventLoop.LastReport(cfg, met), calls)
      case Ongoing(_, _, calls) => Going(calls)
    else if cfg.retryCount > 0 then
      match SingleRead.Retry(cfg, cfg.retryCount, env.attempts)
      case Ended(st, _, report, calls) => Returned(st, report, calls)
      case Ongoing(_, calls) => Going(calls)
    else if env.attempts == [] then Going([])
    else
      var t := SingleRead.TryOnce(cfg, env.attempts[0]);
      Returned(t.status, t.report, t.calls)
  }

  const PREAMBLE := [Open(true), Configure(true), Start(true)]
  const TEARDOWN := [Deactivate, Close]

  function Read(cfg: Config, env: Env): Run {
    if !Opens(env.platform) then Returned(ErrInternal, None, [Open(false)])
    else if env.configure != OK then Returned(env.configure, None, [Open(true), Configure(false), Close])
    else if env.start != OK then Returned(env.start, None, [Open(true), Configure(true), Start(false), Close])
    else
      match Body(cfg, env)
      case Going(calls) => Going(PREAMBLE + calls)
      case Returned(st, report, calls) => Returned(st, report, PREAMBLE + calls + TEARDOWN)
  }

  // ----- The body stays between open and close ----------------------------

  predicate Inner(c: Call) {
    !c.Open? && !c.Close? && !c.Configure? && !c.Start?
  }

  lemma TurnInner(cfg: Config, s: EventLoop.LoopState, it: EventLoop.Iteration)
    requires EventLoop.Goes(cfg, s)
    ensures forall c :: c in EventLoop.Body(cfg, s, it).calls ==> Inner(c)
  {
    CardInner(cfg, it.card);
    WatchdogInner(cfg, it);
    hide EventLoop.CardCalls, EventLoop.Watchdog;
  }

  lemma CardInner(cfg: Config, card: CardSeen)
    ensures forall c :: c in EventLoop.CardCalls(cfg, card) ==> Inner(c)
  {
    hide ReportOf, ExchangesRaw, Summary;
  }

  lemma WatchdogInner(cfg: Config, it: EventLoop.Iteration)
    ensures forall c :: c in EventLoop.Watchdog(cfg, it) ==> Inner(c)
  {
  }

  lemma {:induction false} LoopInner(cfg: Config, s: EventLoop.LoopState, its: seq<EventLoop.Iteration>)
    ensures forall c :: c in EventLoop.Loop(cfg, s, its).calls ==> Inner(c)
    decreases |its|
  {
    if EventLoop.Goes(cfg, s) && its != [] && !its[0].stop {
      TurnInner(cfg, s, its[0]);
      hide EventLoop.Body;
      if EventLoop.Body(cfg, s, its[0]).Next? {
        LoopInner(cfg, EventLoop.Body(cfg, s, its[0]).s, its[1..]);
      }
    }
  }

  lemma AttemptInner(cfg: Config, a: SingleRead.Attempt)
    ensures forall c :: c in SingleRead.TryOnce(cfg, a).calls ==> Inner(c)
  {
    hide SingleRead.SingleReport;
  }

  lemma {:induction false} RetryInner(cfg: Config, max: byte, attempt: byte, last: Status,
                                      given: seq<SingleRead.Attempt>)
    ensures forall c :: c in SingleRead.RetryFrom(cfg, max, attempt, last, given).calls ==> Inner(c)
    decreases |given|
  {
    if attempt <= max && given != [] {
      AttemptInner(cfg, given[0]);
      hide SingleRead.TryOnce;
      RetryInner(cfg, max, (attempt + 1) % 0x100, SingleRead.TryOnce(cfg, given[0]).status, given[1..]);
    }
  }

  lemma BodyInner(cfg: Config, env: Env)
    ensures forall c :: c in Body(cfg, env).calls ==> Inner(c)
  {
    LoopInner(cfg, EventLoop.START, env.turns);
    RetryInner(cfg, cfg.retryCount, 0, ErrTimeout, env.attempts);
    if env.attempts != [] {
      AttemptInner(cfg, env.attempts[0]);
    }
    hide EventLoop.Loop, SingleRead.RetryFrom, SingleRead.TryOnce;
  }

  // ----- What a read returns ------------------------------------------------

  /** The adapter is opened exactly when all four peripherals come up and one of
      two tries at the SDK does. */
  lemma WhenItOpens(cfg: Config, env: Env)
    ensures Open(true) in Read(cfg, env).calls <==>
            var p := env.platform; p.gpio && p.timer && p.appTimer && p.spi && (p.init || p.initAgain)
    ensures Open(false) in Read(cfg, env).calls <==> Open(true) !in Read(cfg, env).calls
  {
    BodyInner(cfg, env);
    hide Body;
    if Opens(env.platform) && env.configure == OK && env.start == OK {
      assert Read(cfg, env).calls[0] == Open(true);
      assert forall c :: c in Body(cfg, env).calls ==> Inner(c);
    } else {
      assert Read(cfg, env).calls[0] == Open(Opens(env.platform));
    }
  }

  /** The status of a read is the first failure of opening, configuring and
      starting; if there is none, that of the event loop where a card callback is
      set, of the retried attempts where retries are allowed, else of the one
      attempt. Without an event loop the result is that of the attempts. */
  lemma WhatAReadReturns(cfg: Config, env: Env)
    requires Read(cfg, env).Returned?
    ensures var r, up := Read(cfg, env), Open(true) in Read(cfg, env).calls;
            if !up then r.status == ErrInternal && r.report == None
            else if env.configure != OK then r.status == env.configure && r.report == None
            else if env.start != OK then r.status == env.start && r.report == None
            else if cfg.onCardEvent then
              var run := EventLoop.Loop(cfg, EventLoop.START, env.turns);
              run.Ended? && r.status == if run.cause.Faulted? then ErrInternal else OK
            else if cfg.retryCount == 0 then
              && env.attempts != []
              && r.status == SingleRead.TryOnce(cfg, env.attempts[0]).status
              && r.report == SingleRead.TryOnce(cfg, env.attempts[0]).report
            else
              var run := SingleRead.Retry(cfg, cfg.retryCount, env.attempts);
              run.Ended? && r.status == run.status && r.report == run.report
  {
    hide EventLoop.Loop, SingleRead.TryOnce, SingleRead.RetryFrom;
    WhenItOpens(cfg, env);
  }

  // ----- Order of adapter calls -------------------------------------------

  lemma BodyScans(cfg: Config, env: Env)
    ensures !ScanAll(!cfg.onCardEvent, Idle, Body(cfg, env).calls).Wrong?
  {
    EventLoop.LoopScans(cfg, EventLoop.START, env.turns, Idle);
    SingleRead.RetryScans(cfg, cfg.retryCount, 0, ErrTimeout, env.attempts);
    if env.attempts != [] {
      SingleRead.TryOnceScans(cfg, env.attempts[0]);
    }
    hide EventLoop.Loop, SingleRead.RetryFrom, SingleRead.TryOnce;
    assert ScanAll(!cfg.onCardEvent, Idle, []) == Idle;
  }

  lemma ReadScans(cfg: Config, env: Env)
    ensures !ScanAll(!cfg.onCardEvent, Idle, Read(cfg, env).calls).Wrong?
  {
    var l := !cfg.onCardEvent;
    var t := Read(cfg, env).calls;
    if Opens(env.platform) && env.configure == OK && env.start == OK {
      BodyScans(cfg, env);
      hide Body;
      var calls := Body(cfg, env).calls;
      EventLoop.NeutralScan(l, Idle, PREAMBLE);
      ScanConcat(l, Idle, PREAMBLE, calls);
      if Body(cfg, env).Returned? {
        var s := ScanAll(l, Idle, PREAMBLE + calls);
        ScanConcat(l, Idle, PREAMBLE + calls, TEARDOWN);
        SingleRead.ScanSnoc(l, s, [], Deactivate);
        SingleRead.ScanSnoc(l, s, [Deactivate], Close);
        assert [] + [Deactivate] == [Deactivate] && [Deactivate] + [Close] == TEARDOWN;
      }
    } else {
      EventLoop.NeutralScan(l, Idle, t);
    }
  }

  /** Every read, whatever happens in it and whether or not it has returned:
      activations follow a wait that found a card, with a deactivation between
      any two; and one that started discovery returns only through deactivation
      and close. In event mode the wait must have reported a card, or discovery
      done; a single shot also takes a discovery still running for one. */
  lemma ReadIsDisciplined(cfg: Config, env: Env)
    ensures var r := Read(cfg, env);
            && Disciplined(!cfg.onCardEvent, r.calls) && Separated(r.calls)
            && (r.Returned? && Start(true) in r.calls ==> EndsWith(r.calls, TEARDOWN))
  {
    hide Read, Disciplined, Separated, ScanAll, EndsWith;
    ReadScans(cfg, env);
    ScanDisciplined(!cfg.onCardEvent, Read(cfg, env).calls);
    ScanSeparated(!cfg.onCardEvent, Read(cfg, env).calls);
    StartedReadTearsDown(cfg, env);
  }

  ghost predicate AlwaysDisciplined(cfg: Config) {
    forall env :: Disciplined(false, Read(cfg, env).calls)
  }

  /** An attempt that meets a discovery still running. */
  const STILL_RUNNING := SingleRead.Attempt(false, OK, CardWait.Running, false, MUTE_CARD)

  lemma SingleShotTakesRunning(cfg: Config)
    requires !cfg.onCardEvent
    ensures !AlwaysDisciplined(cfg)
  {
    var env := Env(Platform(true, true, true, true, true, true, true), OK, OK, [], [STILL_RUNNING]);
    var w := Wait(cfg.timeoutMs, true, CardWait.Running);
    var tried := SingleRead.TryOnce(cfg, STILL_RUNNING);
    assert tried.status == OK && [w, Activate(true)] <= tried.calls;
    hide SingleRead.TryOnce;
    assert Body(cfg, env) == Returned(OK, tried.report, tried.calls);
    var t := Read(cfg, env).calls;
    assert t == PREAMBLE + tried.calls + TEARDOWN;
    assert t[3] == w && t[4] == Activate(true);
    assert forall i :: 0 <= i < 4 ==> !FindsCard(false, t[i]);
    assert !FoundBefore(false, t, 4);
  }

  /** The order that the event loop keeps, with a wait that reported a card or
      discovery done before each activation, holds in every read of a
      configuration if and only if that is one for event mode. */
  lemma StrictOrderNeedsEventMode(cfg: Config)
    ensures AlwaysDisciplined(cfg) <==> cfg.onCardEvent
  {
    if cfg.onCardEvent {
      forall env ensures Disciplined(false, Read(cfg, env).calls) {
        ReadIsDisciplined(cfg, env);
      }
    } else {
      SingleShotTakesRunning(cfg);
    }
  }

  predicate EndsWith(t: seq<Call>, end: seq<Call>) {
    |end| <= |t| && t[|t| - |end|..] == end
  }

  lemma StartedReadTearsDown(cfg: Config, env: Env)
    ensures var r := Read(cfg, env); r.Returned? && Start(true) in r.calls ==> EndsWith(r.calls, TEARDOWN)
  {
    hide Body, Opens;
    if Opens(env.platform) && env.configure == OK && env.start == OK {
      match Body(cfg, env)
      case Going(calls) =>
      case Returned(_, _, calls) =>
        assert (PREAMBLE + calls + TEARDOWN)[|PREAMBLE + calls|..] == TEARDOWN;
    }
  }

  // ----- Open and close ---------------------------------------------------

  function Openings(t: seq<Call>): nat {
    if t == [] then 0 else Openings(t[..|t| - 1]) + if t[|t| - 1] == Open(true) then 1 else 0
  }

  function Closings(t: seq<Call>): nat {
    if t == [] then 0 else Closings(t[..|t| - 1]) + if t[|t| - 1].Close? then 1 else 0
  }

  /** Openings and closings alternate, and whatever else is asked of the adapter
      is asked while it is open. */
  ghost predicate Balanced(t: seq<Call>) {
    forall k :: 0 <= k < |t| ==>
      var open := Openings(t[..k]) - Closings(t[..k]);
      && 0 <= open <= 1
      && (t[k].Open? ==> open == 0)
      && (!t[k].Open? && !t[k].Event? ==> open == 1)
  }

  function OpenNow(t: seq<Call>): int {
    Openings(t) - Closings(t)
  }

  /** Adding one call keeps the balance if it is in its place. */
  lemma BalancedSnoc(t: seq<Call>, c: Call)
    requires Balanced(t) && 0 <= OpenNow(t) <= 1
    requires c.Open? ==> OpenNow(t) == 0
    requires !c.Open? && !c.Event? ==> OpenNow(t) == 1
    ensures Balanced(t + [c])
    ensures OpenNow(t + [c]) == if c == Open(true) then 1 else if c.Close? then 0 else OpenNow(t)
  {
    var u := t + [c];
    assert u[..|t|] == t;
    forall k | 0 <= k < |u|
      ensures var open := Openings(u[..k]) - Closings(u[..k]);
              && 0 <= open <= 1
              && (u[k].Open? ==> open == 0)
              && (!u[k].Open? && !u[k].Event? ==> open == 1)
    {
      if k < |t| {
        assert u[..k] == t[..k];
      }
    }
  }

  lemma {:induction false} BalancedInner(t: seq<Call>, b: seq<Call>)
    requires Balanced(t) && OpenNow(t) == 1
    requires forall c :: c in b ==> Inner(c)
    ensures Balanced(t + b) && OpenNow(t + b) == 1
    decreases |b|
  {
    hide Balanced, OpenNow;
    if b == [] {
      assert t + b == t;
    } else {
      var n := |b| - 1;
      assert Inner(b[n]);
      BalancedInner(t, b[..n]);
      BalancedSnoc(t + b[..n], b[n]);
      assert t + b == t + b[..n] + [b[n]];
    }
  }

  /** One read, after a balanced history that left the adapter closed. */
  lemma ReadBalanced(before: seq<Call>, cfg: Config, env: Env)
    requires Balanced(before) && OpenNow(before) == 0
    ensures var r := Read(cfg, env);
            Balanced(before + r.calls) && OpenNow(before + r.calls) == if r.Returned? then 0 else 1
  {
    hide Openings, Closings, Balanced, Body, OpenNow;
    var up := before + [Open(true)];
    if !Opens(env.platform) {
      BalancedSnoc(before, Open(false));
    } else if env.configure != OK {
      BalancedSnoc(before, Open(true));
      BalancedSnoc(up, Configure(false));
      BalancedSnoc(up + [Configure(false)], Close);
      assert up + [Configure(false)] + [Close] == before + Read(cfg, env).calls;
    } else if env.start != OK {
      BalancedSnoc(before, Open(true));
      BalancedSnoc(up, Configure(true));
      BalancedSnoc(up + [Configure(true)], Start(false));
      BalancedSnoc(up + [Configure(true)] + [Start(false)], Close);
      assert up + [Configure(true)] + [Start(false)] + [Close] == before + Read(cfg, env).calls;
    } else {
      BalancedSnoc(before, Open(true));
      BalancedSnoc(up, Configure(true));
      BalancedSnoc(up + [Configure(true)], Start(true));
      var ready := up + [Configure(true)] + [Start(true)];
      assert ready == before + PREAMBLE;
      var calls := Body(cfg, env).calls;
      BodyInner(cfg, env);
      BalancedInner(ready, calls);
      assert before + PREAMBLE + calls == before + (PREAMBLE + calls);
      if Body(cfg, env).Returned? {
        BalancedSnoc(ready + calls, Deactivate);
        BalancedSnoc(ready + calls + [Deactivate], Close);
        assert ready + calls + [Deactivate] + [Close] == before + (PREAMBLE + calls + TEARDOWN);
      }
    }
  }

  datatype Job = Job(cfg: Config, env: Env)

  /** All adapter calls of reads made one after the other. */
  function History(jobs: seq<Job>): seq<Call> {
    if jobs == [] then []
    else History(jobs[..|jobs| - 1]) + Read(jobs[|jobs| - 1].cfg, jobs[|jobs| - 1].env).calls
  }

  /** Over any sequence of reads that do not overlap, failing at any stage: every
      successful open gets exactly one close, a failed one none, nothing is asked
      of a closed adapter, and it is closed whenever no read is in flight. */
  lemma {:induction false} OpenCloseBalance(jobs: seq<Job>)
    requires forall i :: 0 <= i < |jobs| - 1 ==> Read(jobs[i].cfg, jobs[i].env).Returned?
    ensures Balanced(History(jobs))
    ensures OpenNow(History(jobs)) ==
            if jobs == [] || Read(jobs[|jobs| - 1].cfg, jobs[|jobs| - 1].env).Returned? then 0 else 1
    decreases |jobs|
  {
    if jobs != [] {
      var n := |jobs| - 1;
      hide Read, Balanced;
      OpenCloseBalance(jobs[..n]);
      ReadBalanced(History(jobs[..n]), jobs[n].cfg, jobs[n].env);
    }
  }
}
