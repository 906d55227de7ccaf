/**
 * Read, Stop and the worker task as interleaved steps over the module's shared
 * flags.
 *
 * Tasks have equal priority and no time slicing, so the worker's last writes
 * are one step, and so is each API call; the stop flag may change between the
 * loop's test of it and the turn that follows.
 */
module Lifecycle {
  import opened Bytes
  import opened Status
  import opened ReaderTypes
  import EventLoop
  import SingleRead

  // ----- State ------------------------------------------------------------

  /** Where a read stands. In event mode the loop tests the flag `AtTop` and works
      `InTurn`. Otherwise there are attempts: one is `Trying` when it tests the
      flag, `Awaiting` a card, and `Reading` once that wait is over; `met` is what
      it has met, the flag after the wait included. */
  datatype Pc =
    | Starting
    | AtTop(s: EventLoop.LoopState)
    | InTurn(s: EventLoop.LoopState)
    | Trying(attempt: byte)
    | Awaiting(attempt: byte)
    | Reading(attempt: byte, met: SingleRead.Attempt)
    | Closing(status: Status)
    | Finished(status: Status)
    | CalledBack(status: Status)
    | Gone(status: Status)

  /** A read under way: in a worker task or in its caller. `given` is the
      configuration it was accepted with; a worker works from the shared copy.
      `startUp` is what bringing up the adapter came to, once it has, `turns` counts
      turns of the loop or attempts begun past the flag, and `failure` is what
      ended them, if not RS_OK. */
  datatype Reader = Reader(async: bool, given: Config, pc: Pc, startUp: Option<Status>, turns: nat,
                           failure: Option<Status>)

  datatype Notice = Notice(reader: nat, status: Status)

  /** The flags g_stop_requested, g_reader_active, g_async_ctx.active and the task
      handle, the copied configuration, and the reads and callbacks so far. */
  datatype Sys = Sys(stop: bool, active: bool, ctxActive: bool, handle: bool, ctxCfg: Config,
                     readers: seq<Reader>, notices: seq<Notice>)

  // ----- Steps ------------------------------------------------------------

  datatype Action =
    | Read(cfg: Config, check: Status, createOk: bool)
    | Stop
    | StartUp(i: nat, result: Status)
    | TestStop(i: nat)
    | Turn(i: nat, it: EventLoop.Iteration)
    | TestAttempt(i: nat)
    | WaitDone(i: nat, met: SingleRead.Attempt)
    | AttemptDone(i: nat)
    | TearDown(i: nat)
    | CallBack(i: nat)
    | Leave(i: nat)

  /** The new state, and what an API call answers at once. */
  datatype Effect = Effect(sys: Sys, answer: Option<Status>)

  function Unchanged(s: Sys): Effect { Effect(s, None) }

  function SetReader(s: Sys, i: nat, r: Reader): Sys
    requires i < |s.readers|
  {
    s.(readers := s.readers[i := r])
  }

  function SetPc(s: Sys, i: nat, pc: Pc): Sys
    requires i < |s.readers|
  {
    SetReader(s, i, s.readers[i].(pc := pc))
  }

  /** The configuration that read `i` goes by. */
  function CfgOf(s: Sys, i: nat): Config
    requires i < |s.readers|
  {
    if s.readers[i].async then s.ctxCfg else s.readers[i].given
  }

  function NewReader(cfg: Config): Reader {
    Reader(cfg.callback, cfg, Starting, None, 0, None)
  }

  function ReadEffect(s: Sys, cfg: Config, check: Status, createOk: bool): Effect {
    if check != OK then Effect(s, Some(check))
    else if !cfg.callback then
      Effect(s.(stop := false, active := true, readers := s.readers + [NewReader(cfg)]), None)
    else if s.ctxActive then Effect(s, Some(ErrInternal))
    else if !createOk then
      Effect(s.(ctxCfg := cfg, stop := false, active := false, ctxActive := false, handle := false), Some(ErrInternal))
    else
      Effect(s.(ctxCfg := cfg, stop := false, active := true, ctxActive := true, handle := true,
                readers := s.readers + [NewReader(cfg)]), Some(OK))
  }

  function StopEffect(s: Sys): Effect {
    if !s.active then Effect(s, Some(ErrDependency))
    else if s.stop then Effect(s, Some(ErrInternal))
    else Effect(s.(stop := true), Some(OK))
  }

  /** How a read moves on, by itself; a step that is not its next changes nothing. */
  function Progress(r: Reader, cfg: Config, stop: bool, a: Action): Reader {
    match (a, r.pc)
    case (StartUp(_, result), Starting) =>
      r.(startUp := Some(result),
         pc := if result != OK then Finished(result) else if cfg.onCardEvent then AtTop(EventLoop.START) else Trying(0))
    case (TestStop(_), AtTop(l)) =>
      if !EventLoop.Goes(cfg, l) || stop then r.(pc := Closing(OK)) else r.(pc := InTurn(l), turns := r.turns + 1)
    case (Turn(_, it), InTurn(l)) =>
      if !EventLoop.Goes(cfg, l) then r
      else
        var t := EventLoop.Body(cfg, l, it);
        if t.Fault? then r.(pc := Closing(ErrInternal), failure := Some(ErrInternal)) else r.(pc := AtTop(t.s))
    case (TestAttempt(_), Trying(k)) =>
      if stop then r.(pc := Closing(OK)) else r.(pc := Awaiting(k), turns := r.turns + 1)
    case (WaitDone(_, met), Awaiting(k)) => r.(pc := Reading(k, met.(stopBefore := false, stopAfter := stop)))
    case (AttemptDone(_), Reading(k, met)) =>
      var st, next := SingleRead.TryOnce(cfg, met).status, (k + 1) % 0x100;
      if st == OK then r.(pc := Closing(OK))
      else if next > cfg.retryCount then r.(pc := Closing(st), failure := Some(st))
      else r.(pc := Trying(next))
    case (TearDown(_), Closing(st)) => r.(pc := Finished(st))
    case _ => r
  }

  predicate CallsBack(r: Reader, a: Action) { a.CallBack? && r.async && r.pc.Finished? }

  predicate Leaves(r: Reader, a: Action) {
    a.Leave? && if r.async then r.pc.CalledBack? else r.pc.Finished?
  }

  /** A step of read `i`. */
  function ReaderEffect(s: Sys, a: Action): Sys
    requires !a.Read? && !a.Stop? && a.i < |s.readers|
  {
    var r := s.readers[a.i];
    if CallsBack(r, a) then
      SetPc(s, a.i, CalledBack(r.pc.status)).(notices := s.notices + [Notice(a.i, r.pc.status)])
    else if Leaves(r, a) then
      var t := SetPc(s, a.i, Gone(r.pc.status)).(active := false);
      if r.async then t.(ctxActive := false, handle := false) else t
    else SetReader(s, a.i, Progress(r, CfgOf(s, a.i), s.stop, a))
  }

  function Step(s: Sys, a: Action): Effect {
    match a
    case Read(cfg, check, createOk) => ReadEffect(s, cfg, check, createOk)
    case Stop => StopEffect(s)
    case _ => if a.i < |s.readers| then Unchanged(ReaderEffect(s, a)) else Unchanged(s)
  }

  function Init(cfg: Config): Sys {
    Sys(false, false, false, false, cfg, [], [])
  }

  function Run(s: Sys, actions: seq<Action>): Sys
    decreases |actions|
  {
    if actions == [] then s else Run(Step(s, actions[0]).sys, actions[1..])
  }

  // ----- Which runs -------------------------------------------------------

  predicate Live(r: Reader) { !r.pc.Gone? }

  ghost predicate Busy(s: Sys) { exists r :: r in s.readers && Live(r) }

  /** Nothing guards a blocking read against another read, or another against
      it; where there are any, the application must keep them apart. */
  ghost predicate Admissible(s: Sys, a: Action) {
    a.Read? && a.check == OK ==>
      if a.cfg.callback then forall r :: r in s.readers && Live(r) ==> r.async
      else !Busy(s)
  }

  ghost predicate AdmissibleRun(s: Sys, actions: seq<Action>)
    decreases |actions|
  {
    actions == [] || (Admissible(s, actions[0]) && AdmissibleRun(Step(s, actions[0]).sys, actions[1..]))
  }

  // ----- Invariant --------------------------------------------------------

  function Last(s: Sys): Reader
    requires s.readers != []
  {
    s.readers[|s.readers| - 1]
  }

  /** The read's outcome is settled. */
  predicate Settled(pc: Pc) { pc.Closing? || pc.Finished? || pc.CalledBack? || pc.Gone? }

  /** What a read comes to: the failure of its start-up, the failure that ended it
      later, or RS_OK where there was none. */
  function Outcome(r: Reader): Status {
    if r.startUp.Some? && r.startUp.value != OK then r.startUp.value else r.failure.GetOr(OK)
  }

  /** A read has tried to start up unless it is still to start; a failure then or
      later has settled its outcome. */
  predicate Coherent(r: Reader) {
    && (r.pc.Starting? <==> r.startUp.None?)
    && (r.startUp.Some? && r.startUp.value != OK ==> Settled(r.pc))
    && (r.failure.Some? ==> Settled(r.pc) && r.failure.value != OK)
    && (Settled(r.pc) ==> r.pc.status == Outcome(r))
  }

  predicate Told(r: Reader) { r.async && (r.pc.CalledBack? || r.pc.Gone?) }

  /** A callback was made for a read that had ended, with the status it ended with. */
  predicate Truthful(n: Notice, rs: seq<Reader>) {
    n.reader < |rs| && Told(rs[n.reader]) && n.status == Outcome(rs[n.reader]) == rs[n.reader].pc.status
  }

  function NoticesFor(ns: seq<Notice>, i: nat): nat {
    if ns == [] then 0 else NoticesFor(ns[..|ns| - 1], i) + if ns[|ns| - 1].reader == i then 1 else 0
  }

  /** Only the newest read can be alive; the flags say whether one is, the copied
      configuration is the one it was accepted with, and every accepted read has
      been called back about once if it is past that point and not before. */
  ghost predicate Inv(s: Sys) {
    && (forall i :: 0 <= i < |s.readers| - 1 ==> !Live(s.readers[i]))
    && s.active == (s.readers != [] && Live(Last(s)))
    && s.ctxActive == s.handle == (s.active && Last(s).async)
    && (s.ctxActive ==> s.ctxCfg == Last(s).given)
    && (forall i :: 0 <= i < |s.readers| ==> s.readers[i].async == s.readers[i].given.callback)
    && (forall i :: 0 <= i < |s.readers| && s.readers[i].pc.CalledBack? ==> s.readers[i].async)
    && (forall i :: 0 <= i < |s.readers| ==> NoticesFor(s.notices, i) == if Told(s.readers[i]) then 1 else 0)
    && (forall n :: n in s.notices ==> Truthful(n, s.readers))
    && (forall i :: 0 <= i < |s.readers| ==> Coherent(s.readers[i]))
  }

  lemma {:induction false} NoNotices(ns: seq<Notice>, i: nat)
    requires forall n :: n in ns ==> n.reader < i
    ensures NoticesFor(ns, i) == 0
    decreases |ns|
  {
    if ns != [] {
      assert ns[|ns| - 1] in ns;
      NoNotices(ns[..|ns| - 1], i);
    }
  }

  lemma NoticesSnoc(ns: seq<Notice>, n: Notice, i: nat)
    ensures NoticesFor(ns + [n], i) == NoticesFor(ns, i) + if n.reader == i then 1 else 0
  {
    assert (ns + [n])[..|ns|] == ns;
  }

  lemma InvAccept(s: Sys, t: Sys, cfg: Config)
    requires Inv(s) && !s.active
    requires t == s.(stop := false, active := true, ctxActive := cfg.callback, handle := cfg.callback,
                     ctxCfg := if cfg.callback then cfg else s.ctxCfg, readers := s.readers + [NewReader(cfg)])
    ensures Inv(t)
  {
    NoNotices(s.notices, |s.readers|);
    assert forall i :: 0 <= i < |s.readers| ==> t.readers[i] == s.readers[i];
    assert Last(t) == NewReader(cfg);
  }

  lemma InvRead(s: Sys, cfg: Config, check: Status, createOk: bool)
    requires Inv(s) && Admissible(s, Read(cfg, check, createOk))
    ensures Inv(ReadEffect(s, cfg, check, createOk).sys)
  {
    if check == OK {
      assert s.active ==> Last(s) in s.readers && Live(Last(s));
      if !s.active && (!cfg.callback || createOk) {
        InvAccept(s, ReadEffect(s, cfg, check, createOk).sys, cfg);
      }
    }
  }

  /** `r` went on to `t` short of calling back or leaving. */
  predicate WentOn(r: Reader, t: Reader) {
    && t.async == r.async && t.given == r.given && Coherent(t)
    && Live(t) && !t.pc.CalledBack?
  }

  /** A step of the live reader that neither calls back nor leaves. */
  lemma InvMove(s: Sys, i: nat, r: Reader)
    requires Inv(s) && i < |s.readers| && Live(s.readers[i]) && !s.readers[i].pc.CalledBack?
    requires WentOn(s.readers[i], r)
    ensures Inv(SetReader(s, i, r))
  {
    var t := SetReader(s, i, r);
    assert i == |s.readers| - 1;
    assert forall j :: 0 <= j < |s.readers| && j != i ==> t.readers[j] == s.readers[j];
    assert forall j :: 0 <= j < |s.readers| ==> Told(t.readers[j]) == Told(s.readers[j]);
  }

  lemma InvCallBack(s: Sys, i: nat, st: Status)
    requires Inv(s) && i < |s.readers| && s.readers[i].async && s.readers[i].pc == Finished(st)
    ensures Inv(SetPc(s, i, CalledBack(st)).(notices := s.notices + [Notice(i, st)]))
  {
    var t := SetPc(s, i, CalledBack(st)).(notices := s.notices + [Notice(i, st)]);
    assert i == |s.readers| - 1;
    forall j | 0 <= j < |t.readers|
      ensures NoticesFor(t.notices, j) == if Told(t.readers[j]) then 1 else 0
    {
      NoticesSnoc(s.notices, Notice(i, st), j);
    }
  }

  lemma InvLeave(s: Sys, i: nat, st: Status)
    requires Inv(s) && i < |s.readers|
    requires s.readers[i].pc == if s.readers[i].async then CalledBack(st) else Finished(st)
    ensures Inv(SetPc(s, i, Gone(st)).(ctxActive := false, active := false, handle := false))
    ensures !s.readers[i].async ==> !s.ctxActive && !s.handle
  {
    var t := SetPc(s, i, Gone(st)).(ctxActive := false, active := false, handle := false);
    assert i == |s.readers| - 1;
    assert forall j :: 0 <= j < |t.readers| && j != i ==> t.readers[j] == s.readers[j];
    assert Told(t.readers[i]) == Told(s.readers[i]) && Outcome(t.readers[i]) == Outcome(s.readers[i]) == st;
    hide Outcome, Told;
  }

  lemma ProgressWentOn(r: Reader, cfg: Config, stop: bool, a: Action)
    requires Coherent(r) && Progress(r, cfg, stop, a) != r
    ensures Live(r) && !r.pc.CalledBack? && WentOn(r, Progress(r, cfg, stop, a))
  {
    hide EventLoop.Body, EventLoop.Goes, SingleRead.TryOnce;
  }

  lemma InvReader(s: Sys, a: Action)
    requires Inv(s) && !a.Read? && !a.Stop? && a.i < |s.readers|
    ensures Inv(ReaderEffect(s, a))
  {
    hide Progress;
    var r := s.readers[a.i];
    if CallsBack(r, a) {
      InvCallBack(s, a.i, r.pc.status);
    } else if Leaves(r, a) {
      InvLeave(s, a.i, r.pc.status);
    } else if Progress(r, CfgOf(s, a.i), s.stop, a) == r {
      assert s.readers[a.i := r] == s.readers;
    } else {
      ProgressWentOn(r, CfgOf(s, a.i), s.stop, a);
      InvMove(s, a.i, Progress(r, CfgOf(s, a.i), s.stop, a));
    }
  }

  lemma InvStep(s: Sys, a: Action)
    requires Inv(s) && Admissible(s, a)
    ensures Inv(Step(s, a).sys)
  {
    hide Inv, ReaderEffect, ReadEffect;
    match a
    case Read(cfg, check, createOk) => InvRead(s, cfg, check, createOk);
    case Stop => InvStop(s);
    case _ => if a.i < |s.readers| { InvReader(s, a); }
  }

  lemma InvStop(s: Sys)
    requires Inv(s)
    ensures Inv(StopEffect(s).sys)
  {
  }

  lemma {:induction false} InvRunFrom(s: Sys, actions: seq<Action>)
    requires Inv(s) && AdmissibleRun(s, actions)
    ensures Inv(Run(s, actions))
    decreases |actions|
  {
    hide Inv, Step, Admissible;
    if actions != [] {
      InvStep(s, actions[0]);
      InvRunFrom(Step(s, actions[0]).sys, actions[1..]);
    }
  }

  lemma InvRun(cfg: Config, actions: seq<Action>)
    requires AdmissibleRun(Init(cfg), actions)
    ensures Inv(Run(Init(cfg), actions))
  {
    InvRunFrom(Init(cfg), actions);
  }

  // ----- Conservation -----------------------------------------------------

  /** Accepted non-blocking reads, and those of them not yet called back. */
  function Accepted(rs: seq<Reader>): nat {
    if rs == [] then 0 else Accepted(rs[..|rs| - 1]) + if rs[|rs| - 1].async then 1 else 0
  }

  function Pending(rs: seq<Reader>): nat {
    if rs == [] then 0
    else Pending(rs[..|rs| - 1]) + if rs[|rs| - 1].async && !Told(rs[|rs| - 1]) then 1 else 0
  }

  /** Notices for the first `n` reads. */
  function NoticesBelow(ns: seq<Notice>, n: nat): nat {
    if n == 0 then 0 else NoticesBelow(ns, n - 1) + NoticesFor(ns, n - 1)
  }

  lemma {:induction false} NoticesBelowSnoc(ns: seq<Notice>, x: Notice, n: nat)
    ensures NoticesBelow(ns + [x], n) == NoticesBelow(ns, n) + if x.reader < n then 1 else 0
  {
    if n > 0 {
      NoticesBelowSnoc(ns, x, n - 1);
      NoticesSnoc(ns, x, n - 1);
    }
  }

  lemma {:induction false} AllNotices(ns: seq<Notice>, n: nat)
    requires forall x :: x in ns ==> x.reader < n
    ensures NoticesBelow(ns, n) == |ns|
    decreases |ns|
  {
    if ns == [] {
      NoNoticesBelow(n);
    } else {
      var front, x := ns[..|ns| - 1], ns[|ns| - 1];
      AllNotices(front, n);
      assert front + [x] == ns;
      NoticesBelowSnoc(front, x, n);
    }
  }

  lemma {:induction false} NoNoticesBelow(n: nat)
    ensures NoticesBelow([], n) == 0
  {
    if n > 0 {
      NoNoticesBelow(n - 1);
    }
  }

  lemma {:induction false} CountTold(rs: seq<Reader>, ns: seq<Notice>)
    requires forall i :: 0 <= i < |rs| ==> NoticesFor(ns, i) == if Told(rs[i]) then 1 else 0
    ensures Accepted(rs) == NoticesBelow(ns, |rs|) + Pending(rs)
    decreases |rs|
  {
    if rs != [] {
      CountTold(rs[..|rs| - 1], ns);
    }
  }

  lemma {:induction false} PendingSettled(rs: seq<Reader>)
    requires forall i :: 0 <= i < |rs| ==> !Live(rs[i])
    ensures Pending(rs) == 0
    decreases |rs|
  {
    if rs != [] {
      PendingSettled(rs[..|rs| - 1]);
    }
  }

  lemma ConservationOf(s: Sys)
    requires Inv(s)
    ensures Accepted(s.readers) == |s.notices| + Pending(s.readers)
    ensures Pending(s.readers) <= (if s.active then 1 else 0)
    ensures forall i, j :: 0 <= i < j < |s.readers| ==> !(Live(s.readers[i]) && Live(s.readers[j]))
  {
    CountTold(s.readers, s.notices);
    AllNotices(s.notices, |s.readers|);
    if s.readers != [] {
      PendingSettled(s.readers[..|s.readers| - 1]);
    }
  }

  /** Over every interleaving of Read, Stop and worker steps in which blocking
      reads are kept apart: each accepted non-blocking read has called back once,
      with the status it ended with, or has still to, at most one read is alive, and the worker's configuration
      is the one its read was accepted with. */
  lemma Conservation(cfg: Config, actions: seq<Action>)
    requires AdmissibleRun(Init(cfg), actions)
    ensures var s := Run(Init(cfg), actions);
            && Accepted(s.readers) == |s.notices| + Pending(s.readers)
            && Pending(s.readers) <= 1
            && (forall n :: n in s.notices ==> Truthful(n, s.readers))
            && (forall i, j :: 0 <= i < j < |s.readers| ==> !(Live(s.readers[i]) && Live(s.readers[j])))
            && (forall i :: 0 <= i < |s.readers| && Live(s.readers[i]) && s.readers[i].async ==>
                  CfgOf(s, i) == s.readers[i].given)
  {
    hide Run;
    InvRun(cfg, actions);
    var s := Run(Init(cfg), actions);
    ConservationOf(s);
    assert forall i :: 0 <= i < |s.readers| && Live(s.readers[i]) ==> s.readers[i] == Last(s);
  }

  predicate NonBlocking(a: Action) {
    a.Read? ==> a.cfg.callback
  }

  lemma AllAsyncStep(s: Sys, a: Action)
    requires (forall r :: r in s.readers ==> r.async) && NonBlocking(a)
    ensures Admissible(s, a) && forall r :: r in Step(s, a).sys.readers ==> r.async
  {
    hide Progress;
    if !a.Read? && !a.Stop? && a.i < |s.readers| {
      ProgressAsync(s.readers[a.i], CfgOf(s, a.i), s.stop, a);
    }
  }

  lemma ProgressAsync(r: Reader, cfg: Config, stop: bool, a: Action)
    ensures Progress(r, cfg, stop, a).async == r.async
  {
    hide EventLoop.Body, EventLoop.Goes, SingleRead.TryOnce;
  }

  lemma {:induction false} NonBlockingFrom(s: Sys, actions: seq<Action>)
    requires forall r :: r in s.readers ==> r.async
    requires forall a :: a in actions ==> NonBlocking(a)
    ensures AdmissibleRun(s, actions)
    decreases |actions|
  {
    hide Step, Admissible;
    if actions != [] {
      AllAsyncStep(s, actions[0]);
      NonBlockingFrom(Step(s, actions[0]).sys, actions[1..]);
    }
  }

  /** Non-blocking reads keep themselves apart: with no other, every interleaving
      is one of those that these theorems are about. */
  lemma NonBlockingIsAdmissible(cfg: Config, actions: seq<Action>)
    requires forall a :: a in actions ==> NonBlocking(a)
    ensures AdmissibleRun(Init(cfg), actions)
  {
    NonBlockingFrom(Init(cfg), actions);
  }

  /** A non-blocking Read that passes its checks, whatever it asks for, has no
      effect at all while a worker is alive; otherwise it is accepted, with its
      configuration copied, or there is no task for it and the module is free as
      before. One that fails a check is answered with that. */
  lemma RefusedRead(s: Sys, cfg: Config, check: Status, createOk: bool)
    requires Inv(s) && cfg.callback
    ensures var e := Step(s, Read(cfg, check, createOk));
            var working := exists r :: r in s.readers && Live(r) && r.async;
            if check != OK then e.sys == s && e.answer == Some(check)
            else
              && (e.answer == Some(ErrInternal) <==> working || !createOk)
              && (e.answer == Some(OK) <==> !working && createOk)
              && (working ==> e.sys == s)
              && (!working && createOk ==>
                    && e.sys.readers == s.readers + [Reader(true, cfg, Starting, None, 0, None)]
                    && e.sys.ctxCfg == cfg && !e.sys.stop)
              && (!working && !createOk ==> e.sys.readers == s.readers && !e.sys.active && !e.sys.ctxActive)
  {
    if s.ctxActive {
      assert Last(s) in s.readers && Live(Last(s)) && Last(s).async;
    }
  }
}
