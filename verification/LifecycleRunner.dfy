/**
 * The shared flags as the API calls and the worker's epilogue write them. Each
 * method is one uninterrupted stretch of a task, shown to be one step of
 * `Lifecycle`; a schedule of them is a run.
 */
module LifecycleRunner {
  import opened Bytes
  import opened Status
  import opened ReaderTypes
  import opened Lifecycle
  import EventLoop
  import SingleRead

  class ReaderModule {
    var stopRequested: bool
    var readerActive: bool
    var ctxActive: bool
    var taskHandle: bool
    var ctxCfg: Config

    /** Every read begun, and where it stands; every completion callback made. */
    var readers: seq<Reader>
    var notices: seq<Notice>

    ghost function State(): Sys
      reads this
    {
      Sys(stopRequested, readerActive, ctxActive, taskHandle, ctxCfg, readers, notices)
    }

    constructor (cfg: Config)
      ensures State() == Init(cfg) && Inv(State())
    {
      stopRequested, readerActive, ctxActive, taskHandle := false, false, false, false;
      ctxCfg, readers, notices := cfg, [], [];
    }

    /** rs_nfc_reader_Read up to its return, or up to where it goes on in the
        caller; `check` is what validation says, `createOk` whether there is a task. */
    method Read(cfg: Config, check: Status, createOk: bool) returns (answer: Option<Status>)
      modifies this
      ensures Effect(State(), answer) == Step(old(State()), Action.Read(cfg, check, createOk))
      ensures old(Inv(State()) && Admissible(State(), Action.Read(cfg, check, createOk))) ==> Inv(State())
    {
      hide Inv, Admissible;
      ghost var before := State();
      if check != OK {
        answer := Some(check);
      } else if cfg.callback {
        if ctxActive {
          answer := Some(ErrInternal);
        } else {
          ctxCfg := cfg;
          ctxActive := true;
          stopRequested := false;
          readerActive := true;
          taskHandle := createOk;
          if !taskHandle {
            ctxActive := false;
            readerActive := false;
            answer := Some(ErrInternal);
          } else {
            readers := readers + [NewReader(cfg)];
            answer := Some(OK);
          }
        }
      } else {
        stopRequested := false;
        readerActive := true;
        readers := readers + [NewReader(cfg)];
        answer := None;
      }
      if Inv(before) && Admissible(before, Action.Read(cfg, check, createOk)) {
        InvStep(before, Action.Read(cfg, check, createOk));
      }
    }

    method Stop() returns (answer: Status)
      modifies this`stopRequested
      ensures Effect(State(), Some(answer)) == Step(old(State()), Action.Stop)
      ensures old(Inv(State())) ==> Inv(State())
    {
      hide Inv;
      ghost var before := State();
      if !readerActive {
        answer := ErrDependency;
      } else if stopRequested {
        answer := ErrInternal;
      } else {
        stopRequested := true;
        answer := OK;
      }
      if Inv(before) {
        InvStop(before);
      }
    }

    /** The completion callback, from the shared context. */
    method FireCallback(i: nat)
      requires i < |readers| && readers[i].async && readers[i].pc.Finished?
      modifies this`readers, this`notices
      ensures State() == Step(old(State()), CallBack(i)).sys
      ensures old(Inv(State())) ==> Inv(State())
    {
      hide Inv;
      ghost var before := State();
      var r := readers[i];
      notices := notices + [Notice(i, r.pc.status)];
      readers := readers[i := r.(pc := CalledBack(r.pc.status))];
      if Inv(before) {
        InvStep(before, CallBack(i));
      }
    }

    /** The worker's last writes, or the return from a blocking read. */
    method Retire(i: nat)
      requires i < |readers|
      requires if readers[i].async then readers[i].pc.CalledBack? else readers[i].pc.Finished?
      modifies this
      ensures State() == Step(old(State()), Leave(i)).sys
      ensures old(Inv(State())) ==> Inv(State())
    {
      hide Inv;
      ghost var before := State();
      var r := readers[i];
      if r.async {
        ctxActive := false;
        readerActive := false;
        taskHandle := false;
      } else {
        readerActive := false;
      }
      readers := readers[i := r.(pc := Gone(r.pc.status))];
      if Inv(before) {
        InvStep(before, Leave(i));
      }
    }

    /** The head of the event loop: whether there is a turn to make. */
    method LoopHead(i: nat) returns (go: bool)
      requires i < |readers| && readers[i].pc.AtTop?
      modifies this`readers
      ensures go <==> !stopRequested && EventLoop.Goes(CfgOf(old(State()), i), old(readers[i].pc.s))
      ensures |readers| == old(|readers|) && (readers[i].pc.InTurn? <==> go)
      ensures readers[i].turns == old(readers[i].turns) + if go then 1 else 0
      ensures State() == Step(old(State()), TestStop(i)).sys
      ensures old(Inv(State())) ==> Inv(State())
    {
      hide Inv, EventLoop.Goes, EventLoop.Body;
      ghost var before := State();
      var r := readers[i];
      var cfg := if r.async then ctxCfg else r.given;
      if EventLoop.Goes(cfg, r.pc.s) && !stopRequested {
        readers := readers[i := r.(pc := InTurn(r.pc.s), turns := r.turns + 1)];
        go := true;
      } else {
        readers := readers[i := r.(pc := Closing(OK))];
        go := false;
      }
      if Inv(before) {
        InvStep(before, TestStop(i));
      }
    }

    /** The head of an attempt: whether to wait for a card. */
    method AttemptHead(i: nat) returns (go: bool)
      requires i < |readers| && readers[i].pc.Trying?
      modifies this`readers
      ensures go <==> !stopRequested
      ensures |readers| == old(|readers|) && (readers[i].pc.Awaiting? <==> go)
      ensures readers[i].turns == old(readers[i].turns) + if go then 1 else 0
      ensures State() == Step(old(State()), TestAttempt(i)).sys
      ensures old(Inv(State())) ==> Inv(State())
    {
      hide Inv, SingleRead.TryOnce;
      ghost var before := State();
      var r := readers[i];
      if stopRequested {
        readers := readers[i := r.(pc := Closing(OK))];
        go := false;
      } else {
        readers := readers[i := r.(pc := Awaiting(r.pc.attempt), turns := r.turns + 1)];
        go := true;
      }
      if Inv(before) {
        InvStep(before, TestAttempt(i));
      }
    }

    /** How the read's turns, attempts and stages otherwise lead on. */
    method MoveOn(a: Action)
      requires !a.Read? && !a.Stop? && !a.TestStop? && !a.TestAttempt? && a.i < |readers|
      requires !CallsBack(readers[a.i], a) && !Leaves(readers[a.i], a)
      modifies this`readers
      ensures State() == Step(old(State()), a).sys
    {
      hide EventLoop.Goes, EventLoop.Body, SingleRead.TryOnce;
      var r := readers[a.i];
      var cfg := if r.async then ctxCfg else r.given;
      match a {
        case StartUp(_, result) =>
          if r.pc.Starting? {
            r := r.(startUp := Some(result));
            if result != OK {
              r := r.(pc := Finished(result));
            } else if cfg.onCardEvent {
              r := r.(pc := AtTop(EventLoop.START));
            } else {
              r := r.(pc := Trying(0));
            }
          }
        case Turn(_, it) =>
          if r.pc.InTurn? && EventLoop.Goes(cfg, r.pc.s) {
            match EventLoop.Body(cfg, r.pc.s, it) {
              case Fault(_) => r := r.(pc := Closing(ErrInternal), failure := Some(ErrInternal));
              case Next(s, _) => r := r.(pc := AtTop(s));
            }
          }
        case WaitDone(_, met) =>
          if r.pc.Awaiting? {
            r := r.(pc := Reading(r.pc.attempt, met.(stopBefore := false, stopAfter := stopRequested)));
          }
        case AttemptDone(_) =>
          if r.pc.Reading? {
            var st := SingleRead.TryOnce(cfg, r.pc.met).status;
            var next: byte := (r.pc.attempt + 1) % 0x100;
            if st == OK {
              r := r.(pc := Closing(OK));
            } else if next <= cfg.retryCount {
              r := r.(pc := Trying(next));
            } else {
              r := r.(pc := Closing(st), failure := Some(st));
            }
          }
        case TearDown(_) =>
          if r.pc.Closing? {
            r := r.(pc := Finished(r.pc.status));
          }
        case _ =>
      }
      readers := readers[a.i := r];
    }

    /** What read `i` does next, where that is in order; anything else is skipped. */
    method Proceed(a: Action)
      requires !a.Read? && !a.Stop?
      modifies this
      ensures State() == Step(old(State()), a).sys
      ensures old(Inv(State())) ==> Inv(State())
    {
      hide Inv, Progress;
      ghost var before := State();
      if a.i < |readers| {
        var r := readers[a.i];
        if CallsBack(r, a) {
          FireCallback(a.i);
        } else if Leaves(r, a) {
          Retire(a.i);
        } else if a.TestStop? {
          if r.pc.AtTop? {
            var _ := LoopHead(a.i);
          } else {
            NotAtTest(before, a);
          }
        } else if a.TestAttempt? {
          if r.pc.Trying? {
            var _ := AttemptHead(a.i);
          } else {
            NotAtTest(before, a);
          }
        } else {
          MoveOn(a);
        }
      }
      if Inv(before) {
        InvStep(before, a);
      }
    }

    /** Any interleaving of calls and steps, one after another. */
    method RunSchedule(schedule: seq<Action>)
      modifies this
      ensures State() == Run(old(State()), schedule)
      ensures old(Inv(State()) && AdmissibleRun(State(), schedule)) ==> Inv(State())
    {
      hide Inv, Step, Admissible;
      ghost var before := State();
      var k := 0;
      while k < |schedule|
        invariant 0 <= k <= |schedule|
        invariant Run(before, schedule) == Run(State(), schedule[k..])
      {
        var a := schedule[k];
        assert schedule[k..][1..] == schedule[k + 1..];
        match a {
          case Read(cfg, check, createOk) => var _ := Read(cfg, check, createOk);
          case Stop => var _ := Stop();
          case _ => Proceed(a);
        }
        k := k + 1;
      }
      if Inv(before) && AdmissibleRun(before, schedule) {
        InvRunFrom(before, schedule);
      }
    }
  }

  lemma NotAtTest(s: Sys, a: Action)
    requires (a.TestStop? || a.TestAttempt?) && a.i < |s.readers|
    requires if a.TestStop? then !s.readers[a.i].pc.AtTop? else !s.readers[a.i].pc.Trying?
    ensures Step(s, a).sys == s
  {
    assert s.readers[a.i := s.readers[a.i]] == s.readers;
  }
}
