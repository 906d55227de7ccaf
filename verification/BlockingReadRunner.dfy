/** The blocking read as the program runs it, proved against `BlockingRead.Read`. */
module BlockingReadRunner {
  import opened Bytes
  import opened Status
  import opened CardResult
  import opened CardInfoReader
  import opened CardSummary
  import opened ReaderTypes
  import opened EventLoopRunner
  import EventLoop
  import SingleRead
  import BlockingRead
  import CardWait

  /** rs_nfc_ptx_open: the flag is set on success only. */
  method OpenAdapter(p: BlockingRead.Platform, adapter: Adapter) returns (st: Status)
    modifies adapter
    ensures st == if BlockingRead.Opens(p) then OK else ErrInternal
    ensures adapter.isOpen == (old(adapter.isOpen) || BlockingRead.Opens(p))
    ensures adapter.trace == old(adapter.trace) + [Open(BlockingRead.Opens(p))]
  {
    adapter.Log(Open(BlockingRead.Opens(p)));
    if !p.gpio { return ErrInternal; }
    if !p.timer { return ErrInternal; }
    if !p.appTimer { return ErrInternal; }
    if !p.spi { return ErrInternal; }
    var up := p.init;
    if !up {
      up := p.initAgain;
    }
    if !up { return ErrInternal; }
    adapter.isOpen := true;
    return OK;
  }

  /** rs_nfc_ptx_close: closed even if the SDK does not shut down, which only the
      status tells. */
  method CloseAdapter(p: BlockingRead.Platform, adapter: Adapter) returns (st: Status)
    modifies adapter
    ensures !adapter.isOpen && adapter.trace == old(adapter.trace) + [Close]
    ensures st == if p.deinit then OK else ErrInternal
  {
    adapter.Log(Close);
    adapter.isOpen := false;
    st := if p.deinit then OK else ErrInternal;
  }

  /** rs_nfc_reader_detect_wait */
  method DetectWait(ms: uint32, a: SingleRead.Attempt, adapter: Adapter) returns (st: Status, disc: Disc)
    modifies adapter`trace
    ensures var d := SingleRead.DetectWait(ms, a);
            st == d.status && disc == d.disc && adapter.trace == old(adapter.trace) + d.calls
  {
    disc := CardWait.NoCard;
    if a.stopBefore {
      return OK, disc;
    }
    adapter.Log(Wait(ms, a.waitStatus == OK, a.disc));
    if a.waitStatus != OK {
      return a.waitStatus, disc;
    }
    if a.disc != CardWait.NoCard {
      return OK, a.disc;
    }
    return if a.stopAfter then OK else ErrTimeout, disc;
  }

  /** rs_nfc_reader_try_once: fills the result only for an activated card. */
  method TryOnce(cfg: Config, a: SingleRead.Attempt, res: Result, adapter: Adapter) returns (st: Status)
    requires res.Valid() && res.Value() == NO_REPORT
    modifies res.Footprint(), adapter`trace
    ensures var t := SingleRead.TryOnce(cfg, a);
            && res.Valid() && st == t.status && adapter.trace == old(adapter.trace) + t.calls
            && res.Value() == t.report.GetOr(NO_REPORT)
  {
    hide InfoOf;
    var disc;
    st, disc := DetectWait(cfg.timeoutMs, a, adapter);
    if st != OK {
      return;
    }
    if a.stopBefore || a.stopAfter || disc == CardWait.NoCard {
      return;
    }
    st := a.card.activation.status;
    adapter.Log(Activate(st == OK));
    if st != OK {
      return;
    }
    FillBasics(a.card.activation, res);
    if cfg.readNdef {
      adapter.Log(ReadCard);
      var _ := ReadCardInfo(res.protocol, a.card.env, res, cfg.maxNdefBytes);
    }
  }

  /** rs_nfc_reader_retry while the given attempts last. */
  method Retry(cfg: Config, max: byte, given: seq<SingleRead.Attempt>, res: Result, adapter: Adapter)
    returns (done: bool, st: Status)
    requires res.Valid() && res.Value() == NO_REPORT
    modifies res.Footprint(), adapter`trace
    ensures res.Valid()
    ensures match SingleRead.Retry(cfg, max, given)
            case Ended(rst, _, report, calls) =>
              && done && st == rst && adapter.trace == old(adapter.trace) + calls
              && res.Value() == report.GetOr(NO_REPORT)
            case Ongoing(_, calls) => !done && adapter.trace == old(adapter.trace) + calls
  {
    hide SingleRead.TryOnce, SingleRead.RetryFrom, Resumes, Result.Valid, Result.Value;
    done, st := true, ErrTimeout;
    var attempt: byte := 0;
    ghost var whole := SingleRead.Retry(cfg, max, given);
    ghost var made := [];
    var i: nat := 0;
    assert given[0..] == given;
    ResumesStart(whole);
    while attempt <= max
      invariant i <= |given| && res.Valid() && res.Value() == NO_REPORT
      invariant adapter.trace == old(adapter.trace) + made
      invariant Resumes(whole, made, SingleRead.RetryFrom(cfg, max, attempt, st, given[i..]))
      decreases |given| - i
    {
      if i == |given| {
        ResumesEnd(cfg, max, attempt, st, given, i, whole, made);
        return false, st;
      }
      ResumesAttempt(cfg, max, attempt, st, given, i, whole, made);
      ghost var t := SingleRead.TryOnce(cfg, given[i]);
      st := TryOnce(cfg, given[i], res, adapter);
      if st == OK {
        return;
      }
      adapter.Log(Deactivate);
      made := made + (t.calls + [Deactivate]);
      attempt := (attempt + 1) % 0x100;
      i := i + 1;
    }
    ResumesEnd(cfg, max, attempt, st, given, i, whole, made);
  }

  /** `rest` is what is left of the retried read `whole` after `done` calls. */
  ghost predicate Resumes(whole: SingleRead.RetryRun, done: seq<Call>, rest: SingleRead.RetryRun) {
    && whole.calls == done + rest.calls
    && whole.Ended? == rest.Ended?
    && (whole.Ended? ==> whole.status == rest.status && whole.report == rest.report)
  }

  lemma ResumesStart(whole: SingleRead.RetryRun)
    ensures Resumes(whole, [], whole)
  {
    assert [] + whole.calls == whole.calls;
  }

  lemma ResumesEnd(cfg: Config, max: byte, attempt: byte, last: Status, given: seq<SingleRead.Attempt>, i: nat,
                   whole: SingleRead.RetryRun, done: seq<Call>)
    requires i <= |given| && (attempt > max || i == |given|)
    requires Resumes(whole, done, SingleRead.RetryFrom(cfg, max, attempt, last, given[i..]))
    ensures whole.calls == done && whole.Ended? == (attempt > max)
    ensures whole.Ended? ==> whole.status == last && whole.report == None
  {
    SingleRead.RetryAtEnd(cfg, max, attempt, last, given[i..]);
    hide SingleRead.RetryFrom;
    assert done + [] == done;
  }

  lemma ResumesAttempt(cfg: Config, max: byte, attempt: byte, last: Status, given: seq<SingleRead.Attempt>, i: nat,
                       whole: SingleRead.RetryRun, done: seq<Call>)
    requires i < |given| && attempt <= max
    requires Resumes(whole, done, SingleRead.RetryFrom(cfg, max, attempt, last, given[i..]))
    ensures var t := SingleRead.TryOnce(cfg, given[i]);
            if t.status == OK then
              whole.Ended? && whole.status == OK && whole.report == t.report && whole.calls == done + t.calls
            else
              Resumes(whole, done + (t.calls + [Deactivate]),
                      SingleRead.RetryFrom(cfg, max, (attempt + 1) % 0x100, t.status, given[i + 1..]))
  {
    hide SingleRead.TryOnce;
    assert given[i..][1..] == given[i + 1..];
    var t := SingleRead.TryOnce(cfg, given[i]);
    if t.status != OK {
      var rest := SingleRead.RetryFrom(cfg, max, (attempt + 1) % 0x100, t.status, given[i + 1..]);
      assert done + (t.calls + [Deactivate] + rest.calls) == done + (t.calls + [Deactivate]) + rest.calls;
    }
  }

  /** The part of the read that depends on the mode, and the teardown. */
  method RunBody(cfg: Config, env: BlockingRead.Env, res: Result, summary: array<char>, adapter: Adapter)
    returns (done: bool, st: Status)
    requires res.Valid() && res.Value() == NO_REPORT && summary.Length == SUMMARY_BUF_SIZE && adapter.isOpen
    modifies res.Footprint(), summary, adapter
    ensures adapter.isOpen == !done
    ensures match BlockingRead.Body(cfg, env)
            case Going(calls) => !done && adapter.trace == old(adapter.trace) + calls
            case Returned(rst, report, calls) =>
              && done && st == rst && adapter.trace == old(adapter.trace) + calls + BlockingRead.TEARDOWN
              && res.Valid() && res.Value() == report.GetOr(NO_REPORT)
  {
    hide EventLoop.Loop, EventLoop.CardsMet, EventLoop.LastReport, SingleRead.RetryFrom, SingleRead.TryOnce;
    if cfg.onCardEvent {
      done, st := RunEventLoop(cfg, env.turns, res, summary, adapter);
    } else if cfg.retryCount > 0 {
      done, st := Retry(cfg, cfg.retryCount, env.attempts, res, adapter);
    } else if env.attempts == [] {
      done, st := false, OK;
    } else {
      st := TryOnce(cfg, env.attempts[0], res, adapter);
      done := true;
    }
    if done {
      adapter.Log(Deactivate);
      var _ := CloseAdapter(env.platform, adapter);
    }
  }

  /** Open, configure, start; what fails after the open closes again. */
  method Prepare(env: BlockingRead.Env, adapter: Adapter) returns (st: Status)
    requires !adapter.isOpen
    modifies adapter
    ensures st == if !BlockingRead.Opens(env.platform) then ErrInternal
                  else if env.configure != OK then env.configure
                  else env.start
    ensures adapter.isOpen == (st == OK)
    ensures adapter.trace == old(adapter.trace) +
              if !BlockingRead.Opens(env.platform) then [Open(false)]
              else if env.configure != OK then [Open(true), Configure(false), Close]
              else if env.start != OK then [Open(true), Configure(true), Start(false), Close]
              else BlockingRead.PREAMBLE
  {
    st := OpenAdapter(env.platform, adapter);
    if st != OK {
      return;
    }
    st := env.configure;
    adapter.Log(Configure(st == OK));
    if st != OK {
      var _ := CloseAdapter(env.platform, adapter);
      return;
    }
    st := env.start;
    adapter.Log(Start(st == OK));
    if st != OK {
      var _ := CloseAdapter(env.platform, adapter);
    }
  }

  /** rs_nfc_read_blocking: opens, runs the body, and leaves the adapter closed
      whenever it returns. */
  method ReadBlocking(cfg: Config, env: BlockingRead.Env, res: Result, summary: array<char>, adapter: Adapter)
    returns (done: bool, st: Status)
    requires res.Shaped() && summary.Length == SUMMARY_BUF_SIZE && !adapter.isOpen
    modifies res.Footprint(), summary, adapter
    ensures adapter.trace == old(adapter.trace) + BlockingRead.Read(cfg, env).calls
    ensures adapter.isOpen == !done
    ensures match BlockingRead.Read(cfg, env)
            case Going(_) => !done
            case Returned(rst, report, _) =>
              && done && st == rst
              && res.Valid() && res.Value() == report.GetOr(NO_REPORT)
  {
    hide BlockingRead.Body, BlockingRead.Opens;
    done := true;
    res.Clear();
    st := Prepare(env, adapter);
    if st == OK {
      done, st := RunBody(cfg, env, res, summary, adapter);
    }
  }
}
