/** The event loop as the program runs it, proved against `EventLoop.Loop`. */
module EventLoopRunner {
  import opened Bytes
  import opened Status
  import opened CardResult
  import opened CardInfoReader
  import opened CardSummary
  import opened ReaderTypes
  import opened EventLoop
  import CardWait

  /** The adapter as seen from above: whether it is open, and what was asked. */
  class Adapter {
    var isOpen: bool
    ghost var trace: seq<Call>

    constructor ()
      ensures !isOpen && trace == []
    {
      isOpen, trace := false, [];
    }

    ghost method Log(c: Call)
      modifies `trace
      ensures trace == old(trace) + [c]
    {
      trace := trace + [c];
    }
  }

  /** Copies what activation gave into a cleared result. */
  method FillBasics(a: Activation, res: Result)
    requires res.Valid() && res.Value() == NO_REPORT
    modifies res, res.uid
    ensures res.Valid()
    ensures res.Value() == Report(a.cardType, a.protocol, a.rawUid[..Min(|a.rawUid|, 10)], NO_INFO, None)
  {
    res.cardType, res.protocol := a.cardType, a.protocol;
    var uid := a.Uid();
    forall i | 0 <= i < |uid| {
      res.uid[i] := uid[i];
    }
    res.uidLen := |uid|;
    assert res.uid[..res.uidLen] == uid;
  }

  /** The optional raw exchange of frames with the card. */
  method RawExchangeWith(cfg: Config, card: CardSeen, res: Result, adapter: Adapter)
    requires res.Valid() && res.protocol == card.activation.protocol && res.raw == None
    modifies res`raw, adapter`trace
    ensures res.Valid() && res.raw == RawOf(cfg, card.activation.protocol, card.raw)
    ensures adapter.trace ==
            old(adapter.trace) + if ExchangesRaw(cfg, card.activation.protocol) then [ExchangeRaw] else []
  {
    if cfg.runRawExchange && !res.protocol.IsoDep? && !res.protocol.Undefined? {
      if res.protocol.Extension? {
        res.raw := Some(RawExchange(ErrInvalidCfg, []));
      } else {
        adapter.Log(ExchangeRaw);
        if card.raw.ok {
          res.raw := Some(RawExchange(OK, card.raw.data[..Min(|card.raw.data|, RAW_RX_BUF_SIZE)]));
        } else {
          res.raw := Some(RawExchange(ErrInternal, []));
        }
      }
    }
  }

  /** Fills the reused result buffer for a card: whatever it held from earlier
      cards, it ends up as this card and the configuration determine. */
  method FillReport(cfg: Config, card: CardSeen, res: Result, adapter: Adapter)
    requires res.Shaped()
    modifies res.Footprint(), adapter`trace
    ensures res.Valid() && res.Value() == ReportOf(cfg, card)
    ensures adapter.trace == old(adapter.trace)
            + (if cfg.readNdef then [ReadCard] else [])
            + (if ExchangesRaw(cfg, card.activation.protocol) then [ExchangeRaw] else [])
  {
    hide InfoOf, RawOf, ExchangesRaw;
    res.Clear();
    FillBasics(card.activation, res);
    if cfg.readNdef {
      adapter.Log(ReadCard);
      var _ := ReadCardInfo(res.protocol, card.env, res, cfg.maxNdefBytes);
    }
    ghost var basics := res.Value();
    assert basics.info == InfoRead(cfg, card);
    RawExchangeWith(cfg, card, res, adapter);
    assert res.Value() == basics.(raw := res.raw);
  }

  /** LOOP_DATA_EVENT: one activation and the event about it. */
  method HandleCard(cfg: Config, card: CardSeen, res: Result, summary: array<char>, adapter: Adapter)
    requires res.Shaped() && summary.Length == SUMMARY_BUF_SIZE
    modifies res.Footprint(), summary, adapter`trace
    ensures adapter.trace == old(adapter.trace) + CardCalls(cfg, card)
    ensures card.activation.status == OK ==> res.Valid() && res.Value() == ReportOf(cfg, card)
    ensures card.activation.status != OK && old(res.Valid()) ==> res.Valid() && res.Value() == old(res.Value())
  {
    hide Summary, ReportOf, ExchangesRaw, Result.Valid, Result.Value;
    ReportProtocol(cfg, card);
    var a := card.activation;
    adapter.Log(Activate(a.status == OK));
    if a.status == OK {
      FillReport(cfg, card, res, adapter);
      var end := BuildSummary(res, summary, SUMMARY_BUF_SIZE);
      if cfg.onCardEvent {
        adapter.Log(Event(CardEvent(OK, Some(res.Value()), summary[..end])));
      }
    } else if cfg.onCardEvent {
      adapter.Log(Event(CardEvent(a.status, None, FAILED_TEXT)));
    }
  }

  lemma ReportProtocol(cfg: Config, card: CardSeen)
    ensures ReportOf(cfg, card).protocol == card.activation.protocol
  {
  }

  lemma ReportOfCardMet(cfg: Config, s: LoopState, it: Iteration)
    ensures LastReport(cfg, CardMet(s, it)) ==
            if Acting(s, it) == DataEvent && it.card.activation.status == OK then Some(ReportOf(cfg, it.card)) else None
  {
    hide ReportOf;
  }

  /** The system-error watchdog, and the warning about the power amplifier. */
  method CheckHealth(cfg: Config, it: Iteration, adapter: Adapter) returns (bad: bool)
    modifies adapter`trace
    ensures bad <==> it.systemOk && it.system != SYSTEM_OK
    ensures adapter.trace == old(adapter.trace) + Watchdog(cfg, it)
  {
    adapter.Log(GetSystemState);
    bad := it.systemOk && it.system != SYSTEM_OK;
    adapter.Log(GetRfError);
    if it.rfError == PA_OVERCURRENT && cfg.onCardEvent {
      adapter.Log(WARNING);
    }
  }

  /** One turn of the loop past the stop test. */
  method LoopTurn(cfg: Config, s: LoopState, it: Iteration, res: Result, summary: array<char>, adapter: Adapter)
    returns (fault: bool, next: LoopState)
    requires Goes(cfg, s)
    requires res.Shaped() && summary.Length == SUMMARY_BUF_SIZE
    modifies res.Footprint(), summary, adapter`trace
    ensures match Body(cfg, s, it)
            case Fault(calls) => fault && adapter.trace == old(adapter.trace) + calls
            case Next(s', calls) => !fault && next == s' && adapter.trace == old(adapter.trace) + calls
    ensures old(res.Valid()) ==> res.Valid() && res.Value() == LastReport(cfg, CardMet(s, it)).GetOr(old(res.Value()))
  {
    hide CardCalls, ReportOf, CardMet, LastReport, Result.Shaped, Result.Valid, Result.Value;
    ReportOfCardMet(cfg, s, it);
    fault := false;
    var phase, elapsed := s.phase, s.elapsed;

    var bad := CheckHealth(cfg, it, adapter);
    hide Watchdog;
    if bad {
      phase := SystemError;
    }

    match phase {
      case WaitForActivation =>
        var waitMs := if cfg.Forever() then FOREVER else cfg.timeoutMs - elapsed;
        adapter.Log(Wait(waitMs, it.waitOk, it.disc));
        if !it.waitOk {
          phase := Deactivating;
        } else {
          if it.disc == CardWait.CardActive || it.disc == CardWait.Done {
            phase := DataEvent;
          }
          if !cfg.Forever() {
            elapsed := cfg.timeoutMs;
          }
        }
      case DataEvent =>
        HandleCard(cfg, it.card, res, summary, adapter);
        phase := Deactivating;
      case Deactivating =>
        adapter.Log(Deactivate);
        phase := WaitForActivation;
      case SystemError =>
        if cfg.onCardEvent {
          adapter.Log(FAULT);
        }
        fault := true;
    }
    next := LoopState(phase, elapsed);
  }

  /** `rest` is what is left of the run `whole` after `done` calls. */
  ghost predicate Resumes(whole: LoopRun, done: seq<Call>, rest: LoopRun) {
    && whole.calls == done + rest.calls
    && whole.Ended? == rest.Ended?
    && (whole.Ended? ==> whole.cause == rest.cause)
  }

  lemma ResumesTurn(cfg: Config, s: LoopState, its: seq<Iteration>, i: nat, whole: LoopRun, done: seq<Call>)
    requires i < |its| && Goes(cfg, s) && !its[i].stop
    requires Resumes(whole, done, Loop(cfg, s, its[i..]))
    ensures match Body(cfg, s, its[i])
            case Fault(calls) => whole.Ended? && whole.cause == Faulted && whole.calls == done + calls
            case Next(s', calls) => Resumes(whole, done + calls, Loop(cfg, s', its[i + 1..]))
  {
    hide Body;
    assert its[i..][1..] == its[i + 1..];
    if Body(cfg, s, its[i]).Next? {
      var calls, rest := Body(cfg, s, its[i]).calls, Loop(cfg, Body(cfg, s, its[i]).s, its[i + 1..]);
      assert done + (calls + rest.calls) == done + calls + rest.calls;
    }
  }

  lemma ResumesEnd(cfg: Config, s: LoopState, its: seq<Iteration>, i: nat, whole: LoopRun, done: seq<Call>)
    requires i <= |its| && Resumes(whole, done, Loop(cfg, s, its[i..]))
    requires !Goes(cfg, s) || i == |its| || its[i].stop
    ensures whole.calls == done
    ensures if !Goes(cfg, s) then whole.Ended? && whole.cause == TimedOut
            else if i == |its| then whole.Ongoing?
            else whole.Ended? && whole.cause == Stopped
  {
    assert done + [] == done;
  }

  /** `met` cards are behind, `rest` still to come of `whole`. */
  ghost predicate MeetsRest(whole: seq<CardSeen>, met: seq<CardSeen>, rest: seq<CardSeen>) {
    whole == met + rest
  }

  lemma MeetsTurn(cfg: Config, s: LoopState, its: seq<Iteration>, i: nat, whole: seq<CardSeen>, met: seq<CardSeen>)
    requires i < |its| && Goes(cfg, s) && !its[i].stop
    requires MeetsRest(whole, met, CardsMet(cfg, s, its[i..]))
    ensures match Body(cfg, s, its[i])
            case Fault(_) => whole == met + CardMet(s, its[i])
            case Next(s', _) => MeetsRest(whole, met + CardMet(s, its[i]), CardsMet(cfg, s', its[i + 1..]))
  {
    hide Body;
    assert its[i..][1..] == its[i + 1..];
    if Body(cfg, s, its[i]).Fault? {
      FaultMeetsNoCard(cfg, s, its[i]);
    }
    assert met + [] == met;
  }

  lemma MeetsStart(cfg: Config, whole: seq<CardSeen>, first: Report)
    ensures MeetsRest(whole, [], whole) && LastReport(cfg, []).GetOr(first) == first
  {
    assert [] + whole == whole;
  }

  lemma MeetsEnd(cfg: Config, s: LoopState, its: seq<Iteration>, i: nat, whole: seq<CardSeen>, met: seq<CardSeen>)
    requires i <= |its| && MeetsRest(whole, met, CardsMet(cfg, s, its[i..]))
    requires !Goes(cfg, s) || i == |its| || its[i].stop
    ensures whole == met
  {
    assert met + [] == met;
  }

  lemma LastReportOf(cfg: Config, met: seq<CardSeen>, more: seq<CardSeen>, first: Report)
    requires |more| <= 1
    ensures LastReport(cfg, met + more).GetOr(first) == LastReport(cfg, more).GetOr(LastReport(cfg, met).GetOr(first))
  {
    hide ReportOf;
    if more == [] {
      assert met + more == met;
    }
  }

  /** run_event_loop while the given turns last; `done` tells whether it has
      returned by then. The result is left with the last card activated, as it was
      if there was none. */
  method RunEventLoop(cfg: Config, its: seq<Iteration>, res: Result, summary: array<char>, adapter: Adapter)
    returns (done: bool, st: Status)
    requires res.Shaped() && summary.Length == SUMMARY_BUF_SIZE
    modifies res.Footprint(), summary, adapter`trace
    ensures adapter.trace == old(adapter.trace) + Loop(cfg, START, its).calls
    ensures match Loop(cfg, START, its)
            case Ended(cause, _, _) => done && st == StatusOf(cause)
            case Ongoing(_, _, _) => !done
    ensures old(res.Valid()) ==>
              res.Valid() && res.Value() == LastReport(cfg, CardsMet(cfg, START, its)).GetOr(old(res.Value()))
  {
    hide Body, Loop, CardsMet, CardMet, LastReport, MeetsRest, Result.Valid, Result.Value;
    done, st := false, OK;
    ghost var whole := Loop(cfg, START, its);
    ghost var made := [];
    ghost var cards, met := CardsMet(cfg, START, its), [];
    ghost var clean := res.Valid();
    ghost var first := if clean then res.Value() else NO_REPORT;
    var s := START;
    var i: nat := 0;
    assert its[0..] == its;
    MeetsStart(cfg, cards, first);
    while cfg.Forever() || s.elapsed < cfg.timeoutMs
      invariant i <= |its|
      invariant adapter.trace == old(adapter.trace) + made
      invariant Resumes(whole, made, Loop(cfg, s, its[i..]))
      invariant MeetsRest(cards, met, CardsMet(cfg, s, its[i..]))
      invariant clean ==> res.Valid() && res.Value() == LastReport(cfg, met).GetOr(first)
      decreases |its| - i
    {
      if i == |its| || its[i].stop {
        ResumesEnd(cfg, s, its, i, whole, made);
        MeetsEnd(cfg, s, its, i, cards, met);
        return i < |its|, OK;
      }
      ResumesTurn(cfg, s, its, i, whole, made);
      MeetsTurn(cfg, s, its, i, cards, met);
      LastReportOf(cfg, met, CardMet(s, its[i]), first);
      made := made + Body(cfg, s, its[i]).calls;
      var fault, next := LoopTurn(cfg, s, its[i], res, summary, adapter);
      met := met + CardMet(s, its[i]);
      if fault {
        return true, ErrInternal;
      }
      s := next;
      i := i + 1;
    }
    ResumesEnd(cfg, s, its, i, whole, made);
    MeetsEnd(cfg, s, its, i, cards, met);
    return true, OK;
  }
}
