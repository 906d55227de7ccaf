/**
 * The event loop of the reader: a four-state machine over adapter calls.
 *
 * `Body` is one turn past the stop test and `Loop` a run, while the given turns
 * last; `EventLoopRunner` has the loop itself, working on a reused result buffer.
 */
module EventLoop {
  import opened Bytes
  import opened Status
  import opened CardResult
  import opened CardSummary
  import opened ReaderTypes
  import opened AdapterTrace
  import CardWait

  datatype Phase = WaitForActivation | DataEvent | Deactivating | SystemError

  /** What one turn meets: the stop flag at its start and the adapter's answers. */
  datatype Iteration = Iteration(stop: bool, systemOk: bool, system: byte, rfError: byte,
                                 waitOk: bool, disc: Disc, card: CardSeen)

  const SYSTEM_OK: byte := 0x00
  const PA_OVERCURRENT: byte := 0x06

  datatype LoopState = LoopState(phase: Phase, elapsed: uint32)

  const START := LoopState(WaitForActivation, 0)

  // ----- Specification ----------------------------------------------------

  datatype Turn = Next(s: LoopState, calls: seq<Call>) | Fault(calls: seq<Call>)

  predicate Goes(cfg: Config, s: LoopState) {
    cfg.Forever() || s.elapsed < cfg.timeoutMs
  }

  /** The phase that a turn acts in: a reported system error overrides. */
  function Acting(s: LoopState, it: Iteration): Phase {
    if it.systemOk && it.system != SYSTEM_OK then SystemError else s.phase
  }

  function Watchdog(cfg: Config, it: Iteration): seq<Call> {
    [GetSystemState, GetRfError] + if it.rfError == PA_OVERCURRENT then Told(cfg, WARNING) else []
  }

  function WaitTime(cfg: Config, s: LoopState): uint32
    requires Goes(cfg, s)
  {
    if cfg.Forever() then FOREVER else cfg.timeoutMs - s.elapsed
  }

  function WaitTurn(cfg: Config, s: LoopState, it: Iteration): Turn
    requires Goes(cfg, s)
  {
    var calls := [Wait(WaitTime(cfg, s), it.waitOk, it.disc)];
    if !it.waitOk then Next(s.(phase := Deactivating), calls)
    else
      Next(LoopState(if it.disc in {CardWait.CardActive, CardWait.Done} then DataEvent else WaitForActivation,
                     if cfg.Forever() then s.elapsed else cfg.timeoutMs), calls)
  }

  function CardCalls(cfg: Config, card: CardSeen): seq<Call> {
    if card.activation.status == OK then
      var r := ReportOf(cfg, card);
      [Activate(true)]
      + (if cfg.readNdef then [ReadCard] else [])
      + (if ExchangesRaw(cfg, r.protocol) then [ExchangeRaw] else [])
      + Told(cfg, Event(CardEvent(OK, Some(r), Summary(r, SUMMARY_BUF_SIZE))))
    else
      [Activate(false)] + Told(cfg, Event(CardEvent(card.activation.status, None, FAILED_TEXT)))
  }

  function Body(cfg: Config, s: LoopState, it: Iteration): Turn
    requires Goes(cfg, s)
  {
    var w := Watchdog(cfg, it);
    match Acting(s, it)
    case WaitForActivation =>
      var t := WaitTurn(cfg, s, it);
      t.(calls := w + t.calls)
    case DataEvent => Next(s.(phase := Deactivating), w + CardCalls(cfg, it.card))
    case Deactivating => Next(s.(phase := WaitForActivation), w + [Deactivate])
    case SystemError => Fault(w + Told(cfg, FAULT))
  }

  datatype Cause = Stopped | TimedOut | Faulted

  function StatusOf(c: Cause): Status {
    if c.Faulted? then ErrInternal else OK
  }

  /** A run: ended for a cause after some turns, or still going. */
  datatype LoopRun =
    | Ended(cause: Cause, turns: nat, calls: seq<Call>)
    | Ongoing(s: LoopState, turns: nat, calls: seq<Call>)

  function Prepend(calls: seq<Call>, r: LoopRun): LoopRun {
    r.(calls := calls + r.calls, turns := r.turns + 1)
  }

  function Loop(cfg: Config, s: LoopState, its: seq<Iteration>): LoopRun
    decreases |its|
  {
    if !Goes(cfg, s) then Ended(TimedOut, 0, [])
    else if its == [] then Ongoing(s, 0, [])
    else if its[0].stop then Ended(Stopped, 0, [])
    else
      match Body(cfg, s, its[0])
      case Fault(calls) => Ended(Faulted, 1, calls)
      case Next(s', calls) => Prepend(calls, Loop(cfg, s', its[1..]))
  }

  // ----- The order of adapter calls ---------------------------------------

  predicate Neutral(c: Call) {
    !c.Wait? && !c.Activate? && !c.Deactivate?
  }

  lemma {:induction false} NeutralScan(l: bool, s: Scan, t: seq<Call>)
    requires forall c :: c in t ==> Neutral(c)
    ensures ScanAll(l, s, t) == s
    decreases |t|
  {
    if t != [] {
      assert Neutral(t[|t| - 1]);
      NeutralScan(l, s, t[..|t| - 1]);
    }
  }

  /** One call that matters among calls that do not. */
  lemma ScanAround(l: bool, s: Scan, a: seq<Call>, c: Call, b: seq<Call>)
    requires forall x :: x in a ==> Neutral(x)
    requires forall x :: x in b ==> Neutral(x)
    ensures ScanAll(l, s, a + [c] + b) == ScanStep(l, s, c)
  {
    NeutralScan(l, s, a);
    ScanConcat(l, s, a, [c]);
    assert [c][..0] == [];
    assert ScanAll(l, ScanAll(l, s, a), [c]) == ScanStep(l, s, c);
    ScanConcat(l, s, a + [c], b);
    NeutralScan(l, ScanStep(l, s, c), b);
  }

  /** What the loop's phase says about the calls made so far. */
  predicate InPhase(p: Phase, s: Scan) {
    match p
    case WaitForActivation => s.Idle?
    case DataEvent => s.Found?
    case Deactivating => s.Idle? || s.Active?
    case SystemError => false
  }

  lemma WatchdogNeutral(cfg: Config, it: Iteration)
    ensures forall c :: c in Watchdog(cfg, it) ==> Neutral(c)
    ensures forall c :: c in Told(cfg, FAULT) ==> Neutral(c)
  {
  }

  lemma CardCallsShape(cfg: Config, card: CardSeen)
    ensures var t := CardCalls(cfg, card);
            && t != [] && t[0] == Activate(card.activation.status == OK)
            && t == [t[0]] + t[1..] && forall c :: c in t[1..] ==> Neutral(c)
  {
    hide ReportOf, Summary, ExchangesRaw;
  }

  lemma BodyScans(cfg: Config, s: LoopState, it: Iteration, scan: Scan)
    requires Goes(cfg, s) && InPhase(s.phase, scan)
    ensures var t := Body(cfg, s, it);
            var after := ScanAll(false, scan, t.calls);
            !after.Wrong? && (t.Next? ==> InPhase(t.s.phase, after))
  {
    hide Watchdog, CardCalls, ScanAll;
    var w := Watchdog(cfg, it);
    WatchdogNeutral(cfg, it);
    match Acting(s, it)
    case WaitForActivation =>
      var c := Wait(WaitTime(cfg, s), it.waitOk, it.disc);
      ScanAround(false, scan, w, c, []);
      assert w + [c] + [] == w + [c];
    case DataEvent =>
      CardCallsShape(cfg, it.card);
      var t := CardCalls(cfg, it.card);
      ScanAround(false, scan, w, t[0], t[1..]);
      assert w + [t[0]] + t[1..] == w + t;
    case Deactivating =>
      ScanAround(false, scan, w, Deactivate, []);
      assert w + [Deactivate] + [] == w + [Deactivate];
    case SystemError =>
      NeutralScan(false, scan, w + Told(cfg, FAULT));
  }

  lemma {:induction false} LoopScans(cfg: Config, s: LoopState, its: seq<Iteration>, scan: Scan)
    requires InPhase(s.phase, scan)
    ensures !ScanAll(false, scan, Loop(cfg, s, its).calls).Wrong?
    decreases |its|
  {
    hide Body;
    if Goes(cfg, s) && its != [] && !its[0].stop {
      BodyScans(cfg, s, its[0], scan);
      match Body(cfg, s, its[0])
      case Fault(calls) =>
      case Next(s', calls) =>
        var rest := Loop(cfg, s', its[1..]);
        LoopScans(cfg, s', its[1..], ScanAll(false, scan, calls));
        ScanConcat(false, scan, calls, rest.calls);
    }
  }

  /** In every run of the event loop, ended or not, each activation follows a wait
      that found a card, and two activations have a deactivation between them. */
  lemma LoopIsDisciplined(cfg: Config, its: seq<Iteration>)
    ensures Disciplined(false, Loop(cfg, START, its).calls) && Separated(Loop(cfg, START, its).calls)
  {
    LoopScans(cfg, START, its, Idle);
    ScanDisciplined(false, Loop(cfg, START, its).calls);
    ScanSeparated(false, Loop(cfg, START, its).calls);
  }

  // ----- Nothing found is dropped -----------------------------------------

  lemma {:induction false} NeutralDuty(d: Duty, t: seq<Call>)
    requires forall c :: c in t ==> Neutral(c)
    ensures DutyAfter(d, t) == d
    decreases |t|
  {
    if t != [] {
      assert Neutral(t[|t| - 1]);
      NeutralDuty(d, t[..|t| - 1]);
    }
  }

  lemma DutyAround(d: Duty, a: seq<Call>, c: Call, b: seq<Call>)
    requires forall x :: x in a ==> Neutral(x)
    requires forall x :: x in b ==> Neutral(x)
    ensures DutyAfter(d, a + [c] + b) == DutyStep(d, c)
  {
    NeutralDuty(d, a);
    DutyConcat(d, a, [c]);
    assert [c][..0] == [];
    assert DutyAfter(DutyAfter(d, a), [c]) == DutyStep(d, c);
    DutyConcat(d, a + [c], b);
    NeutralDuty(DutyStep(d, c), b);
  }

  /** What the loop's phase says about what it still has to do. */
  predicate Owes(p: Phase, d: Duty) {
    match p
    case WaitForActivation => d.Free?
    case DataEvent => d.MustActivate?
    case Deactivating => d.Free? || d.MustDeactivate?
    case SystemError => false
  }

  lemma BodyDuty(cfg: Config, s: LoopState, it: Iteration, d: Duty)
    requires Goes(cfg, s) && Owes(s.phase, d)
    ensures var t := Body(cfg, s, it);
            var after := DutyAfter(d, t.calls);
            !after.Neglected? && (t.Next? ==> Owes(t.s.phase, after))
  {
    hide Watchdog, CardCalls, DutyAfter;
    var w := Watchdog(cfg, it);
    WatchdogNeutral(cfg, it);
    match Acting(s, it)
    case WaitForActivation =>
      var c := Wait(WaitTime(cfg, s), it.waitOk, it.disc);
      DutyAround(d, w, c, []);
      assert w + [c] + [] == w + [c];
    case DataEvent =>
      CardCallsShape(cfg, it.card);
      var t := CardCalls(cfg, it.card);
      DutyAround(d, w, t[0], t[1..]);
      assert w + [t[0]] + t[1..] == w + t;
    case Deactivating =>
      DutyAround(d, w, Deactivate, []);
      assert w + [Deactivate] + [] == w + [Deactivate];
    case SystemError =>
      NeutralDuty(d, w + Told(cfg, FAULT));
  }

  lemma {:induction false} LoopDuty(cfg: Config, s: LoopState, its: seq<Iteration>, d: Duty)
    requires Owes(s.phase, d)
    ensures !DutyAfter(d, Loop(cfg, s, its).calls).Neglected?
    decreases |its|
  {
    hide Body;
    if Goes(cfg, s) && its != [] && !its[0].stop {
      BodyDuty(cfg, s, its[0], d);
      match Body(cfg, s, its[0])
      case Fault(calls) =>
      case Next(s', calls) =>
        var rest := Loop(cfg, s', its[1..]);
        LoopDuty(cfg, s', its[1..], DutyAfter(d, calls));
        DutyConcat(d, calls, rest.calls);
    }
  }

  /** In every run, each card that a wait found is activated before anything else
      is done about waiting, and each activation and failed wait is followed by a
      deactivation before the next wait. */
  lemma LoopIsPrompt(cfg: Config, its: seq<Iteration>)
    ensures Prompt(Loop(cfg, START, its).calls)
  {
    LoopDuty(cfg, START, its, Free);
    DutyPrompt(Loop(cfg, START, its).calls);
  }

  // ----- One event per card -----------------------------------------------

  /** The events that report a card, and those that report a failed activation. */
  function Reports(t: seq<Call>): seq<CardEvent> {
    if t == [] then []
    else (if t[0].Event? && t[0].event.report.Some? then [t[0].event] else []) + Reports(t[1..])
  }

  function Failures(t: seq<Call>): seq<CardEvent> {
    if t == [] then []
    else
      (if t[0].Event? && t[0].event.report.None? && t[0].event.text == FAILED_TEXT then [t[0].event] else [])
      + Failures(t[1..])
  }

  function Activations(t: seq<Call>, ok: bool): nat {
    if t == [] then 0 else (if t[0] == Activate(ok) then 1 else 0) + Activations(t[1..], ok)
  }

  lemma {:induction false} ReportsConcat(a: seq<Call>, b: seq<Call>)
    ensures Reports(a + b) == Reports(a) + Reports(b)
    decreases |a|
  {
    if a == [] {
      assert a + b == b;
    } else {
      assert (a + b)[1..] == a[1..] + b;
      ReportsConcat(a[1..], b);
    }
  }

  lemma {:induction false} FailuresConcat(a: seq<Call>, b: seq<Call>)
    ensures Failures(a + b) == Failures(a) + Failures(b)
    decreases |a|
  {
    if a == [] {
      assert a + b == b;
    } else {
      assert (a + b)[1..] == a[1..] + b;
      FailuresConcat(a[1..], b);
    }
  }

  lemma {:induction false} ActivationsConcat(a: seq<Call>, b: seq<Call>, ok: bool)
    ensures Activations(a + b, ok) == Activations(a, ok) + Activations(b, ok)
    decreases |a|
  {
    if a == [] {
      assert a + b == b;
    } else {
      assert (a + b)[1..] == a[1..] + b;
      ActivationsConcat(a[1..], b, ok);
    }
  }

  lemma CountsConcat(a: seq<Call>, b: seq<Call>)
    ensures Reports(a + b) == Reports(a) + Reports(b)
    ensures Failures(a + b) == Failures(a) + Failures(b)
    ensures forall ok :: Activations(a + b, ok) == Activations(a, ok) + Activations(b, ok)
  {
    hide Reports, Failures, Activations;
    ReportsConcat(a, b);
    FailuresConcat(a, b);
    ActivationsConcat(a, b, true);
    ActivationsConcat(a, b, false);
  }

  function EventFor(cfg: Config, card: CardSeen): CardEvent {
    var r := ReportOf(cfg, card);
    CardEvent(OK, Some(r), Summary(r, SUMMARY_BUF_SIZE))
  }

  /** The cards that a run activates, in order. */
  function CardsMet(cfg: Config, s: LoopState, its: seq<Iteration>): seq<CardSeen>
    decreases |its|
  {
    if !Goes(cfg, s) || its == [] || its[0].stop then []
    else
      match Body(cfg, s, its[0])
      case Fault(_) => []
      case Next(s', _) => CardMet(s, its[0]) + CardsMet(cfg, s', its[1..])
  }

  /** ... and the one that a turn does, if any. */
  function CardMet(s: LoopState, it: Iteration): (cards: seq<CardSeen>)
    ensures |cards| <= 1
  {
    if Acting(s, it) == DataEvent && it.card.activation.status == OK then [it.card] else []
  }

  /** The report of the last of them: what is left in the result. */
  function LastReport(cfg: Config, cards: seq<CardSeen>): Option<Report> {
    if cards == [] then None else Some(ReportOf(cfg, cards[|cards| - 1]))
  }

  function EventsFor(cfg: Config, cards: seq<CardSeen>): (es: seq<CardEvent>)
    ensures |es| == |cards|
  {
    if cards == [] then [] else [EventFor(cfg, cards[0])] + EventsFor(cfg, cards[1..])
  }

  lemma TextsDiffer()
    ensures WARNING_TEXT != FAILED_TEXT && FAULT_TEXT != FAILED_TEXT
  {
    assert |WARNING_TEXT| != |FAILED_TEXT| && |FAULT_TEXT| != |FAILED_TEXT|;
  }

  /** Calls that are neither activations nor events about a card. */
  predicate Silent(c: Call) {
    !c.Activate? && (c.Event? ==> c.event.report.None? && c.event.text != FAILED_TEXT)
  }

  lemma {:induction false} SilentCounts(t: seq<Call>)
    requires forall c :: c in t ==> Silent(c)
    ensures Reports(t) == [] && Failures(t) == [] && forall ok :: Activations(t, ok) == 0
  {
    if t != [] {
      assert Silent(t[0]);
      SilentCounts(t[1..]);
    }
  }

  lemma WatchdogSilent(cfg: Config, it: Iteration)
    ensures forall c :: c in Watchdog(cfg, it) ==> Silent(c)
    ensures forall c :: c in Told(cfg, FAULT) ==> Silent(c)
  {
    TextsDiffer();
  }

  /** An activation, silent calls, and one event about it. */
  lemma ActivationCounts(ok: bool, mid: seq<Call>, e: CardEvent)
    requires forall c :: c in mid ==> Silent(c)
    requires if ok then e.report.Some? else e.report.None? && e.text == FAILED_TEXT
    ensures var t := [Activate(ok)] + mid + [Event(e)];
            && Reports(t) == (if ok then [e] else []) && Failures(t) == (if ok then [] else [e])
            && Activations(t, ok) == 1 && Activations(t, !ok) == 0
  {
    SilentCounts(mid);
    CountsConcat([Activate(ok)], mid);
    CountsConcat([Activate(ok)] + mid, [Event(e)]);
    assert Reports([Event(e)]) == (if ok then [e] else []) + Reports([]);
    assert Failures([Event(e)]) == (if ok then [] else [e]) + Failures([]);
    assert Activations([Event(e)], ok) == 0 && Activations([Event(e)], !ok) == 0;
    assert Activations([Activate(ok)], ok) == 1 && Activations([Activate(ok)], !ok) == 0;
  }

  lemma CardCallsCounts(cfg: Config, card: CardSeen)
    requires cfg.onCardEvent
    ensures var t, ok := CardCalls(cfg, card), card.activation.status == OK;
            && Reports(t) == (if ok then [EventFor(cfg, card)] else [])
            && |Failures(t)| == (if ok then 0 else 1)
            && Activations(t, ok) == 1 && Activations(t, !ok) == 0
  {
    hide ReportOf, Summary, ExchangesRaw, Reports, Failures, Activations;
    var r := ReportOf(cfg, card);
    if card.activation.status == OK {
      var mid :=
        (if cfg.readNdef then [ReadCard] else [])
        + (if ExchangesRaw(cfg, r.protocol) then [ExchangeRaw] else []);
      ActivationCounts(true, mid, EventFor(cfg, card));
      assert CardCalls(cfg, card) == [Activate(true)] + mid + [Event(EventFor(cfg, card))];
    } else {
      var e := CardEvent(card.activation.status, None, FAILED_TEXT);
      ActivationCounts(false, [], e);
      assert CardCalls(cfg, card) == [Activate(false)] + [] + [Event(e)];
    }
  }

  lemma BodyCounts(cfg: Config, s: LoopState, it: Iteration)
    requires cfg.onCardEvent && Goes(cfg, s)
    ensures var t := Body(cfg, s, it).calls;
            var met := Acting(s, it) == DataEvent && it.card.activation.status == OK;
            && Reports(t) == (if met then [EventFor(cfg, it.card)] else [])
            && Activations(t, true) == (if met then 1 else 0)
            && |Failures(t)| == Activations(t, false)
  {
    hide Watchdog, CardCalls, EventFor, Reports, Failures, Activations;
    var w := Watchdog(cfg, it);
    WatchdogSilent(cfg, it);
    SilentCounts(w);
    match Acting(s, it)
    case WaitForActivation =>
      SilentCounts(w + [Wait(WaitTime(cfg, s), it.waitOk, it.disc)]);
    case DataEvent =>
      CardCallsCounts(cfg, it.card);
      CountsConcat(w, CardCalls(cfg, it.card));
    case Deactivating =>
      SilentCounts(w + [Deactivate]);
    case SystemError =>
      SilentCounts(w + Told(cfg, FAULT));
  }

  lemma EventsForCons(cfg: Config, card: CardSeen, cards: seq<CardSeen>)
    ensures EventsFor(cfg, [card] + cards) == [EventFor(cfg, card)] + EventsFor(cfg, cards)
    ensures EventsFor(cfg, [] + cards) == EventsFor(cfg, cards)
  {
    hide EventFor;
    assert ([card] + cards)[1..] == cards;
    assert [] + cards == cards;
  }

  lemma {:induction false} EventConservationFrom(cfg: Config, s: LoopState, its: seq<Iteration>)
    requires cfg.onCardEvent
    ensures var t := Loop(cfg, s, its).calls;
            && Reports(t) == EventsFor(cfg, CardsMet(cfg, s, its))
            && Activations(t, true) == |CardsMet(cfg, s, its)|
            && |Failures(t)| == Activations(t, false)
    decreases |its|
  {
    hide Body, Acting, EventFor;
    if Goes(cfg, s) && its != [] && !its[0].stop {
      BodyCounts(cfg, s, its[0]);
      match Body(cfg, s, its[0])
      case Fault(calls) =>
        FaultMeetsNoCard(cfg, s, its[0]);
      case Next(s', calls) =>
        EventConservationFrom(cfg, s', its[1..]);
        CountsConcat(calls, Loop(cfg, s', its[1..]).calls);
        EventsForCons(cfg, its[0].card, CardsMet(cfg, s', its[1..]));
        hide EventsFor;
    }
  }

  lemma FaultMeetsNoCard(cfg: Config, s: LoopState, it: Iteration)
    requires Goes(cfg, s) && Body(cfg, s, it).Fault?
    ensures Acting(s, it) != DataEvent
  {
  }

  /** With a card callback set, in every run: the results delivered are those of
      the cards activated, one each and in order, each what that card and the
      configuration alone determine; and failed activations are told one each. */
  lemma EventConservation(cfg: Config, its: seq<Iteration>)
    requires cfg.onCardEvent
    ensures var t := Loop(cfg, START, its).calls;
            && Reports(t) == EventsFor(cfg, CardsMet(cfg, START, its))
            && |Reports(t)| == Activations(t, true)
            && |Failures(t)| == Activations(t, false)
  {
    EventConservationFrom(cfg, START, its);
  }

  // ----- Finite timeouts --------------------------------------------------

  function FailedWaits(t: seq<Call>): nat {
    if t == [] then 0 else (if t[0].Wait? && !t[0].ok then 1 else 0) + FailedWaits(t[1..])
  }

  lemma {:induction false} FailedWaitsConcat(a: seq<Call>, b: seq<Call>)
    ensures FailedWaits(a + b) == FailedWaits(a) + FailedWaits(b)
  {
    if a == [] {
      assert a + b == b;
    } else {
      assert (a + b)[1..] == a[1..] + b;
      FailedWaitsConcat(a[1..], b);
    }
  }

  /** A finite run that has not spent its time waits or deactivates, nothing else,
      and has spent none of it. */
  predicate Unspent(cfg: Config, s: LoopState) {
    s.elapsed == 0 && s.phase in {WaitForActivation, Deactivating}
  }

  lemma FiniteBody(cfg: Config, s: LoopState, it: Iteration)
    requires !cfg.Forever() && Goes(cfg, s) && Unspent(cfg, s)
    ensures var t := Body(cfg, s, it);
            && (forall c :: c in t.calls ==> !c.Activate? && (c.Wait? ==> c.ms == cfg.timeoutMs))
            && match t
               case Fault(_) => true
               case Next(s', calls) =>
                 if s.phase == Deactivating then s' == START && FailedWaits(calls) == 0
                 else if Goes(cfg, s') then s' == LoopState(Deactivating, 0) && FailedWaits(calls) == 1
                 else FailedWaits(calls) == 0
  {
    var w := Watchdog(cfg, it);
    assert forall c :: c in w ==> !c.Wait? && !c.Activate?;
    NoWaits(w);
    hide Watchdog;
    FailedWaitsConcat(w, [Deactivate]);
    assert FailedWaits([Deactivate]) == 0;
    var c := Wait(WaitTime(cfg, s), it.waitOk, it.disc);
    FailedWaitsConcat(w, [c]);
    assert FailedWaits([c]) == if it.waitOk then 0 else 1;
  }

  lemma {:induction false} NoWaits(t: seq<Call>)
    requires forall c :: c in t ==> !c.Wait?
    ensures FailedWaits(t) == 0
  {
    if t != [] {
      assert !t[0].Wait?;
      NoWaits(t[1..]);
    }
  }

  lemma {:induction false} FiniteLoopFrom(cfg: Config, s: LoopState, its: seq<Iteration>)
    requires !cfg.Forever() && Goes(cfg, s) && Unspent(cfg, s)
    ensures var r := Loop(cfg, s, its);
            && (forall c :: c in r.calls ==> !c.Activate? && (c.Wait? ==> c.ms == cfg.timeoutMs))
            && (r.Ended? && r.cause == TimedOut ==>
                  r.turns == 2 * FailedWaits(r.calls) + if s.phase == Deactivating then 2 else 1)
    decreases |its|
  {
    hide Body;
    if its != [] && !its[0].stop {
      FiniteBody(cfg, s, its[0]);
      match Body(cfg, s, its[0])
      case Fault(calls) =>
      case Next(s', calls) =>
        var rest := Loop(cfg, s', its[1..]);
        if Goes(cfg, s') {
          FiniteLoopFrom(cfg, s', its[1..]);
        }
        FailedWaitsConcat(calls, rest.calls);
    }
  }

  /** A run with a finite timeout never activates a card: a wait that succeeds
      uses up the timeout. Every wait asks for all of it, so the remaining time
      never underflows, and a run that times out makes two turns for each failed
      wait and one more. */
  lemma FiniteLoop(cfg: Config, its: seq<Iteration>)
    requires 0 < cfg.timeoutMs && !cfg.Forever()
    ensures var r := Loop(cfg, START, its);
            && (forall c :: c in r.calls ==> !c.Activate? && (c.Wait? ==> c.ms == cfg.timeoutMs))
            && (r.Ended? && r.cause == TimedOut ==> r.turns == 2 * FailedWaits(r.calls) + 1)
  {
    FiniteLoopFrom(cfg, START, its);
  }

  /** A turn after which a finite run is over, `waiting` where it waits for a card. */
  predicate Final(it: Iteration, waiting: bool) {
    it.stop || (it.systemOk && it.system != 0) || (waiting && it.waitOk)
  }

  lemma FiniteTurn(cfg: Config, s: LoopState, it: Iteration)
    requires !cfg.Forever() && Goes(cfg, s) && Unspent(cfg, s)
    ensures var t := Body(cfg, s, it);
            && (t.Fault? <==> it.systemOk && it.system != SYSTEM_OK)
            && (t.Next? ==>
                  if s.phase == WaitForActivation then
                    if it.waitOk then !Goes(cfg, t.s) else t.s == LoopState(Deactivating, 0)
                  else t.s == START)
  {
    hide Watchdog;
  }

  lemma ExistsShift(its: seq<Iteration>, waiting: bool)
    requires its != [] && !Final(its[0], waiting)
    ensures (exists i :: 0 <= i < |its| && Final(its[i], waiting == (i % 2 == 0)))
            <==> exists i :: 0 <= i < |its[1..]| && Final(its[1..][i], !waiting == (i % 2 == 0))
  {
    hide Final;
    if i :| 0 <= i < |its| && Final(its[i], waiting == (i % 2 == 0)) {
      assert i > 0 && its[1..][i - 1] == its[i];
      assert Final(its[1..][i - 1], !waiting == ((i - 1) % 2 == 0));
    }
    if i :| 0 <= i < |its[1..]| && Final(its[1..][i], !waiting == (i % 2 == 0)) {
      assert Final(its[i + 1], waiting == ((i + 1) % 2 == 0));
    }
  }

  lemma {:induction false} FiniteRunEndsFrom(cfg: Config, s: LoopState, its: seq<Iteration>)
    requires !cfg.Forever() && Goes(cfg, s) && Unspent(cfg, s)
    ensures var waiting := s.phase == WaitForActivation;
            Loop(cfg, s, its).Ended? <==> exists i :: 0 <= i < |its| && Final(its[i], waiting == (i % 2 == 0))
    decreases |its|
  {
    hide Body;
    if its != [] {
      var waiting := s.phase == WaitForActivation;
      FiniteTurn(cfg, s, its[0]);
      if Final(its[0], waiting) {
        assert waiting == (waiting == (0 % 2 == 0));
      } else {
        FiniteRunEndsFrom(cfg, Body(cfg, s, its[0]).s, its[1..]);
        ExistsShift(its, waiting);
      }
    }
  }

  /** A read with a finite timeout ends if and only if it is stopped, meets a
      system error, or one of its waits, which are every other turn, succeeds.
      Failing waits use up no time: while they all fail, it goes on for ever. */
  lemma FiniteRunEnds(cfg: Config, its: seq<Iteration>)
    requires 0 < cfg.timeoutMs && !cfg.Forever()
    ensures Loop(cfg, START, its).Ended? <==> exists i :: 0 <= i < |its| && Final(its[i], i % 2 == 0)
  {
    FiniteRunEndsFrom(cfg, START, its);
    hide Final;
    assert forall i :: (true == (i % 2 == 0)) == (i % 2 == 0);
  }

  ghost predicate SomeRunActivates(cfg: Config) {
    exists its :: exists c :: c in Loop(cfg, START, its).calls && c.Activate?
  }

  /** So the documented event per card until the timeout happens only in runs
      without a timeout: some run activates a card if and only if the run is
      to last for ever. */
  lemma ActivationNeedsForever(cfg: Config)
    ensures SomeRunActivates(cfg) <==> cfg.timeoutMs == 0xFFFF_FFFF
  {
    if cfg.Forever() {
      var card := MUTE_CARD;
      var found := Iteration(false, true, SYSTEM_OK, 0, true, CardWait.CardActive, card);
      var its := [found, found];
      var s := LoopState(DataEvent, 0);
      assert Body(cfg, START, found).Next? && Body(cfg, START, found).s == s;
      var second := Body(cfg, s, found);
      CardCallsShape(cfg, card);
      assert second.calls == Watchdog(cfg, found) + CardCalls(cfg, card);
      var c := CardCalls(cfg, card)[0];
      assert c in second.calls && c.Activate?;
      assert its[1..] == [found] && [found][1..] == [];
      assert Loop(cfg, s, [found]) == Prepend(second.calls, Loop(cfg, second.s, []));
      assert c in Loop(cfg, s, [found]).calls;
      assert c in Loop(cfg, START, its).calls;
    } else if SomeRunActivates(cfg) {
      var its, c :| c in Loop(cfg, START, its).calls && c.Activate?;
      if cfg.timeoutMs > 0 {
        FiniteLoop(cfg, its);
      }
      assert false;
    }
  }

  /** A run without a timeout never times out and waits without limit. */
  lemma {:induction false} ForeverLoop(cfg: Config, s: LoopState, its: seq<Iteration>)
    requires cfg.Forever()
    ensures var r := Loop(cfg, s, its);
            && (r.Ended? ==> r.cause != TimedOut)
            && forall c :: c in r.calls && c.Wait? ==> c.ms == 0xFFFF_FFFF
    decreases |its|
  {
    hide CardCalls;
    if its != [] && !its[0].stop {
      CardCallsShape(cfg, its[0].card);
      var t := Body(cfg, s, its[0]);
      assert forall c :: c in CardCalls(cfg, its[0].card) ==> !c.Wait?;
      assert forall c :: c in t.calls && c.Wait? ==> c.ms == FOREVER;
      hide Body;
      if t.Next? {
        ForeverLoop(cfg, t.s, its[1..]);
      }
    }
  }

  /** The loop makes no turn at or after the first stop flag it meets, and ends
      for that cause only there. */
  lemma {:induction false} StopEndsLoop(cfg: Config, s: LoopState, its: seq<Iteration>, k: nat)
    requires k < |its| && its[k].stop
    ensures var r := Loop(cfg, s, its);
            && r.Ended? && r.turns <= k
            && (r.cause == Stopped ==> its[r.turns].stop)
    decreases |its|
  {
    hide Body;
    if Goes(cfg, s) && !its[0].stop {
      var t := Body(cfg, s, its[0]);
      if t.Next? {
        StopEndsLoop(cfg, t.s, its[1..], k - 1);
      }
    }
  }
}
