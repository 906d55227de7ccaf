/** What the application is told in a run of the event loop, event by event. */
module EventReports {
  import opened Bytes
  import opened Status
  import opened CardResult
  import opened CardInfoReader
  import opened CardSummary
  import opened NdefRecord
  import opened ReaderTypes
  import opened EventLoop

  // ----- Cards ------------------------------------------------------------

  /** What is asked of an activated card. */
  lemma WhatIsAsked(cfg: Config, card: CardSeen)
    ensures var t, a := CardCalls(cfg, card), card.activation;
            && (ReadCard in t <==> a.status == OK && cfg.readNdef)
            && (ExchangeRaw in t <==> a.status == OK && cfg.runRawExchange && a.protocol in {T2T, T3T, NfcDep, T5T})
  {
    hide Summary, InfoOf;
  }

  /** The report of a card, field by field: its type and protocol, its UID up to
      ten bytes, its message and metadata if asked for, and the raw exchange if
      asked for and the protocol is not ISO-DEP or unknown, refused for an
      extension. */
  lemma ReportFields(cfg: Config, card: CardSeen)
    ensures var r, a := ReportOf(cfg, card), card.activation;
            && r.cardType == a.cardType && r.protocol == a.protocol
            && r.uid == (if |a.rawUid| <= 10 then a.rawUid else a.rawUid[..10])
            && r.info == (if cfg.readNdef then InfoOf(a.protocol, card.env, cfg.maxNdefBytes).info
                          else Info(false, [], Decoded([], false), 0, false, None))
            && (r.raw.Some? <==> cfg.runRawExchange && a.protocol in {T2T, T3T, NfcDep, T5T, Extension})
            && (r.raw.Some? && a.protocol == Extension ==> r.raw.value == RawExchange(ErrInvalidCfg, []))
            && (r.raw.Some? && a.protocol != Extension ==>
                  if card.raw.ok then
                    r.raw.value ==
                    RawExchange(OK, if |card.raw.data| <= 300 then card.raw.data else card.raw.data[..300])
                  else r.raw.value == RawExchange(ErrInternal, []))
  {
    hide InfoOf;
    UidClipped(card.activation);
    if |card.raw.data| <= 300 {
      assert card.raw.data[..|card.raw.data|] == card.raw.data;
    }
  }

  lemma EventsForAt(cfg: Config, cards: seq<CardSeen>, i: nat)
    requires i < |cards|
    ensures EventsFor(cfg, cards)[i] == EventFor(cfg, cards[i])
  {
    hide EventFor;
    if i > 0 {
      EventsForAt(cfg, cards[1..], i - 1);
    }
  }

  lemma EventText(cfg: Config, card: CardSeen)
    ensures var e := EventFor(cfg, card);
            && e.status == OK && e.report == Some(ReportOf(cfg, card))
            && e.text == FullText(ReportOf(cfg, card))
            && var r := e.report.value;
               Parse(e.text) == Some(Facts(r.cardType, r.uid, if r.info.present then Some(|r.info.ndef|) else None))
  {
    var r := ReportOf(cfg, card);
    ReportFields(cfg, card);
    MessageWithinLimit(card.activation.protocol, card.env, cfg.maxNdefBytes);
    hide ReportOf, InfoOf, Summary, FullText, Parse;
    SummaryFits(r);
    SummaryComplete(r, 128);
    ParseOfSummary(r, 128);
  }

  /** In every run, the i-th result delivered is that of the i-th card activated,
      field by field from that card's replies and the configuration, and its text
      is the whole summary, from which type, UID and message length can be read. */
  lemma DeliveredFields(cfg: Config, its: seq<Iteration>, i: nat)
    requires cfg.onCardEvent && i < |Reports(Loop(cfg, START, its).calls)|
    ensures var e, cards := Reports(Loop(cfg, START, its).calls)[i], CardsMet(cfg, START, its);
            && i < |cards| && e.status == OK && e.report.Some?
            && var r, card := e.report.value, cards[i];
               var a := card.activation;
               && r.cardType == a.cardType && r.protocol == a.protocol
               && r.uid == (if |a.rawUid| <= 10 then a.rawUid else a.rawUid[..10])
               && r.info == (if cfg.readNdef then InfoOf(a.protocol, card.env, cfg.maxNdefBytes).info
                             else Info(false, [], Decoded([], false), 0, false, None))
               && (r.raw.Some? <==> cfg.runRawExchange && a.protocol in {T2T, T3T, NfcDep, T5T, Extension})
               && Parse(e.text) == Some(Facts(a.cardType, r.uid, if r.info.present then Some(|r.info.ndef|) else None))
  {
    hide Loop, CardsMet, Reports, EventFor, ReportOf, InfoOf, Parse;
    EventConservation(cfg, its);
    var cards := CardsMet(cfg, START, its);
    EventsForAt(cfg, cards, i);
    ReportFields(cfg, cards[i]);
    EventText(cfg, cards[i]);
  }

  // ----- Warnings, faults and refused cards -------------------------------

  /** The events without a result that carry `text`. */
  function Notes(t: seq<Call>, text: string): seq<CardEvent> {
    if t == [] then []
    else
      (if t[0].Event? && t[0].event.report.None? && t[0].event.text == text then [t[0].event] else [])
      + Notes(t[1..], text)
  }

  lemma {:induction false} NotesConcat(a: seq<Call>, b: seq<Call>, text: string)
    ensures Notes(a + b, text) == Notes(a, text) + Notes(b, text)
    decreases |a|
  {
    if a == [] {
      assert a + b == b;
    } else {
      assert (a + b)[1..] == a[1..] + b;
      NotesConcat(a[1..], b, text);
    }
  }

  lemma {:induction false} NoNotes(t: seq<Call>, text: string)
    requires forall c :: c in t && c.Event? ==> c.event.report.Some? || c.event.text != text
    ensures Notes(t, text) == []
    decreases |t|
  {
    if t != [] {
      assert t[0] in t;
      NoNotes(t[1..], text);
    }
  }

  lemma OneNote(a: seq<Call>, e: CardEvent, text: string)
    requires forall c :: c in a ==> !c.Event?
    ensures Notes(a + [Event(e)], text) == if e.report.None? && e.text == text then [e] else []
  {
    NoNotes(a, text);
    NotesConcat(a, [Event(e)], text);
    assert Notes([Event(e)], text) == (if e.report.None? && e.text == text then [e] else []) + Notes([], text);
  }

  const WARNED := CardEvent(OK, None, "WARN: PA overcurrent limiter activated")
  const BROKEN := CardEvent(ErrInternal, None, "ERROR: critical system-error (overcurrent/temperature)")

  function Refusal(card: CardSeen): CardEvent {
    CardEvent(card.activation.status, None, "card activate failed")
  }

  function CardRefused(s: LoopState, it: Iteration): seq<CardSeen> {
    if Acting(s, it) == DataEvent && it.card.activation.status != OK then [it.card] else []
  }

  lemma ThreeTexts()
    ensures WARNED.text != BROKEN.text
    ensures forall card :: Refusal(card).text != WARNED.text && Refusal(card).text != BROKEN.text
  {
    var refused := "card activate failed";
    assert |WARNED.text| != |BROKEN.text| && |WARNED.text| != |refused| && |BROKEN.text| != |refused|;
  }

  /** What a turn tells about a text, from its parts. */
  lemma BodyNotes(cfg: Config, s: LoopState, it: Iteration, text: string)
    requires cfg.onCardEvent && Goes(cfg, s)
    ensures var t := Body(cfg, s, it);
            Notes(t.calls, text) ==
            (if it.rfError == 6 && WARNED.text == text then [WARNED] else [])
            + (if CardRefused(s, it) != [] && Refusal(it.card).text == text then [Refusal(it.card)] else [])
            + (if t.Fault? && BROKEN.text == text then [BROKEN] else [])
  {
    hide Summary, ReportOf, ExchangesRaw, Notes;
    var w, probe := Watchdog(cfg, it), [GetSystemState, GetRfError];
    assert w == if it.rfError == 6 then probe + [Event(WARNED)] else probe;
    OneNote(probe, WARNED, text);
    NoNotes(probe, text);
    match Acting(s, it)
    case WaitForActivation =>
      var c := [Wait(WaitTime(cfg, s), it.waitOk, it.disc)];
      NoNotes(c, text);
      NotesConcat(w, c, text);
    case DataEvent =>
      CardNotes(cfg, it.card, text);
      NotesConcat(w, CardCalls(cfg, it.card), text);
    case Deactivating =>
      NoNotes([Deactivate], text);
      NotesConcat(w, [Deactivate], text);
    case SystemError =>
      OneNote([], BROKEN, text);
      assert [] + [Event(BROKEN)] == [Event(BROKEN)];
      NotesConcat(w, [Event(BROKEN)], text);
  }

  lemma CardNotes(cfg: Config, card: CardSeen, text: string)
    requires cfg.onCardEvent
    ensures Notes(CardCalls(cfg, card), text) ==
            if card.activation.status != OK && Refusal(card).text == text then [Refusal(card)] else []
  {
    hide Summary, ReportOf, ExchangesRaw, Notes;
    if card.activation.status == OK {
      NoNotes(CardCalls(cfg, card), text);
    } else {
      OneNote([Activate(false)], Refusal(card), text);
    }
  }

  function WarningsFor(its: seq<Iteration>): seq<CardEvent> {
    if its == [] then [] else (if its[0].rfError == 6 then [WARNED] else []) + WarningsFor(its[1..])
  }

  /** The cards whose activation failed, in order. */
  function CardsRefused(cfg: Config, s: LoopState, its: seq<Iteration>): seq<CardSeen>
    decreases |its|
  {
    if !Goes(cfg, s) || its == [] || its[0].stop then []
    else
      CardRefused(s, its[0])
      + match Body(cfg, s, its[0])
        case Fault(_) => []
        case Next(s', _) => CardsRefused(cfg, s', its[1..])
  }

  function RefusalsFor(cards: seq<CardSeen>): seq<CardEvent> {
    if cards == [] then [] else [Refusal(cards[0])] + RefusalsFor(cards[1..])
  }

  lemma {:induction false} WarningsFrom(cfg: Config, s: LoopState, its: seq<Iteration>)
    requires cfg.onCardEvent
    ensures var r := Loop(cfg, s, its);
            r.turns <= |its| && Notes(r.calls, WARNED.text) == WarningsFor(its[..r.turns])
    decreases |its|
  {
    hide Body, Notes, Acting;
    NoNotes([], WARNED.text);
    if Goes(cfg, s) && its != [] && !its[0].stop {
      ThreeTexts();
      BodyNotes(cfg, s, its[0], WARNED.text);
      match Body(cfg, s, its[0])
      case Fault(calls) =>
        assert its[..1][1..] == [];
      case Next(s', calls) =>
        var rest := Loop(cfg, s', its[1..]);
        WarningsFrom(cfg, s', its[1..]);
        NotesConcat(calls, rest.calls, WARNED.text);
        assert its[..rest.turns + 1][1..] == its[1..][..rest.turns];
    }
  }

  lemma {:induction false} FaultsFrom(cfg: Config, s: LoopState, its: seq<Iteration>)
    requires cfg.onCardEvent && s.phase != SystemError
    ensures var r := Loop(cfg, s, its);
            && Notes(r.calls, BROKEN.text) == (if r.Ended? && r.cause.Faulted? then [BROKEN] else [])
            && (r.Ended? && r.cause.Faulted? ==>
                  0 < r.turns <= |its| && its[r.turns - 1].systemOk && its[r.turns - 1].system != 0)
    decreases |its|
  {
    hide Notes;
    NoNotes([], BROKEN.text);
    if Goes(cfg, s) && its != [] && !its[0].stop {
      ThreeTexts();
      BodyNotes(cfg, s, its[0], BROKEN.text);
      FaultCause(cfg, s, its[0]);
      hide Body, Acting;
      match Body(cfg, s, its[0])
      case Fault(calls) =>
      case Next(s', calls) =>
        FaultsFrom(cfg, s', its[1..]);
        NotesConcat(calls, Loop(cfg, s', its[1..]).calls, BROKEN.text);
    }
  }

  lemma FaultCause(cfg: Config, s: LoopState, it: Iteration)
    requires Goes(cfg, s)
    ensures Body(cfg, s, it).Fault? ==> (it.systemOk && it.system != 0) || s.phase == SystemError
    ensures it.systemOk && it.system != 0 ==> Body(cfg, s, it).Fault?
    ensures Body(cfg, s, it).Next? ==> Body(cfg, s, it).s.phase != SystemError
  {
    hide CardCalls, Watchdog;
  }

  lemma {:induction false} RefusalsFrom(cfg: Config, s: LoopState, its: seq<Iteration>)
    requires cfg.onCardEvent
    ensures Notes(Loop(cfg, s, its).calls, "card activate failed") == RefusalsFor(CardsRefused(cfg, s, its))
    decreases |its|
  {
    var text := "card activate failed";
    assert forall card :: Refusal(card).text == text;
    hide Notes, Refusal, Body, Acting, CardRefused;
    NoNotes([], text);
    if Goes(cfg, s) && its != [] && !its[0].stop {
      ThreeTexts();
      BodyNotes(cfg, s, its[0], text);
      var t := Body(cfg, s, its[0]);
      RefusalsCons(s, its[0], if t.Fault? then [] else CardsRefused(cfg, t.s, its[1..]));
      match Body(cfg, s, its[0])
      case Fault(calls) =>
      case Next(s', calls) =>
        RefusalsFrom(cfg, s', its[1..]);
        NotesConcat(calls, Loop(cfg, s', its[1..]).calls, text);
    }
  }

  lemma RefusalsCons(s: LoopState, it: Iteration, rest: seq<CardSeen>)
    ensures RefusalsFor(CardRefused(s, it) + rest) ==
            (if CardRefused(s, it) != [] then [Refusal(it.card)] else []) + RefusalsFor(rest)
  {
    if CardRefused(s, it) == [] {
      assert CardRefused(s, it) + rest == rest;
    } else {
      assert (CardRefused(s, it) + rest)[1..] == rest;
    }
  }

  /** In every run: a warning is told for each turn made whose status byte says that
      the power amplifier's limiter acted, and for no other; the fault is told once
      if the run ends for a system error, which the last turn made has met, and not
      otherwise; and each activation that failed is told with its own status. */
  lemma OtherEvents(cfg: Config, its: seq<Iteration>)
    requires cfg.onCardEvent
    ensures var r := Loop(cfg, START, its);
            && r.turns <= |its|
            && Notes(r.calls, WARNED.text) == WarningsFor(its[..r.turns])
            && Notes(r.calls, BROKEN.text) == (if r.Ended? && r.cause.Faulted? then [BROKEN] else [])
            && (r.Ended? && r.cause.Faulted? ==>
                  0 < r.turns && its[r.turns - 1].systemOk && its[r.turns - 1].system != 0)
            && Notes(r.calls, "card activate failed") == RefusalsFor(CardsRefused(cfg, START, its))
  {
    hide Loop, CardsRefused, Notes, WarningsFor, RefusalsFor;
    WarningsFrom(cfg, START, its);
    FaultsFrom(cfg, START, its);
    RefusalsFrom(cfg, START, its);
  }
}
