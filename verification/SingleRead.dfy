/** The single-shot read and its retry wrapper, as functions of what they meet. */
module SingleRead {
  import opened Bytes
  import opened Status
  import opened CardInfoReader
  import opened CardResult
  import opened NdefRecord
  import opened ReaderTypes
  import opened AdapterTrace
  import CardWait

  /** What one attempt meets: the stop flag before and after the wait, the answer
      of the wait, and the card. */
  datatype Attempt = Attempt(stopBefore: bool, waitStatus: Status, disc: Disc, stopAfter: bool, card: CardSeen)

  /** What an attempt comes to; `report` is the result it fills in, if any. */
  datatype Tried = Tried(status: Status, report: Option<Report>, calls: seq<Call>)

  datatype Detected = Detected(status: Status, disc: Disc, calls: seq<Call>)

  function DetectWait(ms: uint32, a: Attempt): Detected {
    if a.stopBefore then Detected(OK, CardWait.NoCard, [])
    else
      var calls := [Wait(ms, a.waitStatus == OK, a.disc)];
      if a.waitStatus != OK then Detected(a.waitStatus, CardWait.NoCard, calls)
      else if a.disc != CardWait.NoCard then Detected(OK, a.disc, calls)
      else if a.stopAfter then Detected(OK, CardWait.NoCard, calls)
      else Detected(ErrTimeout, CardWait.NoCard, calls)
  }

  /** The result of a single-shot read of a card: no raw exchange is made. */
  function SingleReport(cfg: Config, card: CardSeen): Report {
    Report(card.activation.cardType, card.activation.protocol, card.activation.Uid(), InfoRead(cfg, card), None)
  }

  function TryOnce(cfg: Config, a: Attempt): (t: Tried)
    ensures t.report.Some? ==> t.status == OK
  {
    var d := DetectWait(cfg.timeoutMs, a);
    if d.status != OK then Tried(d.status, None, d.calls)
    else if a.stopBefore || a.stopAfter || d.disc == CardWait.NoCard then Tried(OK, None, d.calls)
    else if a.card.activation.status != OK then Tried(a.card.activation.status, None, d.calls + [Activate(false)])
    else
      Tried(OK, Some(SingleReport(cfg, a.card)),
            d.calls + [Activate(true)] + if cfg.readNdef then [ReadCard] else [])
  }

  /** When an attempt succeeds: a stop was seen before or behind the wait, or a
      card was found and activated. A wait that finds nothing times out; a wait or
      an activation that fails gives its own status. */
  lemma WhenAnAttemptSucceeds(cfg: Config, a: Attempt)
    ensures var t, found := TryOnce(cfg, a), a.disc in {CardWait.CardActive, CardWait.Running, CardWait.Done};
            && (t.status == OK <==>
                  || a.stopBefore
                  || (a.waitStatus == OK && (a.stopAfter || (found && a.card.activation.status == OK))))
            && (!a.stopBefore && a.waitStatus != OK ==> t.status == a.waitStatus)
            && (!a.stopBefore && a.waitStatus == OK && !a.stopAfter && !found ==> t.status == ErrTimeout)
            && (!a.stopBefore && a.waitStatus == OK && !a.stopAfter && found ==> t.status == a.card.activation.status)
  {
    hide SingleReport;
  }

  /** What it fills in: nothing without an activated card; else that card's type,
      protocol and first ten UID bytes, its message if asked for, and no raw
      exchange. */
  lemma WhatAnAttemptReports(cfg: Config, a: Attempt)
    ensures var t, card := TryOnce(cfg, a), a.card.activation;
            && (t.report.Some? <==> Activate(true) in t.calls)
            && (t.report.Some? ==>
                  var r := t.report.value;
                  && card.status == OK && r.cardType == card.cardType && r.protocol == card.protocol
                  && r.uid == (if |card.rawUid| <= 10 then card.rawUid else card.rawUid[..10])
                  && r.info == (if cfg.readNdef then InfoOf(card.protocol, a.card.env, cfg.maxNdefBytes).info
                                else Info(false, [], Decoded([], false), 0, false, None))
                  && r.raw == None)
            && (ReadCard in t.calls <==> t.report.Some? && cfg.readNdef)
  {
    hide InfoOf;
    UidClipped(a.card.activation);
  }

  // ----- Retry ------------------------------------------------------------

  datatype RetryRun =
    | Ended(status: Status, attempts: nat, report: Option<Report>, calls: seq<Call>)
    | Ongoing(attempts: nat, calls: seq<Call>)

  function Prepend(calls: seq<Call>, r: RetryRun): RetryRun {
    r.(calls := calls + r.calls, attempts := r.attempts + 1)
  }

  /** The counter is a uint8_t, so it is 0 again after 255. */
  function RetryFrom(cfg: Config, max: byte, attempt: byte, last: Status, given: seq<Attempt>): RetryRun
    decreases |given|
  {
    if attempt > max then Ended(last, 0, None, [])
    else if given == [] then Ongoing(0, [])
    else
      var t := TryOnce(cfg, given[0]);
      if t.status == OK then Ended(OK, 1, t.report, t.calls)
      else Prepend(t.calls + [Deactivate], RetryFrom(cfg, max, (attempt + 1) % 0x100, t.status, given[1..]))
  }

  function Retry(cfg: Config, max: byte, given: seq<Attempt>): RetryRun {
    RetryFrom(cfg, max, 0, ErrTimeout, given)
  }

  /** The first attempt that would succeed, or the number of those given. */
  function FirstSuccess(cfg: Config, given: seq<Attempt>): (k: nat)
    ensures k <= |given|
    ensures k < |given| ==> TryOnce(cfg, given[k]).status == OK
    ensures forall i :: 0 <= i < k ==> TryOnce(cfg, given[i]).status != OK
  {
    if given == [] then 0
    else if TryOnce(cfg, given[0]).status == OK then 0
    else
      var k := FirstSuccess(cfg, given[1..]);
      assert forall i :: 0 < i <= k ==> given[i] == given[1..][i - 1];
      1 + k
  }

  function Deactivations(t: seq<Call>): nat {
    if t == [] then 0 else (if t[0].Deactivate? then 1 else 0) + Deactivations(t[1..])
  }

  lemma {:induction false} DeactivationsConcat(a: seq<Call>, b: seq<Call>)
    ensures Deactivations(a + b) == Deactivations(a) + Deactivations(b)
    decreases |a|
  {
    if a == [] {
      assert a + b == b;
    } else {
      assert (a + b)[1..] == a[1..] + b;
      DeactivationsConcat(a[1..], b);
    }
  }

  lemma TryOnceDeactivations(cfg: Config, a: Attempt)
    ensures Deactivations(TryOnce(cfg, a).calls) == 0
  {
    hide SingleReport;
    var t := TryOnce(cfg, a).calls;
    var d := DetectWait(cfg.timeoutMs, a);
    assert Deactivations(d.calls) == 0;
    DeactivationsConcat(d.calls, [Activate(false)]);
    DeactivationsConcat(d.calls, [Activate(true)]);
    DeactivationsConcat(d.calls + [Activate(true)], if cfg.readNdef then [ReadCard] else []);
  }

  lemma FirstSuccessStep(cfg: Config, given: seq<Attempt>)
    requires given != []
    ensures FirstSuccess(cfg, given) ==
            if TryOnce(cfg, given[0]).status == OK then 0 else 1 + FirstSuccess(cfg, given[1..])
  {
    hide TryOnce;
  }

  lemma RetryStep(cfg: Config, max: byte, attempt: byte, last: Status, given: seq<Attempt>)
    requires attempt <= max && given != []
    ensures var t := TryOnce(cfg, given[0]);
            var r := RetryFrom(cfg, max, attempt, last, given);
            if t.status == OK then r == Ended(OK, 1, t.report, t.calls) && Deactivations(r.calls) == 0
            else
              var rest := RetryFrom(cfg, max, (attempt + 1) % 0x100, t.status, given[1..]);
              && r == Prepend(t.calls + [Deactivate], rest)
              && Deactivations(r.calls) == 1 + Deactivations(rest.calls)
  {
    var t := TryOnce(cfg, given[0]);
    TryOnceDeactivations(cfg, given[0]);
    hide TryOnce;
    if t.status != OK {
      var rest := RetryFrom(cfg, max, (attempt + 1) % 0x100, t.status, given[1..]);
      DeactivationsConcat(t.calls, [Deactivate]);
      DeactivationsConcat(t.calls + [Deactivate], rest.calls);
      assert Deactivations([Deactivate]) == 1;
    }
  }

  lemma RetryAtEnd(cfg: Config, max: byte, attempt: byte, last: Status, given: seq<Attempt>)
    requires attempt > max || given == []
    ensures RetryFrom(cfg, max, attempt, last, given) ==
            if attempt > max then Ended(last, 0, None, []) else Ongoing(0, [])
    ensures Deactivations([]) == 0
  {
  }

  lemma {:induction false} RetryBoundFrom(cfg: Config, max: byte, attempt: byte, last: Status, given: seq<Attempt>)
    requires max <= 254 && attempt <= max + 1
    ensures var left := max + 1 - attempt;
            var k := FirstSuccess(cfg, given);
            var r := RetryFrom(cfg, max, attempt, last, given);
            && Deactivations(r.calls) == Min(k, left)
            && if k < left && k < |given| then
                 r.Ended? && r.status == OK && r.attempts == k + 1
               else if left <= |given| then
                 && r.Ended? && r.attempts == left
                 && r.status == if left == 0 then last else TryOnce(cfg, given[left - 1]).status
               else r.Ongoing?
    decreases |given|
  {
    hide TryOnce, FirstSuccess, RetryFrom, Deactivations;
    if attempt > max || given == [] {
      RetryAtEnd(cfg, max, attempt, last, given);
    } else {
      FirstSuccessStep(cfg, given);
      RetryStep(cfg, max, attempt, last, given);
      var t := TryOnce(cfg, given[0]);
      if t.status != OK {
        RetryBoundFrom(cfg, max, attempt + 1, t.status, given[1..]);
      }
    }
  }

  /** Up to 254 retries: the wrapper stops at the first success, or after one
      attempt more than it may retry with the last one's status, and deactivates
      once for each failed attempt. */
  lemma RetryBound(cfg: Config, max: byte, given: seq<Attempt>)
    requires max <= 254
    ensures var k := FirstSuccess(cfg, given);
            var r := Retry(cfg, max, given);
            && Deactivations(r.calls) == Min(k, max + 1)
            && if k <= max && k < |given| then r.Ended? && r.status == OK && r.attempts == k + 1
               else if max < |given| then
                 r.Ended? && r.attempts == max + 1 && r.status == TryOnce(cfg, given[max]).status
               else r.Ongoing?
  {
    RetryBoundFrom(cfg, max, 0, ErrTimeout, given);
  }

  lemma {:induction false} RetryWithoutEnd(cfg: Config, attempt: byte, last: Status, given: seq<Attempt>)
    requires FirstSuccess(cfg, given) == |given|
    ensures RetryFrom(cfg, 255, attempt, last, given).Ongoing?
    decreases |given|
  {
    hide TryOnce;
    if given != [] {
      RetryWithoutEnd(cfg, (attempt + 1) % 0x100, TryOnce(cfg, given[0]).status, given[1..]);
    }
  }

  ghost predicate AlwaysGivesUp(cfg: Config, max: byte) {
    forall given :: FirstSuccess(cfg, given) == |given| && |given| > max ==> Retry(cfg, max, given).Ended?
  }

  lemma RetriesForever(cfg: Config)
    ensures !AlwaysGivesUp(cfg, 255)
  {
    var failing := Attempt(false, ErrInternal, CardWait.NoCard, false, MUTE_CARD);
    assert TryOnce(cfg, failing).status == ErrInternal;
    hide TryOnce, RetryFrom, FirstSuccess;
    var given := seq(256, i => failing);
    AllFail(cfg, failing, given);
    RetryWithoutEnd(cfg, 0, ErrTimeout, given);
    assert !Retry(cfg, 255, given).Ended?;
  }

  lemma RetriesGiveOut(cfg: Config, max: byte)
    requires max <= 254
    ensures AlwaysGivesUp(cfg, max)
  {
    hide TryOnce, RetryFrom, FirstSuccess, Retry, Deactivations;
    forall given | FirstSuccess(cfg, given) == |given| && |given| > max
      ensures Retry(cfg, max, given).Ended?
    {
      RetryBound(cfg, max, given);
    }
  }

  /** The one retry count left over: with 255 the counter never passes the limit
      and the wrapper retries for ever. */
  lemma GivesUpBelow255(cfg: Config, max: byte)
    ensures AlwaysGivesUp(cfg, max) <==> max <= 254
  {
    hide AlwaysGivesUp;
    if max <= 254 {
      RetriesGiveOut(cfg, max);
    } else {
      RetriesForever(cfg);
    }
  }

  /** An attempt that begins with the stop flag set asks nothing of the adapter
      and succeeds with nothing read. So a stop before attempt `k` ends the retried
      read there: unless it has ended already, it returns RS_OK with just the calls
      of the attempts before. */
  lemma {:induction false} StopEndsRetry(cfg: Config, max: byte, attempt: byte, last: Status,
                                         given: seq<Attempt>, k: nat)
    requires k < |given| && given[k].stopBefore
    ensures TryOnce(cfg, given[k]) == Tried(OK, None, [])
    ensures var r, before := RetryFrom(cfg, max, attempt, last, given), RetryFrom(cfg, max, attempt, last, given[..k]);
            && r.attempts <= k + 1
            && match before
               case Ended(_, _, _, _) => r == before
               case Ongoing(n, calls) => n == k && r == Ended(OK, k + 1, None, calls)
    decreases |given|
  {
    assert TryOnce(cfg, given[k]) == Tried(OK, None, []);
    hide TryOnce;
    if k > 0 && attempt <= max {
      assert given[..k][0] == given[0] && given[..k][1..] == given[1..][..k - 1];
      var t := TryOnce(cfg, given[0]);
      if t.status != OK {
        StopEndsRetry(cfg, max, (attempt + 1) % 0x100, t.status, given[1..], k - 1);
      }
    }
  }

  lemma {:induction false} AllFail(cfg: Config, a: Attempt, given: seq<Attempt>)
    requires TryOnce(cfg, a).status != OK && forall i :: 0 <= i < |given| ==> given[i] == a
    ensures FirstSuccess(cfg, given) == |given|
    decreases |given|
  {
    if given != [] {
      AllFail(cfg, a, given[1..]);
    }
  }

  // ----- Order of adapter calls -------------------------------------------

  lemma TryOnceScans(cfg: Config, a: Attempt)
    ensures !ScanAll(true, Idle, TryOnce(cfg, a).calls).Wrong?
  {
    hide SingleReport;
    var w := Wait(cfg.timeoutMs, a.waitStatus == OK, a.disc);
    assert ScanAll(true, Idle, []) == Idle;
    ScanSnoc(true, Idle, [], w);
    ScanSnoc(true, Idle, [w], Activate(false));
    ScanSnoc(true, Idle, [w], Activate(true));
    ScanSnoc(true, Idle, [w] + [Activate(true)], ReadCard);
    assert [] + [w] == [w];
    assert [w] + [Activate(true)] + [] == [w] + [Activate(true)];
  }

  lemma ScanSnoc(l: bool, s: Scan, t: seq<Call>, c: Call)
    ensures ScanAll(l, s, t + [c]) == ScanStep(l, ScanAll(l, s, t), c)
  {
    assert (t + [c])[..|t|] == t;
  }

  lemma {:induction false} RetryScans(cfg: Config, max: byte, attempt: byte, last: Status, given: seq<Attempt>)
    ensures !ScanAll(true, Idle, RetryFrom(cfg, max, attempt, last, given).calls).Wrong?
    decreases |given|
  {
    hide TryOnce;
    if attempt <= max && given != [] {
      var t := TryOnce(cfg, given[0]);
      TryOnceScans(cfg, given[0]);
      if t.status != OK {
        var rest := RetryFrom(cfg, max, (attempt + 1) % 0x100, t.status, given[1..]);
        RetryScans(cfg, max, (attempt + 1) % 0x100, t.status, given[1..]);
        ScanSnoc(true, Idle, t.calls, Deactivate);
        ScanConcat(true, Idle, t.calls + [Deactivate], rest.calls);
      }
    }
  }
}
