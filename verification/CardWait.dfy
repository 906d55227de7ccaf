/**
 * The interrupt-driven wait for a card: how long it may block, in the modular
 * tick arithmetic of the target, and who owns the interrupt callback meanwhile.
 */
module CardWait {
  import opened Bytes
  import opened Status

  /** portMAX_DELAY: block without limit. */
  const MAX_DELAY: uint32 := 0xFFFF_FFFF

  /** Discovery states as the adapter reports them. */
  datatype Disc = NoCard | CardActive | Running | Done

  /** One turn of the wait: ticks it would block for, ticks spent otherwise until
      the counter is read again, and what the discovery status read gives. */
  datatype Wake = Wake(blocked: nat, busy: nat, statusOk: bool, disc: Disc)

  // ----- The loop as a function of what happens ---------------------------

  /** Blocked in the loop: ticks asked for, true ticks since the start, and how
      many of them were spent blocked. */
  datatype Waiting = Waiting(remaining: uint32, total: nat, blocked: nat)

  datatype Outcome =
    | Blocked(w: Waiting)
    | Returned(status: Status, disc: Disc, total: nat, blocked: nat)

  /** The kernel ends the block no later than asked, if a limit was asked for. */
  function TicksBlocked(w: Wake, remaining: uint32): nat {
    if remaining == MAX_DELAY then w.blocked else Min(w.blocked, remaining)
  }

  function Elapsed(total: nat): uint32 {
    total % 0x1_0000_0000
  }

  /** One turn; `budget` is the timeout in ticks. */
  function Turn(budget: uint32, s: Waiting, w: Wake): Outcome {
    var b := TicksBlocked(w, s.remaining);
    var total, blocked := s.total + b + w.busy, s.blocked + b;
    if !w.statusOk then Returned(ErrInternal, NoCard, total, blocked)
    else if w.disc != NoCard then Returned(OK, w.disc, total, blocked)
    else if Elapsed(total) >= s.remaining then Returned(OK, NoCard, total, blocked)
    else Blocked(Waiting(Sub32(budget, Elapsed(total)), total, blocked))
  }

  /** A run of the loop while `script` lasts; it may still be blocked then. */
  function Run(budget: uint32, s: Waiting, script: seq<Wake>): Outcome
    decreases |script|
  {
    if script == [] then Blocked(s)
    else
      match Turn(budget, s, script[0])
      case Blocked(s') => Run(budget, s', script[1..])
      case Returned(st, d, t, b) => Returned(st, d, t, b)
  }

  function First(forever: bool, budget: uint32): Waiting {
    Waiting(if forever then MAX_DELAY else budget, 0, 0)
  }

  // ----- Subtraction of elapsed ticks --------------------------------------

  /** Where the tick arithmetic is that of the integers. */
  lemma NoWrap(total: nat, a: uint32, b: uint32)
    ensures total < 0x1_0000_0000 ==> Elapsed(total) == total
    ensures b <= a ==> Sub32(a, b) == a - b
  {
  }

  /** Some turn subtracts more elapsed ticks than the timeout has. */
  predicate Underflows(budget: uint32, s: Waiting, script: seq<Wake>)
    decreases |script|
  {
    && script != []
    && match Turn(budget, s, script[0])
       case Returned(_, _, _, _) => false
       case Blocked(s') => Elapsed(s'.total) > budget || Underflows(budget, s', script[1..])
  }

  ghost predicate NeverUnderflows(budget: uint32, s: Waiting) {
    forall script :: !Underflows(budget, s, script)
  }

  lemma {:induction false} NoUnderflow(budget: uint32, s: Waiting, script: seq<Wake>)
    requires s.remaining <= budget || budget >= MAX_DELAY - 1
    ensures !Underflows(budget, s, script)
    decreases |script|
  {
    if script != [] && Turn(budget, s, script[0]).Blocked? {
      NoUnderflow(budget, Turn(budget, s, script[0]).w, script[1..]);
    }
  }

  /** For every finite timeout, every sequence of wake-ups and whatever time they
      take, the remaining time never underflows. */
  lemma RemainingNeverUnderflows(budget: uint32)
    ensures NeverUnderflows(budget, First(false, budget))
  {
    forall script ensures !Underflows(budget, First(false, budget), script) {
      NoUnderflow(budget, First(false, budget), script);
    }
  }

  /** A wait without limit: its first turn asks for MAX_DELAY while later ones
      count down from the converted UINT32_MAX milliseconds. They underflow in
      some run unless that conversion gives the largest delay or one less. */
  lemma ForeverUnderflow(budget: uint32)
    ensures NeverUnderflows(budget, First(true, budget)) <==> budget >= 0xFFFF_FFFE
  {
    var s := First(true, budget);
    if budget < MAX_DELAY - 1 {
      var w := Wake(budget + 1, 0, true, NoCard);
      NoWrap(budget + 1, 0, 0);
      hide Elapsed, Sub32;
      assert Turn(budget, s, w).Blocked?;
      assert [w][0] == w;
      assert Underflows(budget, s, [w]);
    } else {
      forall script ensures !Underflows(budget, s, script) {
        NoUnderflow(budget, s, script);
      }
    }
  }

  // ----- How long it blocks -----------------------------------------------

  /** No turn keeps the processor so long that the counter comes round. */
  ghost predicate Timely(budget: uint32, script: seq<Wake>) {
    forall i :: 0 <= i < |script| ==> script[i].busy + budget < TWO_TO_32
  }

  ghost predicate WithinBudget(budget: uint32, s: Waiting) {
    s.total <= budget && s.remaining == budget - s.total && s.blocked <= s.total
  }

  predicate NoCardAnswer(o: Outcome) {
    o.Returned? && o.status == OK && o.disc == NoCard
  }

  predicate CardLess(w: Wake) { w.statusOk && w.disc == NoCard }

  function TotalAfter(s: Waiting, w: Wake): nat {
    s.total + TicksBlocked(w, s.remaining) + w.busy
  }

  /** A wake-up without a card ends the wait exactly when the times before and
      after it add up to the timeout: what is compared with the time that was
      left is not the time since then but all of it. */
  lemma CardLessTurn(budget: uint32, s: Waiting, w: Wake)
    requires WithinBudget(budget, s) && CardLess(w) && TotalAfter(s, w) < TWO_TO_32
    ensures var t, b := TotalAfter(s, w), s.blocked + TicksBlocked(w, s.remaining);
            Turn(budget, s, w) ==
            if s.total + t >= budget then Returned(OK, NoCard, t, b) else Blocked(Waiting(budget - t, t, b))
  {
    hide Elapsed, Sub32, TicksBlocked;
    var t := TotalAfter(s, w);
    NoWrap(t, 0, 0);
    if s.total + t < budget {
      NoWrap(t, budget, t);
    }
  }

  lemma {:induction false} BudgetFrom(budget: uint32, s: Waiting, script: seq<Wake>)
    requires budget < MAX_DELAY && WithinBudget(budget, s) && Timely(budget, script)
    ensures match Run(budget, s, script)
            case Blocked(e) => WithinBudget(budget, e)
            case Returned(_, _, _, blocked) => blocked <= budget
    decreases |script|
  {
    if script != [] {
      var w := script[0];
      assert w.busy + budget < TWO_TO_32;
      if CardLess(w) {
        CardLessTurn(budget, s, w);
      }
      hide Elapsed, Sub32;
      match Turn(budget, s, w)
      case Blocked(s') => BudgetFrom(budget, s', script[1..]);
      case Returned(_, _, _, _) =>
    }
  }

  lemma {:induction false} HalfTimeFrom(budget: uint32, s: Waiting, script: seq<Wake>)
    requires WithinBudget(budget, s) || s.total >= TWO_TO_32
    ensures var o := Run(budget, s, script); NoCardAnswer(o) ==> 2 * o.total >= budget
    decreases |script|
  {
    if script != [] {
      var w := script[0];
      if CardLess(w) && s.total < TWO_TO_32 && TotalAfter(s, w) < TWO_TO_32 {
        CardLessTurn(budget, s, w);
      }
      hide Elapsed, Sub32;
      if Turn(budget, s, w).Blocked? {
        HalfTimeFrom(budget, Turn(budget, s, w).w, script[1..]);
      }
    }
  }

  /** For every finite timeout and every sequence of wake-ups, a "no card" answer
      comes after half of the timeout at the earliest; and the ticks spent blocked
      never exceed the timeout, provided that no turn brings the counter round. */
  lemma WaitBudget(budget: uint32, script: seq<Wake>)
    ensures var o := Run(budget, First(false, budget), script);
            && (NoCardAnswer(o) ==> 2 * o.total >= budget)
            && (budget < MAX_DELAY && Timely(budget, script) ==>
                  match o
                  case Blocked(s) => s.remaining + s.total == budget && s.blocked <= budget
                  case Returned(_, _, _, blocked) => blocked <= budget)
    ensures !Underflows(budget, First(false, budget), script)
  {
    RemainingNeverUnderflows(budget);
    HalfTimeFrom(budget, First(false, budget), script);
    if budget < MAX_DELAY && Timely(budget, script) {
      BudgetFrom(budget, First(false, budget), script);
    }
  }

  function TicksSpentBlocked(o: Outcome): nat {
    match o
    case Blocked(s) => s.blocked
    case Returned(_, _, _, blocked) => blocked
  }

  ghost predicate BusyAtMost(busiest: nat, script: seq<Wake>) {
    forall i :: 0 <= i < |script| ==> script[i].busy <= busiest
  }

  ghost predicate NeverOverBudget(budget: uint32, busiest: nat) {
    forall script :: BusyAtMost(busiest, script) ==>
      TicksSpentBlocked(Run(budget, First(false, budget), script)) <= budget
  }

  /** The bound on blocking is as good as the bound on the time between: it holds
      in every run exactly when a turn's other work cannot bring the counter
      round within one timeout. */
  lemma BlockingBound(budget: uint32, busiest: nat)
    requires 0 < budget < MAX_DELAY
    ensures NeverOverBudget(budget, busiest) <==> busiest + budget < TWO_TO_32
  {
    if busiest + budget < TWO_TO_32 {
      forall script | BusyAtMost(busiest, script)
        ensures TicksSpentBlocked(Run(budget, First(false, budget), script)) <= budget
      {
        WaitBudget(budget, script);
      }
    } else {
      var slow, again := Wake(budget, TWO_TO_32 - budget, true, NoCard), Wake(1, 0, true, NoCard);
      var script, s := [slow, again], First(false, budget);
      assert Elapsed(TWO_TO_32) == 0 && Elapsed(TWO_TO_32 + 1) == 1;
      assert Sub32(budget, 0) == budget;
      hide Elapsed, Sub32;
      var s' := Waiting(budget, TWO_TO_32, budget);
      assert Turn(budget, s, slow) == Blocked(s');
      assert TicksSpentBlocked(Turn(budget, s', again)) == budget + 1;
      assert script[1..] == [again] && [again][1..] == [];
      assert Run(budget, s, script) == Run(budget, s', [again]) == Turn(budget, s', again);
      assert TicksSpentBlocked(Run(budget, s, script)) == budget + 1;
      assert BusyAtMost(busiest, script);
    }
  }

  // ----- When a wait ends without a card ----------------------------------

  /** The ticks since the start when the `k`-th wake-up has been dealt with, in a
      wait that goes on until then, and those it next blocks for at most. */
  function TimeAt(forever: bool, budget: uint32, script: seq<Wake>, k: nat): nat
    requires k <= |script|
    decreases k, 0
  {
    if k == 0 then 0
    else
      TimeAt(forever, budget, script, k - 1)
      + TicksBlocked(script[k - 1], RemainingAt(forever, budget, script, k - 1)) + script[k - 1].busy
  }

  function RemainingAt(forever: bool, budget: uint32, script: seq<Wake>, k: nat): uint32
    requires k <= |script|
    decreases k, 1
  {
    if k == 0 then First(forever, budget).remaining
    else Sub32(budget, Elapsed(TimeAt(forever, budget, script, k)))
  }

  /** The `k`-th wake-up has no card and comes too late for another turn. */
  predicate RunsOut(forever: bool, budget: uint32, script: seq<Wake>, k: nat)
    requires k < |script|
  {
    CardLess(script[k]) && Elapsed(TimeAt(forever, budget, script, k + 1)) >= RemainingAt(forever, budget, script, k)
  }

  /** ... as the first one to end the wait; all before had no card either. */
  ghost predicate RunsOutFirst(forever: bool, budget: uint32, script: seq<Wake>, k: nat) {
    && k < |script| && RunsOut(forever, budget, script, k)
    && forall j: nat :: j < k ==> CardLess(script[j]) && !RunsOut(forever, budget, script, j)
  }

  /** Still waiting at the `k`-th wake-up. */
  ghost predicate WaitsAt(forever: bool, budget: uint32, script: seq<Wake>, k: nat, s: Waiting) {
    && k <= |script|
    && s.total == TimeAt(forever, budget, script, k) && s.remaining == RemainingAt(forever, budget, script, k)
    && forall j: nat :: j < k ==> CardLess(script[j]) && !RunsOut(forever, budget, script, j)
  }

  lemma WaitsOn(forever: bool, budget: uint32, script: seq<Wake>, k: nat, s: Waiting)
    requires k < |script| && WaitsAt(forever, budget, script, k, s)
    ensures match Turn(budget, s, script[k])
            case Blocked(s') => WaitsAt(forever, budget, script, k + 1, s') && !RunsOut(forever, budget, script, k)
            case Returned(st, d, total, _) =>
              && total == TimeAt(forever, budget, script, k + 1)
              && (st == OK && d == NoCard <==> RunsOut(forever, budget, script, k))
              && (st == OK && d == NoCard <==> CardLess(script[k]))
  {
    hide Elapsed, Sub32, TicksBlocked;
  }

  lemma {:induction false} NoCardAnswerFrom(forever: bool, budget: uint32, script: seq<Wake>, k: nat, s: Waiting)
    requires WaitsAt(forever, budget, script, k, s)
    ensures var o := Run(budget, s, script[k..]);
            && (NoCardAnswer(o) <==> exists j :: RunsOutFirst(forever, budget, script, j))
            && forall j: nat :: RunsOutFirst(forever, budget, script, j) ==>
                 o.Returned? && o.total == TimeAt(forever, budget, script, j + 1)
    decreases |script| - k
  {
    hide Turn, TimeAt, RemainingAt, RunsOut;
    if k < |script| {
      WaitsOn(forever, budget, script, k, s);
      assert script[k..][1..] == script[k + 1..];
      match Turn(budget, s, script[k])
      case Blocked(s') =>
        NoCardAnswerFrom(forever, budget, script, k + 1, s');
      case Returned(st, d, total, b) =>
        assert Run(budget, s, script[k..]) == Returned(st, d, total, b);
        if RunsOut(forever, budget, script, k) {
          assert RunsOutFirst(forever, budget, script, k);
        }
    }
  }

  /** In every run, with or without limit and whatever the counter does: the wait
      answers "no card" exactly when some wake-up comes too late, and then at the
      time of the first one. */
  lemma WhenNoCard(forever: bool, budget: uint32, script: seq<Wake>)
    ensures var o := Run(budget, First(forever, budget), script);
            && (NoCardAnswer(o) <==> exists k :: RunsOutFirst(forever, budget, script, k))
            && forall k: nat :: RunsOutFirst(forever, budget, script, k) ==>
                 o.Returned? && o.total == TimeAt(forever, budget, script, k + 1)
  {
    assert script[0..] == script;
    NoCardAnswerFrom(forever, budget, script, 0, First(forever, budget));
  }

  // ----- What a wait returns ------------------------------------------------

  /** The wait goes on to the `k`-th wake-up: none before has ended it. */
  ghost predicate LastsUntil(forever: bool, budget: uint32, script: seq<Wake>, k: nat) {
    && k <= |script|
    && forall j: nat :: j < k ==> CardLess(script[j]) && !RunsOut(forever, budget, script, j)
  }

  /** ... which ends it with discovery state `d`. */
  ghost predicate Discovers(forever: bool, budget: uint32, script: seq<Wake>, k: nat, d: Disc) {
    k < |script| && LastsUntil(forever, budget, script, k) && script[k].statusOk && script[k].disc == d && d != NoCard
  }

  /** ... at which the discovery state cannot be read. */
  ghost predicate Fails(forever: bool, budget: uint32, script: seq<Wake>, k: nat) {
    k < |script| && LastsUntil(forever, budget, script, k) && !script[k].statusOk
  }

  lemma {:induction false} AnswerFrom(forever: bool, budget: uint32, script: seq<Wake>, k: nat, s: Waiting, d: Disc)
    requires WaitsAt(forever, budget, script, k, s) && d != NoCard
    ensures var o := Run(budget, s, script[k..]);
            && (o.Returned? && o.status == OK && o.disc == d
                <==> exists j: nat :: Discovers(forever, budget, script, j, d))
            && (o.Returned? && o.status != OK <==> exists j: nat :: Fails(forever, budget, script, j))
            && (o.Returned? && o.status != OK ==> o.status == ErrInternal && o.disc == NoCard)
            && (o.Blocked? <==> LastsUntil(forever, budget, script, |script|))
    decreases |script| - k
  {
    hide Turn, TimeAt, RemainingAt, RunsOut;
    if k < |script| {
      WaitsOn(forever, budget, script, k, s);
      TurnAnswer(budget, s, script[k]);
      assert script[k..][1..] == script[k + 1..];
      match Turn(budget, s, script[k])
      case Blocked(s') =>
        AnswerFrom(forever, budget, script, k + 1, s', d);
      case Returned(st, d', total, b) =>
        assert Run(budget, s, script[k..]) == Returned(st, d', total, b);
        assert LastsUntil(forever, budget, script, k);
        if st == OK && d' == d {
          assert Discovers(forever, budget, script, k, d);
        } else if st != OK {
          assert Fails(forever, budget, script, k);
        }
    }
  }

  lemma TurnAnswer(budget: uint32, s: Waiting, w: Wake)
    ensures match Turn(budget, s, w)
            case Blocked(_) => CardLess(w)
            case Returned(st, d, _, _) =>
              && (st != OK <==> !w.statusOk) && (st != OK ==> st == ErrInternal && d == NoCard)
              && (st == OK ==> d == w.disc)
  {
  }

  /** In every run, with or without limit: the wait returns a discovery state
      other than "no card" exactly if that is what the first wake-up read that did
      not find "no card", with none before too late; it returns RS_ERR_INTERNAL
      exactly if that wake-up could not read it; and it waits on exactly if there
      is no such wake-up and none too late. */
  lemma WhatTheWaitReturns(forever: bool, budget: uint32, script: seq<Wake>, d: Disc)
    requires d != NoCard
    ensures var o := Run(budget, First(forever, budget), script);
            && (o.Returned? && o.status == OK && o.disc == d
                <==> exists k: nat :: Discovers(forever, budget, script, k, d))
            && (o.Returned? && o.status != OK <==> exists k: nat :: Fails(forever, budget, script, k))
            && (o.Returned? && o.status != OK ==> o.status == ErrInternal && o.disc == NoCard)
            && (o.Blocked? <==> LastsUntil(forever, budget, script, |script|))
  {
    assert script[0..] == script;
    AnswerFrom(forever, budget, script, 0, First(forever, budget), d);
  }

  // ----- ... and how early --------------------------------------------------

  lemma {:induction false} TimeGrows(forever: bool, budget: uint32, script: seq<Wake>, j: nat, k: nat)
    requires j <= k <= |script|
    ensures TimeAt(forever, budget, script, j) <= TimeAt(forever, budget, script, k)
    decreases k
  {
    if j < k {
      TimeGrows(forever, budget, script, j, k - 1);
    }
  }

  /** Coming too late, with a limit: the times of two wake-ups in a row add up to
      the timeout. */
  lemma RunsOutWithin(budget: uint32, script: seq<Wake>, k: nat)
    requires k < |script|
    requires TimeAt(false, budget, script, k) <= budget && TimeAt(false, budget, script, k + 1) < TWO_TO_32
    ensures RunsOut(false, budget, script, k) <==>
            CardLess(script[k]) && TimeAt(false, budget, script, k) + TimeAt(false, budget, script, k + 1) >= budget
  {
    var t, t' := TimeAt(false, budget, script, k), TimeAt(false, budget, script, k + 1);
    NoWrap(t, budget, t);
    assert RemainingAt(false, budget, script, k) == budget - t;
    NoWrap(t', 0, 0);
  }

  /** Two card-less wake-ups in a row, the first perhaps the start, before the
      timeout but adding up to it. */
  ghost predicate AddUpEarly(budget: uint32, script: seq<Wake>, k: nat) {
    && k < |script| && (forall j: nat :: j <= k ==> CardLess(script[j]))
    && TimeAt(false, budget, script, k + 1) < budget
    && TimeAt(false, budget, script, k) + TimeAt(false, budget, script, k + 1) >= budget
  }

  lemma {:induction false} FirstOfThem(budget: uint32, script: seq<Wake>, k: nat) returns (first: nat)
    requires AddUpEarly(budget, script, k)
    ensures first <= k && RunsOutFirst(false, budget, script, first)
    ensures TimeAt(false, budget, script, first + 1) < budget
    decreases k
  {
    TimeGrows(false, budget, script, k, k + 1);
    RunsOutWithin(budget, script, k);
    if j: nat :| j < k && RunsOut(false, budget, script, j) {
      TimeGrows(false, budget, script, j, k);
      TimeGrows(false, budget, script, j + 1, k);
      RunsOutWithin(budget, script, j);
      hide TimeAt, RunsOut;
      first := FirstOfThem(budget, script, j);
    } else {
      first := k;
    }
  }

  /** Exactly then the wait answers "no card" before its timeout is over. */
  lemma WhenNoCardIsEarly(budget: uint32, script: seq<Wake>)
    ensures var o := Run(budget, First(false, budget), script);
            NoCardAnswer(o) && o.total < budget <==> exists k :: AddUpEarly(budget, script, k)
  {
    hide TimeAt, RunsOut, Run;
    WhenNoCard(false, budget, script);
    var o := Run(budget, First(false, budget), script);
    if NoCardAnswer(o) && o.total < budget {
      var k: nat :| RunsOutFirst(false, budget, script, k);
      TimeGrows(false, budget, script, k, k + 1);
      RunsOutWithin(budget, script, k);
      EarlierCardLess(budget, script, k);
      assert AddUpEarly(budget, script, k);
    }
    if k: nat :| AddUpEarly(budget, script, k) {
      var first := FirstOfThem(budget, script, k);
      assert RunsOutFirst(false, budget, script, first);
    }
  }

  lemma EarlierCardLess(budget: uint32, script: seq<Wake>, k: nat)
    requires RunsOutFirst(false, budget, script, k)
    ensures forall j: nat :: j <= k ==> CardLess(script[j])
  {
    hide TimeAt, RemainingAt;
  }

  ghost predicate WaitsFully(budget: uint32) {
    forall script ::
      var o := Run(budget, First(false, budget), script);
      NoCardAnswer(o) ==> o.total >= budget
  }

  /** A notification without a card behind it, and no time passed. */
  const FALSE_ALARM := Wake(0, 0, true, NoCard)

  /** It can come as early as half of the timeout: one card-less wake-up then and
      another right behind it end the wait. */
  lemma TimeoutAfterHalf(budget: uint32)
    requires 2 <= budget
    ensures exists script: seq<Wake> ::
              && BusyAtMost(0, script)
              && Run(budget, First(false, budget), script) == Returned(OK, NoCard, (budget + 1) / 2, (budget + 1) / 2)
  {
    hide Turn, Elapsed, Sub32;
    var half := (budget + 1) / 2;
    assert half < budget <= half + half;
    var first := Wake(half, 0, true, NoCard);
    var script := [first, FALSE_ALARM];
    var s := First(false, budget);
    var s' := Waiting(budget - half, half, half);
    assert TotalAfter(s, first) == half && TotalAfter(s', FALSE_ALARM) == half;
    CardLessTurn(budget, s, first);
    CardLessTurn(budget, s', FALSE_ALARM);
    assert script[1..] == [FALSE_ALARM] && [FALSE_ALARM][1..] == [];
    assert Run(budget, s, script) == Run(budget, s', [FALSE_ALARM]);
    assert BusyAtMost(0, script);
  }

  /** So every "no card" comes after the whole timeout only for timeouts of one
      tick at most. */
  lemma FullWaitNeedsOneTick(budget: uint32)
    ensures WaitsFully(budget) <==> budget <= 1
  {
    hide Run;
    if budget <= 1 {
      forall script
        ensures var o := Run(budget, First(false, budget), script); NoCardAnswer(o) ==> o.total >= budget
      {
        WaitBudget(budget, script);
      }
    } else {
      TimeoutAfterHalf(budget);
      var half := (budget + 1) / 2;
      var script :| Run(budget, First(false, budget), script) == Returned(OK, NoCard, half, half);
      assert NoCardAnswer(Run(budget, First(false, budget), script)) && half < budget;
    }
  }

  // ----- What waking a task does ------------------------------------------

  function BlockedTime(script: seq<Wake>): nat {
    if script == [] then 0 else script[0].blocked + BlockedTime(script[1..])
  }

  function BusyTime(script: seq<Wake>): nat {
    if script == [] then 0 else script[0].busy + BusyTime(script[1..])
  }

  function TimeSpent(script: seq<Wake>): nat {
    BlockedTime(script) + BusyTime(script)
  }

  ghost predicate AllCardLess(script: seq<Wake>) {
    forall i :: 0 <= i < |script| ==> CardLess(script[i])
  }

  /** Being woken is no reason to return: however often the task is notified, by
      an interrupt or by a stop request, the wait is back to blocking, as long as
      the reader reports no card and less than half of the timeout is over. */
  lemma {:induction false} WakingDoesNotEndTheWait(budget: uint32, s: Waiting, script: seq<Wake>)
    requires WithinBudget(budget, s) && AllCardLess(script)
    requires 2 * (s.total + TimeSpent(script)) < budget
    ensures var t := s.total + TimeSpent(script);
            Run(budget, s, script) == Blocked(Waiting(budget - t, t, s.blocked + BlockedTime(script)))
    decreases |script|
  {
    hide Turn;
    if script != [] {
      var w := script[0];
      assert TicksBlocked(w, s.remaining) == w.blocked;
      CardLessTurn(budget, s, w);
      WakingDoesNotEndTheWait(budget, Turn(budget, s, w).w, script[1..]);
    }
  }

  /** A stop request is such a notification: it ends the wait exactly if half of
      the timeout is over. */
  lemma NotificationEndsTheWait(budget: uint32, s: Waiting)
    requires WithinBudget(budget, s)
    ensures Turn(budget, s, FALSE_ALARM).Returned? <==> 2 * s.total >= budget
  {
    hide Turn;
    CardLessTurn(budget, s, FALSE_ALARM);
  }

  /** A wait without limit returns from its first card-less wake-up exactly if the
      counter then shows MAX_DELAY ticks. */
  lemma ForeverFirstTurn(budget: uint32, w: Wake)
    requires CardLess(w)
    ensures var t := w.blocked + w.busy;
            Turn(budget, First(true, budget), w) ==
            if Elapsed(t) == 0xFFFF_FFFF then Returned(OK, NoCard, t, w.blocked)
            else Blocked(Waiting(Sub32(budget, Elapsed(t)), t, w.blocked))
  {
    hide Sub32;
  }

  /** So a stop request alone does not end a wait without limit either: its
      notification wakes the task, which blocks again, until half of the ticks
      are over that the limit converts to. */
  lemma ForeverWaitOutlastsNotifications(budget: uint32, script: seq<Wake>)
    requires AllCardLess(script) && 2 * TimeSpent(script) < budget
    ensures var t := TimeSpent(script);
            Run(budget, First(true, budget), script) ==
            Blocked(if script == [] then First(true, budget) else Waiting(budget - t, t, BlockedTime(script)))
  {
    hide Turn, Elapsed, Sub32;
    if script != [] {
      var w, rest := script[0], script[1..];
      var t := w.blocked + w.busy;
      NoWrap(t, budget, t);
      ForeverFirstTurn(budget, w);
      var s := Waiting(budget - t, t, w.blocked);
      WakingDoesNotEndTheWait(budget, s, rest);
    }
  }

  // ----- Who owns the interrupt callback ----------------------------------

  type Task = nat

  /** The callback installed on the reader's interrupt line. */
  datatype Handler = SdkHandler | WakeHandler

  datatype Op = NameTask | SetHandler | Drain | Block | ReadDiscovery | ReadSystem

  /** What was in force when something was done. */
  datatype Moment = Moment(op: Op, handler: Handler, waiting: Option<Task>)

  /** The rule: the wake callback finds a task to wake, the task blocks with it
      in place, and the SDK is asked only with its own callback in place. */
  predicate WellOwned(m: Moment, me: Task) {
    && (m.handler == WakeHandler ==> m.waiting == Some(me))
    && (m.op == Block ==> m.handler == WakeHandler)
    && (m.op in {ReadDiscovery, ReadSystem} ==> m.handler == SdkHandler)
  }

  class WaitDriver {
    var waitingTask: Option<Task>
    var handler: Handler
    var tick: uint32
    ghost var log: seq<Moment>

    constructor (tick: uint32)
      ensures waitingTask == None && handler == SdkHandler && this.tick == tick && log == []
    {
      waitingTask, handler, this.tick, log := None, SdkHandler, tick, [];
    }

    ghost predicate Idle()
      reads this
    {
      waitingTask == None && handler == SdkHandler
    }

    ghost method Note(op: Op)
      modifies `log
      ensures log == old(log) + [Moment(op, handler, waitingTask)]
    {
      log := log + [Moment(op, handler, waitingTask)];
    }

    method Install(h: Handler)
      modifies `handler, `log
      ensures handler == h && log == old(log) + [Moment(SetHandler, h, waitingTask)]
    {
      handler := h;
      Note(SetHandler);
    }

    method Name(t: Option<Task>)
      modifies `waitingTask, `log
      ensures waitingTask == t && log == old(log) + [Moment(NameTask, handler, t)]
    {
      waitingTask := t;
      Note(NameTask);
    }

    /** One turn of the loop, from the block to its end or the next block. */
    method WaitTurn(me: Task, budget: uint32, startTick: uint32, remaining: uint32, w: Wake, ghost s: Waiting)
      returns (again: bool, st: Status, disc: Disc, next: uint32)
      requires waitingTask == Some(me) && handler == WakeHandler
      requires remaining == s.remaining && tick == (startTick + s.total) % 0x1_0000_0000
      modifies this
      ensures old(log) <= log && forall m :: m in log[|old(log)|..] ==> WellOwned(m, me)
      ensures match Turn(budget, s, w)
              case Blocked(s') =>
                && again && st == OK && disc == NoCard && next == s'.remaining
                && tick == (startTick + s'.total) % 0x1_0000_0000
                && waitingTask == Some(me) && handler == WakeHandler
              case Returned(rst, rdisc, _, _) => !again && st == rst && disc == rdisc && Idle()
    {
      again, st, disc, next := false, OK, NoCard, remaining;
      Note(Block);
      var b := TicksBlocked(w, remaining);
      tick := (tick + b) % 0x1_0000_0000;
      Install(SdkHandler);
      Note(ReadDiscovery);
      tick := (tick + w.busy) % 0x1_0000_0000;
      ghost var total := s.total + b + w.busy;
      TicksPass(startTick, s.total, b, w.busy);
      if !w.statusOk {
        st := ErrInternal;
        Name(None);
        return;
      }
      disc := w.disc;
      if disc != NoCard {
        Name(None);
        return;
      }
      var elapsed := Sub32(tick, startTick);
      assert elapsed == Elapsed(total);
      if elapsed >= remaining {
        Name(None);
        return;
      }
      next := Sub32(budget, elapsed);
      Name(Some(me));
      Install(WakeHandler);
      again := true;
    }

    /** rs_nfc_ptx_wait_for_card while `script` lasts; `done` tells whether it has
        returned by then. `idle` is what a status read gives without a scheduler. */
    method WaitForCard(me: Task, scheduler: bool, forever: bool, budget: uint32, systemOk: bool,
                       idle: Wake, script: seq<Wake>)
      returns (done: bool, st: Status, disc: Disc)
      requires Idle()
      modifies this
      ensures done <==> Idle()
      ensures !done ==> waitingTask == Some(me) && handler == WakeHandler
      ensures old(log) <= log && forall m :: m in log[|old(log)|..] ==> WellOwned(m, me)
      ensures if !systemOk then done && st == ErrInternal && disc == NoCard
              else if !scheduler then
                done && if idle.statusOk then st == OK && disc == idle.disc else st == ErrInternal && disc == NoCard
              else match Run(budget, First(forever, budget), script)
                   case Blocked(_) => !done
                   case Returned(rst, rdisc, _, _) => done && st == rst && disc == rdisc
    {
      done, st, disc := true, OK, NoCard;
      Note(ReadSystem);
      if !systemOk {
        st := ErrInternal;
        return;
      }
      if !scheduler {
        Note(ReadDiscovery);
        if idle.statusOk { disc := idle.disc; } else { st := ErrInternal; }
        return;
      }

      var remaining := if forever then MAX_DELAY else budget;
      var startTick := tick;
      Name(Some(me));
      Install(WakeHandler);
      Note(Drain);

      ghost var first := First(forever, budget);
      ghost var s := first;
      var i := 0;
      hide Turn;
      while i < |script|
        invariant 0 <= i <= |script|
        invariant waitingTask == Some(me) && handler == WakeHandler
        invariant old(log) <= log && forall m :: m in log[|old(log)|..] ==> WellOwned(m, me)
        invariant remaining == s.remaining && tick == (startTick + s.total) % 0x1_0000_0000
        invariant Run(budget, first, script) == Run(budget, s, script[i..])
      {
        assert script[i..][1..] == script[i + 1..];
        var again;
        again, st, disc, remaining := WaitTurn(me, budget, startTick, remaining, script[i], s);
        if !again {
          return;
        }
        s := Turn(budget, s, script[i]).w;
        i := i + 1;
      }
      done := false;
    }
  }

  lemma TicksPass(start: uint32, total: nat, blocked: nat, busy: nat)
    ensures ((start + total) % 0x1_0000_0000 + blocked) % 0x1_0000_0000 == (start + total + blocked) % 0x1_0000_0000
    ensures ((start + total + blocked) % 0x1_0000_0000 + busy) % 0x1_0000_0000 ==
            (start + (total + blocked + busy)) % 0x1_0000_0000
    ensures Sub32((start + (total + blocked + busy)) % 0x1_0000_0000, start) == Elapsed(total + blocked + busy)
  {
    ModAdd(start + total, blocked);
    ModAdd(start + total + blocked, busy);
    ModSub(start, total + blocked + busy);
  }

  lemma ModAdd(a: nat, b: nat)
    ensures (a % 0x1_0000_0000 + b) % 0x1_0000_0000 == (a + b) % 0x1_0000_0000
  {
    var q := a / 0x1_0000_0000;
    ModMultiple(a % 0x1_0000_0000 + b, q);
  }

  lemma ModSub(start: uint32, t: nat)
    ensures ((start + t) % 0x1_0000_0000 - start) % 0x1_0000_0000 == t % 0x1_0000_0000
  {
    var q := (start + t) / 0x1_0000_0000;
    ModMultiple((start + t) % 0x1_0000_0000 - start, q);
  }

  lemma ModMultiple(a: int, q: int)
    ensures (a + q * 0x1_0000_0000) % 0x1_0000_0000 == a % 0x1_0000_0000
  {
  }
}
