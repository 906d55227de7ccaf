/** The order in which the reader may call the adapter. */
module AdapterTrace {
  import opened ReaderTypes
  import CardWait

  /** A wait that reported something to activate: a card or, where `lenient`, also
      a discovery still running. */
  predicate FindsCard(lenient: bool, c: Call) {
    c.Wait? && c.ok && (c.disc in {CardWait.CardActive, CardWait.Done} || (lenient && c.disc == CardWait.Running))
  }

  /** `t[i]` found a card and neither deactivation nor activation came since. */
  ghost predicate FoundBy(lenient: bool, t: seq<Call>, i: nat, j: nat) {
    && i < j <= |t| && FindsCard(lenient, t[i])
    && forall k :: i < k < j ==> !t[k].Deactivate? && !t[k].Activate?
  }

  ghost predicate FoundBefore(lenient: bool, t: seq<Call>, j: nat) {
    exists i: nat :: FoundBy(lenient, t, i, j)
  }

  /** Every activation follows, since the last deactivation and the last
      activation, a wait that found a card. */
  ghost predicate Disciplined(lenient: bool, t: seq<Call>) {
    forall j :: 0 <= j < |t| && t[j].Activate? ==> FoundBefore(lenient, t, j)
  }

  /** Any two activations have a deactivation between them. */
  ghost predicate Separated(t: seq<Call>) {
    forall i, j :: 0 <= i < j < |t| && t[i].Activate? && t[j].Activate? ==>
      exists k :: i < k < j && t[k].Deactivate?
  }

  /** After an activation, tried or made, and after a wait that failed. */
  predicate NeedsReset(c: Call) {
    c.Activate? || (c.Wait? && !c.ok)
  }

  /** A card that a wait found is activated before the next wait or deactivation;
      an activation or a failed wait is followed by a deactivation before the next
      wait. */
  ghost predicate Prompt(t: seq<Call>) {
    && (forall i, j :: 0 <= i < j < |t| && FindsCard(false, t[i]) && (t[j].Wait? || t[j].Deactivate?) ==>
          exists k :: i < k < j && t[k].Activate?)
    && (forall i, j :: 0 <= i < j < |t| && NeedsReset(t[i]) && t[j].Wait? ==>
          exists k :: i < k < j && t[k].Deactivate?)
  }

  // ----- A scanner for the first two --------------------------------------

  datatype Scan = Idle | Found | Active | Wrong

  function ScanStep(lenient: bool, s: Scan, c: Call): Scan {
    if s.Wrong? then Wrong
    else if c.Deactivate? then Idle
    else if c.Activate? then if s.Found? then Active else Wrong
    else if FindsCard(lenient, c) then if s.Active? then Wrong else Found
    else s
  }

  function ScanAll(lenient: bool, s: Scan, t: seq<Call>): Scan
    decreases |t|
  {
    if t == [] then s else ScanStep(lenient, ScanAll(lenient, s, t[..|t| - 1]), t[|t| - 1])
  }

  lemma {:induction false} ScanConcat(lenient: bool, s: Scan, a: seq<Call>, b: seq<Call>)
    ensures ScanAll(lenient, s, a + b) == ScanAll(lenient, ScanAll(lenient, s, a), b)
    decreases |b|
  {
    if b == [] {
      assert a + b == a;
    } else {
      var n := |b| - 1;
      assert (a + b)[..|a + b| - 1] == a + b[..n];
      ScanConcat(lenient, s, a, b[..n]);
    }
  }

  lemma FoundInFront(lenient: bool, t: seq<Call>, n: nat, j: nat)
    requires j <= n <= |t| && FoundBefore(lenient, t[..n], j)
    ensures FoundBefore(lenient, t, j)
  {
    var i: nat :| FoundBy(lenient, t[..n], i, j);
    assert FoundBy(lenient, t, i, j);
  }

  lemma FoundStill(lenient: bool, t: seq<Call>, n: nat)
    requires n < |t| && FoundBefore(lenient, t, n) && !t[n].Deactivate? && !t[n].Activate?
    ensures FoundBefore(lenient, t, n + 1)
  {
    var i: nat :| FoundBy(lenient, t, i, n);
    assert FoundBy(lenient, t, i, n + 1);
  }

  /** No activation since the last deactivation. */
  ghost predicate Rested(t: seq<Call>) {
    forall i :: 0 <= i < |t| && t[i].Activate? ==> exists k :: i < k < |t| && t[k].Deactivate?
  }

  lemma {:induction false} ScanDisciplined(lenient: bool, t: seq<Call>)
    requires !ScanAll(lenient, Idle, t).Wrong?
    ensures Disciplined(lenient, t)
    ensures ScanAll(lenient, Idle, t).Found? ==> FoundBefore(lenient, t, |t|)
    decreases |t|
  {
    if t != [] {
      var n := |t| - 1;
      var front, c := t[..n], t[n];
      ScanDisciplined(lenient, front);
      forall j | 0 <= j < n && t[j].Activate? ensures FoundBefore(lenient, t, j) {
        assert front[j] == t[j];
        FoundInFront(lenient, t, n, j);
      }
      var s := ScanAll(lenient, Idle, front);
      if s.Found? {
        FoundInFront(lenient, t, n, n);
        if !c.Deactivate? && !c.Activate? {
          FoundStill(lenient, t, n);
        }
      } else if FindsCard(lenient, c) {
        assert FoundBy(lenient, t, n, n + 1);
      }
    }
  }

  lemma {:induction false} ScanSeparated(lenient: bool, t: seq<Call>)
    requires !ScanAll(lenient, Idle, t).Wrong?
    ensures Separated(t)
    ensures ScanAll(lenient, Idle, t) in {Idle, Found} ==> Rested(t)
    decreases |t|
  {
    if t != [] {
      var n := |t| - 1;
      var front, c := t[..n], t[n];
      ScanSeparated(lenient, front);
      hide ScanAll;
      assert forall i :: 0 <= i < n ==> front[i] == t[i];
      if c.Activate? {
        assert Rested(front);
      }
      if c.Deactivate? {
        assert t[n].Deactivate?;
      }
    }
  }

  // ----- A scanner for the third ------------------------------------------

  datatype Duty = Free | MustActivate | MustDeactivate | Neglected

  function DutyStep(d: Duty, c: Call): Duty {
    match d
    case Neglected => Neglected
    case MustActivate =>
      if c.Activate? then MustDeactivate else if c.Wait? || c.Deactivate? then Neglected else MustActivate
    case MustDeactivate =>
      if c.Deactivate? then Free else if c.Wait? then Neglected else MustDeactivate
    case Free =>
      if FindsCard(false, c) then MustActivate else if NeedsReset(c) then MustDeactivate else Free
  }

  function DutyAfter(d: Duty, t: seq<Call>): Duty
    decreases |t|
  {
    if t == [] then d else DutyStep(DutyAfter(d, t[..|t| - 1]), t[|t| - 1])
  }

  lemma {:induction false} DutyConcat(d: Duty, a: seq<Call>, b: seq<Call>)
    ensures DutyAfter(d, a + b) == DutyAfter(DutyAfter(d, a), b)
    decreases |b|
  {
    if b == [] {
      assert a + b == a;
    } else {
      var n := |b| - 1;
      assert (a + b)[..|a + b| - 1] == a + b[..n];
      DutyConcat(d, a, b[..n]);
    }
  }

  ghost predicate AllReset(t: seq<Call>) {
    forall i :: 0 <= i < |t| && NeedsReset(t[i]) ==> exists k :: i < k < |t| && t[k].Deactivate?
  }

  ghost predicate AllActivated(t: seq<Call>) {
    forall i :: 0 <= i < |t| && FindsCard(false, t[i]) ==> exists k :: i < k < |t| && t[k].Activate?
  }

  /** One more call, in its place. */
  lemma PromptSnoc(t: seq<Call>, c: Call)
    requires Prompt(t)
    requires c.Wait? || c.Deactivate? ==> AllActivated(t)
    requires c.Wait? ==> AllReset(t)
    ensures Prompt(t + [c])
  {
    var u := t + [c];
    assert forall i :: 0 <= i < |t| ==> u[i] == t[i];
    forall i, j | 0 <= i < j < |u| && FindsCard(false, u[i]) && (u[j].Wait? || u[j].Deactivate?)
      ensures exists k :: i < k < j && u[k].Activate?
    {
      var k :| i < k < j && t[k].Activate?;
      assert u[k].Activate?;
    }
    forall i, j | 0 <= i < j < |u| && NeedsReset(u[i]) && u[j].Wait?
      ensures exists k :: i < k < j && u[k].Deactivate?
    {
      var k :| i < k < j && t[k].Deactivate?;
      assert u[k].Deactivate?;
    }
  }

  lemma ActivatedSnoc(t: seq<Call>, c: Call)
    requires c.Activate? || (AllActivated(t) && !FindsCard(false, c))
    ensures AllActivated(t + [c])
  {
    var u := t + [c];
    forall i | 0 <= i < |u| && FindsCard(false, u[i]) ensures exists k :: i < k < |u| && u[k].Activate? {
      if c.Activate? {
        assert u[|t|].Activate?;
      } else {
        var k :| i < k < |t| && t[k].Activate?;
        assert u[k].Activate?;
      }
    }
  }

  lemma ResetSnoc(t: seq<Call>, c: Call)
    requires c.Deactivate? || (AllReset(t) && !NeedsReset(c))
    ensures AllReset(t + [c])
  {
    var u := t + [c];
    forall i | 0 <= i < |u| && NeedsReset(u[i]) ensures exists k :: i < k < |u| && u[k].Deactivate? {
      if c.Deactivate? {
        assert u[|t|].Deactivate?;
      } else {
        var k :| i < k < |t| && t[k].Deactivate?;
        assert u[k].Deactivate?;
      }
    }
  }

  lemma {:induction false} DutyPrompt(t: seq<Call>)
    requires !DutyAfter(Free, t).Neglected?
    ensures Prompt(t)
    ensures !DutyAfter(Free, t).MustActivate? ==> AllActivated(t)
    ensures !DutyAfter(Free, t).MustDeactivate? ==> AllReset(t)
    decreases |t|
  {
    if t != [] {
      var n := |t| - 1;
      var front, c := t[..n], t[n];
      DutyPrompt(front);
      var d, d' := DutyAfter(Free, front), DutyAfter(Free, t);
      assert front + [c] == t && d' == DutyStep(d, c);
      hide Prompt, AllActivated, AllReset, DutyAfter;
      PromptSnoc(front, c);
      if !d'.MustActivate? {
        ActivatedSnoc(front, c);
      }
      if !d'.MustDeactivate? {
        ResetSnoc(front, c);
      }
    }
  }
}
