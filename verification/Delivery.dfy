/** Other deliveries of a log: which orders are safe, and what redelivery does. */
module Delivery {
  import opened Prelude
  import opened UserProfile
  import opened PalletLog
  import opened BlockchainService
  import opened Users
  import opened EventProcessor
  import opened Projection

  // ---------------------------------------------------------------- deliveries without a conflict

  /** No delivery of the log meets a name that another row holds. */
  ghost predicate NoClash(log: Log) {
    log == [] || (NoClash(log[..|log| - 1]) && !ClashesNext(log[..|log| - 1], log[|log| - 1]))
  }

  /** After the log, the event ends in a conflict. */
  ghost predicate ClashesNext(log: Log, l: Logged) {
    ExpectedError(Deliver(map[], log), l.event) == Some(Service(Conflict))
  }

  lemma NoClashSnoc(log: Log, l: Logged)
    ensures NoClash(log + [l]) <==> NoClash(log) && !ClashesNext(log, l)
  {
    assert (log + [l])[..|log|] == log;
  }

  lemma {:induction false} NoClashIff(log: Log)
    ensures NoClash(log) <==> forall k :: 0 <= k < |log| ==> !ClashesNext(log[..k], log[k])
  {
    if log != [] {
      var before, last := log[..|log| - 1], log[|log| - 1];
      NoClashIff(before);
      assert forall k :: 0 <= k < |before| ==> before[..k] == log[..k] && before[k] == log[k];
    }
  }

  /** No job ends in a conflict. */
  ghost predicate ConflictFree(jobs: seq<Job>) {
    forall k :: 0 <= k < |jobs| ==> Handle(DeliverJobs(EMPTY, jobs[..k]), jobs[k]).error != Some(Service(Conflict))
  }

  lemma ConflictFreeIffNoClash(jobs: seq<Job>, log: Log)
    requires CarriesAll(jobs, log)
    ensures ConflictFree(jobs) <==> NoClash(log)
  {
    NoClashIff(log);
    forall k | 0 <= k < |log|
      ensures Handle(DeliverJobs(EMPTY, jobs[..k]), jobs[k]).error == Some(Service(Conflict)) <==>
              ClashesNext(log[..k], log[k])
    {
      DeliverJobsRefines(jobs[..k], log[..k]);
      HandleRefines(DeliverJobs(EMPTY, jobs[..k]), jobs[k], log[k]);
    }
  }

  // ---------------------------------------------------------------- a row is a fold of its own events

  function RowStep(row: Option<Columns>, e: Event): Option<Columns> {
    if e.StatsUpdated? then row else Some(Merge(Or(row, BLANK), ChangeOf(e)))
  }

  function RowFold(own: Log): Option<Columns> {
    if own == [] then None else RowStep(RowFold(own[..|own| - 1]), own[|own| - 1].event)
  }

  lemma RowFoldSnoc(own: Log, l: Logged)
    ensures RowFold(own + [l]) == RowStep(RowFold(own), l.event)
  {
    assert (own + [l])[..|own|] == own;
  }

  lemma ApplyIsRowStep(v: Rows, e: Event, a: JsString)
    requires ExpectedError(v, e) != Some(Service(Conflict))
    ensures Lookup(Apply(v, e), a) == if a == e.account then RowStep(Lookup(v, a), e) else Lookup(v, a)
  {
  }

  lemma {:induction false} RowIsFoldOfOwnEvents(log: Log, a: JsString)
    requires NoClash(log)
    ensures Lookup(Deliver(map[], log), a) == RowFold(Own(log, a))
  {
    if log != [] {
      var before, last := log[..|log| - 1], log[|log| - 1];
      RowIsFoldOfOwnEvents(before, a);
      assert log == before + [last];
      OwnSnoc(before, last, a);
      RowFoldSnoc(Own(before, a), last);
      ApplyIsRowStep(Deliver(map[], before), last.event, a);
    }
  }

  // ---------------------------------------------------------------- other orders

  /** A delivery order that keeps each account's own order. */
  ghost predicate KeepsOrder(other: Log, log: Log) {
    forall a :: Own(other, a) == Own(log, a)
  }

  /** Orders that keep each account's own order agree, as long as neither clashes. */
  lemma ReorderingConverges(log1: Log, log2: Log)
    requires NoClash(log1) && NoClash(log2) && KeepsOrder(log2, log1)
    ensures Deliver(map[], log1) == Deliver(map[], log2)
  {
    var v, w := Deliver(map[], log1), Deliver(map[], log2);
    forall a
      ensures Lookup(v, a) == Lookup(w, a)
    {
      RowIsFoldOfOwnEvents(log1, a);
      RowIsFoldOfOwnEvents(log2, a);
    }
    SameLookups(v, w);
  }

  lemma SameLookups(v: Rows, w: Rows)
    requires forall a :: Lookup(v, a) == Lookup(w, a)
    ensures v == w
  {
    forall a
      ensures a in v <==> a in w
      ensures a in v ==> v[a] == w[a]
    {
      assert Lookup(v, a) == Lookup(w, a);
    }
  }

  lemma TablesConverge(jobs1: seq<Job>, log1: Log, jobs2: seq<Job>, log2: Log)
    requires CarriesAll(jobs1, log1) && CarriesAll(jobs2, log2)
    requires ConflictFree(jobs1) && ConflictFree(jobs2) && KeepsOrder(log2, log1)
    ensures View(DeliverJobs(EMPTY, jobs1)) == View(DeliverJobs(EMPTY, jobs2))
  {
    ConflictFreeIffNoClash(jobs1, log1);
    ConflictFreeIffNoClash(jobs2, log2);
    ReorderingConverges(log1, log2);
    DeliverJobsRefines(jobs1, log1);
    DeliverJobsRefines(jobs2, log2);
  }

  // ---------------------------------------------------------------- exactly when every order is safe

  /** Events of two accounts that bring the same name to the table. */
  predicate SameName(l: Logged, m: Logged) {
    && l.event.account != m.event.account
    && ChangeOf(l.event).username.Some?
    && ChangeOf(l.event).username == ChangeOf(m.event).username
  }

  ghost predicate SharesName(log: Log) {
    exists l, m :: l in log && m in log && SameName(l, m)
  }

  /** A name in a row was brought by an event of the row's account. */
  lemma {:induction false} HeldNameHasEvent(log: Log, b: JsString) returns (l: Logged)
    requires b in Deliver(map[], log) && Deliver(map[], log)[b].username.Some?
    ensures l in log && l.event.account == b
    ensures ChangeOf(l.event).username == Deliver(map[], log)[b].username
  {
    var before, last := log[..|log| - 1], log[|log| - 1];
    var v := Deliver(map[], before);
    if b in v && v[b].username == Deliver(map[], log)[b].username {
      l := HeldNameHasEvent(before, b);
    } else {
      l := last;
    }
  }

  lemma ClashSharesName(log: Log)
    requires !NoClash(log)
    ensures SharesName(log)
  {
    NoClashIff(log);
    var k :| 0 <= k < |log| && ClashesNext(log[..k], log[k]);
    var v, change := Deliver(map[], log[..k]), ChangeOf(log[k].event);
    var b :| b in v && b != log[k].event.account && v[b].username == Some(change.username.value);
    var l := HeldNameHasEvent(log[..k], b);
    assert l in log && log[k] in log && SameName(l, log[k]);
  }

  lemma SharesNameInAnyOrder(other: Log, log: Log)
    requires KeepsOrder(other, log) && SharesName(other)
    ensures SharesName(log)
  {
    var l, m :| l in other && m in other && SameName(l, m);
    SameEvents(other, log, l);
    SameEvents(other, log, m);
  }

  lemma SameEvents(other: Log, log: Log, l: Logged)
    requires KeepsOrder(other, log) && l in other
    ensures l in log
  {
    var a := l.event.account;
    FilterMember(other, l, (l: Logged) => IsOf(l, a));
    FilterMember(log, l, (l: Logged) => IsOf(l, a));
    assert l in Own(other, a) && Own(other, a) == Own(log, a);
  }

  // The order that clashes: one account's events up to the name, then the other's.

  lemma OwnConcat(a: Log, b: Log, c: JsString)
    ensures Own(a + b, c) == Own(a, c) + Own(b, c)
  {
    FilterConcat(a, b, (l: Logged) => IsOf(l, c));
  }

  lemma OwnOfOwn(log: Log, a: JsString, c: JsString)
    ensures Own(Own(log, a), c) == if c == a then Own(log, a) else []
  {
    if c == a {
      FilterTwice(log, (l: Logged) => IsOf(l, a), (l: Logged) => IsOf(l, c), (l: Logged) => IsOf(l, a));
    } else {
      FilterTwice(log, (l: Logged) => IsOf(l, a), (l: Logged) => IsOf(l, c), (l: Logged) => false);
      FilterNothing(log, (l: Logged) => false);
    }
  }

  predicate IsOfOther(l: Logged, a: JsString, b: JsString) { !IsOf(l, a) && !IsOf(l, b) }

  function OwnOther(log: Log, a: JsString, b: JsString): Log {
    Filter(log, (l: Logged) => IsOfOther(l, a, b))
  }

  lemma OwnOfOther(log: Log, a: JsString, b: JsString, c: JsString)
    ensures Own(OwnOther(log, a, b), c) == if c == a || c == b then [] else Own(log, c)
  {
    var others, ofC := (l: Logged) => IsOfOther(l, a, b), (l: Logged) => IsOf(l, c);
    if c == a || c == b {
      FilterTwice(log, others, ofC, (l: Logged) => false);
      FilterNothing(log, (l: Logged) => false);
    } else {
      FilterTwice(log, others, ofC, ofC);
    }
  }

  /** The events of a before position i, those of b before position j, then all the rest. */
  function Rearranged(log: Log, a: JsString, i: nat, b: JsString, j: nat): Log
    requires i <= |log| && j <= |log|
  {
    Own(log[..i], a) + (Own(log[..j], b) + (Own(log[i..], a) + (Own(log[j..], b) + OwnOther(log, a, b))))
  }

  lemma RearrangedKeepsOrder(log: Log, a: JsString, i: nat, b: JsString, j: nat)
    requires i <= |log| && j <= |log| && a != b
    ensures KeepsOrder(Rearranged(log, a, i, b, j), log)
  {
    forall c
      ensures Own(Rearranged(log, a, i, b, j), c) == Own(log, c)
    {
      RearrangedOwn(log, a, i, b, j, c);
    }
  }

  lemma OwnConcat5(p: Log, q: Log, r: Log, t: Log, u: Log, c: JsString)
    ensures Own(p + (q + (r + (t + u))), c) == Own(p, c) + (Own(q, c) + (Own(r, c) + (Own(t, c) + Own(u, c))))
  {
    OwnConcat(p, q + (r + (t + u)), c);
    OwnConcat(q, r + (t + u), c);
    OwnConcat(r, t + u, c);
    OwnConcat(t, u, c);
  }

  lemma OwnSplit(log: Log, a: JsString, i: nat)
    requires i <= |log|
    ensures Own(log[..i], a) + Own(log[i..], a) == Own(log, a)
  {
    assert log[..i] + log[i..] == log;
    OwnConcat(log[..i], log[i..], a);
  }

  lemma JoinParts(x: Log, y: Log, z: Log, t: Log, u: Log, whole: Log)
    requires || (y == t == u == [] && whole == x + z)
             || (x == z == u == [] && whole == y + t)
             || (x == y == z == t == [] && whole == u)
    ensures x + (y + (z + (t + u))) == whole
  {
  }

  lemma RearrangedOwn(log: Log, a: JsString, i: nat, b: JsString, j: nat, c: JsString)
    requires i <= |log| && j <= |log| && a != b
    ensures Own(Rearranged(log, a, i, b, j), c) == Own(log, c)
  {
    var p, q, r, t, u := Own(log[..i], a), Own(log[..j], b), Own(log[i..], a), Own(log[j..], b), OwnOther(log, a, b);
    OwnConcat5(p, q, r, t, u, c);
    OwnOfOwn(log[..i], a, c);
    OwnOfOwn(log[..j], b, c);
    OwnOfOwn(log[i..], a, c);
    OwnOfOwn(log[j..], b, c);
    OwnOfOther(log, a, b, c);
    OwnSplit(log, a, i);
    OwnSplit(log, b, j);
    JoinParts(Own(p, c), Own(q, c), Own(r, c), Own(t, c), Own(u, c), Own(log, c));
  }

  lemma OwnEvents(log: Log, a: JsString)
    ensures forall l :: l in Own(log, a) ==> l.event.account == a
  {
    forall l | l in Own(log, a)
      ensures l.event.account == a
    {
      FilterMember(log, l, (l: Logged) => IsOf(l, a));
    }
  }

  lemma {:induction false} OnlyOwnRow(log: Log, a: JsString)
    requires forall l :: l in log ==> l.event.account == a
    ensures Deliver(map[], log).Keys <= {a}
  {
    if log != [] {
      assert log == log[..|log| - 1] + [log[|log| - 1]];
      OnlyOwnRow(log[..|log| - 1], a);
    }
  }

  lemma {:induction false} OthersKeepRow(v: Rows, log: Log, a: JsString)
    requires forall l :: l in log ==> l.event.account != a
    ensures Lookup(Deliver(v, log), a) == Lookup(v, a)
  {
    if log != [] {
      assert log == log[..|log| - 1] + [log[|log| - 1]];
      OthersKeepRow(v, log[..|log| - 1], a);
    }
  }

  /** After an account's own events up to a name, its row has the name. */
  lemma OwnNameHeld(before: Log, l: Logged)
    requires ChangeOf(l.event).username.Some?
    ensures var a, v := l.event.account, Deliver(map[], Own(before + [l], l.event.account));
            a in v && v[a].username == ChangeOf(l.event).username
  {
    var a := l.event.account;
    OwnSnoc(before, l, a);
    OwnEvents(before, a);
    OnlyOwnRow(Own(before, a), a);
    DeliverSnoc(map[], Own(before, a), l);
  }

  /** The row of the first account still has the name when the other's event brings it. */
  lemma SecondOwnerClashes(log: Log, i: nat, j: nat)
    requires i < |log| && j < |log| && SameName(log[i], log[j])
    ensures ClashesNext(Own(log[..i + 1], log[i].event.account) + Own(log[..j], log[j].event.account), log[j])
  {
    var a, b := log[i].event.account, log[j].event.account;
    var p, q := Own(log[..i + 1], a), Own(log[..j], b);
    assert log[..i + 1] == log[..i] + [log[i]];
    OwnNameHeld(log[..i], log[i]);
    OwnEvents(log[..j], b);
    DeliverConcat(map[], p, q);
    OthersKeepRow(Deliver(map[], p), q, a);
    assert HeldByOther(Deliver(map[], p + q), b, ChangeOf(log[j].event).username.value);
  }

  lemma ClashInside(before: Log, l: Logged, rest: Log)
    requires ClashesNext(before, l)
    ensures !NoClash(before + [l] + rest)
  {
    var x := before + [l] + rest;
    assert x[..|before|] == before && x[|before|] == l;
    NoClashIff(x);
  }

  lemma SharedNameClashes(log: Log, i: nat, j: nat)
    requires i < |log| && j < |log| && SameName(log[i], log[j])
    ensures var x := Rearranged(log, log[i].event.account, i + 1, log[j].event.account, j + 1);
            KeepsOrder(x, log) && !NoClash(x)
  {
    var a, b := log[i].event.account, log[j].event.account;
    RearrangedKeepsOrder(log, a, i + 1, b, j + 1);
    SecondOwnerClashes(log, i, j);
    RearrangedAround(log, a, i + 1, b, j);
    ClashInside(Own(log[..i + 1], a) + Own(log[..j], b), log[j],
                Own(log[i + 1..], a) + (Own(log[j + 1..], b) + OwnOther(log, a, b)));
  }

  lemma RearrangedAround(log: Log, a: JsString, i: nat, b: JsString, j: nat)
    requires i <= |log| && j < |log| && log[j].event.account == b
    ensures Rearranged(log, a, i, b, j + 1) ==
            Own(log[..i], a) + Own(log[..j], b) + [log[j]]
            + (Own(log[i..], a) + (Own(log[j + 1..], b) + OwnOther(log, a, b)))
  {
    assert log[..j + 1] == log[..j] + [log[j]];
    OwnSnoc(log[..j], log[j], b);
  }

  /** Every order that keeps each account's own order is free of conflicts if and only if no two
      accounts bring the same name. */
  lemma EveryOrderSafeIff(log: Log)
    ensures (forall x :: KeepsOrder(x, log) ==> NoClash(x)) <==> !SharesName(log)
  {
    if SharesName(log) {
      var l, m :| l in log && m in log && SameName(l, m);
      var i :| 0 <= i < |log| && log[i] == l;
      var j :| 0 <= j < |log| && log[j] == m;
      SharedNameClashes(log, i, j);
    } else {
      forall x | KeepsOrder(x, log)
        ensures NoClash(x)
      {
        UnsharedOrderSafe(x, log);
      }
    }
  }

  lemma UnsharedOrderSafe(x: Log, log: Log)
    requires KeepsOrder(x, log)
    ensures SharesName(log) || NoClash(x)
  {
    if !NoClash(x) {
      ClashSharesName(x);
      SharesNameInAnyOrder(x, log);
    }
  }

  /** When no two accounts bring the same name, every order ends with the same table. */
  lemma AnyOrderSameTable(jobs1: seq<Job>, log1: Log, jobs2: seq<Job>, log2: Log)
    requires CarriesAll(jobs1, log1) && CarriesAll(jobs2, log2)
    requires KeepsOrder(log2, log1) && !SharesName(log1)
    ensures ConflictFree(jobs1) && ConflictFree(jobs2)
    ensures View(DeliverJobs(EMPTY, jobs1)) == View(DeliverJobs(EMPTY, jobs2))
  {
    UnsharedOrderSafe(log1, log1);
    UnsharedOrderSafe(log2, log1);
    ConflictFreeIffNoClash(jobs1, log1);
    ConflictFreeIffNoClash(jobs2, log2);
    TablesConverge(jobs1, log1, jobs2, log2);
  }

  /** Swapping neighbours of different accounts keeps each account's order. */
  lemma SwapKeepsOrder(before: Log, l: Logged, m: Logged)
    requires l.event.account != m.event.account
    ensures KeepsOrder(before + [m] + [l], before + [l] + [m])
  {
    forall a
      ensures Own(before + [m] + [l], a) == Own(before + [l] + [m], a)
    {
      OwnSnoc(before, l, a);
      OwnSnoc(before, m, a);
      OwnSnoc(before + [l], m, a);
      OwnSnoc(before + [m], l, a);
    }
  }

  // ---------------------------------------------------------------- redelivery

  function Repeat(l: Logged, n: nat): (r: Log)
    ensures |r| == n && forall i :: 0 <= i < n ==> r[i] == l
  {
    if n == 0 then [] else Repeat(l, n - 1) + [l]
  }

  function Total(counts: seq<nat>): nat {
    if counts == [] then 0 else Total(counts[..|counts| - 1]) + counts[|counts| - 1]
  }

  /** Each event delivered as often as its count says. */
  function Redelivered(log: Log, counts: seq<nat>): (r: Log)
    requires |counts| == |log|
    ensures |r| == Total(counts)
  {
    if log == [] then []
    else Redelivered(log[..|log| - 1], counts[..|log| - 1]) + Repeat(log[|log| - 1], counts[|log| - 1])
  }

  lemma {:induction false} DeliverConcat(v: Rows, a: Log, b: Log)
    ensures Deliver(v, a + b) == Deliver(Deliver(v, a), b)
  {
    if b == [] {
      assert a + b == a;
    } else {
      assert (a + b)[..|a + b| - 1] == a + b[..|b| - 1];
      DeliverConcat(v, a, b[..|b| - 1]);
    }
  }

  /** A second delivery changes nothing and ends as the first did: no clash with oneself. */
  lemma SecondDelivery(v: Rows, e: Event)
    ensures Apply(Apply(v, e), e) == Apply(v, e)
    ensures ExpectedError(Apply(v, e), e) == ExpectedError(v, e)
  {
    var w := Apply(v, e);
    if !e.StatsUpdated? && ChangeOf(e).username.Some? {
      var name := ChangeOf(e).username.value;
      assert forall b :: b != e.account ==> (b in w <==> b in v) && (b in v ==> w[b] == v[b]);
      assert HeldByOther(w, e.account, name) <==> HeldByOther(v, e.account, name);
    }
  }

  lemma {:induction false} RepeatedDelivery(v: Rows, l: Logged, n: nat)
    requires n >= 1
    ensures Deliver(v, Repeat(l, n)) == Apply(v, l.event)
  {
    DeliverSnoc(v, Repeat(l, n - 1), l);
    if n > 1 {
      RepeatedDelivery(v, l, n - 1);
      SecondDelivery(v, l.event);
    }
  }

  lemma {:induction false} RedeliveryIsHarmless(v: Rows, log: Log, counts: seq<nat>)
    requires |counts| == |log| && forall i :: 0 <= i < |counts| ==> counts[i] >= 1
    ensures Deliver(v, Redelivered(log, counts)) == Deliver(v, log)
  {
    if log != [] {
      var n := |log| - 1;
      RedeliveryIsHarmless(v, log[..n], counts[..n]);
      DeliverConcat(v, Redelivered(log[..n], counts[..n]), Repeat(log[n], counts[n]));
      RepeatedDelivery(Deliver(v, log[..n]), log[n], counts[n]);
    }
  }

  /** Whether an event clashes does not depend on how often it came before. */
  lemma RepeatedOutcome(log: Log, l: Logged, n: nat)
    ensures ClashesNext(log + Repeat(l, n), l) <==> ClashesNext(log, l)
  {
    if n == 0 {
      assert log + Repeat(l, n) == log;
    } else {
      DeliverConcat(map[], log, Repeat(l, n));
      RepeatedDelivery(Deliver(map[], log), l, n);
      SecondDelivery(Deliver(map[], log), l.event);
    }
  }

  /** Repeats clash exactly when the first delivery does. */
  lemma {:induction false} RepeatClashes(log: Log, l: Logged, n: nat)
    requires n >= 1
    ensures NoClash(log + Repeat(l, n)) <==> NoClash(log + [l])
  {
    if n == 1 {
      assert Repeat(l, n) == [l];
    } else {
      RepeatClashes(log, l, n - 1);
      OneMoreRepeat(log, l, n - 1);
    }
  }

  lemma OneMoreRepeat(log: Log, l: Logged, n: nat)
    requires NoClash(log + Repeat(l, n)) <==> NoClash(log + [l])
    ensures NoClash(log + Repeat(l, n + 1)) <==> NoClash(log + [l])
  {
    var before := log + Repeat(l, n);
    assert log + Repeat(l, n + 1) == before + [l];
    NoClashSnoc(before, l);
    NoClashSnoc(log, l);
    RepeatedOutcome(log, l, n);
  }

  lemma SameRowsSameClash(log: Log, other: Log, l: Logged)
    requires NoClash(log) <==> NoClash(other)
    requires Deliver(map[], log) == Deliver(map[], other)
    ensures NoClash(log + [l]) <==> NoClash(other + [l])
  {
    NoClashSnoc(log, l);
    NoClashSnoc(other, l);
  }

  lemma {:induction false} RedeliveryClashes(log: Log, counts: seq<nat>)
    requires |counts| == |log| && forall i :: 0 <= i < |counts| ==> counts[i] >= 1
    ensures NoClash(Redelivered(log, counts)) <==> NoClash(log)
  {
    if log != [] {
      var n := |log| - 1;
      var before, last := log[..n], log[n];
      RedeliveryClashes(before, counts[..n]);
      RedeliveryIsHarmless(map[], before, counts[..n]);
      RepeatClashes(Redelivered(before, counts[..n]), last, counts[n]);
      SameRowsSameClash(before, Redelivered(before, counts[..n]), last);
      assert log == before + [last];
    }
  }

  lemma RedeliveredTable(jobs: seq<Job>, log: Log, again: seq<Job>, counts: seq<nat>)
    requires |counts| == |log| && forall i :: 0 <= i < |counts| ==> counts[i] >= 1
    requires CarriesAll(jobs, log) && CarriesAll(again, Redelivered(log, counts))
    ensures View(DeliverJobs(EMPTY, again)) == View(DeliverJobs(EMPTY, jobs))
    ensures ConflictFree(again) <==> ConflictFree(jobs)
  {
    RedeliveryIsHarmless(map[], log, counts);
    DeliverJobsRefines(jobs, log);
    DeliverJobsRefines(again, Redelivered(log, counts));
    RedeliveryClashes(log, counts);
    ConflictFreeIffNoClash(jobs, log);
    ConflictFreeIffNoClash(again, Redelivered(log, counts));
  }
}
