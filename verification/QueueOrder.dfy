/** Which entry is offered next: canonical sorting, agreement of peek and claim, and fairness to unattempted entries. */
module QueueOrder {
  import opened MachineInts
  import opened Wrappers
  import opened Ordering
  import opened ReproEntry
  import opened QueueSteps
  import opened QueueLookup
  import QueueSafety

  // ---------------------------------------------------------------- sorting is canonical

  /** With unique keys the sorted queue depends only on which entries there are. */
  lemma SortIsCanonical(p: seq<Entry>, q: seq<Entry>, now: u64)
    requires multiset(p) == multiset(q) && UniqueKeys(q)
    ensures SortQueue(p, now) == SortQueue(q, now)
  {
    QueueOrderIsTotal(now);
    SortPermutes(p, Before(now));
    SortPermutes(q, Before(now));
    SortSorts(p, Before(now));
    SortSorts(q, Before(now));
    SameElements(p, q);
    forall x, y | x in multiset(p) && y in multiset(p) && KeyOf(x) == KeyOf(y) ensures x == y {
      assert x in q && y in q;
      FindUnique(q, x);
      FindUnique(q, y);
    }
    assert multiset(SortQueue(p, now)) == multiset(p);
    SortedIsUnique(SortQueue(p, now), SortQueue(q, now), Before(now));
  }

  /** Erasing expired leases and backoffs before sorting is the same as erasing them after sorting. */
  lemma DropCommutesWithSort(q: seq<Entry>, now: u64)
    ensures Materialized(q, now) == Map(SortQueue(q, now), Dropper(now))
  {
    forall a, b ensures Before(now)(Dropper(now)(a), Dropper(now)(b)) == Before(now)(a, b) {
      DropExpiredKeepsView(a, now);
      DropExpiredKeepsView(b, now);
    }
    SortCommutesWithMap(q, Dropper(now), Before(now), Before(now));
  }

  // ---------------------------------------------------------------- peek and claim

  lemma UnencumberedWhenClaimable(e: Entry, now: u64)
    ensures Unencumbered()(DropExpired(e, now)) <==> Claimable(e, now)
  {
  }

  lemma {:induction false} FirstIndexOfMap(s: seq<Entry>, f: Entry -> Entry, p: Entry -> bool, p': Entry -> bool)
    requires forall e :: p'(f(e)) == p(e)
    ensures FirstIndex(Map(s, f), p') == FirstIndex(s, p)
  {
  }

  /** Peeking finds an entry exactly when one can be claimed, and it finds the least of those. */
  lemma PeekIsLeastClaimable(q: seq<Entry>, now: u64)
    ensures Peeked(q, now).None? <==> forall e :: e in q ==> !Claimable(e, now)
    ensures Peeked(q, now).Some? ==>
      exists e :: e in q && Claimable(e, now) && Peeked(q, now).value == DropExpired(e, now)
               && forall other :: other in q && Claimable(other, now) ==> Before(now)(e, other)
  {
    var sorted := SortQueue(q, now);
    QueueOrderIsTotal(now);
    SortPermutes(q, Before(now));
    SortSorts(q, Before(now));
    PeekScansSorted(q, now);
    FirstFreeIsLeast(sorted, now);
    var i := FirstIndex(sorted, Free(now));
    if i < |sorted| {
      assert sorted[i] in q;
    }
  }

  lemma PeekScansSorted(q: seq<Entry>, now: u64)
    ensures var sorted := SortQueue(q, now);
      var i := FirstIndex(sorted, Free(now));
      Peeked(q, now) == if i < |sorted| then Some(DropExpired(sorted[i], now)) else None
  {
    DropCommutesWithSort(q, now);
    forall e ensures Unencumbered()(Dropper(now)(e)) == Free(now)(e) {
      UnencumberedWhenClaimable(e, now);
    }
    FirstIndexOfMap(SortQueue(q, now), Dropper(now), Free(now), Unencumbered());
  }

  lemma FirstFreeIsLeast(sorted: seq<Entry>, now: u64)
    requires SortedBy(sorted, Before(now)) && TotalPreorder(Before(now))
    ensures var i := FirstIndex(sorted, Free(now));
      if i < |sorted| then
        Claimable(sorted[i], now)
        && forall other :: other in sorted && Claimable(other, now) ==> Before(now)(sorted[i], other)
      else forall e :: e in sorted ==> !Claimable(e, now)
  {
    var i := FirstIndex(sorted, Free(now));
    forall j | 0 <= j < |sorted| && Claimable(sorted[j], now) ensures i <= j && Before(now)(sorted[i], sorted[j]) {
      assert Free(now)(sorted[j]);
    }
  }

  ghost predicate HoldsNothing(q: seq<Entry>, worker: string, now: u64) {
    forall e :: e in q ==> !HeldBy(e, worker, now)
  }

  /** A worker without a live lease gets an entry exactly when peeking finds one, and then one that was claimable. */
  lemma ClaimGetsSomethingWhenPeekDoes(q: seq<Entry>, worker: string, leaseSecs: u64, now: u64)
    requires HoldsNothing(q, worker, now)
    ensures ClaimedEntry(q, worker, leaseSecs, now).Some? <==> Peeked(q, now).Some?
    ensures ClaimedEntry(q, worker, leaseSecs, now).Some? ==>
      exists e :: e in q && Claimable(e, now)
               && ClaimedEntry(q, worker, leaseSecs, now).value == Leased(DropExpired(e, now), worker, leaseSecs, now)
  {
    PeekIsLeastClaimable(q, now);
    var held, free := FirstIndex(q, Held(worker, now)), FirstIndex(q, Free(now));
    if free < |q| {
      assert Claimable(q[free], now) && q[free] in q;
      assert Granted(q[free], worker, leaseSecs, now) == Leased(DropExpired(q[free], now), worker, leaseSecs, now);
    } else {
      forall e | e in q ensures !Claimable(e, now) {
        assert !Free(now)(e);
      }
    }
  }

  lemma ClaimableViewIsTimeless(e: Entry, t: u64, now: u64)
    requires Claimable(e, t) && Claimable(e, now)
    ensures ViewOf(e, t) == ViewOf(e, now)
  {
  }

  /** In a queue sorted earlier, whatever was claimable then and still is keeps its place among its like. */
  lemma EarlierClaimableIsAhead(first: Entry, other: Entry, sortedAt: u64, now: u64)
    requires Before(sortedAt)(first, other) && Claimable(other, sortedAt)
    requires Claimable(first, now) && Claimable(other, now)
    ensures Before(now)(first, other)
  {
    assert Claimable(first, sortedAt);
    ClaimableViewIsTimeless(first, sortedAt, now);
    ClaimableViewIsTimeless(other, sortedAt, now);
  }

  /** Nothing that became claimable after the last sort comes before the first claimable entry of the stored order. */
  predicate NothingOvertakes(q: seq<Entry>, sortedAt: u64, now: u64) {
    forall e :: e in q && Claimable(e, now) && !Claimable(e, sortedAt) ==>
      FirstIndex(q, Free(now)) < |q| && Before(now)(q[FirstIndex(q, Free(now))], e)
  }

  lemma FirstIsLeast(q: seq<Entry>, sortedAt: u64, now: u64, other: Entry)
    requires SortedBy(q, Before(sortedAt)) && NothingOvertakes(q, sortedAt, now)
    requires other in q && Claimable(other, now)
    ensures var free := FirstIndex(q, Free(now)); free < |q| && Before(now)(q[free], other)
  {
    var i :| 0 <= i < |q| && q[i] == other;
    assert Free(now)(q[i]);
    var free := FirstIndex(q, Free(now));
    if free == i {
      QueueOrderIsTotal(now);
    } else if Claimable(other, sortedAt) {
      assert Free(now)(q[free]);
      EarlierClaimableIsAhead(q[free], other, sortedAt, now);
    }
  }

  /**
   A claim scans the stored order, peeking the current one: they pick the same entry exactly when nothing that
   became claimable after the queue was last sorted overtakes the first claimable entry of the stored order.
   */
  lemma ClaimAgreesWithPeekExactly(q: seq<Entry>, worker: string, leaseSecs: u64, sortedAt: u64, now: u64)
    requires UniqueKeys(q) && SortedBy(q, Before(sortedAt)) && HoldsNothing(q, worker, now)
    requires Peeked(q, now).Some?
    ensures ClaimedEntry(q, worker, leaseSecs, now) == Some(Leased(Peeked(q, now).value, worker, leaseSecs, now))
      <==> NothingOvertakes(q, sortedAt, now)
  {
    PeekIsLeastClaimable(q, now);
    QueueOrderIsTotal(now);
    var least :| least in q && Claimable(least, now) && Peeked(q, now).value == DropExpired(least, now)
                 && forall other :: other in q && Claimable(other, now) ==> Before(now)(least, other);
    FirstClaimed(q, worker, leaseSecs, now, least);
    var first := q[FirstIndex(q, Free(now))];
    if NothingOvertakes(q, sortedAt, now) {
      FirstIsLeast(q, sortedAt, now, least);
      assert first == least;
    } else if first == least {
      assert NothingOvertakes(q, sortedAt, now);
    }
  }

  lemma FirstClaimed(q: seq<Entry>, worker: string, leaseSecs: u64, now: u64, least: Entry)
    requires UniqueKeys(q) && HoldsNothing(q, worker, now) && least in q && Claimable(least, now)
    ensures var free := FirstIndex(q, Free(now));
      && free < |q| && Claimable(q[free], now) && q[free] in q && (KeyOf(q[free]) == KeyOf(least) ==> q[free] == least)
      && (ClaimedEntry(q, worker, leaseSecs, now) == Some(Leased(DropExpired(least, now), worker, leaseSecs, now))
          <==> q[free] == least)
  {
    var i :| 0 <= i < |q| && q[i] == least;
    assert Free(now)(q[i]);
    var free := FirstIndex(q, Free(now));
    assert Free(now)(q[free]);
    assert KeyOf(Leased(DropExpired(least, now), worker, leaseSecs, now)) == KeyOf(least);
    assert KeyOf(Granted(q[free], worker, leaseSecs, now)) == KeyOf(q[free]);
  }

  /** So a claim takes the very entry that peeking shows when the queue was sorted at this same time. */
  lemma ClaimAgreesWithPeek(q: seq<Entry>, worker: string, leaseSecs: u64, now: u64)
    requires UniqueKeys(q) && SortedBy(q, Before(now)) && HoldsNothing(q, worker, now) && Peeked(q, now).Some?
    ensures ClaimedEntry(q, worker, leaseSecs, now) == Some(Leased(Peeked(q, now).value, worker, leaseSecs, now))
  {
    ClaimAgreesWithPeekExactly(q, worker, leaseSecs, now, now);
  }

  function Sample(signature: string, priority: u64, notBefore: Option<u64>, outcome: string): Entry {
    Entry("crash", signature, "", 1, priority, 1, 0, 0, Some(0), Some(outcome), notBefore, None, None)
  }

  lemma SamplesCompare(ready: Entry, better: Entry, outcome: string)
    requires ready == Sample("a", 1, None, outcome) && better == Sample("b", 2, Some(60), outcome)
    ensures Before(0)(ready, better) && !Before(100)(ready, better)
    ensures Claimable(ready, 100) && Claimable(better, 100)
    ensures KeyOf(ready) != KeyOf(better)
  {
    var rank, succeeded := OutcomeRank(Some(outcome)), OutcomeRank(Some(outcome)) >= 3;
    assert ViewOf(ready, 0) == View(false, false, 0, succeeded, false, rank, 1, 1, 0, 0, 1, "crash", "a");
    assert ViewOf(better, 0) == View(false, true, 60, succeeded, false, rank, 2, 1, 0, 0, 1, "crash", "b");
    assert ViewOf(ready, 100) == View(false, false, 0, succeeded, false, rank, 1, 1, 0, 0, 1, "crash", "a");
    assert ViewOf(better, 100) == View(false, false, 0, succeeded, false, rank, 2, 1, 0, 0, 1, "crash", "b");
    assert "a"[0] != "b"[0];
  }

  /** And the two can differ: a better entry whose backoff ran out after the last sort is overlooked. */
  lemma ClaimCanMissPeek(outcome: string) returns (q: seq<Entry>)
    ensures UniqueKeys(q) && SortedBy(q, Before(0)) && HoldsNothing(q, "w", 100)
    ensures Peeked(q, 100).Some? && ClaimedEntry(q, "w", 1, 100).Some?
    ensures KeyOf(Peeked(q, 100).value) != KeyOf(ClaimedEntry(q, "w", 1, 100).value)
  {
    var ready, better := Sample("a", 1, None, outcome), Sample("b", 2, Some(60), outcome);
    q := [ready, better];
    SamplesCompare(ready, better, outcome);
    PeekIsLeastClaimable(q, 100);
    assert q[0] in q && q[1] in q;
    assert Free(100)(q[0]);
    assert FirstIndex(q, Free(100)) == 0;
    assert forall i :: 0 <= i < 2 ==> !Held("w", 100)(q[i]);
  }

  // ---------------------------------------------------------------- fairness

  /** One worker claims at `claimAt` and requeues what it got, with some outcome, at `requeueAt`. */
  datatype Turn = Turn(leaseSecs: u64, claimAt: u64, outcome: string, requeueAt: u64)

  function AfterTurn(q: seq<Entry>, worker: string, t: Turn): seq<Entry> {
    var claimed := ClaimedEntry(q, worker, t.leaseSecs, t.claimAt);
    if claimed.None? then q
    else
      var leased := AfterClaim(q, worker, t.leaseSecs, t.claimAt);
      AfterRequeue(leased, KeyOf(claimed.value), worker, t.outcome, t.requeueAt)
  }

  function AfterTurns(q: seq<Entry>, worker: string, turns: seq<Turn>): seq<Entry>
    decreases |turns|
  {
    if turns == [] then q else AfterTurns(AfterTurn(q, worker, turns[0]), worker, turns[1..])
  }

  function Untried(): Entry -> bool {
    (e: Entry) => e.attempts == 0
  }

  /** Nobody holds a lease, and the entries never attempted come first. */
  ghost predicate UntriedFirst(q: seq<Entry>) {
    && UniqueKeys(q) && QueueSafety.AllWellShaped(q)
    && (forall e :: e in q ==> e.leaseOwner.None?)
    && (forall i, j :: 0 <= i < j < |q| && q[j].attempts == 0 ==> q[i].attempts == 0)
  }

  lemma SortedMeansUntriedFirst(q: seq<Entry>, now: u64)
    requires UniqueKeys(q) && QueueSafety.AllWellShaped(q) && (forall e :: e in q ==> e.leaseOwner.None?)
    requires SortedBy(q, Before(now))
    ensures UntriedFirst(q)
  {
    forall i, j | 0 <= i < j < |q| && q[j].attempts == 0 ensures q[i].attempts == 0 {
      assert Before(now)(q[i], q[j]);
      assert q[i] in q && q[j] in q;
    }
  }

  function UntriedCount(q: seq<Entry>): nat {
    Count(q, Untried())
  }

  lemma {:induction false} CountConcat(a: seq<Entry>, b: seq<Entry>, p: Entry -> bool)
    ensures Count(a + b, p) == Count(a, p) + Count(b, p)
  {
    if b == [] {
      assert a + b == a;
    } else {
      assert (a + b)[..|a + b| - 1] == a + b[..|b| - 1];
      CountConcat(a, b[..|b| - 1], p);
    }
  }

  lemma {:induction false} CountRearranged(a: seq<Entry>, b: seq<Entry>, p: Entry -> bool)
    requires multiset(a) == multiset(b)
    ensures Count(a, p) == Count(b, p)
  {
    SameElements(a, b);
    if a != [] {
      var x := a[0];
      assert x in b;
      var i :| 0 <= i < |b| && b[i] == x;
      var rest := b[..i] + b[i + 1..];
      assert a == [x] + a[1..];
      assert b == b[..i] + ([x] + b[i + 1..]);
      assert multiset(rest) == multiset(b) - multiset{x};
      assert multiset(a[1..]) == multiset(a) - multiset{x};
      CountRearranged(a[1..], rest, p);
      CountConcat([x], a[1..], p);
      CountConcat(b[..i], [x] + b[i + 1..], p);
      CountConcat([x], b[i + 1..], p);
      CountConcat(b[..i], b[i + 1..], p);
    }
  }

  lemma UntriedIsClaimed(q: seq<Entry>, worker: string, leaseSecs: u64, now: u64)
    requires UntriedFirst(q) && q != [] && q[0].attempts == 0
    ensures ClaimTarget(q, worker, leaseSecs, now) == Some((0, Granted(q[0], worker, leaseSecs, now)))
  {
    forall i | 0 <= i < |q| ensures !Held(worker, now)(q[i]) {
      assert q[i] in q;
    }
    assert q[0] in q;
    assert Free(now)(q[0]);
    assert FirstIndex(q, Held(worker, now)) == |q|;
    assert FirstIndex(q, Free(now)) == 0;
  }

  lemma RequeueRearranges(q: seq<Entry>, g: Entry, worker: string, outcome: string, now: u64) returns (i: nat)
    requires UniqueKeys(q) && g in q && g.leaseOwner == Some(worker)
    ensures i < |q| && q[i] == g
    ensures AfterRequeue(q, KeyOf(g), worker, outcome, now) == SortQueue(q[i := Attempted(g, outcome, now)], now)
  {
    FindUnique(q, g);
    i := FirstIndex(q, WithKey(KeyOf(g)));
    assert KeyOf(Attempted(g, outcome, now)) == KeyOf(g);
  }

  lemma AttemptedOnce(e: Entry, worker: string, t: Turn) returns (a: Entry)
    requires e.attempts == 0
    ensures a == Attempted(Granted(e, worker, t.leaseSecs, t.claimAt), t.outcome, t.requeueAt)
    ensures KeyOf(a) == KeyOf(e) && a.attempts == 1 && a.leaseOwner.None? && QueueSafety.WellShaped(a)
  {
    a := Attempted(Granted(e, worker, t.leaseSecs, t.claimAt), t.outcome, t.requeueAt);
  }

  lemma ReplacedTwice(q: seq<Entry>, p: seq<Entry>, i: nat, g: Entry, a: Entry)
    requires q != [] && multiset(p) == multiset(q[0 := g]) && i < |p| && p[i] == g
    ensures multiset(p[i := a]) == multiset(q[0 := a])
  {
  }

  /** With an untried entry in front, a turn claims it and turns it into `a`, which has been attempted. */
  lemma TurnTakesTheFirst(q: seq<Entry>, worker: string, t: Turn) returns (a: Entry, s: seq<Entry>)
    requires UntriedFirst(q) && q != [] && q[0].attempts == 0
    ensures ClaimedEntry(q, worker, t.leaseSecs, t.claimAt) == Some(Granted(q[0], worker, t.leaseSecs, t.claimAt))
    ensures KeyOf(a) == KeyOf(q[0]) && a.attempts == 1 && a.leaseOwner.None? && QueueSafety.WellShaped(a)
    ensures AfterTurn(q, worker, t) == SortQueue(s, t.requeueAt) && multiset(s) == multiset(q[0 := a])
  {
    UntriedIsClaimed(q, worker, t.leaseSecs, t.claimAt);
    var g := Granted(q[0], worker, t.leaseSecs, t.claimAt);
    var claimed := q[0 := g];
    var p := SortQueue(claimed, t.claimAt);
    ReplaceKeepsLookups(q, 0, g, KeyOf(g));
    SortKeepsLookups(claimed, t.claimAt);
    SortPermutes(claimed, Before(t.claimAt));
    assert claimed[0] in p;
    a := AttemptedOnce(q[0], worker, t);
    var i := RequeueRearranges(p, g, worker, t.outcome, t.requeueAt);
    s := p[i := a];
    ReplacedTwice(q, p, i, g, a);
  }

  /** While some entry was never attempted, a turn attempts such an entry: there is one fewer afterwards. */
  lemma TurnAttemptsUntried(q: seq<Entry>, worker: string, t: Turn)
    requires UntriedFirst(q) && UntriedCount(q) > 0
    ensures ClaimedEntry(q, worker, t.leaseSecs, t.claimAt).Some?
    ensures ClaimedEntry(q, worker, t.leaseSecs, t.claimAt).value.attempts == 0
    ensures UntriedFirst(AfterTurn(q, worker, t))
    ensures UntriedCount(AfterTurn(q, worker, t)) == UntriedCount(q) - 1
    ensures forall key :: Find(q, key).Some? <==> Find(AfterTurn(q, worker, t), key).Some?
  {
    QueueSafety.NoneCounted(q, Untried());
    assert exists e :: e in q && Untried()(e);
    var a, s := TurnTakesTheFirst(q, worker, t);
    SortedReplacement(q, a, s, t.requeueAt);
    ReplacementCounts(q, a, AfterTurn(q, worker, t));
  }

  lemma SortedReplacement(q: seq<Entry>, a: Entry, s: seq<Entry>, now: u64)
    requires UntriedFirst(q) && q != [] && multiset(s) == multiset(q[0 := a])
    requires KeyOf(a) == KeyOf(q[0]) && a.leaseOwner.None? && QueueSafety.WellShaped(a)
    ensures multiset(SortQueue(s, now)) == multiset(q[0 := a])
    ensures UntriedFirst(SortQueue(s, now))
    ensures forall key :: Find(q, key).Some? <==> Find(SortQueue(s, now), key).Some?
  {
    var after, replaced := SortQueue(s, now), q[0 := a];
    QueueOrderIsTotal(now);
    SortPermutes(s, Before(now));
    SortSorts(s, Before(now));
    ReplaceKeepsLookups(q, 0, a, KeyOf(a));
    UniqueKeysRearranged(after, replaced);
    forall key ensures Find(q, key).Some? <==> Find(after, key).Some? {
      ReplaceKeepsLookups(q, 0, a, key);
    }
    SameElements(after, replaced);
    assert forall e :: e in replaced ==> e == a || e in q;
    SortedMeansUntriedFirst(after, now);
  }

  lemma ReplacementCounts(q: seq<Entry>, a: Entry, after: seq<Entry>)
    requires q != [] && q[0].attempts == 0 && a.attempts > 0 && multiset(after) == multiset(q[0 := a])
    ensures UntriedCount(after) == UntriedCount(q) - 1
  {
    assert q == [q[0]] + q[1..] && q[0 := a] == [a] + q[1..];
    CountConcat([q[0]], q[1..], Untried());
    CountConcat([a], q[1..], Untried());
    CountRearranged(after, q[0 := a], Untried());
  }

  /** As many turns as there are entries never attempted leave none of them, and lose no entry. */
  lemma {:induction false} TurnsAttemptEverything(q: seq<Entry>, worker: string, turns: seq<Turn>)
    requires UntriedFirst(q) && |turns| == UntriedCount(q)
    ensures forall e :: e in AfterTurns(q, worker, turns) ==> e.attempts > 0
    ensures forall key :: Find(q, key).Some? <==> Find(AfterTurns(q, worker, turns), key).Some?
    decreases |turns|
  {
    if turns == [] {
      QueueSafety.NoneCounted(q, Untried());
      assert forall e :: e in q ==> !Untried()(e);
    } else {
      TurnAttemptsUntried(q, worker, turns[0]);
      TurnsAttemptEverything(AfterTurn(q, worker, turns[0]), worker, turns[1..]);
    }
  }
}
