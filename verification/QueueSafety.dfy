/** What holds of the repro queue over every run. */
module QueueSafety {
  import opened MachineInts
  import opened Wrappers
  import opened Ordering
  import opened ReproEntry
  import opened QueueSteps
  import opened QueueLookup

  // ---------------------------------------------------------------- the shape of entries

  /** No entry has both a lease and a backoff, and the record of attempts is all there or not at all. */
  predicate WellShaped(e: Entry) {
    && (e.leaseOwner.Some? ==> e.notBefore.None?)
    && (e.leaseOwner.Some? <==> e.leaseExpires.Some?)
    && (e.attempts == 0 <==> e.lastOutcome.None?)
    && (e.attempts == 0 <==> e.lastAttempt.None?)
    && (e.attempts == 0 ==> e.notBefore.None?)
  }

  predicate AllWellShaped(q: seq<Entry>) {
    forall e :: e in q ==> WellShaped(e)
  }

  lemma ReplaceKeepsShape(q: seq<Entry>, i: nat, e: Entry, now: u64)
    requires AllWellShaped(q) && i < |q| && WellShaped(e)
    ensures AllWellShaped(SortQueue(q[i := e], now))
  {
    SortPermutes(q[i := e], Before(now));
  }

  lemma BuildKeepsShape(c: CatalogEntry, q: seq<Entry>, now: u64)
    requires AllWellShaped(q)
    ensures WellShaped(BuildEntry(c, q, now))
  {
  }

  lemma StepKeepsShape(q: seq<Entry>, ev: Event)
    requires AllWellShaped(q)
    ensures AllWellShaped(Step(q, ev))
  {
    match ev
    case Claim(worker, leaseSecs, now) =>
      var target := ClaimTarget(q, worker, leaseSecs, now);
      if target.Some? {
        assert WellShaped(q[target.value.0]);
        ReplaceKeepsShape(q, target.value.0, target.value.1, now);
      }
    case Release(key, worker, now) =>
      if OwnedBy(q, key, worker) {
        ReplaceKeepsShape(q, FirstIndex(q, WithKey(key)), Released(Find(q, key).value), now);
      }
    case Requeue(key, worker, outcome, now) =>
      if OwnedBy(q, key, worker) {
        ReplaceKeepsShape(q, FirstIndex(q, WithKey(key)), Attempted(Find(q, key).value, outcome, now), now);
      }
    case Record(key, outcome, now) =>
      if Find(q, key).Some? {
        ReplaceKeepsShape(q, FirstIndex(q, WithKey(key)), Attempted(Find(q, key).value, outcome, now), now);
      }
    case Rebuild(catalog, now) =>
      var built := Map(catalog, Builder(q, now));
      forall e | e in built ensures WellShaped(e) {
        var i :| 0 <= i < |built| && built[i] == e;
        BuildKeepsShape(catalog[i], q, now);
      }
      SortPermutes(built, Before(now));
  }

  /** In every reachable queue every entry is well shaped; recorded attempts that bypass the leases included. */
  lemma {:induction false} ReachableShape(q: seq<Entry>, evs: seq<Event>)
    requires AllWellShaped(q)
    ensures AllWellShaped(Run(q, evs))
    decreases |evs|
  {
    if evs != [] {
      StepKeepsShape(q, evs[0]);
      ReachableShape(Step(q, evs[0]), evs[1..]);
    }
  }

  function Both(now: u64): Entry -> bool {
    (e: Entry) => HasActiveLease(e, now) && InBackoff(e, now)
  }

  function Tried(): Entry -> bool {
    (e: Entry) => e.lastOutcome.Some?
  }

  function TriedAtLeastOnce(): Entry -> bool {
    (e: Entry) => e.attempts > 0
  }

  /** The three states of an entry overlap only where a lease meets a backoff; outcomes are split three ways. */
  lemma {:induction false} SummaryBalance(q: seq<Entry>, now: u64)
    ensures var s := Summarized(q, now);
      && s.claimable + s.leased + s.backedOff == s.total + Count(q, Both(now))
      && s.failed + s.timedOut + s.succeeded == Count(q, Tried())
  {
    if q != [] {
      var last := q[|q| - 1];
      SummaryBalance(q[..|q| - 1], now);
      assert OutcomeRank(last.lastOutcome) in {0, 1, 2, 3};
    }
  }

  lemma {:induction false} SameCount(q: seq<Entry>, p: Entry -> bool, p': Entry -> bool)
    requires forall e :: e in q ==> p(e) == p'(e)
    ensures Count(q, p) == Count(q, p')
  {
    if q != [] {
      SameCount(q[..|q| - 1], p, p');
    }
  }

  lemma {:induction false} NoneCounted(q: seq<Entry>, p: Entry -> bool)
    ensures Count(q, p) == 0 <==> forall e :: e in q ==> !p(e)
  {
    if q != [] {
      NoneCounted(q[..|q| - 1], p);
      assert q == q[..|q| - 1] + [q[|q| - 1]];
    }
  }

  /** Claimable, leased and backed-off entries add up exactly when no entry is leased and backed off at once. */
  lemma SummaryAddsUpExactly(q: seq<Entry>, now: u64)
    ensures var s := Summarized(q, now);
      s.claimable + s.leased + s.backedOff == s.total
      <==> forall e :: e in q ==> !(HasActiveLease(e, now) && InBackoff(e, now))
  {
    SummaryBalance(q, now);
    NoneCounted(q, Both(now));
    assert forall e :: Both(now)(e) <==> HasActiveLease(e, now) && InBackoff(e, now);
  }

  /** In every reachable queue, at any time, the summary adds up. */
  lemma ReachableSummaryAddsUp(evs: seq<Event>, now: u64)
    ensures var s := Summarized(Run([], evs), now);
      && s.claimable + s.leased + s.backedOff == s.total
      && s.failed + s.timedOut + s.succeeded == Count(Run([], evs), TriedAtLeastOnce())
  {
    var q := Run([], evs);
    ReachableShape([], evs);
    SummaryAddsUpExactly(q, now);
    SummaryBalance(q, now);
    SameCount(q, Tried(), TriedAtLeastOnce());
  }

  // ---------------------------------------------------------------- one live lease per worker

  predicate Holds(q: seq<Entry>, key: Key, worker: string, now: u64) {
    Find(q, key).Some? && HeldBy(Find(q, key).value, worker, now)
  }

  ghost predicate OneLeaseEach(q: seq<Entry>, now: u64) {
    forall k1, k2, worker :: Holds(q, k1, worker, now) && Holds(q, k2, worker, now) ==> k1 == k2
  }

  /** Whoever holds an entry after a step held it before, unless a claim just gave it to someone holding nothing. */
  lemma HoldersComeFromClaims(q: seq<Entry>, ev: Event, key: Key, worker: string)
    requires UniqueKeys(q) && (ev.Rebuild? ==> UniqueCatalog(ev.catalog))
    requires Holds(Step(q, ev), key, worker, ev.now)
    ensures
      || Holds(q, key, worker, ev.now)
      || (&& ev.Claim? && ev.worker == worker && (forall k :: !Holds(q, k, worker, ev.now))
          && ClaimTarget(q, worker, ev.leaseSecs, ev.now).Some?
          && KeyOf(ClaimTarget(q, worker, ev.leaseSecs, ev.now).value.1) == key)
  {
    StepLookups(q, ev, key);
    if ev.Claim? && ev.worker == worker {
      var held := FirstIndex(q, Held(worker, ev.now));
      if held < |q| {
        FindUnique(q, q[held]);
      } else {
        assert forall e :: e in q ==> !Held(worker, ev.now)(e);
      }
    }
  }

  lemma StepKeepsOneLease(q: seq<Entry>, ev: Event, before: u64)
    requires UniqueKeys(q) && (ev.Rebuild? ==> UniqueCatalog(ev.catalog))
    requires before <= ev.now && OneLeaseEach(q, before)
    ensures OneLeaseEach(Step(q, ev), ev.now)
  {
    var q' := Step(q, ev);
    forall k1, k2, worker | Holds(q', k1, worker, ev.now) && Holds(q', k2, worker, ev.now) ensures k1 == k2 {
      HoldersComeFromClaims(q, ev, k1, worker);
      HoldersComeFromClaims(q, ev, k2, worker);
      assert Holds(q, k1, worker, ev.now) ==> Holds(q, k1, worker, before);
      assert Holds(q, k2, worker, ev.now) ==> Holds(q, k2, worker, before);
    }
  }

  lemma {:induction false} RunKeepsOneLease(q: seq<Entry>, evs: seq<Event>, start: u64)
    requires UniqueKeys(q) && OneLeaseEach(q, start)
    requires Timely(evs, start) && CatalogsUnique(evs)
    ensures UniqueKeys(Run(q, evs)) && OneLeaseEach(Run(q, evs), EndTime(evs, start))
    decreases |evs|
  {
    if evs != [] {
      StepKeepsOneLease(q, evs[0], start);
      StepLookups(q, evs[0], Key("", ""));
      RunKeepsOneLease(Step(q, evs[0]), evs[1..], evs[0].now);
    }
  }

  /** In every run in which time does not run backwards, no worker ever holds two live leases. */
  lemma OneLiveLeasePerWorker(evs: seq<Event>, now: u64, worker: string, i: nat, j: nat)
    requires Timely(evs, 0) && CatalogsUnique(evs) && EndTime(evs, 0) <= now
    requires i < j < |Run([], evs)|
    ensures !(HeldBy(Run([], evs)[i], worker, now) && HeldBy(Run([], evs)[j], worker, now))
  {
    var q := Run([], evs);
    RunKeepsOneLease([], evs, 0);
    FindUnique(q, q[i]);
    FindUnique(q, q[j]);
    assert HeldBy(q[i], worker, now) ==> Holds(q, KeyOf(q[i]), worker, EndTime(evs, 0));
    assert HeldBy(q[j], worker, now) ==> Holds(q, KeyOf(q[j]), worker, EndTime(evs, 0));
  }

  // ---------------------------------------------------------------- leases are stable

  /** Steps that are not `worker`'s own, do not bypass leases on `key`, and keep `key` in the catalog. */
  predicate Foreign(ev: Event, key: Key, worker: string) {
    match ev
    case Claim(w, _, _) => w != worker
    case Release(k, w, _) => k == key ==> w != worker
    case Requeue(k, w, _, _) => k == key ==> w != worker
    case Record(k, _, _) => k != key
    case Rebuild(catalog, _) => FirstIndex(catalog, Listed(key)) < |catalog|
  }

  predicate SameLease(e: Entry, e': Entry) {
    e'.leaseOwner == e.leaseOwner && e'.leaseExpires == e.leaseExpires
    && e'.attempts == e.attempts && e'.lastAttempt == e.lastAttempt
  }

  lemma StepKeepsLease(q: seq<Entry>, ev: Event, key: Key, worker: string)
    requires UniqueKeys(q) && (ev.Rebuild? ==> UniqueCatalog(ev.catalog))
    requires Find(q, key).Some? && HasActiveLease(Find(q, key).value, ev.now)
    requires Find(q, key).value.leaseOwner == Some(worker) && Foreign(ev, key, worker)
    ensures Find(Step(q, ev), key).Some? && SameLease(Find(q, key).value, Find(Step(q, ev), key).value)
  {
    StepLookups(q, ev, key);
    if ev.Claim? && ClaimTarget(q, ev.worker, ev.leaseSecs, ev.now).Some? {
      var i := ClaimTarget(q, ev.worker, ev.leaseSecs, ev.now).value.0;
      FindUnique(q, q[i]);
    }
  }

  /** A run of others' steps, all before the lease of `worker` on `key` expires. */
  ghost predicate DuringLease(q: seq<Entry>, evs: seq<Event>, start: u64, key: Key, worker: string) {
    && UniqueKeys(q) && CatalogsUnique(evs) && Timely(evs, start)
    && Find(q, key).Some? && Find(q, key).value.leaseOwner == Some(worker)
    && Find(q, key).value.leaseExpires.Some? && EndTime(evs, start) < Find(q, key).value.leaseExpires.value
    && forall ev :: ev in evs ==> Foreign(ev, key, worker)
  }

  ghost predicate LeaseSurvives(q: seq<Entry>, evs: seq<Event>, key: Key)
    requires Find(q, key).Some?
  {
    Find(Run(q, evs), key).Some? && SameLease(Find(q, key).value, Find(Run(q, evs), key).value)
  }

  /** From a claim until the lease expires, nobody else's steps and no rebuild touch owner, expiry or attempts. */
  lemma {:induction false} LeaseIsStable(q: seq<Entry>, evs: seq<Event>, start: u64, key: Key, worker: string)
    requires DuringLease(q, evs, start, key, worker) && worker != ""
    ensures LeaseSurvives(q, evs, key)
    decreases |evs|
  {
    if evs != [] {
      EndTimeIsLast(evs[1..], evs[0].now);
      StepKeepsLease(q, evs[0], key, worker);
      StepLookups(q, evs[0], key);
      LeaseIsStable(Step(q, evs[0]), evs[1..], evs[0].now, key, worker);
    }
  }

  lemma AloneAndFree(e: Entry, worker: string, leaseSecs: u64, now: u64)
    requires Claimable(e, now) && !HeldBy(e, worker, now)
    ensures Step([e], Claim(worker, leaseSecs, now)) == [Granted(e, worker, leaseSecs, now)]
  {
    var g := Granted(e, worker, leaseSecs, now);
    assert Free(now)(e) && !Held(worker, now)(e);
    assert ClaimTarget([e], worker, leaseSecs, now) == Some((0, g));
    assert [e][0 := g] == [g];
    SortKeepsSorted([g], Before(now));
  }

  /** A lease under the empty name protects nothing: the next worker takes the entry over at once. */
  lemma EmptyNameIsUnprotected(e: Entry, worker: string, now: u64) returns (q: seq<Entry>, evs: seq<Event>)
    requires Claimable(e, now) && e.leaseOwner.None? && worker != "" && now < U64_MAX
    ensures q == Step([e], Claim("", 1, now)) && evs == [Claim(worker, 1, now)]
    ensures DuringLease(q, evs, now, KeyOf(e), "") && !LeaseSurvives(q, evs, KeyOf(e))
  {
    var e' := Granted(e, "", 1, now);
    q, evs := [e'], [Claim(worker, 1, now)];
    AloneAndFree(e, "", 1, now);
    AloneAndFree(e', worker, 1, now);
    var e'' := Granted(e', worker, 1, now);
    assert Run(q, evs) == [e''] by {
      assert evs[1..] == [];
    }
    FindUnique([e'], e');
    FindUnique([e''], e'');
    assert EndTime(evs, now) == now by {
      assert evs[1..] == [];
    }
  }

  /** A worker's leases are stable, in all queues and runs, exactly when the worker has a name. */
  lemma LeasesAreStableExactlyForNamed(worker: string)
    ensures (forall q, evs, start, key :: DuringLease(q, evs, start, key, worker) ==> LeaseSurvives(q, evs, key))
       <==> worker != ""
  {
    if worker == "" {
      var e := Entry("crash", "", "", 0, 0, 0, 0, 0, None, None, None, None, None);
      var q, evs := EmptyNameIsUnprotected(e, "w", 0);
    } else {
      forall q, evs, start, key | DuringLease(q, evs, start, key, worker) ensures LeaseSurvives(q, evs, key) {
        LeaseIsStable(q, evs, start, key, worker);
      }
    }
  }

  lemma {:induction false} EndTimeIsLast(evs: seq<Event>, start: u64)
    requires Timely(evs, start)
    ensures start <= EndTime(evs, start)
  {
    if evs != [] {
      EndTimeIsLast(evs[1..], evs[0].now);
    }
  }

  // ---------------------------------------------------------------- attempts are spaced out

  /** Until `due` the entry is backed off and unleased, so nobody can requeue it. */
  predicate BlockedUntil(e: Entry, due: u64, now: u64) {
    due <= now || (e.leaseOwner.None? && e.notBefore.Some? && due <= e.notBefore.value)
  }

  /** Steps that go through claims, and that keep `key` in the catalog. */
  predicate ThroughClaims(ev: Event, key: Key) {
    match ev
    case Record(k, _, _) => k != key
    case Rebuild(catalog, _) => FirstIndex(catalog, Listed(key)) < |catalog|
    case _ => true
  }

  lemma ClaimKeepsBlocked(q: seq<Entry>, ev: Event, key: Key, due: u64)
    requires UniqueKeys(q) && ev.Claim?
    requires Find(q, key).Some? && BlockedUntil(Find(q, key).value, due, ev.now)
    ensures Next(q, ev, key).Some? && BlockedUntil(Next(q, ev, key).value, due, ev.now)
  {
    var target := ClaimTarget(q, ev.worker, ev.leaseSecs, ev.now);
    if target.Some? {
      FindUnique(q, q[target.value.0]);
    }
  }

  lemma StepKeepsBlocked(q: seq<Entry>, ev: Event, key: Key, due: u64, before: u64)
    requires UniqueKeys(q) && (ev.Rebuild? ==> UniqueCatalog(ev.catalog)) && before <= ev.now
    requires Find(q, key).Some? && BlockedUntil(Find(q, key).value, due, before) && ThroughClaims(ev, key)
    ensures Find(Step(q, ev), key).Some? && BlockedUntil(Find(Step(q, ev), key).value, due, ev.now)
  {
    StepLookups(q, ev, key);
    match ev
    case Claim(_, _, _) => ClaimKeepsBlocked(q, ev, key, due);
    case Rebuild(catalog, now) => BuildCarriesOver(catalog[FirstIndex(catalog, Listed(key))], q, now);
    case _ =>
  }

  lemma {:induction false} RunKeepsBlocked(q: seq<Entry>, evs: seq<Event>, key: Key, due: u64, start: u64)
    requires UniqueKeys(q) && CatalogsUnique(evs) && Timely(evs, start)
    requires Find(q, key).Some? && BlockedUntil(Find(q, key).value, due, start)
    requires forall ev :: ev in evs ==> ThroughClaims(ev, key)
    ensures UniqueKeys(Run(q, evs))
    ensures Find(Run(q, evs), key).Some? && BlockedUntil(Find(Run(q, evs), key).value, due, EndTime(evs, start))
    decreases |evs|
  {
    if evs != [] {
      StepKeepsBlocked(q, evs[0], key, due, start);
      StepLookups(q, evs[0], key);
      RunKeepsBlocked(Step(q, evs[0]), evs[1..], key, due, evs[0].now);
    }
  }

  /** The time at which an entry attempted at `now` may be tried again. */
  function Due(outcome: string, attempts: nat, now: u64): u64
    requires Canonical(outcome) != "succeeded"
  {
    SaturatingAdd(now, BackoffSecs(outcome, attempts).value)
  }

  /**
   After a requeue that did not succeed, any later requeue of the same entry, in any run that goes
   through claims and keeps the artifact in the catalog, comes no earlier than the backoff allows:
   60 to 3000 seconds later, or at the end of 64-bit time.
   */
  lemma AttemptsAreSpaced(q: seq<Entry>, first: Event, evs: seq<Event>, second: Event)
    requires UniqueKeys(q) && CatalogsUnique(evs)
    requires first.Requeue? && OwnedBy(q, first.key, first.worker) && Canonical(first.outcome) != "succeeded"
    requires Timely(evs, first.now) && EndTime(evs, first.now) <= second.now
    requires forall ev :: ev in evs ==> ThroughClaims(ev, first.key)
    requires second.Requeue? && second.key == first.key
    requires OwnedBy(Run(Step(q, first), evs), second.key, second.worker)
    ensures Due(first.outcome, Find(q, first.key).value.attempts + 1, first.now) <= second.now
    ensures first.now + 60 <= second.now || second.now == U64_MAX
  {
    var due := Due(first.outcome, Find(q, first.key).value.attempts + 1, first.now);
    StepLookups(q, first, first.key);
    RunKeepsBlocked(Step(q, first), evs, first.key, due, first.now);
  }

  // ---------------------------------------------------------------- rebuilding

  /** `e'` carries over the history and whatever is still live at `now` from the earlier entry, if there was one. */
  predicate CarriedOver(earlier: Option<Entry>, e': Entry, now: u64) {
    if earlier.None? then
      && e'.attempts == 0 && e'.lastOutcome.None? && e'.lastAttempt.None?
      && e'.notBefore.None? && e'.leaseOwner.None? && e'.leaseExpires.None?
    else
      var e := earlier.value;
      && e'.attempts == e.attempts && e'.lastAttempt == e.lastAttempt
      && (e'.lastOutcome.Some? <==> e.lastOutcome.Some?)
      && (e.lastOutcome.Some? ==> e'.lastOutcome.value == Canonical(e.lastOutcome.value))
      && (if HasActiveLease(e, now) then e'.leaseOwner == e.leaseOwner && e'.leaseExpires == e.leaseExpires
          else e'.leaseOwner.None? && e'.leaseExpires.None?)
      && e'.notBefore == (if InBackoff(e, now) then e.notBefore else None)
  }

  lemma BuildCarriesOver(c: CatalogEntry, q: seq<Entry>, now: u64)
    ensures CarriedOver(Find(q, CatalogKey(c)), BuildEntry(c, q, now), now)
  {
  }

  /**
   A rebuild keeps everything live about every key the catalog still lists, starts new keys afresh, drops the
   rest.
   */
  lemma RebuildKeepsState(q: seq<Entry>, catalog: seq<CatalogEntry>, now: u64, key: Key)
    requires UniqueCatalog(catalog)
    ensures Find(AfterRebuild(q, catalog, now), key).Some? <==> exists c :: c in catalog && CatalogKey(c) == key
    ensures Find(AfterRebuild(q, catalog, now), key).Some? ==>
      CarriedOver(Find(q, key), Find(AfterRebuild(q, catalog, now), key).value, now)
  {
    RebuildLookups(q, catalog, now, key);
    var i := FirstIndex(catalog, Listed(key));
    if i == |catalog| {
      forall c | c in catalog ensures CatalogKey(c) != key {
        assert !Listed(key)(c);
      }
    } else {
      BuildCarriesOver(catalog[i], q, now);
    }
  }

  lemma BuiltTwice(c: CatalogEntry, c': CatalogEntry, q: seq<Entry>, q': seq<Entry>, now: u64)
    requires CatalogKey(c) == CatalogKey(c')
    requires Find(q', CatalogKey(c)) == Some(BuildEntry(c', q, now))
    ensures BuildEntry(c, q', now) == BuildEntry(c, q, now)
  {
    BuildCarriesOver(c', q, now);
    BuildCarriesOver(c, q, now);
    BuildCarriesOver(c, q', now);
    var earlier := Find(q, CatalogKey(c));
    if earlier.Some? && earlier.value.lastOutcome.Some? {
      CanonicalIsIdempotent(earlier.value.lastOutcome.value);
    }
  }

  lemma FoundAfterRebuild(c: CatalogEntry, q: seq<Entry>, catalog: seq<CatalogEntry>, now: u64)
    returns (c': CatalogEntry)
    requires c in catalog
    ensures CatalogKey(c') == CatalogKey(c)
    ensures Find(AfterRebuild(q, catalog, now), CatalogKey(c)) == Some(Builder(q, now)(c'))
  {
    var built := Map(catalog, Builder(q, now));
    var i :| 0 <= i < |catalog| && catalog[i] == c;
    var j := FindInSorted(built, i, now);
    c' := catalog[j];
  }

  lemma FindInSorted(built: seq<Entry>, i: nat, now: u64) returns (j: nat)
    requires i < |built|
    ensures j < |built| && KeyOf(built[j]) == KeyOf(built[i])
    ensures Find(SortQueue(built, now), KeyOf(built[i])) == Some(built[j])
  {
    SortPermutes(built, Before(now));
    assert built[i] in SortQueue(built, now);
    var found := Find(SortQueue(built, now), KeyOf(built[i]));
    assert found.value in built;
    j :| 0 <= j < |built| && built[j] == found.value;
  }

  lemma RebuiltEntryIsStable(c: CatalogEntry, q: seq<Entry>, catalog: seq<CatalogEntry>, now: u64)
    requires c in catalog
    ensures BuildEntry(c, AfterRebuild(q, catalog, now), now) == BuildEntry(c, q, now)
  {
    var c' := FoundAfterRebuild(c, q, catalog, now);
    BuiltTwice(c, c', q, AfterRebuild(q, catalog, now), now);
  }

  lemma {:induction false} SameMap(catalog: seq<CatalogEntry>, f: CatalogEntry -> Entry, g: CatalogEntry -> Entry)
    requires forall c :: c in catalog ==> f(c) == g(c)
    ensures Map(catalog, f) == Map(catalog, g)
  {
    if catalog != [] {
      SameMap(catalog[1..], f, g);
    }
  }

  /** Rebuilding twice at the same time is rebuilding once, even from a catalog that repeats keys. */
  lemma RebuildIsIdempotent(q: seq<Entry>, catalog: seq<CatalogEntry>, now: u64)
    ensures AfterRebuild(AfterRebuild(q, catalog, now), catalog, now) == AfterRebuild(q, catalog, now)
  {
    var once := AfterRebuild(q, catalog, now);
    forall c | c in catalog ensures Builder(once, now)(c) == Builder(q, now)(c) {
      RebuiltEntryIsStable(c, q, catalog, now);
    }
    SameMap(catalog, Builder(once, now), Builder(q, now));
  }
}
