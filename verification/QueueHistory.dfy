/** What an entry of the repro queue says after a run, told from the events of the run. */
module QueueHistory {
  import opened MachineInts
  import opened Wrappers
  import opened Ordering
  import opened ReproEntry
  import opened ReproOutcomes
  import opened QueueSteps
  import opened QueueLookup
  import opened QueueSafety

  // ---------------------------------------------------------------- how long a claim lasts

  /** The first second at which a claim made at `now` is over: at least one second later, at most the end of time. */
  function ClaimEnd(now: u64, leaseSecs: u64): nat {
    var end: nat := now + (if leaseSecs == 0 then 1 else leaseSecs);
    if end < U64_MAX then end else U64_MAX
  }

  /**
   What a named worker gets is leased to it for exactly the seconds it asked for, whether the claim grants or renews;
   apart from that it is an entry of the queue unchanged, a backoff that is over erased.
   */
  lemma ClaimLasts(q: seq<Entry>, worker: string, leaseSecs: u64, now: u64, at: u64)
    requires worker != "" && now <= at && ClaimedEntry(q, worker, leaseSecs, now).Some?
    ensures var e := ClaimedEntry(q, worker, leaseSecs, now).value;
      && e.leaseOwner == Some(worker)
      && (HasActiveLease(e, at) <==> at < ClaimEnd(now, leaseSecs))
      && exists e0 :: e0 in q && SameButLease(e0, e, now)
  {
    var i := ClaimTarget(q, worker, leaseSecs, now).value.0;
    assert SameButLease(q[i], ClaimedEntry(q, worker, leaseSecs, now).value, now);
  }

  predicate SameButLease(e: Entry, e': Entry, now: u64) {
    && e'.(leaseOwner := e.leaseOwner, leaseExpires := e.leaseExpires, notBefore := e.notBefore) == e
    && e'.notBefore == (if e.notBefore.GetOr(0) > now then e.notBefore else None)
  }

  /** Leased to this worker, with the lease still running. */
  predicate OwnLive(e: Entry, worker: string, now: u64) {
    e.leaseOwner == Some(worker) && e.leaseExpires.GetOr(0) > now
  }

  /** Neither backed off nor leased to anybody with a name. */
  predicate UpForGrabs(e: Entry, now: u64) {
    e.notBefore.GetOr(0) <= now && (e.leaseOwner.GetOr("") == "" || e.leaseExpires.GetOr(0) <= now)
  }

  /**
   A claim returns the first entry the worker still holds, or else the first that is up for grabs, and fails only if
   there is neither.
   */
  lemma ClaimPicksTheFirst(q: seq<Entry>, worker: string, leaseSecs: u64, now: u64)
    ensures var claimed := ClaimedEntry(q, worker, leaseSecs, now);
      if exists i :: 0 <= i < |q| && OwnLive(q[i], worker, now) then
        && claimed.Some?
        && exists i :: 0 <= i < |q| && OwnLive(q[i], worker, now) && SameButLease(q[i], claimed.value, now)
                       && forall j :: 0 <= j < i ==> !OwnLive(q[j], worker, now)
      else if exists i :: 0 <= i < |q| && UpForGrabs(q[i], now) then
        && claimed.Some?
        && exists i :: 0 <= i < |q| && UpForGrabs(q[i], now) && SameButLease(q[i], claimed.value, now)
                       && forall j :: 0 <= j < i ==> !UpForGrabs(q[j], now)
      else claimed.None?
  {
    var held, free := FirstIndex(q, Held(worker, now)), FirstIndex(q, Free(now));
    forall i | 0 <= i < |q|
      ensures Held(worker, now)(q[i]) == OwnLive(q[i], worker, now) && Free(now)(q[i]) == UpForGrabs(q[i], now)
    {
    }
    if held < |q| {
      assert OwnLive(q[held], worker, now);
    } else if free < |q| {
      assert UpForGrabs(q[free], now);
    }
  }

  lemma ClaimedIsStored(q: seq<Entry>, worker: string, leaseSecs: u64, now: u64)
    requires UniqueKeys(q) && ClaimedEntry(q, worker, leaseSecs, now).Some?
    ensures var e := ClaimedEntry(q, worker, leaseSecs, now).value;
      Find(Step(q, Claim(worker, leaseSecs, now)), KeyOf(e)) == Some(e)
    ensures UniqueKeys(Step(q, Claim(worker, leaseSecs, now)))
  {
    var e := ClaimedEntry(q, worker, leaseSecs, now).value;
    StepLookups(q, Claim(worker, leaseSecs, now), KeyOf(e));
  }

  /** The run after a claim of `key`: nothing in it is the worker's own, and it ends before the claim does. */
  ghost predicate AfterClaiming(
    q: seq<Entry>, worker: string, leaseSecs: u64, now: u64, key: Key, evs: seq<Event>)
  {
    && UniqueKeys(q) && CatalogsUnique(evs) && Timely(evs, now)
    && ClaimedEntry(q, worker, leaseSecs, now).Some? && KeyOf(ClaimedEntry(q, worker, leaseSecs, now).value) == key
    && (forall ev :: ev in evs ==> Foreign(ev, key, worker))
    && EndTime(evs, now) < ClaimEnd(now, leaseSecs)
  }

  /** A named worker keeps what it claimed for exactly the seconds it asked for, through every run of others' steps. */
  lemma ClaimIsKept(
    q: seq<Entry>, worker: string, leaseSecs: u64, now: u64, key: Key, evs: seq<Event>, at: u64)
    requires worker != "" && AfterClaiming(q, worker, leaseSecs, now, key, evs) && EndTime(evs, now) <= at
    ensures var found := Find(Run(Step(q, Claim(worker, leaseSecs, now)), evs), key);
      && found.Some? && found.value.leaseOwner == Some(worker)
      && (HasActiveLease(found.value, at) <==> at < ClaimEnd(now, leaseSecs))
  {
    var claim, end := Claim(worker, leaseSecs, now), EndTime(evs, now);
    EndTimeIsLast(evs, now);
    ClaimedIsStored(q, worker, leaseSecs, now);
    ClaimLasts(q, worker, leaseSecs, now, end);
    ClaimLasts(q, worker, leaseSecs, now, at);
    LeaseIsStable(Step(q, claim), evs, now, key, worker);
  }

  lemma {:induction false} RunKeepsUnique(q: seq<Entry>, evs: seq<Event>)
    requires UniqueKeys(q) && CatalogsUnique(evs)
    ensures UniqueKeys(Run(q, evs))
    decreases |evs|
  {
    if evs != [] {
      StepLookups(q, evs[0], Key("", ""));
      RunKeepsUnique(Step(q, evs[0]), evs[1..]);
    }
  }

  /** All that time no claim of anybody else returns it. */
  lemma ClaimIsExclusive(
    q: seq<Entry>, worker: string, leaseSecs: u64, now: u64, key: Key, evs: seq<Event>,
    other: string, otherSecs: u64, at: u64)
    requires worker != "" && AfterClaiming(q, worker, leaseSecs, now, key, evs)
    requires EndTime(evs, now) <= at < ClaimEnd(now, leaseSecs) && other != worker
    ensures var claimed := ClaimedEntry(Run(Step(q, Claim(worker, leaseSecs, now)), evs), other, otherSecs, at);
      claimed.Some? ==> KeyOf(claimed.value) != key
  {
    var q' := Run(Step(q, Claim(worker, leaseSecs, now)), evs);
    ClaimIsKept(q, worker, leaseSecs, now, key, evs, at);
    ClaimedIsStored(q, worker, leaseSecs, now);
    RunKeepsUnique(Step(q, Claim(worker, leaseSecs, now)), evs);
    var target := ClaimTarget(q', other, otherSecs, at);
    if target.Some? {
      FindUnique(q', q'[target.value.0]);
    }
  }

  // ---------------------------------------------------------------- what one step leaves behind

  /** The event is an attempt of `key` that counts: by the recorded owner, or recorded past the leases. */
  predicate Attempts(q: seq<Entry>, ev: Event, key: Key) {
    match ev
    case Requeue(k, worker, _, _) => k == key && Find(q, key).Some? && Find(q, key).value.leaseOwner == Some(worker)
    case Record(k, _, _) => k == key && Find(q, key).Some?
    case _ => false
  }

  /** When an entry attempted at `now` for the `attempts`th time may be claimed again. */
  ghost function WaitEnd(outcome: string, attempts: nat, now: u64): nat {
    var end := now + WaitUnit(outcome) * (if attempts <= 10 then attempts else 10);
    if end < U64_MAX then end else U64_MAX
  }

  /** An attempt ends the lease, counts, and keeps everybody away for the time its outcome stands for. */
  lemma AttemptWaits(q: seq<Entry>, ev: Event, key: Key, at: u64)
    requires UniqueKeys(q) && Attempts(q, ev, key)
    ensures Find(Step(q, ev), key).Some?
    ensures var e, e' := Find(q, key).value, Find(Step(q, ev), key).value;
      && e'.leaseOwner.None? && e'.leaseExpires.None?
      && (Claimable(e', at) <==>
            SpellsOne(ev.outcome, SUCCESS_WORDS) || WaitEnd(ev.outcome, e.attempts + 1, ev.now) <= at)
      && (e'.notBefore.None? <==> SpellsOne(ev.outcome, SUCCESS_WORDS))
      && (e'.notBefore.Some? ==> e'.notBefore.value == WaitEnd(ev.outcome, e.attempts + 1, ev.now))
  {
    StepLookups(q, ev, key);
    WaitsByWord(ev.outcome, Find(q, key).value.attempts + 1);
  }

  /** A release takes the lease of its own worker away and nothing else; a claim may follow at once. */
  lemma ReleaseFrees(q: seq<Entry>, key: Key, worker: string, now: u64)
    requires UniqueKeys(q) && Find(q, key).Some?
    ensures var e, found := Find(q, key).value, Find(Step(q, Release(key, worker, now)), key);
      && found.Some?
      && found.value == (if e.leaseOwner == Some(worker) then e.(leaseOwner := None, leaseExpires := None) else e)
  {
    StepLookups(q, Release(key, worker, now), key);
  }

  // ---------------------------------------------------------------- the history of an entry

  datatype Attempt = Attempt(outcome: string, at: u64)

  /** The attempts of `key` that count in a run, in order. */
  function AttemptsIn(q: seq<Entry>, evs: seq<Event>, key: Key): seq<Attempt>
    decreases |evs|
  {
    if evs == [] then []
    else
      (if Attempts(q, evs[0], key) then [Attempt(evs[0].outcome, evs[0].now)] else [])
      + AttemptsIn(Step(q, evs[0]), evs[1..], key)
  }

  /** The listings of `key` in the catalogs of a run, in order; of several in one catalog, the first. */
  function ListingsIn(evs: seq<Event>, key: Key): seq<CatalogEntry> {
    if evs == [] then [] else ListingsOf(evs[0], key) + ListingsIn(evs[1..], key)
  }

  function ListingsOf(ev: Event, key: Key): seq<CatalogEntry> {
    if ev.Rebuild? && FirstIndex(ev.catalog, Listed(key)) < |ev.catalog|
    then [ev.catalog[FirstIndex(ev.catalog, Listed(key))]] else []
  }

  ghost predicate KeepsListed(evs: seq<Event>, key: Key) {
    forall ev :: ev in evs && ev.Rebuild? ==> FirstIndex(ev.catalog, Listed(key)) < |ev.catalog|
  }

  /** `e'` has made the further attempts of the list; outcomes are compared as they are understood. */
  predicate HasMade(e: Entry, e': Entry, made: seq<Attempt>) {
    && e'.attempts == e.attempts + |made|
    && (if made == [] then
          && e'.lastAttempt == e.lastAttempt && (e'.lastOutcome.Some? <==> e.lastOutcome.Some?)
          && (e.lastOutcome.Some? ==> Canonical(e'.lastOutcome.value) == Canonical(e.lastOutcome.value))
        else
          && e'.lastAttempt == Some(made[|made| - 1].at) && e'.lastOutcome.Some?
          && Canonical(e'.lastOutcome.value) == Canonical(made[|made| - 1].outcome))
  }

  /** What is known about the artifact is what its last listing says, or what was known before. */
  predicate IsAbout(e: Entry, e': Entry, listings: seq<CatalogEntry>) {
    if listings == [] then
      && e'.text == e.text && e'.occurrences == e.occurrences && e'.priority == e.priority
      && e'.firstSeen == e.firstSeen && e'.lastSeen == e.lastSeen
    else
      var c := listings[|listings| - 1];
      && e'.text == c.text && e'.occurrences == c.occurrences && e'.priority == ArtifactPriority(c)
      && e'.firstSeen == c.firstSeen && e'.lastSeen == c.lastSeen
  }

  lemma ClaimKeepsHistory(q: seq<Entry>, ev: Event, key: Key)
    requires UniqueKeys(q) && ev.Claim? && Find(q, key).Some?
    ensures Next(q, ev, key).Some?
    ensures HasMade(Find(q, key).value, Next(q, ev, key).value, [])
    ensures IsAbout(Find(q, key).value, Next(q, ev, key).value, [])
  {
    var target := ClaimTarget(q, ev.worker, ev.leaseSecs, ev.now);
    if target.Some? {
      FindUnique(q, q[target.value.0]);
    }
  }

  lemma AttemptKeepsHistory(e: Entry, outcome: string, now: u64)
    ensures HasMade(e, Attempted(e, outcome, now), [Attempt(outcome, now)])
    ensures IsAbout(e, Attempted(e, outcome, now), [])
  {
    CanonicalIsIdempotent(outcome);
  }

  lemma StepMakesHistory(q: seq<Entry>, ev: Event, key: Key)
    requires UniqueKeys(q) && (ev.Rebuild? ==> UniqueCatalog(ev.catalog)) && Find(q, key).Some?
    requires KeepsListed([ev], key)
    ensures Find(Step(q, ev), key).Some?
    ensures var e, e' := Find(q, key).value, Find(Step(q, ev), key).value;
      && HasMade(e, e', if Attempts(q, ev, key) then [Attempt(ev.outcome, ev.now)] else [])
      && IsAbout(e, e', ListingsOf(ev, key))
  {
    StepLookups(q, ev, key);
    match ev
    case Claim(_, _, _) => ClaimKeepsHistory(q, ev, key);
    case Rebuild(catalog, now) =>
      assert ev in [ev];
      BuildCarriesOver(catalog[FirstIndex(catalog, Listed(key))], q, now);
      if Find(q, key).value.lastOutcome.Some? {
        CanonicalIsIdempotent(Find(q, key).value.lastOutcome.value);
      }
    case Requeue(_, _, outcome, now) => AttemptKeepsHistory(Find(q, key).value, outcome, now);
    case Record(_, outcome, now) => AttemptKeepsHistory(Find(q, key).value, outcome, now);
    case _ =>
  }

  lemma HistoriesAddUp(e: Entry, e': Entry, e'': Entry, made: seq<Attempt>, more: seq<Attempt>)
    requires HasMade(e, e', made) && HasMade(e', e'', more)
    ensures HasMade(e, e'', made + more)
  {
    if more == [] {
      assert made + more == made;
    } else {
      assert (made + more)[|made + more| - 1] == more[|more| - 1];
    }
  }

  lemma ListingsAddUp(e: Entry, e': Entry, e'': Entry, first: seq<CatalogEntry>, more: seq<CatalogEntry>)
    requires IsAbout(e, e', first) && IsAbout(e', e'', more)
    ensures IsAbout(e, e'', first + more)
  {
    if more == [] {
      assert first + more == first;
    } else {
      assert (first + more)[|first + more| - 1] == more[|more| - 1];
    }
  }

  /**
   After any run that keeps the key in the catalogs, an entry counts exactly the attempts of the run, remembers the last
   of them, and describes the artifact as it was last listed.
   */
  lemma {:induction false} HistoryIsExact(q: seq<Entry>, evs: seq<Event>, key: Key)
    requires UniqueKeys(q) && CatalogsUnique(evs) && Find(q, key).Some? && KeepsListed(evs, key)
    ensures Find(Run(q, evs), key).Some?
    ensures var e, e' := Find(q, key).value, Find(Run(q, evs), key).value;
      HasMade(e, e', AttemptsIn(q, evs, key)) && IsAbout(e, e', ListingsIn(evs, key))
    decreases |evs|
  {
    if evs != [] {
      var q', made := Step(q, evs[0]), if Attempts(q, evs[0], key) then [Attempt(evs[0].outcome, evs[0].now)] else [];
      assert evs[0] in evs;
      StepLookups(q, evs[0], key);
      StepMakesHistory(q, evs[0], key);
      HistoryIsExact(q', evs[1..], key);
      var e, e', e'' := Find(q, key).value, Find(q', key).value, Find(Run(q, evs), key).value;
      HistoriesAddUp(e, e', e'', made, AttemptsIn(q', evs[1..], key));
      ListingsAddUp(e, e', e'', ListingsOf(evs[0], key), ListingsIn(evs[1..], key));
    }
  }

  // ---------------------------------------------------------------- the summary

  function Positions(q: seq<Entry>, p: Entry -> bool): set<nat> {
    set i: nat | i < |q| && p(q[i])
  }

  lemma {:induction false} CountIsCardinality(q: seq<Entry>, p: Entry -> bool)
    ensures Count(q, p) == |Positions(q, p)|
  {
    if q != [] {
      var n := |q| - 1;
      CountIsCardinality(q[..n], p);
      assert forall i: nat :: i < n ==> q[..n][i] == q[i];
      assert Positions(q, p) == Positions(q[..n], p) + (if p(q[n]) then {n} else {});
    } else {
      assert Positions(q, p) == {};
    }
  }

  lemma CountsWhere(q: seq<Entry>, p: Entry -> bool, p': Entry -> bool)
    requires forall e :: p(e) == p'(e)
    ensures Count(q, p) == |Positions(q, p')|
  {
    SameCount(q, p, p');
    CountIsCardinality(q, p');
  }

  function LastWas(name: string): Entry -> bool {
    (e: Entry) => e.lastOutcome.Some? && Canonical(e.lastOutcome.value) == name
  }

  function LastFailed(): Entry -> bool {
    (e: Entry) => e.lastOutcome.Some? && Canonical(e.lastOutcome.value) !in {"succeeded", "timed_out"}
  }

  function LeasedAt(now: u64): Entry -> bool {
    (e: Entry) => e.leaseOwner.GetOr("") != "" && e.leaseExpires.GetOr(0) > now
  }

  function BackedOff(now: u64): Entry -> bool {
    (e: Entry) => e.notBefore.GetOr(0) > now
  }

  function Available(now: u64): Entry -> bool {
    (e: Entry) => UpForGrabs(e, now)
  }

  /** Each number of a summary is the number of entries of its kind; unknown outcomes count as failures. */
  lemma SummaryCounts(q: seq<Entry>, now: u64)
    ensures var s := Summarized(q, now);
      && s.total == |q|
      && s.claimable == |Positions(q, Available(now))|
      && s.leased == |Positions(q, LeasedAt(now))|
      && s.backedOff == |Positions(q, BackedOff(now))|
      && s.failed == |Positions(q, LastFailed())|
      && s.timedOut == |Positions(q, LastWas("timed_out"))|
      && s.succeeded == |Positions(q, LastWas("succeeded"))|
  {
    assert forall e :: Free(now)(e) == Available(now)(e);
    CountsWhere(q, Free(now), Available(now));
    CountsWhere(q, Live(now), LeasedAt(now));
    CountsWhere(q, Waiting(now), BackedOff(now));
    CountsWhere(q, Ranked(1), LastFailed());
    CountsWhere(q, Ranked(2), LastWas("timed_out"));
    CountsWhere(q, Ranked(3), LastWas("succeeded"));
  }
}
