/**
 What each operation on the repro queue does to the stored list of entries, as functions of
 the list, the request and the time.
 */
module QueueSteps {
  import opened MachineInts
  import opened Wrappers
  import opened Ordering
  import opened ReproEntry

  /** The position of the first entry satisfying `p`, or the length of the queue. */
  function FirstIndex<T>(q: seq<T>, p: T -> bool): (i: nat)
    ensures i <= |q|
    ensures i < |q| ==> p(q[i])
    ensures forall j :: 0 <= j < i ==> !p(q[j])
  {
    if q == [] || p(q[0]) then 0 else 1 + FirstIndex(q[1..], p)
  }

  function WithKey(key: Key): Entry -> bool {
    (e: Entry) => KeyOf(e) == key
  }

  function Find(q: seq<Entry>, key: Key): (r: Option<Entry>)
    ensures r.Some? ==> r.value in q && KeyOf(r.value) == key
    ensures r.None? ==> forall e :: e in q ==> KeyOf(e) != key
  {
    var i := FirstIndex(q, WithKey(key));
    if i < |q| then Some(q[i]) else None
  }

  function SortQueue(q: seq<Entry>, now: u64): seq<Entry> {
    Sort(q, Before(now))
  }

  // ---------------------------------------------------------------- claim

  function Leased(e: Entry, worker: string, leaseSecs: u64, now: u64): Entry {
    e.(leaseOwner := Some(worker),
       leaseExpires := Some(SaturatingAdd(now, if leaseSecs < 1 then 1 else leaseSecs)))
  }

  function Renewed(e: Entry, worker: string, leaseSecs: u64, now: u64): Entry {
    Leased(e.(notBefore := RetainedBackoff(e, now)), worker, leaseSecs, now)
  }

  function Granted(e: Entry, worker: string, leaseSecs: u64, now: u64): Entry {
    Leased(e.(notBefore := None), worker, leaseSecs, now)
  }

  function Held(worker: string, now: u64): Entry -> bool {
    (e: Entry) => HeldBy(e, worker, now)
  }

  function Free(now: u64): Entry -> bool {
    (e: Entry) => Claimable(e, now)
  }

  /** The position and the new value of the entry a claim touches, if any. */
  function ClaimTarget(q: seq<Entry>, worker: string, leaseSecs: u64, now: u64): (r: Option<(nat, Entry)>)
    ensures r.Some? ==> r.value.0 < |q| && KeyOf(r.value.1) == KeyOf(q[r.value.0])
  {
    var held := FirstIndex(q, Held(worker, now));
    var free := FirstIndex(q, Free(now));
    if held < |q| then Some((held, Renewed(q[held], worker, leaseSecs, now)))
    else if free < |q| then Some((free, Granted(q[free], worker, leaseSecs, now)))
    else None
  }

  function AfterClaim(q: seq<Entry>, worker: string, leaseSecs: u64, now: u64): seq<Entry> {
    var target := ClaimTarget(q, worker, leaseSecs, now);
    if target.Some? then SortQueue(q[target.value.0 := target.value.1], now) else q
  }

  function ClaimedEntry(q: seq<Entry>, worker: string, leaseSecs: u64, now: u64): Option<Entry> {
    var target := ClaimTarget(q, worker, leaseSecs, now);
    if target.Some? then Some(target.value.1) else None
  }

  // ---------------------------------------------------------------- release, requeue, record

  function Released(e: Entry): Entry {
    e.(leaseOwner := None, leaseExpires := None)
  }

  function Attempted(e: Entry, outcome: string, now: u64): Entry {
    var attempts := e.attempts + 1;
    var wait := BackoffSecs(outcome, attempts);
    e.(attempts := attempts,
       lastAttempt := Some(now),
       lastOutcome := Some(Canonical(outcome)),
       notBefore := if wait.Some? then Some(SaturatingAdd(now, wait.value)) else None,
       leaseOwner := None,
       leaseExpires := None)
  }

  /** Replace the first entry with this key. */
  function Put(q: seq<Entry>, e: Entry): seq<Entry> {
    var i := FirstIndex(q, WithKey(KeyOf(e)));
    if i < |q| then q[i := e] else q
  }

  /** Only the recorded lease owner may release or requeue, whether or not the lease has expired. */
  predicate OwnedBy(q: seq<Entry>, key: Key, worker: string) {
    Find(q, key).Some? && Find(q, key).value.leaseOwner == Some(worker)
  }

  function AfterRelease(q: seq<Entry>, key: Key, worker: string, now: u64): seq<Entry> {
    if OwnedBy(q, key, worker) then SortQueue(Put(q, Released(Find(q, key).value)), now) else q
  }

  function AfterRequeue(q: seq<Entry>, key: Key, worker: string, outcome: string, now: u64): seq<Entry> {
    if OwnedBy(q, key, worker) then SortQueue(Put(q, Attempted(Find(q, key).value, outcome, now)), now) else q
  }

  function AfterRecord(q: seq<Entry>, key: Key, outcome: string, now: u64): seq<Entry> {
    if Find(q, key).Some? then SortQueue(Put(q, Attempted(Find(q, key).value, outcome, now)), now) else q
  }

  // ---------------------------------------------------------------- rebuild from the catalog

  function BuildEntry(c: CatalogEntry, queue: seq<Entry>, now: u64): Entry {
    var found := Find(queue, CatalogKey(c));
    var blank := Entry(c.artifactType, c.signature, c.text, c.occurrences, ArtifactPriority(c), 0,
                       c.firstSeen, c.lastSeen, None, None, None, None, None);
    if found.None? then blank
    else
      var previous := DropExpired(found.value, now);
      blank.(attempts := previous.attempts,
             lastAttempt := previous.lastAttempt,
             lastOutcome := if previous.lastOutcome.Some? then Some(Canonical(previous.lastOutcome.value)) else None,
             notBefore := previous.notBefore,
             leaseOwner := previous.leaseOwner,
             leaseExpires := previous.leaseExpires)
  }

  function Builder(queue: seq<Entry>, now: u64): CatalogEntry -> Entry {
    (c: CatalogEntry) => BuildEntry(c, queue, now)
  }

  function AfterRebuild(queue: seq<Entry>, catalog: seq<CatalogEntry>, now: u64): seq<Entry> {
    SortQueue(Map(catalog, Builder(queue, now)), now)
  }

  // ---------------------------------------------------------------- snapshots

  function Dropper(now: u64): Entry -> Entry {
    (e: Entry) => DropExpired(e, now)
  }

  function Materialized(q: seq<Entry>, now: u64): seq<Entry> {
    SortQueue(Map(q, Dropper(now)), now)
  }

  function Unencumbered(): Entry -> bool {
    (e: Entry) => e.leaseOwner.None? && e.notBefore.None?
  }

  function Peeked(q: seq<Entry>, now: u64): Option<Entry> {
    var m := Materialized(q, now);
    var i := FirstIndex(m, Unencumbered());
    if i < |m| then Some(m[i]) else None
  }

  datatype Summary = Summary(total: nat, claimable: nat, leased: nat, backedOff: nat,
                             failed: nat, timedOut: nat, succeeded: nat)

  function Count(q: seq<Entry>, p: Entry -> bool): nat {
    if q == [] then 0 else Count(q[..|q| - 1], p) + (if p(q[|q| - 1]) then 1 else 0)
  }

  function Live(now: u64): Entry -> bool {
    (e: Entry) => HasActiveLease(e, now)
  }

  function Waiting(now: u64): Entry -> bool {
    (e: Entry) => InBackoff(e, now)
  }

  function Ranked(rank: nat): Entry -> bool {
    (e: Entry) => OutcomeRank(e.lastOutcome) == rank
  }

  function Summarized(q: seq<Entry>, now: u64): Summary {
    Summary(|q|, Count(q, Free(now)), Count(q, Live(now)), Count(q, Waiting(now)),
            Count(q, Ranked(1)), Count(q, Ranked(2)), Count(q, Ranked(3)))
  }
}
