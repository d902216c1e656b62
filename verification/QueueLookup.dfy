/**
 Runs of the queue, and what one step does to the entry stored under a given key.
 Sorting only rearranges the list, so with unique keys a queue is determined by `Find`.
 */
module QueueLookup {
  import opened MachineInts
  import opened Wrappers
  import opened Ordering
  import opened ReproEntry
  import opened QueueSteps

  datatype Event =
    | Claim(worker: string, leaseSecs: u64, now: u64)
    | Release(key: Key, worker: string, now: u64)
    | Requeue(key: Key, worker: string, outcome: string, now: u64)
    | Record(key: Key, outcome: string, now: u64)
    | Rebuild(catalog: seq<CatalogEntry>, now: u64)

  function Step(q: seq<Entry>, ev: Event): seq<Entry> {
    match ev
    case Claim(worker, leaseSecs, now) => AfterClaim(q, worker, leaseSecs, now)
    case Release(key, worker, now) => AfterRelease(q, key, worker, now)
    case Requeue(key, worker, outcome, now) => AfterRequeue(q, key, worker, outcome, now)
    case Record(key, outcome, now) => AfterRecord(q, key, outcome, now)
    case Rebuild(catalog, now) => AfterRebuild(q, catalog, now)
  }

  function Run(q: seq<Entry>, evs: seq<Event>): seq<Entry>
    decreases |evs|
  {
    if evs == [] then q else Run(Step(q, evs[0]), evs[1..])
  }

  /** Time does not run backwards, from `start` on. */
  predicate Timely(evs: seq<Event>, start: u64) {
    evs == [] || (start <= evs[0].now && Timely(evs[1..], evs[0].now))
  }

  function EndTime(evs: seq<Event>, start: u64): u64 {
    if evs == [] then start else EndTime(evs[1..], evs[0].now)
  }

  ghost predicate UniqueKeys(q: seq<Entry>) {
    forall i, j :: 0 <= i < j < |q| ==> KeyOf(q[i]) != KeyOf(q[j])
  }

  ghost predicate UniqueCatalog(catalog: seq<CatalogEntry>) {
    forall i, j :: 0 <= i < j < |catalog| ==> CatalogKey(catalog[i]) != CatalogKey(catalog[j])
  }

  ghost predicate CatalogsUnique(evs: seq<Event>) {
    forall ev :: ev in evs && ev.Rebuild? ==> UniqueCatalog(ev.catalog)
  }

  function Listed(key: Key): CatalogEntry -> bool {
    (c: CatalogEntry) => CatalogKey(c) == key
  }

  /** The entry stored under `key` after the step. */
  function Next(q: seq<Entry>, ev: Event, key: Key): Option<Entry> {
    match ev
    case Claim(worker, leaseSecs, now) =>
      var target := ClaimTarget(q, worker, leaseSecs, now);
      if target.Some? && KeyOf(target.value.1) == key then Some(target.value.1) else Find(q, key)
    case Release(k, worker, now) =>
      if k == key && OwnedBy(q, k, worker) then Some(Released(Find(q, k).value)) else Find(q, key)
    case Requeue(k, worker, outcome, now) =>
      if k == key && OwnedBy(q, k, worker) then Some(Attempted(Find(q, k).value, outcome, now)) else Find(q, key)
    case Record(k, outcome, now) =>
      if k == key && Find(q, k).Some? then Some(Attempted(Find(q, k).value, outcome, now)) else Find(q, key)
    case Rebuild(catalog, now) =>
      var i := FirstIndex(catalog, Listed(key));
      if i < |catalog| then Some(BuildEntry(catalog[i], q, now)) else None
  }

  // ---------------------------------------------------------------- lookups and rearrangement

  lemma FindUnique(q: seq<Entry>, e: Entry)
    requires UniqueKeys(q) && e in q
    ensures Find(q, KeyOf(e)) == Some(e)
  {
  }

  lemma OccursOnce(q: seq<Entry>, e: Entry)
    requires UniqueKeys(q)
    ensures multiset(q)[e] <= 1
  {
    if e in q {
      var i :| 0 <= i < |q| && q[i] == e;
      assert q == q[..i] + [e] + q[i + 1..];
      assert e !in q[..i] && e !in q[i + 1..];
      assert multiset(q) == multiset(q[..i]) + multiset{e} + multiset(q[i + 1..]);
    }
  }

  lemma UniqueKeysRearranged(p: seq<Entry>, q: seq<Entry>)
    requires multiset(p) == multiset(q) && UniqueKeys(q)
    ensures UniqueKeys(p)
    ensures forall key :: Find(p, key) == Find(q, key)
  {
    SameElements(p, q);
    forall i, j | 0 <= i < j < |p| ensures KeyOf(p[i]) != KeyOf(p[j]) {
      if KeyOf(p[i]) == KeyOf(p[j]) {
        assert p[i] in q && p[j] in q;
        FindUnique(q, p[i]);
        FindUnique(q, p[j]);
        var e := p[i];
        assert p == p[..j] + p[j..];
        assert p[..j][i] == e && p[j..][0] == e;
        assert multiset(p)[e] == multiset(p[..j])[e] + multiset(p[j..])[e];
        OccursOnce(q, e);
        assert false;
      }
    }
    forall key ensures Find(p, key) == Find(q, key) {
      if Find(p, key).Some? {
        FindUnique(q, Find(p, key).value);
      }
    }
  }

  lemma SortKeepsLookups(q: seq<Entry>, now: u64)
    requires UniqueKeys(q)
    ensures UniqueKeys(SortQueue(q, now))
    ensures forall key :: Find(SortQueue(q, now), key) == Find(q, key)
  {
    SortPermutes(q, Before(now));
    UniqueKeysRearranged(SortQueue(q, now), q);
  }

  lemma ReplaceKeepsLookups(q: seq<Entry>, i: nat, e: Entry, key: Key)
    requires UniqueKeys(q) && i < |q| && KeyOf(q[i]) == KeyOf(e)
    ensures UniqueKeys(q[i := e])
    ensures Find(q[i := e], key) == if key == KeyOf(e) then Some(e) else Find(q, key)
  {
    var q' := q[i := e];
    if key == KeyOf(e) {
      assert q'[i] == e;
      FindUnique(q', e);
    } else if Find(q, key).Some? {
      var x := Find(q, key).value;
      var j :| 0 <= j < |q| && q[j] == x;
      assert q'[j] == x;
      FindUnique(q', x);
    }
  }

  lemma PutKeepsLookups(q: seq<Entry>, e: Entry, now: u64, key: Key)
    requires UniqueKeys(q) && Find(q, KeyOf(e)).Some?
    ensures UniqueKeys(SortQueue(Put(q, e), now))
    ensures Find(SortQueue(Put(q, e), now), key) == if key == KeyOf(e) then Some(e) else Find(q, key)
  {
    var i := FirstIndex(q, WithKey(KeyOf(e)));
    ReplaceKeepsLookups(q, i, e, key);
    SortKeepsLookups(Put(q, e), now);
  }

  lemma BuiltKey(c: CatalogEntry, q: seq<Entry>, now: u64)
    ensures KeyOf(BuildEntry(c, q, now)) == CatalogKey(c)
  {
  }

  lemma BuiltIsUnique(q: seq<Entry>, catalog: seq<CatalogEntry>, now: u64)
    requires UniqueCatalog(catalog)
    ensures UniqueKeys(Map(catalog, Builder(q, now)))
    ensures forall i :: 0 <= i < |catalog| ==> KeyOf(Map(catalog, Builder(q, now))[i]) == CatalogKey(catalog[i])
  {
    forall i | 0 <= i < |catalog| ensures KeyOf(Map(catalog, Builder(q, now))[i]) == CatalogKey(catalog[i]) {
      BuiltKey(catalog[i], q, now);
    }
  }

  lemma RebuildLookups(q: seq<Entry>, catalog: seq<CatalogEntry>, now: u64, key: Key)
    requires UniqueCatalog(catalog)
    ensures UniqueKeys(AfterRebuild(q, catalog, now))
    ensures Find(AfterRebuild(q, catalog, now), key) == Next(q, Rebuild(catalog, now), key)
  {
    var built := Map(catalog, Builder(q, now));
    BuiltIsUnique(q, catalog, now);
    SortKeepsLookups(built, now);
    var i := FirstIndex(catalog, Listed(key));
    if i < |catalog| {
      assert KeyOf(built[i]) == key;
      FindUnique(built, built[i]);
    }
  }

  lemma ClaimLookups(q: seq<Entry>, worker: string, leaseSecs: u64, now: u64, key: Key)
    requires UniqueKeys(q)
    ensures UniqueKeys(AfterClaim(q, worker, leaseSecs, now))
    ensures Find(AfterClaim(q, worker, leaseSecs, now), key) == Next(q, Claim(worker, leaseSecs, now), key)
  {
    var target := ClaimTarget(q, worker, leaseSecs, now);
    if target.Some? {
      var q' := q[target.value.0 := target.value.1];
      ReplaceKeepsLookups(q, target.value.0, target.value.1, key);
      SortKeepsLookups(q', now);
    }
  }

  lemma ReleaseLookups(q: seq<Entry>, k: Key, worker: string, now: u64, key: Key)
    requires UniqueKeys(q)
    ensures UniqueKeys(AfterRelease(q, k, worker, now))
    ensures Find(AfterRelease(q, k, worker, now), key) == Next(q, Release(k, worker, now), key)
  {
    if OwnedBy(q, k, worker) {
      PutKeepsLookups(q, Released(Find(q, k).value), now, key);
    }
  }

  lemma AttemptedLookups(q: seq<Entry>, k: Key, outcome: string, now: u64, key: Key)
    requires UniqueKeys(q) && Find(q, k).Some?
    ensures var e := Attempted(Find(q, k).value, outcome, now);
      && UniqueKeys(SortQueue(Put(q, e), now))
      && Find(SortQueue(Put(q, e), now), key) == if k == key then Some(e) else Find(q, key)
  {
    var e := Attempted(Find(q, k).value, outcome, now);
    assert KeyOf(e) == k;
    PutKeepsLookups(q, e, now, key);
  }

  lemma RequeueLookups(q: seq<Entry>, k: Key, worker: string, outcome: string, now: u64, key: Key)
    requires UniqueKeys(q)
    ensures UniqueKeys(AfterRequeue(q, k, worker, outcome, now))
    ensures Find(AfterRequeue(q, k, worker, outcome, now), key) == Next(q, Requeue(k, worker, outcome, now), key)
  {
    if OwnedBy(q, k, worker) {
      AttemptedLookups(q, k, outcome, now, key);
    }
  }

  lemma RecordLookups(q: seq<Entry>, k: Key, outcome: string, now: u64, key: Key)
    requires UniqueKeys(q)
    ensures UniqueKeys(AfterRecord(q, k, outcome, now))
    ensures Find(AfterRecord(q, k, outcome, now), key) == Next(q, Record(k, outcome, now), key)
  {
    if Find(q, k).Some? {
      AttemptedLookups(q, k, outcome, now, key);
    } else {
      assert AfterRecord(q, k, outcome, now) == q;
    }
  }

  /** One step, seen through lookups. */
  lemma StepLookups(q: seq<Entry>, ev: Event, key: Key)
    requires UniqueKeys(q)
    requires ev.Rebuild? ==> UniqueCatalog(ev.catalog)
    ensures UniqueKeys(Step(q, ev))
    ensures Find(Step(q, ev), key) == Next(q, ev, key)
  {
    match ev
    case Claim(worker, leaseSecs, now) => ClaimLookups(q, worker, leaseSecs, now, key);
    case Release(k, worker, now) => ReleaseLookups(q, k, worker, now, key);
    case Requeue(k, worker, outcome, now) => RequeueLookups(q, k, worker, outcome, now, key);
    case Record(k, outcome, now) => RecordLookups(q, k, outcome, now, key);
    case Rebuild(catalog, now) => RebuildLookups(q, catalog, now, key);
  }
}
