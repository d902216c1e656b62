/** The stored repro queue and the operations that update it in place. */
module ReproQueue {
  import opened MachineInts
  import opened Wrappers
  import opened ReproEntry
  import opened Ordering
  import Steps = QueueSteps

  method FindFirst(q: seq<Entry>, p: Entry -> bool) returns (i: nat)
    ensures i == Steps.FirstIndex(q, p)
  {
    i := 0;
    while i < |q| && !p(q[i])
      invariant i <= |q|
      invariant Steps.FirstIndex(q, p) == i + Steps.FirstIndex(q[i..], p)
    {
      assert q[i..][1..] == q[i + 1..];
      i := i + 1;
    }
  }

  /** What one more entry adds to each count. */
  lemma CountOneMore(q: seq<Entry>, i: nat, now: u64)
    requires i < |q|
    ensures var s, s', e := Steps.Summarized(q[..i], now), Steps.Summarized(q[..i + 1], now), q[i];
      && s'.claimable == s.claimable + (if Claimable(e, now) then 1 else 0)
      && s'.leased == s.leased + (if HasActiveLease(e, now) then 1 else 0)
      && s'.backedOff == s.backedOff + (if InBackoff(e, now) then 1 else 0)
      && s'.failed == s.failed + (if OutcomeRank(e.lastOutcome) == 1 then 1 else 0)
      && s'.timedOut == s.timedOut + (if OutcomeRank(e.lastOutcome) == 2 then 1 else 0)
      && s'.succeeded == s.succeeded + (if OutcomeRank(e.lastOutcome) == 3 then 1 else 0)
  {
    assert q[..i + 1][..i] == q[..i];
  }

  method Summarize(q: seq<Entry>, now: u64) returns (s: Steps.Summary)
    ensures s == Steps.Summarized(q, now)
  {
    s := Steps.Summary(|q|, 0, 0, 0, 0, 0, 0);
    var i := 0;
    while i < |q|
      invariant i <= |q|
      invariant s == Steps.Summarized(q[..i], now).(total := |q|)
    {
      CountOneMore(q, i, now);
      var leased, backedOff := HasActiveLease(q[i], now), InBackoff(q[i], now);
      if leased {
        s := s.(leased := s.leased + 1);
      }
      if backedOff {
        s := s.(backedOff := s.backedOff + 1);
      }
      if !leased && !backedOff {
        s := s.(claimable := s.claimable + 1);
      }
      match OutcomeRank(q[i].lastOutcome) {
        case 1 => s := s.(failed := s.failed + 1);
        case 2 => s := s.(timedOut := s.timedOut + 1);
        case 3 => s := s.(succeeded := s.succeeded + 1);
        case _ =>
      }
      i := i + 1;
    }
    assert q[..i] == q;
  }

  class QueueFile {
    var entries: seq<Entry>
    var summary: Steps.Summary
    var updated: u64

    constructor ()
      ensures entries == []
    {
      entries := [];
      summary := Steps.Summary(0, 0, 0, 0, 0, 0, 0);
      updated := 0;
    }

    /** The stored summary is the one of the stored entries at the time of the last write. */
    ghost predicate Written()
      reads this
    {
      summary == Steps.Summarized(entries, updated)
    }

    method Write(now: u64)
      modifies this`summary, this`updated
      ensures Written() && updated == now
    {
      updated := now;
      summary := Summarize(entries, now);
    }

    method SortAndWrite(now: u64)
      modifies this
      ensures entries == Steps.SortQueue(old(entries), now)
      ensures Written() && updated == now
    {
      entries := Steps.SortQueue(entries, now);
      Write(now);
    }

    method Claim(worker: string, leaseSecs: u64, now: u64) returns (claimed: Option<Entry>)
      modifies this
      ensures entries == Steps.AfterClaim(old(entries), worker, leaseSecs, now)
      ensures claimed == Steps.ClaimedEntry(old(entries), worker, leaseSecs, now)
      ensures if claimed.Some? then Written() && updated == now else unchanged(this)
    {
      var i := FindFirst(entries, Steps.Held(worker, now));
      if i < |entries| {
        var e := Steps.Renewed(entries[i], worker, leaseSecs, now);
        entries := entries[i := e];
        SortAndWrite(now);
        return Some(e);
      }
      i := FindFirst(entries, Steps.Free(now));
      if i < |entries| {
        var e := Steps.Granted(entries[i], worker, leaseSecs, now);
        entries := entries[i := e];
        SortAndWrite(now);
        return Some(e);
      }
      return None;
    }

    method Release(key: Key, worker: string, now: u64) returns (ok: bool)
      modifies this
      ensures ok <==> Steps.OwnedBy(old(entries), key, worker)
      ensures entries == Steps.AfterRelease(old(entries), key, worker, now)
      ensures if ok then Written() && updated == now else unchanged(this)
    {
      var i := FindFirst(entries, Steps.WithKey(key));
      if i == |entries| || entries[i].leaseOwner != Some(worker) {
        return false;
      }
      entries := entries[i := Steps.Released(entries[i])];
      SortAndWrite(now);
      return true;
    }

    method Requeue(key: Key, worker: string, outcome: string, now: u64) returns (ok: bool)
      modifies this
      ensures ok <==> Steps.OwnedBy(old(entries), key, worker)
      ensures entries == Steps.AfterRequeue(old(entries), key, worker, outcome, now)
      ensures if ok then Written() && updated == now else unchanged(this)
    {
      var i := FindFirst(entries, Steps.WithKey(key));
      if i == |entries| || entries[i].leaseOwner != Some(worker) {
        return false;
      }
      entries := entries[i := Steps.Attempted(entries[i], outcome, now)];
      SortAndWrite(now);
      return true;
    }

    method Record(key: Key, outcome: string, now: u64) returns (ok: bool)
      modifies this
      ensures ok <==> Steps.Find(old(entries), key).Some?
      ensures entries == Steps.AfterRecord(old(entries), key, outcome, now)
      ensures if ok then Written() && updated == now else unchanged(this)
    {
      var i := FindFirst(entries, Steps.WithKey(key));
      if i == |entries| {
        return false;
      }
      entries := entries[i := Steps.Attempted(entries[i], outcome, now)];
      SortAndWrite(now);
      return true;
    }

    method Rebuild(catalog: seq<CatalogEntry>, now: u64)
      modifies this
      ensures entries == Steps.AfterRebuild(old(entries), catalog, now)
      ensures Written() && updated == now
    {
      entries := Map(catalog, Steps.Builder(entries, now));
      SortAndWrite(now);
    }

    /** Looks at the queue as of `now` without storing anything. */
    method Peek(now: u64) returns (e: Option<Entry>)
      ensures e == Steps.Peeked(entries, now)
    {
      var view := Steps.Materialized(entries, now);
      var i := FindFirst(view, Steps.Unencumbered());
      e := if i < |view| then Some(view[i]) else None;
    }

    /** The first `limit` entries as of `now`, all of them when `limit` is 0, and the summary of all of them. */
    method Snapshot(limit: nat, now: u64) returns (s: Steps.Summary, shown: seq<Entry>)
      ensures s == Steps.Summarized(Steps.Materialized(entries, now), now)
      ensures shown <= Steps.Materialized(entries, now)
      ensures |shown| == if limit == 0 || |entries| <= limit then |entries| else limit
    {
      var view := Steps.Materialized(entries, now);
      SortPermutes(Map(entries, Steps.Dropper(now)), Before(now));
      s := Summarize(view, now);
      shown := if limit == 0 || |view| <= limit then view else view[..limit];
    }
  }
}
