/**
 Entries of the repro queue: lease and backoff predicates, outcome names, backoff times,
 and the thirteen-level order in which entries are offered to workers.
 */
module ReproEntry {
  import opened MachineInts
  import opened Wrappers
  import opened Ordering
  import opened Text

  /** What the artifact catalog knows about one crash or timeout; `text` stands for its descriptions and paths. */
  datatype CatalogEntry = CatalogEntry(
    artifactType: string,
    signature: string,
    text: string,
    occurrences: u64,
    firstSeen: u64,
    lastSeen: u64,
    hasRepro: bool,
    hasLog: bool,
    hasShape: bool,
    hasProfile: bool)

  datatype Entry = Entry(
    artifactType: string,
    signature: string,
    text: string,
    occurrences: u64,
    priority: u64,
    attempts: nat,
    firstSeen: u64,
    lastSeen: u64,
    lastAttempt: Option<u64>,
    lastOutcome: Option<string>,
    notBefore: Option<u64>,
    leaseOwner: Option<string>,
    leaseExpires: Option<u64>)

  datatype Key = Key(artifactType: string, signature: string)

  function KeyOf(e: Entry): Key { Key(e.artifactType, e.signature) }

  function CatalogKey(c: CatalogEntry): Key { Key(c.artifactType, c.signature) }

  // ---------------------------------------------------------------- leases and backoff

  predicate InBackoff(e: Entry, now: u64) {
    e.notBefore.Some? && e.notBefore.value > now
  }

  predicate HasActiveLease(e: Entry, now: u64) {
    && e.leaseOwner.Some? && e.leaseExpires.Some?
    && e.leaseOwner.value != "" && e.leaseExpires.value > now
  }

  /** The lease that a claim by `worker` renews. */
  predicate HeldBy(e: Entry, worker: string, now: u64) {
    e.leaseOwner == Some(worker) && e.leaseExpires.Some? && e.leaseExpires.value > now
  }

  predicate Claimable(e: Entry, now: u64) {
    !HasActiveLease(e, now) && !InBackoff(e, now)
  }

  function RetainedBackoff(e: Entry, now: u64): Option<u64> {
    if InBackoff(e, now) then e.notBefore else None
  }

  /** The entry with an expired lease and an expired backoff erased. */
  function DropExpired(e: Entry, now: u64): Entry {
    var e' := e.(notBefore := RetainedBackoff(e, now));
    if HasActiveLease(e, now) then e' else e'.(leaseOwner := None, leaseExpires := None)
  }

  // ---------------------------------------------------------------- outcomes

  predicate NamesSuccess(s: string)
    ensures NamesSuccess(s) ==> s != [] && s[0] in {'s', 'r', 'm'}
  {
    s == "success" || s == "succeeded" || s == "reproduced" || s == "minimized"
  }

  predicate NamesTimeout(s: string)
    ensures NamesTimeout(s) ==> s != [] && s[0] in {'t', 'h'}
  {
    s == "timeout" || s == "timed_out" || s == "timed-out" || s == "hanged" || s == "hung"
  }

  predicate NamesFailure(s: string)
    ensures NamesFailure(s) ==> s == [] || s[0] in {'f', 'e'}
  {
    s == "" || s == "failure" || s == "failed" || s == "error" || s == "errored"
  }

  /** The one spelling under which an already normalized outcome is stored. */
  function Rename(normalized: string): string {
    if NamesSuccess(normalized) then "succeeded"
    else if NamesTimeout(normalized) then "timed_out"
    else if NamesFailure(normalized) then "failed"
    else normalized
  }

  function Canonical(outcome: string): string {
    Rename(Lower(Trim(outcome)))
  }

  lemma RenameIsIdempotent(s: string)
    ensures Rename(Rename(s)) == Rename(s)
  {
    assert NamesSuccess("succeeded");
    assert NamesTimeout("timed_out");
    assert NamesFailure("failed");
    assert "succeeded"[0] == 's' && "timed_out"[0] == 't' && "failed"[0] == 'f';
  }

  lemma NormalizedIsFixed(s: string)
    requires s == [] || (!IsWhitespace(s[0]) && !IsWhitespace(s[|s| - 1]))
    requires forall c :: c in s ==> LowerChar(c) == c
    ensures Lower(Trim(s)) == s
  {
  }

  /** An outcome that went through the queue once is not renamed when it goes through again. */
  lemma CanonicalIsIdempotent(outcome: string)
    ensures Canonical(Canonical(outcome)) == Canonical(outcome)
  {
    var normalized := Lower(Trim(outcome));
    RenameIsIdempotent(normalized);
    TrimTrims(outcome);
    var renamed := Rename(normalized);
    if renamed == "succeeded" {
      SpelledLower("succeeded");
    } else if renamed == "timed_out" {
      SpelledLower("timed_out");
    } else if renamed == "failed" {
      SpelledLower("failed");
    } else {
      assert renamed == normalized;
      NormalizedIsFixed(normalized);
    }
  }

  lemma SpelledLower(name: string)
    requires name == "succeeded" || name == "timed_out" || name == "failed"
    ensures Lower(Trim(name)) == name
  {
    NormalizedIsFixed(name);
  }

  function OutcomeRank(outcome: Option<string>): (rank: nat)
    ensures rank <= 3
    ensures rank == 0 <==> outcome.None?
  {
    if outcome.None? then 0
    else
      var name := Canonical(outcome.value);
      if name == "failed" then 1 else if name == "timed_out" then 2 else if name == "succeeded" then 3 else 1
  }

  predicate Succeeded(e: Entry) { OutcomeRank(e.lastOutcome) >= 3 }

  /** Seconds to wait after an attempt, or none after a success. */
  function BackoffSecs(outcome: string, attempts: nat): (r: Option<u64>)
    ensures r.Some? ==> 60 <= r.value <= 3000
  {
    var name := Canonical(outcome);
    if name == "succeeded" then None
    else
      var capped := if attempts < 1 then 1 else if attempts > 10 then 10 else attempts;
      var base := if name == "failed" then 60 else if name == "timed_out" then 300 else 120;
      Some(base * capped)
  }

  lemma BackoffGrowsWithAttempts(outcome: string, fewer: nat, more: nat)
    requires fewer <= more && Canonical(outcome) != "succeeded"
    ensures BackoffSecs(outcome, fewer).Some? && BackoffSecs(outcome, more).Some?
    ensures BackoffSecs(outcome, fewer).value <= BackoffSecs(outcome, more).value
    ensures more <= 10 && 1 <= fewer < more ==> BackoffSecs(outcome, fewer).value < BackoffSecs(outcome, more).value
    ensures BackoffSecs(Canonical(outcome), more) == BackoffSecs(outcome, more)
  {
    CanonicalIsIdempotent(outcome);
  }

  function ArtifactPriority(c: CatalogEntry): u64 {
    (if c.artifactType == "crash" then 2_000_000 else 1_000_000)
    + (if c.hasRepro then 100_000 else 0)
    + (if c.hasLog then 10_000 else 0)
    + (if c.hasShape then 1_000 else 0)
    + (if c.hasProfile then 500 else 0)
    + (if c.occurrences < 999 then c.occurrences else 999)
  }

  // ---------------------------------------------------------------- the order of the queue

  /** What the order looks at. */
  datatype View = View(
    leased: bool, backedOff: bool, wait: nat, succeeded: bool, unattempted: bool, outcomeRank: nat, priority: nat,
    attempts: nat, lastAttempt: nat, lastSeen: nat, occurrences: nat, artifactType: string, signature: string)

  function ViewOf(e: Entry, now: u64): View {
    View(HasActiveLease(e, now), InBackoff(e, now), RetainedBackoff(e, now).GetOr(0), Succeeded(e), e.attempts == 0,
         OutcomeRank(e.lastOutcome), e.priority, e.attempts, e.lastAttempt.GetOr(0), e.lastSeen, e.occurrences,
         e.artifactType, e.signature)
  }

  function CompareNumbers(left: View, right: View): Ordering {
    CompareBool(left.leased, right.leased)
    .Then(CompareBool(left.backedOff, right.backedOff))
    .Then(CompareInt(left.wait, right.wait))
    .Then(CompareBool(left.succeeded, right.succeeded))
    .Then(CompareBool(right.unattempted, left.unattempted))
    .Then(CompareInt(left.outcomeRank, right.outcomeRank))
    .Then(CompareInt(right.priority, left.priority))
    .Then(CompareInt(left.attempts, right.attempts))
    .Then(CompareInt(left.lastAttempt, right.lastAttempt))
    .Then(CompareInt(right.lastSeen, left.lastSeen))
    .Then(CompareInt(right.occurrences, left.occurrences))
  }

  function CompareViews(left: View, right: View): Ordering {
    CompareNumbers(left, right)
    .Then(CompareString(left.artifactType, right.artifactType))
    .Then(CompareString(left.signature, right.signature))
  }

  function CompareEntries(left: Entry, right: Entry, now: u64): Ordering {
    CompareViews(ViewOf(left, now), ViewOf(right, now))
  }

  function Minus(n: int): int { -n }

  function Bit(b: bool): int { if b then 1 else 0 }

  /** The eleven numeric levels as one vector, the smallest first. */
  function Rank(v: View): (r: seq<int>)
    ensures |r| == 11
  {
    [Bit(v.leased), Bit(v.backedOff), v.wait, Bit(v.succeeded), Bit(!v.unattempted), v.outcomeRank,
     Minus(v.priority), v.attempts, v.lastAttempt, Minus(v.lastSeen), Minus(v.occurrences)]
  }

  lemma CompareVectorAt(a: seq<int>, b: seq<int>, i: nat)
    requires i < |a| == |b|
    ensures CompareVector(a[i..], b[i..]) == CompareInt(a[i], b[i]).Then(CompareVector(a[i + 1..], b[i + 1..]))
  {
  }

  function CompareLevels(a: seq<int>, b: seq<int>): Ordering
    requires |a| == |b| == 11
  {
    CompareInt(a[0], b[0]).Then(CompareInt(a[1], b[1])).Then(CompareInt(a[2], b[2])).Then(CompareInt(a[3], b[3]))
    .Then(CompareInt(a[4], b[4])).Then(CompareInt(a[5], b[5])).Then(CompareInt(a[6], b[6]))
    .Then(CompareInt(a[7], b[7])).Then(CompareInt(a[8], b[8])).Then(CompareInt(a[9], b[9]))
    .Then(CompareInt(a[10], b[10]))
  }

  lemma FirstLevels(a: seq<int>, b: seq<int>)
    requires |a| == |b| == 11
    ensures CompareVector(a, b)
         == CompareInt(a[0], b[0]).Then(CompareInt(a[1], b[1])).Then(CompareInt(a[2], b[2]))
            .Then(CompareInt(a[3], b[3])).Then(CompareInt(a[4], b[4])).Then(CompareInt(a[5], b[5]))
            .Then(CompareVector(a[6..], b[6..]))
  {
    assert a[0..] == a && b[0..] == b;
    CompareVectorAt(a, b, 0);
    CompareVectorAt(a, b, 1);
    CompareVectorAt(a, b, 2);
    CompareVectorAt(a, b, 3);
    CompareVectorAt(a, b, 4);
    CompareVectorAt(a, b, 5);
  }

  lemma LastLevels(a: seq<int>, b: seq<int>)
    requires |a| == |b| == 11
    ensures CompareVector(a[6..], b[6..])
         == CompareInt(a[6], b[6]).Then(CompareInt(a[7], b[7])).Then(CompareInt(a[8], b[8]))
            .Then(CompareInt(a[9], b[9])).Then(CompareInt(a[10], b[10]))
  {
    CompareVectorAt(a, b, 6);
    CompareVectorAt(a, b, 7);
    CompareVectorAt(a, b, 8);
    CompareVectorAt(a, b, 9);
    CompareVectorAt(a, b, 10);
    assert a[11..] == [] && b[11..] == [];
  }

  lemma LevelsAreLexicographic(a: seq<int>, b: seq<int>)
    requires |a| == |b| == 11
    ensures CompareLevels(a, b) == CompareVector(a, b)
  {
    FirstLevels(a, b);
    LastLevels(a, b);
  }

  lemma NumericLevelsMatch(left: View, right: View)
    ensures CompareNumbers(left, right) == CompareLevels(Rank(left), Rank(right))
  {
    var a, b := Rank(left), Rank(right);
    assert CompareBool(left.leased, right.leased) == CompareInt(a[0], b[0]);
    assert CompareBool(left.backedOff, right.backedOff) == CompareInt(a[1], b[1]);
    assert CompareBool(left.succeeded, right.succeeded) == CompareInt(a[3], b[3]);
    assert CompareBool(right.unattempted, left.unattempted) == CompareInt(a[4], b[4]);
    assert CompareInt(right.priority, left.priority) == CompareInt(a[6], b[6]);
    assert CompareInt(right.lastSeen, left.lastSeen) == CompareInt(a[9], b[9]);
    assert CompareInt(right.occurrences, left.occurrences) == CompareInt(a[10], b[10]);
  }

  /** The chain of comparisons is the lexicographic order of the rank vector, the type and the signature. */
  lemma ChainIsLexicographic(left: View, right: View)
    ensures CompareViews(left, right)
         == CompareVector(Rank(left), Rank(right))
            .Then(CompareVector(Codes(left.artifactType), Codes(right.artifactType)))
            .Then(CompareVector(Codes(left.signature), Codes(right.signature)))
  {
    NumericLevelsMatch(left, right);
    LevelsAreLexicographic(Rank(left), Rank(right));
    StringOrderIsVectorOrder(left.artifactType, right.artifactType);
    StringOrderIsVectorOrder(left.signature, right.signature);
  }

  /** One level of a lexicographic order passes transitivity on to the next level only on ties. */
  lemma Chained(a: seq<int>, b: seq<int>, c: seq<int>)
    ensures CompareVector(a, b) != Greater && CompareVector(b, c) != Greater ==> CompareVector(a, c) != Greater
    ensures CompareVector(a, b) == Equal ==> CompareVector(a, c) == CompareVector(b, c)
    ensures CompareVector(b, c) == Equal ==> CompareVector(a, c) == CompareVector(a, b)
    ensures CompareVector(a, b) == Less && CompareVector(b, c) == Less ==> CompareVector(a, c) == Less
  {
    VectorOrderAntisymmetric(a, b);
    VectorOrderAntisymmetric(b, c);
    if CompareVector(a, b) != Greater && CompareVector(b, c) != Greater {
      VectorOrderTransitive(a, b, c);
    }
  }

  lemma ViewOrderTransitive(a: View, b: View, c: View)
    requires CompareViews(a, b) != Greater && CompareViews(b, c) != Greater
    ensures CompareViews(a, c) != Greater
  {
    ChainIsLexicographic(a, b);
    ChainIsLexicographic(b, c);
    ChainIsLexicographic(a, c);
    Chained(Rank(a), Rank(b), Rank(c));
    Chained(Codes(a.artifactType), Codes(b.artifactType), Codes(c.artifactType));
    Chained(Codes(a.signature), Codes(b.signature), Codes(c.signature));
  }

  lemma ViewOrderAntisymmetric(a: View, b: View)
    ensures CompareViews(a, b) != Greater || CompareViews(b, a) != Greater
    ensures CompareViews(a, b) != Greater && CompareViews(b, a) != Greater
        ==> a.artifactType == b.artifactType && a.signature == b.signature
  {
    ChainIsLexicographic(a, b);
    ChainIsLexicographic(b, a);
    VectorOrderAntisymmetric(Rank(a), Rank(b));
    VectorOrderAntisymmetric(Codes(a.artifactType), Codes(b.artifactType));
    VectorOrderAntisymmetric(Codes(a.signature), Codes(b.signature));
    StringOrderIsVectorOrder(a.artifactType, b.artifactType);
    StringOrderIsVectorOrder(a.signature, b.signature);
  }

  function Before(now: u64): (Entry, Entry) -> bool {
    (a: Entry, b: Entry) => CompareEntries(a, b, now) != Greater
  }

  /** At every time the comparison is a total preorder, and it ties only on entries with the same key. */
  lemma QueueOrderIsTotal(now: u64)
    ensures TotalPreorder(Before(now))
    ensures forall a, b :: Before(now)(a, b) && Before(now)(b, a) ==> KeyOf(a) == KeyOf(b)
  {
    forall a, b
      ensures Before(now)(a, b) || Before(now)(b, a)
      ensures Before(now)(a, b) && Before(now)(b, a) ==> KeyOf(a) == KeyOf(b)
    {
      ViewOrderAntisymmetric(ViewOf(a, now), ViewOf(b, now));
    }
    forall a, b, c | Before(now)(a, b) && Before(now)(b, c) ensures Before(now)(a, c) {
      ViewOrderTransitive(ViewOf(a, now), ViewOf(b, now), ViewOf(c, now));
    }
  }

  /** Erasing what has expired changes neither the place of an entry in the order nor whether it can be claimed. */
  lemma DropExpiredKeepsView(e: Entry, now: u64)
    ensures ViewOf(DropExpired(e, now), now) == ViewOf(e, now)
    ensures Claimable(DropExpired(e, now), now) == Claimable(e, now)
    ensures DropExpired(DropExpired(e, now), now) == DropExpired(e, now)
  {
  }
}
