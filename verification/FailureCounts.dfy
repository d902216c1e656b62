/**
 Timeout failures counted per edge or per syscall, each with the epoch of its last failure, and the ways the
 counts are cooled and trimmed. The source walks hash maps, so every loop takes the keys in an arbitrary order.
 */
module FailureCounts {
  import opened MachineInts
  import opened Ordering
  import Text

  /** One pair of maps that are kept in step. */
  datatype Table = Table(counts: map<string, u32>, epochs: map<string, u64>)

  /** The same keys in both maps, and no entry without failures. */
  predicate Paired(t: Table) {
    t.counts.Keys == t.epochs.Keys && forall k :: k in t.counts ==> t.counts[k] > 0
  }

  /** No failure lies in the future. */
  predicate Current(t: Table, learning: u64) {
    forall k :: k in t.epochs ==> t.epochs[k] <= learning
  }

  function LastEpoch(t: Table, k: string, default: u64): u64 {
    if k in t.epochs then t.epochs[k] else default
  }

  function IdleEpochs(t: Table, k: string, learning: u64): u64 {
    SaturatingSub(learning, LastEpoch(t, k, learning))
  }

  function Blocked(t: Table, threshold: u32): set<string> {
    set k | k in t.counts && t.counts[k] >= threshold
  }

  // ---------------------------------------------------------------- loading and noting

  predicate Named(k: string) {
    Text.Trim(k) != []
  }

  /** Blank names and zero counts are skipped, missing epochs filled in. */
  function Loaded(t: Table, learning: u64): Table {
    Table(
      map k | k in t.counts && Named(k) && t.counts[k] > 0 :: t.counts[k],
      map k | k in t.counts && Named(k) && t.counts[k] > 0 :: LastEpoch(t, k, learning))
  }

  lemma NamedExactly(k: string)
    ensures Named(k) <==> exists i :: 0 <= i < |k| && !Text.IsWhitespace(k[i])
  {
    Text.TrimIsEmptyExactly(k);
  }

  lemma LoadedIsPaired(t: Table, learning: u64)
    ensures Paired(Loaded(t, learning))
    ensures Loaded(t, learning) == t <==> Paired(t) && forall k :: k in t.counts ==> Named(k)
  {
    var r := Loaded(t, learning);
    assert r.counts.Keys == r.epochs.Keys;
    assert r == t ==> forall k :: k in t.counts ==> k in r.counts;
    if Paired(t) && forall k :: k in t.counts ==> Named(k) {
      assert r.counts == t.counts && r.epochs == t.epochs;
    }
  }

  /** Whether an entry is taken over from a snapshot, and with which count and epoch. */
  ghost predicate LoadsEntry(t: Table, r: Table, k: string, learning: u64) {
    && (k in r.counts <==>
          k in t.counts && t.counts[k] > 0 && exists i :: 0 <= i < |k| && !Text.IsWhitespace(k[i]))
    && (k in r.counts ==>
          && r.counts[k] == t.counts[k] && k in r.epochs
          && r.epochs[k] == if k in t.epochs then t.epochs[k] else learning)
  }

  lemma EntryIsLoaded(t: Table, learning: u64, k: string)
    ensures LoadsEntry(t, Loaded(t, learning), k, learning)
  {
    NamedExactly(k);
  }

  /**
   Whatever a snapshot holds, what is loaded from it is paired; a table survives exactly if it is paired and
   named.
   */
  lemma LoadedExactly(t: Table, learning: u64)
    ensures Paired(Loaded(t, learning))
    ensures forall k :: LoadsEntry(t, Loaded(t, learning), k, learning)
    ensures Loaded(t, learning) == t <==> Paired(t) && forall k :: k in t.counts ==> Named(k)
  {
    LoadedIsPaired(t, learning);
    forall k ensures LoadsEntry(t, Loaded(t, learning), k, learning) {
      EntryIsLoaded(t, learning, k);
    }
  }

  /** One more failure; the count wraps around in a release build. */
  function Noted(t: Table, k: string, epoch: u64): Table {
    var count: nat := if k in t.counts then t.counts[k] else 0;
    Table(t.counts[k := (count + 1) % (U32_MAX + 1)], t.epochs[k := epoch])
  }

  /** Counting up from the largest count gives zero and so breaks the pairing; nothing else does. */
  lemma NotingKeepsPairedExactly(t: Table, k: string, epoch: u64)
    requires Paired(t)
    ensures Paired(Noted(t, k, epoch)) <==> (k in t.counts ==> t.counts[k] < U32_MAX)
  {
    var r := Noted(t, k, epoch);
    assert r.counts.Keys == t.counts.Keys + {k} == r.epochs.Keys;
    if k in t.counts && t.counts[k] == U32_MAX {
      assert r.counts[k] == 0;
    }
  }

  // ---------------------------------------------------------------- cooling

  /** How much one pass takes off each entry. */
  datatype Policy =
    | Flat(amount: u32)
    | Stale(amount: u32, cutoff: u64)
    | Graded(learning: u64, minIdle: u64, maxDecay: u32)

  function GradedDecay(idle: u64, minIdle: u64, maxDecay: u32): u32 {
    if minIdle == 0 || maxDecay == 0 || idle < minIdle then 0
    else
      var tiers := 1 + (idle - minIdle) / minIdle;
      if tiers < maxDecay then tiers else maxDecay
  }

  /** One for every full idle period, up to the cap. */
  lemma GradedDecayCountsIdlePeriods(idle: u64, minIdle: u64, maxDecay: u32)
    requires minIdle > 0
    ensures var d := GradedDecay(idle, minIdle, maxDecay);
      d <= maxDecay && d * minIdle <= idle && (d < maxDecay ==> idle < (d + 1) * minIdle)
  {
  }

  function DecayOf(t: Table, p: Policy, k: string): u32 {
    match p
    case Flat(amount) => amount
    case Stale(amount, cutoff) => if LastEpoch(t, k, 0) <= cutoff then amount else 0
    case Graded(learning, minIdle, maxDecay) => GradedDecay(IdleEpochs(t, k, learning), minIdle, maxDecay)
  }

  function Amounts(t: Table, p: Policy): string -> u32 {
    k => DecayOf(t, p, k)
  }

  predicate Outlasts(count: u32, amount: u32) {
    amount == 0 || count > amount
  }

  /** The table when all entries but those in `todo` have been cooled. */
  function PartlyDecayed(t: Table, amounts: string -> u32, todo: set<string>): Table {
    Table(
      map k | k in t.counts && (k in todo || Outlasts(t.counts[k], amounts(k))) ::
        if k in todo then t.counts[k] else t.counts[k] - amounts(k),
      map k | k in t.epochs && (k in t.counts && k !in todo ==> Outlasts(t.counts[k], amounts(k))) :: t.epochs[k])
  }

  function Decayed(t: Table, p: Policy): Table {
    PartlyDecayed(t, Amounts(t, p), {})
  }

  ghost predicate Touches(t: Table, amounts: string -> u32, keys: set<string>) {
    exists k :: k in keys && k in t.counts && amounts(k) > 0
  }

  lemma NothingDecayedYet(t: Table, amounts: string -> u32, todo: set<string>)
    requires forall k :: k in t.counts && k !in todo ==> amounts(k) == 0
    ensures PartlyDecayed(t, amounts, todo) == t
  {
  }

  /** Cooling one more entry, as each of the loops does it. */
  function CooledAt(t: Table, k: string, amount: u32): Table
    requires k in t.counts
  {
    if amount == 0 then t
    else if t.counts[k] <= amount then Table(t.counts - {k}, t.epochs - {k})
    else Table(t.counts[k := t.counts[k] - amount], t.epochs)
  }

  lemma DecayOneMore(t: Table, amounts: string -> u32, todo: set<string>, k: string)
    requires k in todo && k in t.counts
    ensures var before := PartlyDecayed(t, amounts, todo);
      && k in before.counts && before.counts[k] == t.counts[k]
      && (k in before.epochs <==> k in t.epochs) && LastEpoch(before, k, 0) == LastEpoch(t, k, 0)
      && PartlyDecayed(t, amounts, todo - {k}) == CooledAt(before, k, amounts(k))
  {
    var before, after := PartlyDecayed(t, amounts, todo), PartlyDecayed(t, amounts, todo - {k});
    var cooled := CooledAt(before, k, amounts(k));
    assert after.counts == cooled.counts;
    assert after.epochs == cooled.epochs;
  }

  /** The flag the source returns says whether anything changed. */
  lemma ChangesWhatItTouches(t: Table, p: Policy)
    ensures Decayed(t, p) != t <==> Touches(t, Amounts(t, p), t.counts.Keys)
  {
    var r, amounts := Decayed(t, p), Amounts(t, p);
    if k :| k in t.counts && amounts(k) > 0 {
      assert k in r.counts ==> r.counts[k] < t.counts[k];
    } else {
      NothingDecayedYet(t, amounts, {});
    }
  }

  lemma TouchesOneMore(t: Table, amounts: string -> u32, all: set<string>, todo: set<string>, k: string)
    requires k in todo && k in all && k in t.counts
    ensures Touches(t, amounts, all - (todo - {k})) <==> Touches(t, amounts, all - todo) || amounts(k) > 0
  {
  }

  method Cool(entries: map<string, u32>, epochs: map<string, u64>, k: string, amount: u32)
    returns (entries': map<string, u32>, epochs': map<string, u64>)
    requires k in entries && amount > 0
    ensures Table(entries', epochs') == CooledAt(Table(entries, epochs), k, amount)
  {
    if entries[k] <= amount {
      return entries - {k}, epochs - {k};
    }
    return entries[k := entries[k] - amount], epochs;
  }

  method DecayFailureCounts(t: Table, amount: u32)
    returns (entries: map<string, u32>, epochs: map<string, u64>, changed: bool)
    requires amount > 0
    ensures Table(entries, epochs) == Decayed(t, Flat(amount))
    ensures changed <==> Table(entries, epochs) != t
  {
    entries, epochs, changed := t.counts, t.epochs, false;
    ghost var amounts := Amounts(t, Flat(amount));
    var todo := t.counts.Keys;
    NothingDecayedYet(t, amounts, todo);
    while todo != {}
      invariant todo <= t.counts.Keys
      invariant Table(entries, epochs) == PartlyDecayed(t, amounts, todo)
      invariant changed <==> todo != t.counts.Keys
      decreases todo
    {
      var k :| k in todo;
      DecayOneMore(t, amounts, todo, k);
      entries, epochs := Cool(entries, epochs, k, amount);
      changed := true;
      todo := todo - {k};
    }
    ChangesWhatItTouches(t, Flat(amount));
  }

  method DecayStaleFailureCounts(t: Table, amount: u32, cutoff: u64)
    returns (entries: map<string, u32>, epochs: map<string, u64>, changed: bool)
    requires amount > 0
    ensures Table(entries, epochs) == Decayed(t, Stale(amount, cutoff))
    ensures changed <==> Table(entries, epochs) != t
  {
    entries, epochs, changed := t.counts, t.epochs, false;
    ghost var amounts := Amounts(t, Stale(amount, cutoff));
    var stale := set k | k in t.counts && LastEpoch(t, k, 0) <= cutoff;
    var todo := stale;
    NothingDecayedYet(t, amounts, todo);
    while todo != {}
      invariant todo <= stale
      invariant Table(entries, epochs) == PartlyDecayed(t, amounts, todo)
      invariant changed <==> todo != stale
      decreases todo
    {
      var k :| k in todo;
      DecayOneMore(t, amounts, todo, k);
      changed := true;
      entries, epochs := Cool(entries, epochs, k, amount);
      todo := todo - {k};
    }
    ChangesWhatItTouches(t, Stale(amount, cutoff));
  }

  method DecayStaleFailureCountsWeighted(t: Table, learning: u64, minIdle: u64, maxDecay: u32)
    returns (entries: map<string, u32>, epochs: map<string, u64>, changed: bool)
    ensures Table(entries, epochs) == Decayed(t, Graded(learning, minIdle, maxDecay))
    ensures changed <==> Table(entries, epochs) != t
  {
    entries, epochs, changed := t.counts, t.epochs, false;
    ghost var amounts := Amounts(t, Graded(learning, minIdle, maxDecay));
    var todo := t.counts.Keys;
    NothingDecayedYet(t, amounts, todo);
    while todo != {}
      invariant todo <= t.counts.Keys
      invariant Table(entries, epochs) == PartlyDecayed(t, amounts, todo)
      invariant changed <==> Touches(t, amounts, t.counts.Keys - todo)
      decreases todo
    {
      var k :| k in todo;
      DecayOneMore(t, amounts, todo, k);
      TouchesOneMore(t, amounts, t.counts.Keys, todo, k);
      todo := todo - {k};
      var last := if k in epochs then epochs[k] else learning;
      var decay := GradedDecay(SaturatingSub(learning, last), minIdle, maxDecay);
      assert decay == amounts(k);
      if decay == 0 {
        continue;
      }
      changed := true;
      entries, epochs := Cool(entries, epochs, k, decay);
    }
    assert t.counts.Keys - {} == t.counts.Keys;
    ChangesWhatItTouches(t, Graded(learning, minIdle, maxDecay));
  }

  // ---------------------------------------------------------------- trimming

  function Without(t: Table, dropped: set<string>): Table {
    Table(t.counts - dropped, t.epochs - dropped)
  }

  lemma DropOneMore(t: Table, dropped: set<string>, todo: set<string>, k: string)
    requires k in todo
    ensures var before, after := Without(t, dropped - todo), Without(t, dropped - (todo - {k}));
      && (k in t.counts ==> k in before.counts && before.counts[k] == t.counts[k])
      && LastEpoch(before, k, 0) == LastEpoch(t, k, 0) && (k in before.epochs <==> k in t.epochs)
      && after == if k in dropped then Without(before, {k}) else before
  {
    var before, after := Without(t, dropped - todo), Without(t, dropped - (todo - {k}));
    if k in dropped {
      assert after.counts == before.counts - {k} && after.epochs == before.epochs - {k};
    } else {
      assert dropped - (todo - {k}) == dropped - todo;
    }
  }

  lemma NothingDropped(t: Table, dropped: set<string>)
    ensures Without(t, {}) == t
    ensures dropped <= t.counts.Keys ==> (Without(t, dropped) != t <==> dropped != {})
  {
  }

  function Idle(t: Table, learning: u64, threshold: u32, minIdle: u64): set<string> {
    set k | k in t.counts && t.counts[k] < threshold && IdleEpochs(t, k, learning) >= minIdle
  }

  /** Drops the weak entries that have been idle long enough, and nothing else. */
  method CompactFailureCounts(t: Table, learning: u64, threshold: u32, minIdle: u64)
    returns (entries: map<string, u32>, epochs: map<string, u64>, changed: bool)
    ensures Table(entries, epochs) == Without(t, Idle(t, learning, threshold, minIdle))
    ensures changed <==> Table(entries, epochs) != t
  {
    entries, epochs, changed := t.counts, t.epochs, false;
    ghost var dropped := Idle(t, learning, threshold, minIdle);
    var todo := t.counts.Keys;
    assert dropped - todo == {};
    NothingDropped(t, dropped);
    while todo != {}
      invariant todo <= t.counts.Keys
      invariant Table(entries, epochs) == Without(t, dropped - todo)
      invariant changed <==> dropped - todo != {}
      decreases todo
    {
      var k :| k in todo;
      DropOneMore(t, dropped, todo, k);
      var last := if k in epochs then epochs[k] else learning;
      if entries[k] < threshold && SaturatingSub(learning, last) >= minIdle {
        changed := true;
        epochs := epochs - {k};
        entries := entries - {k};
        assert k in dropped - (todo - {k});
      } else {
        assert dropped - (todo - {k}) == dropped - todo;
      }
      todo := todo - {k};
    }
    assert dropped - {} == dropped;
  }

  // ---------------------------------------------------------------- the order of weak entries

  datatype Weak = Weak(key: string, count: u32, last: u64)

  /** More failures first, then the more recent, then by name. */
  function Compare(a: Weak, b: Weak): Ordering {
    CompareInt(b.count, a.count).Then(CompareInt(b.last, a.last)).Then(CompareString(a.key, b.key))
  }

  predicate Outranks(a: Weak, b: Weak) {
    Compare(a, b).Less?
  }

  predicate NotBehind(a: Weak, b: Weak) {
    !Compare(a, b).Greater?
  }

  function Vector(a: Weak): seq<int> {
    var count: int, last: int := a.count, a.last;
    [-count, -last] + Codes(a.key)
  }

  lemma CompareIsVectorOrder(a: Weak, b: Weak)
    ensures Compare(a, b) == CompareVector(Vector(a), Vector(b))
    ensures Vector(a) == Vector(b) <==> a == b
  {
    StringOrderIsVectorOrder(a.key, b.key);
    var u, v := Vector(a), Vector(b);
    assert u[1..][1..] == Codes(a.key) && v[1..][1..] == Codes(b.key);
    assert u[2..] == Codes(a.key) && v[2..] == Codes(b.key);
  }

  lemma OrderOfTwo(a: Weak, b: Weak)
    ensures Outranks(a, b) <==> Compare(b, a).Greater?
    ensures Compare(a, b).Equal? <==> a == b
  {
    CompareIsVectorOrder(a, b);
    CompareIsVectorOrder(b, a);
    VectorOrderAntisymmetric(Vector(a), Vector(b));
  }

  lemma OrderOfThree(a: Weak, b: Weak, c: Weak)
    requires NotBehind(a, b) && NotBehind(b, c)
    ensures NotBehind(a, c)
    ensures Outranks(a, b) || Outranks(b, c) ==> Outranks(a, c)
  {
    CompareIsVectorOrder(a, b);
    CompareIsVectorOrder(b, c);
    CompareIsVectorOrder(a, c);
    VectorOrderTransitive(Vector(a), Vector(b), Vector(c));
  }

  lemma WeakOrderIsTotal()
    ensures TotalPreorder(NotBehind)
  {
    forall x: Weak, y: Weak ensures NotBehind(x, y) || NotBehind(y, x) {
      OrderOfTwo(x, y);
    }
    forall x: Weak, y: Weak, z: Weak | NotBehind(x, y) && NotBehind(y, z) ensures NotBehind(x, z) {
      OrderOfThree(x, y, z);
    }
  }

  // ---------------------------------------------------------------- pruning

  function WeakKeys(t: Table, threshold: u32): set<string> {
    set k | k in t.counts && t.counts[k] < threshold
  }

  function WeakOf(t: Table, learning: u64, k: string): Weak
    requires k in t.counts
  {
    Weak(k, t.counts[k], LastEpoch(t, k, learning))
  }

  /** The weak entries that come before this one. */
  function Above(t: Table, learning: u64, threshold: u32, k: string): set<string>
    requires k in t.counts
  {
    set j | j in WeakKeys(t, threshold) && Outranks(WeakOf(t, learning, j), WeakOf(t, learning, k))
  }

  /** The weak entries with at least `maxWeak` others before them. */
  function Surplus(t: Table, learning: u64, threshold: u32, maxWeak: nat): set<string> {
    set k | k in WeakKeys(t, threshold) && |Above(t, learning, threshold, k)| >= maxWeak
  }

  function Pruned(t: Table, learning: u64, threshold: u32, maxWeak: nat): Table {
    Without(t, Surplus(t, learning, threshold, maxWeak))
  }

  lemma SubsetIsSmaller<T>(a: set<T>, b: set<T>)
    requires a <= b
    ensures |a| <= |b|
    ensures a != b ==> |a| < |b|
  {
    assert b == a + (b - a);
    assert |b| == |a| + |b - a|;
  }

  lemma FewAreKept(t: Table, learning: u64, threshold: u32, maxWeak: nat)
    requires |WeakKeys(t, threshold)| <= maxWeak
    ensures Surplus(t, learning, threshold, maxWeak) == {} && Pruned(t, learning, threshold, maxWeak) == t
  {
    forall k | k in WeakKeys(t, threshold) ensures |Above(t, learning, threshold, k)| < maxWeak {
      OrderOfTwo(WeakOf(t, learning, k), WeakOf(t, learning, k));
      assert k !in Above(t, learning, threshold, k);
      SubsetIsSmaller(Above(t, learning, threshold, k), WeakKeys(t, threshold));
    }
    assert Surplus(t, learning, threshold, maxWeak) == {};
    NothingDropped(t, {});
  }

  /** `s` holds each of `keys` once. */
  ghost predicate Lists(s: seq<Weak>, keys: set<string>, t: Table, learning: u64) {
    && keys <= t.counts.Keys
    && |s| == |keys|
    && (forall i :: 0 <= i < |s| ==> s[i].key in keys && s[i] == WeakOf(t, learning, s[i].key))
    && (forall i, j :: 0 <= i < j < |s| ==> s[i] != s[j])
  }

  function KeysOf(s: seq<Weak>): set<string> {
    set i | 0 <= i < |s| :: s[i].key
  }

  lemma {:induction false} KeysOfDistinct(s: seq<Weak>, n: nat)
    requires n <= |s| && forall i, j :: 0 <= i < j < |s| ==> s[i].key != s[j].key
    ensures |KeysOf(s[..n])| == n
  {
    if n > 0 {
      KeysOfDistinct(s, n - 1);
      var front := KeysOf(s[..n - 1]);
      assert s[n - 1].key !in front;
      forall k ensures k in KeysOf(s[..n]) <==> k in front + {s[n - 1].key} {
        if k in KeysOf(s[..n]) {
          var i :| 0 <= i < n && s[..n][i].key == k;
          assert i < n - 1 ==> s[..n - 1][i].key == k;
        }
        if k in front {
          var i :| 0 <= i < n - 1 && s[..n - 1][i].key == k;
          assert s[..n][i].key == k;
        }
        assert s[..n][n - 1] == s[n - 1];
      }
      assert KeysOf(s[..n]) == front + {s[n - 1].key};
    }
  }

  lemma ListsAll(s: seq<Weak>, keys: set<string>, t: Table, learning: u64)
    requires Lists(s, keys, t, learning)
    ensures forall i, j :: 0 <= i < j < |s| ==> s[i].key != s[j].key
    ensures KeysOf(s) == keys
  {
    assert forall i, j :: 0 <= i < j < |s| ==> s[i].key != s[j].key;
    KeysOfDistinct(s, |s|);
    assert s[..|s|] == s;
    if KeysOf(s) != keys {
      SubsetIsSmaller(KeysOf(s), keys);
    }
  }

  lemma {:induction false} DistinctFromMultiset(s: seq<Weak>)
    ensures (forall i, j :: 0 <= i < j < |s| ==> s[i] != s[j]) <==> (forall x :: multiset(s)[x] <= 1)
  {
    if s != [] {
      var rest := s[1..];
      assert s == [s[0]] + rest;
      assert multiset(s) == multiset{s[0]} + multiset(rest);
      DistinctFromMultiset(rest);
      if forall i, j :: 0 <= i < j < |s| ==> s[i] != s[j] {
        forall i, j | 0 <= i < j < |rest| ensures rest[i] != rest[j] {
          assert rest[i] == s[i + 1] && rest[j] == s[j + 1];
        }
        assert s[0] !in rest;
      }
      if forall x :: multiset(s)[x] <= 1 {
        assert forall x :: multiset(rest)[x] <= multiset(s)[x];
        assert multiset(s)[s[0]] <= 1;
        assert s[0] !in multiset(rest);
        forall i, j | 0 <= i < j < |s| ensures s[i] != s[j] {
          assert s[j] == rest[j - 1] && s[j] in multiset(rest);
          assert i > 0 ==> s[i] == rest[i - 1];
        }
      }
    }
  }

  lemma SortKeepsListing(s: seq<Weak>, keys: set<string>, t: Table, learning: u64)
    requires Lists(s, keys, t, learning)
    ensures Lists(Sort(s, NotBehind), keys, t, learning)
  {
    var r := Sort(s, NotBehind);
    SortPermutes(s, NotBehind);
    DistinctFromMultiset(s);
    DistinctFromMultiset(r);
    forall i | 0 <= i < |r| ensures r[i].key in keys && r[i] == WeakOf(t, learning, r[i].key) {
      assert r[i] in s;
    }
  }

  lemma OutrankingComesFirst(s: seq<Weak>, j: nat, i: nat)
    requires SortedBy(s, NotBehind) && j < |s| && i < |s| && Outranks(s[j], s[i])
    ensures j < i
  {
    OrderOfTwo(s[j], s[i]);
  }

  /** In the sorted list, the entries before a position are exactly those above the entry there. */
  lemma RankIsPosition(s: seq<Weak>, i: nat, t: Table, learning: u64, threshold: u32)
    requires Lists(s, WeakKeys(t, threshold), t, learning) && SortedBy(s, NotBehind) && i < |s|
    ensures |Above(t, learning, threshold, s[i].key)| == i
  {
    ListsAll(s, WeakKeys(t, threshold), t, learning);
    var above, front := Above(t, learning, threshold, s[i].key), KeysOf(s[..i]);
    forall k ensures k in above <==> k in front {
      if k in front {
        var j :| 0 <= j < i && s[..i][j].key == k;
        OrderOfTwo(s[j], s[i]);
        assert NotBehind(s[j], s[i]);
      }
      if k in above {
        var j :| 0 <= j < |s| && s[j].key == k;
        OutrankingComesFirst(s, j, i);
        assert s[..i][j].key == k;
      }
    }
    assert above == front;
    KeysOfDistinct(s, i);
  }

  /** So taking the first entries of the sorted list keeps exactly those that are not surplus. */
  lemma FirstAreNotSurplus(s: seq<Weak>, t: Table, learning: u64, threshold: u32, maxWeak: nat)
    requires Lists(s, WeakKeys(t, threshold), t, learning) && SortedBy(s, NotBehind) && maxWeak <= |s|
    ensures Surplus(t, learning, threshold, maxWeak) == WeakKeys(t, threshold) - KeysOf(s[..maxWeak])
  {
    ListsAll(s, WeakKeys(t, threshold), t, learning);
    forall k | k in WeakKeys(t, threshold)
      ensures |Above(t, learning, threshold, k)| < maxWeak <==> k in KeysOf(s[..maxWeak])
    {
      var i :| 0 <= i < |s| && s[i].key == k;
      RankIsPosition(s, i, t, learning, threshold);
      if i < maxWeak {
        assert s[..maxWeak][i].key == k;
      }
      if k in KeysOf(s[..maxWeak]) {
        var j :| 0 <= j < maxWeak && s[..maxWeak][j].key == k;
        assert s[j].key == s[i].key;
      }
    }
  }

  lemma ListOneMore(s: seq<Weak>, keys: set<string>, t: Table, learning: u64, k: string)
    requires Lists(s, keys, t, learning) && k in t.counts && k !in keys
    ensures Lists(s + [WeakOf(t, learning, k)], keys + {k}, t, learning)
  {
  }

  lemma OneMoreSeen(all: set<string>, todo: set<string>, k: string)
    requires k in todo
    ensures all - (todo - {k}) == if k in all then all - todo + {k} else all - todo
  {
  }

  method WeakEntries(t: Table, learning: u64, threshold: u32) returns (weak: seq<Weak>)
    ensures Lists(weak, WeakKeys(t, threshold), t, learning)
  {
    weak := [];
    var todo := t.counts.Keys;
    ghost var all := WeakKeys(t, threshold);
    assert all - todo == {};
    while todo != {}
      invariant todo <= t.counts.Keys
      invariant Lists(weak, all - todo, t, learning)
      decreases todo
    {
      var k :| k in todo;
      OneMoreSeen(all, todo, k);
      if t.counts[k] < threshold {
        ListOneMore(weak, all - todo, t, learning, k);
        weak := weak + [WeakOf(t, learning, k)];
      }
      todo := todo - {k};
    }
    assert all - todo == all;
  }

  /** Keeps every entry at the threshold and the `maxWeak` first of the others. */
  method PruneWeakFailureCounts(t: Table, learning: u64, threshold: u32, maxWeak: nat)
    returns (entries: map<string, u32>, epochs: map<string, u64>, changed: bool)
    ensures Table(entries, epochs) == Pruned(t, learning, threshold, maxWeak)
    ensures changed <==> Table(entries, epochs) != t
  {
    entries, epochs, changed := t.counts, t.epochs, false;
    var weak := WeakEntries(t, learning, threshold);
    if |weak| <= maxWeak {
      FewAreKept(t, learning, threshold, maxWeak);
      return;
    }
    SortKeepsListing(weak, WeakKeys(t, threshold), t, learning);
    WeakOrderIsTotal();
    SortSorts(weak, NotBehind);
    weak := Sort(weak, NotBehind);
    FirstAreNotSurplus(weak, t, learning, threshold, maxWeak);
    var keep := set w | w in weak[..maxWeak] :: w.key;
    assert keep == KeysOf(weak[..maxWeak]);
    ghost var dropped := Surplus(t, learning, threshold, maxWeak);
    var todo := t.counts.Keys;
    assert dropped - todo == {};
    NothingDropped(t, dropped);
    while todo != {}
      invariant todo <= t.counts.Keys
      invariant Table(entries, epochs) == Without(t, dropped - todo)
      invariant changed <==> dropped - todo != {}
      decreases todo
    {
      var k :| k in todo;
      DropOneMore(t, dropped, todo, k);
      if !(entries[k] >= threshold || k in keep) {
        changed := true;
        epochs := epochs - {k};
        entries := entries - {k};
        assert k in dropped - (todo - {k});
      } else {
        assert dropped - (todo - {k}) == dropped - todo;
      }
      todo := todo - {k};
    }
    assert dropped - {} == dropped;
  }

  // ---------------------------------------------------------------- what pruning and compaction keep

  lemma AboveIsTransitive(t: Table, learning: u64, threshold: u32, j: string, k: string)
    requires j in WeakKeys(t, threshold) && k in WeakKeys(t, threshold)
    requires j == k || Outranks(WeakOf(t, learning, j), WeakOf(t, learning, k))
    ensures |Above(t, learning, threshold, j)| <= |Above(t, learning, threshold, k)|
  {
    forall i | i in Above(t, learning, threshold, j) ensures i in Above(t, learning, threshold, k) {
      if j != k {
        OrderOfThree(WeakOf(t, learning, i), WeakOf(t, learning, j), WeakOf(t, learning, k));
      }
    }
    SubsetIsSmaller(Above(t, learning, threshold, j), Above(t, learning, threshold, k));
  }

  /** More failures; or as many, the last one later; or that too, and a smaller name. Without an epoch it is new. */
  predicate Stronger(t: Table, learning: u64, a: string, b: string)
    requires a in t.counts && b in t.counts
  {
    var lastA := if a in t.epochs then t.epochs[a] else learning;
    var lastB := if b in t.epochs then t.epochs[b] else learning;
    || t.counts[a] > t.counts[b]
    || (t.counts[a] == t.counts[b] && lastA > lastB)
    || (t.counts[a] == t.counts[b] && lastA == lastB && CompareVector(Codes(a), Codes(b)).Less?)
  }

  lemma OutranksIsStronger(t: Table, learning: u64, a: string, b: string)
    requires a in t.counts && b in t.counts
    ensures Outranks(WeakOf(t, learning, a), WeakOf(t, learning, b)) <==> Stronger(t, learning, a, b)
  {
    StringOrderIsVectorOrder(a, b);
  }

  /** Every weak entry that stays is stronger than every one that goes, and blocked ones all stay. */
  lemma PruneKeepsTheStrongest(t: Table, learning: u64, threshold: u32, maxWeak: nat, kept: string, lost: string)
    requires kept in WeakKeys(t, threshold) && kept in Pruned(t, learning, threshold, maxWeak).counts
    requires lost in t.counts && lost !in Pruned(t, learning, threshold, maxWeak).counts
    ensures t.counts[lost] < threshold && Stronger(t, learning, kept, lost)
  {
    OutranksIsStronger(t, learning, kept, lost);
    var a, b := WeakOf(t, learning, kept), WeakOf(t, learning, lost);
    OrderOfTwo(a, b);
    OrderOfTwo(b, a);
    if !Outranks(a, b) {
      AboveIsTransitive(t, learning, threshold, lost, kept);
    }
  }

  lemma {:induction false} Listing(keys: set<string>, t: Table, learning: u64) returns (s: seq<Weak>)
    requires keys <= t.counts.Keys
    ensures Lists(s, keys, t, learning)
    decreases keys
  {
    if keys == {} {
      s := [];
    } else {
      var k :| k in keys;
      s := Listing(keys - {k}, t, learning);
      ListOneMore(s, keys - {k}, t, learning, k);
      assert keys - {k} + {k} == keys;
      s := s + [WeakOf(t, learning, k)];
    }
  }

  function Min(a: nat, b: nat): nat {
    if a <= b then a else b
  }

  lemma WeakLeft(t: Table, learning: u64, threshold: u32, maxWeak: nat)
    ensures WeakKeys(Pruned(t, learning, threshold, maxWeak), threshold)
         == WeakKeys(t, threshold) - Surplus(t, learning, threshold, maxWeak)
  {
  }

  /** The budget is used up, and not exceeded. */
  lemma PruneUsesTheBudget(t: Table, learning: u64, threshold: u32, maxWeak: nat)
    ensures |WeakKeys(Pruned(t, learning, threshold, maxWeak), threshold)| == Min(maxWeak, |WeakKeys(t, threshold)|)
  {
    var weak := WeakKeys(t, threshold);
    if |weak| <= maxWeak {
      FewAreKept(t, learning, threshold, maxWeak);
    } else {
      var s := Listing(weak, t, learning);
      SortKeepsListing(s, weak, t, learning);
      WeakOrderIsTotal();
      SortSorts(s, NotBehind);
      s := Sort(s, NotBehind);
      FirstAreNotSurplus(s, t, learning, threshold, maxWeak);
      ListsAll(s, weak, t, learning);
      KeysOfDistinct(s, maxWeak);
      WeakLeft(t, learning, threshold, maxWeak);
      assert KeysOf(s[..maxWeak]) <= weak;
      assert weak - (weak - KeysOf(s[..maxWeak])) == KeysOf(s[..maxWeak]);
    }
  }

  lemma PruneIsIdempotent(t: Table, learning: u64, threshold: u32, maxWeak: nat)
    ensures var r := Pruned(t, learning, threshold, maxWeak); Pruned(r, learning, threshold, maxWeak) == r
  {
    PruneUsesTheBudget(t, learning, threshold, maxWeak);
    FewAreKept(Pruned(t, learning, threshold, maxWeak), learning, threshold, maxWeak);
  }

  /** Neither kind of trimming touches what is blocked. */
  lemma TrimmingKeepsBlocked(t: Table, learning: u64, threshold: u32, minIdle: u64, maxWeak: nat)
    ensures Blocked(Without(t, Idle(t, learning, threshold, minIdle)), threshold) == Blocked(t, threshold)
    ensures Blocked(Pruned(t, learning, threshold, maxWeak), threshold) == Blocked(t, threshold)
    ensures forall k :: k in Blocked(t, threshold) ==>
      && Without(t, Idle(t, learning, threshold, minIdle)).counts[k] == t.counts[k]
      && Pruned(t, learning, threshold, maxWeak).counts[k] == t.counts[k]
  {
    forall k | k in Blocked(t, threshold)
      ensures k in Without(t, Idle(t, learning, threshold, minIdle)).counts
        && k in Pruned(t, learning, threshold, maxWeak).counts
    {
      assert k !in Idle(t, learning, threshold, minIdle) && k !in Surplus(t, learning, threshold, maxWeak);
    }
  }

  // ---------------------------------------------------------------- what cooling does over several passes

  lemma DecayedEntry(t: Table, amounts: string -> u32, k: string)
    requires Paired(t)
    ensures var r := PartlyDecayed(t, amounts, {});
      && (k in r.counts <==> k in t.counts && Outlasts(t.counts[k], amounts(k)))
      && (k in r.counts ==> r.counts[k] == t.counts[k] - amounts(k))
      && (k in r.epochs <==> k in r.counts) && (k in r.epochs ==> r.epochs[k] == t.epochs[k])
  {
  }

  lemma DecayedIsPaired(t: Table, amounts: string -> u32)
    requires Paired(t)
    ensures Paired(PartlyDecayed(t, amounts, {}))
  {
  }

  lemma EntryAddsUp(t: Table, f: string -> u32, g: string -> u32, h: string -> u32, k: string)
    requires Paired(t) && (k in t.counts ==> f(k) + g(k) == h(k))
    ensures var left, right := PartlyDecayed(PartlyDecayed(t, f, {}), g, {}), PartlyDecayed(t, h, {});
      && (k in left.counts <==> k in right.counts) && (k in left.counts ==> left.counts[k] == right.counts[k])
      && (k in left.epochs <==> k in right.epochs) && (k in left.epochs ==> left.epochs[k] == right.epochs[k])
  {
    DecayedIsPaired(t, f);
    DecayedEntry(t, f, k);
    DecayedEntry(PartlyDecayed(t, f, {}), g, k);
    DecayedEntry(t, h, k);
  }

  lemma PassesAddUp(t: Table, f: string -> u32, g: string -> u32, h: string -> u32)
    requires Paired(t) && forall k :: k in t.counts ==> f(k) + g(k) == h(k)
    ensures PartlyDecayed(PartlyDecayed(t, f, {}), g, {}) == PartlyDecayed(t, h, {})
  {
    var left, right := PartlyDecayed(PartlyDecayed(t, f, {}), g, {}), PartlyDecayed(t, h, {});
    forall k
      ensures (k in left.counts <==> k in right.counts) && (k in left.counts ==> left.counts[k] == right.counts[k])
      ensures (k in left.epochs <==> k in right.epochs) && (k in left.epochs ==> left.epochs[k] == right.epochs[k])
    {
      EntryAddsUp(t, f, g, h, k);
    }
    assert left.counts == right.counts && left.epochs == right.epochs;
  }

  lemma StaleAmountsAddUp(t: Table, a: u32, b: u32, cutoff: u64, k: string)
    requires Paired(t) && a > 0 && b > 0 && a + b <= U32_MAX && k in t.counts
    ensures DecayOf(t, Stale(a, cutoff), k) + DecayOf(Decayed(t, Stale(a, cutoff)), Stale(b, cutoff), k)
         == DecayOf(t, Stale(a + b, cutoff), k)
  {
  }

  /** Two flat passes, or two stale passes with the same cutoff, are one pass by the sum. */
  lemma CoolingAddsUp(t: Table, a: u32, b: u32, cutoff: u64)
    requires Paired(t) && a > 0 && b > 0 && a + b <= U32_MAX
    ensures Decayed(Decayed(t, Flat(a)), Flat(b)) == Decayed(t, Flat(a + b))
    ensures Decayed(Decayed(t, Stale(a, cutoff)), Stale(b, cutoff)) == Decayed(t, Stale(a + b, cutoff))
  {
    assert Decayed(Decayed(t, Flat(a)), Flat(b)) == Decayed(t, Flat(a + b)) by {
      PassesAddUp(t, Amounts(t, Flat(a)), Amounts(Decayed(t, Flat(a)), Flat(b)), Amounts(t, Flat(a + b)));
    }
    forall k | k in t.counts
      ensures DecayOf(t, Stale(a, cutoff), k) + DecayOf(Decayed(t, Stale(a, cutoff)), Stale(b, cutoff), k)
           == DecayOf(t, Stale(a + b, cutoff), k)
    {
      StaleAmountsAddUp(t, a, b, cutoff, k);
    }
    var mid := Decayed(t, Stale(a, cutoff));
    PassesAddUp(t, Amounts(t, Stale(a, cutoff)), Amounts(mid, Stale(b, cutoff)), Amounts(t, Stale(a + b, cutoff)));
  }

  /** What decay_stale calls stale. */
  function Cutoff(learning: u64, minIdle: u64): u64 {
    SaturatingSub(learning, minIdle)
  }

  /**
   Graded cooling capped at one is stale cooling by one, unless the clock has not yet run for the idle time:
   then the saturated cutoff of zero still counts entries of epoch zero as stale.
   */
  lemma GradedByOneIsStaleExactly(t: Table, learning: u64, minIdle: u64)
    requires Paired(t) && minIdle > 0
    ensures Decayed(t, Graded(learning, minIdle, 1)) == Decayed(t, Stale(1, Cutoff(learning, minIdle)))
      <==> (minIdle <= learning || forall k :: k in t.epochs ==> t.epochs[k] > 0)
  {
    forall k | k in t.counts
      ensures DecayOf(t, Graded(learning, minIdle, 1), k) == OneIf(SaturatingSub(learning, t.epochs[k]) >= minIdle)
      ensures DecayOf(t, Stale(1, Cutoff(learning, minIdle)), k)
           == OneIf(SaturatingSub(learning, t.epochs[k]) >= minIdle || t.epochs[k] == 0)
    {
      GradedByOne(SaturatingSub(learning, t.epochs[k]), minIdle);
    }
    var f, g := Amounts(t, Graded(learning, minIdle, 1)), Amounts(t, Stale(1, Cutoff(learning, minIdle)));
    if minIdle <= learning || forall k :: k in t.epochs ==> t.epochs[k] > 0 {
      SameAmounts(t, f, g);
    } else {
      var k :| k in t.epochs && t.epochs[k] == 0;
      DecayedEntry(t, f, k);
      DecayedEntry(t, g, k);
    }
  }

  function OneIf(b: bool): u32 {
    if b then 1 else 0
  }

  lemma GradedByOne(idle: u64, minIdle: u64)
    requires minIdle > 0
    ensures GradedDecay(idle, minIdle, 1) == OneIf(idle >= minIdle)
  {
  }

  lemma SameAmounts(t: Table, f: string -> u32, g: string -> u32)
    requires Paired(t) && forall k :: k in t.counts ==> f(k) == g(k)
    ensures PartlyDecayed(t, f, {}) == PartlyDecayed(t, g, {})
  {
    var a, b := PartlyDecayed(t, f, {}), PartlyDecayed(t, g, {});
    assert a.counts == b.counts && a.epochs == b.epochs;
  }
}
