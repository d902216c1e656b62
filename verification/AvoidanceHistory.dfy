/** What the failure tables say after a run, told from the failures noted in it, and what compaction spares. */
module AvoidanceHistory {
  import opened MachineInts
  import opened Wrappers
  import opened FailureCounts
  import opened Avoidance
  import opened Alignment

  // ---------------------------------------------------------------- one table of the two

  datatype Side = Edges | Syscalls

  function TableOf(s: State, side: Side): Table {
    if side.Edges? then s.edges else s.syscalls
  }

  datatype Failure = Failure(key: string, epoch: u64)

  /** The failure a step notes on one side, if it does. */
  function NotedBy(step: Step, side: Side): Option<Failure> {
    match step
    case NoteEdge(edge, epoch) => if side.Edges? then Some(Failure(edge, epoch)) else None
    case NoteSyscall(syscall, epoch) => if side.Syscalls? then Some(Failure(syscall, epoch)) else None
    case _ => None
  }

  function ThresholdOf(step: Step, side: Side): u32
    requires step.Compact? || step.Prune?
  {
    if side.Edges? then step.edgeThreshold else step.syscallThreshold
  }

  function BudgetOf(step: Step, side: Side): nat
    requires step.Prune?
  {
    if side.Edges? then step.maxEdges else step.maxSyscalls
  }

  // ---------------------------------------------------------------- what compaction spares

  /** Failures enough, or one within the idle time; failures without an epoch count as new. */
  predicate Spared(t: Table, k: string, learning: u64, threshold: u32, minIdle: u64)
    requires k in t.counts
  {
    t.counts[k] >= threshold || (minIdle > 0 && (k in t.epochs ==> t.epochs[k] + minIdle > learning))
  }

  /** Compaction keeps exactly what is spared, in both maps and with count and epoch unchanged. */
  lemma CompactionSparesExactly(s: State, step: Step, side: Side, k: string)
    requires step.Compact?
    ensures var t, t' := TableOf(s, side), TableOf(After(s, step), side);
      && (k in t'.counts <==> k in t.counts && Spared(t, k, s.learning, ThresholdOf(step, side), step.minIdle))
      && (k in t'.counts ==> t'.counts[k] == t.counts[k] && (k in t'.epochs <==> k in t.epochs))
      && (k in t'.epochs ==> k in t.epochs && t'.epochs[k] == t.epochs[k])
      && (k in t.counts && k !in t'.counts ==> k !in t'.epochs)
  {
  }

  // ---------------------------------------------------------------- what cooling takes away

  predicate Cools(step: Step) {
    step.Decay? || step.DecayStale? || step.DecayWeighted?
  }

  /** How many failures of `k` a cooling step forgets: all alike, only stale ones, or more the longer they are idle. */
  function Forgotten(t: Table, k: string, learning: u64, step: Step): nat
    requires Cools(step)
  {
    match step
    case Decay(amount) => amount
    case DecayStale(amount, minIdle) =>
      var last: nat := if k in t.epochs then t.epochs[k] else 0;
      if last == 0 || last + minIdle <= learning then amount else 0
    case DecayWeighted(minIdle, maxDecay) =>
      var idle: nat := if k in t.epochs && t.epochs[k] <= learning then learning - t.epochs[k] else 0;
      if minIdle == 0 then 0 else if idle / minIdle < maxDecay then idle / minIdle else maxDecay
  }

  /** The graded amount is the number of whole idle periods, up to the cap. */
  lemma GradedIsQuotient(idle: u64, minIdle: u64, maxDecay: u32)
    requires minIdle > 0
    ensures GradedDecay(idle, minIdle, maxDecay) == if idle / minIdle < maxDecay then idle / minIdle else maxDecay
  {
    if idle < minIdle {
      DivisionIsUnique(idle, minIdle, 0, idle);
    } else {
      var q, r := (idle - minIdle) / minIdle, (idle - minIdle) % minIdle;
      assert idle == minIdle * (1 + q) + r;
      DivisionIsUnique(idle, minIdle, 1 + q, r);
    }
  }

  lemma ForgottenIsDecay(t: Table, k: string, learning: u64, step: Step, p: Policy)
    requires match step
      case Decay(amount) => p == Flat(amount)
      case DecayStale(amount, minIdle) => p == Stale(amount, Cutoff(learning, minIdle))
      case DecayWeighted(minIdle, maxDecay) => minIdle > 0 && maxDecay > 0 && p == Graded(learning, minIdle, maxDecay)
      case _ => false
    ensures DecayOf(t, p, k) == Forgotten(t, k, learning, step)
  {
    if step.DecayWeighted? {
      GradedIsQuotient(IdleEpochs(t, k, learning), step.minIdle, step.maxDecay);
    }
  }

  /** Cooling takes that many failures from every count, and the entry with them when none are left. */
  predicate Lowered(t: Table, t': Table, k: string, amount: nat) {
    && (k in t'.counts <==> k in t.counts && (amount == 0 || t.counts[k] > amount))
    && (k in t'.counts ==> t'.counts[k] == t.counts[k] - amount)
    && (k in t'.epochs <==> k in t.epochs && (k in t.counts ==> k in t'.counts))
    && (k in t'.epochs ==> t'.epochs[k] == t.epochs[k])
  }

  lemma DecayedIsLowered(t: Table, p: Policy, k: string)
    ensures Lowered(t, Decayed(t, p), k, DecayOf(t, p, k))
  {
  }

  lemma NothingIsLowered(t: Table, k: string)
    ensures Lowered(t, t, k, 0)
  {
  }

  lemma CoolingLowersExactly(s: State, step: Step, side: Side, k: string)
    requires Cools(step)
    ensures Lowered(TableOf(s, side), TableOf(After(s, step), side), k,
                    Forgotten(TableOf(s, side), k, s.learning, step))
  {
    var t := TableOf(s, side);
    NothingIsLowered(t, k);
    match step
    case Decay(amount) =>
      ForgottenIsDecay(t, k, s.learning, step, Flat(amount));
      DecayedIsLowered(t, Flat(amount), k);
    case DecayStale(amount, minIdle) =>
      ForgottenIsDecay(t, k, s.learning, step, Stale(amount, Cutoff(s.learning, minIdle)));
      DecayedIsLowered(t, Stale(amount, Cutoff(s.learning, minIdle)), k);
    case DecayWeighted(minIdle, maxDecay) =>
      if minIdle > 0 && maxDecay > 0 {
        ForgottenIsDecay(t, k, s.learning, step, Graded(s.learning, minIdle, maxDecay));
        DecayedIsLowered(t, Graded(s.learning, minIdle, maxDecay), k);
      }
  }

  // ---------------------------------------------------------------- what pruning spares

  function WeakIn(t: Table, threshold: u32): set<string> {
    set k | k in t.counts && t.counts[k] < threshold
  }

  /**
   Pruning keeps what has failures enough, and of the rest the strongest, as many as there is room for; what it keeps it
   does not change.
   */
  lemma PruningSparesTheStrongest(s: State, step: Step, side: Side)
    requires step.Prune?
    ensures var t, t', threshold := TableOf(s, side), TableOf(After(s, step), side), ThresholdOf(step, side);
      && (forall k :: k in t'.counts ==> k in t.counts && t'.counts[k] == t.counts[k])
      && (forall k :: k in t.counts && t.counts[k] >= threshold ==> k in t'.counts)
      && |WeakIn(t', threshold)| == Min(BudgetOf(step, side), |WeakIn(t, threshold)|)
      && (forall kept, lost ::
            kept in t'.counts && t'.counts[kept] < threshold && lost in t.counts && lost !in t'.counts ==>
              Stronger(t, s.learning, kept, lost))
  {
    var t, threshold, budget := TableOf(s, side), ThresholdOf(step, side), BudgetOf(step, side);
    var t' := TableOf(After(s, step), side);
    assert t' == Pruned(t, s.learning, threshold, budget);
    PruneUsesTheBudget(t, s.learning, threshold, budget);
    assert WeakIn(t, threshold) == WeakKeys(t, threshold) && WeakIn(t', threshold) == WeakKeys(t', threshold);
    forall kept, lost |
      kept in t'.counts && t'.counts[kept] < threshold && lost in t.counts && lost !in t'.counts
      ensures Stronger(t, s.learning, kept, lost)
    {
      PruneKeepsTheStrongest(t, s.learning, threshold, budget, kept, lost);
    }
  }

  // ---------------------------------------------------------------- what a run notes

  function OneIfNoted(step: Step, side: Side, k: string): nat {
    if NotedBy(step, side).Some? && NotedBy(step, side).value.key == k then 1 else 0
  }

  /** How often the run notes a failure of `k` on this side. */
  function TimesNoted(steps: seq<Step>, side: Side, k: string): nat {
    if steps == [] then 0
    else TimesNoted(steps[..|steps| - 1], side, k) + OneIfNoted(steps[|steps| - 1], side, k)
  }

  /** The epoch of the last such failure. */
  function LastNoted(steps: seq<Step>, side: Side, k: string): Option<u64> {
    if steps == [] then None
    else
      var noted := NotedBy(steps[|steps| - 1], side);
      if noted.Some? && noted.value.key == k then Some(noted.value.epoch)
      else LastNoted(steps[..|steps| - 1], side, k)
  }

  /** The latest epoch of any failure, on either side, or where learning stood before. */
  function Latest(steps: seq<Step>, learning: u64): u64 {
    if steps == [] then learning
    else
      var before, step := Latest(steps[..|steps| - 1], learning), steps[|steps| - 1];
      var epoch := if step.NoteEdge? || step.NoteSyscall? then step.epoch else before;
      if epoch > before then epoch else before
  }

  /** The epoch on record, if there is one, is the last of those noted, or the one there was before. */
  predicate RecordsLast(t: Table, t': Table, last: Option<u64>, k: string) {
    k in t'.epochs ==> if last.Some? then t'.epochs[k] == last.value else k in t.epochs && t'.epochs[k] == t.epochs[k]
  }

  lemma StepRecords(s: State, step: Step, side: Side, k: string)
    ensures After(s, step).learning == Latest([step], s.learning)
    ensures RecordsLast(TableOf(s, side), TableOf(After(s, step), side), LastNoted([step], side, k), k)
  {
    assert [step][..0] == [];
  }

  lemma RecordsAddUp(t: Table, t': Table, t'': Table, last: Option<u64>, more: Option<u64>, k: string)
    requires RecordsLast(t, t', last, k) && RecordsLast(t', t'', more, k)
    ensures RecordsLast(t, t'', if more.Some? then more else last, k)
  {
  }

  lemma OneMoreNoted(steps: seq<Step>, side: Side, k: string, learning: u64)
    requires steps != []
    ensures var front, last := steps[..|steps| - 1], steps[|steps| - 1];
      && LastNoted(steps, side, k)
         == (if LastNoted([last], side, k).Some? then LastNoted([last], side, k) else LastNoted(front, side, k))
      && Latest(steps, learning) == Latest([last], Latest(front, learning))
  {
    assert [steps[|steps| - 1]][..0] == [];
  }

  /** The learning epoch is the latest epoch of any failure, and recorded epochs are those of last failures. */
  lemma {:induction false} EpochsAreExact(s: State, steps: seq<Step>, side: Side, k: string)
    ensures Run(s, steps).learning == Latest(steps, s.learning)
    ensures RecordsLast(TableOf(s, side), TableOf(Run(s, steps), side), LastNoted(steps, side, k), k)
  {
    if steps != [] {
      var front, last := steps[..|steps| - 1], steps[|steps| - 1];
      EpochsAreExact(s, front, side, k);
      StepRecords(Run(s, front), last, side, k);
      OneMoreNoted(steps, side, k, s.learning);
      RecordsAddUp(TableOf(s, side), TableOf(Run(s, front), side), TableOf(Run(s, steps), side),
                   LastNoted(front, side, k), LastNoted([last], side, k), k);
    }
  }

  /** Steps that neither cool nor prune. */
  predicate Gentle(step: Step) {
    Notes(step) || step.Compact?
  }

  /** Steps that spare a failure of epoch `epoch` as long as learning stands at `learning`. */
  predicate SparesSince(step: Step, epoch: u64, learning: u64) {
    step.Compact? ==> step.minIdle > 0 && epoch + step.minIdle > learning
  }

  /** Notes of `k` do not go back before `epoch`. */
  predicate NotesForward(step: Step, side: Side, k: string, epoch: u64) {
    var noted := NotedBy(step, side);
    noted.Some? && noted.value.key == k ==> epoch <= noted.value.epoch
  }

  /** No step cools or prunes, and every compaction spares a failure as recent as `epoch`. */
  ghost predicate Preserves(s: State, steps: seq<Step>, side: Side, k: string, epoch: u64) {
    forall i :: 0 <= i < |steps| ==>
      Gentle(steps[i]) && SparesSince(steps[i], epoch, Run(s, steps).learning) && NotesForward(steps[i], side, k, epoch)
  }

  /** `n` failures of `k`, in 32 bits. */
  predicate Counted(t: Table, k: string, n: nat) {
    k in t.counts && t.counts[k] == n % (U32_MAX + 1)
  }

  ghost predicate RecordedSince(t: Table, k: string, epoch: u64) {
    k in t.counts && k in t.epochs && epoch <= t.epochs[k]
  }

  lemma GentleStepKeeps(s: State, step: Step, side: Side, k: string, epoch: u64, learning: u64)
    requires RecordedSince(TableOf(s, side), k, epoch) && s.learning <= learning
    requires Gentle(step) && SparesSince(step, epoch, learning) && NotesForward(step, side, k, epoch)
    ensures RecordedSince(TableOf(After(s, step), side), k, epoch)
    ensures Counted(TableOf(After(s, step), side), k, TableOf(s, side).counts[k] + OneIfNoted(step, side, k))
  {
    if step.Compact? {
      CompactionSparesExactly(s, step, side, k);
    }
  }

  lemma LearningGrows(s: State, step: Step)
    ensures s.learning <= After(s, step).learning
  {
  }

  lemma PreservesPrefix(s: State, steps: seq<Step>, side: Side, k: string, epoch: u64)
    requires steps != [] && Preserves(s, steps, side, k, epoch)
    ensures Preserves(s, steps[..|steps| - 1], side, k, epoch)
  {
    var front, last := steps[..|steps| - 1], steps[|steps| - 1];
    LearningGrows(Run(s, front), last);
    forall i | 0 <= i < |front|
      ensures Gentle(front[i]) && SparesSince(front[i], epoch, Run(s, front).learning)
      ensures NotesForward(front[i], side, k, epoch)
    {
      assert front[i] == steps[i];
    }
  }

  lemma CountsOn(t: Table, t': Table, k: string, n: nat, more: nat)
    requires Counted(t, k, n) && Counted(t', k, t.counts[k] + more)
    ensures Counted(t', k, n + more)
  {
  }

  lemma NothingCounted(t: Table, k: string)
    requires k in t.counts
    ensures Counted(t, k, t.counts[k])
  {
  }

  /**
   A failure noted less than the idle time before where learning ends up survives every compaction of a run, and all
   failures since are counted, in 32 bits.
   */
  lemma {:induction false} RecentFailuresSurvive(s: State, steps: seq<Step>, side: Side, k: string, epoch: u64)
    requires RecordedSince(TableOf(s, side), k, epoch) && Preserves(s, steps, side, k, epoch)
    ensures RecordedSince(TableOf(Run(s, steps), side), k, epoch)
    ensures Counted(TableOf(Run(s, steps), side), k, TableOf(s, side).counts[k] + TimesNoted(steps, side, k))
  {
    if steps == [] {
      NothingCounted(TableOf(s, side), k);
    } else {
      var front, last := steps[..|steps| - 1], steps[|steps| - 1];
      var before, after := Run(s, front), Run(s, steps);
      PreservesPrefix(s, steps, side, k, epoch);
      RecentFailuresSurvive(s, front, side, k, epoch);
      LearningGrows(before, last);
      GentleStepKeeps(before, last, side, k, epoch, after.learning);
      CountsOn(TableOf(before, side), TableOf(after, side), k,
               TableOf(s, side).counts[k] + TimesNoted(front, side, k), OneIfNoted(last, side, k));
    }
  }

  /** Exactly `n` failures of `k`, and no entry for none. */
  predicate Tallied(t: Table, k: string, n: nat) {
    (k in t.counts <==> n > 0) && (k in t.counts ==> t.counts[k] == n)
  }

  lemma NoteTallies(s: State, step: Step, side: Side, k: string, n: nat)
    requires Notes(step) && n < U32_MAX && Tallied(TableOf(s, side), k, n)
    ensures Tallied(TableOf(After(s, step), side), k, n + OneIfNoted(step, side, k))
  {
  }

  /** From an empty state, without cooling and trimming, a count is the number of failures noted. */
  lemma {:induction false} CountsAreNotes(steps: seq<Step>, side: Side, k: string)
    requires |steps| <= U32_MAX && forall i :: 0 <= i < |steps| ==> Notes(steps[i])
    ensures TimesNoted(steps, side, k) <= |steps|
    ensures Tallied(TableOf(Run(NewState(), steps), side), k, TimesNoted(steps, side, k))
  {
    if steps != [] {
      var front, last := steps[..|steps| - 1], steps[|steps| - 1];
      CountsAreNotes(front, side, k);
      NoteTallies(Run(NewState(), front), last, side, k, TimesNoted(front, side, k));
    }
  }
}
