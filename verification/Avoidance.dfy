/**
 What the fuzzer has learnt about edges and syscalls that time out: two tables of failure counts and the
 learning epoch, over any run of failures, coolings and trimmings.
 */
module Avoidance {
  import opened MachineInts
  import opened FailureCounts

  datatype State = State(learning: u64, edges: Table, syscalls: Table)

  datatype Step =
    | NoteEdge(edge: string, epoch: u64)
    | NoteSyscall(syscall: string, epoch: u64)
    | Decay(amount: u32)
    | DecayStale(amount: u32, minIdle: u64)
    | DecayWeighted(minIdle: u64, maxDecay: u32)
    | Compact(edgeThreshold: u32, syscallThreshold: u32, minIdle: u64)
    | Prune(edgeThreshold: u32, syscallThreshold: u32, maxEdges: nat, maxSyscalls: nat)

  function NewState(): State {
    State(0, Table(map[], map[]), Table(map[], map[]))
  }

  function Max(a: u64, b: u64): u64 {
    if a >= b then a else b
  }

  function After(s: State, step: Step): State {
    match step
    case NoteEdge(edge, epoch) => State(Max(s.learning, epoch), Noted(s.edges, edge, epoch), s.syscalls)
    case NoteSyscall(syscall, epoch) => State(Max(s.learning, epoch), s.edges, Noted(s.syscalls, syscall, epoch))
    case Decay(amount) => if amount == 0 then s else Cooled(s, Flat(amount))
    case DecayStale(amount, minIdle) => if amount == 0 then s else Cooled(s, Stale(amount, Cutoff(s.learning, minIdle)))
    case DecayWeighted(minIdle, maxDecay) =>
      if maxDecay == 0 || minIdle == 0 then s else Cooled(s, Graded(s.learning, minIdle, maxDecay))
    case Compact(edgeThreshold, syscallThreshold, minIdle) =>
      State(s.learning,
            Without(s.edges, Idle(s.edges, s.learning, edgeThreshold, minIdle)),
            Without(s.syscalls, Idle(s.syscalls, s.learning, syscallThreshold, minIdle)))
    case Prune(edgeThreshold, syscallThreshold, maxEdges, maxSyscalls) =>
      State(s.learning,
            Pruned(s.edges, s.learning, edgeThreshold, maxEdges),
            Pruned(s.syscalls, s.learning, syscallThreshold, maxSyscalls))
  }

  function Cooled(s: State, p: Policy): State {
    State(s.learning, Decayed(s.edges, p), Decayed(s.syscalls, p))
  }

  function Run(s: State, steps: seq<Step>): State {
    if steps == [] then s else After(Run(s, steps[..|steps| - 1]), steps[|steps| - 1])
  }

  // ---------------------------------------------------------------- the object

  class AvoidanceState {
    var learningEpoch: u64
    var edgeFailures: map<string, u32>
    var syscallFailures: map<string, u32>
    var edgeEpochs: map<string, u64>
    var syscallEpochs: map<string, u64>

    ghost function Contents(): State
      reads this
    {
      State(learningEpoch, Table(edgeFailures, edgeEpochs), Table(syscallFailures, syscallEpochs))
    }

    constructor ()
      ensures Contents() == NewState()
    {
      learningEpoch := 0;
      edgeFailures, syscallFailures, edgeEpochs, syscallEpochs := map[], map[], map[], map[];
    }

    method NoteEdgeFailure(edge: string, epoch: u64) returns (failures: u32)
      modifies this
      ensures Contents() == After(old(Contents()), NoteEdge(edge, epoch))
      ensures edge in edgeFailures && failures == edgeFailures[edge]
    {
      learningEpoch := Max(learningEpoch, epoch);
      edgeEpochs := edgeEpochs[edge := epoch];
      var count: nat := if edge in edgeFailures then edgeFailures[edge] else 0;
      failures := (count + 1) % (U32_MAX + 1);
      edgeFailures := edgeFailures[edge := failures];
    }

    method NoteSyscallFailure(syscall: string, epoch: u64) returns (failures: u32)
      modifies this
      ensures Contents() == After(old(Contents()), NoteSyscall(syscall, epoch))
      ensures syscall in syscallFailures && failures == syscallFailures[syscall]
    {
      learningEpoch := Max(learningEpoch, epoch);
      syscallEpochs := syscallEpochs[syscall := epoch];
      var count: nat := if syscall in syscallFailures then syscallFailures[syscall] else 0;
      failures := (count + 1) % (U32_MAX + 1);
      syscallFailures := syscallFailures[syscall := failures];
    }

    method DecayAll(amount: u32) returns (changed: bool)
      modifies this
      ensures Contents() == After(old(Contents()), Decay(amount))
      ensures changed <==> Contents() != old(Contents())
    {
      if amount == 0 {
        return false;
      }
      var edgeChanged, syscallChanged;
      edgeFailures, edgeEpochs, edgeChanged := DecayFailureCounts(Table(edgeFailures, edgeEpochs), amount);
      syscallFailures, syscallEpochs, syscallChanged :=
        DecayFailureCounts(Table(syscallFailures, syscallEpochs), amount);
      return edgeChanged || syscallChanged;
    }

    method DecayStaleOnes(amount: u32, minIdle: u64) returns (changed: bool)
      modifies this
      ensures Contents() == After(old(Contents()), DecayStale(amount, minIdle))
      ensures changed <==> Contents() != old(Contents())
    {
      if amount == 0 {
        return false;
      }
      var cutoff := SaturatingSub(learningEpoch, minIdle);
      var edgeChanged, syscallChanged;
      edgeFailures, edgeEpochs, edgeChanged := DecayStaleFailureCounts(Table(edgeFailures, edgeEpochs), amount, cutoff);
      syscallFailures, syscallEpochs, syscallChanged :=
        DecayStaleFailureCounts(Table(syscallFailures, syscallEpochs), amount, cutoff);
      return edgeChanged || syscallChanged;
    }

    method DecayStaleWeighted(minIdle: u64, maxDecay: u32) returns (changed: bool)
      modifies this
      ensures Contents() == After(old(Contents()), DecayWeighted(minIdle, maxDecay))
      ensures changed <==> Contents() != old(Contents())
    {
      if maxDecay == 0 || minIdle == 0 {
        return false;
      }
      var edgeChanged, syscallChanged;
      edgeFailures, edgeEpochs, edgeChanged :=
        DecayStaleFailureCountsWeighted(Table(edgeFailures, edgeEpochs), learningEpoch, minIdle, maxDecay);
      syscallFailures, syscallEpochs, syscallChanged :=
        DecayStaleFailureCountsWeighted(Table(syscallFailures, syscallEpochs), learningEpoch, minIdle, maxDecay);
      return edgeChanged || syscallChanged;
    }

    method CompactAll(edgeThreshold: u32, syscallThreshold: u32, minIdle: u64) returns (changed: bool)
      modifies this
      ensures Contents() == After(old(Contents()), Compact(edgeThreshold, syscallThreshold, minIdle))
      ensures changed <==> Contents() != old(Contents())
    {
      var edgeChanged, syscallChanged;
      edgeFailures, edgeEpochs, edgeChanged :=
        CompactFailureCounts(Table(edgeFailures, edgeEpochs), learningEpoch, edgeThreshold, minIdle);
      syscallFailures, syscallEpochs, syscallChanged :=
        CompactFailureCounts(Table(syscallFailures, syscallEpochs), learningEpoch, syscallThreshold, minIdle);
      return edgeChanged || syscallChanged;
    }

    method PruneWeakEntries(edgeThreshold: u32, syscallThreshold: u32, maxEdges: nat, maxSyscalls: nat)
      returns (changed: bool)
      modifies this
      ensures Contents() == After(old(Contents()), Prune(edgeThreshold, syscallThreshold, maxEdges, maxSyscalls))
      ensures changed <==> Contents() != old(Contents())
    {
      var edgeChanged, syscallChanged;
      edgeFailures, edgeEpochs, edgeChanged :=
        PruneWeakFailureCounts(Table(edgeFailures, edgeEpochs), learningEpoch, edgeThreshold, maxEdges);
      syscallFailures, syscallEpochs, syscallChanged :=
        PruneWeakFailureCounts(Table(syscallFailures, syscallEpochs), learningEpoch, syscallThreshold, maxSyscalls);
      return edgeChanged || syscallChanged;
    }
  }

  // ---------------------------------------------------------------- runs

  predicate AllPaired(s: State) {
    Paired(s.edges) && Paired(s.syscalls)
  }

  predicate AllCurrent(s: State) {
    Current(s.edges, s.learning) && Current(s.syscalls, s.learning)
  }

  predicate Full(t: Table, k: string) {
    k in t.counts && t.counts[k] == U32_MAX
  }

  /** The step counts a failure of something whose count is already the largest one. */
  predicate Overflows(s: State, step: Step) {
    match step
    case NoteEdge(edge, _) => Full(s.edges, edge)
    case NoteSyscall(syscall, _) => Full(s.syscalls, syscall)
    case _ => false
  }

  lemma CoolingKeepsPaired(t: Table, p: Policy)
    requires Paired(t)
    ensures Paired(Decayed(t, p))
  {
    DecayedIsPaired(t, Amounts(t, p));
  }

  lemma TrimmingKeepsPaired(t: Table, dropped: set<string>)
    requires Paired(t)
    ensures Paired(Without(t, dropped))
  {
  }

  lemma StepKeepsPairedExactly(s: State, step: Step)
    requires AllPaired(s)
    ensures AllPaired(After(s, step)) <==> !Overflows(s, step)
  {
    match step {
      case NoteEdge(edge, epoch) => NotingKeepsPairedExactly(s.edges, edge, epoch);
      case NoteSyscall(syscall, epoch) => NotingKeepsPairedExactly(s.syscalls, syscall, epoch);
      case Decay(amount) =>
        CoolingKeepsPaired(s.edges, Flat(amount));
        CoolingKeepsPaired(s.syscalls, Flat(amount));
      case DecayStale(amount, minIdle) =>
        CoolingKeepsPaired(s.edges, Stale(amount, Cutoff(s.learning, minIdle)));
        CoolingKeepsPaired(s.syscalls, Stale(amount, Cutoff(s.learning, minIdle)));
      case DecayWeighted(minIdle, maxDecay) =>
        CoolingKeepsPaired(s.edges, Graded(s.learning, minIdle, maxDecay));
        CoolingKeepsPaired(s.syscalls, Graded(s.learning, minIdle, maxDecay));
      case Compact(edgeThreshold, syscallThreshold, minIdle) =>
        TrimmingKeepsPaired(s.edges, Idle(s.edges, s.learning, edgeThreshold, minIdle));
        TrimmingKeepsPaired(s.syscalls, Idle(s.syscalls, s.learning, syscallThreshold, minIdle));
      case Prune(edgeThreshold, syscallThreshold, maxEdges, maxSyscalls) =>
        TrimmingKeepsPaired(s.edges, Surplus(s.edges, s.learning, edgeThreshold, maxEdges));
        TrimmingKeepsPaired(s.syscalls, Surplus(s.syscalls, s.learning, syscallThreshold, maxSyscalls));
    }
  }

  /** The run so far, and the step that comes next. */
  ghost predicate PairedUpTo(s: State, steps: seq<Step>, n: nat)
    requires n <= |steps|
  {
    AllPaired(Run(s, steps[..n]))
  }

  ghost predicate OverflowsAt(s: State, steps: seq<Step>, n: nat)
    requires n < |steps|
  {
    Overflows(Run(s, steps[..n]), steps[n])
  }

  lemma RunOneMore(s: State, steps: seq<Step>, n: nat)
    requires n < |steps|
    ensures Run(s, steps[..n + 1]) == After(Run(s, steps[..n]), steps[n])
  {
    assert steps[..n + 1][..n] == steps[..n];
  }

  lemma {:induction false} PairedWithoutOverflow(s: State, steps: seq<Step>, n: nat)
    requires AllPaired(s) && n <= |steps| && forall m: nat :: m < n ==> !OverflowsAt(s, steps, m)
    ensures PairedUpTo(s, steps, n)
  {
    if n > 0 {
      PairedWithoutOverflow(s, steps, n - 1);
      RunOneMore(s, steps, n - 1);
      assert !OverflowsAt(s, steps, n - 1);
      StepKeepsPairedExactly(Run(s, steps[..n - 1]), steps[n - 1]);
    }
  }

  /** The maps stay in step with positive counts throughout a run exactly if no count overflows in it. */
  lemma RunKeepsPairedExactly(s: State, steps: seq<Step>)
    requires AllPaired(s)
    ensures (forall n: nat :: n <= |steps| ==> PairedUpTo(s, steps, n))
       <==> (forall n: nat :: n < |steps| ==> !OverflowsAt(s, steps, n))
  {
    if forall n: nat :: n < |steps| ==> !OverflowsAt(s, steps, n) {
      forall n: nat | n <= |steps| ensures PairedUpTo(s, steps, n) {
        PairedWithoutOverflow(s, steps, n);
      }
    }
    if forall n: nat :: n <= |steps| ==> PairedUpTo(s, steps, n) {
      forall n: nat | n < |steps| ensures !OverflowsAt(s, steps, n) {
        assert PairedUpTo(s, steps, n) && PairedUpTo(s, steps, n + 1);
        RunOneMore(s, steps, n);
        StepKeepsPairedExactly(Run(s, steps[..n]), steps[n]);
      }
    }
  }

  predicate CountsAtMost(t: Table, n: nat) {
    forall k :: k in t.counts ==> t.counts[k] <= n
  }

  lemma StepAddsAtMostOne(s: State, step: Step, n: nat)
    requires n < U32_MAX && CountsAtMost(s.edges, n) && CountsAtMost(s.syscalls, n)
    ensures CountsAtMost(After(s, step).edges, n + 1) && CountsAtMost(After(s, step).syscalls, n + 1)
  {
  }

  lemma {:induction false} CountsWithinLength(steps: seq<Step>, n: nat)
    requires n <= |steps| && n <= U32_MAX
    ensures CountsAtMost(Run(NewState(), steps[..n]).edges, n) && CountsAtMost(Run(NewState(), steps[..n]).syscalls, n)
  {
    if n > 0 {
      CountsWithinLength(steps, n - 1);
      RunOneMore(NewState(), steps, n - 1);
      StepAddsAtMostOne(Run(NewState(), steps[..n - 1]), steps[n - 1], n - 1);
    }
  }

  /** From an empty state no run of at most 2^32 - 1 steps overflows. */
  lemma ShortRunsStayPaired(steps: seq<Step>, n: nat)
    requires n <= |steps| <= U32_MAX
    ensures PairedUpTo(NewState(), steps, n)
  {
    forall m: nat | m < n ensures !OverflowsAt(NewState(), steps, m) {
      CountsWithinLength(steps, m);
    }
    PairedWithoutOverflow(NewState(), steps, n);
  }

  lemma StepKeepsCurrent(s: State, step: Step)
    requires AllCurrent(s)
    ensures AllCurrent(After(s, step)) && s.learning <= After(s, step).learning
  {
  }

  /** The learning epoch never goes back, and no recorded failure is ever ahead of it. */
  lemma {:induction false} RunKeepsCurrent(s: State, steps: seq<Step>)
    requires AllCurrent(s)
    ensures AllCurrent(Run(s, steps)) && s.learning <= Run(s, steps).learning
  {
    if steps != [] {
      RunKeepsCurrent(s, steps[..|steps| - 1]);
      StepKeepsCurrent(Run(s, steps[..|steps| - 1]), steps[|steps| - 1]);
    }
  }

  predicate Notes(step: Step) {
    step.NoteEdge? || step.NoteSyscall?
  }

  /** Only a new failure can block anything: every other step leaves the same edges and syscalls blocked, or fewer. */
  lemma OnlyFailuresBlock(s: State, step: Step, threshold: u32)
    requires !Notes(step)
    ensures Blocked(After(s, step).edges, threshold) <= Blocked(s.edges, threshold)
    ensures Blocked(After(s, step).syscalls, threshold) <= Blocked(s.syscalls, threshold)
  {
  }

  /** What the manager does with a loaded snapshot: compact, then prune. Doing it again changes nothing. */
  lemma CompactThenPruneIsStable(
    s: State, edgeThreshold: u32, syscallThreshold: u32, minIdle: u64, maxEdges: nat, maxSyscalls: nat)
    ensures var compact, prune :=
        Compact(edgeThreshold, syscallThreshold, minIdle),
        Prune(edgeThreshold, syscallThreshold, maxEdges, maxSyscalls);
      var r := After(After(s, compact), prune);
      After(r, compact) == r && After(r, prune) == r
      && Blocked(r.edges, edgeThreshold) == Blocked(s.edges, edgeThreshold)
      && Blocked(r.syscalls, syscallThreshold) == Blocked(s.syscalls, syscallThreshold)
  {
    TrimmedIsStable(s.edges, s.learning, edgeThreshold, minIdle, maxEdges);
    TrimmedIsStable(s.syscalls, s.learning, syscallThreshold, minIdle, maxSyscalls);
  }

  lemma TrimmedIsStable(t: Table, learning: u64, threshold: u32, minIdle: u64, maxWeak: nat)
    ensures var r := Pruned(Without(t, Idle(t, learning, threshold, minIdle)), learning, threshold, maxWeak);
      && Without(r, Idle(r, learning, threshold, minIdle)) == r
      && Pruned(r, learning, threshold, maxWeak) == r
      && Blocked(r, threshold) == Blocked(t, threshold)
  {
    var compacted := Without(t, Idle(t, learning, threshold, minIdle));
    var r := Pruned(compacted, learning, threshold, maxWeak);
    PruneIsIdempotent(compacted, learning, threshold, maxWeak);
    TrimmingKeepsBlocked(t, learning, threshold, minIdle, maxWeak);
    TrimmingKeepsBlocked(compacted, learning, threshold, minIdle, maxWeak);
    forall k | k in r.counts ensures k !in Idle(r, learning, threshold, minIdle) {
      assert k in compacted.counts && k !in Idle(t, learning, threshold, minIdle);
      assert LastEpoch(r, k, learning) == LastEpoch(t, k, learning);
    }
    assert Idle(r, learning, threshold, minIdle) == {};
    NothingDropped(r, {});
  }
}
