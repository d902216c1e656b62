/** Generating programs and mutating them in place. Random draws are arbitrary choices, so every draw is covered. */
module Mutation {
  import opened MachineInts
  import opened ProgramModel
  import opened ResourceTracking
  import opened RefRepair
  import opened ProgramEdits
  import opened LiveResources

  // ---------------------------------------------------------------- arguments

  /** A value for a resource without a result: one of its special values, or 0 if it has none. */
  predicate IsSpecial(value: ArgValue, resource: ResourceDesc) {
    value.Const? && if resource.values == [] then value.value == 0 else value.value in resource.values
  }

  /** References are to live results, and a required resource is a reference whenever there is one. */
  predicate ArgFits(argType: ArgType, value: ArgValue, t: Table) {
    && (value.ResultRef? ==> argType.TakesResource() && value.ref in Get(t, argType.resource.kind))
    && (argType.TakesResource() && !value.ResultRef? ==>
          IsSpecial(value, argType.resource) && (argType.Resource? ==> Get(t, argType.resource.kind) == []))
  }

  method GenerateArg(argType: ArgType, t: Table) returns (value: ArgValue)
    ensures ArgFits(argType, value, t)
    ensures argType.Resource? && Get(t, argType.resource.kind) != [] ==>
      value.ResultRef? && value.ref in Get(t, argType.resource.kind)
    ensures argType.TakesResource() && !value.ResultRef? ==>
      value.Const?
      && if argType.resource.values == [] then value.value == 0 else value.value in argType.resource.values
  {
    if argType.TakesResource() {
      var available := Get(t, argType.resource.kind);
      var useIt: bool := *;
      if available != [] && (argType.Resource? || useIt) {
        var i :| 0 <= i < |available|;
        return ResultRef(available[i]);
      }
      var values := argType.resource.values;
      if values != [] {
        var i :| 0 <= i < |values|;
        return Const(values[i]);
      }
      return Const(0);
    }
    value := *;
    if value.ResultRef? {
      value := Const(0);
    }
  }

  /**
   Every resource argument is a reference to something in scope or a special value, and a required one is a special
   value only if nothing is in scope.
   */
  ghost predicate FillsFromScope(calls: seq<Call>, call: Call, descs: seq<SyscallDesc>)
    requires Indexed(calls, descs) && call.syscall < |descs|
  {
    forall a :: 0 <= a < |call.args| && a < |descs[call.syscall].args| && descs[call.syscall].args[a].TakesResource()
      ==> Fills(calls, call.args[a], descs[call.syscall].args[a], descs)
  }

  ghost predicate Fills(calls: seq<Call>, value: ArgValue, argType: ArgType, descs: seq<SyscallDesc>)
    requires Indexed(calls, descs) && argType.TakesResource()
  {
    if value.ResultRef? then InScope(calls, descs, argType.resource.kind, value.ref)
    else
      && value.Const?
      && (if argType.resource.values == [] then value.value == 0 else value.value in argType.resource.values)
      && (argType.Resource? ==> forall x :: !InScope(calls, descs, argType.resource.kind, x))
  }

  lemma FittingFills(calls: seq<Call>, value: ArgValue, argType: ArgType, descs: seq<SyscallDesc>)
    requires Indexed(calls, descs) && argType.TakesResource() && ArgFits(argType, value, TableAfter(calls, descs))
    ensures Fills(calls, value, argType, descs)
  {
    TableListsScope(calls, descs, argType.resource.kind);
  }

  /** Lengths and other derived values are filled in afterwards, in places that take no resource. */
  method RepairDerivedArgs(types: seq<ArgType>, args: seq<ArgValue>) returns (r: seq<ArgValue>)
    requires |args| == |types|
    ensures |r| == |args|
    ensures forall a :: 0 <= a < |args| ==> r[a] == args[a] || (!types[a].TakesResource() && !r[a].ResultRef?)
  {
    r := args;
    for a := 0 to |args|
      invariant |r| == |args|
      invariant forall b :: 0 <= b < |args| ==> r[b] == args[b] || (!types[b].TakesResource() && !r[b].ResultRef?)
    {
      var derived: bool := *;
      var value: ArgValue := *;
      if derived && !types[a].TakesResource() && !value.ResultRef? {
        r := r[a := value];
      }
    }
  }

  method GenerateArgs(desc: SyscallDesc, t: Table) returns (args: seq<ArgValue>)
    ensures |args| == |desc.args|
    ensures forall a :: 0 <= a < |args| ==> ArgFits(desc.args[a], args[a], t)
  {
    args := [];
    for a := 0 to |desc.args|
      invariant |args| == a
      invariant forall b :: 0 <= b < a ==> ArgFits(desc.args[b], args[b], t)
    {
      var value := GenerateArg(desc.args[a], t);
      args := args + [value];
    }
    args := RepairDerivedArgs(desc.args, args);
  }

  lemma FittingCallInScope(calls: seq<Call>, call: Call, descs: seq<SyscallDesc>)
    requires Indexed(calls, descs) && call.syscall < |descs| && |call.args| == |descs[call.syscall].args|
    requires forall a :: 0 <= a < |call.args| ==>
      ArgFits(descs[call.syscall].args[a], call.args[a], TableAfter(calls, descs))
    ensures Typed(call, descs) && CallInScope(calls, call, descs) && FillsFromScope(calls, call, descs)
  {
    forall a | 0 <= a < |call.args| && descs[call.syscall].args[a].TakesResource()
      ensures Fills(calls, call.args[a], descs[call.syscall].args[a], descs)
    {
      FittingFills(calls, call.args[a], descs[call.syscall].args[a], descs);
    }
    forall a: nat | a < |call.args| && RefArg(call, descs, a)
      ensures InScope(calls, descs, descs[call.syscall].args[a].resource.kind, call.args[a].ref)
    {
      assert ArgFits(descs[call.syscall].args[a], call.args[a], TableAfter(calls, descs));
      TableListsScope(calls, descs, descs[call.syscall].args[a].resource.kind);
    }
  }

  lemma SoundStep(calls: seq<Call>, call: Call, descs: seq<SyscallDesc>)
    requires Sound(calls, descs) && Typed(call, descs) && CallInScope(calls, call, descs)
    ensures Sound(calls + [call], descs)
  {
    WellScopedStep(calls, call, descs);
  }

  ghost predicate AllFilled(calls: seq<Call>, descs: seq<SyscallDesc>)
    requires Indexed(calls, descs)
  {
    forall i :: 0 <= i < |calls| ==> FillsFromScope(calls[..i], calls[i], descs)
  }

  lemma FilledStep(calls: seq<Call>, call: Call, descs: seq<SyscallDesc>)
    requires Indexed(calls + [call], descs) && Indexed(calls, descs) && AllFilled(calls, descs)
    requires call.syscall < |descs| && FillsFromScope(calls, call, descs)
    ensures AllFilled(calls + [call], descs)
  {
    var longer := calls + [call];
    forall i | 0 <= i < |longer| ensures FillsFromScope(longer[..i], longer[i], descs) {
      assert longer[..i] == calls[..i];
      if i == |calls| {
        assert calls[..i] == calls;
      }
    }
  }

  // ---------------------------------------------------------------- generation

  predicate Usable(enabled: seq<nat>, descs: seq<SyscallDesc>) {
    enabled != [] && forall s :: s in enabled ==> s < |descs|
  }

  /** Whatever the weights and preferences are, the choice is one of the enabled system calls. */
  method ChooseSyscall(enabled: seq<nat>) returns (syscall: nat)
    requires enabled != []
    ensures syscall in enabled
  {
    assert 0 <= 0 < |enabled|;
    var i :| 0 <= i < |enabled|;
    syscall := enabled[i];
  }

  /** A program of one to ten enabled calls, sound as generated: it needs no repair. */
  method Generate(descs: seq<SyscallDesc>, enabled: seq<nat>) returns (calls: seq<Call>)
    requires Usable(enabled, descs)
    ensures Generated(calls, descs, enabled) && Repaired(calls, descs) == calls
  {
    var count :| MIN_CALLS <= count <= MAX_CALLS;
    calls := [];
    var live := new AvailableResources();
    while |calls| < count
      invariant |calls| <= count && Sound(calls, descs) && AllFilled(calls, descs)
      invariant forall call :: call in calls ==> call.syscall in enabled
      invariant live.table == TableAfter(calls, descs)
      modifies live
    {
      var syscall := ChooseSyscall(enabled);
      var args := GenerateArgs(descs[syscall], live.table);
      var call := Call(syscall, args);
      FittingCallInScope(calls, call, descs);
      SoundStep(calls, call, descs);
      FilledStep(calls, call, descs);
      GenerationStep(calls, call, descs);
      live.Consume(descs[syscall], args);
      live.RegisterOutputs(descs[syscall].outputs, |calls|);
      calls := calls + [call];
    }
    RepairFixesExactlyTheBroken(calls, descs);
  }

  /** Consuming and then registering arrives at the table that registering and then consuming defines. */
  lemma GenerationStep(calls: seq<Call>, call: Call, descs: seq<SyscallDesc>)
    requires call.syscall < |descs| && Sound(calls, descs) && Sound(calls + [call], descs)
    ensures var desc := descs[call.syscall];
      TableAfter(calls + [call], descs)
      == RegisteredOutputs(Consumed(TableAfter(calls, descs), desc, call.args), desc.outputs, |calls|, 0)
  {
    var longer := calls + [call];
    assert longer[..|calls|] == calls;
    SoundNeverClosesOwn(longer, descs);
    assert !ClosesOwn(longer[|calls|], |calls|, descs);
    TableListsScope(calls, descs, "");
    OrderMattersOnlyForOwnResults(TableAfter(calls, descs), call, |calls|, descs);
  }

  lemma EditKeepsTypes(calls: seq<Call>, descs: seq<SyscallDesc>, pos: nat)
    requires AllTyped(calls, descs)
    ensures AllTyped(ShiftForInsert(calls, pos), descs) && AllTyped(ShiftForRemoval(calls, pos), descs)
  {
    forall i | 0 <= i < |calls|
      ensures Typed(ShiftForInsert(calls, pos)[i], descs) && Typed(ShiftForRemoval(calls, pos)[i], descs)
    {
      assert Typed(calls[i], descs);
    }
  }

  // ---------------------------------------------------------------- mutation

  method RepairArgs(types: seq<ArgType>, original: seq<ArgValue>, t: Table) returns (args: seq<ArgValue>)
    ensures args == FixArgs(types, original, t)
  {
    args := original;
    var a := 0;
    while a < |args| && a < |types|
      invariant a <= |args| == |original| && a <= |types|
      invariant forall b :: 0 <= b < |args| ==>
        args[b] == if b < a then FixArg(types[b], original[b], t) else original[b]
    {
      if types[a].TakesResource() && args[a].ResultRef? {
        var available := Get(t, types[a].resource.kind);
        if args[a].ref !in available {
          if available != [] {
            args := args[a := ResultRef(available[|available| - 1])];
          } else {
            args := args[a := Const(types[a].resource.Default())];
          }
        }
      }
      a := a + 1;
    }
  }

  lemma RepairedOneMore(calls: seq<Call>, call: Call, descs: seq<SyscallDesc>)
    requires Indexed(calls, descs) && call.syscall < |descs|
    ensures Repaired(calls + [call], descs)
         == Repaired(calls, descs) + [FixCall(call, descs, TableAfter(Repaired(calls, descs), descs))]
  {
  }

  lemma TableOneMore(calls: seq<Call>, call: Call, descs: seq<SyscallDesc>)
    requires Indexed(calls, descs) && call.syscall < |descs|
    ensures TableAfter(calls + [call], descs)
         == Consumed(RegisteredOutputs(TableAfter(calls, descs), descs[call.syscall].outputs, |calls|, 0),
                     descs[call.syscall], call.args)
  {
  }

  /** The first `n` calls are repaired and the rest are as they were. */
  predicate RepairedUpTo(original: seq<Call>, descs: seq<SyscallDesc>, n: nat, current: seq<Call>)
    requires Indexed(original, descs) && n <= |original|
  {
    |current| == |original| && Indexed(current, descs) && current == Repaired(original[..n], descs) + original[n..]
  }

  lemma CurrentCall(original: seq<Call>, descs: seq<SyscallDesc>, n: nat, current: seq<Call>)
    requires Indexed(original, descs) && n < |original| && RepairedUpTo(original, descs, n, current)
    ensures current[n] == original[n]
  {
  }

  lemma AllRepaired(original: seq<Call>, descs: seq<SyscallDesc>, current: seq<Call>)
    requires Indexed(original, descs) && RepairedUpTo(original, descs, |original|, current)
    ensures current == Repaired(original, descs)
  {
    assert original[..|original|] == original;
  }

  /** One round of the repair loop: the repaired part grows by one call, the rest is as it was. */
  lemma RepairStep(original: seq<Call>, descs: seq<SyscallDesc>, n: nat, current: seq<Call>, args: seq<ArgValue>)
    requires Indexed(original, descs) && n < |original| && RepairedUpTo(original, descs, n, current)
    requires args == FixArgs(descs[original[n].syscall].args, original[n].args, TableAfter(current[..n], descs))
    ensures var fixed, desc := original[n].(args := args), descs[original[n].syscall];
      && RepairedUpTo(original, descs, n + 1, current[n := fixed])
      && TableAfter(current[n := fixed][..n + 1], descs)
         == Consumed(RegisteredOutputs(TableAfter(current[..n], descs), desc.outputs, n, 0), desc, args)
  {
    var done, fixed := Repaired(original[..n], descs), original[n].(args := args);
    ReplaceNext(done, original, n, fixed);
    RepairedOneMore(original[..n], original[n], descs);
    TableOneMore(done, fixed, descs);
  }

  lemma ReplaceNext(done: seq<Call>, original: seq<Call>, n: nat, fixed: Call)
    requires n == |done| < |original|
    ensures var current := done + original[n..];
      && current[..n] == done
      && original[..n + 1] == original[..n] + [original[n]]
      && current[n := fixed] == (done + [fixed]) + original[n + 1..]
      && current[n := fixed][..n + 1] == done + [fixed]
  {
  }

  lemma RepairMakesSound(calls: seq<Call>, descs: seq<SyscallDesc>)
    requires AllTyped(calls, descs)
    ensures Indexed(calls, descs) && Sound(Repaired(calls, descs), descs)
  {
    RepairScopes(calls, descs);
    RepairKeepsTypes(calls, descs);
  }

  lemma SplicedIsTyped(a: seq<Call>, b: seq<Call>, i: nat, j: nat, descs: seq<SyscallDesc>)
    requires AllTyped(a, descs) && AllTyped(b, descs) && i <= |a| && j < |b|
    ensures AllTyped(a[..i] + b[j..], descs) && a[..i] + b[j..] != []
  {
  }

  // ---------------------------------------------------------------- what each mutation may do

  /** One enabled call, in scope where it lands, put at `pos` with all references renumbered. */
  ghost predicate InsertsAt(
    before: seq<Call>, after: seq<Call>, descs: seq<SyscallDesc>, enabled: seq<nat>, pos: nat, call: Call)
  {
    && pos <= |before| && after == Inserted(before, pos, call) && Typed(call, descs) && call.syscall in enabled
    && Indexed(after, descs) && CallInScope(after[..pos], call, descs) && FillsFromScope(after[..pos], call, descs)
  }

  /** The call at `pos` taken out with all references renumbered. */
  predicate RemovesAt(before: seq<Call>, after: seq<Call>, pos: nat) {
    pos < |before| && after == Removed(before, pos)
  }

  /** Other arguments for the call at `pos`, in scope there. */
  ghost predicate ReplacesAt(
    before: seq<Call>, after: seq<Call>, descs: seq<SyscallDesc>, pos: nat, args: seq<ArgValue>)
  {
    && pos < |before| && after == before[pos := before[pos].(args := args)]
    && Indexed(before, descs) && CallInScope(before[..pos], before[pos].(args := args), descs)
    && FillsFromScope(before[..pos], before[pos].(args := args), descs)
  }

  /** The same references in the same places. */
  predicate SameRefs(call: Call, call': Call) {
    && call'.syscall == call.syscall && |call'.args| == |call.args|
    && forall a :: 0 <= a < |call.args| ==>
      (call.args[a].ResultRef? || call'.args[a].ResultRef? ==> call'.args[a] == call.args[a])
  }

  /** The same calls with the same references. */
  predicate Retouches(before: seq<Call>, after: seq<Call>) {
    |after| == |before| && forall i :: 0 <= i < |before| ==> SameRefs(before[i], after[i])
  }

  /** A program as generation makes them. */
  ghost predicate Generated(calls: seq<Call>, descs: seq<SyscallDesc>, enabled: seq<nat>) {
    && Sound(calls, descs) && 1 <= |calls| <= 10 && AllFilled(calls, descs)
    && forall call :: call in calls ==> call.syscall in enabled
  }

  /** The first `i` calls followed by the calls of a generated program from `j` on, repaired. */
  ghost predicate SplicesAt(
    before: seq<Call>, after: seq<Call>, descs: seq<SyscallDesc>, enabled: seq<nat>, i: nat, other: seq<Call>, j: nat)
  {
    && i < |before| && Generated(other, descs, enabled) && j < |other|
    && Indexed(before[..i] + other[j..], descs) && after == Repaired(before[..i] + other[j..], descs)
  }

  ghost predicate Edits(before: seq<Call>, after: seq<Call>, descs: seq<SyscallDesc>, enabled: seq<nat>) {
    || Retouches(before, after)
    || (|before| < 10 && exists pos: nat, call :: InsertsAt(before, after, descs, enabled, pos, call))
    || (|before| > 1 && exists pos: nat :: RemovesAt(before, after, pos))
    || (exists pos: nat, args :: ReplacesAt(before, after, descs, pos, args))
    || (exists i: nat, other, j: nat :: SplicesAt(before, after, descs, enabled, i, other, j))
  }

  /** Cut to the greatest length and repaired. */
  ghost predicate Finishes(edited: seq<Call>, after: seq<Call>, descs: seq<SyscallDesc>) {
    var cut := if |edited| > 10 then edited[..10] else edited;
    Indexed(cut, descs) && after == Repaired(cut, descs)
  }

  lemma EditsKeepCalls(before: seq<Call>, after: seq<Call>, descs: seq<SyscallDesc>, enabled: seq<nat>)
    requires Edits(before, after, descs, enabled) && before != []
    ensures after != []
  {
  }

  /** Splicing keeps the part of a sound program before the split. */
  lemma SpliceKeepsPrefix(
    before: seq<Call>, after: seq<Call>, descs: seq<SyscallDesc>, enabled: seq<nat>, i: nat, other: seq<Call>, j: nat)
    requires Sound(before, descs) && SplicesAt(before, after, descs, enabled, i, other, j)
    ensures |after| > i && after[..i] == before[..i]
    ensures forall k :: i <= k < |after| ==> after[k].syscall == other[j + (k - i)].syscall
  {
    var spliced := before[..i] + other[j..];
    assert spliced[..i] == before[..i];
    forall k | 0 <= k < i ensures CallInScope(before[..i][..k], before[..i][k], descs) {
      assert before[..i][..k] == before[..k];
      assert CallInScope(before[..k], before[k], descs);
    }
    RepairKeepsScopedPrefix(spliced, descs, i);
    RepairKeepsCalls(spliced, descs);
    assert forall k :: i <= k < |spliced| ==> spliced[k] == other[j + (k - i)];
  }

  class Program {
    var calls: seq<Call>

    constructor (calls: seq<Call>)
      ensures this.calls == calls
    {
      this.calls := calls;
    }

    method ShiftRefsForInsert(pos: nat)
      modifies this
      ensures calls == ShiftForInsert(old(calls), pos)
    {
      var i := 0;
      while i < |calls|
        invariant i <= |calls| == |old(calls)|
        invariant forall j :: 0 <= j < i ==> calls[j] == ShiftCallForInsert(old(calls)[j], pos)
        invariant forall j :: i <= j < |calls| ==> calls[j] == old(calls)[j]
      {
        var args := calls[i].args;
        var a := 0;
        while a < |args|
          invariant a <= |args| == |calls[i].args|
          invariant forall b :: 0 <= b < |args| ==>
            args[b] == if b < a then InsertShift(calls[i].args[b], pos) else calls[i].args[b]
        {
          if args[a].ResultRef? && args[a].ref.call >= pos {
            args := args[a := ResultRef(Ref((args[a].ref.call + 1) % (USIZE_MAX + 1), args[a].ref.result))];
          }
          a := a + 1;
        }
        assert args == ShiftCallForInsert(calls[i], pos).args;
        calls := calls[i := calls[i].(args := args)];
        i := i + 1;
      }
    }

    method ShiftRefsForRemoval(pos: nat)
      modifies this
      ensures calls == ShiftForRemoval(old(calls), pos)
    {
      var i := 0;
      while i < |calls|
        invariant i <= |calls| == |old(calls)|
        invariant forall j :: 0 <= j < i ==> calls[j] == ShiftCallForRemoval(old(calls)[j], pos)
        invariant forall j :: i <= j < |calls| ==> calls[j] == old(calls)[j]
      {
        var args := calls[i].args;
        var a := 0;
        while a < |args|
          invariant a <= |args| == |calls[i].args|
          invariant forall b :: 0 <= b < |args| ==>
            args[b] == if b < a then RemoveShift(calls[i].args[b], pos) else calls[i].args[b]
        {
          if args[a].ResultRef? {
            if args[a].ref.call == pos {
              args := args[a := ResultRef(Ref(USIZE_MAX, USIZE_MAX))];
            } else if args[a].ref.call > pos {
              args := args[a := ResultRef(Ref(args[a].ref.call - 1, args[a].ref.result))];
            }
          }
          a := a + 1;
        }
        assert args == ShiftCallForRemoval(calls[i], pos).args;
        calls := calls[i := calls[i].(args := args)];
        i := i + 1;
      }
    }

    method RepairRefs(descs: seq<SyscallDesc>)
      requires Indexed(calls, descs)
      modifies this
      ensures calls == Repaired(old(calls), descs)
    {
      ghost var original := calls;
      assert original[..0] == [] && original[0..] == original;
      var live := new AvailableResources();
      var n := 0;
      while n < |calls|
        invariant n <= |original| && RepairedUpTo(original, descs, n, calls)
        invariant live.table == TableAfter(calls[..n], descs)
        invariant fresh(live)
      {
        var call := calls[n];
        CurrentCall(original, descs, n, calls);
        var args := RepairArgs(descs[call.syscall].args, call.args, live.table);
        RepairStep(original, descs, n, calls, args);
        live.RegisterOutputs(descs[call.syscall].outputs, n);
        live.Consume(descs[call.syscall], args);
        calls := calls[n := call.(args := args)];
        n := n + 1;
      }
      AllRepaired(original, descs, calls);
    }

    method InsertCall(descs: seq<SyscallDesc>, enabled: seq<nat>)
      requires AllTyped(calls, descs) && Usable(enabled, descs)
      modifies this
      ensures AllTyped(calls, descs)
      ensures |old(calls)| >= 10 ==> calls == old(calls)
      ensures |old(calls)| < 10 ==>
        exists pos: nat, call :: InsertsAt(old(calls), calls, descs, enabled, pos, call)
    {
      if |calls| >= MAX_CALLS {
        return;
      }
      var pos :| 0 <= pos <= |calls|;
      EditKeepsTypes(calls, descs, pos);
      ShiftRefsForInsert(pos);
      var available := AvailableBefore(calls, descs, pos);
      var syscall := ChooseSyscall(enabled);
      var args := GenerateArgs(descs[syscall], available);
      var call := Call(syscall, args);
      FittingCallInScope(calls[..pos], call, descs);
      var shifted := calls;
      calls := calls[..pos] + [call] + calls[pos..];
      assert calls[..pos] == shifted[..pos];
      assert InsertsAt(old(calls), calls, descs, enabled, pos, call);
    }

    method RemoveCall(descs: seq<SyscallDesc>)
      requires AllTyped(calls, descs)
      modifies this
      ensures AllTyped(calls, descs)
      ensures |old(calls)| <= 1 ==> calls == old(calls)
      ensures |old(calls)| > 1 ==> exists pos: nat :: RemovesAt(old(calls), calls, pos)
    {
      if |calls| <= 1 {
        return;
      }
      var pos :| 0 <= pos < |calls|;
      calls := calls[..pos] + calls[pos + 1..];
      EditKeepsTypes(calls, descs, pos);
      ShiftRefsForRemoval(pos);
      assert RemovesAt(old(calls), calls, pos);
    }

    /** Fresh arguments for some call. */
    method ReplaceArgs(descs: seq<SyscallDesc>)
      requires AllTyped(calls, descs)
      modifies this
      ensures AllTyped(calls, descs) && |calls| == |old(calls)|
      ensures old(calls) != [] ==> exists i: nat, args :: ReplacesAt(old(calls), calls, descs, i, args)
    {
      if calls == [] {
        return;
      }
      var i :| 0 <= i < |calls|;
      assert Typed(calls[i], descs);
      var available := AvailableBefore(calls, descs, i);
      var args := GenerateArgs(descs[calls[i].syscall], available);
      FittingCallInScope(calls[..i], calls[i].(args := args), descs);
      calls := calls[i := calls[i].(args := args)];
      assert ReplacesAt(old(calls), calls, descs, i, args);
    }

    /** Integer and buffer mutations: some values that are not references become others that are not. */
    method RetouchArg(descs: seq<SyscallDesc>)
      requires AllTyped(calls, descs)
      modifies this
      ensures AllTyped(calls, descs) && Retouches(old(calls), calls)
    {
      if calls == [] {
        return;
      }
      var i :| 0 <= i < |calls|;
      assert Typed(calls[i], descs);
      if calls[i].args == [] {
        return;
      }
      var a :| 0 <= a < |calls[i].args|;
      if calls[i].args[a].ResultRef? {
        return;
      }
      var value: ArgValue := *;
      if value.ResultRef? {
        return;
      }
      var args := RepairDerivedArgs(descs[calls[i].syscall].args, calls[i].args[a := value]);
      assert forall b :: 0 <= b < |args| && calls[i].args[b].ResultRef? ==>
        descs[calls[i].syscall].args[b].TakesResource();
      calls := calls[i := calls[i].(args := args)];
    }

    /** A prefix of this program followed by a suffix of a fresh one. */
    method Splice(descs: seq<SyscallDesc>, enabled: seq<nat>)
      requires AllTyped(calls, descs) && Usable(enabled, descs)
      modifies this
      ensures AllTyped(calls, descs)
      ensures if old(calls) == [] then calls == []
              else Sound(calls, descs)
                   && exists i: nat, other, j: nat :: SplicesAt(old(calls), calls, descs, enabled, i, other, j)
    {
      var other := Generate(descs, enabled);
      if other == [] || calls == [] {
        return;
      }
      var splitSelf :| 0 <= splitSelf < |calls|;
      var splitOther :| 0 <= splitOther < |other|;
      SplicedIsTyped(calls, other, splitSelf, splitOther, descs);
      calls := calls[..splitSelf] + other[splitOther..];
      RepairMakesSound(calls, descs);
      RepairRefs(descs);
      assert SplicesAt(old(calls), calls, descs, enabled, splitSelf, other, splitOther);
    }

    /** One of the six mutations. */
    method ApplyMutation(descs: seq<SyscallDesc>, enabled: seq<nat>)
      requires AllTyped(calls, descs) && Usable(enabled, descs)
      modifies this
      ensures AllTyped(calls, descs) && Edits(old(calls), calls, descs, enabled)
    {
      var kind :| 0 <= kind < 6;
      match kind {
        case 0 => InsertCall(descs, enabled);
        case 1 => RemoveCall(descs);
        case 2 => ReplaceArgs(descs);
        case 3 => RetouchArg(descs);
        case 4 => RetouchArg(descs);
        case _ => Splice(descs, enabled);
      }
    }

    /** Whatever program comes in, and whatever is drawn, a sound program of one to ten calls comes out. */
    method Mutate(descs: seq<SyscallDesc>, enabled: seq<nat>)
      requires AllTyped(calls, descs) && Usable(enabled, descs)
      modifies this
      ensures Sound(calls, descs) && 1 <= |calls| <= 10
      ensures old(calls) != [] ==>
        exists edited :: Edits(old(calls), edited, descs, enabled) && Finishes(edited, calls, descs)
    {
      ApplyMutation(descs, enabled);
      ghost var edited := calls;
      if old(calls) != [] {
        EditsKeepCalls(old(calls), edited, descs, enabled);
      }
      if calls == [] {
        calls := Generate(descs, enabled);
      }
      if |calls| > MAX_CALLS {
        calls := calls[..MAX_CALLS];
      }
      RepairMakesSound(calls, descs);
      RepairRefs(descs);
    }
  }

  // ---------------------------------------------------------------- what survives each mutation unrepaired

  lemma SoundIsBounded(calls: seq<Call>, descs: seq<SyscallDesc>)
    requires Sound(calls, descs) && |calls| <= USIZE_MAX
    ensures Bounded(calls)
  {
  }

  /** Repair leaves an insertion as it is exactly when the new call fits; in particular when it is no `close`. */
  lemma InsertSurvivesRepair(calls: seq<Call>, descs: seq<SyscallDesc>, pos: nat, call: Call)
    requires Sound(calls, descs) && Typed(call, descs) && pos <= |calls| < USIZE_MAX
    requires CallInScope(calls[..pos], call, descs)
    ensures Indexed(Inserted(calls, pos, call), descs)
    ensures Repaired(Inserted(calls, pos, call), descs) == Inserted(calls, pos, call)
      <==> forall i :: pos <= i < |calls| ==> Spares(call, calls[i], descs, pos)
    ensures !descs[call.syscall].IsTerminal() ==>
      Repaired(Inserted(calls, pos, call), descs) == Inserted(calls, pos, call)
  {
    SoundIsBounded(calls, descs);
    InsertNeedsNoRepair(calls, descs, pos, call);
    RepairFixesExactlyTheBroken(Inserted(calls, pos, call), descs);
  }

  /** Repair leaves a removal as it is exactly when nothing used the removed call. */
  lemma RemovalSurvivesRepair(calls: seq<Call>, descs: seq<SyscallDesc>, pos: nat)
    requires Sound(calls, descs) && pos < |calls| <= USIZE_MAX
    ensures Indexed(Removed(calls, pos), descs)
    ensures Repaired(Removed(calls, pos), descs) == Removed(calls, pos) <==> Unused(calls, descs, pos)
  {
    SoundIsBounded(calls, descs);
    RemovalNeedsNoRepair(calls, descs, pos);
    RepairFixesExactlyTheBroken(Removed(calls, pos), descs);
  }

  lemma SameRefsScope(calls: seq<Call>, calls': seq<Call>, descs: seq<SyscallDesc>, i: nat, kind: string, x: Ref)
    requires |calls'| == |calls| && Indexed(calls, descs) && Indexed(calls', descs) && i <= |calls|
    requires forall j :: 0 <= j < |calls| ==> SameRefs(calls[j], calls'[j])
    requires InScope(calls[..i], descs, kind, x)
    ensures InScope(calls'[..i], descs, kind, x)
  {
    ScopeOfPrefix(calls, descs, i, kind, x);
    forall j | x.call <= j < i ensures !Closes(calls'[j], descs, x) {
      assert SameRefs(calls[j], calls'[j]) && !Closes(calls[j], descs, x);
    }
    assert SameRefs(calls[x.call], calls'[x.call]);
    ScopeOfPrefix(calls', descs, i, kind, x);
  }

  lemma RetouchedCallInScope(calls: seq<Call>, calls': seq<Call>, descs: seq<SyscallDesc>, i: nat)
    requires Indexed(calls, descs) && Indexed(calls', descs) && Retouches(calls, calls') && i < |calls|
    requires CallInScope(calls[..i], calls[i], descs)
    ensures CallInScope(calls'[..i], calls'[i], descs)
  {
    assert SameRefs(calls[i], calls'[i]);
    forall a: nat | a < |calls'[i].args| && RefArg(calls'[i], descs, a)
      ensures InScope(calls'[..i], descs, descs[calls'[i].syscall].args[a].resource.kind, calls'[i].args[a].ref)
    {
      assert RefArg(calls[i], descs, a);
      SameRefsScope(calls, calls', descs, i, descs[calls[i].syscall].args[a].resource.kind, calls[i].args[a].ref);
    }
  }

  /** Changing values that are not references never leaves anything to repair. */
  lemma RetouchSurvivesRepair(calls: seq<Call>, calls': seq<Call>, descs: seq<SyscallDesc>)
    requires Indexed(calls, descs) && Indexed(calls', descs) && WellScoped(calls, descs) && Retouches(calls, calls')
    ensures Repaired(calls', descs) == calls'
  {
    forall i | 0 <= i < |calls| ensures CallInScope(calls'[..i], calls'[i], descs) {
      RetouchedCallInScope(calls, calls', descs, i);
    }
    RepairFixesExactlyTheBroken(calls', descs);
  }

  lemma ScopeAfterReplace(calls: seq<Call>, descs: seq<SyscallDesc>, pos: nat, call: Call, i: nat, kind: string, x: Ref)
    requires Indexed(calls, descs) && pos < i <= |calls| && call.syscall == calls[pos].syscall
    requires InScope(calls[..i], descs, kind, x)
    ensures Indexed(calls[pos := call], descs)
    ensures InScope(calls[pos := call][..i], descs, kind, x) <==> (x.call <= pos ==> !Closes(call, descs, x))
  {
    var changed := calls[pos := call];
    assert Indexed(changed, descs);
    ScopeOfPrefix(calls, descs, i, kind, x);
    ScopeOfPrefix(changed, descs, i, kind, x);
    assert Produces(changed, descs, kind, x);
    if OpenIn(changed, descs, x.call, i, x) && x.call <= pos {
      assert !Closes(changed[pos], descs, x);
    }
    if x.call <= pos ==> !Closes(call, descs, x) {
      forall j | x.call <= j < i ensures !Closes(changed[j], descs, x) {
        assert !Closes(calls[j], descs, x);
      }
    }
  }

  lemma CallAfterReplace(calls: seq<Call>, descs: seq<SyscallDesc>, pos: nat, call: Call, i: nat)
    requires Indexed(calls, descs) && pos < i < |calls| && call.syscall == calls[pos].syscall
    requires CallInScope(calls[..i], calls[i], descs)
    ensures Indexed(calls[pos := call], descs)
    ensures CallInScope(calls[pos := call][..i], calls[i], descs) <==> Spares(call, calls[i], descs, pos + 1)
  {
    forall a: nat | a < |calls[i].args| && RefArg(calls[i], descs, a)
      ensures var kind, x := descs[calls[i].syscall].args[a].resource.kind, calls[i].args[a].ref;
        InScope(calls[pos := call][..i], descs, kind, x) <==> (x.call <= pos ==> !Closes(call, descs, x))
    {
      var kind, x := descs[calls[i].syscall].args[a].resource.kind, calls[i].args[a].ref;
      ScopeAfterReplace(calls, descs, pos, call, i, kind, x);
    }
  }

  lemma CallBeforeReplace(calls: seq<Call>, descs: seq<SyscallDesc>, pos: nat, call: Call, i: nat)
    requires Indexed(calls, descs) && i <= pos < |calls| && call.syscall == calls[pos].syscall
    requires CallInScope(calls[..pos], call, descs) && CallInScope(calls[..i], calls[i], descs)
    ensures Indexed(calls[pos := call], descs)
    ensures CallInScope(calls[pos := call][..i], calls[pos := call][i], descs)
  {
    assert calls[pos := call][..i] == calls[..i];
  }

  lemma ReplacedIsScopedExactly(calls: seq<Call>, descs: seq<SyscallDesc>, pos: nat, call: Call)
    requires Indexed(calls, descs) && WellScoped(calls, descs) && pos < |calls| && call.syscall == calls[pos].syscall
    requires CallInScope(calls[..pos], call, descs)
    ensures Indexed(calls[pos := call], descs)
    ensures WellScoped(calls[pos := call], descs)
       <==> forall i :: pos < i < |calls| ==> Spares(call, calls[i], descs, pos + 1)
  {
    var changed := calls[pos := call];
    assert Indexed(changed, descs);
    forall i | pos < i < |calls|
      ensures CallInScope(changed[..i], changed[i], descs) <==> Spares(call, calls[i], descs, pos + 1)
    {
      CallAfterReplace(calls, descs, pos, call, i);
    }
    forall i | 0 <= i <= pos ensures CallInScope(changed[..i], changed[i], descs) {
      CallBeforeReplace(calls, descs, pos, call, i);
    }
  }

  /** Fresh arguments in scope leave nothing to repair exactly when they close nothing that is referred to later. */
  lemma ReplaceSurvivesRepair(calls: seq<Call>, descs: seq<SyscallDesc>, pos: nat, call: Call)
    requires Indexed(calls, descs) && WellScoped(calls, descs) && pos < |calls| && call.syscall == calls[pos].syscall
    requires CallInScope(calls[..pos], call, descs)
    ensures Indexed(calls[pos := call], descs)
    ensures Repaired(calls[pos := call], descs) == calls[pos := call]
      <==> forall i :: pos < i < |calls| ==> Spares(call, calls[i], descs, pos + 1)
  {
    ReplacedIsScopedExactly(calls, descs, pos, call);
    RepairFixesExactlyTheBroken(calls[pos := call], descs);
  }
}
