/** Repairing references after an edit: each dangling one is pointed at the latest live result of its kind. */
module RefRepair {
  import opened ProgramModel
  import opened ResourceTracking

  function FixArg(argType: ArgType, value: ArgValue, t: Table): ArgValue {
    if argType.TakesResource() && value.ResultRef? then
      var available := Get(t, argType.resource.kind);
      if value.ref in available then value
      else if available != [] then ResultRef(available[|available| - 1])
      else Const(argType.resource.Default())
    else value
  }

  function FixArgs(types: seq<ArgType>, args: seq<ArgValue>, t: Table): (r: seq<ArgValue>)
    ensures |r| == |args|
    ensures forall a :: 0 <= a < |args| ==> r[a] == if a < |types| then FixArg(types[a], args[a], t) else args[a]
  {
    seq(|args|, a requires 0 <= a < |args| => if a < |types| then FixArg(types[a], args[a], t) else args[a])
  }

  function FixCall(call: Call, descs: seq<SyscallDesc>, t: Table): (r: Call)
    requires call.syscall < |descs|
    ensures r.syscall == call.syscall && |r.args| == |call.args|
  {
    call.(args := FixArgs(descs[call.syscall].args, call.args, t))
  }

  function Repaired(calls: seq<Call>, descs: seq<SyscallDesc>): (r: seq<Call>)
    requires Indexed(calls, descs)
    ensures |r| == |calls| && Indexed(r, descs)
  {
    if calls == [] then []
    else
      var n := |calls| - 1;
      var done := Repaired(calls[..n], descs);
      done + [FixCall(calls[n], descs, TableAfter(done, descs))]
  }

  lemma {:induction false} RepairKeepsCalls(calls: seq<Call>, descs: seq<SyscallDesc>)
    requires Indexed(calls, descs)
    ensures forall i :: 0 <= i < |calls| ==>
      Repaired(calls, descs)[i].syscall == calls[i].syscall && |Repaired(calls, descs)[i].args| == |calls[i].args|
  {
    if calls != [] {
      RepairKeepsCalls(calls[..|calls| - 1], descs);
    }
  }

  lemma WellScopedStep(calls: seq<Call>, call: Call, descs: seq<SyscallDesc>)
    requires Indexed(calls, descs) && call.syscall < |descs|
    ensures Indexed(calls + [call], descs)
    ensures WellScoped(calls + [call], descs) <==> WellScoped(calls, descs) && CallInScope(calls, call, descs)
  {
    var longer := calls + [call];
    assert forall i :: 0 <= i < |calls| ==> longer[..i] == calls[..i];
    assert longer[..|calls|] == calls;
    if WellScoped(longer, descs) {
      assert CallInScope(longer[..|calls|], longer[|calls|], descs);
      forall i | 0 <= i < |calls| ensures CallInScope(calls[..i], calls[i], descs) {
        assert CallInScope(longer[..i], longer[i], descs);
      }
    }
  }

  /** The first special value, or 0 if there is none. */
  function FirstOrZero(values: seq<nat>): nat {
    if values == [] then 0 else values[0]
  }

  lemma FixedArgInScope(calls: seq<Call>, descs: seq<SyscallDesc>, argType: ArgType, value: ArgValue)
    requires Indexed(calls, descs) && argType.TakesResource()
    ensures var fixed := FixArg(argType, value, TableAfter(calls, descs));
      && (fixed.ResultRef? ==> value.ResultRef? && InScope(calls, descs, argType.resource.kind, fixed.ref))
      && (fixed == value <==> (value.ResultRef? ==> InScope(calls, descs, argType.resource.kind, value.ref)))
      && (fixed.ResultRef? || !value.ResultRef?
          || (fixed == Const(FirstOrZero(argType.resource.values))
              && forall x :: !InScope(calls, descs, argType.resource.kind, x)))
  {
    TableListsScope(calls, descs, argType.resource.kind);
    var available := Get(TableAfter(calls, descs), argType.resource.kind);
    if available != [] {
      assert available[|available| - 1] in available;
    }
  }

  lemma FixedCallInScope(calls: seq<Call>, call: Call, descs: seq<SyscallDesc>)
    requires Indexed(calls, descs) && call.syscall < |descs|
    ensures var fixed := FixCall(call, descs, TableAfter(calls, descs));
      CallInScope(calls, fixed, descs) && (fixed == call <==> CallInScope(calls, call, descs))
  {
    var t := TableAfter(calls, descs);
    var types, fixed := descs[call.syscall].args, FixCall(call, descs, t);
    forall a: nat | a < |call.args|
      ensures RefArg(fixed, descs, a) ==> InScope(calls, descs, types[a].resource.kind, fixed.args[a].ref)
      ensures fixed.args[a] == call.args[a]
        <==> (RefArg(call, descs, a) ==> InScope(calls, descs, types[a].resource.kind, call.args[a].ref))
    {
      if a < |types| && types[a].TakesResource() {
        FixedArgInScope(calls, descs, types[a], call.args[a]);
      }
    }
    if fixed.args == call.args {
      assert CallInScope(calls, call, descs);
    } else {
      var a: nat :| a < |call.args| && fixed.args[a] != call.args[a];
      assert RefArg(call, descs, a);
    }
  }

  /** Whatever the program, afterwards every reference in a resource argument is in scope. */
  lemma {:induction false} RepairScopes(calls: seq<Call>, descs: seq<SyscallDesc>)
    requires Indexed(calls, descs)
    ensures WellScoped(Repaired(calls, descs), descs)
  {
    if calls != [] {
      var n := |calls| - 1;
      var done := Repaired(calls[..n], descs);
      RepairScopes(calls[..n], descs);
      FixedCallInScope(done, calls[n], descs);
      WellScopedStep(done, FixCall(calls[n], descs, TableAfter(done, descs)), descs);
    }
  }

  /** Repair changes nothing exactly when there is nothing to repair. */
  lemma {:induction false} RepairFixesExactlyTheBroken(calls: seq<Call>, descs: seq<SyscallDesc>)
    requires Indexed(calls, descs)
    ensures Repaired(calls, descs) == calls <==> WellScoped(calls, descs)
  {
    if calls != [] {
      var n := |calls| - 1;
      var before, done := calls[..n], Repaired(calls[..n], descs);
      assert calls == before + [calls[n]];
      RepairFixesExactlyTheBroken(before, descs);
      WellScopedStep(before, calls[n], descs);
      FixedCallInScope(before, calls[n], descs);
      if Repaired(calls, descs) == calls {
        assert done == Repaired(calls, descs)[..n] == before;
        assert Repaired(calls, descs)[n] == calls[n];
      }
    }
  }

  /** A well-scoped beginning is left alone whatever follows it. */
  lemma {:induction false} RepairKeepsScopedPrefix(calls: seq<Call>, descs: seq<SyscallDesc>, n: nat)
    requires Indexed(calls, descs) && n <= |calls| && WellScoped(calls[..n], descs)
    ensures Repaired(calls, descs)[..n] == calls[..n]
  {
    if n == |calls| {
      assert calls[..n] == calls;
      RepairFixesExactlyTheBroken(calls, descs);
    } else {
      var front := calls[..|calls| - 1];
      assert front[..n] == calls[..n];
      RepairKeepsScopedPrefix(front, descs, n);
      assert Repaired(calls, descs)[..n] == Repaired(front, descs)[..n];
    }
  }

  lemma RepairIsIdempotent(calls: seq<Call>, descs: seq<SyscallDesc>)
    requires Indexed(calls, descs)
    ensures Repaired(Repaired(calls, descs), descs) == Repaired(calls, descs)
  {
    RepairScopes(calls, descs);
    RepairFixesExactlyTheBroken(Repaired(calls, descs), descs);
  }

  /** In scope, and produced no earlier than anything else of the kind that is in scope. */
  ghost predicate IsLatest(calls: seq<Call>, descs: seq<SyscallDesc>, kind: string, ref: Ref)
    requires Indexed(calls, descs)
  {
    InScope(calls, descs, kind, ref) && forall x :: InScope(calls, descs, kind, x) ==> NotLater(x, ref)
  }

  lemma FixedArgIsLatest(calls: seq<Call>, descs: seq<SyscallDesc>, argType: ArgType, value: ArgValue)
    requires Indexed(calls, descs) && argType.TakesResource()
    ensures var fixed := FixArg(argType, value, TableAfter(calls, descs));
      fixed != value && fixed.ResultRef? ==> IsLatest(calls, descs, argType.resource.kind, fixed.ref)
  {
    var kind := argType.resource.kind;
    TableListsScope(calls, descs, kind);
    TableIsChronological(calls, descs, kind);
    var available := Get(TableAfter(calls, descs), kind);
    if available != [] {
      var last := available[|available| - 1];
      assert last in available;
      forall x | x in available ensures NotLater(x, last) {
        var i :| 0 <= i < |available| && available[i] == x;
      }
    }
  }

  /**
   Repair touches only references in resource arguments; one that is in scope after the repaired earlier
   calls is kept, any other is pointed at the latest result in scope, and the first special value, or 0, replaces
   one only when no result of its kind is left.
   */
  lemma {:induction false} RepairIsMinimal(calls: seq<Call>, descs: seq<SyscallDesc>, i: nat, a: nat)
    requires Indexed(calls, descs) && i < |calls| && a < |calls[i].args|
    ensures |Repaired(calls, descs)[i].args| == |calls[i].args|
    ensures var r := Repaired(calls, descs);
      var before, v, v' := r[..i], calls[i].args[a], r[i].args[a];
      if !RefArg(calls[i], descs, a) then v' == v
      else
        var kind := descs[calls[i].syscall].args[a].resource.kind;
        && (v' == v <==> InScope(before, descs, kind, v.ref))
        && (v' != v && v'.ResultRef? ==> IsLatest(before, descs, kind, v'.ref))
        && (!v'.ResultRef? ==> v' == Const(FirstOrZero(descs[calls[i].syscall].args[a].resource.values))
                               && forall x :: !InScope(before, descs, kind, x))
  {
    var n := |calls| - 1;
    var r, done := Repaired(calls, descs), Repaired(calls[..n], descs);
    if i < n {
      RepairIsMinimal(calls[..n], descs, i, a);
      assert r[..i] == done[..i] && r[i] == done[i];
    } else {
      assert r[..i] == done;
      if RefArg(calls[i], descs, a) {
        FixedArgInScope(done, descs, descs[calls[i].syscall].args[a], calls[i].args[a]);
        FixedArgIsLatest(done, descs, descs[calls[i].syscall].args[a], calls[i].args[a]);
      }
    }
  }

  lemma {:induction false} RepairKeepsTypes(calls: seq<Call>, descs: seq<SyscallDesc>)
    requires Indexed(calls, descs) && AllTyped(calls, descs)
    ensures AllTyped(Repaired(calls, descs), descs)
  {
    if calls != [] {
      assert Typed(calls[|calls| - 1], descs);
      RepairKeepsTypes(calls[..|calls| - 1], descs);
    }
  }

  // ---------------------------------------------------------------- agreement with validation

  /** A kind in a lineage stands for a resource whose own lineage leads up to it, as when all come from one table. */
  predicate LineagesCohere(descs: seq<SyscallDesc>) {
    forall d, e, a, o ::
      0 <= d < |descs| && 0 <= e < |descs| && 0 <= a < |descs[d].args| && 0 <= o < |descs[e].outputs|
      && descs[d].args[a].TakesResource() && descs[d].args[a].resource.kind in descs[e].outputs[o].lineage
      ==> descs[d].args[a].resource.Accepts(descs[e].outputs[o])
  }

  /**
   The validator's own check of a reference: it names an existing result of an earlier call that the argument
   accepts.
   */
  predicate Valid(calls: seq<Call>, descs: seq<SyscallDesc>, i: nat, resource: ResourceDesc, ref: Ref)
    requires Indexed(calls, descs) && i < |calls|
  {
    && ref.call < i
    && ref.result < |descs[calls[ref.call].syscall].outputs|
    && resource.Accepts(descs[calls[ref.call].syscall].outputs[ref.result])
  }

  lemma ScopedIsValid(calls: seq<Call>, descs: seq<SyscallDesc>, i: nat, a: nat)
    requires Indexed(calls, descs) && WellScoped(calls, descs) && LineagesCohere(descs)
    requires i < |calls| && RefArg(calls[i], descs, a)
    ensures Valid(calls, descs, i, descs[calls[i].syscall].args[a].resource, calls[i].args[a].ref)
  {
  }
}
