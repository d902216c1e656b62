/** Programs as sequences of calls whose arguments may name results of other calls. */
module ProgramModel {
  const MAX_CALLS := 10
  const MIN_CALLS := 1

  datatype ResourceDesc = ResourceDesc(kind: string, size: nat, values: seq<nat>, lineage: seq<string>) {
    function Default(): nat {
      if values == [] then 0 else values[0]
    }

    predicate Accepts(actual: ResourceDesc) {
      lineage <= actual.lineage
    }
  }

  /** Top-level argument types, as far as references are concerned; `Other` covers every remaining type. */
  datatype ArgType = Resource(resource: ResourceDesc) | OptionalResource(resource: ResourceDesc) | Other {
    predicate TakesResource() { Resource? || OptionalResource? }
  }

  datatype Ref = Ref(call: nat, result: nat)

  /** `Data` stands for every value that is neither a constant nor a reference. */
  datatype ArgValue = Const(value: nat) | ResultRef(ref: Ref) | Data(bytes: seq<int>)

  /** `outputs` are the resources a call yields, in order; `inputs` those it needs. */
  datatype SyscallDesc = SyscallDesc(
    name: string, args: seq<ArgType>, inputs: seq<ResourceDesc>, outputs: seq<ResourceDesc>)
  {
    predicate IsTerminal() { name == "close" }
  }

  datatype Call = Call(syscall: nat, args: seq<ArgValue>)

  predicate Indexed(calls: seq<Call>, descs: seq<SyscallDesc>) {
    forall i :: 0 <= i < |calls| ==> calls[i].syscall < |descs|
  }

  /** The call is a `close` that was handed `ref`. */
  predicate Closes(call: Call, descs: seq<SyscallDesc>, ref: Ref)
    requires call.syscall < |descs|
  {
    descs[call.syscall].name == "close" && ResultRef(ref) in call.args
  }

  /** Some call yields `ref` as a result of kind `kind`. */
  predicate Produces(calls: seq<Call>, descs: seq<SyscallDesc>, kind: string, ref: Ref)
    requires Indexed(calls, descs)
  {
    && ref.call < |calls|
    && ref.result < |descs[calls[ref.call].syscall].outputs|
    && kind in descs[calls[ref.call].syscall].outputs[ref.result].lineage
  }

  /** None of the calls from `from` up to `to` closes `ref`. */
  predicate OpenIn(calls: seq<Call>, descs: seq<SyscallDesc>, from: nat, to: nat, ref: Ref)
    requires Indexed(calls, descs) && to <= |calls|
  {
    forall j :: from <= j < to ==> !Closes(calls[j], descs, ref)
  }

  /** After `calls`, `ref` names a result of kind `kind` that no call since its producer has closed. */
  predicate InScope(calls: seq<Call>, descs: seq<SyscallDesc>, kind: string, ref: Ref)
    requires Indexed(calls, descs)
  {
    Produces(calls, descs, kind, ref) && OpenIn(calls, descs, ref.call, |calls|, ref)
  }

  lemma ScopeOfPrefix(calls: seq<Call>, descs: seq<SyscallDesc>, i: nat, kind: string, x: Ref)
    requires Indexed(calls, descs) && i <= |calls|
    ensures InScope(calls[..i], descs, kind, x)
      <==> x.call < i && Produces(calls, descs, kind, x) && OpenIn(calls, descs, x.call, i, x)
  {
  }

  /** The argument at `a` is a reference in a place that takes a resource. */
  predicate RefArg(call: Call, descs: seq<SyscallDesc>, a: nat)
    requires call.syscall < |descs|
  {
    && a < |call.args| && a < |descs[call.syscall].args|
    && descs[call.syscall].args[a].TakesResource() && call.args[a].ResultRef?
  }

  predicate CallInScope(calls: seq<Call>, call: Call, descs: seq<SyscallDesc>)
    requires Indexed(calls, descs) && call.syscall < |descs|
  {
    forall a: nat :: a < |call.args| && RefArg(call, descs, a)
      ==> InScope(calls, descs, descs[call.syscall].args[a].resource.kind, call.args[a].ref)
  }

  predicate WellScoped(calls: seq<Call>, descs: seq<SyscallDesc>)
    requires Indexed(calls, descs)
  {
    forall i :: 0 <= i < |calls| ==> CallInScope(calls[..i], calls[i], descs)
  }

  /** Every call has the arguments its description asks for, and references only where a resource is taken. */
  predicate Typed(call: Call, descs: seq<SyscallDesc>) {
    && call.syscall < |descs|
    && |call.args| == |descs[call.syscall].args|
    && forall a :: 0 <= a < |call.args| && call.args[a].ResultRef? ==> descs[call.syscall].args[a].TakesResource()
  }

  predicate AllTyped(calls: seq<Call>, descs: seq<SyscallDesc>) {
    forall i :: 0 <= i < |calls| ==> Typed(calls[i], descs)
  }

  /** What generation promises and mutation keeps. */
  predicate Sound(calls: seq<Call>, descs: seq<SyscallDesc>) {
    AllTyped(calls, descs) && Indexed(calls, descs) && WellScoped(calls, descs)
  }
}
