/**
 The table of live results by resource kind, and the three loops that compute it: generation
 consumes before it registers, the other two register before they consume.
 */
module ResourceTracking {
  import opened ProgramModel

  type Table = map<string, seq<Ref>>

  function Get(t: Table, kind: string): seq<Ref> {
    if kind in t then t[kind] else []
  }

  /** Kinds without live results are not in the table. */
  predicate NoEmpty(t: Table) {
    forall k :: k in t ==> t[k] != []
  }

  /** Push `ref` under every kind of the lineage. */
  function Registered(t: Table, lineage: seq<string>, ref: Ref): Table
    decreases |lineage|
  {
    if lineage == [] then t
    else Registered(t[lineage[0] := Get(t, lineage[0]) + [ref]], lineage[1..], ref)
  }

  function RegisteredOutputs(t: Table, outputs: seq<ResourceDesc>, call: nat, from: nat): Table
    decreases |outputs| - from
  {
    if from >= |outputs| then t
    else RegisteredOutputs(Registered(t, outputs[from].lineage, Ref(call, from)), outputs, call, from + 1)
  }

  function Without(s: seq<Ref>, ref: Ref): seq<Ref> {
    if s == [] then [] else if s[0] == ref then Without(s[1..], ref) else [s[0]] + Without(s[1..], ref)
  }

  function Invalidated(t: Table, ref: Ref): Table {
    map k | k in t && Without(t[k], ref) != [] :: Without(t[k], ref)
  }

  function InvalidatedAll(t: Table, args: seq<ArgValue>): Table {
    if args == [] then t
    else InvalidatedAll(if args[0].ResultRef? then Invalidated(t, args[0].ref) else t, args[1..])
  }

  function Consumed(t: Table, desc: SyscallDesc, args: seq<ArgValue>): Table {
    if desc.IsTerminal() then InvalidatedAll(t, args) else t
  }

  /** What is live after `calls`: register each call's results, then take out what it closes. */
  function TableAfter(calls: seq<Call>, descs: seq<SyscallDesc>): Table
    requires Indexed(calls, descs)
  {
    if calls == [] then map[]
    else
      var n := |calls| - 1;
      var desc := descs[calls[n].syscall];
      Consumed(RegisteredOutputs(TableAfter(calls[..n], descs), desc.outputs, n, 0), desc, calls[n].args)
  }

  /** The same, but taking out before registering, as generation does. */
  function GeneratedTable(calls: seq<Call>, descs: seq<SyscallDesc>): Table
    requires Indexed(calls, descs)
  {
    if calls == [] then map[]
    else
      var n := |calls| - 1;
      var desc := descs[calls[n].syscall];
      RegisteredOutputs(Consumed(GeneratedTable(calls[..n], descs), desc, calls[n].args), desc.outputs, n, 0)
  }

  // ---------------------------------------------------------------- what each update does to one list

  lemma SameTable(t: Table, u: Table)
    requires NoEmpty(t) && NoEmpty(u) && forall k :: Get(t, k) == Get(u, k)
    ensures t == u
  {
    forall k ensures k in t <==> k in u {
      assert Get(t, k) == Get(u, k);
    }
    forall k | k in t ensures t[k] == u[k] {
      assert Get(t, k) == Get(u, k);
    }
  }

  /** `ref` once for every time `kind` is in the lineage. */
  function Copies(lineage: seq<string>, kind: string, ref: Ref): seq<Ref> {
    if lineage == [] then []
    else (if lineage[0] == kind then [ref] else []) + Copies(lineage[1..], kind, ref)
  }

  lemma {:induction false} CopiesMembers(lineage: seq<string>, kind: string, ref: Ref)
    ensures forall x :: x in Copies(lineage, kind, ref) <==> x == ref && kind in lineage
  {
    if lineage != [] {
      CopiesMembers(lineage[1..], kind, ref);
    }
  }

  lemma {:induction false} RegisteredGet(t: Table, lineage: seq<string>, ref: Ref, kind: string)
    requires NoEmpty(t)
    ensures NoEmpty(Registered(t, lineage, ref))
    ensures Get(Registered(t, lineage, ref), kind) == Get(t, kind) + Copies(lineage, kind, ref)
    decreases |lineage|
  {
    if lineage != [] {
      RegisteredGet(t[lineage[0] := Get(t, lineage[0]) + [ref]], lineage[1..], ref, kind);
    }
  }

  /** The results of one call that are of kind `kind`, from the `from`th on. */
  function Results(outputs: seq<ResourceDesc>, call: nat, from: nat, kind: string): seq<Ref>
    decreases |outputs| - from
  {
    if from >= |outputs| then []
    else Copies(outputs[from].lineage, kind, Ref(call, from)) + Results(outputs, call, from + 1, kind)
  }

  lemma {:induction false} ResultsMembers(outputs: seq<ResourceDesc>, call: nat, from: nat, kind: string)
    ensures forall x ::
      x in Results(outputs, call, from, kind)
      <==> x.call == call && from <= x.result < |outputs| && kind in outputs[x.result].lineage
    decreases |outputs| - from
  {
    if from < |outputs| {
      CopiesMembers(outputs[from].lineage, kind, Ref(call, from));
      ResultsMembers(outputs, call, from + 1, kind);
    }
  }

  lemma {:induction false} RegisteredOutputsGet(
    t: Table, outputs: seq<ResourceDesc>, call: nat, from: nat, kind: string)
    requires NoEmpty(t)
    ensures NoEmpty(RegisteredOutputs(t, outputs, call, from))
    ensures Get(RegisteredOutputs(t, outputs, call, from), kind) == Get(t, kind) + Results(outputs, call, from, kind)
    decreases |outputs| - from
  {
    if from < |outputs| {
      RegisteredGet(t, outputs[from].lineage, Ref(call, from), kind);
      RegisteredOutputsGet(Registered(t, outputs[from].lineage, Ref(call, from)), outputs, call, from + 1, kind);
    }
  }

  /** The list without the references among `args`. */
  function WithoutAll(s: seq<Ref>, args: seq<ArgValue>): seq<Ref> {
    if s == [] then [] else (if ResultRef(s[0]) in args then [] else [s[0]]) + WithoutAll(s[1..], args)
  }

  lemma {:induction false} WithoutAllMembers(s: seq<Ref>, args: seq<ArgValue>)
    ensures forall x :: x in WithoutAll(s, args) <==> x in s && ResultRef(x) !in args
  {
    if s != [] {
      WithoutAllMembers(s[1..], args);
    }
  }

  lemma {:induction false} WithoutAllConcat(s: seq<Ref>, u: seq<Ref>, args: seq<ArgValue>)
    ensures WithoutAll(s + u, args) == WithoutAll(s, args) + WithoutAll(u, args)
  {
    if s == [] {
      assert s + u == u;
    } else {
      assert (s + u)[1..] == s[1..] + u;
      WithoutAllConcat(s[1..], u, args);
    }
  }

  lemma {:induction false} WithoutAllUntouched(s: seq<Ref>, args: seq<ArgValue>)
    requires forall x :: x in s ==> ResultRef(x) !in args
    ensures WithoutAll(s, args) == s
  {
    if s != [] {
      WithoutAllUntouched(s[1..], args);
    }
  }

  lemma {:induction false} WithoutStep(s: seq<Ref>, arg: ArgValue, args: seq<ArgValue>)
    ensures WithoutAll(if arg.ResultRef? then Without(s, arg.ref) else s, args) == WithoutAll(s, [arg] + args)
  {
    if s != [] {
      WithoutStep(s[1..], arg, args);
      assert ResultRef(s[0]) in [arg] + args <==> ResultRef(s[0]) == arg || ResultRef(s[0]) in args;
    }
  }

  lemma InvalidatedGet(t: Table, ref: Ref, kind: string)
    ensures NoEmpty(Invalidated(t, ref))
    ensures Get(Invalidated(t, ref), kind) == Without(Get(t, kind), ref)
  {
  }

  lemma {:induction false} InvalidatedAllGet(t: Table, args: seq<ArgValue>, kind: string)
    requires NoEmpty(t)
    ensures NoEmpty(InvalidatedAll(t, args))
    ensures Get(InvalidatedAll(t, args), kind) == WithoutAll(Get(t, kind), args)
  {
    if args == [] {
      WithoutAllUntouched(Get(t, kind), args);
    } else {
      assert args == [args[0]] + args[1..];
      WithoutStep(Get(t, kind), args[0], args[1..]);
      if args[0].ResultRef? {
        InvalidatedGet(t, args[0].ref, kind);
      }
      InvalidatedAllGet(if args[0].ResultRef? then Invalidated(t, args[0].ref) else t, args[1..], kind);
    }
  }

  lemma ConsumedGet(t: Table, desc: SyscallDesc, args: seq<ArgValue>, kind: string)
    requires NoEmpty(t)
    ensures NoEmpty(Consumed(t, desc, args))
    ensures Get(Consumed(t, desc, args), kind)
         == if desc.IsTerminal() then WithoutAll(Get(t, kind), args) else Get(t, kind)
  {
    InvalidatedAllGet(t, args, kind);
  }

  // ---------------------------------------------------------------- what the table means

  /** A result is listed under a kind exactly when it is in scope: produced, of that kind, and not closed since. */
  lemma {:induction false} TableListsScope(calls: seq<Call>, descs: seq<SyscallDesc>, kind: string)
    requires Indexed(calls, descs)
    ensures NoEmpty(TableAfter(calls, descs))
    ensures forall x :: x in Get(TableAfter(calls, descs), kind) <==> InScope(calls, descs, kind, x)
  {
    if calls != [] {
      var n := |calls| - 1;
      var before, desc, args := calls[..n], descs[calls[n].syscall], calls[n].args;
      TableListsScope(before, descs, kind);
      var t := TableAfter(before, descs);
      RegisteredOutputsGet(t, desc.outputs, n, 0, kind);
      ConsumedGet(RegisteredOutputs(t, desc.outputs, n, 0), desc, args, kind);
      ResultsMembers(desc.outputs, n, 0, kind);
      WithoutAllMembers(Get(t, kind) + Results(desc.outputs, n, 0, kind), args);
      forall x ensures x in Get(TableAfter(calls, descs), kind) <==> InScope(calls, descs, kind, x) {
        ScopeAfterOneMore(calls, descs, kind, x);
      }
    }
  }

  lemma ScopeAfterOneMore(calls: seq<Call>, descs: seq<SyscallDesc>, kind: string, x: Ref)
    requires Indexed(calls, descs) && calls != []
    ensures var n := |calls| - 1;
      InScope(calls, descs, kind, x) <==>
        && !Closes(calls[n], descs, x)
        && (InScope(calls[..n], descs, kind, x)
            || (x.call == n && x.result < |descs[calls[n].syscall].outputs|
                && kind in descs[calls[n].syscall].outputs[x.result].lineage))
  {
    var n := |calls| - 1;
    ScopeOfPrefix(calls, descs, n, kind, x);
  }

  // ---------------------------------------------------------------- the table is in order

  /** `x` was produced before `y`, or by the same call and not after it, or is the same. */
  predicate NotLater(x: Ref, y: Ref) {
    x.call < y.call || (x.call == y.call && x.result <= y.result)
  }

  predicate Chronological(s: seq<Ref>) {
    forall i, j :: 0 <= i < j < |s| ==> NotLater(s[i], s[j])
  }

  lemma ChronologicalConcat(a: seq<Ref>, b: seq<Ref>)
    requires Chronological(a) && Chronological(b) && forall x, y :: x in a && y in b ==> NotLater(x, y)
    ensures Chronological(a + b)
  {
    var c := a + b;
    forall i, j | 0 <= i < j < |c| ensures NotLater(c[i], c[j]) {
      if i < |a| && j >= |a| {
        assert a[i] in a && b[j - |a|] in b;
      }
    }
  }

  lemma {:induction false} CopiesInOrder(lineage: seq<string>, kind: string, ref: Ref)
    ensures Chronological(Copies(lineage, kind, ref))
  {
    CopiesMembers(lineage, kind, ref);
    var s := Copies(lineage, kind, ref);
    forall i, j | 0 <= i < j < |s| ensures NotLater(s[i], s[j]) {
      assert s[i] in s && s[j] in s;
    }
  }

  lemma {:induction false} ResultsInOrder(outputs: seq<ResourceDesc>, call: nat, from: nat, kind: string)
    ensures Chronological(Results(outputs, call, from, kind))
    decreases |outputs| - from
  {
    if from < |outputs| {
      ResultsInOrder(outputs, call, from + 1, kind);
      ResultsMembers(outputs, call, from + 1, kind);
      CopiesInOrder(outputs[from].lineage, kind, Ref(call, from));
      CopiesMembers(outputs[from].lineage, kind, Ref(call, from));
      ChronologicalConcat(Copies(outputs[from].lineage, kind, Ref(call, from)), Results(outputs, call, from + 1, kind));
    }
  }

  lemma {:induction false} WithoutAllInOrder(s: seq<Ref>, args: seq<ArgValue>)
    requires Chronological(s)
    ensures Chronological(WithoutAll(s, args))
  {
    if s != [] {
      WithoutAllInOrder(s[1..], args);
      WithoutAllMembers(s[1..], args);
      var rest := WithoutAll(s[1..], args);
      forall x, y | x in [s[0]] && y in rest ensures NotLater(x, y) {
        assert y in s[1..];
      }
      ChronologicalConcat([s[0]], rest);
      assert [] + rest == rest;
    }
  }

  /** Every list of the table is in the order in which its results were produced. */
  lemma {:induction false} TableIsChronological(calls: seq<Call>, descs: seq<SyscallDesc>, kind: string)
    requires Indexed(calls, descs)
    ensures Chronological(Get(TableAfter(calls, descs), kind))
  {
    if calls != [] {
      var n := |calls| - 1;
      var before, desc, args := calls[..n], descs[calls[n].syscall], calls[n].args;
      var t := TableAfter(before, descs);
      TableIsChronological(before, descs, kind);
      TableListsScope(before, descs, kind);
      RegisteredOutputsGet(t, desc.outputs, n, 0, kind);
      ConsumedGet(RegisteredOutputs(t, desc.outputs, n, 0), desc, args, kind);
      ResultsInOrder(desc.outputs, n, 0, kind);
      ResultsMembers(desc.outputs, n, 0, kind);
      ChronologicalConcat(Get(t, kind), Results(desc.outputs, n, 0, kind));
      WithoutAllInOrder(Get(t, kind) + Results(desc.outputs, n, 0, kind), args);
    }
  }

  // ---------------------------------------------------------------- the loops agree

  /** The call closes one of its own results. */
  ghost predicate ClosesOwn(call: Call, index: nat, descs: seq<SyscallDesc>)
    requires call.syscall < |descs|
  {
    exists x: Ref :: ResultRef(x) in call.args && OwnResult(call, index, descs, x) && descs[call.syscall].IsTerminal()
  }

  predicate OwnResult(call: Call, index: nat, descs: seq<SyscallDesc>, x: Ref)
    requires call.syscall < |descs|
  {
    x.call == index && x.result < |descs[call.syscall].outputs| && descs[call.syscall].outputs[x.result].lineage != []
  }

  /** Registering and consuming commute exactly when the call does not close one of its own results. */
  lemma OrderMattersOnlyForOwnResults(t: Table, call: Call, index: nat, descs: seq<SyscallDesc>)
    requires NoEmpty(t) && call.syscall < |descs|
    ensures var desc := descs[call.syscall];
      Consumed(RegisteredOutputs(t, desc.outputs, index, 0), desc, call.args)
      == RegisteredOutputs(Consumed(t, desc, call.args), desc.outputs, index, 0)
      <==> !ClosesOwn(call, index, descs)
  {
    var desc := descs[call.syscall];
    var late, early := Consumed(RegisteredOutputs(t, desc.outputs, index, 0), desc, call.args),
                       RegisteredOutputs(Consumed(t, desc, call.args), desc.outputs, index, 0);
    forall kind ensures
      && NoEmpty(late) && NoEmpty(early)
      && Get(early, kind) == Get(Consumed(t, desc, call.args), kind) + Results(desc.outputs, index, 0, kind)
      && (desc.IsTerminal() ==>
            Get(late, kind)
            == WithoutAll(Get(t, kind), call.args) + WithoutAll(Results(desc.outputs, index, 0, kind), call.args))
      && (desc.IsTerminal() ==> Get(Consumed(t, desc, call.args), kind) == WithoutAll(Get(t, kind), call.args))
      && (!desc.IsTerminal() ==> Get(late, kind) == Get(early, kind))
    {
      RegisteredOutputsGet(t, desc.outputs, index, 0, kind);
      ConsumedGet(RegisteredOutputs(t, desc.outputs, index, 0), desc, call.args, kind);
      ConsumedGet(t, desc, call.args, kind);
      RegisteredOutputsGet(Consumed(t, desc, call.args), desc.outputs, index, 0, kind);
      WithoutAllConcat(Get(t, kind), Results(desc.outputs, index, 0, kind), call.args);
    }
    if ClosesOwn(call, index, descs) {
      var x: Ref :| ResultRef(x) in call.args && OwnResult(call, index, descs, x);
      var kind := desc.outputs[x.result].lineage[0];
      ResultsMembers(desc.outputs, index, 0, kind);
      WithoutAllMembers(Get(t, kind), call.args);
      WithoutAllMembers(Results(desc.outputs, index, 0, kind), call.args);
      assert x in Get(early, kind) && x !in Get(late, kind);
    } else {
      forall kind ensures Get(late, kind) == Get(early, kind) {
        ResultsMembers(desc.outputs, index, 0, kind);
        if desc.IsTerminal() {
          forall x | x in Results(desc.outputs, index, 0, kind) ensures ResultRef(x) !in call.args {
            assert OwnResult(call, index, descs, x);
          }
          WithoutAllUntouched(Results(desc.outputs, index, 0, kind), call.args);
        }
      }
      assert Get(late, "") == Get(early, "");
      SameTable(late, early);
    }
  }

  ghost predicate NeverClosesOwn(calls: seq<Call>, descs: seq<SyscallDesc>)
    requires Indexed(calls, descs)
  {
    forall i :: 0 <= i < |calls| ==> !ClosesOwn(calls[i], i, descs)
  }

  /** For such programs the table carried along by generation is the one the other loops recompute, at every call. */
  lemma {:induction false} LoopsAgree(calls: seq<Call>, descs: seq<SyscallDesc>)
    requires Indexed(calls, descs) && NeverClosesOwn(calls, descs)
    ensures GeneratedTable(calls, descs) == TableAfter(calls, descs)
  {
    if calls != [] {
      var n := |calls| - 1;
      assert forall i :: 0 <= i < n ==> calls[..n][i] == calls[i];
      LoopsAgree(calls[..n], descs);
      TableListsScope(calls[..n], descs, "");
      OrderMattersOnlyForOwnResults(TableAfter(calls[..n], descs), calls[n], n, descs);
    }
  }

  ghost predicate AgreeUpTo(calls: seq<Call>, descs: seq<SyscallDesc>, n: nat)
    requires Indexed(calls, descs) && n <= |calls|
  {
    GeneratedTable(calls[..n], descs) == TableAfter(calls[..n], descs)
  }

  lemma AgreementGoesOn(calls: seq<Call>, descs: seq<SyscallDesc>, n: nat)
    requires Indexed(calls, descs) && n < |calls| && AgreeUpTo(calls, descs, n)
    ensures AgreeUpTo(calls, descs, n + 1) <==> !ClosesOwn(calls[n], n, descs)
  {
    var longer := calls[..n + 1];
    assert longer[..n] == calls[..n] && longer[n] == calls[n];
    TableListsScope(calls[..n], descs, "");
    OrderMattersOnlyForOwnResults(TableAfter(calls[..n], descs), calls[n], n, descs);
  }

  /** The two tables agree at every call exactly when no call closes a result of its own. */
  lemma LoopsAgreeExactly(calls: seq<Call>, descs: seq<SyscallDesc>)
    requires Indexed(calls, descs)
    ensures (forall n: nat :: n <= |calls| ==> AgreeUpTo(calls, descs, n)) <==> NeverClosesOwn(calls, descs)
  {
    if NeverClosesOwn(calls, descs) {
      forall n: nat | n <= |calls| ensures AgreeUpTo(calls, descs, n) {
        assert forall i :: 0 <= i < n ==> calls[..n][i] == calls[i];
        LoopsAgree(calls[..n], descs);
      }
    } else {
      var i: nat :| i < |calls| && ClosesOwn(calls[i], i, descs);
      if AgreeUpTo(calls, descs, i) {
        AgreementGoesOn(calls, descs, i);
      }
    }
  }

  /** In a sound program no call closes its own results, since its references all name earlier calls. */
  lemma SoundNeverClosesOwn(calls: seq<Call>, descs: seq<SyscallDesc>)
    requires Sound(calls, descs)
    ensures NeverClosesOwn(calls, descs)
  {
  }
}
