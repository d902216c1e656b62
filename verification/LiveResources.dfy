/** The table of live results as an object that generation and repair update in place. */
module LiveResources {
  import opened ProgramModel
  import opened ResourceTracking

  class AvailableResources {
    var table: Table

    constructor ()
      ensures table == map[]
    {
      table := map[];
    }

    method Register(lineage: seq<string>, ref: Ref)
      modifies this
      ensures table == Registered(old(table), lineage, ref)
    {
      var i := 0;
      while i < |lineage|
        invariant i <= |lineage|
        invariant Registered(table, lineage[i..], ref) == Registered(old(table), lineage, ref)
      {
        table := table[lineage[i] := Get(table, lineage[i]) + [ref]];
        assert lineage[i..][1..] == lineage[i + 1..];
        i := i + 1;
      }
    }

    method RegisterOutputs(outputs: seq<ResourceDesc>, call: nat)
      modifies this
      ensures table == RegisteredOutputs(old(table), outputs, call, 0)
    {
      var r := 0;
      while r < |outputs|
        invariant r <= |outputs|
        invariant RegisteredOutputs(table, outputs, call, r) == RegisteredOutputs(old(table), outputs, call, 0)
      {
        Register(outputs[r].lineage, Ref(call, r));
        r := r + 1;
      }
    }

    /** Drops the reference everywhere, in whatever order the kinds are visited. */
    method Invalidate(ref: Ref)
      modifies this
      ensures table == Invalidated(old(table), ref)
    {
      var todo := table.Keys;
      while todo != {}
        invariant todo <= old(table).Keys && table.Keys <= old(table).Keys
        invariant forall k :: k in old(table) && k in todo ==> k in table && table[k] == old(table)[k]
        invariant forall k :: k in old(table) && k !in todo ==>
          if Without(old(table)[k], ref) == [] then k !in table
          else k in table && table[k] == Without(old(table)[k], ref)
        decreases todo
      {
        var k :| k in todo;
        var kept := Without(table[k], ref);
        table := if kept == [] then table - {k} else table[k := kept];
        todo := todo - {k};
      }
    }

    method Consume(desc: SyscallDesc, args: seq<ArgValue>)
      modifies this
      ensures table == Consumed(old(table), desc, args)
    {
      if !desc.IsTerminal() {
        return;
      }
      var a := 0;
      while a < |args|
        invariant a <= |args|
        invariant InvalidatedAll(table, args[a..]) == InvalidatedAll(old(table), args)
      {
        if args[a].ResultRef? {
          Invalidate(args[a].ref);
        }
        assert args[a..][1..] == args[a + 1..];
        a := a + 1;
      }
    }
  }

  /** The recomputation that mutation uses: register, then consume, for each call before `upto`. */
  method AvailableBefore(calls: seq<Call>, descs: seq<SyscallDesc>, upto: nat) returns (table: Table)
    requires upto <= |calls| && Indexed(calls, descs)
    ensures table == TableAfter(calls[..upto], descs)
  {
    var live := new AvailableResources();
    var i := 0;
    while i < upto
      invariant i <= upto
      invariant live.table == TableAfter(calls[..i], descs)
      modifies live
    {
      var desc := descs[calls[i].syscall];
      live.RegisterOutputs(desc.outputs, i);
      live.Consume(desc, calls[i].args);
      assert calls[..i + 1][..i] == calls[..i];
      i := i + 1;
    }
    table := live.table;
  }
}
