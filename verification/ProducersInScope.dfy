/** The search for producers over programs: what it returns, told from what is in scope after the calls so far. */
module ProducersInScope {
  import opened ProgramModel
  import opened ResourceTracking
  import opened ProducerSearch

  /** The search as it is started after `calls`. */
  function SearchAfter(calls: seq<Call>, descs: seq<SyscallDesc>, enabled: set<nat>): Problem
    requires Indexed(calls, descs)
  {
    Problem(descs, enabled, TableAfter(calls, descs))
  }

  ghost predicate SomeInScope(calls: seq<Call>, descs: seq<SyscallDesc>, r: ResourceDesc)
    requires Indexed(calls, descs)
  {
    exists x :: InScope(calls, descs, r.kind, x)
  }

  /** Calls of `s` are enabled and yield a result whose lineage leads through that of `r`. */
  predicate CanMake(descs: seq<SyscallDesc>, enabled: set<nat>, s: nat, r: ResourceDesc) {
    s in enabled && s < |descs|
    && exists o :: 0 <= o < |descs[s].outputs| && r.lineage <= descs[s].outputs[o].lineage
  }

  /** Everything a call of `s` needs is in scope. */
  ghost predicate Runnable(calls: seq<Call>, descs: seq<SyscallDesc>, s: nat)
    requires Indexed(calls, descs) && s < |descs|
  {
    forall r :: r in descs[s].inputs ==> SomeInScope(calls, descs, r)
  }

  /**
   Resources of which nothing is in scope, each an input of something that can make the one before, the last of which a
   call of `s` can make at once.
   */
  ghost predicate LeadsTo(
    calls: seq<Call>, descs: seq<SyscallDesc>, enabled: set<nat>, path: seq<ResourceDesc>, s: nat)
    requires Indexed(calls, descs)
  {
    && path != []
    && (forall i :: 0 <= i < |path| ==> !SomeInScope(calls, descs, path[i]))
    && (forall i :: 0 < i < |path| ==> NeededFor(descs, enabled, path[i], path[i - 1]))
    && CanMake(descs, enabled, s, path[|path| - 1]) && Runnable(calls, descs, s)
  }

  ghost predicate NeededFor(descs: seq<SyscallDesc>, enabled: set<nat>, r: ResourceDesc, made: ResourceDesc) {
    exists c: nat :: CanMake(descs, enabled, c, made) && r in descs[c].inputs
  }

  // ---------------------------------------------------------------- the table and the scope

  /** A resource is missing exactly when no result of its kind is in scope. */
  lemma MissingIsOutOfScope(calls: seq<Call>, descs: seq<SyscallDesc>, enabled: set<nat>, r: ResourceDesc)
    requires Indexed(calls, descs)
    ensures IsMissing(SearchAfter(calls, descs, enabled), r) <==> !SomeInScope(calls, descs, r)
  {
    TableListsScope(calls, descs, r.kind);
    var listed := Get(TableAfter(calls, descs), r.kind);
    if listed != [] {
      assert listed[0] in listed;
    }
  }

  lemma NothingMissingIsRunnable(calls: seq<Call>, descs: seq<SyscallDesc>, enabled: set<nat>, s: nat)
    requires Indexed(calls, descs) && s < |descs|
    ensures MissingOf(SearchAfter(calls, descs, enabled), descs[s].inputs) == [] <==> Runnable(calls, descs, s)
  {
    var p := SearchAfter(calls, descs, enabled);
    var missing := MissingOf(p, descs[s].inputs);
    forall r | r in descs[s].inputs ensures r in missing <==> !SomeInScope(calls, descs, r) {
      MissingIsOutOfScope(calls, descs, enabled, r);
    }
    if missing != [] {
      assert missing[0] in missing;
    }
  }

  lemma ConstructsWhatItCanMake(calls: seq<Call>, descs: seq<SyscallDesc>, enabled: set<nat>, s: nat, r: ResourceDesc)
    requires Indexed(calls, descs)
    ensures Constructs(SearchAfter(calls, descs, enabled), s, r) <==> CanMake(descs, enabled, s, r)
  {
  }

  lemma NeedsWhatIsOutOfScope(
    calls: seq<Call>, descs: seq<SyscallDesc>, enabled: set<nat>, made: ResourceDesc, r: ResourceDesc)
    requires Indexed(calls, descs)
    ensures Needs(SearchAfter(calls, descs, enabled), made, r)
       <==> NeededFor(descs, enabled, r, made) && !SomeInScope(calls, descs, r)
  {
    var p := SearchAfter(calls, descs, enabled);
    MissingIsOutOfScope(calls, descs, enabled, r);
    if Needs(p, made, r) {
      var c: nat :| Constructs(p, c, made) && r in MissingOf(p, p.descs[c].inputs);
      assert CanMake(descs, enabled, c, made);
    }
    if NeededFor(descs, enabled, r, made) && !SomeInScope(calls, descs, r) {
      var c: nat :| CanMake(descs, enabled, c, made) && r in descs[c].inputs;
      assert Constructs(p, c, made) && r in MissingOf(p, p.descs[c].inputs);
    }
  }

  lemma ChainsLead(
    calls: seq<Call>, descs: seq<SyscallDesc>, enabled: set<nat>, path: seq<ResourceDesc>, start: ResourceDesc, s: nat)
    requires Indexed(calls, descs)
    ensures ChainTo(SearchAfter(calls, descs, enabled), path, start, s)
       <==> LeadsTo(calls, descs, enabled, path, s) && path[0] == start
  {
    var p := SearchAfter(calls, descs, enabled);
    if path != [] {
      forall i | 0 <= i < |path| ensures IsMissing(p, path[i]) <==> !SomeInScope(calls, descs, path[i]) {
        MissingIsOutOfScope(calls, descs, enabled, path[i]);
      }
      forall i | 0 < i < |path|
        ensures Needs(p, path[i - 1], path[i])
           <==> NeededFor(descs, enabled, path[i], path[i - 1]) && !SomeInScope(calls, descs, path[i])
      {
        NeedsWhatIsOutOfScope(calls, descs, enabled, path[i - 1], path[i]);
      }
      if s < |descs| {
        NothingMissingIsRunnable(calls, descs, enabled, s);
      }
    }
  }

  // ---------------------------------------------------------------- what is returned

  lemma ReachableLeads(
    calls: seq<Call>, descs: seq<SyscallDesc>, enabled: set<nat>, target: SyscallDesc, s: nat)
    requires Indexed(calls, descs) && Reachable(SearchAfter(calls, descs, enabled), target, s)
    ensures exists path :: LeadsTo(calls, descs, enabled, path, s) && path[0] in target.inputs
  {
    var p := SearchAfter(calls, descs, enabled);
    var i :| 0 <= i < |target.inputs| && Reaches(p, target.inputs[i], s);
    var path :| ChainTo(p, path, target.inputs[i], s);
    ChainsLead(calls, descs, enabled, path, target.inputs[i], s);
  }

  lemma LeadingIsReachable(
    calls: seq<Call>, descs: seq<SyscallDesc>, enabled: set<nat>, target: SyscallDesc, path: seq<ResourceDesc>, s: nat)
    requires Indexed(calls, descs) && LeadsTo(calls, descs, enabled, path, s) && path[0] in target.inputs
    ensures Reachable(SearchAfter(calls, descs, enabled), target, s)
  {
    var i :| 0 <= i < |target.inputs| && target.inputs[i] == path[0];
    ChainsLead(calls, descs, enabled, path, path[0], s);
    assert Reaches(SearchAfter(calls, descs, enabled), target.inputs[i], s);
  }

  /**
   With one lineage per kind the search returns exactly the calls that can run now and lead, through whatever is out of
   scope, to an input of the target that is out of scope.
   */
  lemma ProducersLeadToInputs(
    calls: seq<Call>, descs: seq<SyscallDesc>, enabled: set<nat>, target: SyscallDesc, s: nat)
    requires Indexed(calls, descs) && OneLineagePerKind(SearchAfter(calls, descs, enabled), target)
    ensures Returned(SearchAfter(calls, descs, enabled), target, s)
       <==> exists path :: LeadsTo(calls, descs, enabled, path, s) && path[0] in target.inputs
  {
    var p := SearchAfter(calls, descs, enabled);
    MarksLoseNothing(p, target, s);
    if Reachable(p, target, s) {
      ReachableLeads(calls, descs, enabled, target, s);
    }
    if path :| LeadsTo(calls, descs, enabled, path, s) && path[0] in target.inputs {
      LeadingIsReachable(calls, descs, enabled, target, path, s);
    }
  }

  /** A target whose inputs all have a result in scope gets no producer, however kinds and lineages are. */
  lemma SatisfiedGetsNothing(
    calls: seq<Call>, descs: seq<SyscallDesc>, enabled: set<nat>, target: SyscallDesc, s: nat)
    requires Indexed(calls, descs) && forall r :: r in target.inputs ==> SomeInScope(calls, descs, r)
    ensures !Returned(SearchAfter(calls, descs, enabled), target, s)
  {
    var p := SearchAfter(calls, descs, enabled);
    forall i | 0 <= i < |target.inputs| ensures !Finds(p, target.inputs[i], {}, s) {
      MissingIsOutOfScope(calls, descs, enabled, target.inputs[i]);
    }
  }

  /** An input with nothing in scope gets everything that can make it and run now. */
  lemma OutOfScopeGetsItsMakers(
    calls: seq<Call>, descs: seq<SyscallDesc>, enabled: set<nat>, target: SyscallDesc, r: ResourceDesc, s: nat)
    requires Indexed(calls, descs) && r in target.inputs && !SomeInScope(calls, descs, r)
    requires CanMake(descs, enabled, s, r) && Runnable(calls, descs, s)
    ensures Returned(SearchAfter(calls, descs, enabled), target, s)
  {
    var p := SearchAfter(calls, descs, enabled);
    ChainsLead(calls, descs, enabled, [r], r, s);
    assert Simple([r], {});
    assert Finds(p, r, {}, s);
    var i :| 0 <= i < |target.inputs| && target.inputs[i] == r;
  }

  /** Whatever is returned can run now: every input of it has a result in scope. */
  lemma ReturnedIsRunnable(
    calls: seq<Call>, descs: seq<SyscallDesc>, enabled: set<nat>, target: SyscallDesc, s: nat)
    requires Indexed(calls, descs) && Returned(SearchAfter(calls, descs, enabled), target, s)
    ensures s in enabled && s < |descs| && Runnable(calls, descs, s)
    ensures exists r :: r in target.inputs && !SomeInScope(calls, descs, r)
  {
    var p := SearchAfter(calls, descs, enabled);
    var i :| 0 <= i < |target.inputs| && Finds(p, target.inputs[i], {}, s);
    var path :| ChainTo(p, path, target.inputs[i], s) && Simple(path, {});
    ChainsLead(calls, descs, enabled, path, target.inputs[i], s);
    assert path[0] in target.inputs;
  }
}
