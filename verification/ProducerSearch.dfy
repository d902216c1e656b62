/**
 Which calls can be made next towards a resource that is missing: a depth-first search through
 constructors and their own missing inputs, which marks the kinds on the current path.
 */
module ProducerSearch {
  import opened ProgramModel
  import opened ResourceTracking

  datatype Problem = Problem(descs: seq<SyscallDesc>, enabled: set<nat>, table: Table)

  predicate IsMissing(p: Problem, resource: ResourceDesc) {
    Get(p.table, resource.kind) == []
  }

  function MissingOf(p: Problem, inputs: seq<ResourceDesc>): (r: seq<ResourceDesc>)
    ensures forall m :: m in r <==> m in inputs && IsMissing(p, m)
  {
    if inputs == [] then []
    else (if IsMissing(p, inputs[0]) then [inputs[0]] else []) + MissingOf(p, inputs[1..])
  }

  predicate Builds(desc: SyscallDesc, required: ResourceDesc) {
    exists o :: 0 <= o < |desc.outputs| && required.Accepts(desc.outputs[o])
  }

  function ConstructorsFrom(descs: seq<SyscallDesc>, required: ResourceDesc, from: nat): (r: seq<nat>)
    ensures forall s :: s in r <==> from <= s < |descs| && Builds(descs[s], required)
    decreases |descs| - from
  {
    if from >= |descs| then []
    else (if Builds(descs[from], required) then [from] else []) + ConstructorsFrom(descs, required, from + 1)
  }

  // ---------------------------------------------------------------- what is to be found

  predicate Constructs(p: Problem, s: nat, resource: ResourceDesc) {
    s in p.enabled && s < |p.descs| && Builds(p.descs[s], resource)
  }

  /** Everything the constructor needs is already available. */
  predicate Ready(p: Problem, s: nat, resource: ResourceDesc) {
    Constructs(p, s, resource) && MissingOf(p, p.descs[s].inputs) == []
  }

  /** Some enabled constructor of `a` still needs `b`. */
  ghost predicate Needs(p: Problem, a: ResourceDesc, b: ResourceDesc) {
    exists s: nat :: Constructs(p, s, a) && b in MissingOf(p, p.descs[s].inputs)
  }

  /** A chain of missing resources, each needed to construct the one before. */
  ghost predicate Chain(p: Problem, path: seq<ResourceDesc>) {
    && path != []
    && (forall i :: 0 <= i < |path| ==> IsMissing(p, path[i]))
    && forall i :: 0 < i < |path| ==> Needs(p, path[i - 1], path[i])
  }

  /** No kind occurs twice on the path, and none of `avoiding` occurs. */
  ghost predicate Simple(path: seq<ResourceDesc>, avoiding: set<string>) {
    && (forall i :: 0 <= i < |path| ==> path[i].kind !in avoiding)
    && forall i, j :: 0 <= i < j < |path| ==> path[i].kind != path[j].kind
  }

  ghost predicate ChainTo(p: Problem, path: seq<ResourceDesc>, start: ResourceDesc, s: nat) {
    Chain(p, path) && path[0] == start && Ready(p, s, path[|path| - 1])
  }

  /** `s` can be made now and contributes, along some chain, to constructing `start`. */
  ghost predicate Reaches(p: Problem, start: ResourceDesc, s: nat) {
    exists path :: ChainTo(p, path, start, s)
  }

  /** The same along a chain that never comes back to a kind, nor enters a marked one. */
  ghost predicate Finds(p: Problem, start: ResourceDesc, marked: set<string>, s: nat) {
    exists path :: ChainTo(p, path, start, s) && Simple(path, marked)
  }

  /** What the search finds by looking into constructor `c`. */
  ghost predicate FindsThrough(p: Problem, c: nat, resource: ResourceDesc, marked: set<string>, s: nat) {
    Constructs(p, c, resource)
    && if MissingOf(p, p.descs[c].inputs) == [] then s == c
       else exists m :: m in MissingOf(p, p.descs[c].inputs) && Finds(p, m, marked, s)
  }

  ghost predicate Unmarked(p: Problem, start: ResourceDesc, marked: set<string>) {
    IsMissing(p, start) && start.kind !in marked
  }

  lemma ChainTail(p: Problem, path: seq<ResourceDesc>, start: ResourceDesc, s: nat, marked: set<string>)
    requires ChainTo(p, path, start, s) && Simple(path, marked) && |path| > 1
    ensures ChainTo(p, path[1..], path[1], s) && Simple(path[1..], marked + {start.kind})
    ensures Needs(p, start, path[1])
  {
    var rest := path[1..];
    forall i | 0 < i < |rest| ensures Needs(p, rest[i - 1], rest[i]) {
      assert Needs(p, path[i + 1 - 1], path[i + 1]);
    }
    assert Needs(p, path[1 - 1], path[1]);
    assert rest[|rest| - 1] == path[|path| - 1];
  }

  lemma ChainCons(
    p: Problem, start: ResourceDesc, rest: seq<ResourceDesc>, m: ResourceDesc, s: nat, marked: set<string>)
    requires ChainTo(p, rest, m, s) && Simple(rest, marked + {start.kind})
    requires Unmarked(p, start, marked) && Needs(p, start, m)
    ensures ChainTo(p, [start] + rest, start, s) && Simple([start] + rest, marked)
  {
    var path := [start] + rest;
    forall i | 0 < i < |path| ensures Needs(p, path[i - 1], path[i]) {
      if i > 1 {
        assert Needs(p, rest[i - 1 - 1], rest[i - 1]);
      }
    }
    assert path[|path| - 1] == rest[|rest| - 1];
  }

  lemma FindsUnfolds(p: Problem, start: ResourceDesc, marked: set<string>, s: nat)
    requires Finds(p, start, marked, s)
    ensures Unmarked(p, start, marked)
    ensures exists c :: FindsThrough(p, c, start, marked + {start.kind}, s)
  {
    var path :| ChainTo(p, path, start, s) && Simple(path, marked);
    if |path| == 1 {
      assert FindsThrough(p, s, start, marked + {start.kind}, s);
    } else {
      ChainTail(p, path, start, s, marked);
      var c: nat :| Constructs(p, c, start) && path[1] in MissingOf(p, p.descs[c].inputs);
      assert Finds(p, path[1], marked + {start.kind}, s);
      assert FindsThrough(p, c, start, marked + {start.kind}, s);
    }
  }

  lemma FindsFolds(p: Problem, start: ResourceDesc, marked: set<string>, s: nat, c: nat)
    requires Unmarked(p, start, marked) && FindsThrough(p, c, start, marked + {start.kind}, s)
    ensures Finds(p, start, marked, s)
  {
    if MissingOf(p, p.descs[c].inputs) == [] {
      assert ChainTo(p, [start], start, s) && Simple([start], marked);
    } else {
      var m :| m in MissingOf(p, p.descs[c].inputs) && Finds(p, m, marked + {start.kind}, s);
      var rest :| ChainTo(p, rest, m, s) && Simple(rest, marked + {start.kind});
      ChainCons(p, start, rest, m, s, marked);
    }
  }

  // ---------------------------------------------------------------- the search

  predicate NoRepeats(s: seq<nat>) {
    forall i, j :: 0 <= i < j < |s| ==> s[i] != s[j]
  }

  predicate InputsWithin(descs: seq<SyscallDesc>, kinds: set<string>) {
    forall d, i :: 0 <= d < |descs| && 0 <= i < |descs[d].inputs| ==> descs[d].inputs[i].kind in kinds
  }

  class Search {
    const p: Problem
    var visiting: set<string>
    var seen: set<nat>
    var producers: seq<nat>

    constructor (p: Problem)
      ensures this.p == p && visiting == {} && seen == {} && producers == []
    {
      this.p := p;
      visiting, seen, producers := {}, {}, [];
    }

    ghost predicate Consistent()
      reads this
    {
      NoRepeats(producers) && forall s :: s in seen <==> s in producers
    }

    method Add(s: nat)
      requires Consistent()
      modifies this`seen, this`producers
      ensures Consistent() && seen == old(seen) + {s}
    {
      if s !in seen {
        seen := seen + {s};
        producers := producers + [s];
      }
    }

    /** `kinds` bounds the kinds that can be marked; it is there only to show that the search ends. */
    method Collect(required: ResourceDesc, ghost kinds: set<string>)
      requires Consistent() && required.kind in kinds && InputsWithin(p.descs, kinds)
      modifies this
      ensures Consistent() && visiting == old(visiting)
      ensures forall s :: s in seen <==> s in old(seen) || Finds(p, required, old(visiting), s)
      decreases kinds - visiting, 0
    {
      if !IsMissing(p, required) || required.kind in visiting {
        forall s ensures !Finds(p, required, visiting, s) {
          if Finds(p, required, visiting, s) {
            FindsUnfolds(p, required, visiting, s);
          }
        }
        return;
      }
      ghost var before := visiting;
      visiting := visiting + {required.kind};
      ghost var marked := visiting;
      var constructors := ConstructorsFrom(p.descs, required, 0);
      var k := 0;
      while k < |constructors|
        invariant k <= |constructors| && Consistent() && visiting == marked
        invariant forall s :: s in seen <==>
          s in old(seen) || exists j :: 0 <= j < k && FindsThrough(p, constructors[j], required, marked, s)
      {
        var c := constructors[k];
        ghost var seenBefore := seen;
        assert c in constructors;
        if c in p.enabled {
          Explore(required, c, kinds);
        }
        assert forall s :: s in seen <==> s in seenBefore || FindsThrough(p, c, required, marked, s);
        k := k + 1;
      }
      forall s ensures s in seen <==> s in old(seen) || Finds(p, required, before, s) {
        if Finds(p, required, before, s) {
          FindsUnfolds(p, required, before, s);
          var c :| FindsThrough(p, c, required, marked, s);
          assert c in constructors;
        }
        if s in seen && s !in old(seen) {
          var j :| 0 <= j < k && FindsThrough(p, constructors[j], required, marked, s);
          FindsFolds(p, required, before, s, constructors[j]);
        }
      }
      visiting := visiting - {required.kind};
      assert visiting == before;
    }

    /** The body of the loop over constructors: take `c` if it is ready, otherwise search for what it misses. */
    method Explore(required: ResourceDesc, c: nat, ghost kinds: set<string>)
      requires Consistent() && InputsWithin(p.descs, kinds) && Constructs(p, c, required)
      modifies this
      ensures Consistent() && visiting == old(visiting)
      ensures forall s :: s in seen <==> s in old(seen) || FindsThrough(p, c, required, visiting, s)
      decreases kinds - visiting, 1
    {
      var missing := MissingOf(p, p.descs[c].inputs);
      if missing == [] {
        Add(c);
        return;
      }
      ghost var marked := visiting;
      var i := 0;
      while i < |missing|
        invariant i <= |missing| && Consistent() && visiting == marked
        invariant forall s :: s in seen <==> s in old(seen) || exists j :: 0 <= j < i && Finds(p, missing[j], marked, s)
      {
        assert missing[i] in p.descs[c].inputs;
        Collect(missing[i], kinds);
        i := i + 1;
      }
      forall s
        ensures FindsThrough(p, c, required, marked, s)
           <==> exists j :: 0 <= j < |missing| && Finds(p, missing[j], marked, s)
      {
      }
    }
  }

  method ProducersForMissingInputs(p: Problem, desc: SyscallDesc) returns (producers: seq<nat>)
    ensures NoRepeats(producers)
    ensures forall s :: s in producers <==> exists i :: 0 <= i < |desc.inputs| && Finds(p, desc.inputs[i], {}, s)
  {
    ghost var kinds := (set d, i | 0 <= d < |p.descs| && 0 <= i < |p.descs[d].inputs| :: p.descs[d].inputs[i].kind)
                       + (set i | 0 <= i < |desc.inputs| :: desc.inputs[i].kind);
    var search := new Search(p);
    var i := 0;
    while i < |desc.inputs|
      invariant i <= |desc.inputs| && search.Consistent() && search.visiting == {} && search.p == p && fresh(search)
      invariant forall s :: s in search.seen <==> exists j :: 0 <= j < i && Finds(p, desc.inputs[j], {}, s)
    {
      search.Collect(desc.inputs[i], kinds);
      i := i + 1;
    }
    producers := search.producers;
  }

  // ---------------------------------------------------------------- the marks lose nothing

  predicate Known(p: Problem, desc: SyscallDesc, r: ResourceDesc) {
    r in desc.inputs || exists d :: 0 <= d < |p.descs| && r in p.descs[d].inputs
  }

  /** Descriptions of one kind may differ in size and values, but not in lineage. */
  ghost predicate OneLineagePerKind(p: Problem, desc: SyscallDesc) {
    forall a, b :: Known(p, desc, a) && Known(p, desc, b) && a.kind == b.kind ==> a.lineage == b.lineage
  }

  lemma ChainIsKnown(p: Problem, desc: SyscallDesc, path: seq<ResourceDesc>, k: nat)
    requires Chain(p, path) && Known(p, desc, path[0]) && k < |path|
    ensures Known(p, desc, path[k])
  {
    if k > 0 {
      assert Needs(p, path[k - 1], path[k]);
    }
  }

  /** The search looks at the lineage of what it constructs and at nothing else. */
  lemma ConstructsByLineage(p: Problem, a: ResourceDesc, b: ResourceDesc, s: nat)
    requires a.lineage == b.lineage && Constructs(p, s, a)
    ensures Constructs(p, s, b)
  {
    var o :| 0 <= o < |p.descs[s].outputs| && a.Accepts(p.descs[s].outputs[o]);
    assert b.Accepts(p.descs[s].outputs[o]);
  }

  lemma NeedsByLineage(p: Problem, a: ResourceDesc, b: ResourceDesc, r: ResourceDesc)
    requires a.lineage == b.lineage && Needs(p, a, r)
    ensures Needs(p, b, r)
  {
    var s: nat :| Constructs(p, s, a) && r in MissingOf(p, p.descs[s].inputs);
    ConstructsByLineage(p, a, b, s);
  }

  lemma CutNeeds(p: Problem, path: seq<ResourceDesc>, i: nat, j: nat, k: nat)
    requires Chain(p, path) && i < j < |path| && path[i].lineage == path[j].lineage
    requires 0 < k < |path| - (j - i)
    ensures var cut := path[..i + 1] + path[j + 1..]; Needs(p, cut[k - 1], cut[k])
  {
    var cut, m := path[..i + 1] + path[j + 1..], if k <= i then k else k + (j - i);
    assert cut[k] == path[m] && Needs(p, path[m - 1], path[m]);
    if k == i + 1 {
      NeedsByLineage(p, path[j], path[i], path[m]);
    }
  }

  lemma CutLoop(p: Problem, path: seq<ResourceDesc>, start: ResourceDesc, s: nat, i: nat, j: nat)
    requires ChainTo(p, path, start, s) && i < j < |path| && path[i].lineage == path[j].lineage
    ensures ChainTo(p, path[..i + 1] + path[j + 1..], start, s)
  {
    var cut := path[..i + 1] + path[j + 1..];
    assert Chain(p, cut) by {
      forall k | 0 < k < |cut| ensures Needs(p, cut[k - 1], cut[k]) {
        CutNeeds(p, path, i, j, k);
      }
    }
    if j == |path| - 1 {
      ConstructsByLineage(p, path[j], path[i], s);
      assert cut[|cut| - 1] == path[i];
    } else {
      assert cut[|cut| - 1] == path[|path| - 1];
    }
  }

  /** A chain that comes back to a kind can be cut short. */
  lemma {:induction false} ChainsCanBeSimple(
    p: Problem, desc: SyscallDesc, path: seq<ResourceDesc>, start: ResourceDesc, s: nat)
    requires OneLineagePerKind(p, desc) && Known(p, desc, start) && ChainTo(p, path, start, s)
    ensures Finds(p, start, {}, s)
    decreases |path|
  {
    if !Simple(path, {}) {
      var i, j :| 0 <= i < j < |path| && path[i].kind == path[j].kind;
      ChainIsKnown(p, desc, path, i);
      ChainIsKnown(p, desc, path, j);
      CutLoop(p, path, start, s, i, j);
      ChainsCanBeSimple(p, desc, path[..i + 1] + path[j + 1..], start, s);
    }
  }

  ghost predicate Returned(p: Problem, desc: SyscallDesc, s: nat) {
    exists i :: 0 <= i < |desc.inputs| && Finds(p, desc.inputs[i], {}, s)
  }

  ghost predicate Reachable(p: Problem, desc: SyscallDesc, s: nat) {
    exists i :: 0 <= i < |desc.inputs| && Reaches(p, desc.inputs[i], s)
  }

  /**
   The search returns exactly the enabled calls that are ready and that construct something reachable from a
   missing input of the target, cyclic dependencies or not.
   */
  lemma MarksLoseNothing(p: Problem, desc: SyscallDesc, s: nat)
    requires OneLineagePerKind(p, desc)
    ensures Returned(p, desc, s) <==> Reachable(p, desc, s)
  {
    forall i | 0 <= i < |desc.inputs| ensures Finds(p, desc.inputs[i], {}, s) <==> Reaches(p, desc.inputs[i], s) {
      if Reaches(p, desc.inputs[i], s) {
        var path :| ChainTo(p, path, desc.inputs[i], s);
        ChainsCanBeSimple(p, desc, path, desc.inputs[i], s);
      }
    }
  }

  /**
   If one description of a kind does not accept another, the marks can hide a call: constructing the first needs
   the second, whose kind is then marked already.
   */
  lemma MarksCanHide(a: ResourceDesc, b: ResourceDesc) returns (p: Problem, target: SyscallDesc, s: nat)
    requires a.kind == b.kind && !a.Accepts(b)
    ensures forall r :: Known(p, target, r) ==> r == a || r == b
    ensures Reachable(p, target, s) && !Returned(p, target, s)
  {
    var make, seed := SyscallDesc("make", [], [b], [a]), SyscallDesc("seed", [], [], [b]);
    p, target, s := Problem([make, seed], {0, 1}, map[]), SyscallDesc("use", [], [a], []), 1;
    assert a.Accepts(make.outputs[0]) && b.Accepts(seed.outputs[0]);
    assert Constructs(p, 0, a) && Ready(p, 1, b);
    assert b in MissingOf(p, p.descs[0].inputs);
    assert Needs(p, a, b);
    assert ChainTo(p, [a, b], a, 1);
    assert target.inputs[0] == a;
    if Finds(p, a, {}, 1) {
      FindsUnfolds(p, a, {}, 1);
      assert false;
    }
  }

  /** The resources that occur are all among `descriptions`. */
  ghost predicate DrawsOn(p: Problem, desc: SyscallDesc, descriptions: set<ResourceDesc>) {
    forall r :: Known(p, desc, r) ==> r in descriptions
  }

  ghost predicate LosesNothing(p: Problem, desc: SyscallDesc) {
    forall s :: Returned(p, desc, s) <==> Reachable(p, desc, s)
  }

  /** Over given descriptions no search ever loses a producer exactly when a kind determines the lineage. */
  lemma MarksLoseNothingExactly(descriptions: set<ResourceDesc>)
    ensures (forall p, desc :: DrawsOn(p, desc, descriptions) ==> LosesNothing(p, desc))
       <==> (forall a, b :: a in descriptions && b in descriptions && a.kind == b.kind ==> a.lineage == b.lineage)
  {
    if a, b :| a in descriptions && b in descriptions && a.kind == b.kind && a.lineage != b.lineage {
      var x, y := if a.Accepts(b) then b else a, if a.Accepts(b) then a else b;
      var p, target, s := MarksCanHide(x, y);
      assert DrawsOn(p, target, descriptions) && !LosesNothing(p, target);
    } else {
      forall p, desc | DrawsOn(p, desc, descriptions) ensures LosesNothing(p, desc) {
        forall s ensures Returned(p, desc, s) <==> Reachable(p, desc, s) {
          MarksLoseNothing(p, desc, s);
        }
      }
    }
  }
}
