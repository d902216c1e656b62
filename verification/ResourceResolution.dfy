/**
 Resolving resource declarations whose bases may be declared later. Unlike struct definitions, a resource
 parsed in a round can be used by the ones after it in the same round.
 */
module ResourceResolution {
  import opened Wrappers
  import opened ProgramModel
  import ProducerSearch
  import RefRepair

  /** `resource kind[base] = values`; the values are inherited when there are none. */
  datatype Decl = Decl(kind: string, base: string, values: Option<seq<nat>>)

  type Resources = map<string, ResourceDesc>

  /** The sizes of the bases that are scalar types or plain sizes. */
  type Scalars = map<string, nat>

  predicate Parses(d: Decl, resources: Resources, scalars: Scalars) {
    d.base in resources || d.base in scalars
  }

  /** A declared resource takes its size, lineage and default values from its base if that is a resource. */
  function Derived(d: Decl, parent: ResourceDesc): ResourceDesc {
    ResourceDesc(d.kind, parent.size, d.values.GetOr(parent.values), parent.lineage + [d.kind])
  }

  function Root(d: Decl, size: nat): ResourceDesc {
    ResourceDesc(d.kind, size, d.values.GetOr([]), [d.kind])
  }

  function Parse(d: Decl, resources: Resources, scalars: Scalars): ResourceDesc
    requires Parses(d, resources, scalars)
  {
    if d.base in resources then Derived(d, resources[d.base]) else Root(d, scalars[d.base])
  }

  // ---------------------------------------------------------------- the loop

  datatype Round = Round(resources: Resources, remaining: seq<Decl>)

  /** Enter the declaration if it parses now, keep it for the next round otherwise. */
  function Try(before: Round, d: Decl, scalars: Scalars): Round {
    if Parses(d, before.resources, scalars) then
      before.(resources := before.resources[d.kind := Parse(d, before.resources, scalars)])
    else before.(remaining := before.remaining + [d])
  }

  function AfterRound(decls: seq<Decl>, resources: Resources, scalars: Scalars): (r: Round)
    ensures |r.remaining| <= |decls|
    ensures |r.remaining| == |decls| ==> r == Round(resources, decls)
  {
    if decls == [] then Round(resources, [])
    else Try(AfterRound(decls[..|decls| - 1], resources, scalars), decls[|decls| - 1], scalars)
  }

  lemma AfterRoundOneMore(pending: seq<Decl>, n: nat, resources: Resources, scalars: Scalars)
    requires n < |pending|
    ensures AfterRound(pending[..n + 1], resources, scalars)
         == Try(AfterRound(pending[..n], resources, scalars), pending[n], scalars)
  {
    assert pending[..n + 1][..n] == pending[..n];
  }

  datatype Outcome = Outcome(ok: bool, resources: Resources)

  function Resolve(decls: seq<Decl>, resources: Resources, scalars: Scalars): Outcome
    decreases |decls|
  {
    var round := AfterRound(decls, resources, scalars);
    if decls == [] then Outcome(true, resources)
    else if |round.remaining| == |decls| then Outcome(false, resources)
    else Resolve(round.remaining, round.resources, scalars)
  }

  method ResolveDeclarations(decls: seq<Decl>, known: Resources, scalars: Scalars) returns (outcome: Outcome)
    ensures outcome == Resolve(decls, known, scalars)
  {
    var pending, resources := decls, known;
    while pending != []
      invariant Resolve(pending, resources, scalars) == Resolve(decls, known, scalars)
      decreases |pending|
    {
      var progress, remaining := false, [];
      ghost var start := resources;
      var i := 0;
      while i < |pending|
        invariant i <= |pending| && |remaining| <= i
        invariant Round(resources, remaining) == AfterRound(pending[..i], start, scalars)
        invariant progress <==> |remaining| < i
      {
        AfterRoundOneMore(pending, i, start, scalars);
        if Parses(pending[i], resources, scalars) {
          resources := resources[pending[i].kind := Parse(pending[i], resources, scalars)];
          progress := true;
        } else {
          remaining := remaining + [pending[i]];
        }
        i := i + 1;
      }
      assert pending[..i] == pending;
      if !progress {
        return Outcome(false, resources);
      }
      pending := remaining;
    }
    return Outcome(true, resources);
  }

  // ---------------------------------------------------------------- base chains

  predicate UniqueKinds(decls: seq<Decl>) {
    forall i, j :: 0 <= i < j < |decls| ==> decls[i].kind != decls[j].kind
  }

  /** No kind is declared twice or known already. */
  predicate NewKinds(decls: seq<Decl>, known: Resources) {
    UniqueKinds(decls) && forall d :: d in decls ==> d.kind !in known
  }

  /** No declared kind that is spelled like a scalar is the base of another declaration. */
  predicate NoScalarBases(decls: seq<Decl>, scalars: Scalars) {
    forall d, e :: d in decls && e in decls && d.kind in scalars && e.base == d.kind ==> e == d
  }

  predicate NewNames(decls: seq<Decl>, known: Resources, scalars: Scalars) {
    NewKinds(decls, known) && NoScalarBases(decls, scalars)
  }

  /** Declarations each based on the next, up to the first one based on a scalar or a known resource. */
  predicate Chain(path: seq<Decl>, decls: seq<Decl>, known: Resources, scalars: Scalars) {
    && path != []
    && (forall i :: 0 <= i < |path| ==> path[i] in decls)
    && (forall i :: 0 <= i < |path| - 1 ==> path[i].base == path[i + 1].kind && !Parses(path[i], known, scalars))
    && Parses(path[|path| - 1], known, scalars)
  }

  /** The resource at the near end of a chain. */
  function Along(path: seq<Decl>, known: Resources, scalars: Scalars): ResourceDesc
    requires path != [] && Parses(path[|path| - 1], known, scalars)
  {
    if |path| == 1 then Parse(path[0], known, scalars) else Derived(path[0], Along(path[1..], known, scalars))
  }

  function KindsFromRoot(path: seq<Decl>): seq<string> {
    if path == [] then [] else KindsFromRoot(path[1..]) + [path[0].kind]
  }

  /** A chain spells out the lineage, root first and the resource itself last, and passes on the size of the root. */
  lemma {:induction false} AlongSpellsTheChain(path: seq<Decl>, known: Resources, scalars: Scalars)
    requires path != [] && Parses(path[|path| - 1], known, scalars)
    ensures var r, last := Along(path, known, scalars), path[|path| - 1];
      && r.kind == path[0].kind
      && r.lineage == (if last.base in known then known[last.base].lineage else []) + KindsFromRoot(path)
      && r.size == (if last.base in known then known[last.base].size else scalars[last.base])
  {
    if |path| > 1 {
      AlongSpellsTheChain(path[1..], known, scalars);
    }
  }

  /** Special values are those of the first declaration of the chain that lists any, and else those at its end. */
  lemma {:induction false} ValuesAlongTheChain(path: seq<Decl>, known: Resources, scalars: Scalars)
    requires path != [] && Parses(path[|path| - 1], known, scalars)
    ensures forall i :: 0 <= i < |path| && path[i].values.Some? && (forall j :: 0 <= j < i ==> path[j].values.None?) ==>
      Along(path, known, scalars).values == path[i].values.value
    ensures (forall j :: 0 <= j < |path| ==> path[j].values.None?) ==>
      var base := path[|path| - 1].base;
      Along(path, known, scalars).values == if base in known then known[base].values else []
  {
    if |path| > 1 {
      var rest := path[1..];
      ValuesAlongTheChain(rest, known, scalars);
      assert forall i :: 0 < i < |path| ==> path[i] == rest[i - 1];
    }
  }

  lemma SameDecl(decls: seq<Decl>, d: Decl, e: Decl)
    requires UniqueKinds(decls) && d in decls && e in decls && d.kind == e.kind
    ensures d == e
  {
  }

  /** There is at most one chain from a declaration. */
  lemma {:induction false} ChainIsUnique(
    p: seq<Decl>, q: seq<Decl>, decls: seq<Decl>, known: Resources, scalars: Scalars)
    requires UniqueKinds(decls) && Chain(p, decls, known, scalars) && Chain(q, decls, known, scalars)
    requires p[0] == q[0]
    ensures p == q
  {
    if |p| > 1 {
      assert !Parses(p[0], known, scalars) && |q| > 1;
      SameDecl(decls, p[1], q[1]);
      assert Chain(p[1..], decls, known, scalars) && Chain(q[1..], decls, known, scalars);
      ChainIsUnique(p[1..], q[1..], decls, known, scalars);
      assert p == [p[0]] + p[1..] && q == [q[0]] + q[1..];
    } else {
      assert p == [p[0]] && q == [q[0]];
    }
  }

  ghost predicate Grounded(d: Decl, decls: seq<Decl>, known: Resources, scalars: Scalars) {
    exists path :: Chain(path, decls, known, scalars) && path[0] == d
  }

  // ---------------------------------------------------------------- what has been resolved so far

  /**
   The declaration has a chain, and `r` is what the chain yields, unless a base spelled like a scalar is
   ambiguous.
   */
  ghost predicate IsAlong(d: Decl, r: ResourceDesc, decls: seq<Decl>, known: Resources, scalars: Scalars) {
    exists path ::
      && Chain(path, decls, known, scalars) && path[0] == d
      && (NoScalarBases(decls, scalars) ==> r == Along(path, known, scalars))
  }

  /** `resources` adds to `known` exactly the declarations not in `remaining`, each along its chain. */
  ghost predicate Sofar(
    resources: Resources, remaining: seq<Decl>, decls: seq<Decl>, known: Resources, scalars: Scalars)
  {
    && NamesSofar(resources, remaining, decls, known)
    && (forall d :: d in decls && d !in remaining ==> EnteredAlong(d, resources, decls, known, scalars))
  }

  ghost predicate NamesSofar(resources: Resources, remaining: seq<Decl>, decls: seq<Decl>, known: Resources) {
    && (forall k :: k in known ==> k in resources && resources[k] == known[k])
    && (forall k :: k in resources ==> k in known || exists d :: d in decls && d.kind == k)
    && (forall d :: d in remaining ==> d in decls && d.kind !in resources)
  }

  ghost predicate EnteredAlong(d: Decl, resources: Resources, decls: seq<Decl>, known: Resources, scalars: Scalars) {
    d.kind in resources && IsAlong(d, resources[d.kind], decls, known, scalars)
  }

  lemma ParsedAtOnce(d: Decl, r: ResourceDesc, decls: seq<Decl>, known: Resources, scalars: Scalars)
    requires d in decls && Parses(d, known, scalars)
    requires NoScalarBases(decls, scalars) ==> r == Parse(d, known, scalars)
    ensures IsAlong(d, r, decls, known, scalars)
  {
    assert Chain([d], decls, known, scalars);
    assert Along([d], known, scalars) == Parse(d, known, scalars);
  }

  lemma ParsedOnOther(d: Decl, b: Decl, parent: ResourceDesc, decls: seq<Decl>, known: Resources, scalars: Scalars)
    requires d in decls && !Parses(d, known, scalars) && d.base == b.kind && IsAlong(b, parent, decls, known, scalars)
    ensures IsAlong(d, Derived(d, parent), decls, known, scalars)
  {
    var path: seq<Decl> :| Chain(path, decls, known, scalars) && path[0] == b
                           && (NoScalarBases(decls, scalars) ==> parent == Along(path, known, scalars));
    ChainCons(d, path, decls, known, scalars);
  }

  lemma ParsedIsAlong(
    d: Decl, resources: Resources, remaining: seq<Decl>, decls: seq<Decl>, known: Resources, scalars: Scalars)
    requires NewKinds(decls, known) && Sofar(resources, remaining, decls, known, scalars)
    requires d in remaining && Parses(d, resources, scalars)
    ensures IsAlong(d, Parse(d, resources, scalars), decls, known, scalars)
  {
    if Parses(d, known, scalars) {
      ParsedAtOnce(d, Parse(d, resources, scalars), decls, known, scalars);
    } else {
      var b :| b in decls && b.kind == d.base;
      assert b !in remaining && EnteredAlong(b, resources, decls, known, scalars);
      ParsedOnOther(d, b, resources[b.kind], decls, known, scalars);
    }
  }

  lemma ChainCons(d: Decl, path: seq<Decl>, decls: seq<Decl>, known: Resources, scalars: Scalars)
    requires Chain(path, decls, known, scalars) && d in decls && d.base == path[0].kind && !Parses(d, known, scalars)
    ensures Chain([d] + path, decls, known, scalars)
    ensures Along([d] + path, known, scalars) == Derived(d, Along(path, known, scalars))
  {
    var longer := [d] + path;
    assert longer[1..] == path && longer[|longer| - 1] == path[|path| - 1];
    forall i | 0 <= i < |longer| - 1
      ensures longer[i].base == longer[i + 1].kind && !Parses(longer[i], known, scalars)
    {
      if i > 0 {
        assert path[i - 1].base == path[i - 1 + 1].kind && !Parses(path[i - 1], known, scalars);
      }
    }
  }

  /** The round so far is right about everything but the declarations still to come. */
  ghost predicate RoundSofar(r: Round, tail: seq<Decl>, decls: seq<Decl>, known: Resources, scalars: Scalars) {
    Sofar(r.resources, r.remaining + tail, decls, known, scalars) && UniqueKinds(r.remaining + tail)
  }

  lemma {:induction false} RoundKeepsSofar(
    pending: seq<Decl>, n: nat, resources: Resources, decls: seq<Decl>, known: Resources, scalars: Scalars)
    requires NewKinds(decls, known) && UniqueKinds(pending) && n <= |pending|
    requires Sofar(resources, pending, decls, known, scalars)
    ensures RoundSofar(AfterRound(pending[..n], resources, scalars), pending[n..], decls, known, scalars)
  {
    if n == 0 {
      assert pending[..0] == [] && pending[0..] == pending && [] + pending == pending;
    } else {
      var d, tail := pending[n - 1], pending[n..];
      assert pending[n - 1..] == [d] + tail;
      RoundKeepsSofar(pending, n - 1, resources, decls, known, scalars);
      TryKeepsSofar(AfterRound(pending[..n - 1], resources, scalars), d, tail, decls, known, scalars);
      AfterRoundOneMore(pending, n - 1, resources, scalars);
    }
  }

  lemma TryKeepsSofar(before: Round, d: Decl, tail: seq<Decl>, decls: seq<Decl>, known: Resources, scalars: Scalars)
    requires NewKinds(decls, known) && RoundSofar(before, [d] + tail, decls, known, scalars)
    ensures RoundSofar(Try(before, d, scalars), tail, decls, known, scalars)
  {
    assert before.remaining + ([d] + tail) == before.remaining + [d] + tail;
    if Parses(d, before.resources, scalars) {
      DeclKeepsSofar(before, d, tail, decls, known, scalars);
    }
  }

  lemma DeclKeepsSofar(before: Round, d: Decl, tail: seq<Decl>, decls: seq<Decl>, known: Resources, scalars: Scalars)
    requires NewKinds(decls, known) && UniqueKinds(before.remaining + [d] + tail)
    requires Sofar(before.resources, before.remaining + [d] + tail, decls, known, scalars)
    requires Parses(d, before.resources, scalars)
    ensures Sofar(before.resources[d.kind := Parse(d, before.resources, scalars)], before.remaining + tail,
                  decls, known, scalars)
    ensures UniqueKinds(before.remaining + tail)
  {
    var rest := before.remaining + [d] + tail;
    assert d in rest;
    ParsedIsAlong(d, before.resources, rest, decls, known, scalars);
    TakeOneOut(before.remaining, d, tail);
    EnterOne(before.resources, before.remaining + tail, rest, d, decls, known, scalars);
  }

  lemma TakeOneOut(a: seq<Decl>, d: Decl, b: seq<Decl>)
    requires UniqueKinds(a + [d] + b)
    ensures UniqueKinds(a + b) && d !in a + b
    ensures forall e :: e in a + [d] + b <==> e == d || e in a + b
  {
    var all := a + [d] + b;
    assert all[|a|] == d;
    forall i | 0 <= i < |a + b| ensures (a + b)[i].kind != d.kind {
      if i < |a| {
        assert all[i] == a[i];
      } else {
        assert all[i + 1] == b[i - |a|];
      }
    }
    forall i, j | 0 <= i < j < |a + b| ensures (a + b)[i].kind != (a + b)[j].kind {
      var i', j' := if i < |a| then i else i + 1, if j < |a| then j else j + 1;
      assert all[i'] == (a + b)[i] && all[j'] == (a + b)[j];
    }
  }

  lemma EnterName(
    resources: Resources, rest: seq<Decl>, before: seq<Decl>, d: Decl, r: ResourceDesc, decls: seq<Decl>,
    known: Resources)
    requires UniqueKinds(decls) && NamesSofar(resources, before, decls, known) && d in before && d !in rest
    requires forall e :: e in rest ==> e in before
    ensures NamesSofar(resources[d.kind := r], rest, decls, known)
  {
    var longer := resources[d.kind := r];
    forall e | e in rest ensures e in decls && e.kind !in longer {
      if e.kind == d.kind {
        SameDecl(decls, e, d);
      }
    }
    forall k | k in longer ensures k in known || exists e :: e in decls && e.kind == k {
      assert k != d.kind ==> k in resources;
    }
  }

  lemma EnterOne(
    resources: Resources, rest: seq<Decl>, before: seq<Decl>, d: Decl, decls: seq<Decl>, known: Resources,
    scalars: Scalars)
    requires UniqueKinds(decls) && Sofar(resources, before, decls, known, scalars)
    requires d !in rest && forall e :: e in before <==> e == d || e in rest
    requires Parses(d, resources, scalars) && IsAlong(d, Parse(d, resources, scalars), decls, known, scalars)
    ensures Sofar(resources[d.kind := Parse(d, resources, scalars)], rest, decls, known, scalars)
  {
    assert d in before && d in decls;
    var longer := resources[d.kind := Parse(d, resources, scalars)];
    EnterName(resources, rest, before, d, Parse(d, resources, scalars), decls, known);
    forall e | e in decls && e !in rest ensures EnteredAlong(e, longer, decls, known, scalars) {
      if e != d {
        assert EnteredAlong(e, resources, decls, known, scalars);
        assert e.kind != d.kind by {
          if e.kind == d.kind {
            SameDecl(decls, e, d);
          }
        }
      }
    }
  }

  // ---------------------------------------------------------------- success and result

  /** When nothing parses any more, what is left over has no chain. */
  lemma {:induction false} StuckHasNoChain(
    path: seq<Decl>, k: nat, resources: Resources, remaining: seq<Decl>, decls: seq<Decl>, known: Resources,
    scalars: Scalars)
    requires Sofar(resources, remaining, decls, known, scalars) && Chain(path, decls, known, scalars) && k < |path|
    requires forall d :: d in remaining ==> !Parses(d, resources, scalars)
    ensures path[k] !in remaining
    decreases |path| - k
  {
    if k < |path| - 1 {
      StuckHasNoChain(path, k + 1, resources, remaining, decls, known, scalars);
      assert path[k + 1] in decls && path[k].base == path[k + 1].kind;
    }
  }

  lemma {:induction false} StuckParsesNothing(decls: seq<Decl>, resources: Resources, scalars: Scalars, d: Decl)
    requires |AfterRound(decls, resources, scalars).remaining| == |decls| && d in decls
    ensures !Parses(d, resources, scalars)
  {
    var n := |decls| - 1;
    if decls[n] != d {
      assert d in decls[..n];
      StuckParsesNothing(decls[..n], resources, scalars, d);
    }
  }

  lemma {:induction false} ResolveFrom(
    pending: seq<Decl>, resources: Resources, decls: seq<Decl>, known: Resources, scalars: Scalars)
    requires NewKinds(decls, known) && UniqueKinds(pending)
    requires Sofar(resources, pending, decls, known, scalars)
    ensures Resolve(pending, resources, scalars).ok <==> forall d :: d in decls ==> Grounded(d, decls, known, scalars)
    ensures Resolve(pending, resources, scalars).ok ==>
      Sofar(Resolve(pending, resources, scalars).resources, [], decls, known, scalars)
    decreases |pending|
  {
    var round := AfterRound(pending, resources, scalars);
    if pending == [] {
      forall d | d in decls ensures Grounded(d, decls, known, scalars) {
        assert IsAlong(d, resources[d.kind], decls, known, scalars);
      }
    } else if |round.remaining| == |pending| {
      forall d | d in pending ensures !Parses(d, resources, scalars) {
        StuckParsesNothing(pending, resources, scalars, d);
      }
      var d := pending[0];
      forall path | Chain(path, decls, known, scalars) ensures path[0] != d {
        StuckHasNoChain(path, 0, resources, pending, decls, known, scalars);
      }
      assert !Grounded(d, decls, known, scalars);
    } else {
      RoundKeepsSofar(pending, |pending|, resources, decls, known, scalars);
      assert pending[..|pending|] == pending && round.remaining + pending[|pending|..] == round.remaining;
      ResolveFrom(round.remaining, round.resources, decls, known, scalars);
    }
  }

  /** Resolution succeeds exactly when every base chain reaches a scalar or a known resource. */
  lemma SucceedsExactlyWhenGrounded(decls: seq<Decl>, known: Resources, scalars: Scalars)
    requires NewKinds(decls, known)
    ensures Resolve(decls, known, scalars).ok <==> forall d :: d in decls ==> Grounded(d, decls, known, scalars)
  {
    ResolveFrom(decls, known, decls, known, scalars);
  }

  /** Whether it succeeds never depends on the order. */
  lemma SuccessIsUnordered(decls: seq<Decl>, decls': seq<Decl>, known: Resources, scalars: Scalars)
    requires NewKinds(decls, known) && NewKinds(decls', known) && forall d :: d in decls <==> d in decls'
    ensures Resolve(decls, known, scalars).ok == Resolve(decls', known, scalars).ok
  {
    SucceedsExactlyWhenGrounded(decls, known, scalars);
    SucceedsExactlyWhenGrounded(decls', known, scalars);
    forall d | d in decls ensures Grounded(d, decls, known, scalars) <==> Grounded(d, decls', known, scalars) {
      if Grounded(d, decls, known, scalars) {
        var path: seq<Decl> :| Chain(path, decls, known, scalars) && path[0] == d;
        ChainRegardlessOfOrder(path, decls, decls', known, scalars);
      }
      if Grounded(d, decls', known, scalars) {
        var path: seq<Decl> :| Chain(path, decls', known, scalars) && path[0] == d;
        ChainRegardlessOfOrder(path, decls', decls, known, scalars);
      }
    }
  }

  /** On success each declared resource is what its chain yields, and everything known is kept. */
  lemma ResolvedAlongTheChain(decls: seq<Decl>, known: Resources, scalars: Scalars, path: seq<Decl>)
    requires NewNames(decls, known, scalars) && Resolve(decls, known, scalars).ok && Chain(path, decls, known, scalars)
    ensures var resources := Resolve(decls, known, scalars).resources;
      && path[0].kind in resources && resources[path[0].kind] == Along(path, known, scalars)
      && forall k :: k in known ==> k in resources && resources[k] == known[k]
  {
    ResolveFrom(decls, known, decls, known, scalars);
    var resources := Resolve(decls, known, scalars).resources;
    var d := path[0];
    assert IsAlong(d, resources[d.kind], decls, known, scalars);
    assert EnteredAlong(d, resources, decls, known, scalars);
    var other: seq<Decl> :| Chain(other, decls, known, scalars) && other[0] == d
                            && (NoScalarBases(decls, scalars) ==> resources[d.kind] == Along(other, known, scalars));
    ChainIsUnique(path, other, decls, known, scalars);
  }

  lemma ChainRegardlessOfOrder(path: seq<Decl>, decls: seq<Decl>, decls': seq<Decl>, known: Resources, scalars: Scalars)
    requires (forall d :: d in decls <==> d in decls') && Chain(path, decls, known, scalars)
    ensures Chain(path, decls', known, scalars)
  {
  }

  /** The outcome is the same for every order of the same declarations. */
  lemma OrderDoesNotMatter(decls: seq<Decl>, decls': seq<Decl>, known: Resources, scalars: Scalars)
    requires NewNames(decls, known, scalars) && NewNames(decls', known, scalars)
    requires forall d :: d in decls <==> d in decls'
    ensures Resolve(decls, known, scalars).ok == Resolve(decls', known, scalars).ok
    ensures Resolve(decls, known, scalars).ok ==>
      Resolve(decls, known, scalars).resources == Resolve(decls', known, scalars).resources
  {
    SuccessIsUnordered(decls, decls', known, scalars);
    if Resolve(decls, known, scalars).ok {
      SameResources(decls, decls', known, scalars);
    }
  }

  /** Where each entry of the result comes from. */
  lemma ResolvedEntry(decls: seq<Decl>, known: Resources, scalars: Scalars, k: string) returns (path: seq<Decl>)
    requires NewNames(decls, known, scalars) && Resolve(decls, known, scalars).ok
    requires k in Resolve(decls, known, scalars).resources && k !in known
    ensures Chain(path, decls, known, scalars) && path[0].kind == k
  {
    ResolveFrom(decls, known, decls, known, scalars);
    var d :| d in decls && d.kind == k;
    assert Grounded(d, decls, known, scalars);
    path :| Chain(path, decls, known, scalars) && path[0] == d;
  }

  lemma EntryIsInBoth(decls: seq<Decl>, decls': seq<Decl>, known: Resources, scalars: Scalars, k: string)
    requires NewNames(decls, known, scalars) && NewNames(decls', known, scalars)
    requires forall d :: d in decls <==> d in decls'
    requires Resolve(decls, known, scalars).ok && Resolve(decls', known, scalars).ok
    requires k in Resolve(decls, known, scalars).resources && k !in known
    ensures k in Resolve(decls', known, scalars).resources
    ensures Resolve(decls', known, scalars).resources[k] == Resolve(decls, known, scalars).resources[k]
  {
    var path := ResolvedEntry(decls, known, scalars, k);
    ChainRegardlessOfOrder(path, decls, decls', known, scalars);
    ResolvedAlongTheChain(decls, known, scalars, path);
    ResolvedAlongTheChain(decls', known, scalars, path);
  }

  lemma KnownIsKept(decls: seq<Decl>, known: Resources, scalars: Scalars, k: string)
    requires NewNames(decls, known, scalars) && Resolve(decls, known, scalars).ok && k in known
    ensures k in Resolve(decls, known, scalars).resources && Resolve(decls, known, scalars).resources[k] == known[k]
  {
    ResolveFrom(decls, known, decls, known, scalars);
  }

  lemma SameResources(decls: seq<Decl>, decls': seq<Decl>, known: Resources, scalars: Scalars)
    requires NewNames(decls, known, scalars) && NewNames(decls', known, scalars)
    requires forall d :: d in decls <==> d in decls'
    requires Resolve(decls, known, scalars).ok && Resolve(decls', known, scalars).ok
    ensures Resolve(decls, known, scalars).resources == Resolve(decls', known, scalars).resources
  {
    var a, b := Resolve(decls, known, scalars).resources, Resolve(decls', known, scalars).resources;
    forall k ensures k in a ==> k in b && b[k] == a[k]
      ensures k in b ==> k in a
    {
      if k in known {
        KnownIsKept(decls, known, scalars, k);
        KnownIsKept(decls', known, scalars, k);
      } else {
        if k in a {
          EntryIsInBoth(decls, decls', known, scalars, k);
        }
        if k in b {
          EntryIsInBoth(decls', decls, known, scalars, k);
        }
      }
    }
    assert a == b;
  }

  ghost predicate SameOutcome(decls: seq<Decl>, decls': seq<Decl>, known: Resources, scalars: Scalars) {
    && Resolve(decls, known, scalars).ok == Resolve(decls', known, scalars).ok
    && (Resolve(decls, known, scalars).ok ==>
          Resolve(decls, known, scalars).resources == Resolve(decls', known, scalars).resources)
  }

  /** The two lists declare the same resources once each, under names from `names`. */
  ghost predicate TwoOrders(decls: seq<Decl>, decls': seq<Decl>, names: set<string>) {
    && UniqueKinds(decls) && UniqueKinds(decls')
    && (forall d :: d in decls <==> d in decls')
    && forall d :: d in decls ==> d.kind in names
  }

  /** A kind spelled like a scalar makes the outcome depend on the order: its users see whichever comes first. */
  lemma ScalarNamesMakeOrderMatter(kind: string, user: string, known: Resources, scalars: Scalars)
    returns (decls: seq<Decl>, decls': seq<Decl>)
    requires kind in scalars && user != kind && kind !in known && user !in known
    ensures TwoOrders(decls, decls', {kind, user}) && !SameOutcome(decls, decls', known, scalars)
  {
    var base, derived := Decl(kind, kind, None), Decl(user, kind, None);
    decls, decls' := [base, derived], [derived, base];
    var root, other := Root(base, scalars[kind]), Root(derived, scalars[kind]);
    var first, second := known[kind := root][user := Derived(derived, root)], known[user := other][kind := root];
    assert decls[..1] == [base] && decls'[..1] == [derived] && [base][..0] == [] && [derived][..0] == [];
    assert AfterRound([base], known, scalars) == Round(known[kind := root], []);
    assert AfterRound([derived], known, scalars) == Round(known[user := other], []);
    assert AfterRound(decls, known, scalars) == Round(first, []);
    assert AfterRound(decls', known, scalars) == Round(second, []);
    assert Resolve([], first, scalars).ok && Resolve([], second, scalars).ok;
    assert Resolve(decls, known, scalars) == Outcome(true, first);
    assert Resolve(decls', known, scalars) == Outcome(true, second);
    assert |first[user].lineage| == 2 && |second[user].lineage| == 1;
  }

  lemma NamesWithoutScalars(decls: seq<Decl>, names: set<string>, known: Resources, scalars: Scalars)
    requires names !! known.Keys && UniqueKinds(decls) && forall d :: d in decls ==> d.kind in names
    requires forall k, u :: k in names && u in names && k != u ==> k !in scalars
    ensures NewNames(decls, known, scalars)
  {
    forall d, e | d in decls && e in decls && d.kind in scalars && e.base == d.kind ensures e == d {
      assert e.kind == d.kind;
      SameDecl(decls, d, e);
    }
  }

  /** Under new names no list ever depends on its order exactly when no name but a lone one is spelled like a scalar. */
  lemma OrderNeverMattersExactly(names: set<string>, known: Resources, scalars: Scalars)
    requires names !! known.Keys
    ensures (forall decls, decls' :: TwoOrders(decls, decls', names) ==> SameOutcome(decls, decls', known, scalars))
       <==> (forall k, u :: k in names && u in names && k != u ==> k !in scalars)
  {
    if k, u :| k in names && u in names && k != u && k in scalars {
      var decls, decls' := ScalarNamesMakeOrderMatter(k, u, known, scalars);
      assert TwoOrders(decls, decls', names);
    } else {
      forall decls, decls' | TwoOrders(decls, decls', names) ensures SameOutcome(decls, decls', known, scalars) {
        NamesWithoutScalars(decls, names, known, scalars);
        NamesWithoutScalars(decls', names, known, scalars);
        OrderDoesNotMatter(decls, decls', known, scalars);
      }
    }
  }

  // ---------------------------------------------------------------- lineages cohere

  /** Every name in a lineage is a resource of the table, and its own lineage leads up to it. */
  predicate Coherent(resources: Resources) {
    && (forall k :: k in resources ==> resources[k].kind == k && k in resources[k].lineage)
    && (forall k, j :: k in resources && j in resources[k].lineage ==>
          j in resources && resources[j].lineage <= resources[k].lineage)
  }

  lemma EntryKeepsCoherent(resources: Resources, d: Decl, scalars: Scalars)
    requires Coherent(resources) && d.kind !in resources && Parses(d, resources, scalars)
    ensures Coherent(resources[d.kind := Parse(d, resources, scalars)])
  {
    var r := Parse(d, resources, scalars);
    var longer := resources[d.kind := r];
    assert forall j :: j in r.lineage ==> j == d.kind || (d.base in resources && j in resources[d.base].lineage);
    forall k, j | k in longer && j in longer[k].lineage ensures j in longer && longer[j].lineage <= longer[k].lineage {
      if k == d.kind && j != d.kind {
        assert resources[j].lineage <= resources[d.base].lineage <= r.lineage;
      }
    }
    assert r.lineage[|r.lineage| - 1] == d.kind;
  }

  /** The table of the round is coherent, and only declarations of the round are in it or left over. */
  ghost predicate RoundCoherent(r: Round, decls: seq<Decl>, resources: Resources) {
    && Coherent(r.resources) && UniqueKinds(r.remaining)
    && (forall d :: d in r.remaining ==> d in decls && d.kind !in r.resources)
    && (forall k :: k in r.resources ==> k in resources || exists d :: d in decls && d.kind == k)
  }

  lemma TryKeepsCoherent(before: Round, d: Decl, decls: seq<Decl>, resources: Resources, scalars: Scalars)
    requires RoundCoherent(before, decls, resources) && d.kind !in resources
    requires forall e :: e in decls ==> e.kind != d.kind
    ensures RoundCoherent(Try(before, d, scalars), decls + [d], resources)
  {
    assert forall e :: e in decls + [d] <==> e in decls || e == d;
    if Parses(d, before.resources, scalars) {
      EntryKeepsCoherent(before.resources, d, scalars);
    }
  }

  lemma {:induction false} RoundKeepsCoherent(decls: seq<Decl>, resources: Resources, scalars: Scalars)
    requires Coherent(resources) && UniqueKinds(decls) && forall d :: d in decls ==> d.kind !in resources
    ensures RoundCoherent(AfterRound(decls, resources, scalars), decls, resources)
  {
    if decls != [] {
      var front, d := decls[..|decls| - 1], decls[|decls| - 1];
      assert decls == front + [d];
      assert forall e :: e in front ==> e.kind != d.kind;
      RoundKeepsCoherent(front, resources, scalars);
      TryKeepsCoherent(AfterRound(front, resources, scalars), d, front, resources, scalars);
    }
  }

  /** Resolving into a coherent table leaves it coherent, even when resolution fails in the end. */
  lemma {:induction false} ResolveKeepsCoherent(decls: seq<Decl>, resources: Resources, scalars: Scalars)
    requires Coherent(resources) && UniqueKinds(decls) && forall d :: d in decls ==> d.kind !in resources
    ensures Coherent(Resolve(decls, resources, scalars).resources)
    decreases |decls|
  {
    var round := AfterRound(decls, resources, scalars);
    if decls != [] && |round.remaining| < |decls| {
      RoundKeepsCoherent(decls, resources, scalars);
      ResolveKeepsCoherent(round.remaining, round.resources, scalars);
    }
  }

  /** All resources of the descriptions come from one table. */
  predicate DrawnFrom(descs: seq<SyscallDesc>, resources: Resources) {
    forall d :: 0 <= d < |descs| ==>
      && (forall a :: 0 <= a < |descs[d].args| && descs[d].args[a].TakesResource() ==>
            descs[d].args[a].resource in resources.Values)
      && (forall i :: 0 <= i < |descs[d].inputs| ==> descs[d].inputs[i] in resources.Values)
      && (forall o :: 0 <= o < |descs[d].outputs| ==> descs[d].outputs[o] in resources.Values)
  }

  /** So repaired references pass validation when the descriptions use a coherent table. */
  lemma CoherentTableCoheres(descs: seq<SyscallDesc>, resources: Resources)
    requires Coherent(resources) && DrawnFrom(descs, resources)
    ensures RefRepair.LineagesCohere(descs)
  {
  }

  lemma DrawnInput(p: ProducerSearch.Problem, desc: SyscallDesc, resources: Resources, r: ResourceDesc)
    requires Coherent(resources) && DrawnFrom(p.descs + [desc], resources) && ProducerSearch.Known(p, desc, r)
    ensures r.kind in resources && resources[r.kind] == r
  {
    var descs := p.descs + [desc];
    if r in desc.inputs {
      assert descs[|p.descs|] == desc;
    } else {
      var d :| 0 <= d < |p.descs| && r in p.descs[d].inputs;
      assert descs[d] == p.descs[d];
    }
    assert r in resources.Values;
  }

  /** And the search for producers loses nothing: such descriptions have one lineage for each kind. */
  lemma CoherentTableLosesNothing(p: ProducerSearch.Problem, desc: SyscallDesc, resources: Resources)
    requires Coherent(resources) && DrawnFrom(p.descs + [desc], resources)
    ensures ProducerSearch.LosesNothing(p, desc)
  {
    forall a, b | ProducerSearch.Known(p, desc, a) && ProducerSearch.Known(p, desc, b) && a.kind == b.kind
      ensures a == b
    {
      DrawnInput(p, desc, resources, a);
      DrawnInput(p, desc, resources, b);
    }
    forall s ensures ProducerSearch.Returned(p, desc, s) <==> ProducerSearch.Reachable(p, desc, s) {
      ProducerSearch.MarksLoseNothing(p, desc, s);
    }
  }
}
