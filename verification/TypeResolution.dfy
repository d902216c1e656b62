/**
 Resolving struct definitions that refer to each other in any order. Each round parses what it can
 against the types known when the round began; when a round gets nowhere, a relaxed round lets pointers
 to pending types through as pointers to nothing, which is how pointer cycles are broken.
 */
module TypeResolution {
  import opened Wrappers

  /** A definition by the names of the types it holds by value and of those it points to. */
  datatype Def = Def(name: string, values: seq<string>, pointers: seq<string>)

  /** A pointer to a type that was not known is a pointer to `None`. */
  datatype Type = Struct(name: string, fields: seq<Type>, pointees: seq<Option<Type>>)

  type Types = map<string, Type>

  /**
   Whether the definition parses: the name of the type itself and the names in `pending` may be pointed to
   unresolved.
   */
  predicate Parses(def: Def, known: Types, pending: set<string>) {
    && (forall i :: 0 <= i < |def.values| ==> def.values[i] in known)
    && (forall i :: 0 <= i < |def.pointers| ==>
          def.pointers[i] in known || def.pointers[i] == def.name || def.pointers[i] in pending)
  }

  function Parse(def: Def, known: Types, pending: set<string>): Type
    requires Parses(def, known, pending)
  {
    Struct(def.name,
           seq(|def.values|, i requires 0 <= i < |def.values| => known[def.values[i]]),
           seq(|def.pointers|, i requires 0 <= i < |def.pointers| =>
             if def.pointers[i] in known then Some(known[def.pointers[i]]) else None))
  }

  // ---------------------------------------------------------------- the loop

  /** The types after trying the definitions in order, each against `known`. */
  function AfterRound(defs: seq<Def>, known: Types, pending: set<string>): Types {
    if defs == [] then known
    else
      var n := |defs| - 1;
      var types := AfterRound(defs[..n], known, pending);
      if Parses(defs[n], known, pending) then types[defs[n].name := Parse(defs[n], known, pending)] else types
  }

  function Remaining(defs: seq<Def>, known: Types, pending: set<string>): (r: seq<Def>)
    ensures |r| <= |defs|
  {
    if defs == [] then []
    else
      var n := |defs| - 1;
      Remaining(defs[..n], known, pending) + (if Parses(defs[n], known, pending) then [] else [defs[n]])
  }

  function NamesOf(defs: seq<Def>): set<string> {
    set i | 0 <= i < |defs| :: defs[i].name
  }

  datatype Outcome = Outcome(ok: bool, types: Types)

  function ResolveList(defs: seq<Def>, known: Types): Outcome
    decreases |defs|
  {
    if defs == [] then Outcome(true, known)
    else
      var strict := Remaining(defs, known, {});
      if |strict| < |defs| then ResolveList(strict, AfterRound(defs, known, {}))
      else
        var names := NamesOf(defs);
        var relaxed := Remaining(defs, known, names);
        if |relaxed| < |defs| then ResolveList(relaxed, AfterRound(defs, known, names)) else Outcome(false, known)
  }

  method Round(defs: seq<Def>, known: Types, pending: set<string>)
    returns (types: Types, remaining: seq<Def>, progress: bool)
    ensures types == AfterRound(defs, known, pending)
    ensures remaining == Remaining(defs, known, pending)
    ensures progress <==> |remaining| < |defs|
  {
    types, remaining, progress := known, [], false;
    var i := 0;
    while i < |defs|
      invariant i <= |defs| && |remaining| <= i
      invariant types == AfterRound(defs[..i], known, pending)
      invariant remaining == Remaining(defs[..i], known, pending)
      invariant progress <==> |remaining| < i
    {
      assert defs[..i + 1][..i] == defs[..i];
      if Parses(defs[i], known, pending) {
        types := types[defs[i].name := Parse(defs[i], known, pending)];
        progress := true;
      } else {
        remaining := remaining + [defs[i]];
      }
      i := i + 1;
    }
    assert defs[..i] == defs;
  }

  lemma NothingParsed(defs: seq<Def>, known: Types, pending: set<string>)
    requires |Remaining(defs, known, pending)| == |defs|
    ensures Remaining(defs, known, pending) == defs && AfterRound(defs, known, pending) == known
  {
    if defs != [] {
      var n := |defs| - 1;
      NothingParsed(defs[..n], known, pending);
    }
  }

  method ResolveDefinitions(defs: seq<Def>, known: Types) returns (outcome: Outcome)
    ensures outcome == ResolveList(defs, known)
  {
    var pending, types := defs, known;
    while pending != []
      invariant ResolveList(pending, types) == ResolveList(defs, known)
      decreases |pending|
    {
      var parsed, remaining, progress := Round(pending, types, {});
      if !progress {
        NothingParsed(pending, types, {});
        parsed, remaining, progress := Round(pending, types, NamesOf(pending));
        if !progress {
          return Outcome(false, types);
        }
      }
      types, pending := parsed, remaining;
    }
    return Outcome(true, types);
  }

  // ---------------------------------------------------------------- the same without an order

  type Defs = map<string, Def>

  predicate Named(defs: Defs) {
    forall n :: n in defs ==> defs[n].name == n
  }

  function Parsed(defs: Defs, known: Types, pending: set<string>): Types {
    map n | n in defs && Parses(defs[n], known, pending) :: Parse(defs[n], known, pending)
  }

  function Left(defs: Defs, known: Types, pending: set<string>): Defs {
    map n | n in defs && !Parses(defs[n], known, pending) :: defs[n]
  }

  lemma LeftIsSmaller(defs: Defs, known: Types, pending: set<string>)
    ensures Parsed(defs, known, pending) != map[] ==> |Left(defs, known, pending)| < |defs|
    ensures Parsed(defs, known, pending) == map[] ==> Left(defs, known, pending) == defs
  {
    var left, parsed := Left(defs, known, pending), Parsed(defs, known, pending);
    assert left.Keys <= defs.Keys;
    if parsed != map[] {
      var n :| n in parsed;
      assert n in defs.Keys - left.Keys;
      SubsetSize(left.Keys, defs.Keys - {n});
      assert |left| == |left.Keys| && |defs| == |defs.Keys|;
    } else {
      forall n | n in defs ensures n in left {
        assert n !in parsed;
      }
    }
  }

  lemma {:induction false} SubsetSize<T>(a: set<T>, b: set<T>)
    requires a <= b
    ensures |a| <= |b|
  {
    if a != {} {
      var x :| x in a;
      SubsetSize(a - {x}, b - {x});
    }
  }

  function Resolve(defs: Defs, known: Types): Outcome
    decreases |defs|
  {
    LeftIsSmaller(defs, known, {});
    LeftIsSmaller(defs, known, defs.Keys);
    if defs == map[] then Outcome(true, known)
    else if Parsed(defs, known, {}) != map[] then
      Resolve(Left(defs, known, {}), known + Parsed(defs, known, {}))
    else if Parsed(defs, known, defs.Keys) != map[] then
      Resolve(Left(defs, known, defs.Keys), known + Parsed(defs, known, defs.Keys))
    else Outcome(false, known)
  }

  predicate UniqueNames(defs: seq<Def>) {
    forall i, j :: 0 <= i < j < |defs| ==> defs[i].name != defs[j].name
  }

  function IndexOf(defs: seq<Def>, name: string): (i: nat)
    requires exists j :: 0 <= j < |defs| && defs[j].name == name
    ensures i < |defs| && defs[i].name == name
  {
    if defs[0].name == name then 0
    else
      assert exists j :: 0 <= j < |defs[1..]| && defs[1..][j].name == name by {
        var j :| 0 <= j < |defs| && defs[j].name == name;
        assert defs[1..][j - 1] == defs[j];
      }
      1 + IndexOf(defs[1..], name)
  }

  function AsMap(defs: seq<Def>): (m: Defs)
    ensures m.Keys == NamesOf(defs) && Named(m)
  {
    map n | n in NamesOf(defs) :: defs[IndexOf(defs, n)]
  }

  lemma AsMapMeans(defs: seq<Def>, d: Def)
    requires UniqueNames(defs)
    ensures d in defs <==> d.name in AsMap(defs) && AsMap(defs)[d.name] == d
  {
  }

  lemma {:induction false} ParsedIsEntered(defs: seq<Def>, known: Types, pending: set<string>, i: nat)
    requires UniqueNames(defs) && i < |defs| && Parses(defs[i], known, pending)
    ensures var types := AfterRound(defs, known, pending);
      defs[i].name in types && types[defs[i].name] == Parse(defs[i], known, pending)
  {
    var n := |defs| - 1;
    if i < n {
      ParsedIsEntered(defs[..n], known, pending, i);
      assert defs[n].name != defs[i].name;
    }
  }

  lemma {:induction false} OthersAreKept(defs: seq<Def>, known: Types, pending: set<string>, name: string)
    requires forall i :: 0 <= i < |defs| && Parses(defs[i], known, pending) ==> defs[i].name != name
    ensures var types := AfterRound(defs, known, pending);
      (name in types <==> name in known) && (name in known ==> types[name] == known[name])
  {
    if defs != [] {
      var n := |defs| - 1;
      OthersAreKept(defs[..n], known, pending, name);
    }
  }

  lemma {:induction false} RemainingMeans(defs: seq<Def>, known: Types, pending: set<string>)
    requires UniqueNames(defs)
    ensures UniqueNames(Remaining(defs, known, pending))
    ensures forall d :: d in Remaining(defs, known, pending) <==> d in defs && !Parses(d, known, pending)
  {
    if defs != [] {
      var n := |defs| - 1;
      RemainingMeans(defs[..n], known, pending);
      assert defs == defs[..n] + [defs[n]];
      var r := Remaining(defs[..n], known, pending);
      forall i | 0 <= i < |r| ensures r[i].name != defs[n].name {
        assert r[i] in defs[..n];
      }
    }
  }

  /** One round does not depend on the order of the definitions. */
  lemma RoundIsUnordered(defs: seq<Def>, known: Types, pending: set<string>)
    requires UniqueNames(defs)
    ensures AfterRound(defs, known, pending) == known + Parsed(AsMap(defs), known, pending)
    ensures AsMap(Remaining(defs, known, pending)) == Left(AsMap(defs), known, pending)
    ensures UniqueNames(Remaining(defs, known, pending))
  {
    RemainingMeans(defs, known, pending);
    RoundTypesUnordered(defs, known, pending);
    RoundLeftUnordered(defs, known, pending);
  }

  lemma RoundTypesUnordered(defs: seq<Def>, known: Types, pending: set<string>)
    requires UniqueNames(defs)
    ensures AfterRound(defs, known, pending) == known + Parsed(AsMap(defs), known, pending)
  {
    var types, parsed := AfterRound(defs, known, pending), Parsed(AsMap(defs), known, pending);
    forall n ensures n in types <==> n in known + parsed
      ensures n in types ==> types[n] == (known + parsed)[n]
    {
      if n in parsed {
        var d := AsMap(defs)[n];
        AsMapMeans(defs, d);
        var i :| 0 <= i < |defs| && defs[i] == d;
        ParsedIsEntered(defs, known, pending, i);
      } else {
        forall i | 0 <= i < |defs| && Parses(defs[i], known, pending) ensures defs[i].name != n {
          AsMapMeans(defs, defs[i]);
        }
        OthersAreKept(defs, known, pending, n);
      }
    }
  }

  lemma EntryLeftUnordered(defs: seq<Def>, known: Types, pending: set<string>, n: string)
    requires UniqueNames(defs) && UniqueNames(Remaining(defs, known, pending))
    ensures var m, left := AsMap(Remaining(defs, known, pending)), Left(AsMap(defs), known, pending);
      (n in m <==> n in left) && (n in m && n in left ==> m[n] == left[n])
  {
    RemainingMeans(defs, known, pending);
    var remaining := Remaining(defs, known, pending);
    if n in AsMap(remaining) {
      AsMapMeans(remaining, AsMap(remaining)[n]);
      AsMapMeans(defs, AsMap(remaining)[n]);
    }
    if n in AsMap(defs) {
      AsMapMeans(defs, AsMap(defs)[n]);
      AsMapMeans(remaining, AsMap(defs)[n]);
    }
  }

  lemma RoundLeftUnordered(defs: seq<Def>, known: Types, pending: set<string>)
    requires UniqueNames(defs) && UniqueNames(Remaining(defs, known, pending))
    ensures AsMap(Remaining(defs, known, pending)) == Left(AsMap(defs), known, pending)
  {
    var m, left := AsMap(Remaining(defs, known, pending)), Left(AsMap(defs), known, pending);
    forall n ensures n in m <==> n in left
      ensures n in m && n in left ==> m[n] == left[n]
    {
      EntryLeftUnordered(defs, known, pending, n);
    }
  }

  lemma {:induction false} AllRemain(defs: seq<Def>, known: Types, pending: set<string>)
    requires forall i :: 0 <= i < |defs| ==> !Parses(defs[i], known, pending)
    ensures Remaining(defs, known, pending) == defs
  {
    if defs != [] {
      var n := |defs| - 1;
      forall i | 0 <= i < n ensures !Parses(defs[..n][i], known, pending) {
        assert defs[..n][i] == defs[i];
      }
      AllRemain(defs[..n], known, pending);
      assert defs == defs[..n] + [defs[n]];
    }
  }

  lemma ProgressIsParsing(defs: seq<Def>, known: Types, pending: set<string>)
    requires UniqueNames(defs)
    ensures |Remaining(defs, known, pending)| < |defs| <==> Parsed(AsMap(defs), known, pending) != map[]
  {
    var parsed := Parsed(AsMap(defs), known, pending);
    if parsed == map[] {
      forall i | 0 <= i < |defs| ensures !Parses(defs[i], known, pending) {
        AsMapMeans(defs, defs[i]);
        assert defs[i].name !in parsed;
      }
      AllRemain(defs, known, pending);
    } else {
      var n :| n in parsed;
      AsMapMeans(defs, AsMap(defs)[n]);
      SomeParse(defs, known, pending, AsMap(defs)[n]);
    }
  }

  lemma {:induction false} SomeParse(defs: seq<Def>, known: Types, pending: set<string>, d: Def)
    requires d in defs && Parses(d, known, pending)
    ensures |Remaining(defs, known, pending)| < |defs|
  {
    var n := |defs| - 1;
    if defs[n] != d {
      assert d in defs[..n];
      SomeParse(defs[..n], known, pending, d);
    }
  }

  /** With unique names the loop computes what the unordered form computes. */
  lemma {:induction false} ListMatchesMap(defs: seq<Def>, known: Types)
    requires UniqueNames(defs)
    ensures ResolveList(defs, known) == Resolve(AsMap(defs), known)
    decreases |defs|
  {
    if defs == [] {
      assert AsMap(defs) == map[];
    } else {
      assert defs[0].name in AsMap(defs);
      var names := NamesOf(defs);
      ProgressIsParsing(defs, known, {});
      ProgressIsParsing(defs, known, names);
      RoundIsUnordered(defs, known, {});
      RoundIsUnordered(defs, known, names);
      if |Remaining(defs, known, {})| < |defs| {
        ListMatchesMap(Remaining(defs, known, {}), AfterRound(defs, known, {}));
      } else if |Remaining(defs, known, names)| < |defs| {
        ListMatchesMap(Remaining(defs, known, names), AfterRound(defs, known, names));
      }
    }
  }

  lemma EntryInBoth(defs: seq<Def>, defs': seq<Def>, n: string)
    requires UniqueNames(defs) && UniqueNames(defs') && (forall d :: d in defs ==> d in defs') && n in AsMap(defs)
    ensures n in AsMap(defs') && AsMap(defs')[n] == AsMap(defs)[n]
  {
    AsMapMeans(defs, AsMap(defs)[n]);
    AsMapMeans(defs', AsMap(defs)[n]);
  }

  lemma SameMap(defs: seq<Def>, defs': seq<Def>)
    requires UniqueNames(defs) && UniqueNames(defs') && forall d :: d in defs <==> d in defs'
    ensures AsMap(defs) == AsMap(defs')
  {
    var m, m' := AsMap(defs), AsMap(defs');
    forall n ensures n in m ==> n in m' && m'[n] == m[n]
      ensures n in m' ==> n in m
    {
      if n in m {
        EntryInBoth(defs, defs', n);
      }
      if n in m' {
        EntryInBoth(defs', defs, n);
      }
    }
    assert m == m';
  }

  /** The outcome, types included, is the same for every order of the same definitions. */
  lemma OrderDoesNotMatter(defs: seq<Def>, defs': seq<Def>, known: Types)
    requires UniqueNames(defs) && UniqueNames(defs') && forall d :: d in defs <==> d in defs'
    ensures ResolveList(defs, known) == ResolveList(defs', known)
  {
    ListMatchesMap(defs, known);
    ListMatchesMap(defs', known);
    SameMap(defs, defs');
  }

  // ---------------------------------------------------------------- when resolution succeeds

  predicate Refers(def: Def, name: string) {
    name in def.values || name in def.pointers
  }

  /** Every name referred to is known or being defined. */
  ghost predicate AllDefined(defs: Defs, known: Types) {
    forall n, r :: n in defs && Refers(defs[n], r) ==> r in known || r in defs
  }

  /** `a` holds `b` by value, and `b` has yet to be defined. */
  predicate Holds(defs: Defs, known: Types, a: string, b: string) {
    a in defs && b in defs && b !in known && b in defs[a].values
  }

  /** A way from a type through types it holds by value. */
  predicate Walk(defs: Defs, known: Types, path: seq<string>) {
    forall i :: 0 < i < |path| ==> Holds(defs, known, path[i - 1], path[i])
  }

  /** No type holds itself by value, directly or through others. */
  ghost predicate Acyclic(defs: Defs, known: Types) {
    forall path :: Walk(defs, known, path) && |path| > 1 ==> path[0] != path[|path| - 1]
  }

  ghost predicate Resolvable(defs: Defs, known: Types) {
    AllDefined(defs, known) && Acyclic(defs, known)
  }

  /** What a round leaves over is resolvable exactly when what it started from was. */
  lemma RoundKeepsResolvable(defs: Defs, known: Types, pending: set<string>)
    requires Named(defs) && pending <= defs.Keys
    ensures Resolvable(Left(defs, known, pending), known + Parsed(defs, known, pending)) <==> Resolvable(defs, known)
  {
    RoundKeepsDefined(defs, known, pending);
    RoundKeepsAcyclic(defs, known, pending);
  }

  lemma RoundKeepsDefined(defs: Defs, known: Types, pending: set<string>)
    requires Named(defs) && pending <= defs.Keys
    ensures AllDefined(Left(defs, known, pending), known + Parsed(defs, known, pending)) <==> AllDefined(defs, known)
  {
    var left, types := Left(defs, known, pending), known + Parsed(defs, known, pending);
    assert forall n :: n in types || n in left <==> n in known || n in defs;
    if AllDefined(left, types) {
      forall n, r | n in defs && Refers(defs[n], r) ensures r in known || r in defs {
        if n in left {
          assert Refers(left[n], r);
        } else {
          assert Parses(defs[n], known, pending);
        }
      }
    }
    if AllDefined(defs, known) {
      forall n, r | n in left && Refers(left[n], r) ensures r in types || r in left {
        assert Refers(defs[n], r);
      }
    }
  }

  lemma HolderIsLeft(defs: Defs, known: Types, pending: set<string>, a: string, b: string)
    requires Holds(defs, known, a, b)
    ensures a in Left(defs, known, pending)
  {
  }

  lemma RoundKeepsAcyclic(defs: Defs, known: Types, pending: set<string>)
    requires Named(defs)
    ensures Acyclic(Left(defs, known, pending), known + Parsed(defs, known, pending)) <==> Acyclic(defs, known)
  {
    var left, types := Left(defs, known, pending), known + Parsed(defs, known, pending);
    if Acyclic(defs, known) {
      forall path | Walk(left, types, path) && |path| > 1 ensures path[0] != path[|path| - 1] {
        forall i | 0 < i < |path| ensures Holds(defs, known, path[i - 1], path[i]) {
          assert Holds(left, types, path[i - 1], path[i]);
        }
        assert Walk(defs, known, path);
      }
    }
    if Acyclic(left, types) {
      forall path | Walk(defs, known, path) && |path| > 1 ensures path[0] != path[|path| - 1] {
        if path[0] == path[|path| - 1] {
          forall i | 0 <= i < |path| ensures path[i] in left && path[i] !in types {
            assert Holds(defs, known, path[if i == 0 then |path| - 2 else i - 1], path[i]);
            var next := if i == |path| - 1 then path[1] else path[i + 1];
            assert Holds(defs, known, path[i], next) by {
              assert Holds(defs, known, path[1 - 1], path[1]);
              assert i < |path| - 1 ==> Holds(defs, known, path[i + 1 - 1], path[i + 1]);
            }
            HolderIsLeft(defs, known, pending, path[i], next);
          }
          forall i | 0 < i < |path| ensures Holds(left, types, path[i - 1], path[i]) {
            assert Holds(defs, known, path[i - 1], path[i]);
          }
          assert Walk(left, types, path);
        }
      }
    }
  }

  // ---------------------------------------------------------------- a stuck set holds a cycle

  ghost predicate Waits(defs: Defs, known: Types, a: string) {
    exists b :: Holds(defs, known, a, b)
  }

  ghost predicate Stuck(defs: Defs, known: Types) {
    defs != map[] && forall n {:trigger Waits(defs, known, n)} :: n in defs ==> Waits(defs, known, n)
  }

  lemma {:induction false} LongWalk(defs: Defs, known: Types, start: string, steps: nat) returns (path: seq<string>)
    requires Stuck(defs, known) && start in defs
    ensures |path| == steps + 1 && Walk(defs, known, path)
    ensures forall i :: 0 <= i < |path| ==> path[i] in defs.Keys
  {
    if steps == 0 {
      path := [start];
    } else {
      var before := LongWalk(defs, known, start, steps - 1);
      var a := before[steps - 1];
      assert Waits(defs, known, a);
      var b :| Holds(defs, known, a, b);
      path := before + [b];
      forall i | 0 < i < |path| ensures Holds(defs, known, path[i - 1], path[i]) {
        if i < |before| {
          assert Holds(defs, known, before[i - 1], before[i]);
        }
      }
    }
  }

  lemma {:induction false} DistinctFit(s: seq<string>, all: set<string>)
    requires (forall i :: 0 <= i < |s| ==> s[i] in all) && forall i, j :: 0 <= i < j < |s| ==> s[i] != s[j]
    ensures |s| <= |all|
  {
    if s != [] {
      var n := |s| - 1;
      forall i | 0 <= i < n ensures s[..n][i] in all - {s[n]} {
        assert s[i] != s[n];
      }
      DistinctFit(s[..n], all - {s[n]});
    }
  }

  lemma SomethingRepeats(s: seq<string>, all: set<string>) returns (i: nat, j: nat)
    requires (forall k :: 0 <= k < |s| ==> s[k] in all) && |s| > |all|
    ensures i < j < |s| && s[i] == s[j]
  {
    if forall i, j :: 0 <= i < j < |s| ==> s[i] != s[j] {
      DistinctFit(s, all);
    }
    i, j :| 0 <= i < j < |s| && s[i] == s[j];
  }

  lemma PartOfWalk(defs: Defs, known: Types, path: seq<string>, i: nat, j: nat)
    requires Walk(defs, known, path) && i < j < |path|
    ensures Walk(defs, known, path[i..j + 1])
  {
  }

  /** Following by-value references in a stuck set comes back to where it was. */
  lemma StuckMeansCyclic(defs: Defs, known: Types)
    requires Stuck(defs, known)
    ensures !Acyclic(defs, known)
  {
    var start :| start in defs;
    var path := LongWalk(defs, known, start, |defs.Keys|);
    var i, j := SomethingRepeats(path, defs.Keys);
    PartOfWalk(defs, known, path, i, j);
    var cycle := path[i..j + 1];
    assert cycle[0] == cycle[|cycle| - 1];
  }

  /** When even the relaxed round parses nothing, every definition waits for another by value. */
  lemma NoProgressMeansStuck(defs: Defs, known: Types)
    requires Named(defs) && defs != map[] && Parsed(defs, known, defs.Keys) == map[] && AllDefined(defs, known)
    ensures Stuck(defs, known)
  {
    forall n | n in defs ensures Waits(defs, known, n) {
      assert n !in Parsed(defs, known, defs.Keys);
      assert !Parses(defs[n], known, defs.Keys);
      assert forall r :: Refers(defs[n], r) ==> r in known || r in defs;
      assert forall i :: 0 <= i < |defs[n].pointers| ==> Refers(defs[n], defs[n].pointers[i]);
      var i :| 0 <= i < |defs[n].values| && defs[n].values[i] !in known;
      assert Refers(defs[n], defs[n].values[i]);
      assert Holds(defs, known, n, defs[n].values[i]);
    }
  }

  lemma StuckIsNotResolvable(defs: Defs, known: Types)
    requires Named(defs) && defs != map[] && Parsed(defs, known, defs.Keys) == map[]
    ensures !Resolvable(defs, known)
  {
    if AllDefined(defs, known) {
      NoProgressMeansStuck(defs, known);
      StuckMeansCyclic(defs, known);
    }
  }

  /** The names that the next round may point to unresolved. */
  function PendingNames(defs: Defs, known: Types): set<string> {
    if Parsed(defs, known, {}) != map[] then {} else defs.Keys
  }

  lemma ResolveUnfolds(defs: Defs, known: Types)
    requires defs != map[] && Parsed(defs, known, PendingNames(defs, known)) != map[]
    ensures var pending := PendingNames(defs, known);
      && |Left(defs, known, pending)| < |defs|
      && Resolve(defs, known) == Resolve(Left(defs, known, pending), known + Parsed(defs, known, pending))
  {
    LeftIsSmaller(defs, known, PendingNames(defs, known));
  }

  /**
   Resolution succeeds exactly when every name referred to is defined and no type holds itself by value;
   cycles through pointers never stand in the way.
   */
  lemma {:induction false} SucceedsExactlyWhenResolvable(defs: Defs, known: Types)
    requires Named(defs)
    ensures Resolve(defs, known).ok <==> Resolvable(defs, known)
    decreases |defs|
  {
    var pending := PendingNames(defs, known);
    if defs == map[] {
      EmptyIsResolvable(known);
    } else if Parsed(defs, known, pending) != map[] {
      ResolveUnfolds(defs, known);
      RoundKeepsResolvable(defs, known, pending);
      SucceedsExactlyWhenResolvable(Left(defs, known, pending), known + Parsed(defs, known, pending));
    } else {
      StuckIsNotResolvable(defs, known);
    }
  }

  /** On success every name is defined, and nothing else is. */
  lemma {:induction false} ResolvedNames(defs: Defs, known: Types)
    requires Resolve(defs, known).ok
    ensures Resolve(defs, known).types.Keys == known.Keys + defs.Keys
    decreases |defs|
  {
    var pending := PendingNames(defs, known);
    if defs != map[] {
      ResolveUnfolds(defs, known);
      ResolvedNames(Left(defs, known, pending), known + Parsed(defs, known, pending));
      NamesAddUp(defs, known, pending);
    }
  }

  lemma NamesAddUp(defs: Defs, known: Types, pending: set<string>)
    ensures (known + Parsed(defs, known, pending)).Keys + Left(defs, known, pending).Keys == known.Keys + defs.Keys
  {
    var parsed, left := Parsed(defs, known, pending), Left(defs, known, pending);
    assert (known + parsed).Keys == known.Keys + parsed.Keys;
    assert forall n :: n in defs ==> n in parsed || n in left;
  }

  lemma EmptyIsResolvable(known: Types)
    ensures Resolvable(map[], known)
  {
    forall path: seq<string> | |path| > 1 ensures !Walk(map[], known, path) {
      assert !Holds(map[], known, path[1 - 1], path[1]);
    }
  }

  /** The same for the list and the loop. */
  lemma ListSucceedsExactlyWhenResolvable(defs: seq<Def>, known: Types)
    requires UniqueNames(defs)
    ensures ResolveList(defs, known).ok <==> Resolvable(AsMap(defs), known)
  {
    ListMatchesMap(defs, known);
    SucceedsExactlyWhenResolvable(AsMap(defs), known);
  }

  // ---------------------------------------------------------------- what is resolved

  /** The round, strict or relaxed, in which a definition is resolved. */
  function RoundOf(defs: Defs, known: Types, n: string): nat
    decreases |defs|
  {
    var pending := PendingNames(defs, known);
    LeftIsSmaller(defs, known, pending);
    if Parsed(defs, known, pending) == map[] || n !in Left(defs, known, pending) then 0
    else 1 + RoundOf(Left(defs, known, pending), known + Parsed(defs, known, pending), n)
  }

  /** The type `r` is known before the round that resolves `n`. */
  predicate Earlier(defs: Defs, known: Types, r: string, n: string) {
    r in known || (r in defs && RoundOf(defs, known, r) < RoundOf(defs, known, n))
  }

  /**
   The type holds the final types its definition names, and points to the final type exactly where that was
   resolved in an earlier round; everywhere else it points to nothing.
   */
  predicate Faithful(defs: Defs, known: Types, n: string, t: Type, types: Types)
    requires n in defs
  {
    var def := defs[n];
    && t.name == def.name && |t.fields| == |def.values| && |t.pointees| == |def.pointers|
    && (forall i :: 0 <= i < |def.values| ==>
          Earlier(defs, known, def.values[i], n)
          && def.values[i] in types && t.fields[i] == types[def.values[i]])
    && (forall i :: 0 <= i < |def.pointers| ==>
          if Earlier(defs, known, def.pointers[i], n) then
            def.pointers[i] in types && t.pointees[i] == Some(types[def.pointers[i]])
          else t.pointees[i].None?)
  }

  lemma {:induction false} ResolvedKeepsKnown(defs: Defs, known: Types)
    requires Named(defs) && defs.Keys !! known.Keys
    ensures forall n :: n in known ==> n in Resolve(defs, known).types && Resolve(defs, known).types[n] == known[n]
    decreases |defs|
  {
    var pending := PendingNames(defs, known);
    if defs != map[] && Parsed(defs, known, pending) != map[] {
      ResolveUnfolds(defs, known);
      ResolvedKeepsKnown(Left(defs, known, pending), known + Parsed(defs, known, pending));
    }
  }

  lemma ParsedIsFaithful(defs: Defs, known: Types, types: Types, n: string)
    requires Named(defs) && n in defs && n in Parsed(defs, known, PendingNames(defs, known))
    requires forall k :: k in known ==> k in types && types[k] == known[k]
    ensures Faithful(defs, known, n, Parse(defs[n], known, PendingNames(defs, known)), types)
  {
    assert RoundOf(defs, known, n) == 0;
  }

  /** Leaving out the first round does not change which of the rest is resolved earlier. */
  lemma EarlierInRest(defs: Defs, known: Types, r: string, n: string)
    requires Parsed(defs, known, PendingNames(defs, known)) != map[]
    requires n in Left(defs, known, PendingNames(defs, known))
    ensures var pending := PendingNames(defs, known);
      Earlier(Left(defs, known, pending), known + Parsed(defs, known, pending), r, n) <==> Earlier(defs, known, r, n)
  {
    var pending := PendingNames(defs, known);
    var left, types := Left(defs, known, pending), known + Parsed(defs, known, pending);
    assert RoundOf(defs, known, n) == 1 + RoundOf(left, types, n);
    if r in left {
      assert RoundOf(defs, known, r) == 1 + RoundOf(left, types, r);
      assert r in types <==> r in known;
    } else if r in defs {
      assert RoundOf(defs, known, r) == 0;
    }
  }

  lemma RestIsFaithful(defs: Defs, known: Types, n: string, t: Type, types: Types)
    requires Parsed(defs, known, PendingNames(defs, known)) != map[]
    requires n in Left(defs, known, PendingNames(defs, known))
    requires Faithful(Left(defs, known, PendingNames(defs, known)),
                      known + Parsed(defs, known, PendingNames(defs, known)), n, t, types)
    ensures Faithful(defs, known, n, t, types)
  {
    var def := defs[n];
    forall i | 0 <= i < |def.values| ensures Earlier(defs, known, def.values[i], n) {
      EarlierInRest(defs, known, def.values[i], n);
    }
    forall i | 0 <= i < |def.pointers|
      ensures if Earlier(defs, known, def.pointers[i], n) then
                def.pointers[i] in types && t.pointees[i] == Some(types[def.pointers[i]])
              else t.pointees[i].None?
    {
      EarlierInRest(defs, known, def.pointers[i], n);
    }
  }

  /** For new names, every resolved type is faithful to its definition. */
  lemma {:induction false} ResolvedIsFaithful(defs: Defs, known: Types, n: string)
    requires Named(defs) && defs.Keys !! known.Keys && n in defs && Resolve(defs, known).ok
    ensures n in Resolve(defs, known).types
    ensures Faithful(defs, known, n, Resolve(defs, known).types[n], Resolve(defs, known).types)
    decreases |defs|
  {
    var pending := PendingNames(defs, known);
    var left, types := Left(defs, known, pending), known + Parsed(defs, known, pending);
    ResolveUnfolds(defs, known);
    ResolvedKeepsKnown(left, types);
    var final := Resolve(left, types).types;
    if n in left {
      ResolvedIsFaithful(left, types, n);
      RestIsFaithful(defs, known, n, final[n], final);
    } else {
      ParsedIsFaithful(defs, known, final, n);
    }
  }

  // ---------------------------------------------------------------- when no pointer is lost

  /** Only pointers of the type to itself point to nothing. */
  predicate Whole(def: Def, t: Type) {
    |t.pointees| == |def.pointers|
    && forall i :: 0 <= i < |def.pointers| && t.pointees[i].None? ==> def.pointers[i] == def.name
  }

  ghost predicate KeepsPointers(defs: Defs, known: Types) {
    && Resolve(defs, known).ok
    && forall n :: n in defs ==> n in Resolve(defs, known).types && Whole(defs[n], Resolve(defs, known).types[n])
  }

  function Others(names: seq<string>, self: string): (r: seq<string>)
    ensures forall n :: n in r <==> n in names && n != self
  {
    if names == [] then [] else (if names[0] == self then [] else [names[0]]) + Others(names[1..], self)
  }

  /** The definition with every pointer to another type turned into a value. */
  function FlatDef(def: Def): Def {
    Def(def.name, def.values + Others(def.pointers, def.name), [])
  }

  function Flat(defs: Defs): Defs {
    map n | n in defs :: FlatDef(defs[n])
  }

  lemma FlatParsesStrictly(def: Def, known: Types, known': Types, pending: set<string>)
    requires known'.Keys == known.Keys
    ensures Parses(FlatDef(def), known', pending) <==> Parses(def, known, {})
  {
    var flat := FlatDef(def);
    if Parses(def, known, {}) {
      forall i | 0 <= i < |flat.values| ensures flat.values[i] in known' {
        assert flat.values[i] in def.values || flat.values[i] in Others(def.pointers, def.name);
      }
    }
    if Parses(flat, known', pending) {
      forall i | 0 <= i < |def.values| ensures def.values[i] in known {
        assert flat.values[i] == def.values[i];
      }
      forall i | 0 <= i < |def.pointers| && def.pointers[i] != def.name ensures def.pointers[i] in known {
        assert def.pointers[i] in Others(def.pointers, def.name);
        assert def.pointers[i] in flat.values;
      }
    }
  }

  lemma FlatLeft(defs: Defs, known: Types)
    ensures Flat(Left(defs, known, {})) == Left(Flat(defs), known, {})
    ensures Parsed(Flat(defs), known, {}).Keys == Parsed(defs, known, {}).Keys
  {
    var flat := Flat(defs);
    forall n | n in defs ensures Parses(flat[n], known, {}) <==> Parses(defs[n], known, {}) {
      FlatParsesStrictly(defs[n], known, known, {});
    }
    assert Flat(Left(defs, known, {})) == Left(flat, known, {});
    assert Parsed(flat, known, {}).Keys == Parsed(defs, known, {}).Keys;
  }

  /** Flat definitions have no pointers to relax. */
  lemma FlatStuck(defs: Defs, known: Types)
    requires Parsed(defs, known, {}) == map[]
    ensures Parsed(Flat(defs), known, Flat(defs).Keys) == map[]
  {
    forall n | n in defs ensures !Parses(Flat(defs)[n], known, Flat(defs).Keys) {
      FlatParsesStrictly(defs[n], known, known, Flat(defs).Keys);
      assert n !in Parsed(defs, known, {});
    }
  }

  lemma FlatStuckIsNotResolvable(defs: Defs, known: Types)
    requires Named(defs) && defs.Keys !! known.Keys && defs != map[] && Parsed(defs, known, {}) == map[]
    ensures !Resolvable(Flat(defs), known)
  {
    FlatStuck(defs, known);
    assert Flat(defs).Keys == defs.Keys;
    StuckIsNotResolvable(Flat(defs), known);
  }

  /** Resolvability depends on which types are known, not on what they are. */
  lemma ResolvableByNames(defs: Defs, known: Types, known': Types)
    requires known'.Keys == known.Keys
    ensures Resolvable(defs, known') <==> Resolvable(defs, known)
  {
    assert forall a, b :: Holds(defs, known', a, b) <==> Holds(defs, known, a, b);
    assert forall path :: Walk(defs, known', path) <==> Walk(defs, known, path);
    assert forall n :: n in known' <==> n in known;
  }

  lemma FlatRoundKeepsResolvable(defs: Defs, known: Types)
    requires Named(defs)
    ensures Resolvable(Flat(Left(defs, known, {})), known + Parsed(defs, known, {})) <==> Resolvable(Flat(defs), known)
  {
    FlatLeft(defs, known);
    RoundKeepsResolvable(Flat(defs), known, {});
    ResolvableByNames(Left(Flat(defs), known, {}),
                      known + Parsed(Flat(defs), known, {}), known + Parsed(defs, known, {}));
  }

  /** A round keeps the pointers of what it parses exactly if it is strict about them. */
  lemma ParsedStays(defs: Defs, known: Types, pending: set<string>, n: string)
    requires Named(defs) && defs.Keys !! known.Keys && n in defs && Parses(defs[n], known, pending)
    ensures var left, types := Left(defs, known, pending), known + Parsed(defs, known, pending);
      n in Resolve(left, types).types && Resolve(left, types).types[n] == Parse(defs[n], known, pending)
    ensures Whole(defs[n], Parse(defs[n], known, pending)) <==> Parses(defs[n], known, {})
  {
    var left, types := Left(defs, known, pending), known + Parsed(defs, known, pending);
    assert left.Keys !! types.Keys;
    ResolvedKeepsKnown(left, types);
    assert types[n] == Parse(defs[n], known, pending);
    WholeWhenStrict(defs[n], known, pending);
  }

  lemma WholeWhenStrict(def: Def, known: Types, pending: set<string>)
    requires Parses(def, known, pending)
    ensures Whole(def, Parse(def, known, pending)) <==> Parses(def, known, {})
  {
    var t := Parse(def, known, pending);
    assert forall i :: 0 <= i < |def.pointers| ==> (t.pointees[i].None? <==> def.pointers[i] !in known);
  }

  lemma StrictRoundKeepsPointers(defs: Defs, known: Types)
    requires Named(defs) && defs.Keys !! known.Keys && Parsed(defs, known, {}) != map[]
    ensures KeepsPointers(defs, known) <==> KeepsPointers(Left(defs, known, {}), known + Parsed(defs, known, {}))
  {
    var left, types := Left(defs, known, {}), known + Parsed(defs, known, {});
    assert defs != map[];
    assert Resolve(defs, known) == Resolve(left, types);
    forall n | n in defs && n !in left
      ensures n in Resolve(left, types).types && Whole(defs[n], Resolve(left, types).types[n])
    {
      ParsedStays(defs, known, {}, n);
    }
    assert forall n :: n in left ==> left[n] == defs[n];
  }

  lemma RelaxedRoundDropsPointers(defs: Defs, known: Types)
    requires Named(defs) && defs.Keys !! known.Keys && defs != map[] && Parsed(defs, known, {}) == map[]
    ensures !KeepsPointers(defs, known)
  {
    if n :| n in Parsed(defs, known, defs.Keys) {
      ParsedStays(defs, known, defs.Keys, n);
      assert n !in Parsed(defs, known, {});
    }
  }

  /**
   Resolution keeps every pointer except those of types to themselves exactly when the definitions would still
   resolve with those pointers held by value: all names defined, and no cycle through values and pointers together.
   */
  lemma {:induction false} KeepsPointersExactly(defs: Defs, known: Types)
    requires Named(defs) && defs.Keys !! known.Keys
    ensures KeepsPointers(defs, known) <==> Resolvable(Flat(defs), known)
    decreases |defs|
  {
    if defs == map[] {
      assert Flat(defs) == map[];
      EmptyIsResolvable(known);
    } else if Parsed(defs, known, {}) != map[] {
      LeftIsSmaller(defs, known, {});
      StrictRoundKeepsPointers(defs, known);
      KeepsPointersExactly(Left(defs, known, {}), known + Parsed(defs, known, {}));
      FlatRoundKeepsResolvable(defs, known);
    } else {
      RelaxedRoundDropsPointers(defs, known);
      FlatStuckIsNotResolvable(defs, known);
    }
  }

  lemma ResolvableWithMore(defs: Defs, known: Types, known': Types)
    requires Resolvable(defs, known) && known.Keys <= known'.Keys
    ensures Resolvable(defs, known')
  {
    forall path | Walk(defs, known', path) && |path| > 1 ensures path[0] != path[|path| - 1] {
      forall i | 0 < i < |path| ensures Holds(defs, known, path[i - 1], path[i]) {
        assert Holds(defs, known', path[i - 1], path[i]);
      }
      assert Walk(defs, known, path);
    }
    assert forall n :: n in known ==> n in known';
  }

  function Only(defs: Defs, part: set<string>): Defs {
    map n | n in defs && n in part :: defs[n]
  }

  lemma OnlyLeft(defs: Defs, known: Types, part: set<string>)
    ensures Only(Left(defs, known, {}), part) == Left(Only(defs, part), known, {})
    ensures Parsed(Only(defs, part), known, {}).Keys <= Parsed(defs, known, {}).Keys
    ensures Parsed(defs, known, {}) == map[] ==> Parsed(Only(defs, part), known, {}) == map[]
  {
    if n :| n in Parsed(Only(defs, part), known, {}) {
      assert n in Parsed(defs, known, {});
    }
  }

  ghost predicate PartKept(defs: Defs, known: Types, part: set<string>) {
    forall n :: n in defs && n in part ==>
      n in Resolve(defs, known).types && Whole(defs[n], Resolve(defs, known).types[n])
  }

  lemma StrictRoundKeepsPart(defs: Defs, known: Types, part: set<string>)
    requires Named(defs) && defs.Keys !! known.Keys && Parsed(defs, known, {}) != map[]
    requires PartKept(Left(defs, known, {}), known + Parsed(defs, known, {}), part)
    ensures PartKept(defs, known, part)
  {
    var left, types := Left(defs, known, {}), known + Parsed(defs, known, {});
    assert Resolve(defs, known) == Resolve(left, types);
    forall n | n in defs && n in part
      ensures n in Resolve(left, types).types && Whole(defs[n], Resolve(left, types).types[n])
    {
      if n in left {
        assert left[n] == defs[n];
      } else {
        ParsedStays(defs, known, {}, n);
      }
    }
  }

  lemma StrictRoundKeepsPartResolvable(defs: Defs, known: Types, part: set<string>)
    requires Named(defs) && Resolvable(Flat(Only(defs, part)), known)
    ensures Resolvable(Flat(Only(Left(defs, known, {}), part)), known + Parsed(defs, known, {}))
  {
    var mine := Only(defs, part);
    OnlyLeft(defs, known, part);
    FlatRoundKeepsResolvable(mine, known);
    ResolvableWithMore(Flat(Left(mine, known, {})), known + Parsed(mine, known, {}), known + Parsed(defs, known, {}));
  }

  lemma StuckPartIsEmpty(defs: Defs, known: Types, part: set<string>)
    requires Named(defs) && defs.Keys !! known.Keys && Resolvable(Flat(Only(defs, part)), known)
    requires Parsed(defs, known, {}) == map[]
    ensures Only(defs, part) == map[]
  {
    OnlyLeft(defs, known, part);
    if Only(defs, part) != map[] {
      FlatStuckIsNotResolvable(Only(defs, part), known);
    }
  }

  /** Definitions that resolve with their pointers held by value keep their pointers, whatever the others do. */
  lemma {:induction false} PartKeepsPointers(defs: Defs, known: Types, part: set<string>)
    requires Named(defs) && defs.Keys !! known.Keys && Resolvable(Flat(Only(defs, part)), known)
    ensures PartKept(defs, known, part)
    decreases |defs|
  {
    if Parsed(defs, known, {}) != map[] {
      LeftIsSmaller(defs, known, {});
      StrictRoundKeepsPartResolvable(defs, known, part);
      PartKeepsPointers(Left(defs, known, {}), known + Parsed(defs, known, {}), part);
      StrictRoundKeepsPart(defs, known, part);
    } else {
      StuckPartIsEmpty(defs, known, part);
      assert forall n :: n in defs && n in part ==> n in Only(defs, part);
    }
  }

  lemma LonePointer(n: string, target: string, pending: set<string>)
    requires n != target
    ensures Parses(Def(n, [], [target]), map[], pending) <==> target in pending
    ensures target in pending ==> Parse(Def(n, [], [target]), map[], pending).pointees == [None]
  {
    assert Def(n, [], [target]).pointers[0] == target;
  }

  /**
   A pointer can be lost off every cycle: `a` points into the pointer cycle of `b` and `c`, and all three lose
   theirs.
   */
  lemma PointersIntoCyclesAreLost(a: string, b: string, c: string)
    requires a != b && b != c && a != c
    ensures var defs := map[a := Def(a, [], [b]), b := Def(b, [], [c]), c := Def(c, [], [b])];
      Resolve(defs, map[]).ok && a in Resolve(defs, map[]).types && Resolve(defs, map[]).types[a].pointees == [None]
  {
    var defs: Defs := map[a := Def(a, [], [b]), b := Def(b, [], [c]), c := Def(c, [], [b])];
    var known: Types := map[];
    forall n | n in defs ensures !Parses(defs[n], known, {}) && Parses(defs[n], known, defs.Keys) {
      LonePointer(n, defs[n].pointers[0], {});
      LonePointer(n, defs[n].pointers[0], defs.Keys);
    }
    assert Parsed(defs, known, {}) == map[];
    assert a in Parsed(defs, known, defs.Keys);
    assert Left(defs, known, defs.Keys) == map[];
    LonePointer(a, b, defs.Keys);
  }
}
