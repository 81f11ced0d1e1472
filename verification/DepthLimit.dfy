/** What a depth limit costs: when a limited run of the dependency walk still lists every name
    within the limit. */
module DepthLimit {
  import opened Common
  import opened TypeModel
  import opened TypeWalk

  /** The output is exactly the undropped names that a path within the limit reaches. */
  ghost predicate Complete(c: Context, roots: seq<TypeRef>, limit: int) {
    forall n :: n in Run(c, roots, limit).order <==> Justified(c, AllLeaves(roots), 0, limit, n) && !Dropped(c, n)
  }

  lemma CompleteIfCovering(c: Context, roots: seq<TypeRef>, limit: int)
    requires forall n :: Justified(c, AllLeaves(roots), 0, limit, n) && !Dropped(c, n) ==>
               n in Run(c, roots, limit).emitted
    ensures Complete(c, roots, limit)
  {
    RunIsSound(c, roots, limit);
    WalkAllKeepsConsistent(c, roots, 0, limit, START);
    forall n | n in Run(c, roots, limit).order
      ensures Justified(c, AllLeaves(roots), 0, limit, n)
    {
      var p :| Visits(c, AllLeaves(roots), n, p) && !BeyondLimit(|p| - 1, limit);
      assert !BeyondLimit(0 + |p| - 1, limit);
    }
  }

  // ----- at a depth that the limit allows, every mentioned name is listed -----

  lemma {:induction false} WalkLists(c: Context, t: TypeRef, depth: nat, limit: int, s: State)
    requires Consistent(s) && !BeyondLimit(depth, limit)
    ensures s.emitted <= Walk(c, t, depth, limit, s).emitted
    ensures Covered(c, Walk(c, t, depth, limit, s), Leaves(t))
    decreases t
  {
    WalkKeepsConsistent(c, t, depth, limit, s);
    match t
    case Absent =>
    case Ptr(target) => WalkLists(c, target, depth, limit, s);
    case Arr(element) => WalkLists(c, element, depth, limit, s);
    case Func(ret, params) =>
      WalkLists(c, ret, depth, limit, s);
      WalkKeepsConsistent(c, ret, depth, limit, s);
      WalkAllLists(c, params, depth, limit, Walk(c, ret, depth, limit, s));
    case OpaqueFunc =>
    case Anon(_) =>
    case Named(name) =>
  }

  lemma {:induction false} WalkAllLists(c: Context, types: seq<TypeRef>, depth: nat, limit: int, s: State)
    requires Consistent(s) && !BeyondLimit(depth, limit)
    ensures s.emitted <= WalkAll(c, types, depth, limit, s).emitted
    ensures Covered(c, WalkAll(c, types, depth, limit, s), AllLeaves(types))
    decreases types
  {
    if types != [] {
      WalkLists(c, types[0], depth, limit, s);
      WalkKeepsConsistent(c, types[0], depth, limit, s);
      WalkAllLists(c, types[1..], depth, limit, Walk(c, types[0], depth, limit, s));
    }
  }

  /** No limit, or a limit that admits only the roots, is harmless. */
  lemma SmallLimitIsComplete(c: Context, roots: seq<TypeRef>, limit: int)
    requires limit <= 0
    ensures Complete(c, roots, limit)
  {
    WalkAllKeepsConsistent(c, roots, 0, limit, START);
    WalkAllLists(c, roots, 0, limit, START);
    forall n | Justified(c, AllLeaves(roots), 0, limit, n) && !Dropped(c, n)
      ensures n in Run(c, roots, limit).emitted
    {
      var p :| Visits(c, AllLeaves(roots), n, p) && !BeyondLimit(0 + |p| - 1, limit);
      if limit < 0 {
        RunEmitsExactlyReachable(c, roots, limit, n);
      } else {
        assert |p| == 1;
      }
    }
    CompleteIfCovering(c, roots, limit);
  }

  // ----- from single roots to all roots -----

  /** From any single name the limited walk lists all that the name reaches: the limit cuts nothing
      off. */
  ghost predicate CutsNothing(c: Context, limit: int) {
    forall x, n :: x != "" && Reachable(c, {x}, n) && !Dropped(c, n) ==>
      n in Walk(c, Named(x), 0, limit, START).emitted
  }

  ghost predicate ClosedSet(c: Context, names: set<string>) {
    Closed(c, State([], names, {}))
  }

  lemma WalkOnlyAdds(c: Context, t: TypeRef, depth: nat, limit: int, s: State)
    requires Consistent(s)
    ensures Consistent(Walk(c, t, depth, limit, s)) && s.emitted <= Walk(c, t, depth, limit, s).emitted
  {
    WalkKeepsConsistent(c, t, depth, limit, s);
  }

  /** A walk that starts at a name of a closed set emits only names of the set. */
  lemma WalkStaysInside(c: Context, name: string, depth: nat, limit: int, s: State, names: set<string>)
    requires ClosedSet(c, names) && name in names
    ensures Walk(c, Named(name), depth, limit, s).emitted <= s.emitted + names
  {
    var r := Walk(c, Named(name), depth, limit, s);
    WalkEmitsOnlyReachable(c, Named(name), depth, limit, s);
    forall n | n in r.emitted && n !in s.emitted
      ensures n in names
    {
      var p :| Visits(c, {name}, n, p) && !BeyondLimit(depth + |p| - 1, limit);
      PathIsEmitted(c, State([], names, {}), p, |p| - 1);
    }
  }

  /** Having a closed set of names emitted beforehand changes nothing about the other names. */
  lemma {:induction false} EarlierNamesDoNotMatter(c: Context, t: TypeRef, depth: nat, limit: int, s: State, q: State,
                                                   names: set<string>)
    requires ClosedSet(c, names) && Consistent(s) && s.onStack !! names
    requires q.emitted == s.emitted + names && q.onStack == s.onStack
    ensures Walk(c, t, depth, limit, q).emitted == Walk(c, t, depth, limit, s).emitted + names
    decreases c.lib.decls.Keys - s.onStack, t
  {
    match t
    case Absent =>
    case Ptr(target) => EarlierNamesDoNotMatter(c, target, depth, limit, s, q, names);
    case Arr(element) => EarlierNamesDoNotMatter(c, element, depth, limit, s, q, names);
    case Func(ret, params) =>
      EarlierNamesDoNotMatter(c, ret, depth, limit, s, q, names);
      WalkOnlyAdds(c, ret, depth, limit, s);
      var s1, q1 := Walk(c, ret, depth, limit, s), Walk(c, ret, depth, limit, q);
      EarlierNamesDoNotMatterToAll(c, params, depth, limit, s1, q1, names);
    case OpaqueFunc =>
    case Anon(_) =>
    case Named(name) =>
      if name in names {
        WalkStaysInside(c, name, depth, limit, s, names);
        WalkOnlyAdds(c, t, depth, limit, s);
      } else if !(name == "" || BeyondLimit(depth, limit) || name in s.emitted || name in s.onStack)
                && !Dropped(c, name) && PlanFor(c, name).types != [] {
        EarlierNamesDoNotMatterToAll(c, PlanFor(c, name).types, depth + 1, limit, s.(onStack := s.onStack + {name}),
                                     q.(onStack := q.onStack + {name}), names);
      }
  }

  lemma {:induction false} EarlierNamesDoNotMatterToAll(c: Context, types: seq<TypeRef>, depth: nat, limit: int,
                                                        s: State, q: State, names: set<string>)
    requires ClosedSet(c, names) && Consistent(s) && s.onStack !! names
    requires q.emitted == s.emitted + names && q.onStack == s.onStack
    ensures WalkAll(c, types, depth, limit, q).emitted == WalkAll(c, types, depth, limit, s).emitted + names
    decreases c.lib.decls.Keys - s.onStack, types
  {
    if types != [] {
      EarlierNamesDoNotMatter(c, types[0], depth, limit, s, q, names);
      WalkOnlyAdds(c, types[0], depth, limit, s);
      var s1, q1 := Walk(c, types[0], depth, limit, s), Walk(c, types[0], depth, limit, q);
      EarlierNamesDoNotMatterToAll(c, types[1..], depth, limit, s1, q1, names);
    }
  }

  /** If the limit cuts nothing off from single names, walking a root from a closed output leaves a
      closed output. */
  lemma NamedRootCloses(c: Context, name: string, limit: int, s: State)
    requires CutsNothing(c, limit) && Closed(c, s) && s.onStack == {} && name != ""
    ensures Closed(c, Walk(c, Named(name), 0, limit, s))
  {
    var alone, r := Walk(c, Named(name), 0, limit, START), Walk(c, Named(name), 0, limit, s);
    EarlierNamesDoNotMatter(c, Named(name), 0, limit, START, s, s.emitted);
    WalkEmitsOnlyReachable(c, Named(name), 0, limit, START);
    forall n | n in r.emitted
      ensures !Dropped(c, n) && Covered(c, r, Deps(c, n))
    {
      if n in alone.emitted {
        var p :| Visits(c, {name}, n, p) && !BeyondLimit(0 + |p| - 1, limit);
        forall k | k in Deps(c, n)
          ensures k in r.emitted || Dropped(c, k)
        {
          assert Visits(c, {name}, k, p + [k]);
        }
      }
    }
  }

  lemma {:induction false} RootWalkCloses(c: Context, t: TypeRef, limit: int, s: State)
    requires CutsNothing(c, limit) && Closed(c, s) && s.onStack == {}
    ensures Closed(c, Walk(c, t, 0, limit, s))
    decreases t
  {
    match t
    case Absent =>
    case Ptr(target) => RootWalkCloses(c, target, limit, s);
    case Arr(element) => RootWalkCloses(c, element, limit, s);
    case Func(ret, params) =>
      RootWalkCloses(c, ret, limit, s);
      RootWalksClose(c, params, limit, Walk(c, ret, 0, limit, s));
    case OpaqueFunc =>
    case Anon(_) =>
    case Named(name) =>
      if name != "" {
        NamedRootCloses(c, name, limit, s);
      }
  }

  lemma {:induction false} RootWalksClose(c: Context, types: seq<TypeRef>, limit: int, s: State)
    requires CutsNothing(c, limit) && Closed(c, s) && s.onStack == {}
    ensures Closed(c, WalkAll(c, types, 0, limit, s))
    decreases types
  {
    if types != [] {
      RootWalkCloses(c, types[0], limit, s);
      RootWalksClose(c, types[1..], limit, Walk(c, types[0], 0, limit, s));
    }
  }

  lemma UncutIsComplete(c: Context, roots: seq<TypeRef>, limit: int)
    requires CutsNothing(c, limit) && limit >= 0
    ensures Complete(c, roots, limit)
  {
    var r := Run(c, roots, limit);
    RootWalksClose(c, roots, limit, START);
    WalkAllLists(c, roots, 0, limit, START);
    forall n | Justified(c, AllLeaves(roots), 0, limit, n) && !Dropped(c, n)
      ensures n in r.emitted
    {
      var p :| Visits(c, AllLeaves(roots), n, p) && !BeyondLimit(0 + |p| - 1, limit);
      PathIsEmitted(c, r, p, |p| - 1);
    }
    CompleteIfCovering(c, roots, limit);
  }

  // ----- transitive dependencies -----

  /** What a dependency mentions is mentioned directly, or is the user itself, or is dropped. */
  ghost predicate Transitive(c: Context) {
    forall a, b, k :: a != "" && b in Deps(c, a) && k in Deps(c, b) ==> k in Deps(c, a) || k == a || Dropped(c, k)
  }

  lemma {:induction false} PathShortens(c: Context, p: seq<string>)
    requires Transitive(c) && IsPath(c, p) && p[0] != "" && !Dropped(c, p[|p| - 1])
    ensures p[|p| - 1] == p[0] || p[|p| - 1] in Deps(c, p[0])
    decreases |p|
  {
    if |p| > 1 {
      assert p[|p| - 2 + 1] in Deps(c, p[|p| - 2]);
      PathShortens(c, p[..|p| - 1]);
    }
  }

  /** Everything below a name is then one step away from it. */
  lemma TransitiveCutsNothing(c: Context, limit: int)
    requires Transitive(c) && limit >= 1
    ensures CutsNothing(c, limit)
  {
    forall x, n | x != "" && Reachable(c, {x}, n) && !Dropped(c, n)
      ensures n in Walk(c, Named(x), 0, limit, START).emitted
    {
      var p :| Visits(c, {x}, n, p);
      PathShortens(c, p);
      if n != x {
        var types, entered := PlanFor(c, x).types, START.(onStack := START.onStack + {x});
        if types != [] {
          WalkAllLists(c, types, 1, limit, entered);
        }
      }
    }
  }

  // ----- what a tolerated limit demands -----

  lemma {:induction false} LeavesHaveNames(t: TypeRef)
    ensures "" !in Leaves(t)
    decreases t
  {
    match t
    case Ptr(target) => LeavesHaveNames(target);
    case Arr(element) => LeavesHaveNames(element);
    case Func(ret, params) =>
      LeavesHaveNames(ret);
      AllLeavesHaveNames(params);
    case _ =>
  }

  lemma {:induction false} AllLeavesHaveNames(types: seq<TypeRef>)
    ensures "" !in AllLeaves(types)
    decreases types
  {
    if types != [] {
      LeavesHaveNames(types[0]);
      AllLeavesHaveNames(types[1..]);
    }
  }

  lemma DepsHaveNames(c: Context, name: string)
    ensures "" !in Deps(c, name)
  {
    if !Dropped(c, name) {
      AllLeavesHaveNames(PlanFor(c, name).types);
    }
  }

  lemma SingleRoot(c: Context, x: string, limit: int)
    requires x != ""
    ensures AllLeaves([Named(x)]) == {x} && Run(c, [Named(x)], limit) == Walk(c, Named(x), 0, limit, START)
  {
    var roots := [Named(x)];
    assert roots[1..] == [] && roots[0] == Named(x);
    assert Run(c, roots, limit) == WalkAll(c, [], 0, limit, Walk(c, roots[0], 0, limit, START));
  }

  /** A name that the first root already lists adds nothing as a second root. */
  lemma ListedRootAddsNothing(c: Context, a: string, b: string, limit: int)
    requires a != "" && b != "" && b in Run(c, [Named(a)], limit).order
    ensures Run(c, [Named(a), Named(b)], limit) == Run(c, [Named(a)], limit)
    ensures AllLeaves([Named(a)]) == {a} && AllLeaves([Named(a), Named(b)]) == {a, b}
  {
    assert [Named(a)][1..] == [] && [Named(a), Named(b)][1..] == [Named(b)] && [Named(b)][1..] == [];
    WalkAllKeepsConsistent(c, [Named(a)], 0, limit, START);
    var s := Walk(c, Named(a), 0, limit, START);
    assert Run(c, [Named(a)], limit) == s;
    assert WalkAll(c, [Named(b)], 0, limit, s) == Walk(c, Named(b), 0, limit, s) == s;
    assert AllLeaves([Named(b)]) == {b};
  }

  /** If a context tolerates a limit for all roots, a dependency of something within the limit is
      itself within the limit. */
  lemma TolerantStep(c: Context, limit: int, a: string, b: string, n: string) returns (q: seq<string>)
    requires limit >= 1 && forall roots :: Complete(c, roots, limit)
    requires a != "" && b != "" && Justified(c, {a}, 0, limit, b) && n in Deps(c, b) && !Dropped(c, n)
    ensures Visits(c, {a}, n, q) && |q| - 1 <= limit
  {
    SingleRoot(c, a, limit);
    assert Complete(c, [Named(a)], limit);
    ListedRootAddsNothing(c, a, b, limit);
    assert Complete(c, [Named(a), Named(b)], limit);
    assert Visits(c, {a, b}, n, [b, n]) && !BeyondLimit(0 + |[b, n]| - 1, limit);
    assert Justified(c, {a, b}, 0, limit, n);
    RunIsSound(c, [Named(a)], limit);
    q :| Visits(c, {a}, n, q) && !BeyondLimit(|q| - 1, limit);
  }

  /** So whatever undropped name can be reached from a name can be reached within the limit. */
  lemma {:induction false} TolerantPathsAreShort(c: Context, limit: int, p: seq<string>) returns (q: seq<string>)
    requires limit >= 1 && forall roots :: Complete(c, roots, limit)
    requires IsPath(c, p) && p[0] != "" && !Dropped(c, p[|p| - 1])
    ensures Visits(c, {p[0]}, p[|p| - 1], q) && |q| - 1 <= limit
    decreases |p|
  {
    q := p;
    if |p| > 1 {
      var a, b := p[0], p[|p| - 2];
      assert p[|p| - 2 + 1] in Deps(c, b);
      if |p| > 2 {
        DepsHaveNames(c, p[|p| - 3]);
        assert p[|p| - 3 + 1] in Deps(c, p[|p| - 3]);
      }
      var front := TolerantPathsAreShort(c, limit, p[..|p| - 1]);
      assert Visits(c, {a}, b, front) && !BeyondLimit(0 + |front| - 1, limit);
      q := TolerantStep(c, limit, a, b, p[|p| - 1]);
    }
  }

  /** For a given context and a positive limit: nothing is lost for any roots exactly when the limit
      cuts nothing off from any single name. */
  lemma CompleteForContextIff(c: Context, limit: int)
    requires limit >= 1
    ensures (forall roots :: Complete(c, roots, limit)) <==> CutsNothing(c, limit)
  {
    if CutsNothing(c, limit) {
      forall roots
        ensures Complete(c, roots, limit)
      {
        UncutIsComplete(c, roots, limit);
      }
    }
    if forall roots :: Complete(c, roots, limit) {
      forall x, n | x != "" && Reachable(c, {x}, n) && !Dropped(c, n)
        ensures n in Walk(c, Named(x), 0, limit, START).emitted
      {
        var p :| Visits(c, {x}, n, p);
        var q := TolerantPathsAreShort(c, limit, p);
        SingleRoot(c, x, limit);
        assert Complete(c, [Named(x)], limit);
        assert Visits(c, {x}, n, q) && !BeyondLimit(0 + |q| - 1, limit);
        WalkAllKeepsConsistent(c, [Named(x)], 0, limit, START);
      }
    }
  }

  lemma TolerantOfOneIsTransitive(c: Context)
    requires forall roots :: Complete(c, roots, 1)
    ensures Transitive(c)
  {
    forall a, b, k | a != "" && b in Deps(c, a) && k in Deps(c, b) && !Dropped(c, k)
      ensures k in Deps(c, a) || k == a
    {
      var p := [a, b, k];
      assert IsPath(c, p);
      var q := TolerantPathsAreShort(c, 1, p);
      if |q| == 2 {
        assert q[0 + 1] in Deps(c, q[0]);
      }
    }
  }

  /** For a given context: a limit of one is harmless for all roots exactly when the dependencies
      are transitive. */
  lemma LimitOneCompleteIff(c: Context)
    ensures (forall roots :: Complete(c, roots, 1)) <==> Transitive(c)
  {
    if Transitive(c) {
      forall roots
        ensures Complete(c, roots, 1)
      {
        TransitiveCutsNothing(c, 1);
        UncutIsComplete(c, roots, 1);
      }
    } else if forall roots :: Complete(c, roots, 1) {
      TolerantOfOneIsTransitive(c);
    }
  }

  /** For a given context: every limit is harmless for all roots exactly then. */
  lemma EveryLimitCompleteIff(c: Context)
    ensures (forall roots, limit :: Complete(c, roots, limit)) <==> Transitive(c)
  {
    if Transitive(c) {
      forall roots, limit
        ensures Complete(c, roots, limit)
      {
        if limit >= 1 {
          TransitiveCutsNothing(c, limit);
          UncutIsComplete(c, roots, limit);
        } else {
          SmallLimitIsComplete(c, roots, limit);
        }
      }
    } else if forall roots, limit :: Complete(c, roots, limit) {
      assert forall roots :: Complete(c, roots, 1);
      TolerantOfOneIsTransitive(c);
    }
  }

  // ----- a chain of names defeats every positive limit -----

  function Link(i: nat): (s: string)
    ensures |s| == i + 1
  {
    seq(i + 1, _ => 'a')
  }

  function Links(n: nat): set<string> {
    set i | 0 <= i < n :: Link(i)
  }

  /** Struct `i` has one member, of type struct `i + 1`. */
  function Chain(n: nat): Context {
    var decls := map s | s in Links(n) :: Udt(false, [Member(Named(Link(|s|)), 0, 0, false)], 0);
    Context(Library(decls, map[], map[]), false, map[])
  }

  lemma ChainDeps(n: nat, i: nat)
    ensures Deps(Chain(n), Link(i)) == if i < n then {Link(i + 1)} else {}
    ensures !Dropped(Chain(n), Link(i))
  {
    if i < n {
      assert Link(i) in Links(n);
      var types := [Named(Link(i + 1))];
      assert types[1..] == [];
      var members := Chain(n).lib.decls[Link(i)].members;
      assert members[1..] == [];
      assert KeptTypes(members, None) == types;
      assert PlanFor(Chain(n), Link(i)) == Visit(types);
      assert Link(i + 1) != "" && AllLeaves(types) == {Link(i + 1)};
    } else {
      assert forall j: nat :: j < n ==> |Link(j)| != |Link(i)|;
    }
  }

  lemma {:induction false} ChainPath(n: nat, p: seq<string>, k: nat)
    requires IsPath(Chain(n), p) && p[0] == Link(0) && k < |p|
    ensures p[k] == Link(k)
  {
    if k > 0 {
      ChainPath(n, p, k - 1);
      ChainDeps(n, k - 1);
      assert p[k - 1 + 1] in Deps(Chain(n), p[k - 1]);
    }
  }

  /** The chain's only path to its last name is longer than the limit. */
  lemma ChainDefeats(c: Context, limit: int)
    requires limit >= 1 && c == Chain(limit + 1)
    ensures !forall roots :: Complete(c, roots, limit)
  {
    var p := seq(limit + 2, i requires 0 <= i < limit + 2 => Link(i));
    forall i | 0 <= i < limit + 1
      ensures p[i + 1] in Deps(c, p[i])
    {
      ChainDeps(limit + 1, i);
    }
    ChainDeps(limit + 1, limit + 1);
    if forall roots :: Complete(c, roots, limit) {
      var q := TolerantPathsAreShort(c, limit, p);
      ChainPath(limit + 1, q, |q| - 1);
      assert false;
    }
  }

  /** For every positive limit some context and roots lack a name within the limit. */
  lemma DepthLimitIsIncomplete(limit: int) returns (c: Context, roots: seq<TypeRef>, n: string)
    requires limit >= 1
    ensures Justified(c, AllLeaves(roots), 0, limit, n) && !Dropped(c, n)
    ensures n !in Run(c, roots, limit).order
  {
    c := Chain(limit + 1);
    ChainDefeats(c, limit);
    roots :| !Complete(c, roots, limit);
    WalkAllKeepsConsistent(c, roots, 0, limit, START);
    if forall k :: Justified(c, AllLeaves(roots), 0, limit, k) && !Dropped(c, k) ==> k in Run(c, roots, limit).emitted {
      CompleteIfCovering(c, roots, limit);
      assert false;
    }
    n :| Justified(c, AllLeaves(roots), 0, limit, n) && !Dropped(c, n) && n !in Run(c, roots, limit).emitted;
  }

  /** A limit is harmless for all contexts and roots exactly when it is negative, which means no
      limit, or zero. */
  lemma LimitCompleteIff(limit: int)
    ensures (forall c, roots :: Complete(c, roots, limit)) <==> limit <= 0
  {
    if limit <= 0 {
      forall c, roots
        ensures Complete(c, roots, limit)
      {
        SmallLimitIsComplete(c, roots, limit);
      }
    } else {
      var c, roots, n := DepthLimitIsIncomplete(limit);
      assert !Complete(c, roots, limit);
    }
  }
}
