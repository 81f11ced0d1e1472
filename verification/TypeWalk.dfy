/** The depth-first dependency walk of the declaration formatter, and the second walk behind
    `declarations_for_ordinals`.  Both may meet cycles in the type graph. */
module TypeWalk {
  import opened Common
  import opened TypeModel

  /** The three containers that `walk` receives by reference. */
  datatype State = State(order: seq<string>, emitted: set<string>, onStack: set<string>)

  const START := State([], {}, {})

  predicate BeyondLimit(depth: nat, limit: int) {
    limit >= 0 && depth > limit
  }

  function Walk(c: Context, t: TypeRef, depth: nat, limit: int, s: State): (r: State)
    ensures r.onStack == s.onStack
    decreases c.lib.decls.Keys - s.onStack, t
  {
    match t
    case Absent => s
    case Ptr(target) => Walk(c, target, depth, limit, s)
    case Arr(element) => Walk(c, element, depth, limit, s)
    case Func(ret, params) => WalkAll(c, params, depth, limit, Walk(c, ret, depth, limit, s))
    case OpaqueFunc => s
    case Anon(_) => s
    case Named(name) =>
      if name == "" || BeyondLimit(depth, limit) || name in s.emitted || name in s.onStack then s
      else
        match PlanFor(c, name)
        case Drop => s
        case Visit(types) =>
          var entered := s.(onStack := s.onStack + {name});
          var inner := if types == [] then entered else WalkAll(c, types, depth + 1, limit, entered);
          State(inner.order + [name], inner.emitted + {name}, inner.onStack - {name})
  }

  function WalkAll(c: Context, types: seq<TypeRef>, depth: nat, limit: int, s: State): (r: State)
    ensures r.onStack == s.onStack
    decreases c.lib.decls.Keys - s.onStack, types
  {
    if types == [] then s
    else WalkAll(c, types[1..], depth, limit, Walk(c, types[0], depth, limit, s))
  }

  // ----- the type graph, without reference to any walk -----

  function Leaves(t: TypeRef): set<string> {
    match t
    case Absent => {}
    case Ptr(target) => Leaves(target)
    case Arr(element) => Leaves(element)
    case Func(ret, params) => Leaves(ret) + AllLeaves(params)
    case OpaqueFunc => {}
    case Anon(_) => {}
    case Named(name) => if name == "" then {} else {name}
  }

  function AllLeaves(types: seq<TypeRef>): set<string> {
    if types == [] then {} else Leaves(types[0]) + AllLeaves(types[1..])
  }

  /** The names that the kept members of `name` mention. */
  function Deps(c: Context, name: string): set<string> {
    match PlanFor(c, name)
    case Drop => {}
    case Visit(types) => AllLeaves(types)
  }

  ghost predicate IsPath(c: Context, p: seq<string>) {
    p != [] && forall i :: 0 <= i < |p| - 1 ==> p[i + 1] in Deps(c, p[i])
  }

  /** `p` leads from `a` to `b` over at least one dependency. */
  ghost predicate Leads(c: Context, a: string, b: string, p: seq<string>) {
    |p| >= 2 && IsPath(c, p) && p[0] == a && p[|p| - 1] == b
  }

  ghost predicate DependsOn(c: Context, a: string, b: string) {
    exists p :: Leads(c, a, b, p)
  }

  /** `p` leads from a root to `n`, over |p| - 1 dependencies. */
  ghost predicate Visits(c: Context, roots: set<string>, n: string, p: seq<string>) {
    IsPath(c, p) && p[0] in roots && p[|p| - 1] == n
  }

  ghost predicate Reachable(c: Context, roots: set<string>, n: string) {
    exists p :: Visits(c, roots, n, p)
  }

  // ----- what every walk keeps -----

  ghost predicate Consistent(s: State) {
    && NoRepeats(s.order)
    && (forall n :: n in s.emitted <==> n in s.order)
    && s.emitted !! s.onStack
  }

  /** The output only grows, lists no name twice, and never lists a name that is on the stack. */
  lemma {:induction false} WalkKeepsConsistent(c: Context, t: TypeRef, depth: nat, limit: int, s: State)
    requires Consistent(s)
    ensures Consistent(Walk(c, t, depth, limit, s))
    ensures s.order <= Walk(c, t, depth, limit, s).order
    decreases c.lib.decls.Keys - s.onStack, t
  {
    match t
    case Absent =>
    case Ptr(target) => WalkKeepsConsistent(c, target, depth, limit, s);
    case Arr(element) => WalkKeepsConsistent(c, element, depth, limit, s);
    case Func(ret, params) =>
      WalkKeepsConsistent(c, ret, depth, limit, s);
      WalkAllKeepsConsistent(c, params, depth, limit, Walk(c, ret, depth, limit, s));
    case OpaqueFunc =>
    case Anon(_) =>
    case Named(name) =>
      if !(name == "" || BeyondLimit(depth, limit) || name in s.emitted || name in s.onStack) && !Dropped(c, name) {
        var types := PlanFor(c, name).types;
        var entered := s.(onStack := s.onStack + {name});
        if types != [] {
          WalkAllKeepsConsistent(c, types, depth + 1, limit, entered);
        }
      }
  }

  lemma {:induction false} WalkAllKeepsConsistent(c: Context, types: seq<TypeRef>, depth: nat, limit: int, s: State)
    requires Consistent(s)
    ensures Consistent(WalkAll(c, types, depth, limit, s))
    ensures s.order <= WalkAll(c, types, depth, limit, s).order
    decreases c.lib.decls.Keys - s.onStack, types
  {
    if types != [] {
      WalkKeepsConsistent(c, types[0], depth, limit, s);
      WalkAllKeepsConsistent(c, types[1..], depth, limit, Walk(c, types[0], depth, limit, s));
    }
  }

  // ----- completeness without a depth limit -----

  ghost predicate Covered(c: Context, s: State, names: set<string>) {
    forall k :: k in names ==> k in s.emitted || k in s.onStack || Dropped(c, k)
  }

  ghost predicate Closed(c: Context, s: State) {
    forall n :: n in s.emitted ==> !Dropped(c, n) && Covered(c, s, Deps(c, n))
  }

  /** On return, each name the type mentions is emitted, dropped, or still on the stack; the
      same holds, at every emission, of the names its kept members mention. */
  lemma {:induction false} WalkCovers(c: Context, t: TypeRef, depth: nat, limit: int, s: State)
    requires limit < 0 && Closed(c, s)
    ensures Closed(c, Walk(c, t, depth, limit, s))
    ensures s.emitted <= Walk(c, t, depth, limit, s).emitted
    ensures Covered(c, Walk(c, t, depth, limit, s), Leaves(t))
    decreases c.lib.decls.Keys - s.onStack, t
  {
    match t
    case Absent =>
    case Ptr(target) => WalkCovers(c, target, depth, limit, s);
    case Arr(element) => WalkCovers(c, element, depth, limit, s);
    case Func(ret, params) =>
      WalkCovers(c, ret, depth, limit, s);
      WalkAllCovers(c, params, depth, limit, Walk(c, ret, depth, limit, s));
    case OpaqueFunc =>
    case Anon(_) =>
    case Named(name) =>
      if !(name == "" || name in s.emitted || name in s.onStack) && !Dropped(c, name) {
        var types := PlanFor(c, name).types;
        var entered := s.(onStack := s.onStack + {name});
        assert Closed(c, entered);
        if types != [] {
          WalkAllCovers(c, types, depth + 1, limit, entered);
        }
      }
  }

  lemma {:induction false} WalkAllCovers(c: Context, types: seq<TypeRef>, depth: nat, limit: int, s: State)
    requires limit < 0 && Closed(c, s)
    ensures Closed(c, WalkAll(c, types, depth, limit, s))
    ensures s.emitted <= WalkAll(c, types, depth, limit, s).emitted
    ensures Covered(c, WalkAll(c, types, depth, limit, s), AllLeaves(types))
    decreases c.lib.decls.Keys - s.onStack, types
  {
    if types != [] {
      WalkCovers(c, types[0], depth, limit, s);
      WalkAllCovers(c, types[1..], depth, limit, Walk(c, types[0], depth, limit, s));
    }
  }

  /** The state in which `name` is pushed to the output: every name its kept members mention
      is already emitted, is dropped, or is on the walk's stack (`name` itself included). */
  lemma EmissionSeesDependencies(c: Context, name: string, depth: nat, limit: int, s: State)
    returns (inner: State)
    requires limit < 0 && Closed(c, s)
    requires name != "" && name !in s.emitted && name !in s.onStack && !Dropped(c, name)
    ensures Walk(c, Named(name), depth, limit, s)
         == State(inner.order + [name], inner.emitted + {name}, s.onStack)
    ensures inner.onStack == s.onStack + {name}
    ensures Covered(c, inner, Deps(c, name))
  {
    var types := PlanFor(c, name).types;
    var entered := s.(onStack := s.onStack + {name});
    inner := entered;
    assert Closed(c, entered);
    if types != [] {
      inner := WalkAll(c, types, depth + 1, limit, entered);
      WalkAllCovers(c, types, depth + 1, limit, entered);
    }
    assert inner.onStack - {name} == s.onStack;
  }

  // ----- soundness, with or without a depth limit -----

  /** `n` is emitted because a path from the walked type leads to it, within the depth limit. */
  ghost predicate Justified(c: Context, roots: set<string>, depth: nat, limit: int, n: string) {
    exists p :: Visits(c, roots, n, p) && !BeyondLimit(depth + |p| - 1, limit)
  }

  ghost predicate NewJustified(c: Context, roots: set<string>, depth: nat, limit: int, s: State, r: State) {
    forall n :: n in r.emitted && n !in s.emitted ==> !Dropped(c, n) && Justified(c, roots, depth, limit, n)
  }

  lemma {:induction false} WalkEmitsOnlyReachable(c: Context, t: TypeRef, depth: nat, limit: int, s: State)
    ensures NewJustified(c, Leaves(t), depth, limit, s, Walk(c, t, depth, limit, s))
    decreases c.lib.decls.Keys - s.onStack, t
  {
    match t
    case Absent =>
    case Ptr(target) => WalkEmitsOnlyReachable(c, target, depth, limit, s);
    case Arr(element) => WalkEmitsOnlyReachable(c, element, depth, limit, s);
    case Func(ret, params) =>
      var mid := Walk(c, ret, depth, limit, s);
      WalkEmitsOnlyReachable(c, ret, depth, limit, s);
      WalkAllEmitsOnlyReachable(c, params, depth, limit, mid);
      Widen(c, Leaves(ret), Leaves(t), depth, limit, s, mid);
      Widen(c, AllLeaves(params), Leaves(t), depth, limit, mid, Walk(c, t, depth, limit, s));
    case OpaqueFunc =>
    case Anon(_) =>
    case Named(name) =>
      if !(name == "" || BeyondLimit(depth, limit) || name in s.emitted || name in s.onStack) && !Dropped(c, name) {
        var types := PlanFor(c, name).types;
        var entered := s.(onStack := s.onStack + {name});
        assert Visits(c, {name}, name, [name]);
        if types != [] {
          var inner := WalkAll(c, types, depth + 1, limit, entered);
          WalkAllEmitsOnlyReachable(c, types, depth + 1, limit, entered);
          forall n | n in inner.emitted && n !in s.emitted
            ensures !Dropped(c, n) && Justified(c, {name}, depth, limit, n)
          {
            StepUp(c, name, depth, limit, n);
          }
        }
      }
  }

  /** What a dependency of `name` leads to, `name` leads to with one more step. */
  lemma StepUp(c: Context, name: string, depth: nat, limit: int, n: string)
    requires Justified(c, Deps(c, name), depth + 1, limit, n)
    ensures Justified(c, {name}, depth, limit, n)
  {
    var p :| Visits(c, Deps(c, name), n, p) && !BeyondLimit(depth + 1 + |p| - 1, limit);
    assert Visits(c, {name}, n, [name] + p);
    assert !BeyondLimit(depth + |[name] + p| - 1, limit);
  }

  lemma {:induction false} WalkAllEmitsOnlyReachable(c: Context, types: seq<TypeRef>, depth: nat, limit: int, s: State)
    ensures NewJustified(c, AllLeaves(types), depth, limit, s, WalkAll(c, types, depth, limit, s))
    decreases c.lib.decls.Keys - s.onStack, types
  {
    if types != [] {
      var mid := Walk(c, types[0], depth, limit, s);
      WalkEmitsOnlyReachable(c, types[0], depth, limit, s);
      WalkAllEmitsOnlyReachable(c, types[1..], depth, limit, mid);
      Widen(c, Leaves(types[0]), AllLeaves(types), depth, limit, s, mid);
      Widen(c, AllLeaves(types[1..]), AllLeaves(types), depth, limit, mid, WalkAll(c, types, depth, limit, s));
    }
  }

  lemma Widen(c: Context, few: set<string>, many: set<string>, depth: nat, limit: int, s: State, r: State)
    requires few <= many
    requires NewJustified(c, few, depth, limit, s, r)
    ensures NewJustified(c, many, depth, limit, s, r)
  {
  }

  // ----- a whole run -----

  function Run(c: Context, roots: seq<TypeRef>, limit: int): (r: State) {
    WalkAll(c, roots, 0, limit, START)
  }

  /** Every run leaves the stack empty, emits no name twice, and emits a name only if some
      path from the roots within the depth limit reaches it. */
  lemma RunIsSound(c: Context, roots: seq<TypeRef>, limit: int)
    ensures var r := Run(c, roots, limit);
            && r.onStack == {}
            && NoRepeats(r.order)
            && forall n :: n in r.order ==>
                 !Dropped(c, n) && exists p :: Visits(c, AllLeaves(roots), n, p) && (limit < 0 || |p| - 1 <= limit)
  {
    var r := Run(c, roots, limit);
    WalkAllKeepsConsistent(c, roots, 0, limit, START);
    WalkAllEmitsOnlyReachable(c, roots, 0, limit, START);
    forall n | n in r.order
      ensures !Dropped(c, n) && exists p :: Visits(c, AllLeaves(roots), n, p) && (limit < 0 || |p| - 1 <= limit)
    {
      assert n in r.emitted && Justified(c, AllLeaves(roots), 0, limit, n);
      var p :| Visits(c, AllLeaves(roots), n, p) && !BeyondLimit(0 + |p| - 1, limit);
      assert !BeyondLimit(|p| - 1, limit);
    }
  }

  lemma {:induction false} PathIsEmitted(c: Context, s: State, p: seq<string>, k: nat)
    requires Closed(c, s) && s.onStack == {} && IsPath(c, p) && k < |p|
    requires p[0] in s.emitted || Dropped(c, p[0])
    ensures p[k] in s.emitted || (Dropped(c, p[k]) && k == |p| - 1)
  {
    if k < |p| - 1 {
      assert p[k + 1] in Deps(c, p[k]);  // so p[k] is not dropped
    }
    if k > 0 {
      PathIsEmitted(c, s, p, k - 1);
      assert p[k - 1 + 1] in Deps(c, p[k - 1]);
    }
  }

  /** Without a depth limit the output is exactly the set of reachable names that trimming
      does not drop, on cyclic and acyclic graphs alike. */
  lemma RunEmitsExactlyReachable(c: Context, roots: seq<TypeRef>, limit: int, n: string)
    requires limit < 0
    ensures n in Run(c, roots, limit).order <==> Reachable(c, AllLeaves(roots), n) && !Dropped(c, n)
  {
    var r := Run(c, roots, limit);
    RunIsSound(c, roots, limit);
    WalkAllKeepsConsistent(c, roots, 0, limit, START);
    WalkAllCovers(c, roots, 0, limit, START);
    if Reachable(c, AllLeaves(roots), n) && !Dropped(c, n) {
      var p :| Visits(c, AllLeaves(roots), n, p);
      PathIsEmitted(c, r, p, |p| - 1);
    }
  }

  // ----- order -----

  /** Each entry comes after everything its kept members mention, dropped names aside. */
  ghost predicate DependenciesFirst(c: Context, order: seq<string>) {
    forall i, k :: 0 <= i < |order| && k in Deps(c, order[i]) ==> k in order[..i] || Dropped(c, k)
  }

  ghost predicate AcyclicFrom(c: Context, roots: set<string>) {
    forall n :: Reachable(c, roots, n) ==> !DependsOn(c, n, n)
  }

  ghost predicate StackLeadsTo(c: Context, s: State, names: set<string>) {
    forall x, k :: x in s.onStack && k in names ==> DependsOn(c, x, k)
  }

  lemma EdgeDepends(c: Context, a: string, b: string)
    requires b in Deps(c, a)
    ensures DependsOn(c, a, b)
  {
    assert Leads(c, a, b, [a, b]);
  }

  lemma DependsThenEdge(c: Context, a: string, m: string, b: string)
    requires DependsOn(c, a, m) && b in Deps(c, m)
    ensures DependsOn(c, a, b)
  {
    var p :| Leads(c, a, m, p);
    assert Leads(c, a, b, p + [b]);
  }

  lemma RootIsReachable(c: Context, roots: set<string>, n: string)
    requires n in roots
    ensures Reachable(c, roots, n)
  {
    assert Visits(c, roots, n, [n]);
  }

  lemma AcyclicBelow(c: Context, name: string, roots: set<string>, below: set<string>)
    requires AcyclicFrom(c, roots)
    requires below <= roots || (name in roots && below <= Deps(c, name))
    ensures AcyclicFrom(c, below)
  {
    forall n | Reachable(c, below, n)
      ensures !DependsOn(c, n, n)
    {
      var p :| Visits(c, below, n, p);
      if below <= roots {
        assert Visits(c, roots, n, p);
      } else {
        assert Visits(c, roots, n, [name] + p);
      }
    }
  }

  lemma {:induction false} WalkOrders(c: Context, t: TypeRef, depth: nat, limit: int, s: State)
    requires limit < 0 && Consistent(s) && Closed(c, s) && DependenciesFirst(c, s.order)
    requires AcyclicFrom(c, Leaves(t)) && StackLeadsTo(c, s, Leaves(t))
    ensures DependenciesFirst(c, Walk(c, t, depth, limit, s).order)
    decreases c.lib.decls.Keys - s.onStack, t
  {
    match t
    case Absent =>
    case Ptr(target) => WalkOrders(c, target, depth, limit, s);
    case Arr(element) => WalkOrders(c, element, depth, limit, s);
    case Func(ret, params) =>
      var mid := Walk(c, ret, depth, limit, s);
      AcyclicBelow(c, "", Leaves(t), Leaves(ret));
      WalkOrders(c, ret, depth, limit, s);
      WalkKeepsConsistent(c, ret, depth, limit, s);
      WalkCovers(c, ret, depth, limit, s);
      AcyclicBelow(c, "", Leaves(t), AllLeaves(params));
      WalkAllOrders(c, params, depth, limit, mid);
    case OpaqueFunc =>
    case Anon(_) =>
    case Named(name) =>
      if !(name == "" || name in s.emitted || name in s.onStack) && !Dropped(c, name) {
        WalkNamedOrders(c, name, depth, limit, s);
      }
  }

  /** The step that emits a name.  A dependency still on the stack would close a cycle. */
  lemma {:induction false} WalkNamedOrders(c: Context, name: string, depth: nat, limit: int, s: State)
    requires limit < 0 && Consistent(s) && Closed(c, s) && DependenciesFirst(c, s.order)
    requires AcyclicFrom(c, {name}) && StackLeadsTo(c, s, {name})
    requires name != "" && name !in s.emitted && name !in s.onStack && !Dropped(c, name)
    ensures DependenciesFirst(c, Walk(c, Named(name), depth, limit, s).order)
    decreases c.lib.decls.Keys - s.onStack, Named(name), 0
  {
    var types := PlanFor(c, name).types;
    var entered := s.(onStack := s.onStack + {name});
    var inner := if types == [] then entered else WalkAll(c, types, depth + 1, limit, entered);
    assert Closed(c, entered);
    if types != [] {
      forall x, k | x in entered.onStack && k in AllLeaves(types)
        ensures DependsOn(c, x, k)
      {
        if x == name {
          EdgeDepends(c, name, k);
        } else {
          DependsThenEdge(c, x, name, k);
        }
      }
      AcyclicBelow(c, name, {name}, AllLeaves(types));
      WalkAllOrders(c, types, depth + 1, limit, entered);
      WalkAllCovers(c, types, depth + 1, limit, entered);
      WalkAllKeepsConsistent(c, types, depth + 1, limit, entered);
    }
    RootIsReachable(c, {name}, name);
    forall k | k in Deps(c, name)
      ensures k in inner.order || Dropped(c, k)
    {
      EdgeDepends(c, name, k);
      if k in s.onStack {
        DependsThenEdge(c, k, name, k);
        assert Visits(c, {name}, k, [name, k]);
        assert Reachable(c, {name}, k);
      }
    }
    AppendKeepsOrder(c, inner.order, name);
  }

  lemma AppendKeepsOrder(c: Context, order: seq<string>, name: string)
    requires DependenciesFirst(c, order)
    requires forall k :: k in Deps(c, name) ==> k in order || Dropped(c, k)
    ensures DependenciesFirst(c, order + [name])
  {
    forall i, k | 0 <= i < |order| + 1 && k in Deps(c, (order + [name])[i])
      ensures k in (order + [name])[..i] || Dropped(c, k)
    {
      assert (order + [name])[..i] == order[..i];
      if i == |order| {
        assert order[..i] == order;
      }
    }
  }

  lemma {:induction false} WalkAllOrders(c: Context, types: seq<TypeRef>, depth: nat, limit: int, s: State)
    requires limit < 0 && Consistent(s) && Closed(c, s) && DependenciesFirst(c, s.order)
    requires AcyclicFrom(c, AllLeaves(types)) && StackLeadsTo(c, s, AllLeaves(types))
    ensures DependenciesFirst(c, WalkAll(c, types, depth, limit, s).order)
    decreases c.lib.decls.Keys - s.onStack, types
  {
    if types != [] {
      AcyclicBelow(c, "", AllLeaves(types), Leaves(types[0]));
      WalkOrders(c, types[0], depth, limit, s);
      WalkKeepsConsistent(c, types[0], depth, limit, s);
      WalkCovers(c, types[0], depth, limit, s);
      AcyclicBelow(c, "", AllLeaves(types), AllLeaves(types[1..]));
      WalkAllOrders(c, types[1..], depth, limit, Walk(c, types[0], depth, limit, s));
    }
  }

  lemma {:induction false} PathGoesBack(c: Context, order: seq<string>, p: seq<string>, i: nat, j: nat)
    requires DependenciesFirst(c, order) && IsPath(c, p)
    requires forall k :: 0 <= k < |p| ==> p[k] in order && !Dropped(c, p[k])
    requires i < |order| && order[i] == p[0]
    requires NoRepeats(order) && j < |order| && order[j] == p[|p| - 1]
    ensures j <= i && (|p| >= 2 ==> j < i)
    decreases |p|
  {
    if |p| >= 2 {
      assert p[0 + 1] in Deps(c, order[i]);
      var m :| 0 <= m < i && order[m] == p[1];
      PathGoesBack(c, order, p[1..], m, j);
    }
  }

  /** Without a depth limit, every dependency precedes its user exactly when no cycle, pointer
      cycles included, can be reached from the roots. */
  lemma DependenciesFirstIffAcyclic(c: Context, roots: seq<TypeRef>, limit: int)
    requires limit < 0
    ensures DependenciesFirst(c, Run(c, roots, limit).order) <==> AcyclicFrom(c, AllLeaves(roots))
  {
    var r := Run(c, roots, limit);
    if AcyclicFrom(c, AllLeaves(roots)) {
      WalkAllOrders(c, roots, 0, limit, START);
    }
    if DependenciesFirst(c, r.order) {
      RunIsSound(c, roots, limit);
      forall n | Reachable(c, AllLeaves(roots), n)
        ensures !DependsOn(c, n, n)
      {
        if DependsOn(c, n, n) {
          var p :| Leads(c, n, n, p);
          CycleIsEmitted(c, roots, limit, n, p);
          var i :| 0 <= i < |r.order| && r.order[i] == n;
          PathGoesBack(c, r.order, p, i, i);
          assert false;
        }
      }
    }
  }

  lemma CycleIsEmitted(c: Context, roots: seq<TypeRef>, limit: int, n: string, p: seq<string>)
    requires limit < 0 && Reachable(c, AllLeaves(roots), n) && Leads(c, n, n, p)
    ensures forall k :: 0 <= k < |p| ==> p[k] in Run(c, roots, limit).order && !Dropped(c, p[k])
  {
    var q :| Visits(c, AllLeaves(roots), n, q);
    forall k | 0 <= k < |p|
      ensures p[k] in Run(c, roots, limit).order && !Dropped(c, p[k])
    {
      assert Visits(c, AllLeaves(roots), p[k], q + p[1..k + 1]);
      if k < |p| - 1 {
        assert p[k + 1] in Deps(c, p[k]);
      } else {
        assert p[0 + 1] in Deps(c, p[0]);
      }
      RunEmitsExactlyReachable(c, roots, limit, p[k]);
    }
  }

  // ----- the second walk -----

  /** The result list and the `seen` set that the lambda captures. */
  datatype Listing = Listing(result: seq<string>, seen: set<string>)

  function MemberTypes(lib: Library, name: string): (types: seq<TypeRef>)
    ensures types != [] ==> name in lib.decls
  {
    if name in lib.decls then KeptTypes(lib.decls[name].members, None) else []
  }

  function List(lib: Library, t: TypeRef, s: Listing): (r: Listing)
    ensures s.seen <= r.seen
    decreases lib.decls.Keys - s.seen, t
  {
    match t
    case Absent => s
    case Ptr(target) => List(lib, target, s)
    case Arr(element) => List(lib, element, s)
    case Func(ret, params) => ListAll(lib, params, List(lib, ret, s))
    case OpaqueFunc => s
    case Anon(_) => s
    case Named(name) =>
      if name == "" || name in s.seen then s
      else
        var types := MemberTypes(lib, name);
        var entered := s.(seen := s.seen + {name});
        var inner := if types == [] then entered else ListAll(lib, types, entered);
        inner.(result := inner.result + [name])
  }

  function ListAll(lib: Library, types: seq<TypeRef>, s: Listing): (r: Listing)
    ensures s.seen <= r.seen
    decreases lib.decls.Keys - s.seen, types
  {
    if types == [] then s else ListAll(lib, types[1..], List(lib, types[0], s))
  }

  function AsListing(s: State): Listing {
    Listing(s.order, s.emitted + s.onStack)
  }

  /** The two walks run in step: `seen` is what is emitted or on the stack. */
  lemma {:induction false} WalksAgree(c: Context, t: TypeRef, depth: nat, limit: int, s: State)
    requires !c.trim && limit < 0
    ensures List(c.lib, t, AsListing(s)) == AsListing(Walk(c, t, depth, limit, s))
    decreases c.lib.decls.Keys - s.onStack, t
  {
    match t
    case Absent =>
    case Ptr(target) => WalksAgree(c, target, depth, limit, s);
    case Arr(element) => WalksAgree(c, element, depth, limit, s);
    case Func(ret, params) =>
      WalksAgree(c, ret, depth, limit, s);
      WalkAllsAgree(c, params, depth, limit, Walk(c, ret, depth, limit, s));
    case OpaqueFunc =>
    case Anon(_) =>
    case Named(name) =>
      if !(name == "" || name in s.emitted || name in s.onStack) {
        var types := MemberTypes(c.lib, name);
        assert PlanFor(c, name) == Visit(types);
        var entered := s.(onStack := s.onStack + {name});
        assert AsListing(entered).seen == AsListing(s).seen + {name};
        if types != [] {
          WalkAllsAgree(c, types, depth + 1, limit, entered);
          var inner := WalkAll(c, types, depth + 1, limit, entered);
          assert inner.emitted + inner.onStack == (inner.emitted + {name}) + (inner.onStack - {name});
        } else {
          assert entered.emitted + entered.onStack == (entered.emitted + {name}) + (entered.onStack - {name});
        }
      }
  }

  lemma {:induction false} WalkAllsAgree(c: Context, types: seq<TypeRef>, depth: nat, limit: int, s: State)
    requires !c.trim && limit < 0
    ensures ListAll(c.lib, types, AsListing(s)) == AsListing(WalkAll(c, types, depth, limit, s))
    decreases c.lib.decls.Keys - s.onStack, types
  {
    if types != [] {
      WalksAgree(c, types[0], depth, limit, s);
      WalkAllsAgree(c, types[1..], depth, limit, Walk(c, types[0], depth, limit, s));
    }
  }

  /** Without trimming, both entry points list the same names in the same order. */
  lemma ListingsAgree(c: Context, roots: seq<TypeRef>)
    requires !c.trim
    ensures ListAll(c.lib, roots, Listing([], {})).result == Run(c, roots, -1).order
  {
    WalkAllsAgree(c, roots, 0, -1, START);
    assert AsListing(START) == Listing([], {});
  }
}
