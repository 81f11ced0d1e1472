/** What the dependency walk follows and in which order, member by member, and what that makes of the
    order of the output. */
module WalkOrder {
  import opened Common
  import opened TypeModel
  import opened TypeWalk
  import opened Mentions

  // ----- the names in a type -----

  /** `u` is a direct part of `t`; the members of an anonymous struct count only `within` it. */
  predicate IsPart(t: TypeRef, u: TypeRef, within: bool) {
    || (t.Ptr? && u == t.target)
    || (t.Arr? && u == t.element)
    || (t.Func? && (u == t.ret || u in t.params))
    || (within && t.Anon? && u in t.fields)
  }

  ghost predicate IsChain(ts: seq<TypeRef>, t: TypeRef, u: TypeRef, within: bool) {
    && ts != [] && ts[0] == t && ts[|ts| - 1] == u
    && forall i :: 0 < i < |ts| ==> IsPart(ts[i - 1], ts[i], within)
  }

  ghost predicate Holds(t: TypeRef, u: TypeRef, within: bool) {
    exists ts :: IsChain(ts, t, u, within)
  }

  lemma HoldsItself(t: TypeRef, within: bool)
    ensures Holds(t, t, within)
  {
    assert IsChain([t], t, t, within);
  }

  lemma PartHolds(t: TypeRef, part: TypeRef, u: TypeRef, within: bool)
    requires IsPart(t, part, within) && Holds(part, u, within)
    ensures Holds(t, u, within)
  {
    var ts :| IsChain(ts, part, u, within);
    assert IsChain([t] + ts, t, u, within);
  }

  lemma HeldByPart(t: TypeRef, u: TypeRef, within: bool) returns (part: TypeRef)
    requires Holds(t, u, within) && t != u
    ensures IsPart(t, part, within) && Holds(part, u, within)
  {
    var ts :| IsChain(ts, t, u, within);
    part := ts[1];
    assert IsChain(ts[1..], part, u, within);
  }

  lemma {:induction false} InAllLeaves(types: seq<TypeRef>, name: string)
    ensures name in AllLeaves(types) <==> exists t :: t in types && name in Leaves(t)
  {
    if types != [] {
      InAllLeaves(types[1..], name);
      assert types[0] in types && (name in Leaves(types[0]) ==> exists t :: t in types && name in Leaves(t));
      assert forall t :: t in types <==> t == types[0] || t in types[1..];
    }
  }

  lemma {:induction false} InAllMentioned(types: seq<TypeRef>, name: string)
    ensures name in AllMentioned(types) <==> exists t :: t in types && name in Mentioned(t)
  {
    if types != [] {
      InAllMentioned(types[1..], name);
      assert types[0] in types && (name in Mentioned(types[0]) ==> exists t :: t in types && name in Mentioned(t));
      assert forall t :: t in types <==> t == types[0] || t in types[1..];
    }
  }

  lemma PartThatLeads(t: TypeRef, name: string) returns (u: TypeRef)
    requires name in Leaves(t) && t != Named(name)
    ensures IsPart(t, u, false) && name in Leaves(u)
  {
    match t
    case Ptr(target) => u := target;
    case Arr(element) => u := element;
    case Func(ret, params) =>
      if name in Leaves(ret) {
        u := ret;
      } else {
        InAllLeaves(params, name);
        u :| u in params && name in Leaves(u);
      }
  }

  lemma PartThatMentions(t: TypeRef, name: string) returns (u: TypeRef)
    requires name in Mentioned(t) && t != Named(name)
    ensures IsPart(t, u, true) && name in Mentioned(u)
  {
    match t
    case Ptr(target) => u := target;
    case Arr(element) => u := element;
    case Func(ret, params) =>
      if name in Mentioned(ret) {
        u := ret;
      } else {
        InAllMentioned(params, name);
        u :| u in params && name in Mentioned(u);
      }
    case Anon(fields) =>
      InAllMentioned(fields, name);
      u :| u in fields && name in Mentioned(u);
  }

  /** A type's leaves are the names that pointers, arrays and functions lead to. */
  lemma {:induction false} LeavesAreHeld(t: TypeRef, name: string)
    ensures name in Leaves(t) <==> name != "" && Holds(t, Named(name), false)
    decreases t
  {
    if t.Func? {
      InAllLeaves(t.params, name);
    }
    if t == Named(name) {
      HoldsItself(t, false);
    } else {
      forall u | IsPart(t, u, false)
        ensures name in Leaves(u) <==> name != "" && Holds(u, Named(name), false)
      {
        LeavesAreHeld(u, name);
      }
      if name != "" && Holds(t, Named(name), false) {
        var u := HeldByPart(t, Named(name), false);
      }
      if name in Leaves(t) {
        var u := PartThatLeads(t, name);
        PartHolds(t, u, Named(name), false);
      }
    }
  }

  /** What it mentions are the names that members of anonymous structs lead to as well. */
  lemma {:induction false} MentionedAreHeld(t: TypeRef, name: string)
    ensures name in Mentioned(t) <==> name != "" && Holds(t, Named(name), true)
    decreases t
  {
    if t.Func? {
      InAllMentioned(t.params, name);
    } else if t.Anon? {
      InAllMentioned(t.fields, name);
    }
    if t == Named(name) {
      HoldsItself(t, true);
    } else {
      forall u | IsPart(t, u, true)
        ensures name in Mentioned(u) <==> name != "" && Holds(u, Named(name), true)
      {
        MentionedAreHeld(u, name);
      }
      if name != "" && Holds(t, Named(name), true) {
        var u := HeldByPart(t, Named(name), true);
      }
      if name in Mentioned(t) {
        var u := PartThatMentions(t, name);
        PartHolds(t, u, Named(name), true);
      }
    }
  }

  // ----- the names a struct depends on -----

  /** The walk visits a member of `name`: when trimming applies, only for a used offset. */
  ghost predicate IsVisited(c: Context, name: string, m: Member)
    requires name in c.lib.decls
  {
    && m in c.lib.decls[name].members
    && (c.trim && !c.lib.decls[name].isUnion ==> name in c.used && SpanUsed(m, c.used[name]))
  }

  lemma VisitedTypes(c: Context, name: string, t: TypeRef)
    requires name in c.lib.decls && !Dropped(c, name)
    ensures t in PlanFor(c, name).types <==> exists m :: IsVisited(c, name, m) && m.typ == t
  {
    var members, types := c.lib.decls[name].members, PlanFor(c, name).types;
    var at := VisitedMembers(c, name);
    if t in types {
      var j :| 0 <= j < |at| && types[j] == t;
      assert at[j] in at;
      assert IsVisited(c, name, members[at[j]]);
    }
    if m :| IsVisited(c, name, m) && m.typ == t {
      var k :| 0 <= k < |members| && members[k] == m;
      assert k in at;
      var j :| 0 <= j < |at| && at[j] == k;
      assert types[j] == t;
    }
  }

  /** A struct that is not dropped depends on exactly the names in the types of its visited members. */
  lemma DepsIff(c: Context, name: string, k: string)
    requires name in c.lib.decls && !Dropped(c, name)
    ensures k in Deps(c, name)
       <==> k != "" && exists m :: IsVisited(c, name, m) && Holds(m.typ, Named(k), false)
  {
    InAllLeaves(PlanFor(c, name).types, k);
    forall t
      ensures t in PlanFor(c, name).types <==> exists m :: IsVisited(c, name, m) && m.typ == t
      ensures k in Leaves(t) <==> k != "" && Holds(t, Named(k), false)
    {
      VisitedTypes(c, name, t);
      LeavesAreHeld(t, k);
    }
  }

  /** The text of a struct mentions exactly the names anywhere in the types of its visited members. */
  lemma MentionedByIff(c: Context, name: string, k: string)
    requires name in c.lib.decls && !Dropped(c, name)
    ensures k in MentionedBy(c, name)
       <==> k != "" && exists m :: IsVisited(c, name, m) && Holds(m.typ, Named(k), true)
  {
    InAllMentioned(PlanFor(c, name).types, k);
    forall t
      ensures t in PlanFor(c, name).types <==> exists m :: IsVisited(c, name, m) && m.typ == t
      ensures k in Mentioned(t) <==> k != "" && Holds(t, Named(k), true)
    {
      VisitedTypes(c, name, t);
      MentionedAreHeld(t, k);
    }
  }

  /** The second walk visits the types of all members, in member order. */
  lemma SecondWalkVisitsAll(lib: Library, name: string)
    requires name in lib.decls
    ensures |MemberTypes(lib, name)| == |lib.decls[name].members|
    ensures forall i :: 0 <= i < |lib.decls[name].members| ==>
              MemberTypes(lib, name)[i] == lib.decls[name].members[i].typ
  {
    AllMembersVisited(lib.decls[name].members);
  }

  // ----- the order of the output -----

  lemma {:induction false} WalkAllAppend(c: Context, xs: seq<TypeRef>, ys: seq<TypeRef>, depth: nat, limit: int,
                                         s: State)
    ensures WalkAll(c, xs + ys, depth, limit, s) == WalkAll(c, ys, depth, limit, WalkAll(c, xs, depth, limit, s))
    decreases |xs|
  {
    if xs == [] {
      assert xs + ys == ys;
    } else {
      assert (xs + ys)[1..] == xs[1..] + ys;
      WalkAllAppend(c, xs[1..], ys, depth, limit, Walk(c, xs[0], depth, limit, s));
    }
  }

  /** The names that the first `k` roots reach come before all others. */
  lemma RootsInOrder(c: Context, roots: seq<TypeRef>, limit: int, k: nat) returns (m: nat)
    requires limit < 0 && k <= |roots|
    ensures m <= |Run(c, roots, limit).order|
    ensures forall n :: n in Run(c, roots, limit).order[..m] <==>
              Reachable(c, AllLeaves(roots[..k]), n) && !Dropped(c, n)
  {
    var first := Run(c, roots[..k], limit);
    assert roots == roots[..k] + roots[k..];
    WalkAllAppend(c, roots[..k], roots[k..], 0, limit, START);
    WalkAllKeepsConsistent(c, roots[..k], 0, limit, START);
    WalkAllKeepsConsistent(c, roots[k..], 0, limit, first);
    m := |first.order|;
    forall n
      ensures n in first.order <==> Reachable(c, AllLeaves(roots[..k]), n) && !Dropped(c, n)
    {
      RunEmitsExactlyReachable(c, roots[..k], limit, n);
    }
  }

  lemma ReachedFromAbove(c: Context, name: string, names: set<string>, below: set<string>, x: string)
    requires below <= names || (name in names && below <= Deps(c, name))
    requires Reachable(c, below, x)
    ensures Reachable(c, names, x)
  {
    var p :| Visits(c, below, x, p);
    if below <= names {
      assert Visits(c, names, x, p);
    } else {
      assert Visits(c, names, x, [name] + p);
    }
  }

  lemma AvoidsBelow(c: Context, name: string, names: set<string>, below: set<string>, x: string)
    requires below <= names || (name in names && below <= Deps(c, name))
    ensures !Reachable(c, names, x) ==> !Reachable(c, below, x)
  {
    if Reachable(c, below, x) {
      ReachedFromAbove(c, name, names, below, x);
    }
  }

  function WithOnStack(s: State, x: string): State {
    s.(onStack := s.onStack + {x})
  }

  /** A name on the stack that a walk does not come across does not matter, nor does the depth. */
  lemma {:induction false} UnmetNameDoesNotMatter(c: Context, t: TypeRef, d: nat, e: nat, limit: int, s: State,
                                                  x: string)
    requires limit < 0 && x !in s.onStack && !Reachable(c, Leaves(t), x)
    ensures Walk(c, t, d, limit, WithOnStack(s, x)) == WithOnStack(Walk(c, t, e, limit, s), x)
    decreases c.lib.decls.Keys - s.onStack, t
  {
    match t
    case Absent =>
    case Ptr(target) => UnmetNameDoesNotMatter(c, target, d, e, limit, s, x);
    case Arr(element) => UnmetNameDoesNotMatter(c, element, d, e, limit, s, x);
    case Func(ret, params) =>
      AvoidsBelow(c, "", Leaves(t), Leaves(ret), x);
      AvoidsBelow(c, "", Leaves(t), AllLeaves(params), x);
      UnmetNameDoesNotMatter(c, ret, d, e, limit, s, x);
      UnmetNameDoesNotMatterToAll(c, params, d, e, limit, Walk(c, ret, e, limit, s), x);
    case OpaqueFunc =>
    case Anon(_) =>
    case Named(name) =>
      if name != "" {
        assert Visits(c, Leaves(t), name, [name]);
        assert name != x;
        if name !in s.emitted && name !in s.onStack && !Dropped(c, name) {
          var types := PlanFor(c, name).types;
          var entered := s.(onStack := s.onStack + {name});
          assert WithOnStack(s, x).onStack + {name} == WithOnStack(entered, x).onStack;
          AvoidsBelow(c, name, Leaves(t), AllLeaves(types), x);
          if types != [] {
            UnmetNameDoesNotMatterToAll(c, types, d + 1, e + 1, limit, entered, x);
          }
          var inner := if types == [] then entered else WalkAll(c, types, e + 1, limit, entered);
          assert WithOnStack(inner, x).onStack - {name} == (inner.onStack - {name}) + {x};
        }
      }
  }

  lemma {:induction false} UnmetNameDoesNotMatterToAll(c: Context, types: seq<TypeRef>, d: nat, e: nat, limit: int,
                                                       s: State, x: string)
    requires limit < 0 && x !in s.onStack && !Reachable(c, AllLeaves(types), x)
    ensures WalkAll(c, types, d, limit, WithOnStack(s, x)) == WithOnStack(WalkAll(c, types, e, limit, s), x)
    decreases c.lib.decls.Keys - s.onStack, types
  {
    if types != [] {
      AvoidsBelow(c, "", AllLeaves(types), Leaves(types[0]), x);
      AvoidsBelow(c, "", AllLeaves(types), AllLeaves(types[1..]), x);
      UnmetNameDoesNotMatter(c, types[0], d, e, limit, s, x);
      UnmetNameDoesNotMatterToAll(c, types[1..], d, e, limit, Walk(c, types[0], e, limit, s), x);
    }
  }

  /** A name on no cycle comes directly behind what its visited members bring in, as if their types
      had been the roots. */
  lemma NameFollowsItsMembers(c: Context, name: string, limit: int)
    requires limit < 0 && name != "" && !Dropped(c, name) && !DependsOn(c, name, name)
    ensures Run(c, [Named(name)], limit).order == Run(c, PlanFor(c, name).types, limit).order + [name]
  {
    var types := PlanFor(c, name).types;
    var entered := WithOnStack(START, name);
    if p :| Visits(c, Deps(c, name), name, p) {
      assert Leads(c, name, name, [name] + p);
    }
    assert !Reachable(c, Deps(c, name), name);
    UnmetNameDoesNotMatterToAll(c, types, 1, 0, limit, START, name);
    var roots := [Named(name)];
    assert roots[1..] == [];
    assert entered == START.(onStack := START.onStack + {name});
    assert Run(c, roots, limit) == WalkAll(c, [], 0, limit, Walk(c, roots[0], 0, limit, START));
  }

  /** A function brings in its result type first and then its parameters. */
  lemma FunctionTypesInOrder(c: Context, ret: TypeRef, params: seq<TypeRef>, limit: int)
    ensures Run(c, [Func(ret, params)], limit) == Run(c, [ret] + params, limit)
  {
    var roots := [Func(ret, params)];
    assert roots[1..] == [] && ([ret] + params)[1..] == params;
    assert Run(c, roots, limit) == WalkAll(c, [], 0, limit, Walk(c, roots[0], 0, limit, START));
  }
}
