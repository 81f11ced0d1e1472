/** Names that only an anonymous member mentions: the walk does not look inside members without a
    name of their own, although their text is printed with them. */
module Mentions {
  import opened Common
  import opened TypeModel
  import opened TypeWalk

  /** All names a type mentions, also inside anonymous structs and unions. */
  function Mentioned(t: TypeRef): set<string> {
    match t
    case Absent => {}
    case Ptr(target) => Mentioned(target)
    case Arr(element) => Mentioned(element)
    case Func(ret, params) => Mentioned(ret) + AllMentioned(params)
    case OpaqueFunc => {}
    case Anon(fields) => AllMentioned(fields)
    case Named(name) => if name == "" then {} else {name}
  }

  function AllMentioned(types: seq<TypeRef>): set<string> {
    if types == [] then {} else Mentioned(types[0]) + AllMentioned(types[1..])
  }

  /** The names that the kept members of `name` mention, inside and outside anonymous members. */
  function MentionedBy(c: Context, name: string): set<string> {
    match PlanFor(c, name)
    case Drop => {}
    case Visit(types) => AllMentioned(types)
  }

  lemma {:induction false} LeavesAreMentioned(t: TypeRef)
    ensures Leaves(t) <= Mentioned(t)
    decreases t
  {
    match t
    case Ptr(target) => LeavesAreMentioned(target);
    case Arr(element) => LeavesAreMentioned(element);
    case Func(ret, params) =>
      LeavesAreMentioned(ret);
      AllLeavesAreMentioned(params);
    case _ =>
  }

  lemma {:induction false} AllLeavesAreMentioned(types: seq<TypeRef>)
    ensures AllLeaves(types) <= AllMentioned(types)
    decreases types
  {
    if types != [] {
      LeavesAreMentioned(types[0]);
      AllLeavesAreMentioned(types[1..]);
    }
  }

  /** What the walk follows is mentioned; the rest of what is mentioned is hidden from it. */
  lemma DepsAreMentioned(c: Context, name: string)
    ensures Deps(c, name) <= MentionedBy(c, name)
  {
    if !Dropped(c, name) {
      AllLeavesAreMentioned(PlanFor(c, name).types);
    }
  }

  function Hidden(c: Context, name: string): set<string> {
    MentionedBy(c, name) - Deps(c, name)
  }

  /** Every name that the printed types mention is printed, or dropped by trimming. */
  ghost predicate ClosedUnderMention(c: Context, order: seq<string>) {
    forall n, k :: n in order && k in MentionedBy(c, n) ==> k in order || Dropped(c, k)
  }

  /** The output mentions nothing it lacks exactly when each name hidden in a reachable type is
      also reached openly, or dropped. */
  lemma ClosedUnderMentionIff(c: Context, roots: seq<TypeRef>, limit: int)
    requires limit < 0
    ensures ClosedUnderMention(c, Run(c, roots, limit).order)
       <==> forall n, k :: Reachable(c, AllLeaves(roots), n) && k in Hidden(c, n) ==>
                             Reachable(c, AllLeaves(roots), k) || Dropped(c, k)
  {
    var order, from := Run(c, roots, limit).order, AllLeaves(roots);
    forall n
      ensures n in order <==> Reachable(c, from, n) && !Dropped(c, n)
    {
      RunEmitsExactlyReachable(c, roots, limit, n);
    }
    if ClosedUnderMention(c, order) {
      forall n, k | Reachable(c, from, n) && k in Hidden(c, n)
        ensures Reachable(c, from, k) || Dropped(c, k)
      {
        assert n in order && k in MentionedBy(c, n);
      }
    }
    if forall n, k :: Reachable(c, from, n) && k in Hidden(c, n) ==> Reachable(c, from, k) || Dropped(c, k) {
      forall n, k | n in order && k in MentionedBy(c, n)
        ensures k in order || Dropped(c, k)
      {
        if k in Deps(c, n) {
          var p :| Visits(c, from, n, p);
          assert Visits(c, from, k, p + [k]);
        } else {
          assert k in Hidden(c, n);
        }
      }
    }
  }

  /** It can fail: struct "R" holds an anonymous struct with a member of type "C", and "C" is not
      printed. */
  lemma HiddenNameIsMissing() returns (c: Context)
    ensures "R" in Run(c, [Named("R")], -1).order
    ensures "C" in MentionedBy(c, "R") && !Dropped(c, "C") && "C" !in Run(c, [Named("R")], -1).order
  {
    var fields, roots := [Named("C")], [Named("R")];
    var types := [Anon(fields)];
    var members := [Member(Anon(fields), 0, 8, false)];
    c := Context(Library(map["R" := Udt(false, members, 1)], map[], map[]), false, map[]);
    assert members[1..] == [] && types[1..] == [] && fields[1..] == [] && roots[1..] == [];
    assert KeptTypes(members, None) == types;
    assert PlanFor(c, "R").types == types;
    assert Mentioned(fields[0]) == {"C"} && AllMentioned(fields) == {"C"};
    assert Mentioned(types[0]) == {"C"} && AllMentioned(types) == {"C"};
    var entered := START.(onStack := START.onStack + {"R"});
    assert WalkAll(c, types, 1, -1, entered) == WalkAll(c, [], 1, -1, Walk(c, types[0], 1, -1, entered)) == entered;
    assert Walk(c, roots[0], 0, -1, START).order == ["R"];
    assert Run(c, roots, -1) == WalkAll(c, [], 0, -1, Walk(c, roots[0], 0, -1, START));
  }
}
