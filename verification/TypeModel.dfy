/** The part of the type library that the declaration renderers read: type references, the
    members of each named type, and the byte offsets a caller reports as used.  */
module TypeModel {
  import opened Common

  /** A type as the renderers see it.  Pointer, array and function tests look through
      typedefs, so a typedef of a pointer appears here as `Ptr`.  `Named("")` is a type
      without a name or members, such as a plain integer. */
  datatype TypeRef =
    | Absent
    | Ptr(target: TypeRef)
    | Arr(element: TypeRef)
    | Func(ret: TypeRef, params: seq<TypeRef>)
    | OpaqueFunc                                  // a function type without details
    | Anon(fields: seq<TypeRef>)                  // an anonymous struct or union
    | Named(name: string)

  /** Offsets and sizes are in bits, as in the SDK. */
  datatype Member = Member(typ: TypeRef, bitOffset: nat, bitSize: nat, isBitfield: bool)

  datatype Udt = Udt(isUnion: bool, members: seq<Member>, totalSize: nat)

  /** `decls` holds the names whose struct or union details can be read; a typedef of a struct is
      in it under its own name.  Every other name is an enum, another typedef, or a struct whose
      details cannot be read. */
  datatype Library = Library(decls: map<string, Udt>,
                             byName: map<string, TypeRef>,
                             byOrdinal: map<nat, TypeRef>)

  datatype UsedOffsets = UsedOffsets(typeName: string, byteOffsets: seq<int>)

  /** What a formatter knows: the library, whether it trims, and the merged used offsets. */
  datatype Context = Context(lib: Library, trim: bool, used: map<string, set<int>>)

  // ----- the merged map of used offsets -----

  ghost predicate IsUsed(entries: seq<UsedOffsets>, name: string, offset: int) {
    exists i :: 0 <= i < |entries| && entries[i].typeName == name && offset in entries[i].byteOffsets
  }

  ghost predicate HasEntry(entries: seq<UsedOffsets>, name: string) {
    exists i :: 0 <= i < |entries| && entries[i].typeName == name
  }

  method UsedOffsetsMap(entries: seq<UsedOffsets>) returns (used: map<string, set<int>>)
    ensures forall name :: name in used <==> name != "" && HasEntry(entries, name)
    ensures forall name, offset :: name in used ==> (offset in used[name] <==> IsUsed(entries, name, offset))
  {
    used := map[];
    for k := 0 to |entries|
      invariant forall name :: name in used <==> name != "" && HasEntry(entries[..k], name)
      invariant forall name, offset :: name in used ==> (offset in used[name] <==> IsUsed(entries[..k], name, offset))
    {
      var entry := entries[k];
      assert entries[..k + 1] == entries[..k] + [entry];
      forall name
        ensures HasEntry(entries[..k + 1], name) <==> HasEntry(entries[..k], name) || entry.typeName == name
      {
        if HasEntry(entries[..k], name) {
          var i :| 0 <= i < k && entries[..k][i].typeName == name;
          assert entries[..k + 1][i].typeName == name;
        }
        if entry.typeName == name {
          assert entries[..k + 1][k].typeName == name;
        }
      }
      forall name, offset
        ensures IsUsed(entries[..k + 1], name, offset) <==>
                IsUsed(entries[..k], name, offset) || (entry.typeName == name && offset in entry.byteOffsets)
      {
        if IsUsed(entries[..k], name, offset) {
          var i :| 0 <= i < k && entries[..k][i].typeName == name && offset in entries[..k][i].byteOffsets;
          assert entries[..k + 1][i].typeName == name;
        }
        if entry.typeName == name && offset in entry.byteOffsets {
          assert entries[..k + 1][k].typeName == name;
        }
      }
      if entry.typeName != "" {
        var offsets := if entry.typeName in used then used[entry.typeName] else {};
        if entry.typeName !in used {
          assert forall offset :: IsUsed(entries[..k], entry.typeName, offset) ==>
                                    HasEntry(entries[..k], entry.typeName);
        }
        used := used[entry.typeName := offsets + (set o | o in entry.byteOffsets)];
      }
    }
    assert entries[..|entries|] == entries;
  }

  // ----- member trimming -----

  lemma {:induction false} Least(s: set<int>) returns (m: int)
    requires s != {}
    ensures m in s && forall y :: y in s ==> m <= y
    decreases |s|
  {
    var x := ElementOf(s);
    var rest := s - {x};
    assert s == rest + {x};
    if rest == {} {
      m := x;
    } else {
      m := Least(rest);
      if x < m {
        m := x;
      }
    }
  }

  lemma LeastExists(s: set<int>)
    requires s != {}
    ensures exists m :: m in s && forall y :: y in s ==> m <= y
  {
    var m := Least(s);
    assert m in s;
  }

  /** `std::set<int>::lower_bound`: the least element that is not below `x`. */
  function LowerBound(s: set<int>, x: int): (r: Option<int>)
    ensures r.None? ==> forall y :: y in s ==> y < x
    ensures r.Some? ==> r.value in s && x <= r.value && forall y :: y in s && x <= y ==> r.value <= y
  {
    var above := set y | y in s && x <= y;
    if above == {} then
      assert forall y :: y in s && x <= y ==> y in above;
      None
    else
      LeastExists(above);
      var m :| m in above && forall y :: y in above ==> m <= y;
      assert forall y :: y in s && x <= y ==> y in above;
      Some(m)
  }

  /** `static_cast<int>` of an unsigned 64-bit value. */
  function ToInt32(x: nat): (r: int)
    ensures -0x8000_0000 <= r < 0x8000_0000 && (x - r) % 0x1_0000_0000 == 0
  {
    var low := x % 0x1_0000_0000;
    if low < 0x8000_0000 then low else low - 0x1_0000_0000
  }

  function ByteOffset(m: Member): (r: int)
    ensures -0x8000_0000 <= r < 0x8000_0000 && (m.bitOffset / 8 - r) % 0x1_0000_0000 == 0
  {
    ToInt32(m.bitOffset / 8)
  }

  /** The byte size used for trimming; a bitfield or empty member counts as one byte. */
  function ByteSpan(m: Member): (r: int)
    ensures -0x8000_0000 <= r < 0x8000_0000 && r != 0
    ensures (m.bitSize / 8 - (if m.bitSize / 8 % 0x1_0000_0000 == 0 then r - 1 else r)) % 0x1_0000_0000 == 0
  {
    var size := ToInt32(m.bitSize / 8);
    if size == 0 then 1 else size
  }

  /** The test of the struct emitter. */
  predicate Keeps(m: Member, accessed: set<int>) {
    var lower := LowerBound(accessed, ByteOffset(m));
    lower.Some? && lower.value < ByteOffset(m) + ByteSpan(m)
  }

  /** The test of the dependency walk, which states when to skip a member. */
  predicate Skips(m: Member, accessed: set<int>) {
    var lower := LowerBound(accessed, ByteOffset(m));
    lower.None? || lower.value >= ByteOffset(m) + ByteSpan(m)
  }

  /** Both tests decide the same thing: whether some used offset lies in the member's span, which
      starts at its first byte and has as many bytes as it has whole bytes, at least one. */
  lemma TrimmingTestsAgree(m: Member, accessed: set<int>)
    ensures Keeps(m, accessed) <==> !Skips(m, accessed)
    ensures Keeps(m, accessed) <==>
            exists a :: a in accessed && ByteOffset(m) <= a < ByteOffset(m) + ByteSpan(m)
  {
  }

  /** The used offsets that trim `name`, if trimming applies to it. */
  function Accessed(c: Context, name: string, isUnion: bool): Option<set<int>> {
    if c.trim && !isUnion && name in c.used && c.used[name] != {} then Some(c.used[name]) else None
  }

  function KeptTypes(members: seq<Member>, accessed: Option<set<int>>): (types: seq<TypeRef>)
  {
    if members == [] then []
    else
      var rest := KeptTypes(members[1..], accessed);
      if accessed.Some? && Skips(members[0], accessed.value) then rest else [members[0].typ] + rest
  }

  /** What the walk does on reaching a name: drop it, or visit these member types. */
  datatype Plan = Drop | Visit(types: seq<TypeRef>)

  function PlanFor(c: Context, name: string): (p: Plan)
    ensures p.Visit? && p.types != [] ==> name in c.lib.decls
    ensures p.Drop? ==> c.trim && name in c.lib.decls && !c.lib.decls[name].isUnion
  {
    if name !in c.lib.decls then Visit([])
    else
      var udt := c.lib.decls[name];
      var accessed := Accessed(c, name, udt.isUnion);
      if c.trim && accessed.None? && !udt.isUnion then Drop
      else Visit(KeptTypes(udt.members, accessed))
  }

  predicate Dropped(c: Context, name: string) {
    PlanFor(c, name).Drop?
  }

  // ----- which members are visited -----

  /** Some used offset lies in the span of the member. */
  ghost predicate SpanUsed(m: Member, used: set<int>) {
    exists a :: a in used && ByteOffset(m) <= a < ByteOffset(m) + ByteSpan(m)
  }

  /** `at` lists, in order, the members that the selection `used` keeps; without one, all. */
  ghost predicate Selects(members: seq<Member>, used: Option<set<int>>, at: seq<nat>) {
    && (forall i, j :: 0 <= i < j < |at| ==> at[i] < at[j])
    && (forall i :: 0 <= i < |at| ==> at[i] < |members|)
    && (forall k :: 0 <= k < |members| ==> (k in at <==> used.None? || SpanUsed(members[k], used.value)))
  }

  lemma {:induction false} KeptInOrder(members: seq<Member>, used: Option<set<int>>) returns (at: seq<nat>)
    ensures Selects(members, used, at)
    ensures |KeptTypes(members, used)| == |at|
    ensures forall j :: 0 <= j < |at| ==> KeptTypes(members, used)[j] == members[at[j]].typ
  {
    if members == [] {
      at := [];
    } else {
      var m, rest := members[0], members[1..];
      var inRest := KeptInOrder(rest, used);
      var shifted := seq(|inRest|, j requires 0 <= j < |inRest| => inRest[j] + 1);
      var head := if used.None? || SpanUsed(m, used.value) then [0] else [];
      at := head + shifted;
      SelectsMore(members, used, inRest, head, shifted);
      KeptTypesStep(members, used);
      TypesShift(members, inRest, head, shifted, KeptTypes(rest, used));
    }
  }

  lemma KeptTypesStep(members: seq<Member>, used: Option<set<int>>)
    requires members != []
    ensures KeptTypes(members, used)
         == (if used.None? || SpanUsed(members[0], used.value) then [members[0].typ] else [])
          + KeptTypes(members[1..], used)
  {
    if used.Some? {
      TrimmingTestsAgree(members[0], used.value);
    }
  }

  lemma TypesShift(members: seq<Member>, inRest: seq<nat>, head: seq<nat>, shifted: seq<nat>, types: seq<TypeRef>)
    requires members != [] && (head == [] || head == [0]) && |types| == |inRest| == |shifted|
    requires forall j :: 0 <= j < |inRest| ==> shifted[j] == inRest[j] + 1 && inRest[j] + 1 < |members|
    requires forall j :: 0 <= j < |inRest| ==> types[j] == members[1..][inRest[j]].typ
    ensures forall j :: 0 <= j < |head + shifted| ==> (head + shifted)[j] < |members|
    ensures var all := (if head == [] then [] else [members[0].typ]) + types;
            |all| == |head + shifted| && forall j :: 0 <= j < |all| ==> all[j] == members[(head + shifted)[j]].typ
  {
  }

  lemma SelectsMore(members: seq<Member>, used: Option<set<int>>, inRest: seq<nat>, head: seq<nat>, shifted: seq<nat>)
    requires members != [] && Selects(members[1..], used, inRest)
    requires |shifted| == |inRest| && forall j :: 0 <= j < |inRest| ==> shifted[j] == inRest[j] + 1
    requires head == if used.None? || SpanUsed(members[0], used.value) then [0] else []
    ensures Selects(members, used, head + shifted)
  {
    var at := head + shifted;
    forall k | 0 <= k < |members|
      ensures k in at <==> used.None? || SpanUsed(members[k], used.value)
    {
      if k > 0 {
        assert members[k] == members[1..][k - 1];
        assert k - 1 in inRest ==> k in shifted by {
          if j :| 0 <= j < |inRest| && inRest[j] == k - 1 {
            assert shifted[j] == k;
          }
        }
        if j :| 0 <= j < |at| && at[j] == k {
          assert shifted[j - |head|] == k && inRest[j - |head|] == k - 1;
        }
      }
    }
  }

  /** Reaching an undropped name, the walk visits its members in order: those with a used offset in
      their span when trimming applies to the name, all of them otherwise. */
  lemma VisitedMembers(c: Context, name: string) returns (at: seq<nat>)
    requires name in c.lib.decls && !Dropped(c, name)
    ensures var members := c.lib.decls[name].members;
            var trims := c.trim && !c.lib.decls[name].isUnion;
            && (trims ==> name in c.used && c.used[name] != {})
            && Selects(members, if trims then Some(c.used[name]) else None, at)
            && |PlanFor(c, name).types| == |at|
            && forall j :: 0 <= j < |at| ==> PlanFor(c, name).types[j] == members[at[j]].typ
  {
    at := KeptInOrder(c.lib.decls[name].members, Accessed(c, name, c.lib.decls[name].isUnion));
  }

  /** Without used offsets these are the types of all members, in member order. */
  lemma {:induction false} AllMembersVisited(members: seq<Member>)
    ensures |KeptTypes(members, None)| == |members|
    ensures forall i :: 0 <= i < |members| ==> KeptTypes(members, None)[i] == members[i].typ
  {
    if members != [] {
      AllMembersVisited(members[1..]);
    }
  }
}
