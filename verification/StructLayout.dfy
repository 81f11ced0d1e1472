/** The lines the formatter emits for one struct or union, as byte ranges. */
module StructLayout {
  import opened Common
  import opened TypeModel

  /** `byteSize` is zero on the line of a bitfield, as in the source. */
  datatype Line =
    | MemberLine(byteOffset: nat, byteSize: nat, isBitfield: bool, bitOffset: nat, bitSize: nat)
    | Padding(byteOffset: nat, byteSize: nat)

  /** What is printed: nothing, one opaque blob of `totalSize` bytes, or a body. */
  datatype Body = Omitted | Opaque(totalSize: nat) | Lines(lines: seq<Line>)

  function StartByte(m: Member): nat {
    m.bitOffset / 8
  }

  /** One past the last byte of the member; a bitfield is rounded out to whole bytes. */
  function EndByte(m: Member): nat {
    if m.isBitfield then (m.bitOffset + m.bitSize + 7) / 8 else StartByte(m) + m.bitSize / 8
  }

  function LineOf(m: Member): Line {
    if m.isBitfield then MemberLine(StartByte(m), 0, true, m.bitOffset % 8, m.bitSize)
    else MemberLine(StartByte(m), m.bitSize / 8, false, 0, 0)
  }

  function Pad(from: nat, to: nat): seq<Line> {
    if to <= from then [] else [Padding(from, to - from)]
  }

  /** The body of a trimmed struct from `cursor` on. */
  function TrimmedLines(kept: seq<Member>, cursor: nat, totalSize: nat): seq<Line> {
    if kept == [] then Pad(cursor, totalSize)
    else
      var rest := TrimmedLines(kept[1..], Max(cursor, EndByte(kept[0])), totalSize);
      Pad(cursor, StartByte(kept[0])) + [LineOf(kept[0])] + rest
  }

  function KeptMembers(members: seq<Member>, accessed: set<int>): seq<Member> {
    if members == [] then []
    else
      var rest := KeptMembers(members[1..], accessed);
      if Keeps(members[0], accessed) then [members[0]] + rest else rest
  }

  function AllLines(members: seq<Member>): seq<Line> {
    seq(|members|, i requires 0 <= i < |members| => LineOf(members[i]))
  }

  function BodyOf(c: Context, name: string, udt: Udt): Body {
    var accessed := Accessed(c, name, udt.isUnion);
    if c.trim && !udt.isUnion && accessed.None? then Omitted
    else if accessed.None? then Lines(AllLines(udt.members))
    else if KeptMembers(udt.members, accessed.value) == [] then Opaque(udt.totalSize)
    else Lines(TrimmedLines(KeptMembers(udt.members, accessed.value), 0, udt.totalSize))
  }

  // ----- the emitter -----

  method EmitUdt(c: Context, name: string, udt: Udt) returns (body: Body)
    ensures body == BodyOf(c, name, udt)
  {
    var accessed := None;
    var trimActive := c.trim && !udt.isUnion;
    if trimActive && name in c.used && c.used[name] != {} {
      accessed := Some(c.used[name]);
    }
    if trimActive && accessed == None {
      return Omitted;
    }
    if accessed.Some? {
      var keep := KeepIndices(udt.members, accessed.value);
      if keep == [] {
        return Opaque(udt.totalSize);
      }
      var lines := LayOutKept(udt, keep);
      body := Lines(lines);
    } else {
      var lines: seq<Line> := [];
      for i := 0 to |udt.members|
        invariant lines == AllLines(udt.members)[..i]
      {
        lines := lines + [LineOf(udt.members[i])];
      }
      body := Lines(lines);
    }
  }

  /** `keep_indices`, whose set order is index order. */
  method KeepIndices(members: seq<Member>, accessed: set<int>) returns (keep: seq<nat>)
    ensures forall k :: k in keep ==> k < |members|
    ensures MembersAt(members, keep) == KeptMembers(members, accessed)
  {
    keep := [];
    for i := 0 to |members|
      invariant forall k :: k in keep ==> k < |members|
      invariant KeptMembers(members, accessed) == MembersAt(members, keep) + KeptMembers(members[i..], accessed)
    {
      assert members[i..][1..] == members[i + 1..];
      if Keeps(members[i], accessed) {
        MembersAtAppend(members, keep, i);
        keep := keep + [i];
      }
    }
  }

  lemma TrimmedStep(kept: seq<Member>, k: nat, cursor: nat, totalSize: nat, lines: seq<Line>)
    requires k < |kept|
    ensures lines + TrimmedLines(kept[k..], cursor, totalSize)
         == lines + Pad(cursor, StartByte(kept[k])) + [LineOf(kept[k])]
          + TrimmedLines(kept[k + 1..], Max(cursor, EndByte(kept[k])), totalSize)
  {
  }

  /** The loop that interleaves kept members and padding. */
  method LayOutKept(udt: Udt, keep: seq<nat>) returns (lines: seq<Line>)
    requires forall k :: k in keep ==> k < |udt.members|
    ensures lines == TrimmedLines(MembersAt(udt.members, keep), 0, udt.totalSize)
  {
    lines := [];
    var cursor: nat := 0;
    ghost var kept := MembersAt(udt.members, keep);
    for k := 0 to |keep|
      invariant TrimmedLines(kept, 0, udt.totalSize) == lines + TrimmedLines(kept[k..], cursor, udt.totalSize)
    {
      assert keep[k] in keep;
      var m := udt.members[keep[k]];
      assert kept[k] == m;
      ghost var next := Max(cursor, EndByte(m));
      TrimmedStep(kept, k, cursor, udt.totalSize, lines);
      ghost var target := lines + Pad(cursor, StartByte(m)) + [LineOf(m)];
      var offset := m.bitOffset / 8;
      if offset > cursor {
        lines := lines + [Padding(cursor, offset - cursor)];
      }
      lines := lines + [LineOf(m)];
      assert lines == target;
      var end := offset + (if m.isBitfield then 0 else m.bitSize / 8);
      if m.isBitfield {
        end := (m.bitOffset + m.bitSize + 7) / 8;
      }
      cursor := Max(cursor, end);
      assert cursor == next;
    }
    assert kept[|keep|..] == [];
    if cursor < udt.totalSize {
      lines := lines + [Padding(cursor, udt.totalSize - cursor)];
    }
  }

  function MembersAt(members: seq<Member>, keep: seq<nat>): seq<Member>
    requires forall k :: k in keep ==> k < |members|
  {
    seq(|keep|, i requires 0 <= i < |keep| => assert keep[i] in keep; members[keep[i]])
  }

  lemma MembersAtAppend(members: seq<Member>, keep: seq<nat>, i: nat)
    requires forall k :: k in keep ==> k < |members|
    requires i < |members|
    ensures MembersAt(members, keep + [i]) == MembersAt(members, keep) + [members[i]]
  {
  }

  // ----- what a trimmed body covers -----

  predicate SortedByOffset(members: seq<Member>) {
    forall i, j :: 0 <= i < j < |members| ==> members[i].bitOffset <= members[j].bitOffset
  }

  /** No member has bits past the end of the struct. */
  predicate Inside(members: seq<Member>, totalSize: nat) {
    forall i :: 0 <= i < |members| ==> IsInside(members[i], totalSize)
  }

  predicate IsInside(m: Member, totalSize: nat) {
    if m.isBitfield then m.bitOffset + m.bitSize <= 8 * totalSize
    else m.bitOffset / 8 + m.bitSize / 8 <= totalSize
  }

  lemma InsideIs(m: Member, totalSize: nat)
    ensures IsInside(m, totalSize) <==> EndByte(m) <= totalSize
  {
  }

  function ByteOfBit(k: nat): nat {
    k / 8
  }

  /** The member has something in byte `b`: a bitfield one of its bits, any other member one of the
      whole bytes from its first one on. */
  ghost predicate Occupies(m: Member, b: nat) {
    if m.isBitfield then exists k :: m.bitOffset <= k < m.bitOffset + m.bitSize && ByteOfBit(k) == b
    else m.bitOffset / 8 <= b < m.bitOffset / 8 + m.bitSize / 8
  }

  /** A bitfield without bits that starts inside byte `b`. */
  predicate EmptyInside(m: Member, b: nat) {
    m.isBitfield && m.bitSize == 0 && 8 * b < m.bitOffset < 8 * b + 8
  }

  /** The byte range of a member is what it occupies; one of no bits inside a byte takes that byte. */
  lemma InMemberIff(m: Member, b: nat)
    ensures InMember(m, b) <==> Occupies(m, b) || EmptyInside(m, b)
  {
    if InMember(m, b) && m.isBitfield && m.bitSize > 0 {
      var k := if m.bitOffset < 8 * b then 8 * b else m.bitOffset;
      assert ByteOfBit(k) == b;
    }
  }

  predicate InMember(m: Member, b: nat) {
    StartByte(m) <= b < EndByte(m)
  }

  ghost predicate InSomeMember(members: seq<Member>, b: nat) {
    exists i :: 0 <= i < |members| && InMember(members[i], b)
  }

  predicate InPadding(line: Line, b: nat) {
    line.Padding? && line.byteOffset <= b < line.byteOffset + line.byteSize
  }

  /** The number of padding lines that contain byte `b`. */
  function PaddingCount(lines: seq<Line>, b: nat): nat {
    if lines == [] then 0
    else (if InPadding(lines[0], b) then 1 else 0) + PaddingCount(lines[1..], b)
  }

  lemma {:induction false} CountConcat(xs: seq<Line>, ys: seq<Line>, b: nat)
    ensures PaddingCount(xs + ys, b) == PaddingCount(xs, b) + PaddingCount(ys, b)
  {
    if xs == [] {
      assert xs + ys == ys;
    } else {
      assert (xs + ys)[1..] == xs[1..] + ys;
      CountConcat(xs[1..], ys, b);
    }
  }

  /** From `cursor` on, a byte is in exactly one padding line when no kept member holds it, and
      in none when some kept member does; bytes before `cursor` are in no padding line. */
  lemma {:induction false} PaddingFromCursor(kept: seq<Member>, cursor: nat, totalSize: nat, b: nat)
    requires SortedByOffset(kept) && Inside(kept, totalSize)
    ensures PaddingCount(TrimmedLines(kept, cursor, totalSize), b)
         == if cursor <= b < totalSize && !InSomeMember(kept, b) then 1 else 0
  {
    if kept != [] {
      var m, rest := kept[0], kept[1..];
      var next := Max(cursor, EndByte(m));
      assert forall i :: 0 <= i < |rest| ==> rest[i] == kept[i + 1];
      PaddingFromCursor(rest, next, totalSize, b);
      InsideIs(m, totalSize);
      CountConcat(Pad(cursor, StartByte(m)) + [LineOf(m)], TrimmedLines(rest, next, totalSize), b);
      CountConcat(Pad(cursor, StartByte(m)), [LineOf(m)], b);
      assert InSomeMember(kept, b) <==> InMember(m, b) || InSomeMember(rest, b) by {
        if InSomeMember(rest, b) {
          var i :| 0 <= i < |rest| && InMember(rest[i], b);
          assert InMember(kept[i + 1], b);
        }
        if InSomeMember(kept, b) {
          var i :| 0 <= i < |kept| && InMember(kept[i], b);
          assert i > 0 ==> InMember(rest[i - 1], b);
        }
        if InMember(m, b) {
          assert InMember(kept[0], b);
        }
      }
      if b < StartByte(m) {
        forall i | 0 <= i < |rest|
          ensures !InMember(rest[i], b)
        {
          assert kept[0].bitOffset <= kept[i + 1].bitOffset;
        }
      }
    }
  }

  lemma {:induction false} KeptSubsequence(members: seq<Member>, accessed: set<int>)
    ensures forall m :: m in KeptMembers(members, accessed) <==> m in members && Keeps(m, accessed)
    ensures SortedByOffset(members) ==> SortedByOffset(KeptMembers(members, accessed))
  {
    if members != [] {
      var rest := members[1..];
      KeptSubsequence(rest, accessed);
      assert members == [members[0]] + rest;
      if SortedByOffset(members) {
        assert forall i :: 0 <= i < |rest| ==> rest[i] == members[i + 1];
        var kept := KeptMembers(rest, accessed);
        forall i | 0 <= i < |kept|
          ensures members[0].bitOffset <= kept[i].bitOffset
        {
          assert kept[i] in rest;
        }
      }
    }
  }

  /** In the body of a trimmed struct each byte of the struct is held by a kept member or by
      exactly one padding line, never by both; no padding lies past its end. */
  lemma TrimmedBodyPartitions(c: Context, name: string, udt: Udt, b: nat)
    requires SortedByOffset(udt.members) && Inside(udt.members, udt.totalSize)
    requires c.trim && !udt.isUnion && name in c.used && BodyOf(c, name, udt).Lines?
    ensures PaddingCount(BodyOf(c, name, udt).lines, b)
         == if b >= udt.totalSize then 0
            else if exists m :: m in udt.members && SpanUsed(m, c.used[name]) && (Occupies(m, b) || EmptyInside(m, b))
            then 0
            else 1
  {
    var accessed := c.used[name];
    var kept := KeptMembers(udt.members, accessed);
    KeptSubsequence(udt.members, accessed);
    KeptStayInside(udt.members, accessed, udt.totalSize);
    PaddingFromCursor(kept, 0, udt.totalSize, b);
    if m :| m in udt.members && SpanUsed(m, accessed) && (Occupies(m, b) || EmptyInside(m, b)) {
      InMemberIff(m, b);
      TrimmingTestsAgree(m, accessed);
      assert m in kept;
    } else {
      forall i | 0 <= i < |kept|
        ensures !InMember(kept[i], b)
      {
        assert kept[i] in kept;
        InMemberIff(kept[i], b);
        TrimmingTestsAgree(kept[i], accessed);
      }
    }
  }

  /** The lines go up by offset, and a padding line is not empty and ends where the next line, that of
      a member, starts, or at the end of the struct. */
  ghost predicate Tidy(lines: seq<Line>, totalSize: nat) {
    && (forall i, j :: 0 <= i < j < |lines| ==> lines[i].byteOffset <= lines[j].byteOffset)
    && (forall i :: 0 <= i < |lines| && lines[i].Padding? ==>
          && lines[i].byteSize > 0
          && lines[i].byteOffset + lines[i].byteSize == (if i + 1 < |lines| then lines[i + 1].byteOffset else totalSize)
          && (i + 1 < |lines| ==> lines[i + 1].MemberLine?))
  }

  lemma TidyBehind(line: Line, rest: seq<Line>, totalSize: nat)
    requires Tidy(rest, totalSize) && forall i :: 0 <= i < |rest| ==> line.byteOffset <= rest[i].byteOffset
    requires line.Padding? ==>
               line.byteSize > 0 && rest != [] && rest[0].MemberLine?
               && line.byteOffset + line.byteSize == rest[0].byteOffset
    ensures Tidy([line] + rest, totalSize)
  {
  }

  lemma {:induction false} LinesAreTidy(kept: seq<Member>, cursor: nat, totalSize: nat, low: nat)
    requires SortedByOffset(kept) && low <= cursor && forall m :: m in kept ==> low <= StartByte(m)
    ensures Tidy(TrimmedLines(kept, cursor, totalSize), totalSize)
    ensures forall line :: line in TrimmedLines(kept, cursor, totalSize) ==> low <= line.byteOffset
  {
    if kept != [] {
      var m, rest := kept[0], kept[1..];
      var next := Max(cursor, EndByte(m));
      assert forall i :: 0 <= i < |rest| ==> rest[i] == kept[i + 1];
      forall x | x in rest
        ensures StartByte(m) <= StartByte(x)
      {
        var i :| 0 <= i < |rest| && rest[i] == x;
        assert kept[0].bitOffset <= kept[i + 1].bitOffset;
      }
      LinesAreTidy(rest, next, totalSize, StartByte(m));
      MemberKeepsTidy(m, cursor, TrimmedLines(rest, next, totalSize), totalSize, low);
    }
  }

  lemma MemberKeepsTidy(m: Member, cursor: nat, behind: seq<Line>, totalSize: nat, low: nat)
    requires Tidy(behind, totalSize) && forall i :: 0 <= i < |behind| ==> StartByte(m) <= behind[i].byteOffset
    requires low <= cursor && low <= StartByte(m)
    ensures Tidy(Pad(cursor, StartByte(m)) + [LineOf(m)] + behind, totalSize)
    ensures forall line :: line in Pad(cursor, StartByte(m)) + [LineOf(m)] + behind ==> low <= line.byteOffset
  {
    var tail := [LineOf(m)] + behind;
    TidyBehind(LineOf(m), behind, totalSize);
    if cursor < StartByte(m) {
      var pad := Padding(cursor, StartByte(m) - cursor);
      TidyBehind(pad, tail, totalSize);
      assert Pad(cursor, StartByte(m)) + [LineOf(m)] + behind == [pad] + tail;
    } else {
      assert Pad(cursor, StartByte(m)) + [LineOf(m)] + behind == tail;
    }
  }

  /** In a trimmed body of sorted members the padding lines stand between the right members. */
  lemma TrimmedBodyIsTidy(c: Context, name: string, udt: Udt)
    requires SortedByOffset(udt.members)
    requires c.trim && !udt.isUnion && BodyOf(c, name, udt).Lines?
    ensures Tidy(BodyOf(c, name, udt).lines, udt.totalSize)
  {
    KeptSubsequence(udt.members, c.used[name]);
    LinesAreTidy(KeptMembers(udt.members, c.used[name]), 0, udt.totalSize, 0);
  }

  lemma KeptStayInside(members: seq<Member>, accessed: set<int>, totalSize: nat)
    requires Inside(members, totalSize)
    ensures Inside(KeptMembers(members, accessed), totalSize)
  {
    var kept := KeptMembers(members, accessed);
    KeptSubsequence(members, accessed);
    forall i | 0 <= i < |kept|
      ensures IsInside(kept[i], totalSize)
    {
      assert kept[i] in members;
    }
  }

  // ----- used bytes and what is printed for them -----

  /** Trimming counts a bitfield by its whole bytes, at least one, from its first byte; the layout
      rounds it out.  The bytes in between are in the bitfield but do not keep it. */
  predicate PastSpan(m: Member, b: nat) {
    m.isBitfield && b >= StartByte(m) + Max(1, m.bitSize / 8)
  }

  /** The bytes that count for trimming, with the casts to 32 bits. */
  predicate InSpan(m: Member, b: int) {
    ByteOffset(m) <= b < ByteOffset(m) + ByteSpan(m)
  }

  /** Below 2^31 the casts change nothing: the span starts with the member and ends with its last
      whole byte, and has at least one byte. */
  lemma SpanIs(m: Member)
    requires EndByte(m) < 0x8000_0000
    ensures ByteOffset(m) == StartByte(m) && ByteSpan(m) == Max(1, m.bitSize / 8)
    ensures forall b: nat :: InMember(m, b) ==> (InSpan(m, b) <==> !PastSpan(m, b))
  {
    assert StartByte(m) + m.bitSize / 8 <= EndByte(m);
  }

  /** A byte, once used, keeps the member exactly when it is in its span; for a byte of a member that
      ends below 2^31 that is when it is not past the span. */
  lemma UsedByteKeepsIff(m: Member, b: nat)
    ensures (forall accessed :: b in accessed ==> Keeps(m, accessed)) <==> InSpan(m, b)
    ensures InMember(m, b) && EndByte(m) < 0x8000_0000 ==> (InSpan(m, b) <==> !PastSpan(m, b))
  {
    forall accessed | b in accessed && InSpan(m, b)
      ensures Keeps(m, accessed)
    {
      TrimmingTestsAgree(m, accessed);
    }
    TrimmingTestsAgree(m, {b});
    assert b in {b};
    if EndByte(m) < 0x8000_0000 {
      SpanIs(m);
    }
  }

  /** All bytes of a member keep it exactly when its span covers it; for a member that ends below
      2^31 that is when it is no bitfield that reaches past its whole bytes. */
  lemma MemberKeptByAllBytesIff(m: Member)
    ensures (forall b: nat, accessed :: InMember(m, b) && b in accessed ==> Keeps(m, accessed))
       <==> forall b: nat :: InMember(m, b) ==> InSpan(m, b)
    ensures EndByte(m) < 0x8000_0000 ==>
              ((forall b: nat :: InMember(m, b) ==> InSpan(m, b))
          <==> !m.isBitfield || EndByte(m) <= StartByte(m) + Max(1, m.bitSize / 8))
  {
    forall b: nat
      ensures (forall accessed :: b in accessed ==> Keeps(m, accessed)) <==> InSpan(m, b)
    {
      UsedByteKeepsIff(m, b);
    }
    if EndByte(m) < 0x8000_0000 {
      SpanIs(m);
      if m.isBitfield && EndByte(m) > StartByte(m) + Max(1, m.bitSize / 8) {
        assert InMember(m, EndByte(m) - 1) && PastSpan(m, EndByte(m) - 1);
      }
    }
  }

  /** A used byte that some member holds within its span is never printed as padding. */
  lemma UsedByteIsShown(c: Context, name: string, udt: Udt, m: Member, b: nat)
    requires SortedByOffset(udt.members) && Inside(udt.members, udt.totalSize)
    requires Accessed(c, name, udt.isUnion).Some? && b in Accessed(c, name, udt.isUnion).value
    requires m in udt.members && InMember(m, b) && InSpan(m, b)
    ensures BodyOf(c, name, udt).Lines? && PaddingCount(BodyOf(c, name, udt).lines, b) == 0
  {
    UsedByteKeepsIff(m, b);
    KeptSubsequence(udt.members, Accessed(c, name, udt.isUnion).value);
    InMemberIff(m, b);
    TrimmingTestsAgree(m, Accessed(c, name, udt.isUnion).value);
    TrimmedBodyPartitions(c, name, udt, b);
  }

  /** A bitfield of twelve bits from bit 4 on, another from bit 16 on, and bytes 1 and 2 used: byte
      1 is in the first bitfield, which is dropped, and is printed as padding. */
  lemma UsedByteOfBitfieldIsPadding() returns (c: Context, udt: Udt)
    ensures SortedByOffset(udt.members) && Inside(udt.members, udt.totalSize)
    ensures Accessed(c, "S", udt.isUnion) == Some({1, 2})
    ensures udt.members != [] && Occupies(udt.members[0], 1)
    ensures BodyOf(c, "S", udt).Lines? && PaddingCount(BodyOf(c, "S", udt).lines, 1) == 1
  {
    var first, second := Member(Absent, 4, 12, true), Member(Absent, 16, 16, false);
    udt := Udt(false, [first, second], 4);
    c := Context(Library(map["S" := udt], map[], map[]), true, map["S" := {1, 2}]);
    FirstIsDropped(first, second);
    BodyIs(c, "S", udt);
    assert second in udt.members;
    TrimmedBodyPartitions(c, "S", udt, 1);
    forall m | m in udt.members
      ensures !(SpanUsed(m, {1, 2}) && (Occupies(m, 1) || EmptyInside(m, 1)))
    {
      assert m == first || m == second;
    }
  }

  lemma FirstIsDropped(first: Member, second: Member)
    requires first == Member(Absent, 4, 12, true) && second == Member(Absent, 16, 16, false)
    ensures !SpanUsed(first, {1, 2}) && Occupies(first, 1)
    ensures SpanUsed(second, {1, 2}) && !Occupies(second, 1)
  {
    assert ByteOffset(second) == 2 && ByteSpan(second) == 2;
    assert 2 in {1, 2};
    assert ByteOfBit(8) == 1;
  }

  /** A member without bytes, at byte 0, and byte 0 used: the member is kept, and since it holds no
      byte, byte 0 is printed as padding. */
  lemma UsedByteOfEmptyMemberIsPadding() returns (c: Context, udt: Udt)
    ensures SortedByOffset(udt.members) && Inside(udt.members, udt.totalSize)
    ensures Accessed(c, "S", udt.isUnion) == Some({0})
    ensures udt.members != [] && InSpan(udt.members[0], 0) && Keeps(udt.members[0], {0})
    ensures BodyOf(c, "S", udt).Lines? && PaddingCount(BodyOf(c, "S", udt).lines, 0) == 1
  {
    var empty := Member(Absent, 0, 0, false);
    udt := Udt(false, [empty], 4);
    c := Context(Library(map["S" := udt], map[], map[]), true, map["S" := {0}]);
    TrimmingTestsAgree(empty, {0});
    assert 0 in {0};
    assert empty in udt.members;
    KeptSubsequence(udt.members, {0});
    TrimmedBodyPartitions(c, "S", udt, 0);
  }

  /** The member lines are those of the kept members, in member order. */
  lemma {:induction false} MemberLinesInOrder(kept: seq<Member>, cursor: nat, totalSize: nat)
    ensures WithoutPadding(TrimmedLines(kept, cursor, totalSize)) == AllLines(kept)
  {
    if kept != [] {
      var next := Max(cursor, EndByte(kept[0]));
      MemberLinesInOrder(kept[1..], next, totalSize);
      var pad := Pad(cursor, StartByte(kept[0]));
      var tail := [LineOf(kept[0])] + TrimmedLines(kept[1..], next, totalSize);
      assert TrimmedLines(kept, cursor, totalSize) == pad + tail;
      assert tail[1..] == TrimmedLines(kept[1..], next, totalSize);
      if pad != [] {
        assert (pad + tail)[1..] == tail;
      } else {
        assert pad + tail == tail;
      }
      assert AllLines(kept) == [LineOf(kept[0])] + AllLines(kept[1..]);
    }
  }

  function WithoutPadding(lines: seq<Line>): seq<Line> {
    if lines == [] then []
    else if lines[0].Padding? then WithoutPadding(lines[1..])
    else [lines[0]] + WithoutPadding(lines[1..])
  }

  /** The numbers of a member line: its first byte, and the bit offset in it and the width of a
      bitfield, or the whole bytes of another member. */
  predicate Describes(line: Line, m: Member) {
    && line.MemberLine?
    && line.isBitfield == m.isBitfield
    && line.byteOffset * 8 <= m.bitOffset < line.byteOffset * 8 + 8
    && (m.isBitfield ==>
          line.byteSize == 0 && line.byteOffset * 8 + line.bitOffset == m.bitOffset && line.bitSize == m.bitSize)
    && (!m.isBitfield ==>
          line.bitOffset == 0 && line.bitSize == 0 && line.byteSize * 8 <= m.bitSize < line.byteSize * 8 + 8)
  }

  lemma LineDescribes(m: Member)
    ensures Describes(LineOf(m), m)
  {
  }

  /** The body of a struct or union names, in member order, the members that the walk visits: all of
      them, or when trimming applies those with a used offset in their span. */
  lemma BodyListsMembers(c: Context, name: string, udt: Udt) returns (at: seq<nat>)
    requires BodyOf(c, name, udt).Lines?
    ensures var trims := c.trim && !udt.isUnion;
            var lines := WithoutPadding(BodyOf(c, name, udt).lines);
            && (trims ==> name in c.used && c.used[name] != {})
            && Selects(udt.members, if trims then Some(c.used[name]) else None, at)
            && |lines| == |at|
            && (forall j :: 0 <= j < |at| ==> Describes(lines[j], udt.members[at[j]]))
            && (!trims ==> lines == BodyOf(c, name, udt).lines)
  {
    var used := Accessed(c, name, udt.isUnion);
    if used.None? {
      at := seq(|udt.members|, i => i);
      NoPadding(udt.members);
      forall k | 0 <= k < |udt.members|
        ensures k in at
      {
        assert at[k] == k;
      }
      forall j | 0 <= j < |at|
        ensures Describes(AllLines(udt.members)[j], udt.members[at[j]])
      {
        LineDescribes(udt.members[j]);
      }
    } else {
      at := KeptAt(udt.members, used.value);
      var kept := KeptMembers(udt.members, used.value);
      MemberLinesInOrder(kept, 0, udt.totalSize);
      forall j | 0 <= j < |at|
        ensures Describes(AllLines(kept)[j], udt.members[at[j]])
      {
        LineDescribes(kept[j]);
      }
    }
  }

  lemma {:induction false} NoPadding(members: seq<Member>)
    ensures WithoutPadding(AllLines(members)) == AllLines(members)
  {
    if members != [] {
      NoPadding(members[1..]);
      assert AllLines(members)[1..] == AllLines(members[1..]);
    }
  }

  lemma {:induction false} KeptAt(members: seq<Member>, used: set<int>) returns (at: seq<nat>)
    ensures Selects(members, Some(used), at)
    ensures |KeptMembers(members, used)| == |at|
    ensures forall j :: 0 <= j < |at| ==> KeptMembers(members, used)[j] == members[at[j]]
  {
    if members == [] {
      at := [];
    } else {
      var inRest := KeptAt(members[1..], used);
      var shifted := seq(|inRest|, j requires 0 <= j < |inRest| => inRest[j] + 1);
      TrimmingTestsAgree(members[0], used);
      var head := if Keeps(members[0], used) then [0] else [];
      at := head + shifted;
      SelectsMore(members, Some(used), inRest, head, shifted);
      MembersShift(members, inRest, head, shifted, KeptMembers(members[1..], used));
    }
  }

  lemma MembersShift(members: seq<Member>, inRest: seq<nat>, head: seq<nat>, shifted: seq<nat>, kept: seq<Member>)
    requires members != [] && (head == [] || head == [0]) && |kept| == |inRest| == |shifted|
    requires forall j :: 0 <= j < |inRest| ==> shifted[j] == inRest[j] + 1 && inRest[j] + 1 < |members|
    requires forall j :: 0 <= j < |inRest| ==> kept[j] == members[1..][inRest[j]]
    ensures forall j :: 0 <= j < |head + shifted| ==> (head + shifted)[j] < |members|
    ensures var all := (if head == [] then [] else [members[0]]) + kept;
            |all| == |head + shifted| && forall j :: 0 <= j < |all| ==> all[j] == members[(head + shifted)[j]]
  {
  }

  /** What is printed for a struct or union: nothing when trimming is on and no offset is used, a blob
      when no used offset is in the span of a member, and a body otherwise. */
  lemma BodyIs(c: Context, name: string, udt: Udt)
    ensures BodyOf(c, name, udt).Omitted?
       <==> c.trim && !udt.isUnion && (name !in c.used || c.used[name] == {})
    ensures BodyOf(c, name, udt) == Opaque(udt.totalSize)
       <==> (c.trim && !udt.isUnion && name in c.used && c.used[name] != {} &&
             forall m :: m in udt.members ==> !SpanUsed(m, c.used[name]))
    ensures BodyOf(c, name, udt).Opaque? ==> BodyOf(c, name, udt) == Opaque(udt.totalSize)
  {
    if name in c.used {
      KeptSubsequence(udt.members, c.used[name]);
      var kept := KeptMembers(udt.members, c.used[name]);
      assert kept != [] ==> kept[0] in kept;
      forall m
        ensures Keeps(m, c.used[name]) <==> SpanUsed(m, c.used[name])
      {
        TrimmingTestsAgree(m, c.used[name]);
      }
    }
  }

  /** A struct is left out of the text exactly when the walk drops it. */
  lemma OmittedIffDropped(c: Context, name: string)
    requires name in c.lib.decls
    ensures BodyOf(c, name, c.lib.decls[name]).Omitted? <==> Dropped(c, name)
  {
  }

  /** The walk follows exactly the types of the members that the body shows. */
  lemma {:induction false} WalkFollowsKeptMembers(members: seq<Member>, accessed: set<int>)
    ensures |KeptTypes(members, Some(accessed))| == |KeptMembers(members, accessed)|
    ensures forall i :: 0 <= i < |KeptMembers(members, accessed)| ==>
              KeptTypes(members, Some(accessed))[i] == KeptMembers(members, accessed)[i].typ
  {
    if members != [] {
      WalkFollowsKeptMembers(members[1..], accessed);
      TrimmingTestsAgree(members[0], accessed);
    }
  }
}
