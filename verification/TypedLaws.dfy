/** What the typed codec promises: where a write lands, when it succeeds, and what a later read
    returns. */
module TypedLaws {
  import opened Common
  import opened TypedCodec
  import opened ElementSequences

  // ----- the frame -----

  lemma {:induction false} ByteIntegerSize(t: Type)
    requires IsByteInteger(t)
    ensures Size(t) == 1
  {
    if t.Typedef? {
      ByteIntegerSize(t.target);
    }
  }

  /** A write covers a prefix of the value's bytes, and all of them exactly when it succeeds. */
  lemma {:induction false} EncodedLength(a: U64, t: Type, v: Value, depth: nat)
    ensures Sized(Encode(a, t, v, depth), Size(t))
    decreases t
  {
    if depth <= MAX_TYPED_DEPTH {
      match t
      case Typedef(target) => EncodedLength(a, target, v, depth);
      case Array(e, n) =>
        if IsByteInteger(e) {
          ByteIntegerSize(e);
        }
        if v.Elements? && |v.elements| == n && Size(e) > 0 {
          var f := ElementWriter(e, depth + 1);
          forall p: U64, x | x in v.elements
            ensures Sized(f(p, x), Size(e))
          {
            EncodedLength(p, e, x, depth + 1);
          }
          WriteSeqLength(a, Size(e), v.elements, f);
        }
      case _ =>
    }
  }

  lemma BlitTwice(mem: Memory, a: int, xs: seq<Byte>, b: int, ys: seq<Byte>)
    requires b == a + |xs|
    ensures Blit(Blit(mem, a, xs), b, ys) == Blit(mem, a, xs + ys)
  {
  }

  /** Whatever happens, a write of type `t` at `a` touches only `[a, a + Size(t))`. */
  lemma WriteFrame(mem: Memory, a: U64, t: Type, v: Value, depth: nat, x: int)
    requires x in mem
    requires !(a <= x < a + Size(t))
    ensures Blit(mem, a, Encode(a, t, v, depth).bytes)[x] == mem[x]
  {
    EncodedLength(a, t, v, depth);
  }

  // ----- when a write succeeds -----

  function NumberOf(v: Value): Option<int> {
    match v
    case Unsigned(u) => Some(u)
    case Signed(s) => Some(s)
    case _ => None
  }

  predicate InRange(w: nat, signed: bool, x: int) {
    if signed then 0 <= 2 * x + Bound(w) && 2 * x < Bound(w) else 0 <= x < Bound(w)
  }

  predicate IsIntegerFor(w: nat, signed: bool, v: Value) {
    IsWidth(w) && NumberOf(v).Some? && InRange(w, signed, NumberOf(v).value)
  }

  predicate IsPointerFor(w: nat, v: Value) {
    IsWidth(w) && ((v.PointerTo? && v.address < Bound(w)) || (v.Unsigned? && v.u < Bound(w)))
  }

  /** An integer write succeeds exactly when the width is fixed and the number is in range. */
  lemma IntegerWriteIff(w: nat, signed: bool, v: Value)
    ensures EncodeInteger(w, signed, v).status.Ok? <==> IsIntegerFor(w, signed, v)
  {
  }

  /** The value has the form and the numbers that the type asks for. */
  predicate Shaped(t: Type, v: Value)
    decreases t
  {
    match t
    case Typedef(target) => Shaped(target, v)
    case Int(w, signed) => IsIntegerFor(w, signed, v)
    case Enum(w, signed) => IsIntegerFor(w, signed, v)
    case Pointer(w) => IsPointerFor(w, v)
    case Blob(n) => n > 0 && v.Bytes? && |v.bytes| == n
    case Array(e, n) =>
      if IsByteInteger(e) && v.Bytes? then |v.bytes| == n
      else if IsByteInteger(e) && v.Str? then |v.text| <= n
      else
        && v.Elements? && |v.elements| == n && Size(e) > 0
        && forall i :: 0 <= i < n ==> Shaped(e, v.elements[i])
  }

  /** How far past the start the last separately addressed element begins. */
  function LastOffset(t: Type, v: Value): nat
    decreases t
  {
    match t
    case Typedef(target) => LastOffset(target, v)
    case Array(e, n) =>
      if v.Elements? && v.elements != [] then
        (|v.elements| - 1) * Size(e) + LastOffset(e, v.elements[|v.elements| - 1])
      else 0
    case _ => 0
  }

  /** The nesting of element-wise written, non-empty arrays. */
  function Levels(t: Type, v: Value): nat
    decreases t, 0, 0
  {
    match t
    case Typedef(target) => Levels(target, v)
    case Array(e, _) => if v.Elements? && v.elements != [] then 1 + MaxLevels(e, v.elements) else 0
    case _ => 0
  }

  function MaxLevels(e: Type, vs: seq<Value>): (m: nat)
    ensures forall i :: 0 <= i < |vs| ==> Levels(e, vs[i]) <= m
    ensures vs != [] ==> exists i :: 0 <= i < |vs| && Levels(e, vs[i]) == m
    decreases e, 1, |vs|
  {
    if vs == [] then 0
    else
      var rest := MaxLevels(e, vs[1..]);
      assert forall i :: 0 < i < |vs| ==> vs[i] == vs[1..][i - 1];
      if Levels(e, vs[0]) > rest || |vs| == 1 then
        assert Levels(e, vs[0]) >= rest;
        Levels(e, vs[0])
      else
        assert exists i :: 0 <= i < |vs[1..]| && Levels(e, vs[1..][i]) == rest;
        rest
  }

  lemma {:induction false} LastOffsetInside(t: Type, v: Value)
    requires Shaped(t, v) && Size(t) > 0
    ensures LastOffset(t, v) < Size(t)
    decreases t
  {
    match t
    case Typedef(target) => LastOffsetInside(target, v);
    case Array(e, n) =>
      if v.Elements? && v.elements != [] {
        LastOffsetInside(e, v.elements[n - 1]);
        OneMore(n, Size(e));
      }
    case _ =>
  }

  predicate Accepts(a: int, t: Type, v: Value, depth: nat) {
    Shaped(t, v) && a + LastOffset(t, v) <= BAD_ADDRESS && depth + Levels(t, v) <= MAX_TYPED_DEPTH
  }

  /** A write succeeds exactly when the value has the right shape, its last element starts
      within the address space, and its array nesting stays within the depth bound. */
  lemma {:induction false} WriteSucceedsIff(a: U64, t: Type, v: Value, depth: nat)
    ensures Encode(a, t, v, depth).status.Ok? <==> Accepts(a, t, v, depth)
    decreases t, 0
  {
    if depth <= MAX_TYPED_DEPTH {
      match t
      case Typedef(target) => WriteSucceedsIff(a, target, v, depth);
      case Array(e, n) =>
        if v.Elements? {
          ElementsSucceedIff(a, e, v.elements, depth);
        }
        ArrayWriteIff(a, e, n, v, depth);
      case _ => ScalarWriteIff(a, t, v, depth);
    }
  }

  lemma ScalarWriteIff(a: U64, t: Type, v: Value, depth: nat)
    requires depth <= MAX_TYPED_DEPTH && !t.Array? && !t.Typedef?
    ensures Encode(a, t, v, depth).status.Ok? <==> Shaped(t, v)
  {
  }

  lemma ArrayWriteIff(a: U64, e: Type, n: nat, v: Value, depth: nat)
    requires depth <= MAX_TYPED_DEPTH
    requires v.Elements? ==>
               (WriteSeq(a, Size(e), v.elements, ElementWriter(e, depth + 1)).status.Ok?
           <==> forall j :: 0 <= j < |v.elements| ==> ElementAccepts(a, e, v.elements, depth, j))
    ensures Encode(a, Array(e, n), v, depth).status.Ok? <==> Accepts(a, Array(e, n), v, depth)
  {
    if v.Elements? && |v.elements| == n && Size(e) > 0 {
      ArrayAcceptsIff(a, e, v.elements, depth);
    }
  }

  lemma {:induction false} ElementsSucceedIff(a: U64, e: Type, vs: seq<Value>, depth: nat)
    ensures WriteSeq(a, Size(e), vs, ElementWriter(e, depth + 1)).status.Ok?
       <==> forall j :: 0 <= j < |vs| ==> ElementAccepts(a, e, vs, depth, j)
    decreases e, 1
  {
    var f, size := ElementWriter(e, depth + 1), Size(e);
    WriteSeqSucceedsIff(a, size, vs, f);
    forall j | 0 <= j < |vs|
      ensures ElementAccepted(a, size, vs, f, j) <==> ElementAccepts(a, e, vs, depth, j)
    {
      if a + j * size <= BAD_ADDRESS {
        WriteSucceedsIff(a + j * size, e, vs[j], depth + 1);
      }
    }
  }

  predicate ElementAccepts(a: int, e: Type, vs: seq<Value>, depth: nat, j: nat)
    requires j < |vs|
  {
    Accepts(a + j * Size(e), e, vs[j], depth + 1)
  }

  lemma EarlierEndsBefore(i: nat, j: nat, size: nat)
    requires i < j
    ensures i * size + size <= j * size
  {
    assert j * size == (i + 1) * size + (j - i - 1) * size;
  }

  /** The last element decides the address condition, the deepest one the nesting condition. */
  lemma ArrayAcceptsIff(a: U64, e: Type, vs: seq<Value>, depth: nat)
    requires Size(e) > 0 && depth <= MAX_TYPED_DEPTH
    ensures (forall j :: 0 <= j < |vs| ==> ElementAccepts(a, e, vs, depth, j))
       <==> Accepts(a, Array(e, |vs|), Elements(vs), depth)
  {
    var n := |vs|;
    if n > 0 {
      if forall j :: 0 <= j < n ==> ElementAccepts(a, e, vs, depth, j) {
        assert ElementAccepts(a, e, vs, depth, n - 1);
        var deepest :| 0 <= deepest < n && Levels(e, vs[deepest]) == MaxLevels(e, vs);
        assert ElementAccepts(a, e, vs, depth, deepest);
        assert forall j :: 0 <= j < n ==> ElementAccepts(a, e, vs, depth, j) ==> Shaped(e, vs[j]);
      }
      if Accepts(a, Array(e, n), Elements(vs), depth) {
        forall j | 0 <= j < n
          ensures ElementAccepts(a, e, vs, depth, j)
        {
          if j < n - 1 {
            LastOffsetInside(e, vs[j]);
            EarlierEndsBefore(j, n - 1, Size(e));
          }
        }
      }
    }
  }

  // ----- where a failed write stops -----

  /** The first element from `i` on that a write refuses, or |vs|. */
  function FirstRefused(a: int, e: Type, vs: seq<Value>, depth: nat, i: nat): (k: nat)
    requires i <= |vs|
    ensures i <= k <= |vs|
    ensures forall j :: i <= j < k ==> ElementAccepts(a, e, vs, depth, j)
    ensures k < |vs| ==> !ElementAccepts(a, e, vs, depth, k)
    decreases |vs| - i
  {
    if i == |vs| || !ElementAccepts(a, e, vs, depth, i) then i else FirstRefused(a, e, vs, depth, i + 1)
  }

  /** How far a refused write gets: nowhere for a scalar or a value of the wrong form; in an
      array through all elements before the first refused one, and then as far as that one gets. */
  function StopOf(a: int, t: Type, v: Value, depth: nat): nat
    decreases t
  {
    if a > BAD_ADDRESS || depth > MAX_TYPED_DEPTH then 0
    else
      match t
      case Typedef(target) => StopOf(a, target, v, depth)
      case Array(e, n) =>
        if !v.Elements? || |v.elements| != n || Size(e) == 0 then 0
        else
          var k := FirstRefused(a, e, v.elements, depth, 0);
          if k == n then 0
          else k * Size(e) + StopOf(a + k * Size(e), e, v.elements[k], depth + 1)
      case _ => 0
  }

  /** `f` writes elements of type `e` as far as success and lengths go. */
  ghost predicate WritesLike(f: (U64, Value) -> Encoding, e: Type, depth: nat) {
    forall p: U64, x :: Sized(f(p, x), Size(e)) && (f(p, x).status.Ok? <==> Accepts(p, e, x, depth))
  }

  lemma ElementWriterWrites(e: Type, depth: nat)
    ensures WritesLike(ElementWriter(e, depth), e, depth)
  {
    var f := ElementWriter(e, depth);
    forall p: U64, x
      ensures Sized(f(p, x), Size(e)) && (f(p, x).status.Ok? <==> Accepts(p, e, x, depth))
    {
      EncodedLength(p, e, x, depth);
      WriteSucceedsIff(p, e, x, depth);
    }
  }

  lemma AcceptedIff(a: U64, e: Type, vs: seq<Value>, depth: nat, f: (U64, Value) -> Encoding, j: nat)
    requires WritesLike(f, e, depth + 1) && j < |vs|
    ensures ElementAccepted(a, Size(e), vs, f, j) <==> ElementAccepts(a, e, vs, depth, j)
  {
  }

  lemma FirstRefusedIs(a: int, e: Type, vs: seq<Value>, depth: nat, k: nat)
    requires k < |vs| && !ElementAccepts(a, e, vs, depth, k)
    requires forall j :: 0 <= j < k ==> ElementAccepts(a, e, vs, depth, j)
    ensures FirstRefused(a, e, vs, depth, 0) == k
  {
  }

  /** The first element that the loop refuses is the first refused one. */
  lemma LoopRefusal(a: U64, e: Type, vs: seq<Value>, depth: nat, f: (U64, Value) -> Encoding, k: nat)
    requires WritesLike(f, e, depth + 1)
    requires k < |vs| && !ElementAccepted(a, Size(e), vs, f, k)
    requires forall j :: 0 <= j < k ==> ElementAccepted(a, Size(e), vs, f, j)
    ensures FirstRefused(a, e, vs, depth, 0) == k
  {
    forall j | 0 <= j < k
      ensures ElementAccepts(a, e, vs, depth, j)
    {
      AcceptedIff(a, e, vs, depth, f, j);
    }
    AcceptedIff(a, e, vs, depth, f, k);
    FirstRefusedIs(a, e, vs, depth, k);
  }

  /** A failed write lays down exactly the bytes before its stop. */
  lemma {:induction false} FailedWriteLength(a: U64, t: Type, v: Value, depth: nat)
    requires Encode(a, t, v, depth).status.Err?
    ensures |Encode(a, t, v, depth).bytes| == StopOf(a, t, v, depth)
    decreases t
  {
    if depth <= MAX_TYPED_DEPTH {
      match t
      case Typedef(target) => FailedWriteLength(a, target, v, depth);
      case Array(e, n) =>
        if v.Elements? && |v.elements| == n && Size(e) > 0 {
          var f := ElementWriter(e, depth + 1);
          ElementWriterWrites(e, depth + 1);
          var k, tail := FirstRefusalStops(a, Size(e), v.elements, f);
          LoopRefusal(a, e, v.elements, depth, f, k);
          if a + k * Size(e) <= BAD_ADDRESS {
            FailedWriteLength(a + k * Size(e), e, v.elements[k], depth + 1);
          }
        }
      case _ =>
    }
  }

  /** A failed write changes nothing from its stop on. */
  lemma FailedWriteFrame(mem: Memory, a: U64, t: Type, v: Value, depth: nat, x: int)
    requires Encode(a, t, v, depth).status.Err?
    requires x in mem && !(a <= x < a + StopOf(a, t, v, depth))
    ensures Blit(mem, a, Encode(a, t, v, depth).bytes)[x] == mem[x]
  {
    FailedWriteLength(a, t, v, depth);
  }

  /** The write of the elements before the first refused one is a prefix of the failed write. */
  lemma FailedPrefix(a: U64, e: Type, vs: seq<Value>, depth: nat) returns (k: nat)
    requires depth <= MAX_TYPED_DEPTH && Size(e) > 0
    requires Encode(a, Array(e, |vs|), Elements(vs), depth).status.Err?
    ensures k < |vs| && k == FirstRefused(a, e, vs, depth, 0)
    ensures var prefix := Encode(a, Array(e, k), Elements(vs[..k]), depth);
            && prefix.status.Ok? && |prefix.bytes| == k * Size(e)
            && prefix.bytes <= Encode(a, Array(e, |vs|), Elements(vs), depth).bytes
  {
    var f := ElementWriter(e, depth + 1);
    ElementWriterWrites(e, depth + 1);
    var tail: nat;
    k, tail := FirstRefusalStops(a, Size(e), vs, f);
    LoopRefusal(a, e, vs, depth, f, k);
  }

  lemma BlitPrefix(mem: Memory, a: int, xs: seq<Byte>, ys: seq<Byte>, x: int)
    requires xs <= ys && x in mem && x < a + |xs|
    ensures Blit(mem, a, ys)[x] == Blit(mem, a, xs)[x]
  {
  }

  /** A failed element-wise array write is complete up to the first refused element `k`; from
      there it goes exactly as far as element `k` alone, which is nowhere for a scalar. */
  lemma FailedArrayWriteStops(mem: Memory, a: U64, e: Type, vs: seq<Value>, depth: nat) returns (k: nat, stop: nat)
    requires depth <= MAX_TYPED_DEPTH && Size(e) > 0
    requires Encode(a, Array(e, |vs|), Elements(vs), depth).status.Err?
    ensures k < |vs| && Encode(a, Array(e, k), Elements(vs[..k]), depth).status.Ok?
    ensures stop == k * Size(e) + StopOf(a + k * Size(e), e, vs[k], depth + 1)
    ensures !e.Array? && !e.Typedef? ==> stop == k * Size(e)
    ensures a + k * Size(e) <= BAD_ADDRESS ==> Encode(a + k * Size(e), e, vs[k], depth + 1).status.Err?
    ensures forall x :: x in mem && !(a <= x < a + stop) ==>
              Blit(mem, a, Encode(a, Array(e, |vs|), Elements(vs), depth).bytes)[x] == mem[x]
    ensures var failed := Blit(mem, a, Encode(a, Array(e, |vs|), Elements(vs), depth).bytes);
            var prefix := Blit(mem, a, Encode(a, Array(e, k), Elements(vs[..k]), depth).bytes);
            forall x :: x in mem && x < a + k * Size(e) ==> failed[x] == prefix[x]
  {
    k := FailedPrefix(a, e, vs, depth);
    stop := k * Size(e) + StopOf(a + k * Size(e), e, vs[k], depth + 1);
    if a + k * Size(e) <= BAD_ADDRESS {
      WriteSucceedsIff(a + k * Size(e), e, vs[k], depth + 1);
    }
    forall x | x in mem && !(a <= x < a + stop)
      ensures Blit(mem, a, Encode(a, Array(e, |vs|), Elements(vs), depth).bytes)[x] == mem[x]
    {
      FailedWriteFrame(mem, a, Array(e, |vs|), Elements(vs), depth, x);
    }
    forall x | x in mem && x < a + k * Size(e)
      ensures Blit(mem, a, Encode(a, Array(e, |vs|), Elements(vs), depth).bytes)[x]
           == Blit(mem, a, Encode(a, Array(e, k), Elements(vs[..k]), depth).bytes)[x]
    {
      BlitPrefix(mem, a, Encode(a, Array(e, k), Elements(vs[..k]), depth).bytes,
                 Encode(a, Array(e, |vs|), Elements(vs), depth).bytes, x);
    }
  }

  // ----- round trips -----

  /** The byte that a number leaves in a one-byte element. */
  function ByteOf(v: Value): Byte {
    if NumberOf(v).Some? then NumberOf(v).value % 256 else 0
  }

  /** The content of a byte array of length `n` after `v` was written to it. */
  function ByteContent(n: nat, v: Value): seq<Byte> {
    match v
    case Bytes(bs) => bs
    case Str(text, _) => if |text| <= n then text + Zeros(n - |text|) else []
    case Elements(vs) => seq(|vs|, i requires 0 <= i < |vs| => ByteOf(vs[i]))
    case _ => []
  }

  /** The value that reads back after `v` was written as type `t`: numbers keep their value and
      take the sign kind of the type, byte arrays are classified anew. */
  function Normal(t: Type, v: Value): Value
    requires Shaped(t, v)
    decreases t
  {
    match t
    case Typedef(target) => Normal(target, v)
    case Int(_, signed) => if signed then Signed(NumberOf(v).value) else Unsigned(NumberOf(v).value)
    case Enum(_, signed) => if signed then Signed(NumberOf(v).value) else Unsigned(NumberOf(v).value)
    case Pointer(_) => if v.PointerTo? then v else PointerTo(v.u)
    case Blob(_) => v
    case Array(e, n) =>
      if IsByteInteger(e) then Classify(ByteContent(n, v))
      else Elements(seq(n, i requires 0 <= i < n => Normal(e, v.elements[i])))
  }

  lemma {:induction false} ByteElementWrites(a: U64, t: Type, v: Value, depth: nat)
    requires IsByteInteger(t) && Encode(a, t, v, depth).status.Ok?
    ensures Encode(a, t, v, depth).bytes == [ByteOf(v)]
    decreases t
  {
    match t
    case Typedef(target) => ByteElementWrites(a, target, v, depth);
    case Int(w, signed) =>
      IntegerWriteIff(w, signed, v);
      var x := NumberOf(v).value;
      assert LittleEndian(x % 256, 1) == [x % 256 % 256] + LittleEndian(x % 256 / 256, 0);
  }

  lemma ByteArrayWrites(a: U64, e: Type, n: nat, v: Value, depth: nat)
    requires IsByteInteger(e) && Encode(a, Array(e, n), v, depth).status.Ok?
    ensures Encode(a, Array(e, n), v, depth).bytes == ByteContent(n, v)
  {
    if v.Elements? {
      ByteIntegerSize(e);
      var f := ElementWriter(e, depth + 1);
      forall p: U64, x | x in v.elements && f(p, x).status.Ok?
        ensures f(p, x).bytes == [ByteOf(x)]
      {
        ByteElementWrites(p, e, x, depth + 1);
      }
      WriteSeqOfBytes(a, v.elements, f, ByteOf);
    }
  }

  lemma BlitHolds(mem: Memory, a: int, bs: seq<Byte>)
    requires Mapped(mem, a, |bs|)
    ensures Holds(Blit(mem, a, bs), a, bs)
  {
  }

  /** Two's complement: the stored form of a number in range decodes to the number. */
  lemma SignedStoredForm(w: nat, x: int)
    requires IsWidth(w) && InRange(w, true, x)
    ensures 0 <= x % Bound(w) < Bound(w) && ToSigned(w, x % Bound(w)) == x
  {
  }

  lemma StoredReadsBack(mem: Memory, a: U64, w: nat, stored: nat)
    requires IsWidth(w) && stored < Bound(w) && Holds(mem, a, LittleEndian(stored, w))
    ensures ReadUnsignedFixed(mem, a, w) == Ok(stored)
  {
    BoundIsPower(w);
    DecodeEncode(stored, w);
    assert a in mem;
  }

  lemma IntegerReadsBack(mem: Memory, a: U64, w: nat, signed: bool, v: Value)
    requires IsIntegerFor(w, signed, v) && Holds(mem, a, EncodeInteger(w, signed, v).bytes)
    ensures ReadInteger(mem, a, w, signed)
         == Ok(if signed then Signed(NumberOf(v).value) else Unsigned(NumberOf(v).value))
  {
    IntegerWriteIff(w, signed, v);
    var x := NumberOf(v).value;
    if signed {
      SignedStoredForm(w, x);
      StoredReadsBack(mem, a, w, x % Bound(w));
    } else {
      StoredReadsBack(mem, a, w, x);
    }
  }

  lemma {:induction false} ReadsBack(mem: Memory, a: U64, t: Type, v: Value, depth: nat)
    requires Encode(a, t, v, depth).status.Ok? && Holds(mem, a, Encode(a, t, v, depth).bytes)
    ensures Shaped(t, v) && Read(mem, a, t, depth) == Ok(Normal(t, v))
    decreases t, 0
  {
    WriteSucceedsIff(a, t, v, depth);
    match t
    case Typedef(target) => ReadsBack(mem, a, target, v, depth);
    case Int(w, signed) => IntegerReadsBack(mem, a, w, signed, v);
    case Enum(w, signed) => IntegerReadsBack(mem, a, w, signed, v);
    case Pointer(w) => StoredReadsBack(mem, a, w, if v.PointerTo? then v.address else v.u);
    case Blob(n) =>
    case Array(e, n) =>
      EncodedLength(a, t, v, depth);
      if IsByteInteger(e) {
        ByteIntegerSize(e);
        ByteArrayWrites(a, e, n, v, depth);
      } else {
        ElementsReadBack(mem, a, e, v.elements, depth);
      }
  }

  lemma {:induction false} ElementsReadBack(mem: Memory, a: U64, e: Type, vs: seq<Value>, depth: nat)
    requires forall i :: 0 <= i < |vs| ==> Shaped(e, vs[i])
    requires WriteSeq(a, Size(e), vs, ElementWriter(e, depth + 1)).status.Ok?
    requires Holds(mem, a, WriteSeq(a, Size(e), vs, ElementWriter(e, depth + 1)).bytes)
    ensures ReadSeq(a, Size(e), |vs|, ElementReader(mem, e, depth + 1))
         == Ok(seq(|vs|, i requires 0 <= i < |vs| => Normal(e, vs[i])))
    decreases e, 1
  {
    var f, g := ElementWriter(e, depth + 1), ElementReader(mem, e, depth + 1);
    var expected := seq(|vs|, i requires 0 <= i < |vs| => Normal(e, vs[i]));
    forall p: U64, x | x in vs
      ensures Sized(f(p, x), Size(e))
    {
      EncodedLength(p, e, x, depth + 1);
    }
    forall p: U64, i | 0 <= i < |vs| && f(p, vs[i]).status.Ok? && Holds(mem, p, f(p, vs[i]).bytes)
      ensures g(p) == Ok(expected[i])
    {
      ReadsBack(mem, p, e, vs[i], depth + 1);
    }
    ReadSeqReadsBack(mem, a, Size(e), vs, f, g, expected);
  }

  /** Reading after a successful write to loaded memory returns the written value. */
  lemma WriteThenRead(mem: Memory, a: U64, t: Type, v: Value, depth: nat)
    requires Mapped(mem, a, Size(t))
    requires Encode(a, t, v, depth).status.Ok?
    ensures Shaped(t, v)
    ensures Read(Blit(mem, a, Encode(a, t, v, depth).bytes), a, t, depth) == Ok(Normal(t, v))
  {
    EncodedLength(a, t, v, depth);
    BlitHolds(mem, a, Encode(a, t, v, depth).bytes);
    ReadsBack(Blit(mem, a, Encode(a, t, v, depth).bytes), a, t, v, depth);
  }

  // ----- text -----

  lemma {:induction false} FirstNulOf(text: seq<Byte>, tail: seq<Byte>)
    requires forall i :: 0 <= i < |text| ==> text[i] != 0
    requires tail == [] || tail[0] == 0
    ensures FirstNul(text + tail) == |text|
  {
    if text == [] {
      assert text + tail == tail;
    } else {
      assert (text + tail)[1..] == text[1..] + tail;
      FirstNulOf(text[1..], tail);
    }
  }

  /** A non-empty printable string that fits reads back as the same string. */
  lemma PrintableTextReadsBack(e: Type, n: nat, text: seq<Byte>, raw: seq<Byte>)
    requires IsByteInteger(e) && 0 < |text| <= n && IsPrintableText(text)
    ensures Shaped(Array(e, n), Str(text, raw))
    ensures Normal(Array(e, n), Str(text, raw)) == Str(text, text + Zeros(n - |text|))
  {
    FirstNulOf(text, Zeros(n - |text|));
    assert (text + Zeros(n - |text|))[..|text|] == text;
  }

  /** Whatever bytes are written to a byte array are the bytes that read back. */
  lemma BytesReadBack(e: Type, n: nat, bs: seq<Byte>)
    requires IsByteInteger(e) && |bs| == n
    ensures Shaped(Array(e, n), Bytes(bs))
    ensures var v := Normal(Array(e, n), Bytes(bs)); (v.Bytes? && v.bytes == bs) || (v.Str? && v.raw == bs)
  {
  }

  // ----- writing back what was read -----

  /** Whether a value read as this type can be written again: an integer wider than eight bytes
      reads as bytes and refuses them, unless no element of its type is there. */
  predicate TakesBack(t: Type) {
    match t
    case Int(w, _) => w <= 8
    case Enum(w, _) => w <= 8
    case Pointer(_) => true
    case Array(e, n) => n == 0 || TakesBack(e)
    case Blob(_) => true
    case Typedef(target) => TakesBack(target)
  }

  /** No text in the value has anything but zeros after its first NUL. */
  predicate Faithful(v: Value) {
    match v
    case Str(text, raw) => |text| <= |raw| && raw == text + Zeros(|raw| - |text|)
    case Elements(vs) => forall i :: 0 <= i < |vs| ==> Faithful(vs[i])
    case _ => true
  }

  lemma StoredWritesBack(mem: Memory, a: U64, w: nat)
    requires ReadUnsignedFixed(mem, a, w).Ok?
    ensures ReadUnsignedFixed(mem, a, w).value < Bound(w)
    ensures LittleEndian(ReadUnsignedFixed(mem, a, w).value, w) == GetBytes(mem, a, w)
  {
    EncodeDecode(GetBytes(mem, a, w));
    BoundIsPower(w);
  }

  lemma SignedFormStored(w: nat, u: nat)
    requires IsWidth(w) && u < Bound(w)
    ensures InRange(w, true, ToSigned(w, u)) && ToSigned(w, u) % Bound(w) == u
  {
  }

  lemma IntegerWritesBack(mem: Memory, a: U64, w: nat, signed: bool)
    requires w <= 8 && ReadInteger(mem, a, w, signed).Ok?
    ensures EncodeInteger(w, signed, ReadInteger(mem, a, w, signed).value) == Encoding(GetBytes(mem, a, w), Ok(()))
    ensures Faithful(ReadInteger(mem, a, w, signed).value)
  {
    StoredWritesBack(mem, a, w);
    IntegerWriteIff(w, signed, ReadInteger(mem, a, w, signed).value);
    if signed {
      SignedFormStored(w, ReadUnsignedFixed(mem, a, w).value);
    }
  }

  lemma {:induction false} ByteIntegerTakesBack(t: Type)
    requires IsByteInteger(t)
    ensures TakesBack(t)
  {
    if t.Typedef? {
      ByteIntegerTakesBack(t.target);
    }
  }

  /** Where the type does not take its values back, writing back fails before the first byte. */
  lemma {:induction false} RefusesBack(mem: Memory, a: U64, t: Type, depth: nat)
    requires !TakesBack(t) && Read(mem, a, t, depth).Ok?
    ensures var w := Encode(a, t, Read(mem, a, t, depth).value, depth); w.status.Err? && w.bytes == []
    decreases t
  {
    match t
    case Typedef(target) => RefusesBack(mem, a, target, depth);
    case Array(e, n) =>
      if IsByteInteger(e) {
        ByteIntegerTakesBack(e);
      } else {
        RefusesBack(mem, a, e, depth + 1);
      }
    case _ =>
  }

  /** Where it does, writing back what was read succeeds, and keeps the bytes exactly when no byte
      array held data behind the first NUL of its text. */
  lemma {:induction false} ReadThenWrite(mem: Memory, a: U64, t: Type, depth: nat)
    requires TakesBack(t) && Read(mem, a, t, depth).Ok?
    ensures var v := Read(mem, a, t, depth).value;
            WritesBack(mem, a, Size(t), ElementWriter(t, depth), v, Faithful(v))
    decreases t
  {
    EncodedLength(a, t, Read(mem, a, t, depth).value, depth);
    match t
    case Typedef(target) => ReadThenWrite(mem, a, target, depth);
    case Int(w, signed) => IntegerWritesBack(mem, a, w, signed);
    case Enum(w, signed) => IntegerWritesBack(mem, a, w, signed);
    case Pointer(w) => StoredWritesBack(mem, a, w);
    case Blob(n) =>
    case Array(e, n) =>
      if IsByteInteger(e) {
        ByteIntegerSize(e);
      } else if n > 0 {
        var f, g := ElementWriter(e, depth + 1), ElementReader(mem, e, depth + 1);
        forall p: U64 | g(p).Ok?
          ensures WritesBack(mem, p, Size(e), f, g(p).value, Faithful(g(p).value))
        {
          ReadThenWrite(mem, p, e, depth + 1);
        }
        ReadSeqWritesBack(mem, a, Size(e), n, f, g, Faithful);
      }
  }

  /** Writing back what was read succeeds exactly when the type takes its values back. */
  lemma WriteBackSucceedsIff(mem: Memory, a: U64, t: Type, depth: nat)
    requires Read(mem, a, t, depth).Ok?
    ensures Encode(a, t, Read(mem, a, t, depth).value, depth).status.Ok? <==> TakesBack(t)
  {
    if TakesBack(t) {
      ReadThenWrite(mem, a, t, depth);
    } else {
      RefusesBack(mem, a, t, depth);
    }
  }

  /** It leaves memory as it was exactly when it is refused or the value is faithful. */
  lemma WriteBackUnchangedIff(mem: Memory, a: U64, t: Type, depth: nat)
    requires Mapped(mem, a, Size(t)) && Read(mem, a, t, depth).Ok?
    ensures Blit(mem, a, Encode(a, t, Read(mem, a, t, depth).value, depth).bytes) == mem
       <==> !TakesBack(t) || Faithful(Read(mem, a, t, depth).value)
  {
    var bs := Encode(a, t, Read(mem, a, t, depth).value, depth).bytes;
    if TakesBack(t) {
      ReadThenWrite(mem, a, t, depth);
      BlitSameIff(mem, a, bs);
    } else {
      RefusesBack(mem, a, t, depth);
    }
  }

  lemma BlitSameIff(mem: Memory, a: int, bs: seq<Byte>)
    requires Mapped(mem, a, |bs|)
    ensures Blit(mem, a, bs) == mem <==> bs == GetBytes(mem, a, |bs|)
  {
  }
}
