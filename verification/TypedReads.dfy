/** When a typed read succeeds and what it returns, said of the bytes in memory. */
module TypedReads {
  import opened Common
  import opened TypedCodec
  import opened ElementSequences

  // ----- typedefs -----

  /** The type behind all typedefs. */
  function Underlying(t: Type): (u: Type)
    ensures !u.Typedef?
  {
    if t.Typedef? then Underlying(t.target) else t
  }

  /** Typedefs change neither what a read returns nor what a write does. */
  lemma {:induction false} TypedefsDoNotMatter(mem: Memory, a: U64, t: Type, v: Value, depth: nat)
    ensures Read(mem, a, t, depth) == Read(mem, a, Underlying(t), depth)
    ensures Encode(a, t, v, depth) == Encode(a, Underlying(t), v, depth)
    ensures Size(t) == Size(Underlying(t))
    ensures IsByteInteger(t) <==> Underlying(t).Int? && Underlying(t).width == 1
    decreases t
  {
    if t.Typedef? {
      TypedefsDoNotMatter(mem, a, t.target, v, depth);
    }
  }

  // ----- byte arrays -----

  /** The `n` bytes at `a`; absent ones read as 0xFF. */
  predicate IsContent(mem: Memory, a: int, raw: seq<Byte>) {
    forall i :: 0 <= i < |raw| ==> raw[i] == if a + i in mem then mem[a + i] else 0xFF
  }

  /** The first `k` bytes are printable, and a NUL or the end of the array follows. */
  predicate IsTextOf(raw: seq<Byte>, k: nat) {
    && 0 < k <= |raw|
    && (forall i :: 0 <= i < k ==> 0x20 <= raw[i] <= 0x7E)
    && (k == |raw| || raw[k] == 0)
  }

  lemma TextLengthIs(raw: seq<Byte>, k: nat)
    requires IsTextOf(raw, k)
    ensures FirstNul(raw) == k
  {
    assert k < |raw| ==> raw[k] == 0;
  }

  /** An array of one-byte integers reads as text exactly when a non-empty printable prefix runs up to
      a NUL or the end, and as its plain bytes otherwise. */
  lemma ByteArrayReads(mem: Memory, a: U64, e: Type, n: nat, depth: nat, raw: seq<Byte>)
    requires Underlying(e).Int? && Underlying(e).width == 1 && depth <= 64
    requires |raw| == n && IsContent(mem, a, raw)
    ensures forall k: nat :: IsTextOf(raw, k) ==> Read(mem, a, Array(e, n), depth) == Ok(Str(raw[..k], raw))
    ensures (forall k: nat :: !IsTextOf(raw, k)) <==> Read(mem, a, Array(e, n), depth) == Ok(Bytes(raw))
  {
    TypedefsDoNotMatter(mem, a, e, Bytes([]), depth);
    assert GetBytes(mem, a, n) == raw;
    forall k: nat | IsTextOf(raw, k)
      ensures FirstNul(raw) == k
    {
      TextLengthIs(raw, k);
    }
    if Classify(raw).Str? {
      assert IsTextOf(raw, FirstNul(raw));
    }
  }

  // ----- when a read succeeds -----

  predicate FixedReads(mem: Memory, a: int, w: nat) {
    (w == 1 || w == 2 || w == 4 || w == 8) && a in mem
  }

  /** Numbers of a fixed width and pointers need their first byte to be loaded; wider integers, other
      aggregates and byte arrays are read as bytes, loaded or not; an array of other elements needs a
      size, addresses for all elements, and one more level for each. */
  predicate Readable(mem: Memory, a: int, t: Type, depth: nat)
    decreases t
  {
    && a <= BAD_ADDRESS
    && depth <= 64
    && match t
       case Typedef(target) => Readable(mem, a, target, depth)
       case Int(w, _) => w > 8 || FixedReads(mem, a, w)
       case Enum(w, _) => w > 8 || FixedReads(mem, a, w)
       case Pointer(w) => FixedReads(mem, a, w)
       case Blob(n) => n > 0
       case Array(e, n) =>
         || (Underlying(e).Int? && Underlying(e).width == 1)
         || (Size(e) > 0 && forall j :: 0 <= j < n ==> Readable(mem, a + j * Size(e), e, depth + 1))
  }

  /** Why the read of a number or pointer fails: too deep or without a size, of no fixed width, or not
      loaded, in this order. */
  lemma ScalarReadFails(mem: Memory, a: U64, t: Type, depth: nat)
    requires t.Int? || t.Enum? || t.Pointer?
    ensures depth > 64 || t.width == 0 ==> Read(mem, a, t, depth) == Err(Validation)
    ensures depth <= 64 && t.width > 0 && !(t.width in {1, 2, 4, 8}) && (t.Pointer? || t.width < 8) ==>
              Read(mem, a, t, depth) == Err(Unsupported)
    ensures depth <= 64 && t.width in {1, 2, 4, 8} && a !in mem ==> Read(mem, a, t, depth) == Err(NotLoaded)
  {
  }

  /** A number or pointer that reads is the one whose bytes, low byte first and in two's complement,
      are in memory. */
  lemma ScalarReads(mem: Memory, a: U64, t: Type, depth: nat, raw: seq<Byte>)
    requires (t.Int? || t.Enum? || t.Pointer?) && depth <= 64 && FixedReads(mem, a, t.width)
    requires |raw| == t.width && IsContent(mem, a, raw)
    ensures Read(mem, a, t, depth).Ok?
    ensures match Read(mem, a, t, depth).value
            case PointerTo(p) => t.Pointer? && LittleEndian(p, t.width) == raw
            case Unsigned(u) => !t.Pointer? && !t.signed && LittleEndian(u, t.width) == raw
            case Signed(s) =>
              && !t.Pointer? && t.signed && 0 <= 2 * s + Bound(t.width) < 2 * Bound(t.width)
              && LittleEndian(s % Bound(t.width), t.width) == raw
            case _ => false
  {
    assert GetBytes(mem, a, t.width) == raw;
    EncodeDecode(raw);
    BoundIsPower(t.width);
    if !t.Pointer? && t.signed {
      SignIsCongruent(t.width, FromLittleEndian(raw));
    }
  }

  lemma SignIsCongruent(w: nat, u: nat)
    requires IsWidth(w) && u < Bound(w)
    ensures ToSigned(w, u) % Bound(w) == u && 0 <= 2 * ToSigned(w, u) + Bound(w) < 2 * Bound(w)
  {
  }

  predicate ElementReadable(mem: Memory, a: int, e: Type, depth: nat, j: nat) {
    Readable(mem, a + j * Size(e), e, depth + 1)
  }

  lemma ArrayReadableIff(mem: Memory, a: U64, e: Type, n: nat, depth: nat)
    requires depth <= 64 && !(Underlying(e).Int? && Underlying(e).width == 1)
    ensures Readable(mem, a, Array(e, n), depth)
       <==> Size(e) > 0 && forall j :: 0 <= j < n ==> ElementReadable(mem, a, e, depth, j)
  {
    if Readable(mem, a, Array(e, n), depth) {
      assert forall j :: 0 <= j < n ==> ElementReadable(mem, a, e, depth, j);
    }
    if forall j :: 0 <= j < n ==> ElementReadable(mem, a, e, depth, j) {
      forall j | 0 <= j < n
        ensures Readable(mem, a + j * Size(e), e, depth + 1)
      {
        assert ElementReadable(mem, a, e, depth, j);
      }
    }
  }

  lemma {:induction false} ReadSucceedsIff(mem: Memory, a: U64, t: Type, depth: nat)
    ensures Read(mem, a, t, depth).Ok? <==> Readable(mem, a, t, depth)
    decreases t, 0
  {
    if depth <= 64 {
      match t
      case Typedef(target) => ReadSucceedsIff(mem, a, target, depth);
      case Array(e, n) =>
        TypedefsDoNotMatter(mem, a, e, Bytes([]), depth);
        if !(Underlying(e).Int? && Underlying(e).width == 1) {
          ElementReaderReads(mem, e, depth + 1);
          ElementsReadIff(mem, a, e, n, depth, ElementReader(mem, e, depth + 1));
          ArrayReadableIff(mem, a, e, n, depth);
        }
      case _ =>
    }
  }

  /** `g` reads elements of type `e`. */
  ghost predicate ReadsLike(g: U64 -> Result<Value, Error>, mem: Memory, e: Type, depth: nat) {
    forall p: U64 :: g(p).Ok? <==> Readable(mem, p, e, depth)
  }

  lemma {:induction false} ElementReaderReads(mem: Memory, e: Type, depth: nat)
    ensures ReadsLike(ElementReader(mem, e, depth), mem, e, depth)
    decreases e, 1
  {
    forall p: U64
      ensures Read(mem, p, e, depth).Ok? <==> Readable(mem, p, e, depth)
    {
      ReadSucceedsIff(mem, p, e, depth);
    }
  }

  lemma ElementsReadIff(mem: Memory, a: U64, e: Type, n: nat, depth: nat, g: U64 -> Result<Value, Error>)
    requires ReadsLike(g, mem, e, depth + 1)
    ensures ReadSeq(a, Size(e), n, g).Ok? <==> forall j :: 0 <= j < n ==> ElementReadable(mem, a, e, depth, j)
  {
    ReadSeqSucceedsIff(a, Size(e), n, g);
    forall j: nat
      ensures ElementReads(a, Size(e), g, j) <==> ElementReadable(mem, a, e, depth, j)
    {
      ElementReadsIff(mem, a, e, depth, g, j);
    }
  }

  lemma ElementReadsIff(mem: Memory, a: U64, e: Type, depth: nat, g: U64 -> Result<Value, Error>, j: nat)
    requires ReadsLike(g, mem, e, depth + 1)
    ensures ElementReads(a, Size(e), g, j) <==> ElementReadable(mem, a, e, depth, j)
  {
    var p := a + j * Size(e);
    if p <= BAD_ADDRESS {
      assert g(p).Ok? <==> Readable(mem, p, e, depth + 1);
    }
  }

  /** An array of other elements reads as the values at its elements' addresses, in order. */
  lemma ArrayReads(mem: Memory, a: U64, e: Type, n: nat, depth: nat)
    requires !(Underlying(e).Int? && Underlying(e).width == 1)
    requires Read(mem, a, Array(e, n), depth).Ok?
    ensures var v := Read(mem, a, Array(e, n), depth).value;
            v.Elements? && |v.elements| == n && forall j :: 0 <= j < n ==> ReadsAs(mem, a, e, depth, j, v.elements[j])
  {
    TypedefsDoNotMatter(mem, a, e, Bytes([]), depth);
    ArrayIsSequence(mem, a, e, n, depth);
    var g := ElementReader(mem, e, depth + 1);
    ReadSeqSucceedsIff(a, Size(e), n, g);
    forall j | 0 <= j < n
      ensures ReadsAs(mem, a, e, depth, j, ReadSeq(a, Size(e), n, g).value[j])
    {
      assert ElementReads(a, Size(e), g, j);
    }
  }

  /** Element `j` of an array at `a` reads as `v`. */
  predicate ReadsAs(mem: Memory, a: U64, e: Type, depth: nat, j: nat, v: Value) {
    a + j * Size(e) <= BAD_ADDRESS && Read(mem, a + j * Size(e), e, depth + 1) == Ok(v)
  }

  lemma ArrayIsSequence(mem: Memory, a: U64, e: Type, n: nat, depth: nat)
    requires !IsByteInteger(e) && Read(mem, a, Array(e, n), depth).Ok?
    ensures ReadSeq(a, Size(e), n, ElementReader(mem, e, depth + 1)).Ok?
    ensures Read(mem, a, Array(e, n), depth).value
         == Elements(ReadSeq(a, Size(e), n, ElementReader(mem, e, depth + 1)).value)
  {
  }
}
