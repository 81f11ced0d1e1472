/** Typed reads and writes as they run: loops over array elements, 64-bit address checks, and
    database bytes that each leaf write changes in place. */
module TypedDatabase {
  import opened Common
  import opened TypedCodec
  import opened ElementSequences
  import opened TypedLaws

  /** The two checks made before element `i` of `size` bytes is visited. */
  predicate AddressOverflows(a: U64, size: nat, i: nat) {
    (i != 0 && size > BAD_ADDRESS / i) || a > BAD_ADDRESS - (size * i) % 0x1_0000_0000_0000_0000
  }

  /** Despite the 64-bit arithmetic the checks decide the unbounded question. */
  lemma OverflowGuardIsExact(a: U64, size: nat, i: nat)
    ensures !AddressOverflows(a, size, i) <==> a + size * i <= BAD_ADDRESS
  {
    if i != 0 {
      DivisionDecides(size, i, BAD_ADDRESS);
      if size * i <= BAD_ADDRESS {
        assert (size * i) % 0x1_0000_0000_0000_0000 == size * i by {
          SmallMod(size * i);
        }
      }
    }
  }

  lemma SmallMod(x: nat)
    requires x <= BAD_ADDRESS
    ensures x % 0x1_0000_0000_0000_0000 == x
  {
  }

  lemma DivisionDecides(x: nat, i: nat, max: nat)
    requires i > 0
    ensures x > max / i <==> x * i > max
  {
    var q := max / i;
    assert q * i <= max < (q + 1) * i;
    if x > q {
      assert x * i >= (q + 1) * i;
    } else {
      assert x * i <= q * i;
    }
  }

  /** Where element `i` starts, by repeated addition. */
  function Offset(size: nat, i: nat): nat {
    if i == 0 then 0 else Offset(size, i - 1) + size
  }

  lemma {:induction false} OffsetIsProduct(size: nat, i: nat)
    ensures Offset(size, i) == size * i
  {
    if i > 0 {
      OffsetIsProduct(size, i - 1);
    }
  }

  /** The checks of both element loops. */
  method ElementAddress(a: U64, size: nat, i: nat) returns (r: Result<U64, Error>)
    ensures r == if a + Offset(size, i) <= BAD_ADDRESS then Ok(a + Offset(size, i)) else Err(Validation)
  {
    OverflowGuardIsExact(a, size, i);
    OffsetIsProduct(size, i);
    if i != 0 && size > BAD_ADDRESS / i {
      return Err(Validation);
    }
    var offset := (size * i) % 0x1_0000_0000_0000_0000;
    if a > BAD_ADDRESS - offset {
      return Err(Validation);
    }
    SmallMod(size * i);
    r := Ok(a + offset);
  }

  lemma ReadStep(at: nat, size: nat, n: nat, g: U64 -> Result<Value, Error>, earlier: seq<Value>)
    requires n > 0 && at <= BAD_ADDRESS && g(at).Ok?
    ensures WithEarlier(earlier, ReadSeq(at, size, n, g))
         == WithEarlier(earlier + [g(at).value], ReadSeq(at + size, size, n - 1, g))
  {
    var rest := ReadSeq(at + size, size, n - 1, g);
    if rest.Ok? {
      assert earlier + ([g(at).value] + rest.value) == (earlier + [g(at).value]) + rest.value;
    }
  }

  /** What a write of all elements lays down, once `earlier` bytes are in place. */
  function AfterBytes(earlier: seq<Byte>, w: Encoding): Encoding {
    w.(bytes := earlier + w.bytes)
  }

  /** The write of one element, address check included. */
  function GuardedWrite(at: nat, v: Value, f: (U64, Value) -> Encoding): Encoding {
    if at > BAD_ADDRESS then Refused(Validation) else f(at, v)
  }

  lemma WriteStep(at: nat, size: nat, vs: seq<Value>, i: nat, f: (U64, Value) -> Encoding, earlier: seq<Byte>)
    requires i < |vs|
    ensures var w := GuardedWrite(at, vs[i], f);
            var all := AfterBytes(earlier, WriteSeq(at, size, vs[i..], f));
            var rest := WriteSeq(at + size, size, vs[i + 1..], f);
            all == (if w.status.Err? then AfterBytes(earlier, w) else AfterBytes(earlier + w.bytes, rest))
  {
  }

  /** Marks an address for which the link between an element and its codec is wanted. */
  predicate At(p: U64) {
    true
  }

  /** `g` reads one element of type `e`. */
  ghost predicate ReadsElements(g: U64 -> Result<Value, Error>, mem: Memory, e: Type, depth: nat) {
    forall p: U64 {:trigger At(p)} :: g(p) == Read(mem, p, e, depth)
  }

  /** `f` writes one element of type `e`. */
  ghost predicate WritesElements(f: (U64, Value) -> Encoding, e: Type, depth: nat) {
    forall p: U64 {:trigger At(p)} :: forall v :: f(p, v) == Encode(p, e, v, depth)
  }

  class Database {
    var mem: Memory

    constructor (mem: Memory)
      ensures this.mem == mem
    {
      this.mem := mem;
    }

    /** `put_bytes`, and `put_byte` to `put_qword` on the little-endian form. */
    method PutBytes(a: U64, bs: seq<Byte>)
      modifies this
      ensures mem == Blit(old(mem), a, bs)
    {
      mem := Blit(mem, a, bs);
    }

    method WriteUnsignedFixed(a: U64, w: nat, v: U64) returns (status: Result<(), Error>)
      modifies this
      ensures status == EncodeUnsigned(w, v).status
      ensures mem == Blit(old(mem), a, EncodeUnsigned(w, v).bytes)
    {
      if !FitsUnsignedWidth(w, v) {
        assert Blit(mem, a, []) == mem;
        return Err(Validation);
      }
      PutBytes(a, LittleEndian(v, w));
      status := Ok(());
    }

    method WriteSignedFixed(a: U64, w: nat, v: I64) returns (status: Result<(), Error>)
      modifies this
      ensures status == EncodeSigned(w, v).status
      ensures mem == Blit(old(mem), a, EncodeSigned(w, v).bytes)
    {
      if !FitsSignedWidth(w, v) {
        assert Blit(mem, a, []) == mem;
        return Err(Validation);
      }
      PutBytes(a, LittleEndian(v % Bound(w), w));
      status := Ok(());
    }

    method ReadTyped(a: U64, t: Type, depth: nat) returns (r: Result<Value, Error>)
      ensures r == Read(mem, a, t, depth)
      decreases t, 0, 0
    {
      if depth > MAX_TYPED_DEPTH { return Err(Validation); }
      match t
      case Typedef(target) => r := ReadTyped(a, target, depth);
      case Array(e, n) =>
        if IsByteInteger(e) {
          return Ok(Classify(GetBytes(mem, a, n)));
        }
        if Size(e) == 0 { return Err(Validation); }
        var elements := ReadElements(a, e, n, depth, ElementReader(mem, e, depth + 1));
        match elements {
          case Err(error) => r := Err(error);
          case Ok(vs) => r := Ok(Elements(vs));
        }
      case Pointer(w) =>
        if w == 0 { return Err(Validation); }
        match ReadUnsignedFixed(mem, a, w) {
          case Err(error) => r := Err(error);
          case Ok(u) => r := Ok(PointerTo(u));
        }
      case Int(w, signed) => r := ReadInteger(mem, a, w, signed);
      case Enum(w, signed) => r := ReadInteger(mem, a, w, signed);
      case Blob(n) =>
        if n == 0 { return Err(Validation); }
        r := Ok(Bytes(GetBytes(mem, a, n)));
    }

    method ReadElements(a: U64, e: Type, n: nat, depth: nat, ghost g: U64 -> Result<Value, Error>)
      returns (r: Result<seq<Value>, Error>)
      requires ReadsElements(g, mem, e, depth + 1)
      ensures r == ReadSeq(a, Size(e), n, g)
      decreases e, 1
    {
      var size := Size(e);
      var out: seq<Value> := [];
      ghost var all := ReadSeq(a, size, n, g);
      assert all.Ok? ==> out + all.value == all.value;
      ghost var at: nat := a;
      for i := 0 to n
        invariant at == a + Offset(size, i)
        invariant all == WithEarlier(out, ReadSeq(at, size, n - i, g))
      {
        var address := ElementAddress(a, size, i);
        if address.Err? {
          return Err(Validation);
        }
        var element := ReadElement(address.value, e, depth, g);
        if element.Err? {
          return Err(element.error);
        }
        ReadStep(at, size, n - i, g, out);
        out := out + [element.value];
        at := at + size;
      }
      assert out + [] == out;
      r := Ok(out);
    }

    method ReadElement(at: U64, e: Type, depth: nat, ghost g: U64 -> Result<Value, Error>)
      returns (r: Result<Value, Error>)
      requires ReadsElements(g, mem, e, depth + 1)
      ensures r == g(at)
      decreases e, 0, 1
    {
      assert At(at);
      r := ReadTyped(at, e, depth + 1);
    }

    method WriteInteger(a: U64, w: nat, signed: bool, v: Value) returns (status: Result<(), Error>)
      modifies this
      ensures status == EncodeInteger(w, signed, v).status
      ensures mem == Blit(old(mem), a, EncodeInteger(w, signed, v).bytes)
    {
      assert Blit(mem, a, []) == mem;
      if w == 0 { return Err(Validation); }
      if signed {
        match v
        case Signed(s) => status := WriteSignedFixed(a, w, s);
        case Unsigned(u) =>
          if u > 0x7FFF_FFFF_FFFF_FFFF { return Err(Validation); }
          status := WriteSignedFixed(a, w, u);
        case _ => status := Err(Validation);
      } else {
        match v
        case Unsigned(u) => status := WriteUnsignedFixed(a, w, u);
        case Signed(s) =>
          if s < 0 { return Err(Validation); }
          status := WriteUnsignedFixed(a, w, s);
        case _ => status := Err(Validation);
      }
    }

    /** The bytes in memory afterwards are those of the encoding, laid down at `a`. */
    method WriteTyped(a: U64, t: Type, v: Value, depth: nat) returns (status: Result<(), Error>)
      modifies this
      ensures status == Encode(a, t, v, depth).status
      ensures mem == Blit(old(mem), a, Encode(a, t, v, depth).bytes)
      decreases t, 0, 0
    {
      assert Blit(mem, a, []) == mem;
      if depth > MAX_TYPED_DEPTH { return Err(Validation); }
      match t
      case Typedef(target) => status := WriteTyped(a, target, v, depth);
      case Array(e, n) =>
        if IsByteInteger(e) && (v.Bytes? || v.Str?) {
          if v.Bytes? {
            if |v.bytes| != n { return Err(Validation); }
            PutBytes(a, v.bytes);
          } else {
            if |v.text| > n { return Err(Validation); }
            PutBytes(a, v.text + Zeros(n - |v.text|));
          }
          return Ok(());
        }
        if !v.Elements? { return Err(Validation); }
        if |v.elements| != n { return Err(Validation); }
        if Size(e) == 0 { return Err(Validation); }
        status := WriteElements(a, e, v.elements, depth, ElementWriter(e, depth + 1));
      case Pointer(w) =>
        if w == 0 { return Err(Validation); }
        match v {
          case PointerTo(p) => status := WriteUnsignedFixed(a, w, p);
          case Unsigned(u) => status := WriteUnsignedFixed(a, w, u);
          case _ => status := Err(Validation);
        }
      case Int(w, signed) => status := WriteInteger(a, w, signed, v);
      case Enum(w, signed) => status := WriteInteger(a, w, signed, v);
      case Blob(n) =>
        if n == 0 { return Err(Validation); }
        if !v.Bytes? { return Err(Validation); }
        if |v.bytes| != n { return Err(Validation); }
        PutBytes(a, v.bytes);
        status := Ok(());
    }

    method WriteElements(a: U64, e: Type, vs: seq<Value>, depth: nat, ghost f: (U64, Value) -> Encoding)
      returns (status: Result<(), Error>)
      requires WritesElements(f, e, depth + 1)
      modifies this
      ensures status == WriteSeq(a, Size(e), vs, f).status
      ensures mem == Blit(old(mem), a, WriteSeq(a, Size(e), vs, f).bytes)
      decreases e, 1
    {
      var size := Size(e);
      ghost var done: seq<Byte> := [];
      ghost var all := WriteSeq(a, size, vs, f);
      assert vs[0..] == vs && done + all.bytes == all.bytes;
      ghost var at: nat := a;
      for i := 0 to |vs|
        invariant at == a + |done| && |done| == Offset(size, i)
        invariant mem == Blit(old(mem), a, done)
        invariant all == AfterBytes(done, WriteSeq(at, size, vs[i..], f))
      {
        ghost var w := GuardedWrite(at, vs[i], f);
        WriteStep(at, size, vs, i, f, done);
        status := WriteElement(a, e, vs[i], i, depth, f, old(mem), done);
        if status.Err? {
          return status;
        }
        done := done + w.bytes;
        at := at + size;
      }
      assert done + [] == done;
      status := Ok(());
    }

    /** Element `i`, written right behind the bytes already `done`. */
    method WriteElement(a: U64, e: Type, v: Value, i: nat, depth: nat, ghost f: (U64, Value) -> Encoding,
                        ghost before: Memory, ghost done: seq<Byte>)
      returns (status: Result<(), Error>)
      requires WritesElements(f, e, depth + 1)
      requires |done| == Offset(Size(e), i) && mem == Blit(before, a, done)
      modifies this
      ensures var w := GuardedWrite(a + |done|, v, f);
              status == w.status && mem == Blit(before, a, done + w.bytes) && Sized(w, Size(e))
      decreases e, 0, 1
    {
      assert done + [] == done;
      var address := ElementAddress(a, Size(e), i);
      if address.Err? {
        return Err(Validation);
      }
      assert At(address.value);
      status := WriteTyped(address.value, e, v, depth + 1);
      BlitTwice(before, a, done, address.value, Encode(address.value, e, v, depth + 1).bytes);
      EncodedLength(address.value, e, v, depth + 1);
    }
  }
}
