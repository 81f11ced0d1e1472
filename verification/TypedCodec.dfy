/** The typed memory codec as functions: what a read returns, and the byte string that a write
    lays down. */
module TypedCodec {
  import opened Common

  const MAX_TYPED_DEPTH := 64

  /** Types without floating point.  Integer, pointer and array tests see through typedefs. */
  datatype Type =
    | Int(width: nat, signed: bool)
    | Enum(width: nat, signed: bool)
    | Pointer(width: nat)
    | Array(element: Type, length: nat)
    | Blob(size: nat)                      // a struct, union or other aggregate
    | Typedef(target: Type)

  datatype Value =
    | Unsigned(u: U64)
    | Signed(s: I64)
    | PointerTo(address: U64)
    | Str(text: seq<Byte>, raw: seq<Byte>)
    | Bytes(bytes: seq<Byte>)
    | Elements(elements: seq<Value>)

  datatype Error = NotLoaded | Validation | Unsupported

  function Size(t: Type): nat {
    match t
    case Int(w, _) => w
    case Enum(w, _) => w
    case Pointer(w) => w
    case Array(e, n) => n * Size(e)
    case Blob(n) => n
    case Typedef(target) => Size(target)
  }

  predicate IsByteInteger(t: Type) {
    match t
    case Int(w, _) => w == 1
    case Typedef(target) => IsByteInteger(target)
    case _ => false
  }

  // ----- database bytes, as the SDK is assumed to keep them -----

  /** Loaded bytes.  An unloaded byte reads as 0xFF and ignores writes. */
  type Memory = map<int, Byte>

  function GetBytes(mem: Memory, a: int, n: nat): (bs: seq<Byte>)
    ensures |bs| == n
  {
    seq(n, i => if a + i in mem then mem[a + i] else 0xFF)
  }

  /** Memory after laying `bs` down at `a`. */
  function Blit(mem: Memory, a: int, bs: seq<Byte>): Memory {
    map x | x in mem :: if a <= x < a + |bs| then bs[x - a] else mem[x]
  }

  predicate Mapped(mem: Memory, a: int, n: nat) {
    forall x :: a <= x < a + n ==> x in mem
  }

  // ----- fixed-width integers, little-endian -----

  predicate IsWidth(w: nat) {
    w == 1 || w == 2 || w == 4 || w == 8
  }

  /** 2^(8w) for a fixed width. */
  function Bound(w: nat): nat {
    if w == 1 then 0x100
    else if w == 2 then 0x1_0000
    else if w == 4 then 0x1_0000_0000
    else 0x1_0000_0000_0000_0000
  }

  predicate FitsUnsignedWidth(w: nat, v: U64) {
    if w == 1 then v <= 0xFF
    else if w == 2 then v <= 0xFFFF
    else if w == 4 then v <= 0xFFFF_FFFF
    else w == 8
  }

  predicate FitsSignedWidth(w: nat, v: I64) {
    if w == 1 then -0x80 <= v <= 0x7F
    else if w == 2 then -0x8000 <= v <= 0x7FFF
    else if w == 4 then -0x8000_0000 <= v <= 0x7FFF_FFFF
    else w == 8
  }

  function LittleEndian(v: nat, w: nat): (bs: seq<Byte>)
    ensures |bs| == w
    decreases w
  {
    if w == 0 then [] else [v % 256] + LittleEndian(v / 256, w - 1)
  }

  function FromLittleEndian(bs: seq<Byte>): nat {
    if bs == [] then 0 else bs[0] + 256 * FromLittleEndian(bs[1..])
  }

  function Power256(w: nat): nat {
    if w == 0 then 1 else 256 * Power256(w - 1)
  }

  /** Byte `k` of the stored form has weight 256^k. */
  lemma {:induction false} LittleEndianAt(v: nat, w: nat, k: nat)
    requires k < w
    ensures Power256(k) > 0 && LittleEndian(v, w)[k] == v / Power256(k) % 256
    decreases k
  {
    if k > 0 {
      LittleEndianAt(v / 256, w - 1, k - 1);
      DivideTwice(v, 256, Power256(k - 1));
    }
  }

  lemma BoundIsPower(w: nat)
    requires IsWidth(w)
    ensures Power256(w) == Bound(w)
  {
  }

  lemma {:induction false} DecodeEncode(v: nat, w: nat)
    requires v < Power256(w)
    ensures FromLittleEndian(LittleEndian(v, w)) == v
    decreases w
  {
    if w > 0 {
      DecodeEncode(v / 256, w - 1);
      assert LittleEndian(v, w)[1..] == LittleEndian(v / 256, w - 1);
    }
  }

  lemma {:induction false} EncodeDecode(bs: seq<Byte>)
    ensures FromLittleEndian(bs) < Power256(|bs|)
    ensures LittleEndian(FromLittleEndian(bs), |bs|) == bs
  {
    if bs != [] {
      EncodeDecode(bs[1..]);
      var v := FromLittleEndian(bs);
      assert v % 256 == bs[0] && v / 256 == FromLittleEndian(bs[1..]);
    }
  }

  function ToSigned(w: nat, u: nat): int {
    if u >= Bound(w) / 2 then u - Bound(w) else u
  }

  // ----- reading -----

  function ReadUnsignedFixed(mem: Memory, a: U64, w: nat): (r: Result<U64, Error>)
  {
    if !IsWidth(w) then Err(Unsupported)
    else if a !in mem then Err(NotLoaded)
    else
      var bs := GetBytes(mem, a, w);
      EncodeDecode(bs);
      BoundIsPower(w);
      Ok(FromLittleEndian(bs))
  }

  function ReadSignedFixed(mem: Memory, a: U64, w: nat): Result<I64, Error> {
    match ReadUnsignedFixed(mem, a, w)
    case Err(e) => Err(e)
    case Ok(u) =>
      EncodeDecode(GetBytes(mem, a, w));
      BoundIsPower(w);
      Ok(ToSigned(w, u))
  }

  function FirstNul(raw: seq<Byte>): (k: nat)
    ensures k <= |raw|
    ensures forall i :: 0 <= i < k ==> raw[i] != 0
    ensures k < |raw| ==> raw[k] == 0
  {
    if raw == [] || raw[0] == 0 then 0 else 1 + FirstNul(raw[1..])
  }

  predicate IsPrintableText(text: seq<Byte>) {
    forall i :: 0 <= i < |text| ==> 0x20 <= text[i] <= 0x7E
  }

  /** The value of a byte array: text when a non-empty printable prefix runs up to the first
      NUL, plain bytes otherwise. */
  function Classify(raw: seq<Byte>): Value {
    var n := FirstNul(raw);
    if n > 0 && IsPrintableText(raw[..n]) then Str(raw[..n], raw) else Bytes(raw)
  }

  function Read(mem: Memory, a: U64, t: Type, depth: nat): Result<Value, Error>
    decreases t, 0, 0
  {
    if depth > MAX_TYPED_DEPTH then Err(Validation)
    else
      match t
      case Typedef(target) => Read(mem, a, target, depth)
      case Array(e, n) =>
        if IsByteInteger(e) then Ok(Classify(GetBytes(mem, a, n)))
        else if Size(e) == 0 then Err(Validation)
        else
          (match ReadSeq(a, Size(e), n, ElementReader(mem, e, depth + 1))
           case Ok(vs) => Ok(Elements(vs))
           case Err(error) => Err(error))
      case Pointer(w) =>
        if w == 0 then Err(Validation)
        else
          (match ReadUnsignedFixed(mem, a, w)
           case Ok(u) => Ok(PointerTo(u))
           case Err(error) => Err(error))
      case Int(w, signed) => ReadInteger(mem, a, w, signed)
      case Enum(w, signed) => ReadInteger(mem, a, w, signed)
      case Blob(n) => if n == 0 then Err(Validation) else Ok(Bytes(GetBytes(mem, a, n)))
  }

  function ReadInteger(mem: Memory, a: U64, w: nat, signed: bool): Result<Value, Error> {
    if w == 0 then Err(Validation)
    else if w > 8 then Ok(Bytes(GetBytes(mem, a, w)))
    else if signed then
      (match ReadSignedFixed(mem, a, w)
       case Ok(s) => Ok(Signed(s))
       case Err(error) => Err(error))
    else
      match ReadUnsignedFixed(mem, a, w)
      case Ok(u) => Ok(Unsigned(u))
      case Err(error) => Err(error)
  }

  function ElementReader(mem: Memory, e: Type, depth: nat): U64 -> Result<Value, Error>
    decreases e, 1, 0
  {
    (p: U64) => Read(mem, p, e, depth)
  }

  /** `n` consecutive elements of `size` bytes, each read with `g`; an element that would start
      outside the address space ends the read. */
  function ReadSeq(at: nat, size: nat, n: nat, g: U64 -> Result<Value, Error>): (r: Result<seq<Value>, Error>)
    ensures r.Ok? ==> |r.value| == n
    decreases n
  {
    if n == 0 then Ok([])
    else if at > BAD_ADDRESS then Err(Validation)
    else
      match g(at)
      case Err(error) => Err(error)
      case Ok(v) =>
        match ReadSeq(at + size, size, n - 1, g)
        case Err(error) => Err(error)
        case Ok(vs) => Ok([v] + vs)
  }

  // ----- writing -----

  /** The bytes laid down by a write, in address order, and how the write ends. */
  datatype Encoding = Encoding(bytes: seq<Byte>, status: Result<(), Error>)

  function Refused(error: Error): Encoding {
    Encoding([], Err(error))
  }

  function EncodeUnsigned(w: nat, v: U64): Encoding {
    if FitsUnsignedWidth(w, v) then Encoding(LittleEndian(v, w), Ok(())) else Refused(Validation)
  }

  function EncodeSigned(w: nat, v: I64): Encoding {
    if FitsSignedWidth(w, v) then Encoding(LittleEndian(v % Bound(w), w), Ok(())) else Refused(Validation)
  }

  function EncodeInteger(w: nat, signed: bool, v: Value): Encoding {
    if w == 0 then Refused(Validation)
    else if signed then
      match v
      case Signed(s) => EncodeSigned(w, s)
      case Unsigned(u) => if u > 0x7FFF_FFFF_FFFF_FFFF then Refused(Validation) else EncodeSigned(w, u)
      case _ => Refused(Validation)
    else
      match v
      case Unsigned(u) => EncodeUnsigned(w, u)
      case Signed(s) => if s < 0 then Refused(Validation) else EncodeUnsigned(w, s)
      case _ => Refused(Validation)
  }

  function Zeros(n: nat): (bs: seq<Byte>)
    ensures |bs| == n
  {
    seq(n, _ => 0)
  }

  function Encode(a: U64, t: Type, v: Value, depth: nat): Encoding
    decreases t, 0, 0
  {
    if depth > MAX_TYPED_DEPTH then Refused(Validation)
    else
      match t
      case Typedef(target) => Encode(a, target, v, depth)
      case Array(e, n) =>
        if IsByteInteger(e) && v.Bytes? then
          if |v.bytes| != n then Refused(Validation) else Encoding(v.bytes, Ok(()))
        else if IsByteInteger(e) && v.Str? then
          if |v.text| > n then Refused(Validation) else Encoding(v.text + Zeros(n - |v.text|), Ok(()))
        else if !v.Elements? || |v.elements| != n || Size(e) == 0 then Refused(Validation)
        else WriteSeq(a, Size(e), v.elements, ElementWriter(e, depth + 1))
      case Pointer(w) =>
        if w == 0 then Refused(Validation)
        else
          (match v
           case PointerTo(p) => EncodeUnsigned(w, p)
           case Unsigned(u) => EncodeUnsigned(w, u)
           case _ => Refused(Validation))
      case Int(w, signed) => EncodeInteger(w, signed, v)
      case Enum(w, signed) => EncodeInteger(w, signed, v)
      case Blob(n) =>
        if n == 0 || !v.Bytes? || |v.bytes| != n then Refused(Validation) else Encoding(v.bytes, Ok(()))
  }

  function ElementWriter(e: Type, depth: nat): (U64, Value) -> Encoding
    decreases e, 1, 0
  {
    (p: U64, v: Value) => Encode(p, e, v, depth)
  }

  /** Consecutive elements of `size` bytes, each written with `f`; the first failure, or an
      element that would start outside the address space, ends the write. */
  function WriteSeq(at: nat, size: nat, vs: seq<Value>, f: (U64, Value) -> Encoding): Encoding
    decreases |vs|
  {
    if vs == [] then Encoding([], Ok(()))
    else if at > BAD_ADDRESS then Refused(Validation)
    else
      var head := f(at, vs[0]);
      if head.status.Err? then head
      else
        var rest := WriteSeq(at + size, size, vs[1..], f);
        Encoding(head.bytes + rest.bytes, rest.status)
  }
}
