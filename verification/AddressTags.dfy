/** The item-reference tags inside pseudocode lines: two marker bytes and sixteen hex digits. */
module AddressTags {
  import opened Common

  const COLOR_ON: Byte := 1
  const COLOR_ADDR: Byte := 0x28
  const COLOR_ADDR_SIZE := 16

  /** A digit as `%X` prints it. */
  function HexDigit(d: int): Byte
    requires 0 <= d < 16
  {
    if d < 10 then 48 + d else 55 + d
  }

  function DigitValue(ch: Byte): Option<int> {
    if 48 <= ch <= 57 then Some(ch - 48)
    else if 65 <= ch <= 70 then Some(ch - 55)
    else if 97 <= ch <= 102 then Some(ch - 87)
    else None
  }

  /** `value` in `width` hex digits, most significant first, zero-padded. */
  function Hex(value: nat, width: nat): (digits: seq<Byte>)
    ensures |digits| == width
    decreases width
  {
    if width == 0 then [] else Hex(value / 16, width - 1) + [HexDigit(value % 16)]
  }

  /** `static_cast<unsigned int>` of an `int`. */
  function ToUnsigned32(i: int): nat {
    i % 0x1_0000_0000
  }

  method MakeAddrTag(index: int) returns (tag: seq<Byte>)
    ensures tag == AddrTag(index)
  {
    tag := [];
    tag := tag + [COLOR_ON];
    tag := tag + [COLOR_ADDR];
    var hex := Hex(ToUnsigned32(index), COLOR_ADDR_SIZE);
    tag := tag + hex[..COLOR_ADDR_SIZE];
  }

  function AddrTag(index: int): (tag: seq<Byte>)
    ensures |tag| == 2 + COLOR_ADDR_SIZE
  {
    [COLOR_ON, COLOR_ADDR] + Hex(ToUnsigned32(index), COLOR_ADDR_SIZE)
  }

  /** The value of a digit string modulo 2^64, as the shifting loop computes it. */
  function HexValue(digits: seq<Byte>): Option<nat> {
    if digits == [] then Some(0)
    else
      var n := |digits| - 1;
      match (HexValue(digits[..n]), DigitValue(digits[n]))
      case (Some(high), Some(d)) => Some((high * 16) % 0x1_0000_0000_0000_0000 + d)
      case _ => None
  }

  function Decoded(text: seq<Byte>, pos: nat): int {
    if pos + 2 + COLOR_ADDR_SIZE > |text| then -1
    else if text[pos] != COLOR_ON || text[pos + 1] != COLOR_ADDR then -1
    else
      match HexValue(text[pos + 2..pos + 2 + COLOR_ADDR_SIZE])
      case None => -1
      case Some(v) => v % 0x2000_0000
  }

  lemma {:induction false} BadDigitSpoils(digits: seq<Byte>, k: nat)
    requires k < |digits| && DigitValue(digits[k]).None?
    ensures HexValue(digits).None?
    decreases |digits|
  {
    var n := |digits| - 1;
    if k < n {
      BadDigitSpoils(digits[..n], k);
    }
  }

  method DecodeAddrTag(text: seq<Byte>, pos: nat) returns (r: int)
    ensures r == Decoded(text, pos)
  {
    if pos + 2 + COLOR_ADDR_SIZE > |text| { return -1; }
    if text[pos] != COLOR_ON { return -1; }
    if text[pos + 1] != COLOR_ADDR { return -1; }
    var digits := text[pos + 2..pos + 2 + COLOR_ADDR_SIZE];
    var val: nat := 0;
    for i := 0 to COLOR_ADDR_SIZE
      invariant HexValue(digits[..i]) == Some(val)
    {
      var ch := digits[i];
      var digit;
      if 48 <= ch <= 57 { digit := ch - 48; }
      else if 65 <= ch <= 70 { digit := ch - 65 + 10; }
      else if 97 <= ch <= 102 { digit := ch - 97 + 10; }
      else {
        BadDigitSpoils(digits, i);
        return -1;
      }
      assert digits[..i + 1][..i] == digits[..i];
      val := (val * 16) % 0x1_0000_0000_0000_0000 + digit;
    }
    assert digits[..COLOR_ADDR_SIZE] == digits;
    r := val % 0x2000_0000;
  }

  function Power16(n: nat): nat {
    if n == 0 then 1 else 16 * Power16(n - 1)
  }

  lemma HexValueStep(front: seq<Byte>, ch: Byte)
    requires HexValue(front).Some? && DigitValue(ch).Some?
    ensures HexValue(front + [ch])
         == Some(HexValue(front).value * 16 % 0x1_0000_0000_0000_0000 + DigitValue(ch).value)
  {
    assert (front + [ch])[..|front|] == front;
  }

  lemma {:induction false} HexRoundTrip(value: nat, width: nat)
    requires value < Power16(width) && width <= COLOR_ADDR_SIZE
    ensures HexValue(Hex(value, width)) == Some(value)
    decreases width
  {
    if width > 0 {
      HexRoundTrip(value / 16, width - 1);
      DigitRoundTrip(value % 16);
      HexValueStep(Hex(value / 16, width - 1), HexDigit(value % 16));
      PowerBound(width);
      NoOverflow(value);
    }
  }

  /** Digit `k` from the left stands for four bits of the value. */
  lemma {:induction false} HexAt(value: nat, width: nat, k: nat)
    requires k < width
    ensures Power16(width - 1 - k) > 0
    ensures Hex(value, width)[k] == HexDigit(value / Power16(width - 1 - k) % 16)
    decreases width
  {
    if k < width - 1 {
      HexAt(value / 16, width - 1, k);
      DivideTwice(value, 16, Power16(width - 2 - k));
    }
  }

  /** A tag is the bytes 1 and 0x28 and then, four bits of the index at a time, the characters '0' to
      '9' and 'A' to 'F'. */
  lemma TagBytes(index: int, k: nat)
    requires k < 16
    ensures |AddrTag(index)| == 18 && AddrTag(index)[0] == 1 && AddrTag(index)[1] == 0x28
    ensures Power16(15 - k) > 0
    ensures var bits := index % 0x1_0000_0000 / Power16(15 - k) % 16;
            AddrTag(index)[2 + k] == if bits < 10 then '0' as int + bits else 'A' as int + (bits - 10)
  {
    HexAt(ToUnsigned32(index), 16, k);
  }

  /** A digit of either case as the upper-case one. */
  function UpperCase(ch: Byte): Byte {
    if 'a' as int <= ch <= 'f' as int then ch - 32 else ch
  }

  predicate IsHexCharacter(ch: Byte) {
    || '0' as int <= ch <= '9' as int
    || 'A' as int <= ch <= 'F' as int
    || 'a' as int <= ch <= 'f' as int
  }

  /** Sixteen or fewer hexadecimal digits of either case parse to the number whose upper-case digits
      they are; anything else does not parse. */
  lemma {:induction false} ParsedDigits(digits: seq<Byte>)
    requires |digits| <= COLOR_ADDR_SIZE
    ensures HexValue(digits).Some? <==> forall i :: 0 <= i < |digits| ==> IsHexCharacter(digits[i])
    ensures HexValue(digits).Some? ==>
              && HexValue(digits).value < Power16(|digits|)
              && forall i :: 0 <= i < |digits| ==> Hex(HexValue(digits).value, |digits|)[i] == UpperCase(digits[i])
    decreases |digits|
  {
    if digits != [] {
      var n := |digits| - 1;
      ParsedDigits(digits[..n]);
      DigitOf(digits[n]);
      assert digits == digits[..n] + [digits[n]];
      if HexValue(digits).Some? {
        ParsedStep(digits, n);
      }
    }
  }

  lemma ParsedStep(digits: seq<Byte>, n: nat)
    requires |digits| == n + 1 <= COLOR_ADDR_SIZE && DigitValue(digits[n]).Some?
    requires HexValue(digits[..n]).Some? && HexValue(digits[..n]).value < Power16(n)
    requires forall i :: 0 <= i < n ==> Hex(HexValue(digits[..n]).value, n)[i] == UpperCase(digits[..n][i])
    ensures HexValue(digits).value < Power16(n + 1)
    ensures forall i :: 0 <= i < n + 1 ==> Hex(HexValue(digits).value, n + 1)[i] == UpperCase(digits[i])
  {
    var front, high := digits[..n], HexValue(digits[..n]).value;
    DigitOf(digits[n]);
    assert digits == front + [digits[n]];
    HexValueStep(front, digits[n]);
    PowerBound(n + 1);
    LastDigit(high, DigitValue(digits[n]).value, n);
  }

  lemma LastDigit(high: nat, d: nat, n: nat)
    requires d < 16 && high < Power16(n) && Power16(n + 1) <= 0x1_0000_0000_0000_0000
    ensures high * 16 % 0x1_0000_0000_0000_0000 + d == high * 16 + d < Power16(n + 1)
    ensures Hex(high * 16 + d, n + 1) == Hex(high, n) + [HexDigit(d)]
  {
    assert (high * 16 + d) / 16 == high && (high * 16 + d) % 16 == d;
  }

  lemma DigitOf(ch: Byte)
    ensures DigitValue(ch).Some? <==> IsHexCharacter(ch)
    ensures DigitValue(ch).Some? ==> 0 <= DigitValue(ch).value < 16 && HexDigit(DigitValue(ch).value) == UpperCase(ch)
  {
  }

  /** What is no tag: too short a text, other marker bytes, or a character that is no digit. */
  lemma DecodesIff(text: seq<Byte>, pos: nat) returns (v: nat)
    ensures Decoded(text, pos) == -1
       <==> !(pos + 18 <= |text| && text[pos] == 1 && text[pos + 1] == 0x28 &&
              forall k :: pos + 2 <= k < pos + 18 ==> IsHexCharacter(text[k]))
    ensures Decoded(text, pos) != -1 ==>
              && Decoded(text, pos) == v % 0x2000_0000
              && forall i :: 0 <= i < 16 ==> Hex(v, 16)[i] == UpperCase(text[pos + 2 + i])
  {
    v := 0;
    if pos + 18 <= |text| {
      var digits := text[pos + 2..pos + 18];
      ParsedDigits(digits);
      assert forall k :: pos + 2 <= k < pos + 18 ==> text[k] == digits[k - pos - 2];
      if HexValue(digits).Some? {
        v := HexValue(digits).value;
      }
    }
  }

  lemma DigitRoundTrip(d: int)
    requires 0 <= d < 16
    ensures DigitValue(HexDigit(d)) == Some(d)
  {
  }

  lemma NoOverflow(value: nat)
    requires value < 0x1_0000_0000_0000_0000
    ensures (value / 16 * 16) % 0x1_0000_0000_0000_0000 + value % 16 == value
  {
  }

  lemma PowerBound(width: nat)
    requires width <= COLOR_ADDR_SIZE
    ensures Power16(width) <= 0x1_0000_0000_0000_0000
  {
    PowerGrows(width, COLOR_ADDR_SIZE);
    PowerOf16();
  }

  lemma PowerOf16()
    ensures Power16(16) == 0x1_0000_0000_0000_0000 && Power16(8) == 0x1_0000_0000
  {
  }

  lemma {:induction false} PowerGrows(m: nat, n: nat)
    requires m <= n
    ensures Power16(m) <= Power16(n)
    decreases n - m
  {
    if m < n {
      PowerGrows(m + 1, n);
    }
  }

  /** Decoding at the place of a tag, inside any text, gives the low 29 bits of its index. */
  lemma TagDecodes(before: seq<Byte>, index: int, after: seq<Byte>)
    ensures Decoded(before + AddrTag(index) + after, |before|) == index % 0x2000_0000
  {
    var text := before + AddrTag(index) + after;
    var v := ToUnsigned32(index);
    TagInText(before, index, after);
    PowerOf16();
    HexRoundTrip(v, COLOR_ADDR_SIZE);
    LowBits(index);
  }

  lemma LowBits(i: int)
    ensures ToUnsigned32(i) % 0x2000_0000 == i % 0x2000_0000
  {
  }

  /** The tag's bytes are found where it was put. */
  lemma TagInText(before: seq<Byte>, index: int, after: seq<Byte>)
    ensures var text := before + AddrTag(index) + after;
            && text[|before|] == COLOR_ON && text[|before| + 1] == COLOR_ADDR
            && text[|before| + 2..|before| + 2 + COLOR_ADDR_SIZE] == Hex(ToUnsigned32(index), COLOR_ADDR_SIZE)
  {
  }

  /** The index itself comes back exactly when it fits 29 bits. */
  lemma TagRoundTripIff(before: seq<Byte>, index: int, after: seq<Byte>)
    ensures Decoded(before + AddrTag(index) + after, |before|) == index <==> 0 <= index < 0x2000_0000
  {
    TagDecodes(before, index, after);
    FitsIff(index);
  }

  lemma FitsIff(i: int)
    ensures i % 0x2000_0000 == i <==> 0 <= i < 0x2000_0000
  {
  }
}
