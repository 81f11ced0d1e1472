/** Laws of element-by-element reads and writes, for any element codec. */
module ElementSequences {
  import opened Common
  import opened TypedCodec

  lemma OneMore(n: nat, size: nat)
    requires n > 0
    ensures n * size == size + (n - 1) * size
  {
  }

  predicate Sized(w: Encoding, size: nat) {
    |w.bytes| <= size && (w.status.Ok? ==> |w.bytes| == size)
  }

  lemma {:induction false} WriteSeqLength(at: nat, size: nat, vs: seq<Value>, f: (U64, Value) -> Encoding)
    requires forall p: U64, v :: v in vs ==> Sized(f(p, v), size)
    ensures Sized(WriteSeq(at, size, vs, f), |vs| * size)
    decreases |vs|
  {
    if vs != [] {
      OneMore(|vs|, size);
      if at <= BAD_ADDRESS {
        assert vs[0] in vs;
        WriteSeqLength(at + size, size, vs[1..], f);
      }
    }
  }

  /** A failed write is complete up to some element `k`; after that it holds only what the
      failing write of element `k` itself laid down, or nothing when `k` starts outside the
      address space. */
  lemma {:induction false} FailedWriteStops(at: nat, size: nat, vs: seq<Value>, f: (U64, Value) -> Encoding)
    returns (k: nat)
    requires WriteSeq(at, size, vs, f).status.Err?
    ensures k < |vs| && WriteSeq(at, size, vs[..k], f).status.Ok?
    ensures at + k * size > BAD_ADDRESS ==>
              WriteSeq(at, size, vs, f).bytes == WriteSeq(at, size, vs[..k], f).bytes
    ensures at + k * size <= BAD_ADDRESS ==>
              var last := f(at + k * size, vs[k]);
              last.status.Err? && WriteSeq(at, size, vs, f).bytes == WriteSeq(at, size, vs[..k], f).bytes + last.bytes
    decreases |vs|
  {
    k := 0;
    if at <= BAD_ADDRESS && f(at, vs[0]).status.Ok? {
      var j := FailedWriteStops(at + size, size, vs[1..], f);
      k := j + 1;
      OneMore(k, size);
      assert at + k * size == at + size + j * size && vs[k] == vs[1..][j];
      assert vs[..k][0] == vs[0] && vs[..k][1..] == vs[1..][..j];
      var head, done := f(at, vs[0]).bytes, WriteSeq(at + size, size, vs[1..][..j], f).bytes;
      assert WriteSeq(at, size, vs[..k], f).bytes == head + done;
      if at + k * size <= BAD_ADDRESS {
        assert head + (done + f(at + k * size, vs[k]).bytes) == (head + done) + f(at + k * size, vs[k]).bytes;
      }
    }
  }

  predicate ElementAccepted(at: nat, size: nat, vs: seq<Value>, f: (U64, Value) -> Encoding, j: nat)
    requires j < |vs|
  {
    at + j * size <= BAD_ADDRESS && f(at + j * size, vs[j]).status.Ok?
  }

  lemma {:induction false} WriteSeqSucceedsIff(at: nat, size: nat, vs: seq<Value>, f: (U64, Value) -> Encoding)
    ensures WriteSeq(at, size, vs, f).status.Ok? <==> forall j :: 0 <= j < |vs| ==> ElementAccepted(at, size, vs, f, j)
    decreases |vs|
  {
    if vs != [] {
      assert ElementAccepted(at, size, vs, f, 0) <==> at <= BAD_ADDRESS && f(at, vs[0]).status.Ok?;
      var next, rest := at + size, vs[1..];
      WriteSeqSucceedsIff(next, size, rest, f);
      forall j | 0 < j < |vs|
        ensures ElementAccepted(at, size, vs, f, j) <==> ElementAccepted(next, size, rest, f, j - 1)
      {
        OneMore(j, size);
      }
      if forall j :: 0 <= j < |vs| ==> ElementAccepted(at, size, vs, f, j) {
        forall j | 0 <= j < |rest|
          ensures ElementAccepted(next, size, rest, f, j)
        {
          assert ElementAccepted(at, size, vs, f, j + 1);
        }
      }
    }
  }

  /** A failed write in terms of its first refused element, and how many bytes it laid down. */
  lemma FirstRefusalStops(at: nat, size: nat, vs: seq<Value>, f: (U64, Value) -> Encoding)
    returns (k: nat, tail: nat)
    requires WriteSeq(at, size, vs, f).status.Err?
    requires forall p: U64, v :: v in vs ==> Sized(f(p, v), size)
    ensures k < |vs| && !ElementAccepted(at, size, vs, f, k)
    ensures forall j :: 0 <= j < k ==> ElementAccepted(at, size, vs, f, j)
    ensures WriteSeq(at, size, vs[..k], f).status.Ok? && |WriteSeq(at, size, vs[..k], f).bytes| == k * size
    ensures WriteSeq(at, size, vs[..k], f).bytes <= WriteSeq(at, size, vs, f).bytes
    ensures |WriteSeq(at, size, vs, f).bytes| == k * size + tail
    ensures tail == if at + k * size > BAD_ADDRESS then 0 else |f(at + k * size, vs[k]).bytes|
  {
    k := FailedWriteStops(at, size, vs, f);
    tail := if at + k * size > BAD_ADDRESS then 0 else |f(at + k * size, vs[k]).bytes|;
    WriteSeqLength(at, size, vs[..k], f);
    WriteSeqSucceedsIff(at, size, vs[..k], f);
    assert forall j :: 0 <= j < k ==> ElementAccepted(at, size, vs[..k], f, j) ==> ElementAccepted(at, size, vs, f, j);
  }

  predicate ElementReads(at: nat, size: nat, g: U64 -> Result<Value, Error>, j: nat) {
    at + j * size <= BAD_ADDRESS && g(at + j * size).Ok?
  }

  /** A sequence reads exactly when each element does, and then gives their values in order. */
  lemma {:induction false} ReadSeqSucceedsIff(at: nat, size: nat, n: nat, g: U64 -> Result<Value, Error>)
    ensures ReadSeq(at, size, n, g).Ok? <==> forall j :: 0 <= j < n ==> ElementReads(at, size, g, j)
    ensures ReadSeq(at, size, n, g).Ok? ==>
              forall j :: 0 <= j < n ==> ElementReads(at, size, g, j) &&
                                         g(at + j * size).value == ReadSeq(at, size, n, g).value[j]
    decreases n
  {
    if n > 0 {
      assert ElementReads(at, size, g, 0) <==> at <= BAD_ADDRESS && g(at).Ok?;
      var next := at + size;
      ReadSeqSucceedsIff(next, size, n - 1, g);
      forall j | 0 < j < n
        ensures at + j * size == next + (j - 1) * size
        ensures ElementReads(at, size, g, j) <==> ElementReads(next, size, g, j - 1)
      {
        OneMore(j, size);
      }
      if forall j :: 0 <= j < n ==> ElementReads(at, size, g, j) {
        forall j | 0 <= j < n - 1
          ensures ElementReads(next, size, g, j)
        {
          assert ElementReads(at, size, g, j + 1);
        }
      }
    }
  }

  predicate Holds(mem: Memory, a: int, bs: seq<Byte>) {
    Mapped(mem, a, |bs|) && GetBytes(mem, a, |bs|) == bs
  }

  lemma HoldsParts(mem: Memory, a: int, xs: seq<Byte>, ys: seq<Byte>)
    requires Holds(mem, a, xs + ys)
    ensures Holds(mem, a, xs) && Holds(mem, a + |xs|, ys)
  {
    var all := GetBytes(mem, a, |xs + ys|);
    forall i | 0 <= i < |xs|
      ensures GetBytes(mem, a, |xs|)[i] == xs[i]
    {
      assert all[i] == (xs + ys)[i];
    }
    forall i | 0 <= i < |ys|
      ensures GetBytes(mem, a + |xs|, |ys|)[i] == ys[i]
    {
      assert all[|xs| + i] == (xs + ys)[|xs| + i];
    }
    assert GetBytes(mem, a, |xs|) == xs;
    assert GetBytes(mem, a + |xs|, |ys|) == ys;
  }

  /** If each element reads back as `expected` says, so does the whole sequence. */
  lemma {:induction false} ReadSeqReadsBack(mem: Memory, at: nat, size: nat, vs: seq<Value>,
                                            f: (U64, Value) -> Encoding, g: U64 -> Result<Value, Error>,
                                            expected: seq<Value>)
    requires |expected| == |vs|
    requires forall p: U64, v :: v in vs ==> Sized(f(p, v), size)
    requires forall p: U64, i :: 0 <= i < |vs| && f(p, vs[i]).status.Ok? && Holds(mem, p, f(p, vs[i]).bytes) ==>
               g(p) == Ok(expected[i])
    requires WriteSeq(at, size, vs, f).status.Ok? && Holds(mem, at, WriteSeq(at, size, vs, f).bytes)
    ensures ReadSeq(at, size, |vs|, g) == Ok(expected)
    decreases |vs|
  {
    if vs != [] {
      assert vs[0] in vs;
      var rest := WriteSeq(at + size, size, vs[1..], f);
      HoldsParts(mem, at, f(at, vs[0]).bytes, rest.bytes);
      forall p: U64, i | 0 <= i < |vs[1..]| && f(p, vs[1..][i]).status.Ok? && Holds(mem, p, f(p, vs[1..][i]).bytes)
        ensures g(p) == Ok(expected[1..][i])
      {
        assert vs[1..][i] == vs[i + 1];
      }
      ReadSeqReadsBack(mem, at + size, size, vs[1..], f, g, expected[1..]);
      assert [expected[0]] + expected[1..] == expected;
    }
  }

  lemma SplitEqual(xs: seq<Byte>, ys: seq<Byte>, us: seq<Byte>, vs: seq<Byte>)
    requires |xs| == |us| && |ys| == |vs|
    ensures xs + ys == us + vs <==> xs == us && ys == vs
  {
    assert (xs + ys)[..|xs|] == xs && (xs + ys)[|xs|..] == ys;
    assert (us + vs)[..|us|] == us && (us + vs)[|us|..] == vs;
  }

  lemma SplitBytes(mem: Memory, a: int, m: nat, n: nat)
    ensures GetBytes(mem, a, m + n) == GetBytes(mem, a, m) + GetBytes(mem, a + m, n)
  {
  }

  /** What a read returned for one element writes back, and keeps the bytes iff `same`. */
  predicate WritesBack(mem: Memory, p: U64, size: nat, f: (U64, Value) -> Encoding, v: Value, same: bool) {
    && f(p, v).status.Ok?
    && |f(p, v).bytes| == size
    && (f(p, v).bytes == GetBytes(mem, p, size) <==> same)
  }

  /** If each element that was read writes back, so does the whole sequence; the bytes stay the
      same exactly when they do for every element. */
  lemma {:induction false} ReadSeqWritesBack(mem: Memory, at: nat, size: nat, n: nat, f: (U64, Value) -> Encoding,
                                             g: U64 -> Result<Value, Error>, same: Value -> bool)
    requires ReadSeq(at, size, n, g).Ok?
    requires forall p: U64 :: at <= p && p + size <= at + n * size && g(p).Ok? ==>
               WritesBack(mem, p, size, f, g(p).value, same(g(p).value))
    ensures WriteSeq(at, size, ReadSeq(at, size, n, g).value, f).status.Ok?
    ensures WriteSeq(at, size, ReadSeq(at, size, n, g).value, f).bytes == GetBytes(mem, at, n * size)
       <==> forall i :: 0 <= i < n ==> same(ReadSeq(at, size, n, g).value[i])
    ensures |WriteSeq(at, size, ReadSeq(at, size, n, g).value, f).bytes| == n * size
    decreases n
  {
    if n > 0 {
      OneMore(n, size);
      var vs := ReadSeq(at, size, n, g).value;
      var rest := ReadSeq(at + size, size, n - 1, g).value;
      assert vs == [g(at).value] + rest && vs[1..] == rest;
      ReadSeqWritesBack(mem, at + size, size, n - 1, f, g, same);
      SplitBytes(mem, at, size, (n - 1) * size);
      SplitEqual(f(at, vs[0]).bytes, WriteSeq(at + size, size, rest, f).bytes,
                 GetBytes(mem, at, size), GetBytes(mem, at + size, (n - 1) * size));
      assert forall i :: 0 <= i < n - 1 ==> vs[i + 1] == rest[i];
      assert forall i :: 0 < i < n ==> vs[i] == rest[i - 1];
    }
  }

  /** When each element is one byte, the write is the list of those bytes. */
  lemma {:induction false} WriteSeqOfBytes(at: nat, vs: seq<Value>, f: (U64, Value) -> Encoding, byteOf: Value -> Byte)
    requires forall p: U64, v :: v in vs && f(p, v).status.Ok? ==> f(p, v).bytes == [byteOf(v)]
    requires WriteSeq(at, 1, vs, f).status.Ok?
    ensures WriteSeq(at, 1, vs, f).bytes == seq(|vs|, i requires 0 <= i < |vs| => byteOf(vs[i]))
    decreases |vs|
  {
    if vs != [] {
      assert vs[0] in vs;
      WriteSeqOfBytes(at + 1, vs[1..], f, byteOf);
    }
  }
}
