/** Datatypes, machine numbers and small functions shared by the modules that model the idax
    wrappers. */
module Common {

  datatype Option<+T> = None | Some(value: T)

  /** The wrappers' `Result` and `Status`: a value, or an error whose text is not modelled. */
  datatype Result<+T, +E> = Ok(value: T) | Err(error: E)

  type Byte = b: int | 0 <= b < 256
  type U32 = n: int | 0 <= n < 0x1_0000_0000
  type U64 = n: int | 0 <= n < 0x1_0000_0000_0000_0000
  type I64 = n: int | -0x8000_0000_0000_0000 <= n < 0x8000_0000_0000_0000

  /** `BadAddress`, which is also the largest address value. */
  const BAD_ADDRESS: U64 := 0xFFFF_FFFF_FFFF_FFFF

  lemma BadAddressIsLargest(a: U64)
    ensures a <= BAD_ADDRESS
  {
  }

  function Max(a: nat, b: nat): nat {
    if a < b then b else a
  }

  ghost predicate NoRepeats<T>(xs: seq<T>) {
    forall i, j :: 0 <= i < j < |xs| ==> xs[i] != xs[j]
  }

  /** The result of a loop that has collected `earlier` and still has `r` to come. */
  function WithEarlier<T, E>(earlier: seq<T>, r: Result<seq<T>, E>): Result<seq<T>, E> {
    match r
    case Ok(rest) => Ok(earlier + rest)
    case Err(e) => Err(e)
  }

  lemma FarFromZero(k: int, n: int)
    requires k != 0 && n > 0
    ensures k * n >= n || k * n <= -n
  {
  }

  lemma QuotientIs(v: nat, d: nat, q: nat, r: nat)
    requires v == q * d + r && r < d
    ensures v / d == q
  {
    var more := v / d - q;
    assert v == v / d * d + v % d;
    assert more * d == r - v % d;
    if more != 0 {
      FarFromZero(more, d);
    }
  }

  lemma DivideTwice(v: nat, b: nat, p: nat)
    requires b > 0 && p > 0
    ensures b * p > 0 && v / b / p == v / (b * p)
  {
    var u, q := v / b, v / b / p;
    var w, r := u % p, v % b;
    assert u == q * p + w && v == u * b + r;
    Regroup(q, p, w, b, r);
    NestedRemainder(w, p, b, r);
    QuotientIs(v, b * p, q, w * b + r);
  }

  lemma Regroup(q: int, p: int, w: int, b: int, r: int)
    ensures (q * p + w) * b + r == q * (b * p) + (w * b + r)
  {
    Distribute(q * p, w, b);
    Reassociate(q, p, b);
  }

  lemma NestedRemainder(w: nat, p: nat, b: nat, r: nat)
    requires w < p && r < b
    ensures b * p > 0 && w * b + r < b * p
  {
    Distribute(w, p - w, b);
    FarFromZero(p - w, b);
    FarFromZero(p, b);
  }

  lemma Distribute(x: int, y: int, z: int)
    ensures (x + y) * z == x * z + y * z
  {
  }

  lemma Reassociate(x: int, y: int, z: int)
    ensures x * y * z == x * (y * z) && y * z == z * y
  {
  }

  lemma ElementOf<T>(s: set<T>) returns (x: T)
    requires s != {}
    ensures x in s
  {
    x :| x in s;
  }
}
