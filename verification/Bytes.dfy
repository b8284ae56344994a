/** Octet strings as the provider handles them: fixed-width integers, exclusive-or,
    big-endian encodings, and lists of chunks flattened into one buffer. */
module Bytes {
  type byte = x: int | 0 <= x < 0x100
  type u16 = x: int | 0 <= x < 0x1_0000
  type u64 = x: int | 0 <= x < 0x1_0000_0000_0000_0000

  datatype Option<+T> = None | Some(value: T)
  datatype Result<+T, +E> = Ok(value: T) | Err(error: E)

  /** `vec![0u8; n]` */
  function Zeros(n: nat): (z: seq<byte>)
    ensures |z| == n
    ensures forall i :: 0 <= i < n ==> z[i] == 0
  {
    seq(n, _ => 0)
  }

  // ---------------------------------------------------------------- exclusive-or

  /** 2^n, the number of n-bit values. */
  function Pow2(n: nat): (p: nat)
    ensures p > 0
  {
    if n == 0 then 1 else 2 * Pow2(n - 1)
  }

  /** Exclusive-or of the low n bits, bit by bit. */
  function XorBits(n: nat, a: nat, b: nat): (x: nat)
    ensures x < Pow2(n)
  {
    if n == 0 then 0
    else 2 * XorBits(n - 1, a / 2, b / 2) + (if a % 2 == b % 2 then 0 else 1)
  }

  function Xor(a: byte, b: byte): (x: byte) {
    assert Pow2(8) == 256 by { Pow2Of8(); }
    XorBits(8, a, b)
  }

  lemma Pow2Of8()
    ensures Pow2(8) == 256
  {
    assert Pow2(4) == 16;
    assert Pow2(6) == 64;
  }

  lemma {:induction false} XorBitsCancels(n: nat, a: nat, k: nat)
    requires a < Pow2(n)
    ensures XorBits(n, XorBits(n, a, k), k) == a
    ensures XorBits(n, 0, a) == a
  {
    if n > 0 {
      XorBitsCancels(n - 1, a / 2, k / 2);
      var x := XorBits(n, a, k);
      assert x / 2 == XorBits(n - 1, a / 2, k / 2);
      assert x % 2 == if a % 2 == k % 2 then 0 else 1;
    }
  }

  lemma XorCancels(a: byte, k: byte)
    ensures Xor(Xor(a, k), k) == a
    ensures Xor(0, a) == a
  {
    Pow2Of8();
    XorBitsCancels(8, a, k);
  }

  /** Bit i of x, counted from the least significant. */
  function Bit(x: nat, i: nat): nat {
    if i == 0 then x % 2 else Bit(x / 2, i - 1)
  }

  lemma {:induction false} BitByDivision(x: nat, i: nat)
    ensures Bit(x, i) == (x / Pow2(i)) % 2
  {
    if i == 0 {
      assert Pow2(0) == 1;
    } else {
      BitByDivision(x / 2, i - 1);
      DivideTwice(x, 2, Pow2(i - 1));
    }
  }

  /** What makes it exclusive-or: each bit of the result is the sum modulo 2 of the two bits. */
  lemma {:induction false} XorBitsBit(n: nat, a: nat, b: nat, i: nat)
    requires i < n
    ensures Bit(XorBits(n, a, b), i) == (Bit(a, i) + Bit(b, i)) % 2
  {
    var x := XorBits(n, a, b);
    assert x / 2 == XorBits(n - 1, a / 2, b / 2);
    if i == 0 {
      assert x % 2 == (a % 2 + b % 2) % 2;
    } else {
      XorBitsBit(n - 1, a / 2, b / 2, i - 1);
    }
  }

  lemma DivideTwice(x: nat, d: nat, e: nat)
    requires d > 0 && e > 0
    ensures d * e > 0 && x / (d * e) == (x / d) / e
  {
    var y := x / d;
    assert x == d * y + x % d;
    assert y == (y / e) * e + y % e;
    DivideByParts(x, d, e, y, x % d, y / e, y % e);
  }

  lemma DivideByParts(x: nat, d: nat, e: nat, y: nat, t: nat, q: nat, r: nat)
    requires t < d && r < e && x == d * y + t && y == q * e + r
    ensures d * e > 0 && x / (d * e) == q
  {
    Regroup(d, q, e, r);
    ScaledBelow(d, r, e, t);
    QuotientIs(x, d * e, q, d * r + t);
  }

  lemma Regroup(d: nat, q: nat, e: nat, r: nat)
    ensures d * (q * e + r) == q * (d * e) + d * r
  {
    assert d * (q * e + r) == d * (q * e) + d * r;
    assert d * (q * e) == (d * q) * e == (q * d) * e == q * (d * e);
  }

  lemma ScaledBelow(d: nat, r: nat, e: nat, t: nat)
    requires r < e && t < d
    ensures d * r + t < d * e
  {
    assert d * (r + 1) <= d * e;
    assert d * (r + 1) == d * r + d;
  }

  lemma QuotientIs(x: nat, m: nat, q: nat, r: nat)
    requires r < m && x == q * m + r
    ensures x / m == q
  {
    var d := q - x / m;
    assert x == (x / m) * m + x % m;
    assert d * m == q * m - (x / m) * m;
    MultipleIsFar(d, m);
  }

  lemma MultipleIsFar(d: int, m: nat)
    ensures d >= 1 ==> d * m >= m
    ensures d <= -1 ==> d * m + m <= 0
  {
  }

  /** Exclusive-or of two strings of the same length. */
  function XorSeq(a: seq<byte>, b: seq<byte>): (x: seq<byte>)
    requires |a| == |b|
    ensures |x| == |a|
  {
    seq(|a|, i requires 0 <= i < |a| => Xor(a[i], b[i]))
  }

  lemma XorSeqCancels(a: seq<byte>, k: seq<byte>)
    requires |a| == |k|
    ensures XorSeq(XorSeq(a, k), k) == a
  {
    forall i | 0 <= i < |a| ensures XorSeq(XorSeq(a, k), k)[i] == a[i] {
      XorCancels(a[i], k[i]);
    }
  }

  // ---------------------------------------------------------------- big-endian integers

  /** 256^n, the number of n-octet strings. */
  function Pow256(n: nat): (p: nat)
    ensures p > 0
  {
    if n == 0 then 1 else 256 * Pow256(n - 1)
  }

  /** The low `len` octets of n, most significant first (a truncating `to_be_bytes`). */
  function ToBE(n: nat, len: nat): (b: seq<byte>)
    ensures |b| == len
  {
    if len == 0 then [] else ToBE(n / 256, len - 1) + [n % 256]
  }

  function FromBE(b: seq<byte>): nat {
    if b == [] then 0 else 256 * FromBE(b[..|b| - 1]) + b[|b| - 1]
  }

  lemma {:induction false} FromToBE(n: nat, len: nat)
    requires n < Pow256(len)
    ensures FromBE(ToBE(n, len)) == n
  {
    if len > 0 {
      FromToBE(n / 256, len - 1);
      assert ToBE(n, len)[..len - 1] == ToBE(n / 256, len - 1);
    }
  }

  lemma {:induction false} ToFromBE(b: seq<byte>)
    ensures ToBE(FromBE(b), |b|) == b
    ensures FromBE(b) < Pow256(|b|)
  {
    if b != [] {
      ToFromBE(b[..|b| - 1]);
      assert FromBE(b) / 256 == FromBE(b[..|b| - 1]);
      assert b == b[..|b| - 1] + [b[|b| - 1]];
    }
  }

  /** Each octet of the encoding, the most significant first. */
  lemma {:induction false} ToBEOctet(n: nat, len: nat, i: nat)
    requires i < len
    ensures ToBE(n, len)[i] == (n / Pow256(len - 1 - i)) % 256
  {
    if i == len - 1 {
      assert Pow256(0) == 1;
    } else {
      ToBEOctet(n / 256, len - 1, i);
      DivideTwice(n, 256, Pow256(len - 2 - i));
    }
  }

  /** What `len` octets leave over of n. */
  function Overflow(n: nat, len: nat): nat {
    if len == 0 then n else Overflow(n / 256, len - 1)
  }

  lemma {:induction false} FromToBEWraps(n: nat, len: nat)
    ensures n == FromBE(ToBE(n, len)) + Pow256(len) * Overflow(n, len)
    ensures FromBE(ToBE(n, len)) < Pow256(len)
  {
    ToFromBE(ToBE(n, len));
    if len > 0 {
      FromToBEWraps(n / 256, len - 1);
      assert ToBE(n, len)[..len - 1] == ToBE(n / 256, len - 1);
      WrapDigit(n, FromBE(ToBE(n / 256, len - 1)), Pow256(len - 1), Overflow(n / 256, len - 1));
    }
  }

  /** Four octets keep n modulo 2^32, eight modulo 2^64. */
  lemma ToBETruncates(n: nat)
    ensures FromBE(ToBE(n, 4)) == n % 0x1_0000_0000
    ensures FromBE(ToBE(n, 8)) == n % 0x1_0000_0000_0000_0000
  {
    Pow256Values();
    FromToBEWraps(n, 4);
    FromToBEWraps(n, 8);
    Remainder(n, Pow256(4), Overflow(n, 4), FromBE(ToBE(n, 4)));
    Remainder(n, Pow256(8), Overflow(n, 8), FromBE(ToBE(n, 8)));
  }

  lemma Remainder(x: nat, m: nat, q: nat, r: nat)
    requires r < m && x == r + m * q
    ensures x % m == r
  {
    assert m * q == q * m;
    QuotientIs(x, m, q, r);
    assert x == (x / m) * m + x % m;
  }

  lemma WrapDigit(n: nat, f: nat, p: nat, o: nat)
    requires n / 256 == f + p * o
    ensures n == (256 * f + n % 256) + (256 * p) * o
  {
    assert (256 * p) * o == 256 * (p * o);
  }

  lemma ToBEInjective(m: nat, n: nat, len: nat)
    requires m < Pow256(len) && n < Pow256(len)
    requires ToBE(m, len) == ToBE(n, len)
    ensures m == n
  {
    FromToBE(m, len);
    FromToBE(n, len);
  }

  lemma Pow256Values()
    ensures Pow256(1) == 0x100 && Pow256(2) == 0x1_0000
    ensures Pow256(4) == 0x1_0000_0000 && Pow256(8) == 0x1_0000_0000_0000_0000
  {
    assert Pow256(3) == 0x100_0000;
    assert Pow256(5) == 0x100_0000_0000;
    assert Pow256(7) == 0x100_0000_0000_0000;
  }

  // ---------------------------------------------------------------- chunk lists

  /** The concatenation of a list of chunks, in order. */
  function Flatten(chunks: seq<seq<byte>>): seq<byte> {
    if chunks == [] then [] else chunks[0] + Flatten(chunks[1..])
  }

  lemma ConcatAssociative<T>(a: seq<T>, b: seq<T>, c: seq<T>)
    ensures a + (b + c) == (a + b) + c
  {
  }

  lemma {:induction false} FlattenAppend(a: seq<seq<byte>>, b: seq<seq<byte>>)
    ensures Flatten(a + b) == Flatten(a) + Flatten(b)
  {
    if a == [] {
      assert a + b == b;
    } else {
      FlattenAppend(a[1..], b);
      assert (a + b)[0] == a[0] && (a + b)[1..] == a[1..] + b;
      ConcatAssociative(a[0], Flatten(a[1..]), Flatten(b));
    }
  }

  /** One more chunk of a list extends the flattened prefix by that chunk. */
  lemma FlattenNext(chunks: seq<seq<byte>>, i: nat)
    requires i < |chunks|
    ensures Flatten(chunks[..i + 1]) == Flatten(chunks[..i]) + chunks[i]
  {
    assert chunks[..i + 1] == chunks[..i] + [chunks[i]];
    FlattenAppend(chunks[..i], [chunks[i]]);
    assert Flatten([chunks[i]]) == chunks[i];
  }

  /** Cutting one chunk in two, or inserting an empty one (x or y empty), changes nothing. */
  lemma FlattenRecut(a: seq<seq<byte>>, x: seq<byte>, y: seq<byte>, b: seq<seq<byte>>)
    ensures Flatten(a + [x, y] + b) == Flatten(a + [x + y] + b)
  {
    FlattenAppend(a + [x, y], b);
    FlattenAppend(a + [x + y], b);
    FlattenAppend(a, [x, y]);
    FlattenAppend(a, [x + y]);
    assert [x, y][1..] == [y] && Flatten([y]) == y;
    assert Flatten([x + y]) == x + y;
    assert Flatten([x, y]) == x + y;
  }

  // ---------------------------------------------------------------- buffers

  /** `buf[start..start + |data|].copy_from_slice(data)` */
  method CopyFromSlice(buf: array<byte>, start: nat, data: seq<byte>)
    requires start + |data| <= buf.Length
    modifies buf
    ensures buf[..start] == old(buf[..start])
    ensures buf[start..start + |data|] == data
    ensures buf[start + |data|..] == old(buf[start + |data|..])
  {
    for i := 0 to |data|
      invariant forall j :: 0 <= j < buf.Length ==>
          buf[j] == if start <= j < start + i then data[j - start] else old(buf[j])
    {
      buf[start + i] := data[i];
    }
  }
}
