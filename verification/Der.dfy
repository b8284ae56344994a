/** DER for `Ecdsa-Sig-Value ::= SEQUENCE { r INTEGER, s INTEGER }` (section 2.2.3 of RFC 3279;
    sections 8.1.3, 8.3 and 10.1 of X.690): a printer, a strict parser, and the proof that each
    is exactly the inverse of the other. */
module Der {
  import opened Bytes

  const TAG_INTEGER: byte := 0x02
  const TAG_SEQUENCE: byte := 0x30

  /** Lengths are 32-bit words; a longer content has no encoding here. */
  const LENGTH_LIMIT := 0x1_0000_0000

  // ---------------------------------------------------------------- minimal big-endian integers

  /** The octets of n without leading zeros; none for 0. */
  function MinBE(n: nat): seq<byte> {
    if n == 0 then [] else MinBE(n / 256) + [n % 256]
  }

  lemma {:induction false} FromMinBE(n: nat)
    ensures FromBE(MinBE(n)) == n
    ensures MinBE(n) == [] || MinBE(n)[0] != 0
  {
    if n != 0 {
      FromMinBE(n / 256);
      assert MinBE(n)[..|MinBE(n)| - 1] == MinBE(n / 256);
    }
  }

  lemma {:induction false} MinFromBE(b: seq<byte>)
    requires b == [] || b[0] != 0
    ensures MinBE(FromBE(b)) == b
    ensures b != [] ==> FromBE(b) > 0
  {
    if b != [] {
      var n, front, last := FromBE(b), b[..|b| - 1], b[|b| - 1];
      MinFromBE(front);
      assert n == 256 * FromBE(front) + last;
      assert n > 0 && n / 256 == FromBE(front) && n % 256 == last;
      assert b == front + [last];
    }
  }

  lemma {:induction false} MinBELength(n: nat, k: nat)
    ensures |MinBE(n)| <= k <==> n < Pow256(k)
  {
    if n != 0 && k != 0 {
      MinBELength(n / 256, k - 1);
    }
  }

  /** Right-aligned in k octets behind zeros, the minimal octets are the fixed-width ones. */
  lemma {:induction false} PaddedMinBE(n: nat, k: nat)
    requires |MinBE(n)| <= k
    ensures Zeros(k - |MinBE(n)|) + MinBE(n) == ToBE(n, k)
  {
    if k == 0 {
    } else if n == 0 {
      PaddedMinBE(0, k - 1);
      assert Zeros(k) == Zeros(k - 1) + [0];
    } else {
      PaddedMinBE(n / 256, k - 1);
      assert Zeros(k - |MinBE(n)|) + MinBE(n) == (Zeros(k - |MinBE(n)|) + MinBE(n / 256)) + [n % 256];
    }
  }

  // ---------------------------------------------------------------- printer

  /** Two's complement content of a non-negative INTEGER: a zero octet keeps the sign bit clear. */
  function IntegerContent(n: nat): (c: seq<byte>)
    ensures c != []
  {
    var m := MinBE(n);
    if m == [] || m[0] >= 0x80 then [0] + m else m
  }

  /** Section 8.1.3 of X.690: short form below 128, otherwise the minimal long form. */
  function Length(n: nat): (l: seq<byte>)
    requires n < LENGTH_LIMIT
    ensures 1 <= |l| <= 5
  {
    Pow256Values();
    MinBELength(n, 4);
    if n < 0x80 then [n] else [0x80 + |MinBE(n)|] + MinBE(n)
  }

  function Tlv(tag: byte, content: seq<byte>): seq<byte>
    requires |content| < LENGTH_LIMIT
  {
    [tag] + Length(|content|) + content
  }

  function SigBody(r: nat, s: nat): seq<byte>
    requires |IntegerContent(r)| < LENGTH_LIMIT && |IntegerContent(s)| < LENGTH_LIMIT
  {
    Tlv(TAG_INTEGER, IntegerContent(r)) + Tlv(TAG_INTEGER, IntegerContent(s))
  }

  predicate Encodable(r: nat, s: nat) {
    |IntegerContent(r)| < LENGTH_LIMIT && |IntegerContent(s)| < LENGTH_LIMIT &&
    |SigBody(r, s)| < LENGTH_LIMIT
  }

  function EncodeSig(r: nat, s: nat): seq<byte>
    requires Encodable(r, s)
  {
    Tlv(TAG_SEQUENCE, SigBody(r, s))
  }

  // ---------------------------------------------------------------- strict parser

  function ReadLength(d: seq<byte>): Option<(nat, seq<byte>)> {
    if d == [] then None
    else if d[0] < 0x80 then Some((d[0], d[1..]))
    else
      var k := d[0] - 0x80;
      if k == 0 || k > 4 || |d| < 1 + k || d[1] == 0 then None
      else
        var n := FromBE(d[1..1 + k]);
        if n < 0x80 then None else Some((n, d[1 + k..]))
  }

  /** Content and rest of the element with this tag at the head of d. */
  function ReadTlv(tag: byte, d: seq<byte>): Option<(seq<byte>, seq<byte>)> {
    if d == [] || d[0] != tag then None
    else
      match ReadLength(d[1..])
      case None => None
      case Some((n, rest)) => if n > |rest| then None else Some((rest[..n], rest[n..]))
  }

  /** Non-negative and minimal: section 8.3.2 of X.690. */
  predicate ValidInteger(c: seq<byte>) {
    c != [] && c[0] < 0x80 && (c[0] == 0 && |c| > 1 ==> c[1] >= 0x80)
  }

  function ReadInteger(d: seq<byte>): Option<(nat, seq<byte>)> {
    match ReadTlv(TAG_INTEGER, d)
    case None => None
    case Some((c, rest)) => if ValidInteger(c) then Some((FromBE(c), rest)) else None
  }

  function DecodeSig(d: seq<byte>): Option<(nat, nat)> {
    match ReadTlv(TAG_SEQUENCE, d)
    case None => None
    case Some((body, rest)) =>
      if rest != [] then None
      else
        match ReadInteger(body)
        case None => None
        case Some((r, rest1)) =>
          match ReadInteger(rest1)
          case None => None
          case Some((s, rest2)) => if rest2 != [] then None else Some((r, s))
  }

  // ---------------------------------------------------------------- parser and printer are inverse

  lemma ReadLengthIff(d: seq<byte>, n: nat, rest: seq<byte>)
    ensures ReadLength(d) == Some((n, rest)) <==> n < LENGTH_LIMIT && d == Length(n) + rest
  {
    if n < LENGTH_LIMIT && d == Length(n) + rest {
      ReadPrintedLength(n, rest);
    }
    if ReadLength(d) == Some((n, rest)) {
      PrintReadLength(d);
    }
  }

  lemma ReadPrintedLength(n: nat, rest: seq<byte>)
    requires n < LENGTH_LIMIT
    ensures ReadLength(Length(n) + rest) == Some((n, rest))
  {
    var d := Length(n) + rest;
    if n < 0x80 {
      assert d[1..] == rest;
    } else {
      Pow256Values();
      MinBELength(n, 4);
      FromMinBE(n);
      assert MinBE(n) != [];
      assert d[1..1 + |MinBE(n)|] == MinBE(n);
      assert d[1 + |MinBE(n)|..] == rest;
    }
  }

  lemma PrintReadLength(d: seq<byte>)
    requires ReadLength(d).Some?
    ensures var (n, rest) := ReadLength(d).value;
            n < LENGTH_LIMIT && d == Length(n) + rest
  {
    if d[0] < 0x80 {
      assert d == [d[0]] + d[1..];
    } else {
      var k := d[0] - 0x80;
      var m := d[1..1 + k];
      MinFromBE(m);
      ToFromBE(m);
      Pow256Mono(k, 4);
      Pow256Values();
      assert d == [d[0]] + m + d[1 + k..];
    }
  }

  lemma {:induction false} Pow256Mono(i: nat, j: nat)
    requires i <= j
    ensures Pow256(i) <= Pow256(j)
  {
    if i < j {
      Pow256Mono(i, j - 1);
    }
  }

  lemma ReadTlvIff(tag: byte, d: seq<byte>, content: seq<byte>, rest: seq<byte>)
    ensures ReadTlv(tag, d) == Some((content, rest)) <==>
            |content| < LENGTH_LIMIT && d == Tlv(tag, content) + rest
  {
    if |content| < LENGTH_LIMIT && d == Tlv(tag, content) + rest {
      ReadPrintedTlv(tag, content, rest);
    }
    if ReadTlv(tag, d) == Some((content, rest)) {
      PrintReadTlv(tag, d);
    }
  }

  lemma PrintReadTlv(tag: byte, d: seq<byte>)
    requires ReadTlv(tag, d).Some?
    ensures var (content, rest) := ReadTlv(tag, d).value;
            |content| < LENGTH_LIMIT && d == Tlv(tag, content) + rest
  {
    var (n, tail) := ReadLength(d[1..]).value;
    PrintReadLength(d[1..]);
    assert tail == tail[..n] + tail[n..];
    AssembleTlv(tag, Length(n), tail[..n], tail[n..], d);
  }

  lemma AssembleTlv(tag: byte, l: seq<byte>, content: seq<byte>, rest: seq<byte>, d: seq<byte>)
    requires d != [] && d[0] == tag && d[1..] == l + (content + rest)
    ensures d == [tag] + l + content + rest
  {
    assert d == [tag] + d[1..];
  }

  lemma ReadPrintedTlv(tag: byte, content: seq<byte>, rest: seq<byte>)
    requires |content| < LENGTH_LIMIT
    ensures ReadTlv(tag, Tlv(tag, content) + rest) == Some((content, rest))
  {
    var d, tail := Tlv(tag, content) + rest, content + rest;
    assert d[1..] == Length(|content|) + tail;
    ReadLengthIff(d[1..], |content|, tail);
    assert tail[..|content|] == content && tail[|content|..] == rest;
  }

  lemma IntegerContentIff(c: seq<byte>, n: nat)
    ensures ValidInteger(c) && FromBE(c) == n <==> c == IntegerContent(n)
  {
    FromMinBE(n);
    FromBEZero(MinBE(n));
    if ValidInteger(c) && FromBE(c) == n {
      if c[0] == 0 {
        FromBEZero(c[1..]);
        assert c == [0] + c[1..];
        MinFromBE(c[1..]);
      } else {
        MinFromBE(c);
      }
    }
  }

  lemma {:induction false} FromBEZero(b: seq<byte>)
    ensures FromBE([0] + b) == FromBE(b)
  {
    var z := [0] + b;
    if b == [] {
      assert z[..0] == [];
    } else {
      FromBEZero(b[..|b| - 1]);
      assert z[..|z| - 1] == [0] + b[..|b| - 1];
    }
  }

  lemma ReadIntegerIff(d: seq<byte>, n: nat, rest: seq<byte>)
    ensures ReadInteger(d) == Some((n, rest)) <==>
            |IntegerContent(n)| < LENGTH_LIMIT && d == Tlv(TAG_INTEGER, IntegerContent(n)) + rest
  {
    ReadTlvIff(TAG_INTEGER, d, IntegerContent(n), rest);
    IntegerContentIff(IntegerContent(n), n);
    if ReadInteger(d) == Some((n, rest)) {
      IntegerContentIff(ReadTlv(TAG_INTEGER, d).value.0, n);
    }
  }

  /** The parser accepts d as (r, s) exactly when d is the one encoding of (r, s). */
  lemma DecodeIffEncoded(d: seq<byte>, r: nat, s: nat)
    ensures DecodeSig(d) == Some((r, s)) <==> Encodable(r, s) && d == EncodeSig(r, s)
  {
    if Encodable(r, s) && d == EncodeSig(r, s) {
      var body := SigBody(r, s);
      var second := Tlv(TAG_INTEGER, IntegerContent(s));
      assert d == d + [] && second == second + [];
      ReadTlvIff(TAG_SEQUENCE, d, body, []);
      ReadIntegerIff(body, r, second);
      ReadIntegerIff(second, s, []);
    }
    if DecodeSig(d) == Some((r, s)) {
      var body := ReadTlv(TAG_SEQUENCE, d).value.0;
      var second := ReadInteger(body).value.1;
      ReadTlvIff(TAG_SEQUENCE, d, body, []);
      ReadIntegerIff(body, r, second);
      ReadIntegerIff(second, s, []);
      assert second == Tlv(TAG_INTEGER, IntegerContent(s));
      assert body == SigBody(r, s);
      assert d == Tlv(TAG_SEQUENCE, body);
    }
  }

  // ---------------------------------------------------------------- sizes

  lemma {:induction false} TopBit(n: nat)
    requires n > 0
    ensures MinBE(n) != []
    ensures MinBE(n)[0] >= 0x80 <==> n >= 0x80 * Pow256(|MinBE(n)| - 1)
  {
    if n >= 256 {
      TopBit(n / 256);
      assert MinBE(n)[0] == MinBE(n / 256)[0];
    } else {
      assert MinBE(n) == [n];
    }
  }

  /** An integer of at most k octets takes k + 1 octets exactly when its top bit is set. */
  lemma IntegerContentSize(n: nat, k: nat)
    requires 1 <= k && n < Pow256(k)
    ensures |IntegerContent(n)| <= k + 1
    ensures |IntegerContent(n)| == k + 1 <==> n >= 0x80 * Pow256(k - 1)
  {
    MinBELength(n, k);
    MinBELength(n, k - 1);
    if n > 0 {
      TopBit(n);
    }
  }

  /** Integers of up to 2^28 octets are within the 32-bit lengths. */
  lemma FixedWidthEncodable(r: nat, s: nat, k: nat)
    requires k <= 0x1000_0000 && r < Pow256(k) && s < Pow256(k)
    ensures Encodable(r, s)
  {
    MinBELength(r, k);
    MinBELength(s, k);
  }

  /** The largest encoding of two integers of at most k octets. */
  function MaxSigLen(k: nat): nat {
    if 2 * k + 6 < 0x80 then 2 * k + 8 else 2 * k + 9
  }

  /** Two k-octet integers need at most MaxSigLen(k) octets, and all of them exactly when both
      top bits are set: 72, 104 and 141 octets for the three curves' field sizes. */
  lemma SigSizeBound(r: nat, s: nat, k: nat)
    requires 1 <= k <= 124 && r < Pow256(k) && s < Pow256(k)
    ensures Encodable(r, s)
    ensures |EncodeSig(r, s)| <= MaxSigLen(k)
    ensures |EncodeSig(r, s)| == MaxSigLen(k) <==>
            r >= 0x80 * Pow256(k - 1) && s >= 0x80 * Pow256(k - 1)
    ensures MaxSigLen(32) == 72 && MaxSigLen(48) == 104 && MaxSigLen(66) == 141
  {
    FixedWidthEncodable(r, s, k);
    IntegerContentSize(r, k);
    IntegerContentSize(s, k);
    SigLength(r, s);
  }

  /** The encoding in literal octets: a SEQUENCE of the two INTEGERs, r before s, its length in the
      short form below 128 and in one long-form octet from there. */
  lemma SigOctets(r: nat, s: nat, k: nat)
    requires 1 <= k <= 124 && r < Pow256(k) && s < Pow256(k)
    ensures Encodable(r, s)
    ensures var rc, sc := IntegerContent(r), IntegerContent(s);
            var n := |rc| + |sc| + 4;
            n < 0x100 && |rc| < 0x80 && |sc| < 0x80 &&
            EncodeSig(r, s) == (if n < 0x80 then [0x30, n] else [0x30, 0x81, n])
                               + (([0x02, |rc|] + rc) + ([0x02, |sc|] + sc)) &&
            FromBE(rc) == r && FromBE(sc) == s && ValidInteger(rc) && ValidInteger(sc)
  {
    FixedWidthEncodable(r, s, k);
    IntegerContentSize(r, k);
    IntegerContentSize(s, k);
    IntegerContentIff(IntegerContent(r), r);
    IntegerContentIff(IntegerContent(s), s);
    ShortTlv(IntegerContent(r));
    ShortTlv(IntegerContent(s));
    SequenceOctets(SigBody(r, s));
  }

  lemma ShortTlv(content: seq<byte>)
    requires |content| < 0x80
    ensures Tlv(TAG_INTEGER, content) == [0x02, |content|] + content
  {
  }

  lemma SequenceOctets(body: seq<byte>)
    requires |body| < 0x100
    ensures Tlv(TAG_SEQUENCE, body) == (if |body| < 0x80 then [0x30, |body|] else [0x30, 0x81, |body|]) + body
  {
    LengthOctets(|body|);
  }

  lemma LengthOctets(n: nat)
    requires n < 0x100
    ensures Length(n) == if n < 0x80 then [n] else [0x81, n]
  {
    if n >= 0x80 {
      assert MinBE(n) == MinBE(0) + [n];
      assert MinBE(n) == [n];
    }
  }

  /** Signatures whose integers stay below 2^521, as those of P-521 do, need at most 139 octets, and
      all of them exactly when both integers reach the top bit of the 65th octet. */
  lemma P521SizeBound(r: nat, s: nat)
    requires r < 2 * Pow256(65) && s < 2 * Pow256(65)
    ensures Encodable(r, s) && |EncodeSig(r, s)| <= 139
    ensures |EncodeSig(r, s)| == 139 <==> r >= 0x80 * Pow256(64) && s >= 0x80 * Pow256(64)
  {
    P521ContentSize(r);
    P521ContentSize(s);
    SigLength(r, s);
  }

  lemma P521ContentSize(n: nat)
    requires n < 2 * Pow256(65)
    ensures |IntegerContent(n)| <= 66
    ensures |IntegerContent(n)| == 66 <==> n >= 0x80 * Pow256(64)
  {
    assert Pow256(65) == 256 * Pow256(64) && Pow256(66) == 256 * Pow256(65);
    if n < Pow256(65) {
      IntegerContentSize(n, 65);
    } else {
      IntegerContentSize(n, 66);
      MinBELength(n, 65);
    }
  }

  lemma SigLength(r: nat, s: nat)
    requires |IntegerContent(r)| < 0x80 && |IntegerContent(s)| < 0x80
    requires |IntegerContent(r)| + |IntegerContent(s)| + 4 < 0x100
    ensures Encodable(r, s)
    ensures var body := |IntegerContent(r)| + |IntegerContent(s)| + 4;
            |EncodeSig(r, s)| == body + if body < 0x80 then 2 else 3
  {
    Pow256Values();
    var body := |IntegerContent(r)| + |IntegerContent(s)| + 4;
    assert |SigBody(r, s)| == body;
    MinBELength(body, 1);
    assert body != 0;
  }
}
