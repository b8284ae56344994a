/** ECDSA signatures between the fixed-width r || s of the curve library and the DER of TLS:
    `sign/ecdsa.rs` prints, `verify/ecdsa.rs` parses. The curve operations are parameters. */
module Ecdsa {
  import opened Bytes
  import opened Der

  datatype Scheme = P256Sha256 | P384Sha384 | P521Sha512 | Unsupported

  datatype EcdsaError =
    UnrecognisedCurve | UnsupportedScheme | LengthMismatch | BufferTooSmall | InvalidSignature

  /** sign(scheme, public key, private scalar, message) is the pair (r, s);
      verify(scheme, public key, message, r || s) is the library's verdict. */
  datatype Curves = Curves(
    sign: (Scheme, seq<byte>, seq<byte>, seq<byte>) -> (nat, nat),
    verify: (Scheme, seq<byte>, seq<byte>, seq<byte>) -> bool)

  datatype SigningKey = SigningKey(privKey: seq<byte>, pubX963: seq<byte>, scheme: Scheme)

  const DER_BUFFER := 141

  function FieldSize(scheme: Scheme): nat {
    match scheme
    case P256Sha256 => 32
    case P384Sha384 => 48
    case P521Sha512 => 66
    case Unsupported => 0
  }

  function X963LenToScheme(len: nat): Result<Scheme, EcdsaError> {
    match len
    case 65 => Ok(P256Sha256)
    case 97 => Ok(P384Sha384)
    case 133 => Ok(P521Sha512)
    case _ => Err(UnrecognisedCurve)
  }

  // ---------------------------------------------------------------- fixed-width r || s

  /** Two integers of fieldSize octets each that DER with 32-bit lengths can hold. */
  predicate FixedWidth(rs: seq<byte>, fieldSize: nat) {
    |rs| == 2 * fieldSize && Encodable(FromBE(rs[..fieldSize]), FromBE(rs[fieldSize..]))
  }

  /** The DER of the two integers in r || s. */
  function SigDer(rs: seq<byte>, fieldSize: nat): seq<byte>
    requires FixedWidth(rs, fieldSize)
  {
    EncodeSig(FromBE(rs[..fieldSize]), FromBE(rs[fieldSize..]))
  }

  /** Any r || s of the right length is encodable, for fields of up to 2^28 octets. */
  lemma HalvesEncodable(rs: seq<byte>, fieldSize: nat)
    requires |rs| == 2 * fieldSize && fieldSize <= 0x1000_0000
    ensures FromBE(rs[..fieldSize]) < Pow256(fieldSize) && FromBE(rs[fieldSize..]) < Pow256(fieldSize)
    ensures FixedWidth(rs, fieldSize)
  {
    ToFromBE(rs[..fieldSize]);
    ToFromBE(rs[fieldSize..]);
    FixedWidthEncodable(FromBE(rs[..fieldSize]), FromBE(rs[fieldSize..]), fieldSize);
  }

  /** Both integers at the fixed width, if they fit. */
  function AtWidth(pair: Option<(nat, nat)>, fieldSize: nat): Result<seq<byte>, EcdsaError> {
    match pair
    case None => Err(InvalidSignature)
    case Some((r, s)) =>
      if |MinBE(r)| > fieldSize || |MinBE(s)| > fieldSize then Err(InvalidSignature)
      else Ok(ToBE(r, fieldSize) + ToBE(s, fieldSize))
  }

  /** The fixed-width r || s of a DER signature. */
  function FixedRs(der: seq<byte>, fieldSize: nat): Result<seq<byte>, EcdsaError> {
    AtWidth(DecodeSig(der), fieldSize)
  }

  /** Round trip in both directions: the verifier's conversion yields rs exactly from the DER the
      signer's conversion makes of rs. Leading zeros, set top bits and zero values included. */
  lemma FixedRsIffSigDer(der: seq<byte>, fieldSize: nat, rs: seq<byte>)
    ensures FixedRs(der, fieldSize) == Ok(rs) <==> FixedWidth(rs, fieldSize) && der == SigDer(rs, fieldSize)
  {
    if FixedWidth(rs, fieldSize) && der == SigDer(rs, fieldSize) {
      PrintThenParse(rs, fieldSize);
    }
    if FixedRs(der, fieldSize) == Ok(rs) {
      FixedRsKeepsValues(der, fieldSize);
      DecodeIffEncoded(der, FromBE(rs[..fieldSize]), FromBE(rs[fieldSize..]));
    }
  }

  lemma PrintThenParse(rs: seq<byte>, fieldSize: nat)
    requires FixedWidth(rs, fieldSize)
    ensures FixedRs(SigDer(rs, fieldSize), fieldSize) == Ok(rs)
  {
    var r, s := FromBE(rs[..fieldSize]), FromBE(rs[fieldSize..]);
    DecodeIffEncoded(SigDer(rs, fieldSize), r, s);
    HalvesAtWidth(rs, fieldSize);
  }

  lemma HalvesAtWidth(rs: seq<byte>, fieldSize: nat)
    requires |rs| == 2 * fieldSize
    ensures AtWidth(Some((FromBE(rs[..fieldSize]), FromBE(rs[fieldSize..]))), fieldSize) == Ok(rs)
  {
    var front, back := rs[..fieldSize], rs[fieldSize..];
    ToFromBE(front);
    ToFromBE(back);
    MinBELength(FromBE(front), fieldSize);
    MinBELength(FromBE(back), fieldSize);
    assert rs == front + back;
  }

  /** Right-alignment keeps value: each half of the output, read big-endian, is the integer decoded. */
  lemma FixedRsKeepsValues(der: seq<byte>, fieldSize: nat)
    requires FixedRs(der, fieldSize).Ok?
    ensures var rs := FixedRs(der, fieldSize).value;
            |rs| == 2 * fieldSize &&
            DecodeSig(der) == Some((FromBE(rs[..fieldSize]), FromBE(rs[fieldSize..])))
  {
    var (r, s) := DecodeSig(der).value;
    MinBELength(r, fieldSize);
    MinBELength(s, fieldSize);
    FromToBE(r, fieldSize);
    FromToBE(s, fieldSize);
    var front, back := ToBE(r, fieldSize), ToBE(s, fieldSize);
    assert (front + back)[..fieldSize] == front && (front + back)[fieldSize..] == back;
  }

  // ---------------------------------------------------------------- verify/ecdsa.rs

  /** The library's `sig_to_rs`: parses and copies the minimal octets into the caller's buffers,
      failing on malformed DER and on an integer longer than the capacity given. */
  method SigToRs(der: seq<byte>, rBuf: array<byte>, rCap: nat, sBuf: array<byte>, sCap: nat)
    returns (ok: bool, rLen: nat, sLen: nat)
    requires rBuf != sBuf && rCap <= rBuf.Length && sCap <= sBuf.Length
    modifies rBuf, sBuf
    ensures ok <==> DecodeSig(der).Some? &&
                    |MinBE(DecodeSig(der).value.0)| <= rCap && |MinBE(DecodeSig(der).value.1)| <= sCap
    ensures ok ==> rLen <= rCap && rBuf[..rLen] == MinBE(DecodeSig(der).value.0)
    ensures ok ==> sLen <= sCap && sBuf[..sLen] == MinBE(DecodeSig(der).value.1)
  {
    ok, rLen, sLen := false, rCap, sCap;
    match DecodeSig(der) {
      case None =>
      case Some((r, s)) =>
        var rm, sm := MinBE(r), MinBE(s);
        if |rm| <= rCap && |sm| <= sCap {
          CopyFromSlice(rBuf, 0, rm);
          CopyFromSlice(sBuf, 0, sm);
          ok, rLen, sLen := true, |rm|, |sm|;
          assert rBuf[..rLen] == rm && sBuf[..sLen] == sm;
        }
    }
  }

  /** Lengths pass through 32-bit words, so the field size has to be one. */
  method DerSigToFixedRs(der: seq<byte>, fieldSize: nat) returns (res: Result<seq<byte>, EcdsaError>)
    requires fieldSize < 0x1_0000_0000
    ensures res == FixedRs(der, fieldSize)
  {
    var rBuf := new byte[fieldSize](_ => 0);
    var sBuf := new byte[fieldSize](_ => 0);
    var ok, rLen, sLen := SigToRs(der, rBuf, fieldSize, sBuf, fieldSize);
    if !ok || rLen > fieldSize || sLen > fieldSize {
      return Err(InvalidSignature);
    }
    ghost var (r, s) := DecodeSig(der).value;
    PaddedMinBE(r, fieldSize);
    PaddedMinBE(s, fieldSize);
    var out := AlignRight(rBuf[..rLen], sBuf[..sLen], fieldSize);
    res := Ok(out);
  }

  /** Copies both integers to the ends of their halves of a zeroed buffer. */
  method AlignRight(r: seq<byte>, s: seq<byte>, n: nat) returns (rs: seq<byte>)
    requires |r| <= n && |s| <= n
    ensures rs == (Zeros(n - |r|) + r) + (Zeros(n - |s|) + s)
  {
    var out := new byte[2 * n](_ => 0);
    assert out[..n - |r|] == Zeros(n - |r|) && out[n - |r| + |r|..] == Zeros(n);
    CopyFromSlice(out, n - |r|, r);
    ghost var mid := out[..];
    assert mid[..n - |r|] == Zeros(n - |r|) && mid[n - |r|..n] == r && mid[n..] == Zeros(n);
    CopyFromSlice(out, 2 * n - |s|, s);
    assert out[..2 * n - |s|] == mid[..2 * n - |s|] && out[2 * n - |s|..2 * n] == s;
    RightAligned(out[..], mid, n, r, s);
    rs := out[..];
  }

  /** The two copies into a zeroed buffer never overlap. */
  lemma RightAligned(out: seq<byte>, mid: seq<byte>, n: nat, r: seq<byte>, s: seq<byte>)
    requires |r| <= n && |s| <= n && |out| == |mid| == 2 * n
    requires mid[..n - |r|] == Zeros(n - |r|) && mid[n - |r|..n] == r && mid[n..] == Zeros(n)
    requires out[..2 * n - |s|] == mid[..2 * n - |s|] && out[2 * n - |s|..2 * n] == s
    ensures out == (Zeros(n - |r|) + r) + (Zeros(n - |s|) + s)
  {
    assert mid == Zeros(n - |r|) + r + Zeros(n);
    assert out == mid[..2 * n - |s|] + s;
    assert mid[..2 * n - |s|] == Zeros(n - |r|) + r + Zeros(n - |s|);
  }

  /** Accepts exactly the signatures whose DER is that of some r || s of the scheme's width which
      the curve library accepts, under a public key of the right length. */
  method VerifySignature(c: Curves, scheme: Scheme, publicKey: seq<byte>, message: seq<byte>, signature: seq<byte>)
    returns (res: Result<(), EcdsaError>)
    ensures res == Ok(()) || res == Err(InvalidSignature)
    ensures res.Ok? <==>
              !scheme.Unsupported? && |publicKey| == 2 * FieldSize(scheme) + 1 &&
              exists rs: seq<byte> :: FixedWidth(rs, FieldSize(scheme)) &&
                signature == SigDer(rs, FieldSize(scheme)) && c.verify(scheme, publicKey, message, rs)
  {
    var fieldSize := FieldSize(scheme);
    if scheme.Unsupported? || |publicKey| != 2 * fieldSize + 1 {
      return Err(InvalidSignature);
    }
    var rs := DerSigToFixedRs(signature, fieldSize);
    forall x: seq<byte>
      ensures FixedRs(signature, fieldSize) == Ok(x) <==>
              FixedWidth(x, fieldSize) && signature == SigDer(x, fieldSize)
    {
      FixedRsIffSigDer(signature, fieldSize, x);
    }
    if rs.Err? || !c.verify(scheme, publicKey, message, rs.value) {
      return Err(InvalidSignature);
    }
    res := Ok(());
  }

  // ---------------------------------------------------------------- sign/ecdsa.rs

  /** The key built from the exported public point and private scalar. */
  function TryFrom(x963: seq<byte>, exportedPrivate: seq<byte>): Result<SigningKey, EcdsaError> {
    match X963LenToScheme(|x963|)
    case Err(e) => Err(e)
    case Ok(scheme) => Ok(SigningKey(exportedPrivate, x963, scheme))
  }

  /** `try_into` of both key parts in `sign` succeeds for this key. */
  predicate WellSized(key: SigningKey) {
    |key.pubX963| == 2 * FieldSize(key.scheme) + 1 && |key.privKey| == FieldSize(key.scheme)
  }

  /** The r || s octets the curve library returns for this key and message. */
  function RsBytes(c: Curves, key: SigningKey, message: seq<byte>): (rs: seq<byte>)
    ensures FixedWidth(rs, FieldSize(key.scheme))
  {
    var (r, s) := c.sign(key.scheme, key.pubX963, key.privKey, message);
    HalvesEncodable(ToBE(r, FieldSize(key.scheme)) + ToBE(s, FieldSize(key.scheme)), FieldSize(key.scheme));
    ToBE(r, FieldSize(key.scheme)) + ToBE(s, FieldSize(key.scheme))
  }

  /** The DER sent is that of the pair the curve library signed with, r before s. */
  lemma SignedPairDecodes(c: Curves, key: SigningKey, message: seq<byte>)
    ensures var (r, s) := c.sign(key.scheme, key.pubX963, key.privKey, message);
            r < Pow256(FieldSize(key.scheme)) && s < Pow256(FieldSize(key.scheme)) ==>
              DecodeSig(SigDer(RsBytes(c, key, message), FieldSize(key.scheme))) == Some((r, s))
  {
    var (r, s) := c.sign(key.scheme, key.pubX963, key.privKey, message);
    var n := FieldSize(key.scheme);
    if r < Pow256(n) && s < Pow256(n) {
      var rs := RsBytes(c, key, message);
      assert rs[..n] == ToBE(r, n) && rs[n..] == ToBE(s, n);
      FromToBE(r, n);
      FromToBE(s, n);
      DecodeIffEncoded(SigDer(rs, n), r, s);
    }
  }

  /** The library's `rs_bin_to_sig`: prints into the caller's buffer if it fits. */
  method RsBinToSig(r: seq<byte>, s: seq<byte>, out: array<byte>) returns (res: Result<nat, EcdsaError>)
    requires Encodable(FromBE(r), FromBE(s))
    modifies out
    ensures res == if |EncodeSig(FromBE(r), FromBE(s))| <= out.Length
                   then Ok(|EncodeSig(FromBE(r), FromBE(s))|) else Err(BufferTooSmall)
    ensures res.Ok? ==> out[..res.value] == EncodeSig(FromBE(r), FromBE(s))
  {
    var der := EncodeSig(FromBE(r), FromBE(s));
    if |der| > out.Length {
      return Err(BufferTooSmall);
    }
    CopyFromSlice(out, 0, der);
    assert out[..|der|] == out[0..0 + |der|];
    res := Ok(|der|);
  }

  /** The 141-octet buffer is never too small: signing fails only for the two reasons named. */
  method Sign(c: Curves, key: SigningKey, message: seq<byte>) returns (res: Result<seq<byte>, EcdsaError>)
    ensures res == if key.scheme.Unsupported? then Err(UnsupportedScheme)
                   else if !WellSized(key) then Err(LengthMismatch)
                   else Ok(SigDer(RsBytes(c, key, message), FieldSize(key.scheme)))
    ensures var (r, s) := c.sign(key.scheme, key.pubX963, key.privKey, message);
            res.Ok? && r < Pow256(FieldSize(key.scheme)) && s < Pow256(FieldSize(key.scheme)) ==>
              DecodeSig(res.value) == Some((r, s))
    ensures res.Ok? ==> |res.value| <= MaxSigLen(FieldSize(key.scheme)) <= DER_BUFFER
  {
    if key.scheme.Unsupported? {
      return Err(UnsupportedScheme);
    }
    if !WellSized(key) {
      return Err(LengthMismatch);
    }
    var rsBytes := RsBytes(c, key, message);
    var fieldSize := |rsBytes| / 2;
    var r, s := rsBytes[..fieldSize], rsBytes[fieldSize..];
    var derBuf := new byte[DER_BUFFER](_ => 0);
    HalvesEncodable(rsBytes, fieldSize);
    SigSizeBound(FromBE(r), FromBE(s), fieldSize);
    var derLen := RsBinToSig(r, s, derBuf);
    if derLen.Err? {
      return Err(BufferTooSmall);
    }
    res := Ok(derBuf[..derLen.value]);
    SignedPairDecodes(c, key, message);
  }

  /** Signer and verifier agree on field sizes. For any exported point and scalar, signing can fail
      only for a point of no known curve or a scalar that does not fill its field; otherwise the DER
      sent is accepted exactly if the curve library accepts its own r || s. */
  method SignThenVerify(c: Curves, x963: seq<byte>, exportedPrivate: seq<byte>, message: seq<byte>)
    returns (res: Result<bool, EcdsaError>)
    ensures res.Err? <==> |x963| !in {65, 97, 133} || |exportedPrivate| != (|x963| - 1) / 2
    ensures res.Ok? ==>
              TryFrom(x963, exportedPrivate).Ok? &&
              var key := TryFrom(x963, exportedPrivate).value;
              var (r, s) := c.sign(key.scheme, x963, exportedPrivate, message);
              var fieldSize := (|x963| - 1) / 2;
              res.value <==> c.verify(key.scheme, x963, message, ToBE(r, fieldSize) + ToBE(s, fieldSize))
  {
    var imported := TryFrom(x963, exportedPrivate);
    if imported.Err? {
      return Err(imported.error);
    }
    var key := imported.value;
    var der := Sign(c, key, message);
    if der.Err? {
      return Err(der.error);
    }
    var verdict := VerifySignature(c, key.scheme, x963, message, der.value);
    res := Ok(verdict.Ok?);
    var rs := RsBytes(c, key, message);
    forall other: seq<byte> |
      FixedWidth(other, FieldSize(key.scheme)) && der.value == SigDer(other, FieldSize(key.scheme))
      ensures other == rs
    {
      FixedRsIffSigDer(der.value, FieldSize(key.scheme), other);
      FixedRsIffSigDer(der.value, FieldSize(key.scheme), rs);
    }
  }
}
