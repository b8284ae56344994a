/** The two mutable record buffers rustls hands to the ciphers: a growing outbound payload and
    a borrowed inbound one that is overwritten in place and cut down. */
module Buffers {
  import opened Bytes
  import opened Records

  /** An outbound message whose payload is a list of chunks. */
  datatype OutboundPlainMessage = OutboundPlainMessage(typ: byte, version: u16, chunks: seq<seq<byte>>) {
    function PayloadLen(): nat {
      |Flatten(chunks)|
    }

    /** The message with its payload in one piece. */
    function Joined(): Plain {
      Plain(typ, version, Flatten(chunks))
    }
  }

  class PrefixedPayload {
    var buf: seq<byte>

    constructor ()
      ensures buf == []
    {
      buf := [];
    }

    method ExtendFromSlice(data: seq<byte>)
      modifies this
      ensures buf == old(buf) + data
    {
      buf := buf + data;
    }

    method ExtendFromChunks(chunks: seq<seq<byte>>)
      modifies this
      ensures buf == old(buf) + Flatten(chunks)
    {
      for i := 0 to |chunks|
        invariant buf == old(buf) + Flatten(chunks[..i])
      {
        FlattenNext(chunks, i);
        buf := buf + chunks[i];
      }
      assert chunks[..|chunks|] == chunks;
    }

    /** `as_mut()[start..start + |data|].copy_from_slice(data)` */
    method Overwrite(start: nat, data: seq<byte>)
      requires start + |data| <= |buf|
      modifies this
      ensures |buf| == old(|buf|)
      ensures buf[..start] == old(buf[..start])
      ensures buf[start..start + |data|] == data
      ensures buf[start + |data|..] == old(buf[start + |data|..])
    {
      for i := 0 to |data|
        invariant |buf| == old(|buf|)
        invariant forall j :: 0 <= j < |buf| ==>
            buf[j] == if start <= j < start + i then data[j - start] else old(buf)[j]
      {
        buf := buf[start + i := data[i]];
      }
    }
  }

  class InboundOpaqueMessage {
    var typ: byte
    var version: u16
    const buf: array<byte>
    var len: nat

    predicate Valid()
      reads this
    {
      len <= buf.Length
    }

    function Payload(): seq<byte>
      reads this, buf
      requires Valid()
    {
      buf[..len]
    }

    function AsRecord(): Record
      reads this, buf
      requires Valid()
    {
      Record(typ, version, Payload())
    }

    constructor (typ: byte, version: u16, buf: array<byte>)
      ensures Valid() && this.buf == buf && AsRecord() == Record(typ, version, buf[..])
    {
      this.typ, this.version, this.buf, len := typ, version, buf, buf.Length;
    }

    /** `payload[..|data|].copy_from_slice(data)` */
    method OverwriteFront(data: seq<byte>)
      requires Valid() && |data| <= len
      modifies buf
      ensures buf[..|data|] == data
      ensures buf[|data|..] == old(buf[|data|..])
    {
      for i := 0 to |data|
        invariant forall j :: 0 <= j < buf.Length ==> buf[j] == if j < i then data[j] else old(buf[j])
      {
        buf[i] := data[i];
      }
    }

    method Truncate(n: nat)
      requires Valid() && n <= len
      modifies `len
      ensures Valid() && len == n
    {
      len := n;
    }

    /** Takes octets off the end until one is not zero; 0 if there is none. */
    method PopContentType() returns (contentType: byte)
      requires Valid()
      modifies `len
      ensures Valid() && len <= old(len)
      ensures var s := StripZeros(old(Payload()));
              if s == [] then contentType == 0 && Payload() == []
              else contentType == s[|s| - 1] && Payload() == s[..|s| - 1]
    {
      contentType := 0;
      while len > 0 && contentType == 0
        invariant Valid() && len <= old(len)
        invariant contentType == 0 ==> StripZeros(Payload()) == StripZeros(old(Payload()))
        invariant contentType != 0 ==> StripZeros(old(Payload())) == Payload() + [contentType]
        decreases len
      {
        assert buf[..len][..len - 1] == buf[..len - 1];
        contentType := buf[len - 1];
        len := len - 1;
      }
    }

    method IntoPlainMessage() returns (m: Plain)
      requires Valid()
      ensures m == Plain(typ, version, Payload())
    {
      m := Plain(typ, version, buf[..len]);
    }

    /** Section 5.4 of RFC 8446: size limit, padding removal, content type. */
    method IntoTls13UnpaddedMessage() returns (r: Result<Plain, RecordError>)
      requires Valid()
      modifies this
      ensures Valid() && r == Unpad(old(Payload()))
      ensures r.Ok? ==> r.value == Plain(typ, version, Payload())
    {
      if len > MAX_FRAGMENT_LEN + 1 {
        return Err(OversizedRecord);
      }
      typ := PopContentType();
      if typ == 0 {
        return Err(IllegalInnerPlaintext);
      }
      version := TLS13;
      var m := IntoPlainMessage();
      r := Ok(m);
    }
  }
}
