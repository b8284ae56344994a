/** The cipher objects at work: a driver that sends through encrypters, receives through
    decrypters on mutable buffers, and so carries out the runs of the step machine. */
module Endpoints {
  import opened Bytes
  import opened Records
  import opened RecordTheorems
  import opened Buffers
  import opened Connection
  import GcmTls12
  import ChaChaTls12
  import Tls13Cipher

  /** What the ChaCha20 constructors demand of the key; the other ciphers take any. */
  predicate KeyFits(s: Session) {
    s.layout.ChaCha12? ==> |s.key| == ChaChaTls12.KEY_LEN
  }

  /** One record from the sender's object, the payload handed over in any chunks. */
  method Transmit(s: Session, m: OutboundPlainMessage, i: u64) returns (r: Record)
    requires KeyFits(s)
    ensures r == RecordAt(s, m.Joined(), i)
  {
    match s.layout {
      case Gcm12 =>
        var encrypter := new GcmTls12.Encrypter(s.primitive, s.key, s.iv[..FIXED_IV_LEN], s.iv[FIXED_IV_LEN..]);
        assert encrypter.iv == encrypter.iv[..FIXED_IV_LEN] + encrypter.iv[FIXED_IV_LEN..] == s.iv;
        r := encrypter.Encrypt(m, i);
      case ChaCha12 =>
        var cipher := new ChaChaTls12.Cipher(s.primitive, s.key, s.iv);
        r := cipher.Encrypt(m, i);
      case Tls13 =>
        var cipher := new Tls13Cipher.Cipher(s.primitive, s.key, s.iv);
        r := cipher.Encrypt(m, i);
    }
  }

  /** One record through the receiver's object, which in TLS 1.2 GCM holds only the fixed IV. */
  method Accept(s: Session, record: Record, j: u64) returns (r: Result<Plain, RecordError>)
    requires KeyFits(s)
    ensures r == ReceivedAt(s, record, j)
  {
    var buf := new byte[|record.payload|];
    CopyFromSlice(buf, 0, record.payload);
    assert buf[..] == buf[0..0 + |record.payload|];
    var m := new InboundOpaqueMessage(record.typ, record.version, buf);
    match s.layout {
      case Gcm12 =>
        var decrypter := new GcmTls12.Decrypter(s.primitive, s.key, s.iv[..FIXED_IV_LEN]);
        r := decrypter.Decrypt(m, j);
      case ChaCha12 =>
        var cipher := new ChaChaTls12.Cipher(s.primitive, s.key, s.iv);
        r := cipher.Decrypt(m, j);
      case Tls13 =>
        var cipher := new Tls13Cipher.Cipher(s.primitive, s.key, s.iv);
        r := cipher.Decrypt(m, j);
    }
  }

  /** Cutting a chunk in two, or inserting an empty one, changes no record; with equal headers and
      equal octets, no two ways of cutting do. */
  lemma CutsDoNotMatter(s: Session, m: OutboundPlainMessage, m': OutboundPlainMessage, i: u64,
                        a: seq<seq<byte>>, x: seq<byte>, y: seq<byte>, b: seq<seq<byte>>)
    ensures m.typ == m'.typ && m.version == m'.version && Flatten(m.chunks) == Flatten(m'.chunks) ==>
              RecordAt(s, m.Joined(), i) == RecordAt(s, m'.Joined(), i)
    ensures RecordAt(s, m.(chunks := a + [x, y] + b).Joined(), i)
         == RecordAt(s, m.(chunks := a + [x + y] + b).Joined(), i)
  {
    FlattenRecut(a, x, y, b);
  }

  /** Encrypter and decrypter back to back, at buffer level: for every layout, key, IV, position,
      payload and way of cutting it into chunks. */
  method LoopBack(s: Session, m: OutboundPlainMessage, i: u64) returns (r: Result<Plain, RecordError>)
    requires KeyFits(s)
    ensures r == Ok(Arriving(s, m.Joined())) <==> Sendable(s, m.Joined()) && Fits(s, m.Joined())
  {
    var record := Transmit(s, m, i);
    r := Accept(s, record, i);
    if Sendable(s, m.Joined()) {
      NextRecordDelivers(s, m.Joined(), i);
    } else {
      Tls13RoundTripIff(s.primitive, s.key, s.iv, m.Joined(), 0, i);
    }
  }

  lemma EventStep(s: Session, st: State, events: seq<Event>, i: nat)
    requires i < |events| && EnabledRun(s, st, events[i..])
    ensures Enabled(s, st, events[i]) && EnabledRun(s, Step(s, st, events[i]), events[i + 1..])
    ensures After(s, st, events[i..]) == After(s, Step(s, st, events[i]), events[i + 1..])
  {
    assert events[i..][0] == events[i] && events[i..][1..] == events[i + 1..];
  }

  /** A whole run on the objects: what is delivered is what the step machine delivers; and if only
      sealed tuples open, it is a prefix of what was sent. */
  method Drive(s: Session, events: seq<Event>) returns (delivered: seq<Plain>)
    requires KeyFits(s) && EnabledRun(s, START, events)
    ensures delivered == After(s, START, events).delivered
    ensures Run(s, START, events) ==>
              |delivered| <= |After(s, START, events).sent| &&
              forall k :: 0 <= k < |delivered| ==> delivered[k] == Arriving(s, After(s, START, events).sent[k])
  {
    var writeSeq: nat, wire: seq<Record> := 0, [];
    delivered := [];
    ghost var st := START;
    assert events[0..] == events;
    for i := 0 to |events|
      invariant writeSeq == |st.sent| && wire == st.wire && delivered == st.delivered
      invariant EnabledRun(s, st, events[i..])
      invariant After(s, st, events[i..]) == After(s, START, events)
    {
      EventStep(s, st, events, i);
      st := Step(s, st, events[i]);
      match events[i] {
        case Send(m) =>
          var outbound := OutboundPlainMessage(m.typ, m.version, [m.payload]);
          assert Flatten([m.payload]) == m.payload;
          var r := Transmit(s, outbound, writeSeq);
          wire, writeSeq := wire + [r], writeSeq + 1;
        case Network(w) =>
          wire := w;
        case Receive =>
          var r := Accept(s, wire[0], |delivered|);
          wire := wire[1..];
          if r.Ok? {
            delivered := delivered + [r.value];
          }
      }
    }
    if Run(s, START, events) {
      InOrderDelivery(s, events);
    }
  }
}
