/** One direction of a connection under any of the three layouts: a sender that numbers its
    records, a network that may do anything to the records in flight, and a receiver that
    counts only the records it accepts. */
module Connection {
  import opened Bytes
  import opened Aead
  import opened Records
  import opened RecordTheorems

  datatype Layout = Gcm12 | ChaCha12 | Tls13
  datatype Session = Session(layout: Layout, primitive: Primitive, key: seq<byte>, iv: Iv)

  const SEQUENCE_LIMIT := 0x1_0000_0000_0000_0000

  /** The AEAD tuple the sender makes for message m at position i. */
  function SealedAt(s: Session, m: Plain, i: u64): Sealed {
    match s.layout
    case Gcm12 => SealGcm12(s.primitive, s.key, NonceFor(s.iv, i), m, i)
    case ChaCha12 => SealChaCha12(s.primitive, s.key, s.iv, m, i)
    case Tls13 => SealTls13(s.primitive, s.key, s.iv, m, 0, i)
  }

  /** The record the sender puts on the wire for message m at position i. */
  function RecordAt(s: Session, m: Plain, i: u64): Record {
    match s.layout
    case Gcm12 => EncryptGcm12(s.primitive, s.key, s.iv, m, i)
    case ChaCha12 => EncryptChaCha12(s.primitive, s.key, s.iv, m, i)
    case Tls13 => EncryptTls13(s.primitive, s.key, s.iv, m, 0, i)
  }

  /** The AEAD tuple a receiver at position j presents for record r. */
  function PresentedAt(s: Session, r: Record, j: u64): Option<Sealed> {
    match s.layout
    case Gcm12 => ParseGcm12(s.iv[..FIXED_IV_LEN], r, j)
    case ChaCha12 => ParseChaCha12(s.iv, r, j)
    case Tls13 => ParseTls13(s.iv, r, j)
  }

  function ReceivedAt(s: Session, r: Record, j: u64): Result<Plain, RecordError> {
    match s.layout
    case Gcm12 => DecryptGcm12(s.primitive, s.key, s.iv[..FIXED_IV_LEN], r, j)
    case ChaCha12 => DecryptChaCha12(s.primitive, s.key, s.iv, r, j)
    case Tls13 => DecryptTls13(s.primitive, s.key, s.iv, r, j)
  }

  /** What arrives of a message: TLS 1.3 does not carry the version the caller gave. */
  function Arriving(s: Session, m: Plain): Plain {
    if s.layout.Tls13? then m.(version := TLS13) else m
  }

  /** TLS 1.3 senders use nonzero content types: the receiver could not tell a zero one from padding. */
  predicate Sendable(s: Session, m: Plain) {
    s.layout.Tls13? ==> m.typ != 0
  }

  /** TLS 1.3 receivers refuse fragments of more than 2^14 octets. */
  predicate Fits(s: Session, m: Plain) {
    s.layout.Tls13? ==> |m.payload| <= MAX_FRAGMENT_LEN
  }

  /** The same record; in TLS 1.3 up to the outer header, which receivers ignore. */
  predicate SameOnWire(s: Session, r: Record, r': Record) {
    if s.layout.Tls13? then r.payload == r'.payload else r == r'
  }

  // ---------------------------------------------------------------- the step machine

  datatype State = State(sent: seq<Plain>, wire: seq<Record>, delivered: seq<Plain>)

  /** Network(w) replaces everything in flight by w: it drops, reorders, repeats and forges. */
  datatype Event = Send(m: Plain) | Network(wire: seq<Record>) | Receive

  const START := State([], [], [])

  predicate Enabled(s: Session, st: State, e: Event) {
    match e
    case Send(m) => Sendable(s, m) && |st.sent| < SEQUENCE_LIMIT
    case Network(_) => true
    case Receive => st.wire != [] && |st.delivered| < SEQUENCE_LIMIT
  }

  function Step(s: Session, st: State, e: Event): State
    requires Enabled(s, st, e)
  {
    match e
    case Send(m) => st.(sent := st.sent + [m], wire := st.wire + [RecordAt(s, m, |st.sent|)])
    case Network(wire) => st.(wire := wire)
    case Receive =>
      match ReceivedAt(s, st.wire[0], |st.delivered|)
      case Err(_) => st.(wire := st.wire[1..])
      case Ok(m) => st.(wire := st.wire[1..], delivered := st.delivered + [m])
  }

  /** The authenticity hypothesis at one receive: if the tag of the record at hand verifies, then
      the sender sealed the tuple presented, at some position. */
  ghost predicate OnlySealedTuplesOpen(s: Session, st: State)
    requires Enabled(s, st, Receive)
  {
    match PresentedAt(s, st.wire[0], |st.delivered|)
    case None => true
    case Some(x) =>
      Open(s.primitive, s.key, x).Some? ==>
        exists i: u64 :: i < |st.sent| && SealedAt(s, st.sent[i], i) == x
  }

  /** A run whose events are enabled and whose receives satisfy the authenticity hypothesis. */
  ghost predicate Run(s: Session, st: State, events: seq<Event>)
    decreases |events|
  {
    events != [] ==>
      Enabled(s, st, events[0]) &&
      (events[0].Receive? ==> OnlySealedTuplesOpen(s, st)) &&
      Run(s, Step(s, st, events[0]), events[1..])
  }

  ghost predicate EnabledRun(s: Session, st: State, events: seq<Event>)
    decreases |events|
  {
    events != [] ==> Enabled(s, st, events[0]) && EnabledRun(s, Step(s, st, events[0]), events[1..])
  }

  function After(s: Session, st: State, events: seq<Event>): State
    requires EnabledRun(s, st, events)
    decreases |events|
  {
    if events == [] then st else After(s, Step(s, st, events[0]), events[1..])
  }

  // ---------------------------------------------------------------- positions are bound

  /** TLS 1.2 GCM: the nonce comes off the wire, so only the additional data ties the tuple to its position. */
  lemma Gcm12PositionBound(s: Session, m: Plain, i: u64, r: Record, j: u64)
    requires s.layout.Gcm12? && PresentedAt(s, r, j) == Some(SealedAt(s, m, i))
    ensures i == j && r.typ == m.typ && r.version == m.version
  {
    Tls12AadInjective(i, m.typ, m.version, |m.payload|,
                      j, r.typ, r.version, |r.payload| - TAG_LEN - EXPLICIT_NONCE_LEN);
  }

  /** ChaCha20 TLS 1.2: the nonce already ties the tuple to its position; the additional data
      still has to tie down the header. */
  lemma ChaCha12PositionBound(s: Session, m: Plain, i: u64, r: Record, j: u64)
    requires s.layout.ChaCha12? && PresentedAt(s, r, j) == Some(SealedAt(s, m, i))
    ensures i == j && r.typ == m.typ && r.version == m.version
  {
    NonceInjective(s.iv, i, j);
    Tls12AadInjective(i, m.typ, m.version, |m.payload|, j, r.typ, r.version, |r.payload| - TAG_LEN);
  }

  /** TLS 1.3: the additional data carries no position; the nonce does. */
  lemma Tls13PositionBound(s: Session, m: Plain, i: u64, r: Record, j: u64)
    requires s.layout.Tls13? && PresentedAt(s, r, j) == Some(SealedAt(s, m, i))
    ensures i == j
  {
    NonceInjective(s.iv, i, j);
  }

  /** A receiver that presents a tuple of the sender stands at the position it was sealed for, and
      gets the message sealed there, unless it is over the size limit. */
  lemma SealedTupleIsNext(s: Session, m: Plain, i: u64, r: Record, j: u64)
    requires Sendable(s, m) && PresentedAt(s, r, j) == Some(SealedAt(s, m, i))
    ensures i == j
    ensures ReceivedAt(s, r, j) == if Fits(s, m) then Ok(Arriving(s, m)) else Err(OversizedRecord)
  {
    var x := SealedAt(s, m, i);
    match s.layout {
      case Gcm12 =>
        Gcm12PositionBound(s, m, i, r, j);
        OpenIffSealed(s.primitive, s.key, x, m.payload);
      case ChaCha12 =>
        ChaCha12PositionBound(s, m, i, r, j);
        OpenIffSealed(s.primitive, s.key, x, m.payload);
      case Tls13 =>
        Tls13PositionBound(s, m, i, r, j);
        var inner := m.payload + [m.typ] + Zeros(0);
        OpenIffSealed(s.primitive, s.key, x, inner);
        UnpadIff(inner, Arriving(s, m));
    }
  }

  /** Then the record at hand is the one sent, octet for octet. */
  lemma SealedTupleIsTheRecord(s: Session, m: Plain, i: u64, r: Record, j: u64)
    requires PresentedAt(s, r, j) == Some(SealedAt(s, m, i))
    ensures SameOnWire(s, r, RecordAt(s, m, i))
  {
    var x, n := SealedAt(s, m, i), |r.payload|;
    match s.layout {
      case Gcm12 =>
        Gcm12PositionBound(s, m, i, r, j);
        assert r.payload[..EXPLICIT_NONCE_LEN] == x.nonce[FIXED_IV_LEN..];
        ThreeParts(r.payload, EXPLICIT_NONCE_LEN, n - TAG_LEN);
      case ChaCha12 =>
        ChaCha12PositionBound(s, m, i, r, j);
        assert r.payload == r.payload[..n - TAG_LEN] + r.payload[n - TAG_LEN..];
      case Tls13 =>
        assert r.payload == r.payload[..n - TAG_LEN] + r.payload[n - TAG_LEN..];
    }
  }

  lemma ThreeParts(b: seq<byte>, i: nat, j: nat)
    requires i <= j <= |b|
    ensures b == b[..i] + b[i..j] + b[j..]
  {
  }

  // ---------------------------------------------------------------- in-order delivery

  /** What was delivered is an initial part of what was sent, octet for octet. */
  ghost predicate InOrder(s: Session, st: State) {
    |st.delivered| <= |st.sent| <= SEQUENCE_LIMIT &&
    (forall k :: 0 <= k < |st.sent| ==> Sendable(s, st.sent[k])) &&
    forall k :: 0 <= k < |st.delivered| ==> st.delivered[k] == Arriving(s, st.sent[k])
  }

  lemma StepKeepsOrder(s: Session, st: State, e: Event)
    requires InOrder(s, st) && Enabled(s, st, e)
    requires e.Receive? ==> OnlySealedTuplesOpen(s, st)
    ensures InOrder(s, Step(s, st, e))
  {
    match e {
      case Send(m) =>
      case Network(wire) =>
      case Receive => ReceiveKeepsOrder(s, st);
    }
  }

  lemma ReceiveKeepsOrder(s: Session, st: State)
    requires InOrder(s, st) && Enabled(s, st, Receive) && OnlySealedTuplesOpen(s, st)
    ensures InOrder(s, Step(s, st, Receive))
  {
    var received, rest := ReceivedAt(s, st.wire[0], |st.delivered|), st.wire[1..];
    if received.Ok? {
      AcceptedIsNext(s, st);
      DeliverNext(s, st, rest, received.value);
      assert Step(s, st, Receive) == State(st.sent, rest, st.delivered + [received.value]);
    } else {
      assert Step(s, st, Receive) == State(st.sent, rest, st.delivered);
    }
  }

  lemma DeliverNext(s: Session, st: State, wire: seq<Record>, m: Plain)
    requires InOrder(s, st) && |st.delivered| < |st.sent| && m == Arriving(s, st.sent[|st.delivered|])
    ensures InOrder(s, State(st.sent, wire, st.delivered + [m]))
  {
  }

  /** Under the authenticity hypothesis, a record that is accepted is the one sent next in order,
      octet for octet, and brings its message. */
  lemma AcceptedIsNext(s: Session, st: State)
    requires InOrder(s, st) && Enabled(s, st, Receive) && OnlySealedTuplesOpen(s, st)
    requires ReceivedAt(s, st.wire[0], |st.delivered|).Ok?
    ensures |st.delivered| < |st.sent|
    ensures ReceivedAt(s, st.wire[0], |st.delivered|) == Ok(Arriving(s, st.sent[|st.delivered|]))
    ensures SameOnWire(s, st.wire[0], RecordAt(s, st.sent[|st.delivered|], |st.delivered|))
  {
    var r, j := st.wire[0], |st.delivered|;
    ReceivedOpened(s, r, j);
    var x := PresentedAt(s, r, j).value;
    var i: u64 :| i < |st.sent| && SealedAt(s, st.sent[i], i) == x;
    SealedTupleIsNext(s, st.sent[i], i, r, j);
    SealedTupleIsTheRecord(s, st.sent[i], i, r, j);
  }

  /** Nothing is received unless the tuple presented opened. */
  lemma ReceivedOpened(s: Session, r: Record, j: u64)
    requires ReceivedAt(s, r, j).Ok?
    ensures PresentedAt(s, r, j).Some? && Open(s.primitive, s.key, PresentedAt(s, r, j).value).Some?
  {
  }

  /** In-order delivery over whole runs, for all three layouts: whatever the network does, the
      messages delivered, content types included, are a prefix of the messages sent. */
  lemma {:induction false} DeliveryIsPrefix(s: Session, st: State, events: seq<Event>)
    requires InOrder(s, st) && Run(s, st, events)
    ensures EnabledRun(s, st, events) && InOrder(s, After(s, st, events))
    decreases |events|
  {
    if events != [] {
      StepKeepsOrder(s, st, events[0]);
      DeliveryIsPrefix(s, Step(s, st, events[0]), events[1..]);
    }
  }

  /** The same from the start of a connection, spelled out. */
  lemma InOrderDelivery(s: Session, events: seq<Event>)
    requires Run(s, START, events)
    ensures EnabledRun(s, START, events)
    ensures var end := After(s, START, events);
            |end.delivered| <= |end.sent| &&
            forall k :: 0 <= k < |end.delivered| ==> end.delivered[k] == Arriving(s, end.sent[k])
  {
    DeliveryIsPrefix(s, START, events);
  }

  // ---------------------------------------------------------------- completeness

  /** The record next in order is accepted exactly if its message fits, whatever went before it. */
  lemma NextRecordDelivers(s: Session, m: Plain, i: u64)
    requires Sendable(s, m)
    ensures ReceivedAt(s, RecordAt(s, m, i), i) == if Fits(s, m) then Ok(Arriving(s, m)) else Err(OversizedRecord)
  {
    ReceiverRebuildsTuple(s, m, i);
    SealedTupleIsNext(s, m, i, RecordAt(s, m, i), i);
  }

  /** These records are, in order, those sent from position j on. */
  ghost predicate Following(s: Session, sent: seq<Plain>, j: nat, wire: seq<Record>) {
    j + |wire| == |sent| <= SEQUENCE_LIMIT &&
    forall k :: 0 <= k < |wire| ==> wire[k] == RecordAt(s, sent[j + k], j + k)
  }

  /** In flight are exactly the records sent and not yet received, in order. */
  ghost predicate Pipelined(s: Session, st: State) {
    Following(s, st.sent, |st.delivered|, st.wire)
  }

  ghost predicate AllFit(s: Session, sent: seq<Plain>) {
    forall k :: 0 <= k < |sent| ==> Fits(s, sent[k])
  }

  lemma FollowingDrop(s: Session, sent: seq<Plain>, j: nat, wire: seq<Record>)
    requires Following(s, sent, j, wire) && wire != []
    ensures Following(s, sent, j + 1, wire[1..])
  {
    forall k | 0 <= k < |wire| - 1 ensures wire[1..][k] == RecordAt(s, sent[j + 1 + k], j + 1 + k) {
      assert wire[k + 1] == RecordAt(s, sent[j + (k + 1)], j + (k + 1));
    }
  }

  lemma FollowingAppend(s: Session, sent: seq<Plain>, j: nat, wire: seq<Record>, m: Plain)
    requires Following(s, sent, j, wire) && |sent| < SEQUENCE_LIMIT
    ensures Following(s, sent + [m], j, wire + [RecordAt(s, m, |sent|)])
  {
    forall k | 0 <= k <= |wire|
      ensures (wire + [RecordAt(s, m, |sent|)])[k] == RecordAt(s, (sent + [m])[j + k], j + k)
    {
      if k < |wire| {
        assert wire[k] == RecordAt(s, sent[j + k], j + k);
      }
    }
  }

  function Receives(events: seq<Event>): nat {
    if events == [] then 0 else (if events[0].Receive? then 1 else 0) + Receives(events[1..])
  }

  lemma QuietStep(s: Session, st: State, e: Event)
    requires InOrder(s, st) && Pipelined(s, st) && AllFit(s, st.sent)
    requires Enabled(s, st, e) && !e.Network? && (e.Send? ==> Fits(s, e.m))
    ensures InOrder(s, Step(s, st, e)) && Pipelined(s, Step(s, st, e)) && AllFit(s, Step(s, st, e).sent)
    ensures |Step(s, st, e).delivered| == |st.delivered| + if e.Receive? then 1 else 0
  {
    match e {
      case Send(m) => FollowingAppend(s, st.sent, |st.delivered|, st.wire, m);
      case Receive => QuietReceive(s, st);
    }
  }

  lemma QuietReceive(s: Session, st: State)
    requires InOrder(s, st) && Pipelined(s, st) && AllFit(s, st.sent) && Enabled(s, st, Receive)
    ensures InOrder(s, Step(s, st, Receive)) && Pipelined(s, Step(s, st, Receive))
    ensures Step(s, st, Receive).sent == st.sent
    ensures |Step(s, st, Receive).delivered| == |st.delivered| + 1
  {
    var j, rest := |st.delivered|, st.wire[1..];
    assert st.wire[0] == RecordAt(s, st.sent[j + 0], j + 0);
    NextRecordDelivers(s, st.sent[j], j);
    FollowingDrop(s, st.sent, j, st.wire);
    DeliverNext(s, st, rest, Arriving(s, st.sent[j]));
    assert Step(s, st, Receive) == State(st.sent, rest, st.delivered + [Arriving(s, st.sent[j])]);
  }

  /** Left alone by the network, and with messages that fit, every receive delivers the next message:
      no authenticity hypothesis is needed, and nothing is ever refused. */
  lemma {:induction false} QuietNetworkDeliversAll(s: Session, st: State, events: seq<Event>)
    requires InOrder(s, st) && Pipelined(s, st) && AllFit(s, st.sent) && EnabledRun(s, st, events)
    requires forall e :: e in events ==> !e.Network? && (e.Send? ==> Fits(s, e.m))
    ensures InOrder(s, After(s, st, events)) && Pipelined(s, After(s, st, events))
    ensures |After(s, st, events).delivered| == |st.delivered| + Receives(events)
    decreases |events|
  {
    if events != [] {
      QuietStep(s, st, events[0]);
      QuietNetworkDeliversAll(s, Step(s, st, events[0]), events[1..]);
    }
  }

  // ---------------------------------------------------------------- headers over a run

  /** A TLS 1.3 connection shows type 23, version 0x0303 and a length for every message sent; a
      TLS 1.2 connection shows the message's own type and version. */
  lemma OuterHeader(s: Session, m: Plain, i: u64)
    ensures var r := RecordAt(s, m, i);
            if s.layout.Tls13?
            then r.typ == 23 && r.version == 0x0303 && |r.payload| == |m.payload| + 17
            else r.typ == m.typ && r.version == m.version &&
                 |r.payload| == |m.payload| + if s.layout.Gcm12? then 24 else 16
  {
  }

  // ---------------------------------------------------------------- nonces over a run

  /** No nonce is used twice under one key, whatever is sent at the two positions. */
  lemma NoncesNeverRepeat(s: Session, m: Plain, i: u64, m': Plain, j: u64)
    ensures SealedAt(s, m, i).nonce == SealedAt(s, m', j).nonce <==> i == j
  {
    NonceInjective(s.iv, i, j);
  }

  /** At its position, the receiver rebuilds nonce, additional data, ciphertext and tag as sealed. */
  lemma ReceiverRebuildsTuple(s: Session, m: Plain, i: u64)
    ensures PresentedAt(s, RecordAt(s, m, i), i) == Some(SealedAt(s, m, i))
  {
    NonceInjective(s.iv, i, i);
    var x, r := SealedAt(s, m, i), RecordAt(s, m, i);
    var n := |r.payload|;
    var start := if s.layout.Gcm12? then EXPLICIT_NONCE_LEN else 0;
    assert r.payload[n - TAG_LEN..] == x.tag;
    assert r.payload[start..n - TAG_LEN] == x.ciphertext;
    if s.layout.Gcm12? {
      assert s.iv[..FIXED_IV_LEN] + r.payload[..EXPLICIT_NONCE_LEN] == x.nonce;
    }
  }
}
