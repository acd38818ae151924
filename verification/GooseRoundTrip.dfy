/** From the publisher's frame to the subscriber's fields: every header field of a published message reaches
    the first matching subscriber unchanged, and the data slice it parses is the encoded data set. */
module GooseRoundTrip {
  import opened Octets
  import opened BerLength
  import opened MmsValues
  import opened DataSets
  import opened DataSetTheorems
  import opened GooseMessages
  import opened GooseParsing
  import opened EthernetFrames
  import BerInteger
  import GoosePublisher

  // ----- one header field

  /** A field whose effect is decided by its own contents. */
  predicate SelfContained(f: Field) {
    && f.tag != 0xab && |f.contents| < 0x100_0000
    && (f.tag == 0x84 ==> |f.contents| == 8)
    && (f.tag == 0x87 || f.tag == 0x89 ==> |f.contents| >= 1)
  }

  const PAD: seq<byte> := [0, 0, 0, 0, 0, 0, 0, 0]

  /** The effect of a field, read from its contents alone. */
  function Effect(s: Scan, f: Field): (r: Option<Scan>)
    requires ValidScan(s)
    ensures r.Some? ==> ValidScan(r.value) && |r.value.subs| == |s.subs|
  {
    ScanElement(s, f.contents + PAD, f.tag, 0, |f.contents|)
  }

  lemma EffectAnywhere(s: Scan, b: seq<byte>, f: Field, start: nat)
    requires ValidScan(s) && SelfContained(f) && HasAt(b, start, f.contents) && start + |f.contents| + SLACK <= |b|
    ensures ScanElement(s, b, f.tag, start, |f.contents|) == Effect(s, f)
  {
    hide ScanReference, ScanText, BerInteger.DecodedUint32;
    var c := f.contents;
    assert (c + PAD)[0..|c|] == c;
    assert |c| == 8 ==> (c + PAD)[0..8] == c;
    if |c| > 0 {
      HasAtIndex(b, start, c, 0);
    }
  }

  lemma ScanField(s: Scan, b: seq<byte>, pos: nat, gooseEnd: nat, apduEnd: nat, f: Field)
    requires ValidScan(s) && Buffered(b, apduEnd) && gooseEnd <= apduEnd && SelfContained(f)
    requires HasAt(b, pos, Tlv(f.tag, f.contents)) && pos + |Tlv(f.tag, f.contents)| <= gooseEnd
    requires Effect(s, f).Some?
    ensures ScanFrom(s, b, pos, gooseEnd, apduEnd) ==
            ScanFrom(Effect(s, f).value, b, pos + |Tlv(f.tag, f.contents)|, gooseEnd, apduEnd)
  {
    hide Decode, ScanElement, Tlv, Announce;
    EncodedElement(b, pos, apduEnd, f.tag, f.contents);
    EffectAnywhere(s, b, f, Decode(b, pos + 1, apduEnd).start);
  }

  // ----- all header fields

  /** The fields applied in order. */
  function Effects(s: Scan, fs: seq<Field>): (r: Option<Scan>)
    requires ValidScan(s)
    ensures r.Some? ==> ValidScan(r.value) && |r.value.subs| == |s.subs|
    decreases fs
  {
    if fs == [] then Some(s)
    else
      match Effect(s, fs[0])
      case None => None
      case Some(s') => Effects(s', fs[1..])
  }

  lemma {:induction false} ScanFields(s: Scan, b: seq<byte>, pos: nat, gooseEnd: nat, apduEnd: nat, fs: seq<Field>)
    requires ValidScan(s) && Buffered(b, apduEnd) && gooseEnd <= apduEnd
    requires forall i :: 0 <= i < |fs| ==> SelfContained(fs[i])
    requires HasAt(b, pos, EncodeFields(fs)) && pos + |EncodeFields(fs)| <= gooseEnd
    requires Effects(s, fs).Some?
    ensures ScanFrom(s, b, pos, gooseEnd, apduEnd) ==
            ScanFrom(Effects(s, fs).value, b, pos + |EncodeFields(fs)|, gooseEnd, apduEnd)
    decreases fs
  {
    hide ScanFrom, Effect, Tlv;
    if fs != [] {
      var t := Tlv(fs[0].tag, fs[0].contents);
      HasAtSplit(b, pos, t, EncodeFields(fs[1..]));
      ScanField(s, b, pos, gooseEnd, apduEnd, fs[0]);
      ScanFields(Effect(s, fs[0]).value, b, pos + |t|, gooseEnd, apduEnd, fs[1..]);
    }
  }

  lemma {:induction false} EffectsAppend(s: Scan, fs: seq<Field>, gs: seq<Field>)
    requires ValidScan(s) && Effects(s, fs).Some?
    ensures Effects(s, fs + gs) == Effects(Effects(s, fs).value, gs)
    decreases fs
  {
    hide Effect;
    if fs == [] {
      assert fs + gs == gs;
    } else {
      assert (fs + gs)[1..] == fs[1..] + gs;
      EffectsAppend(Effect(s, fs[0]).value, fs[1..], gs);
    }
  }

  /** Three fields whose effects are known one by one. */
  lemma EffectsOfThree(s: Scan, fs: seq<Field>, s1: Scan, s2: Scan, s3: Scan)
    requires |fs| == 3 && ValidScan(s) && ValidScan(s1) && ValidScan(s2)
    requires Effect(s, fs[0]) == Some(s1) && Effect(s1, fs[1]) == Some(s2) && Effect(s2, fs[2]) == Some(s3)
    ensures Effects(s, fs) == Some(s3)
  {
    hide Effect;
    assert fs[1..][1..] == [fs[2]];
    assert Effects(s2, [fs[2]]) == Effects(s3, []);
  }

  lemma EffectsOfFour(s: Scan, fs: seq<Field>, s1: Scan, s2: Scan, s3: Scan, s4: Scan)
    requires |fs| == 4 && ValidScan(s) && ValidScan(s1) && ValidScan(s2) && ValidScan(s3)
    requires Effect(s, fs[0]) == Some(s1) && Effect(s1, fs[1]) == Some(s2)
    requires Effect(s2, fs[2]) == Some(s3) && Effect(s3, fs[3]) == Some(s4)
    ensures Effects(s, fs) == Some(s4)
  {
    hide Effect;
    EffectsOfThree(s1, fs[1..], s2, s3, s4);
  }

  /** References that fit the subscriber's buffers. */
  predicate StorableReferences(m: Message) {
    |Chars(m.goCbRef)| <= MAX_REFERENCE && |Chars(m.dataSetRef)| <= MAX_REFERENCE && |Chars(GoId(m))| <= MAX_REFERENCE
  }

  /** The subscriber with the references of a message stored. */
  function Named(sub: Subscriber, m: Message): (r: Subscriber) {
    sub.(goCbRef := Chars(m.goCbRef), datSet := Chars(m.dataSetRef), goId := Chars(GoId(m)))
  }

  /** The scan once all fields of message m have been seen, k being the matching subscriber. */
  function Scanned(subs: seq<Subscriber>, k: nat, m: Message): (s: Scan)
    requires k < |subs|
  {
    Scan(subs[k := Named(subs[k], m)], Some(k), m.timeAllowedToLive, m.stNum, m.sqNum, m.confRev, m.simulation,
         m.needsCommission, Some(m.timestamp), 0, 0)
  }

  lemma ReferenceEffects(subs: seq<Subscriber>, k: nat, m: Message) returns (s: Scan)
    requires FindMatch(subs, Chars(m.goCbRef)) == Some(k) && StorableReferences(m)
    ensures Effect(StartScan(subs), Field(0x80, Chars(m.goCbRef))) == Some(s)
    ensures s == StartScan(subs).(subs := subs[k := subs[k].(goCbRef := Chars(m.goCbRef))], matching := Some(k))
  {
    hide FindMatch;
    var c := Chars(m.goCbRef);
    assert (c + PAD)[0..|c|] == c;
    s := StartScan(subs).(subs := subs[k := subs[k].(goCbRef := c)], matching := Some(k));
    if !subs[k].isObserver {
      assert subs[k := subs[k].(goCbRef := c)] == subs;
    }
  }

  lemma TextEffect(s: Scan, k: nat, tag: byte, c: seq<byte>)
    requires ValidScan(s) && s.matching == Some(k) && |c| <= MAX_REFERENCE && (tag == 0x82 || tag == 0x83)
    ensures Effect(s, Field(tag, c)) ==
            Some(s.(subs := s.subs[k := if tag == 0x82 then s.subs[k].(datSet := c) else s.subs[k].(goId := c)]))
  {
    assert (c + PAD)[0..|c|] == c;
  }

  lemma NumberEffect(s: Scan, tag: byte, v: uint32)
    requires ValidScan(s) && tag in {0x81, 0x85, 0x86, 0x88, 0x8a}
    ensures Effect(s, Field(tag, BerInteger.UIntOctets(v))) ==
            Some(if tag == 0x81 then s.(timeAllowedToLive := v) else if tag == 0x85 then s.(stNum := v)
                 else if tag == 0x86 then s.(sqNum := v) else if tag == 0x88 then s.(confRev := v) else s)
  {
    hide BerInteger.UIntOctets, BerInteger.DecodedUint32;
    var c := BerInteger.UIntOctets(v);
    assert (c + PAD)[0..|c|] == c;
    BerInteger.UInt32RoundTrip(v);
  }

  lemma FlagEffect(s: Scan, tag: byte, flag: bool)
    requires ValidScan(s) && (tag == 0x87 || tag == 0x89)
    ensures Effect(s, Field(tag, BooleanOctets(flag))) ==
            Some(if tag == 0x87 then s.(simulation := flag) else s.(ndsCom := flag))
  {
  }

  lemma TimestampEffect(s: Scan, t: seq<byte>)
    requires ValidScan(s) && |t| == 8
    ensures Effect(s, Field(0x84, t)) == Some(s.(timestamp := Some(t)))
  {
    assert (t + PAD)[0..8] == t;
  }

  lemma NameEffects(subs: seq<Subscriber>, k: nat, m: Message)
    requires FindMatch(subs, Chars(m.goCbRef)) == Some(k) && StorableReferences(m)
    ensures Effects(StartScan(subs), NameFields(m)) ==
            Some(StartScan(subs).(subs := subs[k := Named(subs[k], m)], matching := Some(k),
                                  timeAllowedToLive := m.timeAllowedToLive))
  {
    hide Effect, Effects, BerInteger.UIntOctets, FindMatch, Chars, GoId;
    var s1 := ReferenceEffects(subs, k, m);
    NumberEffect(s1, 0x81, m.timeAllowedToLive);
    var s2 := s1.(timeAllowedToLive := m.timeAllowedToLive);
    TextEffect(s2, k, 0x82, Chars(m.dataSetRef));
    var s3 := Effect(s2, Field(0x82, Chars(m.dataSetRef))).value;
    TextEffect(s3, k, 0x83, Chars(GoId(m)));
    var s4 := Effect(s3, Field(0x83, Chars(GoId(m)))).value;
    EffectsOfFour(StartScan(subs), NameFields(m), s1, s2, s3, s4);
    assert s4.subs == subs[k := Named(subs[k], m)];
  }

  lemma StateEffects(s: Scan, m: Message)
    requires ValidScan(s) && |m.timestamp| == 8
    ensures Effects(s, StateFields(m)) ==
            Some(s.(timestamp := Some(m.timestamp), stNum := m.stNum, sqNum := m.sqNum, simulation := m.simulation))
  {
    hide Effect, Effects, BerInteger.UIntOctets, BooleanOctets;
    TimestampEffect(s, m.timestamp);
    var s1 := s.(timestamp := Some(m.timestamp));
    NumberEffect(s1, 0x85, m.stNum);
    var s2 := s1.(stNum := m.stNum);
    NumberEffect(s2, 0x86, m.sqNum);
    var s3 := s2.(sqNum := m.sqNum);
    FlagEffect(s3, 0x87, m.simulation);
    EffectsOfFour(s, StateFields(m), s1, s2, s3, s3.(simulation := m.simulation));
  }

  lemma ConfigurationEffects(s: Scan, m: Message, entries: uint32)
    requires ValidScan(s)
    ensures Effects(s, ConfigurationFields(m, entries)) == Some(s.(confRev := m.confRev, ndsCom := m.needsCommission))
  {
    hide Effect, Effects, BerInteger.UIntOctets, BooleanOctets;
    NumberEffect(s, 0x88, m.confRev);
    var s1 := s.(confRev := m.confRev);
    FlagEffect(s1, 0x89, m.needsCommission);
    var s2 := s1.(ndsCom := m.needsCommission);
    NumberEffect(s2, 0x8a, entries);
    EffectsOfThree(s, ConfigurationFields(m, entries), s1, s2, s2);
  }

  /** The eleven fields of a message leave exactly its values behind. */
  lemma HeaderEffects(subs: seq<Subscriber>, k: nat, m: Message, entries: uint32)
    requires FindMatch(subs, Chars(m.goCbRef)) == Some(k) && StorableReferences(m) && |m.timestamp| == 8
    ensures Effects(StartScan(subs), HeaderFields(m, entries)) == Some(Scanned(subs, k, m))
  {
    hide Effects, NameFields, StateFields, ConfigurationFields, FindMatch, Named;
    NameEffects(subs, k, m);
    var s1 := Effects(StartScan(subs), NameFields(m)).value;
    EffectsAppend(StartScan(subs), NameFields(m), StateFields(m) + ConfigurationFields(m, entries));
    StateEffects(s1, m);
    EffectsAppend(s1, StateFields(m), ConfigurationFields(m, entries));
    ConfigurationEffects(Effects(s1, StateFields(m)).value, m, entries);
  }

  // ----- the whole payload

  lemma {:induction false} FieldsSelfContained(m: Message, entries: uint32)
    requires StorableReferences(m) && |m.timestamp| == 8
    ensures forall f :: f in HeaderFields(m, entries) ==> SelfContained(f)
  {
    hide BerInteger.UIntOctets, Chars, GoId;
  }

  /** Where the data set of a payload that starts at pos lies. */
  function DataStart(pos: nat, m: Message, vs: seq<MmsValue>): (n: nat)
    requires AllEncodable(vs) && |vs| < 0x1_0000_0000
  {
    pos + 1 + |Announce(PduLength(m, |vs|, SizeAll(vs)))| + |EncodeFields(HeaderFields(m, |vs|))| + 1
    + |Announce(SizeAll(vs))|
  }

  /** The data element ends the PDU and is the last thing the scan sees. */
  lemma ScanData(s: Scan, b: seq<byte>, pos: nat, gooseEnd: nat, apduEnd: nat, n: nat)
    requires ValidScan(s) && Buffered(b, apduEnd) && gooseEnd <= apduEnd && n < 65535
    requires HasAt(b, pos, [0xab] + Announce(n)) && gooseEnd == pos + 1 + |Announce(n)| + n
    ensures ScanFrom(s, b, pos, gooseEnd, apduEnd) == (true, s.(dataStart := pos + 1 + |Announce(n)|, dataSize := n))
  {
    hide Decode, Announce;
    HasAtSplit(b, pos, [0xab], Announce(n));
    HasAtIndex(b, pos, [0xab], 0);
    AnnounceRead(b, pos + 1, n, apduEnd);
    LastElement(s, b, pos, gooseEnd, apduEnd, pos + 1 + |Announce(n)|, n);
  }

  lemma LastElement(s: Scan, b: seq<byte>, pos: nat, gooseEnd: nat, apduEnd: nat, start: nat, size: nat)
    requires ValidScan(s) && Buffered(b, apduEnd) && pos < gooseEnd <= apduEnd && b[pos] == 0xab
    requires Decode(b, pos + 1, apduEnd) == Length(start, size) && start + size == gooseEnd
    ensures ScanFrom(s, b, pos, gooseEnd, apduEnd) == (true, s.(dataStart := start, dataSize := size))
  {
    hide Decode;
    assert ScanElement(s, b, 0xab, start, size) == Some(s.(dataStart := start, dataSize := size));
  }

  /** A message the publisher accepts and a subscriber can store. */
  predicate Publishable(m: Message, vs: seq<MmsValue>) {
    && AllEncodable(vs) && |vs| < 0x1_0000_0000 && |m.timestamp| == 8 && StorableReferences(m)
    && PayloadSize(m, |vs|, SizeAll(vs)) < 65535
  }

  /** The parts of a payload, where the receiver finds them. */
  lemma PayloadParts(b: seq<byte>, pos: nat, m: Message, vs: seq<MmsValue>)
    requires Publishable(m, vs) && HasAt(b, pos, Payload(m, vs))
    ensures var n := SizeAll(vs); var pdu := PduLength(m, |vs|, n);
            var fields := EncodeFields(HeaderFields(m, |vs|));
            var start := pos + 1 + |Announce(pdu)|;
            && b[pos] == 0x61 && HasAt(b, pos + 1, Announce(pdu)) && HasAt(b, start, fields)
            && HasAt(b, start + |fields|, [0xab] + Announce(n))
            && HasAt(b, DataStart(pos, m, vs), EncodeAll(vs))
            && start + pdu == DataStart(pos, m, vs) + n && n < 65535 && pdu < 65535
            && DataStart(pos, m, vs) + |EncodeAll(vs)| == pos + |Payload(m, vs)|
  {
    hide BerInteger.UIntOctets, EncodeFields, HeaderFields, SizeAll, EncodeAll, Announce, AnnounceSize, PduLength;
    hide StorableReferences;
    var n := SizeAll(vs);
    var pdu := PduLength(m, |vs|, n);
    var fields := EncodeFields(HeaderFields(m, |vs|));
    SizesBounded(m, |vs|, n);
    HeaderLength(m, |vs|);
    AnnounceExact(n);
    var data := [0xab] + (Announce(n) + EncodeAll(vs));
    assert Payload(m, vs) == [0x61] + (Announce(pdu) + (fields + data));
    hide Payload, HasAt;
    HasAtSplit(b, pos, [0x61], Announce(pdu) + (fields + data));
    HasAtIndex(b, pos, [0x61], 0);
    HasAtSplit(b, pos + 1, Announce(pdu), fields + data);
    HasAtSplit(b, pos + 1 + |Announce(pdu)|, fields, data);
    assert data == ([0xab] + Announce(n)) + EncodeAll(vs);
    HasAtSplit(b, pos + 1 + |Announce(pdu)| + |fields|, [0xab] + Announce(n), EncodeAll(vs));
  }

  /** The scan of a published payload. */
  lemma PayloadScanned(subs: seq<Subscriber>, k: nat, b: seq<byte>, pos: nat, apduEnd: nat, m: Message,
                       vs: seq<MmsValue>)
    requires Publishable(m, vs) && HasAt(b, pos, Payload(m, vs)) && Buffered(b, apduEnd)
    requires FindMatch(subs, Chars(m.goCbRef)) == Some(k) && pos + |Payload(m, vs)| <= apduEnd
    ensures b[pos] == 0x61 && HasAt(b, DataStart(pos, m, vs), EncodeAll(vs))
    ensures var r := Decode(b, pos + 1, apduEnd);
            && r.Length? && r.start + r.size <= apduEnd
            && ScanFrom(StartScan(subs), b, r.start, r.start + r.size, apduEnd) ==
               (true, Scanned(subs, k, m).(dataStart := DataStart(pos, m, vs), dataSize := SizeAll(vs)))
  {
    hide SizeAll, PduLength, PayloadSize, HeaderFields, EncodeFields, EncodeAll, Payload, Announce, StorableReferences;
    hide Decode, ScanFrom, Effects, FindMatch, Scanned, SelfContained, ExcessAll;
    PayloadParts(b, pos, m, vs);
    EncodedLengthAll(vs);
    var n := SizeAll(vs);
    var pdu := PduLength(m, |vs|, n);
    var fs := HeaderFields(m, |vs|);
    var start := pos + 1 + |Announce(pdu)|;
    AnnounceRead(b, pos + 1, pdu, apduEnd);
    FieldsSelfContained(m, |vs|);
    HeaderEffects(subs, k, m, |vs|);
    ScanFields(StartScan(subs), b, start, start + pdu, apduEnd, fs);
    ScanData(Scanned(subs, k, m), b, start + |EncodeFields(fs)|, start + pdu, apduEnd, n);
  }

  // ----- the whole frame

  function Packet(tci: uint16, appId: uint16, m: Message, vs: seq<MmsValue>): (s: seq<byte>)
    requires Publishable(m, vs) && |Payload(m, vs)| + 8 < 0x1_0000
  {
    Framed(tci, GOOSE_ETHER_TYPE, appId, Payload(m, vs))
  }

  /** The subscriber's fields after the delivery of message m, its data slice apart. */
  predicate ReceivedFields(s: Subscriber, before: Subscriber, m: Message, now: nat) {
    && s.goCbRef == Chars(m.goCbRef) && s.datSet == Chars(m.dataSetRef) && s.goId == Chars(GoId(m))
    && s.timeAllowedToLive == m.timeAllowedToLive && s.stNum == m.stNum && s.sqNum == m.sqNum
    && s.confRev == m.confRev && s.timestamp == m.timestamp
    && s.simulation == m.simulation && s.ndsCom == m.needsCommission
    && s.invalidityTime == now + m.timeAllowedToLive && s.isObserver == before.isObserver
  }

  lemma DeliverFields(sub: Subscriber, s: Scan, b: seq<byte>, now: nat)
    requires Window(b, s.dataStart, s.dataStart + s.dataSize) && s.timestamp.Some?
    ensures var r := Deliver(sub, s, b, now);
            && r.goCbRef == sub.goCbRef && r.goCbRefLen == sub.goCbRefLen && r.datSet == sub.datSet
               && r.goId == sub.goId
            && r.isObserver == sub.isObserver
            && r.timeAllowedToLive == s.timeAllowedToLive && r.stNum == s.stNum && r.sqNum == s.sqNum
            && r.confRev == s.confRev && r.timestamp == s.timestamp.value && r.simulation == s.simulation
            && r.ndsCom == s.ndsCom && r.invalidityTime == now + s.timeAllowedToLive
  {
    hide TakeData;
    var sub1 := Prepared(sub, s);
    TakeDataKeeps(sub1, b, s.dataStart, s.dataSize);
  }

  lemma TakeDataKeeps(sub: Subscriber, b: seq<byte>, start: nat, size: nat)
    requires Window(b, start, start + size)
    ensures var r := TakeData(sub, b, start, size).1;
            r == sub.(values := r.values, selfAllocated := r.selfAllocated, parseError := r.parseError)
  {
    hide Learn, Refresh;
  }

  /** A complete scan with a match is delivered. */
  lemma ScannedDelivered(subs: seq<Subscriber>, b: seq<byte>, pos: nat, apduEnd: nat, now: nat, s: Scan, k: nat)
    requires Buffered(b, apduEnd) && pos < |b| && b[pos] == 0x61 && Decode(b, pos + 1, apduEnd).Length?
    requires var r := Decode(b, pos + 1, apduEnd);
             ScanFrom(StartScan(subs), b, r.start, r.start + r.size, apduEnd) == (true, s)
    requires s.matching == Some(k)
    ensures k < |s.subs| && Window(b, s.dataStart, s.dataStart + s.dataSize)
    ensures ParsePayload(subs, b, pos, apduEnd, now) == (Delivered, s.subs[k := Deliver(s.subs[k], s, b, now)])
  {
    hide Decode, ScanFrom, Deliver;
    var r := Decode(b, pos + 1, apduEnd);
    ScanWindow(StartScan(subs), b, r.start, r.start + r.size, apduEnd);
  }

  lemma PayloadParsed(subs: seq<Subscriber>, k: nat, b: seq<byte>, pos: nat, apduEnd: nat, m: Message,
                      vs: seq<MmsValue>,
                      now: nat)
    requires Publishable(m, vs) && HasAt(b, pos, Payload(m, vs)) && Buffered(b, apduEnd) && pos < |b|
    requires FindMatch(subs, Chars(m.goCbRef)) == Some(k) && pos + |Payload(m, vs)| <= apduEnd
    ensures var s := Scanned(subs, k, m).(dataStart := DataStart(pos, m, vs), dataSize := SizeAll(vs));
            && s.dataStart + s.dataSize < |b|
            && ParsePayload(subs, b, pos, apduEnd, now) == (Delivered, subs[k := Deliver(Named(subs[k], m), s, b, now)])
  {
    hide SizeAll, Payload, ScanFrom, FindMatch, Decode, DataStart, Deliver, Publishable, Named, HasAt, ParsePayload;
    PublishableEncodable(m, vs);
    PayloadScanned(subs, k, b, pos, apduEnd, m, vs);
    var s := Scanned(subs, k, m).(dataStart := DataStart(pos, m, vs), dataSize := SizeAll(vs));
    ScannedDelivered(subs, b, pos, apduEnd, now, s, k);
    assert s.subs[k := Deliver(Named(subs[k], m), s, b, now)] == subs[k := Deliver(Named(subs[k], m), s, b, now)];
  }

  /** Whole-frame round trip: a published frame, followed in the receive buffer by anything at all, is delivered
      to the first matching subscriber with every field as sent, and to no other; the data slice it takes is
      the encoded data set, short of exactly the excess of the size pass. */
  lemma FrameRoundTrip(subs: seq<Subscriber>, k: nat, b: seq<byte>, tci: uint16, appId: uint16, m: Message,
                       vs: seq<MmsValue>, now: nat)
    requires Publishable(m, vs) && |Payload(m, vs)| + 8 < 0x1_0000
    requires HasAt(b, 0, Packet(tci, appId, m, vs)) && |Packet(tci, appId, m, vs)| + SLACK <= |b|
    requires FindMatch(subs, Chars(m.goCbRef)) == Some(k)
    ensures |b| > FRAME_HEADER && Buffered(b, AnnouncedEnd(b))
    ensures var data := DataStart(FRAME_HEADER, m, vs);
            var s := Scanned(subs, k, m).(dataStart := data, dataSize := SizeAll(vs));
            && HasAt(b, data, EncodeAll(vs)) && |EncodeAll(vs)| == SizeAll(vs) + ExcessAll(vs)
            && data + |EncodeAll(vs)| < |b|
            && ParseMessage(subs, b, |Packet(tci, appId, m, vs)|, now) ==
               (Delivered, subs[k := Deliver(Named(subs[k], m), s, b, now)])
            && ReceivedFields(Deliver(Named(subs[k], m), s, b, now), subs[k], m, now)
  {
    hide Payload, Framed, EncodeAll, SizeAll, ExcessAll, FindMatch, DataStart, Deliver, ParsePayload, Publishable;
    hide Chars, Named, ReceivedFields, PduLength, EncodeFields, HeaderFields, Announce, HasAt;
    PublishableEncodable(m, vs);
    PayloadNotEmpty(m, vs);
    FramedParts(b, tci, GOOSE_ETHER_TYPE, appId, Payload(m, vs));
    EncodedLengthAll(vs);
    PayloadParts(b, FRAME_HEADER, m, vs);
    PayloadParsed(subs, k, b, FRAME_HEADER, FRAME_HEADER + |Payload(m, vs)|, m, vs, now);
    DeliveredFields(subs, k, m, DataStart(FRAME_HEADER, m, vs), SizeAll(vs), b, now);
  }

  lemma DeliveredFields(subs: seq<Subscriber>, k: nat, m: Message, start: nat, size: nat, b: seq<byte>, now: nat)
    requires k < |subs| && Window(b, start, start + size)
    ensures ReceivedFields(Deliver(Named(subs[k], m), Scanned(subs, k, m).(dataStart := start, dataSize := size), b,
            now),
                           subs[k], m, now)
  {
    hide Deliver;
    DeliverFields(Named(subs[k], m), Scanned(subs, k, m).(dataStart := start, dataSize := size), b, now);
  }

  lemma PublishableEncodable(m: Message, vs: seq<MmsValue>)
    requires Publishable(m, vs)
    ensures AllEncodable(vs) && |vs| < 0x1_0000_0000
  {
  }

  lemma PayloadNotEmpty(m: Message, vs: seq<MmsValue>)
    requires Publishable(m, vs)
    ensures |Payload(m, vs)| >= 10
  {
    hide BerInteger.UIntOctets, SizeAll;
    PayloadLength(m, vs);
  }

  /** Without a VLAN tag the receiver compares the length field with the EtherType: a frame is looked at exactly when
      its payload has 34992 octets, which none has. */
  lemma UntaggedIgnored(subs: seq<Subscriber>, b: seq<byte>, numbytes: nat, dst: seq<byte>, src: seq<byte>,
                        appId: uint16,
                        p: seq<byte>, now: nat)
    requires |dst| == 6 && |src| == 6 && |p| + 8 < 0x1_0000 && |b| > FRAME_HEADER
    requires HasAt(b, 0, Transmitted(EthernetHeader(dst, src, None, GOOSE_ETHER_TYPE, appId), p))
    ensures Addressed(b, numbytes) <==> numbytes >= 22 && |p| == 34992
    ensures |p| <= GoosePublisher.GOOSE_MAX_MESSAGE_SIZE ==> ParseMessage(subs, b, numbytes, now) == (Ignored, subs)
  {
    hide EthernetHeader, Transmitted, HasEtherType, HasAt, ParsePayload;
    UntaggedPacket(b, dst, src, GOOSE_ETHER_TYPE, appId, p);
  }

  // ----- when the receive buffer is left

  /** Nothing checks the length field against the receive buffer.  Up to 1506 the octets of the buffer are all that is
      needed to parse a frame that holds a GOOSE PDU, whatever they are. */
  lemma ReceiveBufferExact(b: seq<byte>)
    requires |b| == ETH_BUFFER_LENGTH
    ensures Readable(b, FRAME_HEADER, AnnouncedEnd(b)) <==> b[FRAME_HEADER] != 0x61 || LengthField(b) <= 1506
  {
  }

  /** The fields of a PDU that ends with a timestamp without contents, behind n octets that mean nothing. */
  function FillerFields(n: nat): (fs: seq<Field>) {
    [Field(0x80, []), Field(0x8b, Zeros(n))]
  }

  function TimestampPayload(n: nat): (p: seq<byte>) {
    Tlv(0x61, EncodeFields(FillerFields(n)) + Tlv(0x84, []))
  }

  lemma FillerSizes(n: nat)
    requires 256 <= n < 65520
    ensures |EncodeFields(FillerFields(n))| == n + 6 && |Tlv(0x84, [])| == 2 && |TimestampPayload(n)| == n + 12
  {
    var fs := FillerFields(n);
    EncodeFieldsLength(fs);
    assert FieldSizes(fs[2..]) == 0;
    assert |Tlv(0x84, [])| == 2;
    hide EncodeFields, Zeros, FieldSizes, Tlv;
    FieldSizesFrom(fs, 0);
    FieldSizesFrom(fs, 1);
    assert fs[0..] == fs;
    assert FieldSize(fs[0]) == 2 && FieldSize(fs[1]) == n + 4;
    LongTlv(0x61, EncodeFields(fs) + Tlv(0x84, []));
  }

  lemma FillerEffects(subs: seq<Subscriber>, n: nat)
    requires subs == [NewSubscriber([], None)]
    ensures Effects(StartScan(subs), FillerFields(n)) == Some(StartScan(subs).(matching := Some(0)))
  {
    hide Zeros;
    var fs, s := FillerFields(n), StartScan(subs);
    var s' := s.(matching := Some(0));
    assert Effect(s, fs[0]) == Some(s') && Effect(s', fs[1]) == Some(s');
    hide Effect;
    assert fs[1..][1..] == [];
    assert Effects(s', fs[1..]) == Effects(s', []);
  }

  /** Any greater length field leaves the buffer for some contents: the timestamp that a subscriber gets from such a
      frame is what follows its announced end, where at least the last of eight octets lies behind the buffer.  With n
      == 1494 the frame just fills the buffer. */
  lemma BufferLeft(n: nat, t: seq<byte>, tci: uint16, appId: uint16, numbytes: nat, now: nat)
    requires 1487 <= n <= 65515 && |t| == 8 && numbytes >= 22
    ensures |TimestampPayload(n)| + 8 < 0x1_0000
    ensures var f := Framed(tci, GOOSE_ETHER_TYPE, appId, TimestampPayload(n));
            && |f| == n + 24 && |f| + 7 >= ETH_BUFFER_LENGTH && LengthField(f + t) == n + 20
            && Readable(f + t, FRAME_HEADER, AnnouncedEnd(f + t))
            && var r := ParseMessage([NewSubscriber([], None)], f + t, numbytes, now);
            r.0 == Delivered && r.1[0].timestamp == t
  {
    hide EncodeFields, Tlv, TimestampPayload, FillerFields, Framed, HasEtherType, ParsePayload, Deliver;
    hide Decode, ScanFrom, LengthField;
    FillerSizes(n);
    var p, subs := TimestampPayload(n), [NewSubscriber([], None)];
    var f := Framed(tci, GOOSE_ETHER_TYPE, appId, p);
    var b := f + t;
    assert HasAt(b, 0, f);
    FramedParts(b, tci, GOOSE_ETHER_TYPE, appId, p);
    FillerScanned(b, n, t, subs);
    var s := StartScan(subs).(matching := Some(0), timestamp := Some(t));
    ScannedDelivered(subs, b, FRAME_HEADER, n + 24, now, s, 0);
    DeliverFields(subs[0], s, b, now);
  }

  lemma FillerScanned(b: seq<byte>, n: nat, t: seq<byte>, subs: seq<Subscriber>)
    requires subs == [NewSubscriber([], None)] && 256 <= n < 65520 && |t| == 8 && |b| == n + 32
    requires HasAt(b, FRAME_HEADER, TimestampPayload(n)) && HasAt(b, n + 24, t)
    ensures b[FRAME_HEADER] == 0x61 && Decode(b, FRAME_HEADER + 1, n + 24) == Length(16, n + 8)
    ensures ScanFrom(StartScan(subs), b, 16, n + 24, n + 24) ==
            (true, StartScan(subs).(matching := Some(0), timestamp := Some(t)))
  {
    hide EncodeFields, Tlv, Decode, ScanFrom, Effects;
    FillerSizes(n);
    var fs, last, end := FillerFields(n), Tlv(0x84, []), n + 24;
    var body := EncodeFields(fs) + last;
    assert TimestampPayload(n) == Tlv(0x61, body);
    EncodedElement(b, FRAME_HEADER, end, 0x61, body);
    HasAtSplit(b, 16, EncodeFields(fs), last);
    FillerEffects(subs, n);
    assert forall i :: 0 <= i < |fs| ==> SelfContained(fs[i]);
    ScanFields(StartScan(subs), b, 16, end, end, fs);
    EncodedElement(b, n + 22, end, 0x84, []);
    TimestampLast(StartScan(subs).(matching := Some(0)), b, end);
  }

  lemma TimestampLast(s: Scan, b: seq<byte>, end: nat)
    requires ValidScan(s) && Buffered(b, end) && end >= 2 && b[end - 2] == 0x84
             && Decode(b, end - 1, end) == Length(end, 0)
    ensures ScanFrom(s, b, end - 2, end, end) == (true, s.(timestamp := Some(b[end..end + 8])))
  {
    hide Decode;
  }
}
