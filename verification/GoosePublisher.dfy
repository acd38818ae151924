/** The GOOSE publisher (goose_publisher.cc): a message buffer whose Ethernet header is written once and whose
    payload is rewritten on every publication. */
module GoosePublisher {
  import opened Octets
  import opened MmsValues
  import opened BerEncoders
  import opened GooseMessages
  import opened EthernetFrames
  import opened SequenceNumbers
  import Timestamps
  import BerInteger

  const GOOSE_MAX_MESSAGE_SIZE := 1518

  const UTC_QUALITY: byte := 0x0a

  lemma {:induction false} EncodeFieldsAppend(fs: seq<Field>, gs: seq<Field>)
    ensures EncodeFields(fs + gs) == EncodeFields(fs) + EncodeFields(gs)
  {
    hide Tlv;
    if fs == [] {
      assert fs + gs == gs;
    } else {
      assert (fs + gs)[1..] == fs[1..] + gs;
      EncodeFieldsAppend(fs[1..], gs);
    }
  }

  lemma OneField(f: Field)
    ensures EncodeFields([f]) == Tlv(f.tag, f.contents)
  {
    hide Tlv;
    assert EncodeFields([f][1..]) == [];
  }

  lemma ThreeFields(fs: seq<Field>)
    requires |fs| == 3
    ensures EncodeFields(fs) ==
            Tlv(fs[0].tag, fs[0].contents) + Tlv(fs[1].tag, fs[1].contents) + Tlv(fs[2].tag, fs[2].contents)
  {
    hide Tlv, EncodeFields;
    assert fs == [fs[0]] + ([fs[1]] + [fs[2]]);
    EncodeFieldsAppend([fs[0]], [fs[1]] + [fs[2]]);
    EncodeFieldsAppend([fs[1]], [fs[2]]);
    OneField(fs[0]);
    OneField(fs[1]);
    OneField(fs[2]);
  }

  lemma FourFields(fs: seq<Field>)
    requires |fs| == 4
    ensures EncodeFields(fs) ==
            Tlv(fs[0].tag, fs[0].contents) + Tlv(fs[1].tag, fs[1].contents) + Tlv(fs[2].tag, fs[2].contents)
            + Tlv(fs[3].tag, fs[3].contents)
  {
    hide Tlv, EncodeFields;
    assert fs == fs[..3] + [fs[3]];
    EncodeFieldsAppend(fs[..3], [fs[3]]);
    ThreeFields(fs[..3]);
    OneField(fs[3]);
  }

  method EncodeNames(m: Message, buffer: array<byte>, bufPos: nat) returns (end: nat)
    requires bufPos + |EncodeFields(NameFields(m))| <= buffer.Length
    modifies buffer
    ensures end == bufPos + |EncodeFields(NameFields(m))|
    ensures buffer[..] == Splice(old(buffer[..]), bufPos, EncodeFields(NameFields(m)))
  {
    hide Tlv, EncodeFields, Chars, BerInteger.UIntOctets, Splice;
    FourFields(NameFields(m));
    ghost var b, t0, t1 := buffer[..], Tlv(0x80, Chars(m.goCbRef)),
        Tlv(0x81, BerInteger.UIntOctets(m.timeAllowedToLive));
    ghost var t2, t3 := Tlv(0x82, Chars(m.dataSetRef)), Tlv(0x83, Chars(GoId(m)));
    end := EncodeOctetString(0x80, Chars(m.goCbRef), buffer, bufPos);
    end := EncodeUInt32WithTL(0x81, m.timeAllowedToLive, buffer, end);
    SpliceSplice(b, bufPos, t0, t1);
    end := EncodeOctetString(0x82, Chars(m.dataSetRef), buffer, end);
    SpliceSplice(b, bufPos, t0 + t1, t2);
    end := EncodeOctetString(0x83, Chars(GoId(m)), buffer, end);
    SpliceSplice(b, bufPos, t0 + t1 + t2, t3);
  }

  method EncodeState(m: Message, buffer: array<byte>, bufPos: nat) returns (end: nat)
    requires bufPos + |EncodeFields(StateFields(m))| <= buffer.Length
    modifies buffer
    ensures end == bufPos + |EncodeFields(StateFields(m))|
    ensures buffer[..] == Splice(old(buffer[..]), bufPos, EncodeFields(StateFields(m)))
  {
    hide Tlv, EncodeFields, BooleanOctets, BerInteger.UIntOctets, Splice;
    FourFields(StateFields(m));
    ghost var b, t0, t1 := buffer[..], Tlv(0x84, m.timestamp), Tlv(0x85, BerInteger.UIntOctets(m.stNum));
    ghost var t2, t3 := Tlv(0x86, BerInteger.UIntOctets(m.sqNum)), Tlv(0x87, BooleanOctets(m.simulation));
    end := EncodeOctetString(0x84, m.timestamp, buffer, bufPos);
    end := EncodeUInt32WithTL(0x85, m.stNum, buffer, end);
    SpliceSplice(b, bufPos, t0, t1);
    end := EncodeUInt32WithTL(0x86, m.sqNum, buffer, end);
    SpliceSplice(b, bufPos, t0 + t1, t2);
    end := EncodeOctetString(0x87, BooleanOctets(m.simulation), buffer, end);
    SpliceSplice(b, bufPos, t0 + t1 + t2, t3);
  }

  method EncodeConfiguration(m: Message, entries: uint32, buffer: array<byte>, bufPos: nat) returns (end: nat)
    requires bufPos + |EncodeFields(ConfigurationFields(m, entries))| <= buffer.Length
    modifies buffer
    ensures end == bufPos + |EncodeFields(ConfigurationFields(m, entries))|
    ensures buffer[..] == Splice(old(buffer[..]), bufPos, EncodeFields(ConfigurationFields(m, entries)))
  {
    hide Tlv, EncodeFields, BooleanOctets, BerInteger.UIntOctets, Splice;
    ThreeFields(ConfigurationFields(m, entries));
    ghost var b, t0 := buffer[..], Tlv(0x88, BerInteger.UIntOctets(m.confRev));
    ghost var t1, t2 := Tlv(0x89, BooleanOctets(m.needsCommission)), Tlv(0x8a, BerInteger.UIntOctets(entries));
    end := EncodeUInt32WithTL(0x88, m.confRev, buffer, bufPos);
    end := EncodeOctetString(0x89, BooleanOctets(m.needsCommission), buffer, end);
    SpliceSplice(b, bufPos, t0, t1);
    end := EncodeUInt32WithTL(0x8a, entries, buffer, end);
    SpliceSplice(b, bufPos, t0 + t1, t2);
  }

  method EncodeHeader(m: Message, entries: uint32, buffer: array<byte>, bufPos: nat) returns (end: nat)
    requires bufPos + |EncodeFields(HeaderFields(m, entries))| <= buffer.Length
    modifies buffer
    ensures end == bufPos + |EncodeFields(HeaderFields(m, entries))|
    ensures buffer[..] == Splice(old(buffer[..]), bufPos, EncodeFields(HeaderFields(m, entries)))
  {
    hide EncodeFields, Splice, NameFields, StateFields, ConfigurationFields;
    ghost var b, fs, gs, hs := buffer[..], NameFields(m), StateFields(m), ConfigurationFields(m, entries);
    EncodeFieldsAppend(fs, gs + hs);
    EncodeFieldsAppend(gs, hs);
    end := EncodeNames(m, buffer, bufPos);
    end := EncodeState(m, buffer, end);
    SpliceSplice(b, bufPos, EncodeFields(fs), EncodeFields(gs));
    end := EncodeConfiguration(m, entries, buffer, end);
    SpliceSplice(b, bufPos, EncodeFields(fs) + EncodeFields(gs), EncodeFields(hs));
    assert EncodeFields(fs) + EncodeFields(gs) + EncodeFields(hs) == EncodeFields(fs)
        + (EncodeFields(gs) + EncodeFields(hs));
  }

  lemma PayloadPieces(m: Message, vs: seq<MmsValue>)
    requires AllEncodable(vs) && |vs| < 0x1_0000_0000
    ensures Payload(m, vs) ==
            ([0x61] + Announce(PduLength(m, |vs|, SizeAll(vs)))) + EncodeFields(HeaderFields(m, |vs|))
            + ([0xab] + Announce(SizeAll(vs))) + EncodeAll(vs)
  {
    hide EncodeFields, HeaderFields, Announce, SizeAll, EncodeAll, PduLength;
    Regrouped([0x61], Announce(PduLength(m, |vs|, SizeAll(vs))), EncodeFields(HeaderFields(m, |vs|)), [0xab],
        Announce(SizeAll(vs)),
              EncodeAll(vs));
  }

  lemma Regrouped(a: seq<byte>, b: seq<byte>, c: seq<byte>, d: seq<byte>, e: seq<byte>, f: seq<byte>)
    ensures a + (b + (c + (d + (e + f)))) == (a + b) + c + (d + e) + f
  {
    assert d + (e + f) == (d + e) + f;
    var g, h := d + e, a + b;
    assert c + (g + f) == (c + g) + f;
    assert a + (b + (c + g + f)) == h + (c + g + f);
    assert h + (c + g + f) == h + c + g + f;
  }

  /** The encode pass of createGoosePayload. */
  method EncodePayload(m: Message, vs: seq<MmsValue>, dataSetSize: nat, pduLength: nat, buffer: array<byte>,
                       bufPos: nat)
    returns (end: nat)
    requires AllEncodable(vs) && |vs| < 0x1_0000_0000
    requires dataSetSize == Low32(SizeAll(vs)) && pduLength == Low32(PduLength(m, |vs|, SizeAll(vs)))
    requires bufPos + |Payload(m, vs)| <= buffer.Length
    modifies buffer
    ensures end == bufPos + |Payload(m, vs)|
    ensures buffer[..] == Splice(old(buffer[..]), bufPos, Payload(m, vs))
  {
    hide EncodeFields, Splice, HeaderFields, Announce, SizeAll, EncodeAll, PduLength, Payload;
    ghost var b, p1 := buffer[..], [0x61] + Announce(pduLength);
    ghost var p2, p3 := EncodeFields(HeaderFields(m, |vs|)), [0xab] + Announce(dataSetSize);
    PayloadPieces(m, vs);
    AnnounceLow(SizeAll(vs));
    AnnounceLow(PduLength(m, |vs|, SizeAll(vs)));
    end := EncodeTL(0x61, pduLength, buffer, bufPos);
    end := EncodeHeader(m, |vs|, buffer, end);
    SpliceSplice(b, bufPos, p1, p2);
    end := EncodeTL(0xab, dataSetSize, buffer, end);
    SpliceSplice(b, bufPos, p1 + p2, p3);
    end := EncodeElements(vs, buffer, end);
    SpliceSplice(b, bufPos, p1 + p2 + p3, EncodeAll(vs));
  }

  /** The loop of the size pass over the data set. */
  method DataSetSize(vs: seq<MmsValue>) returns (size: uint32)
    requires AllEncodable(vs)
    ensures size == Low32(SizeAll(vs))
  {
    hide Size;
    size := 0;
    var i := 0;
    while i < |vs|
      invariant 0 <= i <= |vs| && Low32(size + SizeAll(vs[i..])) == Low32(SizeAll(vs))
    {
      assert vs[i..][1..] == vs[i + 1..];
      Low32Sum(size + Size(vs[i]), SizeAll(vs[i + 1..]));
      size := Low32(size + Size(vs[i]));
      i := i + 1;
    }
  }

  /** The rest of the size pass: the header fields and the data set, added up in 32 bits. */
  method PduSize(m: Message, entries: uint32, dataSetSize: uint32) returns (size: uint32)
    ensures size == Low32(PduLength(m, entries, dataSetSize))
  {
    hide StringSize, BerInteger.UIntOctets, AnnounceSize, Low32;
    ghost var sum := StringSize(m.goCbRef);
    size := Low32(StringSize(m.goCbRef));
    size, sum := Add(size, 2 + |BerInteger.UIntOctets(m.timeAllowedToLive)|, sum);
    size, sum := Add(size, StringSize(m.dataSetRef), sum);
    size, sum := Add(size, StringSize(if m.goId.Some? then m.goId else m.goCbRef), sum);
    size, sum := Add(size, 2 + 8, sum);
    size, sum := Add(size, 2 + |BerInteger.UIntOctets(m.sqNum)|, sum);
    size, sum := Add(size, 2 + |BerInteger.UIntOctets(m.stNum)|, sum);
    size, sum := Add(size, 2 + |BerInteger.UIntOctets(m.confRev)|, sum);
    size, sum := Add(size, 6, sum);
    size, sum := Add(size, 2 + |BerInteger.UIntOctets(entries)|, sum);
    Low32Sum(dataSetSize + AnnounceSize(dataSetSize) + 1, sum);
    var allDataSize := Low32(dataSetSize + AnnounceSize(dataSetSize) + 1);
    Low32Sum(sum, allDataSize);
    size := Low32(size + allDataSize);
    assert allDataSize + sum == sum + allDataSize;
  }

  /** One addition of the size pass; sum is what the additions would give without wrapping. */
  method Add(size: uint32, n: nat, ghost sum: nat) returns (size': uint32, ghost sum': nat)
    requires size == Low32(sum)
    ensures sum' == sum + n && size' == Low32(sum')
  {
    hide Low32;
    Low32Sum(sum, n);
    size', sum' := Low32(size + n), sum + n;
  }

  /** The wrapped size of the data set leads to the same wrapped sizes of PDU and payload. */
  lemma WrappedSizes(m: Message, entries: uint32, n: nat)
    ensures Low32(PduLength(m, entries, Low32(n))) == Low32(PduLength(m, entries, n))
    ensures var pdu := Low32(PduLength(m, entries, n));
            Low32(1 + AnnounceSize(pdu) + pdu) == Low32(PayloadSize(m, entries, n))
  {
    hide PduLength, AnnounceSize;
    var pdu := PduLength(m, entries, n);
    AnnounceLow(n);
    AnnounceLow(pdu);
    PduOfData(m, entries, n);
    PduOfData(m, entries, Low32(n));
    Low32Sum(n, PduLength(m, entries, 0) + AnnounceSize(n) - 1);
    Low32Sum(pdu, 1 + AnnounceSize(pdu));
  }

  class Publisher {
    const buffer: array<byte>
    const lengthField: nat
    const payloadStart: nat
    var payloadLength: int

    var goId: Option<seq<byte>>
    var goCbRef: Option<seq<byte>>
    var dataSetRef: Option<seq<byte>>
    var confRev: uint32
    var stNum: uint32
    var sqNum: uint32
    var timeAllowedToLive: uint32
    var needsCommission: bool
    var simulation: bool
    var timestamp: seq<byte>

    /** The header octets written when the publisher was created. */
    ghost const header: seq<byte>

    ghost predicate Valid()
      reads this, buffer
    {
      && buffer.Length == GOOSE_MAX_MESSAGE_SIZE && |timestamp| == 8
      && 14 <= lengthField == |header| <= 20 && payloadStart == lengthField + 6
      && HasAt(buffer[..], 0, header) && HasAt(buffer[..], lengthField + 2, [0, 0, 0, 0])
    }

    /** What the next message will say besides its data set. */
    function NextMessage(): (m: Message)
      reads this
    {
      Message(goCbRef, timeAllowedToLive, dataSetRef, goId, timestamp, stNum, sqNum, simulation, confRev,
          needsCommission)
    }

    /** The next message with the data set vs is accepted although its size wrapped, or although the room behind that
        size does not take up the excess of the data set: by OverrunExact, exactly then the encode pass runs past the
        buffer. */
    predicate TooTight(vs: seq<MmsValue>)
      reads this
      requires AllEncodable(vs) && |vs| < 0x1_0000_0000 && payloadStart <= GOOSE_MAX_MESSAGE_SIZE
    {
      var size, max := PayloadSize(NextMessage(), |vs|, SizeAll(vs)), GOOSE_MAX_MESSAGE_SIZE - payloadStart;
      PredictedSize(NextMessage(), vs) <= max
          && (size != PredictedSize(NextMessage(), vs) || max < size + ExcessAll(vs))
    }

    /** createEx with the Ethernet socket available: the header is laid out and the numbers are reset. */
    constructor (dst: seq<byte>, src: seq<byte>, useVlanTags: bool, priority: byte, vlanId: uint16, appId: uint16,
                 now: nat)
      requires |dst| == 6 && |src| == 6
      ensures Valid() && fresh(buffer)
      ensures header ==
              EthernetHeader(dst, src, if useVlanTags then Some(TagControl(priority, vlanId)) else None,
                  GOOSE_ETHER_TYPE, appId)
      ensures stNum == 1 && sqNum == 0 && goId == goCbRef == dataSetRef == None && confRev == timeAllowedToLive == 0
      ensures !needsCommission && !simulation && timestamp == Timestamps.MsTime(now) + [UTC_QUALITY]
    {
      var b := new byte[GOOSE_MAX_MESSAGE_SIZE];
      ghost var head :=
        EthernetHeader(dst, src, if useVlanTags then Some(TagControl(priority, vlanId)) else None, GOOSE_ETHER_TYPE,
            appId);
      var k, n := PrepareBuffer(b, dst, src, useVlanTags, priority, vlanId, GOOSE_ETHER_TYPE, appId);
      buffer, lengthField, payloadStart := b, k, n;
      payloadLength := 0;
      goId, goCbRef, dataSetRef, confRev, timeAllowedToLive := None, None, None, 0, 0;
      needsCommission, simulation, timestamp := false, false, Timestamps.MsTime(now) + [UTC_QUALITY];
      stNum, sqNum := 1, 0;
      header := head;
      new;
      hide EthernetHeader, HasAt, Splice, Timestamps.MsTime;
      HeaderPrepared(buffer[..], head);
    }

    /** increaseStNum: a new state, stamped with the current time. */
    method IncreaseStNum(now: nat)
      requires Valid()
      modifies `stNum, `sqNum, `timestamp
      ensures Valid() && timestamp == Timestamps.MsTime(now) + [UTC_QUALITY]
      ensures Numbers(stNum, sqNum) == After(old(Numbers(stNum, sqNum)), NewState)
    {
      hide Timestamps.MsTime;
      timestamp := Timestamps.MsTime(now) + [UTC_QUALITY];
      stNum := (stNum + 1) % 0x1_0000_0000;
      if stNum == 0 {
        stNum := 1;
      }
      sqNum := 0;
    }

    method Reset()
      requires Valid()
      modifies `stNum, `sqNum
      ensures Valid() && Numbers(stNum, sqNum) == After(old(Numbers(stNum, sqNum)), SequenceNumbers.Reset)
    {
      sqNum := 0;
      stNum := 1;
    }

    /** createGoosePayload: -1 with nothing written if the predicted size is too large, else the payload is in
        the buffer and its length is returned. */
    method CreateGoosePayload(vs: seq<MmsValue>) returns (r: int)
      requires Valid() && AllEncodable(vs) && |vs| < 0x1_0000_0000 && !TooTight(vs)
      modifies buffer
      ensures PredictedSize(NextMessage(), vs) > GOOSE_MAX_MESSAGE_SIZE - payloadStart ==>
                r == -1 && buffer[..] == old(buffer[..])
      ensures PredictedSize(NextMessage(), vs) <= GOOSE_MAX_MESSAGE_SIZE - payloadStart ==>
                && r == |Payload(NextMessage(), vs)| <= GOOSE_MAX_MESSAGE_SIZE - payloadStart
                && buffer[..] == Splice(old(buffer[..]), payloadStart, Payload(NextMessage(), vs))
    {
      hide SizeAll, ExcessAll, Payload, PayloadSize, PduLength, AnnounceSize, Low32, Splice, HasAt;
      var m := NextMessage();
      var dataSetSize := DataSetSize(vs);
      var pduLength := PduSize(m, |vs|, dataSetSize);
      WrappedSizes(m, |vs|, SizeAll(vs));
      var payloadSize := Low32(1 + AnnounceSize(pduLength) + pduLength);
      if payloadSize > GOOSE_MAX_MESSAGE_SIZE - payloadStart {
        return -1;
      }
      OverrunExact(m, vs, GOOSE_MAX_MESSAGE_SIZE - payloadStart);
      var end := EncodePayload(m, vs, dataSetSize, pduLength, buffer, payloadStart);
      return end - payloadStart;
    }

    /** publish: encodes with the current numbers, advances sqNum (which wraps to 1) and hands the frame to the
        HAL, which drops its first fourteen octets. */
    method Publish(vs: seq<MmsValue>) returns (rc: int, packet: Option<seq<byte>>)
      requires Valid() && AllEncodable(vs) && |vs| < 0x1_0000_0000 && !TooTight(vs)
      modifies this`payloadLength, this`sqNum, buffer
      ensures Valid()
      ensures old(PredictedSize(NextMessage(), vs)) > GOOSE_MAX_MESSAGE_SIZE - payloadStart ==>
                rc == -1 && packet == None && sqNum == old(sqNum)
      ensures old(PredictedSize(NextMessage(), vs)) <= GOOSE_MAX_MESSAGE_SIZE - payloadStart ==>
                && rc == 0 && |old(Payload(NextMessage(), vs))| <= GOOSE_MAX_MESSAGE_SIZE - payloadStart
                && Numbers(stNum, sqNum) == After(old(Numbers(stNum, sqNum)), SequenceNumbers.Publish)
                && packet == Some(Transmitted(header, old(Payload(NextMessage(), vs))))
    {
      hide SizeAll, ExcessAll, Payload, PayloadSize, PredictedSize, Splice, U16Octets;
      ghost var p := Payload(NextMessage(), vs);
      payloadLength := CreateGoosePayload(vs);
      if payloadLength == -1 {
        return -1, None;
      }
      sqNum := (sqNum + 1) % 0x1_0000_0000;
      if sqNum == 0 {
        sqNum := 1;
      }
      var gooseLength := payloadLength + 8;
      FrameStored(old(buffer[..]), header, p, gooseLength);
      var end := Copy(buffer, lengthField, U16Octets(gooseLength));
      rc, packet := 0, Some(buffer[14..payloadStart + payloadLength]);
    }
  }

  lemma SliceJoin(f: seq<byte>, a: nat, b: nat, c: nat, d: nat, e: nat)
    requires a <= b <= c <= d <= e <= |f|
    ensures f[a..e] == f[0..b][a..] + f[b..c] + f[c..d] + f[d..e]
  {
    assert f[0..b][a..] == f[a..b];
    assert f[a..c] == f[a..b] + f[b..c];
    assert f[a..d] == f[a..c] + f[c..d];
    assert f[a..e] == f[a..d] + f[d..e];
  }

  /** A part of s that t does not touch stays in place. */
  lemma SpliceKeeps(s: seq<byte>, pos: nat, t: seq<byte>, from: nat, to: nat)
    requires pos + |t| <= |s| && from <= to <= |s| && (to <= pos || pos + |t| <= from)
    ensures Splice(s, pos, t)[from..to] == s[from..to]
  {
    var r := Splice(s, pos, t);
    assert forall i :: from <= i < to ==> r[i] == s[i];
  }

  /** Writing the payload and then the length field gives the frame, whatever the buffer held. */
  lemma FrameStored(b: seq<byte>, header: seq<byte>, p: seq<byte>, n: uint16)
    requires 14 <= |header| && HasAt(b, 0, header) && HasAt(b, |header| + 2, [0, 0, 0, 0]) && |header| + 6 + |p| <= |b|
    ensures var f := Splice(Splice(b, |header| + 6, p), |header|, U16Octets(n));
            && f[14..|header| + 6 + |p|] == header[14..] + U16Octets(n) + [0, 0, 0, 0] + p
            && HasAt(f, 0, header) && HasAt(f, |header| + 2, [0, 0, 0, 0])
  {
    hide U16Octets, Splice;
    var k, end := |header|, |header| + 6 + |p|;
    var z: seq<byte> := [0, 0, 0, 0];
    var g := Splice(b, k + 6, p);
    var f := Splice(g, k, U16Octets(n));
    SpliceKeeps(b, k + 6, p, 0, k);
    SpliceKeeps(b, k + 6, p, k + 2, k + 6);
    SpliceKeeps(g, k, U16Octets(n), 0, k);
    SpliceKeeps(g, k, U16Octets(n), k + 2, k + 6);
    SpliceKeeps(g, k, U16Octets(n), k + 6, end);
    assert f[0..k] == header && f[k..k + 2] == U16Octets(n) && f[k + 2..k + 6] == z && f[k + 6..end] == p;
    SliceJoin(f, 14, k, k + 2, k + 6, end);
  }
}
