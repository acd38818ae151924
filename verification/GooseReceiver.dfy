/** The receiver's loops over a received frame (goose_receiver.cc), proved to compute GooseParsing's functions.
    The receiver keeps its subscribers, in list order, by value. */
module GooseReceiver {
  import opened Octets
  import opened BerLength
  import opened DataSets
  import opened DataSetRefresh
  import opened DataSetParsers
  import opened GooseParsing
  import opened EthernetFrames
  import BerInteger

  lemma ScanStep(s: Scan, b: seq<byte>, pos: nat, gooseEnd: nat, apduEnd: nat)
    requires ValidScan(s) && Buffered(b, apduEnd) && pos < gooseEnd <= apduEnd
    ensures ScanFrom(s, b, pos, gooseEnd, apduEnd) ==
            match Decode(b, pos + 1, apduEnd)
            case Malformed => (false, s)
            case Length(start, size) =>
              match ScanElement(s, b, b[pos], start, size)
              case None => (false, s)
              case Some(s') => ScanFrom(s', b, start + size, gooseEnd, apduEnd)
  {
    hide Decode, ScanElement;
  }

  /** The walk along the subscriber list for a control block reference. */
  method FindSubscriber(subs: seq<Subscriber>, ref: seq<byte>) returns (r: Option<nat>)
    ensures r == FindMatch(subs, ref)
  {
    var i := 0;
    while i < |subs|
      invariant 0 <= i <= |subs|
      invariant var rest := FindMatch(subs[i..], ref);
                FindMatch(subs, ref) == if rest.None? then None else Some(i + rest.value)
    {
      assert subs[i..][1..] == subs[i + 1..];
      if subs[i].isObserver || Subscribes(subs[i], ref) {
        return Some(i);
      }
      i := i + 1;
    }
    return None;
  }

  class Receiver {
    var subscribers: seq<Subscriber>

    constructor ()
      ensures subscribers == []
    {
      subscribers := [];
    }

    method AddSubscriber(s: Subscriber)
      modifies this
      ensures subscribers == old(subscribers) + [s]
    {
      subscribers := subscribers + [s];
    }

    /** One header element; false if the message is to be abandoned. */
    method HandleElement(s: Scan, b: seq<byte>, tag: byte, start: nat, size: nat) returns (ok: bool, s': Scan)
      requires ValidScan(s) && start + size + SLACK <= |b|
      ensures var r := ScanElement(s, b, tag, start, size); if r.Some? then ok && s' == r.value else !ok && s' == s
    {
      hide BerInteger.DecodedUint32, ScanText, FindMatch;
      var c := b[start..start + size];
      ok, s' := true, s;
      if tag == 0x80 {
        var i := FindSubscriber(s.subs, c);
        if i.Some? {
          var sub := s.subs[i.value];
          if sub.isObserver && size <= MAX_REFERENCE {
            s' := s.(subs := s.subs[i.value := sub.(goCbRef := c)]);
          }
          s' := s'.(matching := i);
        } else {
          ok := s.matching.Some?;
        }
      } else if tag == 0x82 || tag == 0x83 {
        s' := ScanText(s, tag, c);
      } else if tag == 0x84 {
        s' := s.(timestamp := Some(b[start..start + 8]));
      } else if tag == 0x87 {
        s' := s.(simulation := b[start] != 0);
      } else if tag == 0x89 {
        s' := s.(ndsCom := b[start] != 0);
      } else if tag == 0xab {
        s' := s.(dataStart := start, dataSize := size);
      } else if tag == 0x81 || tag == 0x85 || tag == 0x86 || tag == 0x88 {
        var v := BerInteger.DecodeUint32(b, size, start);
        s' := if tag == 0x81 then s.(timeAllowedToLive := v) else if tag == 0x85 then s.(stNum := v)
              else if tag == 0x86 then s.(sqNum := v) else s.(confRev := v);
      }
    }

    /** The loop of parseGoosePayload. */
    method ScanHeader(b: seq<byte>, start: nat, gooseEnd: nat, apduEnd: nat) returns (complete: bool, s: Scan)
      requires Buffered(b, apduEnd) && start <= gooseEnd <= apduEnd
      ensures (complete, s) == ScanFrom(StartScan(subscribers), b, start, gooseEnd, apduEnd)
    {
      hide Decode, ScanElement, ScanFrom;
      s := StartScan(subscribers);
      ghost var goal := ScanFrom(s, b, start, gooseEnd, apduEnd);
      var bufPos := start;
      while bufPos < gooseEnd
        invariant start <= bufPos <= apduEnd && ValidScan(s)
        invariant goal == ScanFrom(s, b, bufPos, gooseEnd, apduEnd)
        decreases apduEnd - bufPos
      {
        ScanStep(s, b, bufPos, gooseEnd, apduEnd);
        var elementLength, contents := DecodeLength(b, bufPos + 1, apduEnd);
        if contents < 0 {
          return false, s;
        }
        var ok;
        ok, s := HandleElement(s, b, b[bufPos], contents, elementLength);
        if !ok {
          return false, s;
        }
        bufPos := contents + elementLength;
      }
      ScanDone(s, b, bufPos, gooseEnd, apduEnd);
      return true, s;
    }

    /** Learns the data set, or refreshes the one the subscriber already has. */
    method TakeDataSet(sub: Subscriber, b: seq<byte>, start: nat, size: nat) returns (accepted: bool, r: Subscriber)
      requires Window(b, start, start + size) && start + size <= MAX_WINDOW
      ensures (accepted, r) == TakeData(sub, b, start, size)
    {
      hide Learn, Refresh;
      accepted, r := true, sub;
      if sub.values.None? {
        var learned := ParseAllDataUnknownValue(b, start, start + size, false);
        if learned.Some? {
          r := sub.(values := Some(learned.value.elements), selfAllocated := true);
        }
      } else {
        var parseError, values := ParseAllData(b, start, start + size, sub.values.value);
        r := sub.(values := Some(values), parseError := parseError);
        if parseError != NoError {
          accepted := false;
        }
      }
    }

    /** The update of the matching subscriber. */
    method DeliverTo(sub: Subscriber, s: Scan, b: seq<byte>, now: nat) returns (r: Subscriber)
      requires Window(b, s.dataStart, s.dataStart + s.dataSize) && s.dataStart + s.dataSize <= MAX_WINDOW
      ensures r == Deliver(sub, s, b, now)
    {
      hide TakeData, Prepared;
      var isValid;
      isValid, r := TakeDataSet(Prepared(sub, s), b, s.dataStart, s.dataSize);
      if sub.stNum == s.stNum {
        if sub.sqNum >= s.sqNum {
          isValid := false;
        }
      }
      r := r.(stateValid := isValid, stNum := s.stNum, sqNum := s.sqNum, invalidityTime := now + s.timeAllowedToLive);
    }

    /** parseGoosePayload. */
    method ParseGoosePayload(b: seq<byte>, pos: nat, apduEnd: nat, now: nat) returns (outcome: Outcome)
      requires Readable(b, pos, apduEnd)
      modifies this
      ensures (outcome, subscribers) == old(ParsePayload(subscribers, b, pos, apduEnd, now))
    {
      hide Decode, ScanFrom, Deliver;
      if b[pos] != 0x61 {
        return Fault;
      }
      var gooseLength, start := DecodeLength(b, pos + 1, apduEnd);
      if start < 0 {
        return Ignored;
      }
      var complete, s := ScanHeader(b, start, start + gooseLength, apduEnd);
      ScanWindow(StartScan(subscribers), b, start, start + gooseLength, apduEnd);
      subscribers := s.subs;
      if !complete || s.matching.None? {
        return Ignored;
      }
      var i := s.matching.value;
      var updated := DeliverTo(s.subs[i], s, b, now);
      subscribers := s.subs[i := updated];
      return Delivered;
    }

    /** parseGooseMessage. */
    method ParseGooseMessage(b: seq<byte>, numbytes: nat, now: nat) returns (outcome: Outcome)
      requires |b| > FRAME_HEADER && (Addressed(b, numbytes) ==> Readable(b, FRAME_HEADER, AnnouncedEnd(b)))
      modifies this
      ensures (outcome, subscribers) == old(ParseMessage(subscribers, b, numbytes, now))
    {
      hide ParsePayload;
      if numbytes < 22 || b[2] != 0x88 || b[3] != 0xb8 {
        return Ignored;
      }
      var length := b[6] as int * 256 + b[7] as int;
      outcome := ParseGoosePayload(b, FRAME_HEADER, FRAME_HEADER + length - 8, now);
    }
  }

  // ----- the data sets of a receiver

  /** Every subscriber's data set has well-sized buffers. */
  predicate TreesWellSized(subs: seq<Subscriber>) {
    forall i :: 0 <= i < |subs| && subs[i].values.Some? ==> AllWellSized(subs[i].values.value)
  }

  predicate SameValues(subs: seq<Subscriber>, subs': seq<Subscriber>) {
    |subs| == |subs'| && forall i :: 0 <= i < |subs| ==> subs'[i].values == subs[i].values
  }

  lemma ElementKeepsValues(s: Scan, b: seq<byte>, tag: byte, start: nat, size: nat)
    requires ValidScan(s) && start + size + SLACK <= |b|
    ensures var r := ScanElement(s, b, tag, start, size); r.Some? ==> SameValues(s.subs, r.value.subs)
  {
    hide BerInteger.DecodedUint32, ScanReference, ScanText;
    ReferenceKeepsValues(s, b[start..start + size]);
    TextKeepsValues(s, tag, b[start..start + size]);
  }

  lemma ReferenceKeepsValues(s: Scan, c: seq<byte>)
    requires ValidScan(s)
    ensures ScanReference(s, c).Some? ==> SameValues(s.subs, ScanReference(s, c).value.subs)
  {
    hide FindMatch;
  }

  lemma TextKeepsValues(s: Scan, tag: byte, c: seq<byte>)
    requires ValidScan(s)
    ensures SameValues(s.subs, ScanText(s, tag, c).subs)
  {
  }

  lemma {:induction false} ScanKeepsValues(s: Scan, b: seq<byte>, pos: nat, gooseEnd: nat, apduEnd: nat)
    requires ValidScan(s) && Buffered(b, apduEnd) && gooseEnd <= apduEnd
    ensures SameValues(s.subs, ScanFrom(s, b, pos, gooseEnd, apduEnd).1.subs)
    decreases apduEnd - pos
  {
    hide Decode, ScanElement;
    if pos < gooseEnd && Decode(b, pos + 1, apduEnd).Length? {
      var r := Decode(b, pos + 1, apduEnd);
      ElementKeepsValues(s, b, b[pos], r.start, r.size);
      var s' := ScanElement(s, b, b[pos], r.start, r.size);
      if s'.Some? {
        ScanKeepsValues(s'.value, b, r.start + r.size, gooseEnd, apduEnd);
      }
    }
  }

  lemma DeliveryWellSized(sub: Subscriber, s: Scan, b: seq<byte>, now: nat)
    requires Window(b, s.dataStart, s.dataStart + s.dataSize)
    requires sub.values.Some? ==> AllWellSized(sub.values.value)
    ensures var r := Deliver(sub, s, b, now); r.values.Some? ==> AllWellSized(r.values.value)
  {
    hide Learn, Refresh;
    LearnWellSized(b, s.dataStart, s.dataStart + s.dataSize, false);
    var p := Prepared(sub, s);
    if p.values.Some? {
      KeepsSizes(b, s.dataStart, s.dataStart + s.dataSize, p.values.value);
    }
  }

  /** Whatever frame arrives, data sets with well-sized buffers stay so; learned ones are so from the start.  Hence, up
      to the first overrun, DataSetRefresh.StoresInside applies to every frame a receiver ever gets. */
  lemma MessageKeepsTrees(subs: seq<Subscriber>, b: seq<byte>, numbytes: nat, now: nat)
    requires |b| > FRAME_HEADER && (Addressed(b, numbytes) ==> Readable(b, FRAME_HEADER, AnnouncedEnd(b)))
    requires TreesWellSized(subs)
    ensures TreesWellSized(ParseMessage(subs, b, numbytes, now).1)
  {
    hide Decode, ScanFrom, Deliver, AllWellSized;
    var end := AnnouncedEnd(b);
    if Addressed(b, numbytes) && b[FRAME_HEADER] == 0x61 && Decode(b, FRAME_HEADER + 1, end).Length? {
      var r := Decode(b, FRAME_HEADER + 1, end);
      ScanKeepsValues(StartScan(subs), b, r.start, r.start + r.size, end);
      var (complete, s) := ScanFrom(StartScan(subs), b, r.start, r.start + r.size, end);
      if complete && s.matching.Some? {
        ScanWindow(StartScan(subs), b, r.start, r.start + r.size, end);
        DeliveryWellSized(s.subs[s.matching.value], s, b, now);
      }
    }
  }

  lemma ScanDone(s: Scan, b: seq<byte>, pos: nat, gooseEnd: nat, apduEnd: nat)
    requires ValidScan(s) && Buffered(b, apduEnd) && gooseEnd <= apduEnd && gooseEnd <= pos
    ensures ScanFrom(s, b, pos, gooseEnd, apduEnd) == (true, s)
  {
  }
}
