/** The receiver's loops over a sampled-values frame (sv_subscriber.cc), proved to compute SvParsing's functions. */
module SvReceiver {
  import opened Octets
  import opened BerLength
  import opened SvParsing
  import opened EthernetFrames

  lemma ScanStep(b: seq<byte>, pos: nat, end: nat, f: Found)
    requires pos < end <= |b| && Inside(f, end)
    ensures ScanAsdu(b, pos, end, f) ==
            match Decode(b, pos + 1, end)
            case Malformed => None
            case Length(start, size) => ScanAsdu(b, start + size, end, Noted(f, b[pos], Region(start, size)))
  {
    hide Decode;
  }

  lemma SequenceStep(b: seq<byte>, pos: nat, end: nat)
    requires pos < end < |b|
    ensures ParseSequence(b, pos, end) ==
            match Decode(b, pos + 1, end)
            case Malformed => (b, [])
            case Length(start, size) =>
              if b[pos] != 0x30 then ParseSequence(b, start + size, end)
              else
                var one := ParseAsdu(b, start, start + size);
                var rest := ParseSequence(one.0, start + size, end);
                (rest.0, (if one.1.Some? then [one.1.value] else []) + rest.1)
  {
    hide Decode, ParseAsdu;
  }

  lemma SequenceDone(b: seq<byte>, end: nat)
    requires end < |b|
    ensures ParseSequence(b, end, end) == (b, [])
  {
  }

  lemma ElementsStep(b: seq<byte>, pos: nat, svEnd: nat)
    requires pos < svEnd < |b|
    ensures ParseElements(b, pos, svEnd) ==
            match Decode(b, pos + 1, svEnd)
            case Malformed => (b, [])
            case Length(start, size) =>
              if b[pos] != 0xa2 then ParseElements(b, start + size, svEnd)
              else
                var one := ParseSequence(b, start, start + size);
                var rest := ParseElements(one.0, start + size, svEnd);
                (rest.0, one.1 + rest.1)
  {
    hide Decode, ParseSequence;
  }

  lemma ElementsDone(b: seq<byte>, end: nat)
    requires end < |b|
    ensures ParseElements(b, end, end) == (b, [])
  {
  }

  class Receiver {
    const buffer: array<byte>
    var appIds: seq<uint16>

    /** The listener calls made so far. */
    var calls: seq<Call>

    ghost predicate Valid()
      reads this
    {
      buffer.Length == ETH_BUFFER_LENGTH
    }

    constructor ()
      ensures Valid() && fresh(buffer) && appIds == [] && calls == []
    {
      buffer := new byte[ETH_BUFFER_LENGTH];
      appIds, calls := [], [];
    }

    method AddSubscriber(appId: uint16)
      requires Valid()
      modifies `appIds
      ensures appIds == old(appIds) + [appId]
    {
      appIds := appIds + [appId];
    }

    /** The loop of parseASDU. */
    method FindFields(pos: nat, end: nat) returns (ok: bool, found: Found)
      requires Valid() && pos <= end < buffer.Length
      ensures var r := ScanAsdu(buffer[..], pos, end, map[]); if r.Some? then ok && found == r.value else !ok
      ensures Inside(found, end)
    {
      hide Decode, ScanAsdu;
      found := map[];
      var bufPos := pos;
      while bufPos < end
        invariant pos <= bufPos <= end && Inside(found, end)
        invariant ScanAsdu(buffer[..], pos, end, map[]) == ScanAsdu(buffer[..], bufPos, end, found)
        decreases end - bufPos
      {
        ScanStep(buffer[..], bufPos, end, found);
        var tag := buffer[bufPos];
        var elementLength, start := DecodeLength(buffer[..], bufPos + 1, end);
        if start < 0 {
          return false, found;
        }
        if 0x80 <= tag <= 0x88 {
          found := found[tag := Region(start, elementLength)];
        }
        bufPos := start + elementLength;
      }
      ok := true;
      assert ScanAsdu(buffer[..], bufPos, end, found) == Some(found) by { ScanEnd(buffer[..], bufPos, end, found); }
    }

    /** parseASDU: terminators, then the listener. */
    method ParseASDU(pos: nat, end: nat)
      requires Valid() && pos <= end < buffer.Length
      modifies buffer, `calls
      ensures var r := ParseAsdu(old(buffer[..]), pos, end);
              && buffer[..] == r.0
              && calls == old(calls) + if r.1.Some? then [r.1.value] else []
    {
      hide ScanAsdu;
      var ok, found := FindFields(pos, end);
      if !ok {
        return;
      }
      if 0x80 in found {
        buffer[found[0x80].start + found[0x80].size] := 0;
      }
      if 0x81 in found {
        buffer[found[0x81].start + found[0x81].size] := 0;
      }
      calls := calls + [Call(found, buffer[..])];
    }

    /** parseSequenceOfASDU. */
    method ParseSequenceOfASDU(pos: nat, end: nat)
      requires Valid() && pos <= end < buffer.Length
      modifies buffer, `calls
      ensures var r := ParseSequence(old(buffer[..]), pos, end); buffer[..] == r.0 && calls == old(calls) + r.1
    {
      hide Decode, ParseAsdu, ParseSequence;
      var bufPos := pos;
      ghost var made: seq<Call> := [];
      while bufPos < end
        invariant pos <= bufPos <= end && calls == old(calls) + made
        invariant var r := ParseSequence(old(buffer[..]), pos, end); var rest := ParseSequence(buffer[..], bufPos, end);
                  r.0 == rest.0 && r.1 == made + rest.1
        decreases end - bufPos
      {
        SequenceStep(buffer[..], bufPos, end);
        var tag := buffer[bufPos];
        var elementLength, start := DecodeLength(buffer[..], bufPos + 1, end);
        if start < 0 {
          return;
        }
        if tag == 0x30 {
          ghost var call := ParseAsdu(buffer[..], start, start + elementLength).1;
          ParseASDU(start, start + elementLength);
          made := made + if call.Some? then [call.value] else [];
        }
        bufPos := start + elementLength;
      }
      SequenceDone(buffer[..], end);
    }

    /** parseSVPayload. */
    method ParseSVPayload(pos: nat, apduEnd: nat)
      requires Valid() && Readable(buffer[..], pos, apduEnd)
      modifies buffer, `calls
      ensures var r := ParsePayload(old(buffer[..]), pos, apduEnd); buffer[..] == r.0 && calls == old(calls) + r.1
    {
      hide Decode, ParseSequence, ParseElements;
      if buffer[pos] != 0x60 {
        return;
      }
      var elementLength, bufPos := DecodeLength(buffer[..], pos + 1, apduEnd);
      if bufPos < 0 {
        return;
      }
      var svEnd := bufPos + elementLength;
      ghost var first, made: seq<Call> := bufPos, [];
      while bufPos < svEnd
        invariant first <= bufPos <= svEnd <= apduEnd && calls == old(calls) + made
        invariant var r := ParseElements(old(buffer[..]), first, svEnd);
                  var rest := ParseElements(buffer[..], bufPos, svEnd);
                  r.0 == rest.0 && r.1 == made + rest.1
        decreases svEnd - bufPos
      {
        ElementsStep(buffer[..], bufPos, svEnd);
        var tag := buffer[bufPos];
        var size, start := DecodeLength(buffer[..], bufPos + 1, svEnd);
        if start < 0 {
          return;
        }
        if tag == 0xa2 {
          made := made + ParseSequence(buffer[..], start, start + size).1;
          ParseSequenceOfASDU(start, start + size);
        }
        bufPos := start + size;
      }
      ElementsDone(buffer[..], svEnd);
    }

    /** The walk along the subscriber list. */
    method FindSubscriber(appId: uint16) returns (r: Option<nat>)
      ensures r == FindAppId(appIds, appId)
    {
      var i := 0;
      while i < |appIds|
        invariant 0 <= i <= |appIds|
        invariant var rest := FindAppId(appIds[i..], appId);
                  FindAppId(appIds, appId) == if rest.None? then None else Some(i + rest.value)
      {
        assert appIds[i..][1..] == appIds[i + 1..];
        if appIds[i] == appId {
          return Some(i);
        }
        i := i + 1;
      }
      return None;
    }

    /** parseSVMessage, with the destination check off. */
    method ParseSVMessage(numbytes: nat) returns (served: Option<nat>)
      requires Valid()
      requires Addressee(appIds, buffer[..], numbytes).Some? ==>
                 Readable(buffer[..], FRAME_HEADER, AnnouncedEnd(buffer[..]))
      modifies buffer, `calls
      ensures var r := ParseMessage(old(appIds), old(buffer[..]), numbytes);
              if r.Served? then served == Some(r.subscriber) && buffer[..] == r.buffer && calls == old(calls) + r.calls
              else served == None && buffer[..] == old(buffer[..]) && calls == old(calls)
    {
      hide ParsePayload, FindAppId;
      if numbytes < 22 || buffer[2] != 0x88 || buffer[3] != 0xba {
        return None;
      }
      served := FindSubscriber(buffer[4] as int * 256 + buffer[5] as int);
      if served.Some? {
        ParseSVPayload(FRAME_HEADER, AnnouncedEnd(buffer[..]));
      }
    }
  }

  lemma ScanEnd(b: seq<byte>, pos: nat, end: nat, f: Found)
    requires pos == end <= |b| && Inside(f, end)
    ensures ScanAsdu(b, pos, end, f) == Some(f)
  {
  }
}
