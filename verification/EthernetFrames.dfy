/** The Ethernet frame around GOOSE and SV messages alike (prepareGooseBuffer in goose_publisher.cc,
    preparePacketBuffer in sv_publisher.cc), and what the HAL leaves of it. */
module EthernetFrames {
  import opened Octets

  const GOOSE_ETHER_TYPE: uint16 := 0x88b8
  const SV_ETHER_TYPE: uint16 := 0x88ba

  /** The first octet of the tag control information; the sum is kept in eight bits. */
  function TopOctet(priority: byte, vlanId: uint16): (r: byte) {
    (priority as int * 32 + vlanId / 256) % 256
  }

  /** The tag control information as the code computes it, one octet at a time. */
  function TagControl(priority: byte, vlanId: uint16): (tci: uint16) {
    TopOctet(priority, vlanId) as int * 256 + vlanId % 256
  }

  /** It holds the priority in the three upper bits and the VLAN in the twelve lower ones, with the bit between them
      clear (IEEE 802.1Q), exactly for the priorities and VLANs that have so many bits. */
  lemma TagControlExact(priority: byte, vlanId: uint16)
    ensures priority < 8 && vlanId < 0x1000 <==>
            var tci := TagControl(priority, vlanId);
            tci / 0x2000 == priority && tci % 0x1000 == vlanId && tci / 0x1000 % 2 == 0
  {
    var top := TopOctet(priority, vlanId);
    var low := vlanId % 256;
    TagDigits(top, low);
    assert TagControl(priority, vlanId) == top as int * 256 + low;
    hide TagControl;
    if priority < 8 && vlanId < 0x1000 {
      TopDigits(priority, vlanId);
      assert vlanId == vlanId / 256 * 256 + low;
    } else if vlanId < 0x1000 {
      assert top / 32 < 8;
    } else {
      assert top % 16 * 256 + low < 0x1000;
    }
  }

  lemma TopDigits(priority: byte, vlanId: uint16)
    requires priority < 8 && vlanId < 0x1000
    ensures var top := TopOctet(priority, vlanId);
            top / 32 == priority && top % 16 == vlanId / 256 && top / 16 % 2 == 0
  {
    var high := vlanId / 256;
    assert high < 16 && TopOctet(priority, vlanId) == priority * 32 + high;
    assert (priority * 32 + high) / 16 == priority * 2;
  }

  lemma TagDigits(top: byte, low: byte)
    ensures var tci := top as int * 256 + low;
            tci / 0x2000 == top / 32 && tci % 0x1000 == top % 16 * 256 + low && tci / 0x1000 % 2 == top / 16 % 2
  {
    var tci := top as int * 256 + low;
    assert top == top / 16 * 16 + top % 16;
    assert tci == top / 16 * 0x1000 + (top % 16 * 256 + low);
    assert tci / 0x1000 == top / 16;
    assert tci / 0x2000 == tci / 0x1000 / 2 && top / 32 == top / 16 / 2;
  }

  /** The header up to the length field; tci is the VLAN tag control information, if a tag is used. */
  function EthernetHeader(dst: seq<byte>, src: seq<byte>, tci: Option<uint16>, etherType: uint16,
                          appId: uint16): (s: seq<byte>)
    requires |dst| == 6 && |src| == 6
    ensures |s| == if tci.Some? then 20 else 16
  {
    dst + src + (if tci.Some? then [0x81, 0x00] + U16Octets(tci.value) else []) + U16Octets(etherType)
        + U16Octets(appId)
  }

  /** The length field of an empty message and the two reserved words. */
  const EMPTY_LENGTH: seq<byte> := [0x00, 0x08, 0x00, 0x00, 0x00, 0x00]

  lemma HeaderPrepared(b: seq<byte>, head: seq<byte>)
    requires HasAt(b, 0, head + EMPTY_LENGTH)
    ensures HasAt(b, 0, head) && HasAt(b, |head| + 2, [0, 0, 0, 0])
  {
    hide HasAt;
    HasAtSplit(b, 0, head, EMPTY_LENGTH);
    assert EMPTY_LENGTH == EMPTY_LENGTH[..2] + [0, 0, 0, 0];
    HasAtSplit(b, |head|, EMPTY_LENGTH[..2], [0, 0, 0, 0]);
  }

  /** Writes the header at the front of a message buffer, field by field. */
  method PrepareBuffer(buffer: array<byte>, dst: seq<byte>, src: seq<byte>, useVlanTags: bool, priority: byte,
                       vlanId: uint16,
                       etherType: uint16, appId: uint16) returns (lengthField: nat, payloadStart: nat)
    requires |dst| == 6 && |src| == 6 && buffer.Length >= 26
    modifies buffer
    ensures var tci := if useVlanTags then Some(TagControl(priority, vlanId)) else None;
            var header := EthernetHeader(dst, src, tci, etherType, appId);
            && lengthField == |header| && payloadStart == |header| + 6
            && buffer[..] == Splice(old(buffer[..]), 0, header + EMPTY_LENGTH)
  {
    hide Splice;
    ghost var b := buffer[..];
    ghost var tag: seq<byte> := [];
    var bufPos := Copy(buffer, 0, dst);
    bufPos := Copy(buffer, bufPos, src);
    SpliceSplice(b, 0, dst, src);
    if useVlanTags {
      var tci1 := (priority as int * 32 + vlanId / 256) % 256;
      var tci2 := vlanId % 256;
      tag := [0x81, 0x00, tci1, tci2];
      bufPos := Copy(buffer, bufPos, [0x81, 0x00, tci1, tci2]);
      SpliceSplice(b, 0, dst + src, tag);
      TagOctets(priority, vlanId);
    } else {
      assert dst + src + tag == dst + src;
    }
    bufPos := Copy(buffer, bufPos, U16Octets(etherType));
    SpliceSplice(b, 0, dst + src + tag, U16Octets(etherType));
    bufPos := Copy(buffer, bufPos, U16Octets(appId));
    SpliceSplice(b, 0, dst + src + tag + U16Octets(etherType), U16Octets(appId));
    lengthField := bufPos;
    payloadStart := Copy(buffer, bufPos, EMPTY_LENGTH);
    SpliceSplice(b, 0, dst + src + tag + U16Octets(etherType) + U16Octets(appId), EMPTY_LENGTH);
  }

  lemma TagOctets(priority: byte, vlanId: uint16)
    ensures [0x81, 0x00] + U16Octets(TagControl(priority, vlanId)) ==
            [0x81, 0x00, (priority as int * 32 + vlanId / 256) % 256, vlanId % 256]
  {
  }

  // ----- the frame as the HAL passes it on

  /** A tagged frame without its first fourteen octets: tag control information, EtherType, APPID, length, two reserved
      words and the payload p. */
  function Framed(tci: uint16, etherType: uint16, appId: uint16, p: seq<byte>): (s: seq<byte>)
    requires |p| + 8 < 0x1_0000
  {
    U16Octets(tci) + U16Octets(etherType) + U16Octets(appId) + U16Octets(|p| + 8) + [0, 0, 0, 0] + p
  }

  const FRAME_HEADER := 12

  /** The octets of a receive buffer. */
  const ETH_BUFFER_LENGTH := 1518

  /** Where the length field of a received frame says that the payload ends. */
  function AnnouncedEnd(b: seq<byte>): (end: nat)
    requires |b| >= FRAME_HEADER
  {
    FRAME_HEADER + LengthField(b) - 8
  }

  function LengthField(b: seq<byte>): (n: uint16)
    requires |b| >= FRAME_HEADER
  {
    b[6] as int * 256 + b[7] as int
  }

  /** The EtherType, where the receivers look for it. */
  predicate HasEtherType(b: seq<byte>, etherType: uint16)
    requires |b| >= FRAME_HEADER
  {
    b[2] == etherType / 256 && b[3] == etherType % 256
  }

  lemma FramedParts(b: seq<byte>, tci: uint16, etherType: uint16, appId: uint16, p: seq<byte>)
    requires 0 < |p| && |p| + 8 < 0x1_0000 && HasAt(b, 0, Framed(tci, etherType, appId, p))
    ensures |b| > FRAME_HEADER && HasEtherType(b, etherType) && b[4] as int * 256 + b[5] as int == appId
    ensures AnnouncedEnd(b) == FRAME_HEADER + |p|
    ensures HasAt(b, FRAME_HEADER, p) && |Framed(tci, etherType, appId, p)| == FRAME_HEADER + |p|
  {
    var f := Framed(tci, etherType, appId, p);
    HasAtIndex(b, 0, f, 2);
    HasAtIndex(b, 0, f, 3);
    HasAtIndex(b, 0, f, 4);
    HasAtIndex(b, 0, f, 5);
    HasAtIndex(b, 0, f, 6);
    HasAtIndex(b, 0, f, 7);
    assert f == f[..FRAME_HEADER] + p;
    HasAtSplit(b, 0, f[..FRAME_HEADER], p);
  }

  /** The octets a publisher hands to the HAL, behind the fourteen that the HAL drops. */
  function Transmitted(header: seq<byte>, p: seq<byte>): (s: seq<byte>)
    requires |header| >= 14 && |p| + 8 < 0x1_0000
  {
    header[14..] + U16Octets(|p| + 8) + [0, 0, 0, 0] + p
  }

  /** With a VLAN tag that is the frame the receivers expect. */
  lemma TaggedPacket(dst: seq<byte>, src: seq<byte>, tci: uint16, etherType: uint16, appId: uint16, p: seq<byte>)
    requires |dst| == 6 && |src| == 6 && |p| + 8 < 0x1_0000
    ensures Transmitted(EthernetHeader(dst, src, Some(tci), etherType, appId), p) == Framed(tci, etherType, appId, p)
  {
    hide U16Octets;
    assert EthernetHeader(dst, src, Some(tci), etherType, appId)[14..] == U16Octets(tci) + U16Octets(etherType)
        + U16Octets(appId);
  }

  /** Without a tag the fourteen octets include the EtherType, and where the receivers look for it they find the
      length. */
  lemma UntaggedPacket(b: seq<byte>, dst: seq<byte>, src: seq<byte>, etherType: uint16, appId: uint16, p: seq<byte>)
    requires |dst| == 6 && |src| == 6 && |p| + 8 < 0x1_0000 && |b| >= FRAME_HEADER
    requires HasAt(b, 0, Transmitted(EthernetHeader(dst, src, None, etherType, appId), p))
    ensures forall expected: uint16 :: HasEtherType(b, expected) <==> |p| + 8 == expected
  {
    var f := Transmitted(EthernetHeader(dst, src, None, etherType, appId), p);
    assert EthernetHeader(dst, src, None, etherType, appId)[14..] == U16Octets(appId);
    HasAtIndex(b, 0, f, 2);
    HasAtIndex(b, 0, f, 3);
  }
}
