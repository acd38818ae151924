/** What the subscriber does with a sampled-values frame (sv_subscriber.cc): nested scans that note where each
    field is, string terminators written into the receive buffer, one listener call per ASDU. */
module SvParsing {
  import opened Octets
  import opened BerLength
  import opened MmsValues
  import opened EthernetFrames

  datatype Region = Region(start: nat, size: nat)

  /** The fields found in an ASDU, by tag; a tag that is not there stands for a null pointer. */
  type Found = map<byte, Region>

  /** A listener call: the fields found, and the receive buffer at that moment. */
  datatype Call = Call(found: Found, buffer: seq<byte>)

  function Noted(f: Found, tag: byte, r: Region): (g: Found) {
    if 0x80 <= tag <= 0x88 then f[tag := r] else f
  }

  predicate Inside(f: Found, end: nat) {
    forall t :: t in f ==> f[t].start + f[t].size <= end
  }

  /** The loop of parseASDU over b[pos..end]; None if a length cannot be decoded. */
  function ScanAsdu(b: seq<byte>, pos: nat, end: nat, f: Found): (r: Option<Found>)
    requires end <= |b| && Inside(f, end)
    ensures r.Some? ==> Inside(r.value, end)
    decreases end - pos
  {
    if pos >= end then Some(f)
    else
      match Decode(b, pos + 1, end)
      case Malformed => None
      case Length(start, size) => ScanAsdu(b, start + size, end, Noted(f, b[pos], Region(start, size)))
  }

  /** A zero octet behind the string at tag, if there is one. */
  function Terminated(b: seq<byte>, f: Found, tag: byte): (r: seq<byte>)
    requires tag in f ==> f[tag].start + f[tag].size < |b|
    ensures |r| == |b|
  {
    if tag in f then b[f[tag].start + f[tag].size := 0] else b
  }

  /** parseASDU: svID and datset are terminated in the buffer, then the listener is called. */
  function ParseAsdu(b: seq<byte>, pos: nat, end: nat): (r: (seq<byte>, Option<Call>))
    requires end < |b|
    ensures |r.0| == |b|
  {
    match ScanAsdu(b, pos, end, map[])
    case None => (b, None)
    case Some(f) =>
      var b' := Terminated(Terminated(b, f, 0x80), f, 0x81);
      (b', Some(Call(f, b')))
  }

  /** parseSequenceOfASDU: the buffer afterwards, and the listener calls made. */
  function ParseSequence(b: seq<byte>, pos: nat, end: nat): (r: (seq<byte>, seq<Call>))
    requires end < |b|
    ensures |r.0| == |b|
    decreases end - pos
  {
    if pos >= end then (b, [])
    else
      match Decode(b, pos + 1, end)
      case Malformed => (b, [])
      case Length(start, size) =>
        if b[pos] != 0x30 then ParseSequence(b, start + size, end)
        else
          var (b', call) := ParseAsdu(b, start, start + size);
          var (b'', calls) := ParseSequence(b', start + size, end);
          (b'', (if call.Some? then [call.value] else []) + calls)
  }

  /** The loop of parseSVPayload. */
  function ParseElements(b: seq<byte>, pos: nat, svEnd: nat): (r: (seq<byte>, seq<Call>))
    requires svEnd < |b|
    ensures |r.0| == |b|
    decreases svEnd - pos
  {
    if pos >= svEnd then (b, [])
    else
      match Decode(b, pos + 1, svEnd)
      case Malformed => (b, [])
      case Length(start, size) =>
        if b[pos] != 0xa2 then ParseElements(b, start + size, svEnd)
        else
          var (b', calls) := ParseSequence(b, start, start + size);
          var (b'', rest) := ParseElements(b', start + size, svEnd);
          (b'', calls + rest)
  }

  /** The octets that parseSVPayload looks at are there: the first one, and the window with the octet behind it, where a
      terminator may go, if that is the tag of an SV PDU. */
  predicate Readable(b: seq<byte>, pos: nat, apduEnd: nat) {
    pos < |b| && (b[pos] == 0x60 ==> apduEnd < |b|)
  }

  /** parseSVPayload on b[pos..apduEnd]. */
  function ParsePayload(b: seq<byte>, pos: nat, apduEnd: nat): (r: (seq<byte>, seq<Call>))
    requires Readable(b, pos, apduEnd)
  {
    if b[pos] != 0x60 then (b, [])
    else
      match Decode(b, pos + 1, apduEnd)
      case Malformed => (b, [])
      case Length(start, size) => ParseElements(b, start, start + size)
  }

  function FindAppId(appIds: seq<uint16>, appId: uint16): (r: Option<nat>)
    ensures r.Some? ==> r.value < |appIds| && appIds[r.value] == appId && appId !in appIds[..r.value]
    ensures r.None? ==> appId !in appIds
  {
    if appIds == [] then None
    else if appIds[0] == appId then Some(0)
    else
      match FindAppId(appIds[1..], appId)
      case None => None
      case Some(i) => Some(i + 1)
  }

  /** What becomes of a received frame: which subscriber is served, the buffer afterwards, the listener calls. */
  datatype Reception = Ignored | Served(subscriber: nat, buffer: seq<byte>, calls: seq<Call>)

  /** The subscriber that a frame is for: None if parseSVMessage drops it. */
  function Addressee(appIds: seq<uint16>, b: seq<byte>, numbytes: nat): (r: Option<nat>)
    requires |b| > FRAME_HEADER
  {
    if numbytes < 22 || !HasEtherType(b, SV_ETHER_TYPE) then None
    else FindAppId(appIds, b[4] as int * 256 + b[5] as int)
  }

  /** parseSVMessage with the destination check off, appIds being those of the subscribers in list order. */
  function ParseMessage(appIds: seq<uint16>, b: seq<byte>, numbytes: nat): (r: Reception)
    requires |b| > FRAME_HEADER
    requires Addressee(appIds, b, numbytes).Some? ==> Readable(b, FRAME_HEADER, AnnouncedEnd(b))
  {
    match Addressee(appIds, b, numbytes)
    case None => Ignored
    case Some(i) => var (b', calls) := ParsePayload(b, FRAME_HEADER, AnnouncedEnd(b)); Served(i, b', calls)
  }

  // ----- the getters, which read the buffer as it is during the listener call

  /** n octets from the start of a field on, whatever length was announced for it. */
  function FieldOctets(c: Call, tag: byte, n: nat): (s: seq<byte>) {
    if tag in c.found && c.found[tag].start + n <= |c.buffer| then c.buffer[c.found[tag].start..c.found[tag].start + n]
        else []
  }

  /** getSvId and getDatSet: a C string. */
  function TextAt(c: Call, tag: byte): (s: seq<byte>) {
    if tag in c.found && c.found[tag].start <= |c.buffer| then CString(c.buffer[c.found[tag].start..]) else []
  }

  /** getSmpCnt and getSmpRate. */
  function Number16(c: Call, tag: byte): (v: uint16) {
    var s := FieldOctets(c, tag, 2);
    if |s| == 2 then (s[0] as int) * 256 + s[1] else 0
  }

  /** getConfRev. */
  function Number32(c: Call, tag: byte): (v: uint32) {
    var s := FieldOctets(c, tag, 4);
    if |s| == 4 then (s[0] as int) * 0x100_0000 + (s[1] as int) * 0x1_0000 + (s[2] as int) * 256 + s[3] else 0
  }

  /** getSmpSynch, and getSmpMod although the field has two octets. */
  function Number8(c: Call, tag: byte): (v: byte) {
    var s := FieldOctets(c, tag, 1);
    if |s| == 1 then s[0] else 0
  }

  /** The sample data, getDataSize octets of them. */
  function DataOf(c: Call): (s: seq<byte>) {
    if 0x87 in c.found then FieldOctets(c, 0x87, c.found[0x87].size) else []
  }

  /** getINT8U ... getINT64U, and getFLOAT32/64 as raw bits: the big-endian number in n octets at an index of the
      sample data. */
  function SampleAt(c: Call, index: nat, n: nat): (v: nat) {
    if index + n <= |DataOf(c)| then BigEndian(DataOf(c)[index..index + n]) else 0
  }

  /** getINT8 ... getINT64. */
  function SignedAt(c: Call, index: nat, n: nat): (v: int) {
    if index + n <= |DataOf(c)| then TwosComplement(DataOf(c)[index..index + n]) else 0
  }
}
