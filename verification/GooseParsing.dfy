/** What the receiver does with a GOOSE frame (goose_receiver.cc): the header scan, the choice of subscriber,
    and the update of that subscriber.  Functions only; GooseReceiver has the loops. */
module GooseParsing {
  import opened Octets
  import opened BerLength
  import opened MmsValues
  import opened DataSets
  import opened SequenceNumbers
  import opened EthernetFrames
  import BerInteger

  /** A subscriber's state.  goCbRef, datSet and goId are the stored C strings, goCbRefLen is the length of the
      reference it was created with, and values is its data set. */
  datatype Subscriber = Subscriber(
    goCbRef: seq<byte>, goCbRefLen: nat, datSet: seq<byte>, goId: seq<byte>,
    timeAllowedToLive: uint32, stNum: uint32, sqNum: uint32, confRev: uint32,
    timestamp: seq<byte>, simulation: bool, ndsCom: bool,
    invalidityTime: nat, stateValid: bool, parseError: ParseError,
    values: Option<seq<MmsValue>>, selfAllocated: bool, isObserver: bool)

  const MAX_REFERENCE := 129

  /** The octets a parser may read behind a window: a timestamp is copied as eight octets whatever its length. */
  const SLACK := 8

  predicate Buffered(b: seq<byte>, end: nat) {
    end + SLACK <= |b| && end <= MAX_WINDOW
  }

  /** GooseSubscriber_create: of a longer reference 129 characters are stored, but all are counted. */
  function NewSubscriber(goCbRef: seq<byte>, values: Option<seq<MmsValue>>): (s: Subscriber) {
    Subscriber(if |goCbRef| > MAX_REFERENCE then goCbRef[..MAX_REFERENCE] else goCbRef, |goCbRef|, [], [], 0, 0, 0, 0,
        [0, 0, 0, 0, 0, 0, 0, 0], false, false, 0, false, NoError, values,
               values.None?, false)
  }

  /** GooseSubscriber_isValid at clock reading now, in milliseconds. */
  predicate IsValid(s: Subscriber, now: nat) {
    s.stateValid && now <= s.invalidityTime
  }

  /** The comparison with the reference of a message: the length first, then the characters. */
  predicate Subscribes(sub: Subscriber, ref: seq<byte>) {
    sub.goCbRefLen == |ref| && sub.goCbRef == ref
  }

  /** A new subscriber is served for exactly the reference it was created with if that has at most 129 characters, and
      for none at all if it has more. */
  lemma CreatedSubscribes(goCbRef: seq<byte>, values: Option<seq<MmsValue>>, ref: seq<byte>)
    ensures Subscribes(NewSubscriber(goCbRef, values), ref) <==> |goCbRef| <= MAX_REFERENCE && ref == goCbRef
  {
  }

  /** The first subscriber that observes everything or subscribes to this control block. */
  function FindMatch(subs: seq<Subscriber>, ref: seq<byte>): (r: Option<nat>)
    ensures r.Some? ==> r.value < |subs| && (subs[r.value].isObserver || Subscribes(subs[r.value], ref))
    ensures r.Some? ==> forall i :: 0 <= i < r.value ==> !subs[i].isObserver && !Subscribes(subs[i], ref)
    ensures r.None? ==> forall i :: 0 <= i < |subs| ==> !subs[i].isObserver && !Subscribes(subs[i], ref)
  {
    if subs == [] then None
    else if subs[0].isObserver || Subscribes(subs[0], ref) then Some(0)
    else
      match FindMatch(subs[1..], ref)
      case None => None
      case Some(i) => Some(i + 1)
  }

  /** The local variables of the header scan, and the subscriber list it writes to. */
  datatype Scan = Scan(
    subs: seq<Subscriber>, matching: Option<nat>,
    timeAllowedToLive: uint32, stNum: uint32, sqNum: uint32, confRev: uint32, simulation: bool, ndsCom: bool,
    timestamp: Option<seq<byte>>, dataStart: nat, dataSize: nat)

  function StartScan(subs: seq<Subscriber>): (s: Scan) {
    Scan(subs, None, 0, 0, 0, 0, false, false, None, 0, 0)
  }

  predicate ValidScan(s: Scan) {
    s.matching.Some? ==> s.matching.value < |s.subs|
  }

  /** gocbRef: an observer stores the reference; with no match so far the message is abandoned. */
  function ScanReference(s: Scan, c: seq<byte>): (r: Option<Scan>)
    requires ValidScan(s)
    ensures r.Some? ==> ValidScan(r.value) && |r.value.subs| == |s.subs|
  {
    match FindMatch(s.subs, c)
    case None => if s.matching.Some? then Some(s) else None
    case Some(i) =>
      var sub := s.subs[i];
      var subs := if sub.isObserver && |c| <= MAX_REFERENCE then s.subs[i := sub.(goCbRef := c)] else s.subs;
      Some(s.(subs := subs, matching := Some(i)))
  }

  function ScanText(s: Scan, tag: byte, c: seq<byte>): (r: Scan)
    requires ValidScan(s)
    ensures ValidScan(r) && |r.subs| == |s.subs|
  {
    if s.matching.None? || |c| > MAX_REFERENCE then s
    else
      var sub := s.subs[s.matching.value];
      s.(subs := s.subs[s.matching.value := if tag == 0x82 then sub.(datSet := c) else sub.(goId := c)])
  }

  /** The effect of one header element with contents b[start..start + size]. */
  function ScanElement(s: Scan, b: seq<byte>, tag: byte, start: nat, size: nat): (r: Option<Scan>)
    requires ValidScan(s) && start + size + SLACK <= |b|
    ensures r.Some? ==> ValidScan(r.value) && |r.value.subs| == |s.subs|
  {
    var c := b[start..start + size];
    if tag == 0x80 then ScanReference(s, c)
    else Some(
      if tag == 0x81 then s.(timeAllowedToLive := BerInteger.DecodedUint32(c))
      else if tag == 0x82 || tag == 0x83 then ScanText(s, tag, c)
      else if tag == 0x84 then s.(timestamp := Some(b[start..start + 8]))
      else if tag == 0x85 then s.(stNum := BerInteger.DecodedUint32(c))
      else if tag == 0x86 then s.(sqNum := BerInteger.DecodedUint32(c))
      else if tag == 0x87 then s.(simulation := b[start] != 0)
      else if tag == 0x88 then s.(confRev := BerInteger.DecodedUint32(c))
      else if tag == 0x89 then s.(ndsCom := b[start] != 0)
      else if tag == 0xab then s.(dataStart := start, dataSize := size)
      else s)
  }

  /** Why a payload was not delivered to any subscriber. */
  datatype Outcome = Fault | Ignored | Delivered

  /** The scan of b[pos..gooseEnd]; element lengths are checked against the end of the APDU. */
  function ScanFrom(s: Scan, b: seq<byte>, pos: nat, gooseEnd: nat, apduEnd: nat): (r: (bool, Scan))
    requires ValidScan(s) && Buffered(b, apduEnd) && gooseEnd <= apduEnd
    ensures ValidScan(r.1) && |r.1.subs| == |s.subs|
    decreases apduEnd - pos
  {
    if pos >= gooseEnd then (true, s)
    else
      match Decode(b, pos + 1, apduEnd)
      case Malformed => (false, s)
      case Length(start, size) =>
        match ScanElement(s, b, b[pos], start, size)
        case None => (false, s)
        case Some(s') => ScanFrom(s', b, start + size, gooseEnd, apduEnd)
  }

  /** The subscriber after its data set was learned or refreshed from b[start..start + size], and whether the
      data were accepted.  Data learned for the first time always count as accepted. */
  function TakeData(sub: Subscriber, b: seq<byte>, start: nat, size: nat): (r: (bool, Subscriber))
    requires Window(b, start, start + size)
  {
    match sub.values
    case None =>
      var learned := Learn(b, start, start + size, false);
      (true, if learned.None? then sub else sub.(values := Some(learned.value.elements), selfAllocated := true))
    case Some(vs) =>
      var (pe, vs') := Refresh(b, start, start + size, vs);
      (pe == NoError, sub.(values := Some(vs'), parseError := pe))
  }

  /** The matching subscriber with the scanned header stored.  A data set the receiver allocated itself is
      dropped when confRev changes, an observer's always. */
  function Prepared(sub: Subscriber, s: Scan): (r: Subscriber) {
    var forget := (sub.selfAllocated && sub.confRev != s.confRev) || sub.isObserver;
    sub.(timeAllowedToLive := s.timeAllowedToLive, ndsCom := s.ndsCom, simulation := s.simulation, confRev := s.confRev,
         timestamp := if s.timestamp.Some? then s.timestamp.value
                      else [0, 0, 0, 0] + (if |sub.timestamp| >= 4 then sub.timestamp[4..] else []),
         values := if forget then None else sub.values)
  }

  /** The update of the matching subscriber after a complete scan. */
  function Deliver(sub: Subscriber, s: Scan, b: seq<byte>, now: nat): (r: Subscriber)
    requires Window(b, s.dataStart, s.dataStart + s.dataSize)
  {
    Judged(sub, s, TakeData(Prepared(sub, s), b, s.dataStart, s.dataSize), now)
  }

  /** The verdict on a message: the data were accepted and the numbers moved on. */
  function Judged(sub: Subscriber, s: Scan, taken: (bool, Subscriber), now: nat): (r: Subscriber) {
    taken.1.(stateValid := taken.0 && InSequence(Numbers(sub.stNum, sub.sqNum), Numbers(s.stNum, s.sqNum)),
           stNum := s.stNum, sqNum := s.sqNum, invalidityTime := now + s.timeAllowedToLive)
  }

  /** The octets that parseGoosePayload looks at are there: the first one, and all of the window if that is the tag of a
      GOOSE PDU. */
  predicate Readable(b: seq<byte>, pos: nat, apduEnd: nat) {
    pos < |b| && (b[pos] == 0x61 ==> Buffered(b, apduEnd))
  }

  /** parseGoosePayload on b[pos..apduEnd]. */
  function ParsePayload(subs: seq<Subscriber>, b: seq<byte>, pos: nat, apduEnd: nat,
                        now: nat): (r: (Outcome, seq<Subscriber>))
    requires Readable(b, pos, apduEnd)
    ensures |r.1| == |subs|
  {
    if b[pos] != 0x61 then (Fault, subs)
    else
      match Decode(b, pos + 1, apduEnd)
      case Malformed => (Ignored, subs)
      case Length(start, size) =>
        var (complete, s) := ScanFrom(StartScan(subs), b, start, start + size, apduEnd);
        if !complete || s.matching.None? then (Ignored, s.subs)
        else
          ScanWindow(StartScan(subs), b, start, start + size, apduEnd);
          var i := s.matching.value;
          (Delivered, s.subs[i := Deliver(s.subs[i], s, b, now)])
  }

  lemma {:induction false} ScanWindow(s: Scan, b: seq<byte>, pos: nat, gooseEnd: nat, apduEnd: nat)
    requires ValidScan(s) && Buffered(b, apduEnd) && gooseEnd <= apduEnd
    requires s.dataStart + s.dataSize <= apduEnd
    ensures var r := ScanFrom(s, b, pos, gooseEnd, apduEnd).1; r.dataStart + r.dataSize <= apduEnd
    decreases apduEnd - pos
  {
    hide Decode, BerInteger.DecodedUint32, ScanReference, ScanText;
    if pos < gooseEnd && Decode(b, pos + 1, apduEnd).Length? {
      var r := Decode(b, pos + 1, apduEnd);
      ScanElementWindow(s, b, b[pos], r.start, r.size);
      var s' := ScanElement(s, b, b[pos], r.start, r.size);
      if s'.Some? {
        ScanWindow(s'.value, b, r.start + r.size, gooseEnd, apduEnd);
      }
    }
  }

  lemma ScanElementWindow(s: Scan, b: seq<byte>, tag: byte, start: nat, size: nat)
    requires ValidScan(s) && start + size + SLACK <= |b|
    ensures var r := ScanElement(s, b, tag, start, size);
            r.Some? ==>
              (r.value.dataStart == s.dataStart && r.value.dataSize == s.dataSize) ||
              (r.value.dataStart == start && r.value.dataSize == size)
  {
  }

  /** A frame that parseGooseMessage does not drop at once. */
  predicate Addressed(b: seq<byte>, numbytes: nat)
    requires |b| > FRAME_HEADER
  {
    numbytes >= 22 && HasEtherType(b, GOOSE_ETHER_TYPE)
  }

  /** parseGooseMessage on a frame as the HAL delivers it, of which numbytes octets were received. */
  function ParseMessage(subs: seq<Subscriber>, b: seq<byte>, numbytes: nat, now: nat): (r: (Outcome, seq<Subscriber>))
    requires |b| > FRAME_HEADER && (Addressed(b, numbytes) ==> Readable(b, FRAME_HEADER, AnnouncedEnd(b)))
    ensures |r.1| == |subs|
  {
    if !Addressed(b, numbytes) then (Ignored, subs)
    else ParsePayload(subs, b, FRAME_HEADER, AnnouncedEnd(b), now)
  }
}
