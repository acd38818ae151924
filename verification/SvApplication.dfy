/** The sampled-values application as the object it is (sv-publisher-app.cc), on top of the patched message buffer.
    Its handlers are proved to do what SvBatching's functions say; what a subscriber application reads from the frames
    sent (sv-subscriber-app.cc) follows. */
module SvApplication {
  import opened Octets
  import opened TlvSlots
  import opened SvFrames
  import opened SvParsing
  import opened SvBatching
  import opened EthernetFrames
  import SvRoundTrip
  import SvPublisher
  import BerInteger
  import opened MmsValues
  import Timestamps

  /** Eight floats of four octets each. */
  predicate Floats(values: seq<seq<byte>>) {
    |values| == 8 && forall i :: 0 <= i < 8 ==> |values[i]| == 4
  }

  const SAMPLE_SIZE := 40

  /** The communication parameters that a publisher created without any gets. */
  const DESTINATION: seq<byte> := [0x01, 0x0c, 0xcd, 0x01, 0x00, 0x01]
  const PRIORITY: byte := 4
  const VLAN_ID: uint16 := 0
  const APP_ID: uint16 := 0x4000

  function AppHeader(src: seq<byte>): (s: seq<byte>)
    requires |src| == 6
    ensures |s| == 20
  {
    EthernetHeader(DESTINATION, src, Some(TagControl(PRIORITY, VLAN_ID)), SV_ETHER_TYPE, APP_ID)
  }

  /** The sample data of one reading: the floats in wire order and the time of measurement, quality clear. */
  function SampleOctets(values: seq<seq<byte>>, now: nat): (s: seq<byte>)
  {
    Concat(values) + (Timestamps.NsTime(now) + [0])
  }

  lemma {:induction false} FloatsLength(values: seq<seq<byte>>, i: nat)
    requires Floats(values) && i <= 8
    ensures |Concat(values[..i])| == 4 * i
    decreases i
  {
    hide Concat;
    if i > 0 {
      FloatsLength(values, i - 1);
      ConcatSnoc(values, i - 1);
    } else {
      ConcatNone(values);
    }
  }

  lemma ConcatNone(values: seq<seq<byte>>)
    ensures Concat(values[..0]) == []
  {
  }

  /** Data whose first i floats are written. */
  function Partly(values: seq<seq<byte>>, i: nat, data: seq<byte>): (s: seq<byte>)
    requires i <= |values| && 4 * i <= |data|
  {
    Concat(values[..i]) + data[4 * i..]
  }

  lemma PartlyNext(values: seq<seq<byte>>, i: nat, data: seq<byte>)
    requires Floats(values) && i < 8 && |data| == SAMPLE_SIZE
    ensures |Partly(values, i, data)| == SAMPLE_SIZE
    ensures Partly(values, i + 1, data) == Splice(Partly(values, i, data), 4 * i, values[i])
  {
    hide Concat;
    FloatsLength(values, i);
    ConcatSnoc(values, i);
  }

  lemma PartlyAll(values: seq<seq<byte>>, data: seq<byte>, now: nat)
    requires Floats(values) && |data| == SAMPLE_SIZE
    ensures |Partly(values, 8, data)| == SAMPLE_SIZE
    ensures Splice(Partly(values, 8, data), 32, Timestamps.NsTime(now) + [0]) == SampleOctets(values, now)
    ensures |SampleOctets(values, now)| == SAMPLE_SIZE
  {
    hide Concat, Timestamps.NsTime;
    FloatsLength(values, 8);
    assert values[..8] == values;
  }

  /** The block of an ASDU as StartApplication prepares it. */
  function AppBlock(id: seq<byte>): (k: SvPublisher.Block) {
    SvPublisher.Block(id, None, SAMPLE_SIZE, false, false, false, 0, 0, 0xffff, 1, 0, 0, None, None, None, None)
  }

  /** A message that was on the wire. */
  predicate Sent(header: seq<byte>, xs: seq<Asdu>, packet: seq<byte>) {
    && |header| >= 14 && |xs| < 0x1_0000_0000 && AllValid(xs) && TotalSize(xs) < 65535 && |SvPayload(xs)| + 8 < 0x1_0000
    && packet == Transmitted(header, SvPayload(xs))
  }

  /** The loop of StartApplication over the ASDUs of a message: eight floats and a timestamp each. */
  method AddAsdus(p: SvPublisher.Publisher, svIds: seq<seq<byte>>)
    requires p.Valid() && !p.laidOut && p.asdus == []
    modifies p
    ensures p.Valid() && !p.laidOut && |p.asdus| == |svIds|
    ensures forall j :: 0 <= j < |svIds| ==> p.asdus[j] == AppBlock(svIds[j])
  {
    var j := 0;
    while j < |svIds|
      invariant 0 <= j <= |svIds| && p.Valid() && !p.laidOut && |p.asdus| == j
      invariant forall k :: 0 <= k < j ==> p.asdus[k] == AppBlock(svIds[k])
    {
      AddOne(p, svIds[j]);
      j := j + 1;
    }
  }

  method AddOne(p: SvPublisher.Publisher, id: seq<byte>)
    requires p.Valid() && !p.laidOut
    modifies p
    ensures p.Valid() && !p.laidOut && p.asdus == old(p.asdus) + [AppBlock(id)]
  {
    var j := p.AddASDU(id, None, 1);
    var i := 0;
    while i < 8
      invariant 0 <= i <= 8 && p.Valid() && !p.laidOut
      invariant p.asdus == old(p.asdus) + [AppBlock(id).(dataSize := 4 * i)]
    {
      var offset := p.Reserve(j, 4);
      assert offset == 4 * i;
      i := i + 1;
    }
    var ts := p.Reserve(j, 8);
    assert ts == 32;
  }

  /** Eight such ASDUs are well below the message size. */
  lemma {:induction false} AppSize(ks: seq<SvPublisher.Block>)
    requires forall j :: 0 <= j < |ks| ==> ks[j] == AppBlock(ks[j].svId) && |ks[j].svId| <= 64
    ensures SvPublisher.BlocksSize(ks) <= 123 * |ks|
  {
    hide SvPublisher.BlockSize, AnnounceSize, AppBlock;
    if ks != [] {
      AppBlockSize(ks[0]);
      AppSize(ks[1..]);
    }
  }

  lemma AppBlockSize(k: SvPublisher.Block)
    requires k == AppBlock(k.svId) && |k.svId| <= 64
    ensures SvPublisher.BlockSize(k) + AnnounceSize(SvPublisher.BlockSize(k)) <= 122
  {
    hide AnnounceSize;
    AnnounceShort(|k.svId|);
    AnnounceShort(k.dataSize);
    AnnounceShort(SvPublisher.BlockSize(k));
  }

  lemma AppAsdu(k: SvPublisher.Block, a: Asdu)
    requires SvPublisher.Represents(k, a) && k == AppBlock(k.svId)
    ensures |a.data| == SAMPLE_SIZE && a.smpCnt == 0
  {
    hide BodySize, SvPublisher.BlockSize;
  }

  lemma HeadSize(n: uint32, total: nat)
    ensures |ApduHead(n, total)| <= 20
  {
    hide BerInteger.UIntOctets, Announce;
  }

  class Application {
    const publisher: SvPublisher.Publisher
    const samplesPerMessage: nat
    var count: nat
    var sent: nat
    var sampleIndex: nat
    var pending: bool

    /** The frames sent, and the messages they hold. */
    var packets: seq<seq<byte>>
    ghost var messages: seq<seq<Asdu>>

    ghost predicate Valid()
      reads this, publisher, publisher.buffer
    {
      && publisher.Valid() && publisher.laidOut
      && 1 <= samplesPerMessage <= 8 && sampleIndex < samplesPerMessage
      && |publisher.asdus| == |publisher.content| == samplesPerMessage
      && (forall j :: 0 <= j < samplesPerMessage ==>
            |publisher.content[j].data| == SAMPLE_SIZE && publisher.asdus[j].smpCntLimit == SMP_CNT_LIMIT)
      && |packets| == |messages|
      && forall m :: 0 <= m < |packets| ==> Sent(publisher.header, messages[m], packets[m])
    }

    ghost function State(): (s: Batch)
      reads this, publisher
    {
      Batch(samplesPerMessage, count, sent, sampleIndex, pending, publisher.content, messages)
    }

    /** StartApplication, given the octets that the saved identifier pointers show when the message is laid out. */
    constructor (src: seq<byte>, svIds: seq<seq<byte>>, maxPackets: nat)
      requires |src| == 6 && 1 <= |svIds| <= 8 && forall j :: 0 <= j < |svIds| ==> |svIds[j]| <= 64
      ensures Valid() && fresh(publisher) && fresh(publisher.buffer) && publisher.header == AppHeader(src)
      ensures samplesPerMessage == |svIds| && Start(State(), maxPackets)
    {
      hide ApduHead, SvPublisher.BlocksSize, SvPublisher.Publisher.Valid, SvPublisher.Represents, Sent, EthernetHeader;
      var p := new SvPublisher.Publisher(DESTINATION, src, true, PRIORITY, VLAN_ID, APP_ID);
      AddAsdus(p, svIds);
      ghost var ks := p.asdus;
      AppSize(ks);
      HeadSize(|ks|, SvPublisher.BlocksSize(ks));
      p.SetupComplete();
      publisher, samplesPerMessage := p, |svIds|;
      count := if maxPackets == 0 then UNLIMITED else maxPackets;
      sent, sampleIndex, pending, packets, messages := 0, 0, true, [], [];
      forall j | 0 <= j < |ks| ensures |p.content[j].data| == SAMPLE_SIZE && p.content[j].smpCnt == 0 {
        AppAsdu(ks[j], p.content[j]);
      }
    }

    /** Send: the message is published. */
    method Send()
      requires Valid() && count > 0
      modifies this
      ensures Valid() && State() == old(State()).(count := old(count) - 1, sent := old(sent) + 1,
                                                  messages := old(messages) + [publisher.content])
    {
      hide SvPublisher.Tracks, TotalSize, SvPayload, AllValid, U16Octets;
      var packet := publisher.Publish();
      packets := packets + [packet];
      messages := messages + [publisher.content];
      count := count - 1;
      sent := sent + 1;
    }

    /** Measure, for a reading taken now. */
    method Measure(values: seq<seq<byte>>, now: nat)
      requires Valid() && pending && Floats(values)
      modifies this, publisher, publisher.buffer
      ensures Valid() && State() == Measured(old(State()), SampleOctets(values, now))
    {
      hide SvPublisher.Tracks, TotalSize, SvPayload, AllValid, SampleOctets, Sent, Sampled;
      if count == 0 {
        pending := false;
        return;
      }
      Fill(sampleIndex, values, now);
      sampleIndex := sampleIndex + 1;
      if sampleIndex == samplesPerMessage {
        sampleIndex := 0;
        Send();
      }
    }

    /** Writes the floats of a reading into ASDU j of the message. */
    method WriteFloats(j: nat, values: seq<seq<byte>>)
      requires Valid() && j < samplesPerMessage && Floats(values)
      modifies publisher, publisher.buffer
      ensures Valid() && publisher.asdus == old(publisher.asdus) && |old(publisher.content[j].data)| == SAMPLE_SIZE
      ensures publisher.content ==
              old(publisher.content)[j := old(publisher.content[j]).(data :=
                  Partly(values, 8, old(publisher.content[j].data)))]
    {
      hide SvPublisher.Publisher.Valid, Sent, Splice, Partly;
      ghost var xs := publisher.content;
      ghost var a := xs[j];
      PartlyNone(values, a.data);
      assert xs == xs[j := a.(data := Partly(values, 0, a.data))];
      var i := 0;
      while i < 8
        invariant 0 <= i <= 8 && Valid() && publisher.asdus == old(publisher.asdus)
        invariant publisher.content == xs[j := a.(data := Partly(values, i, a.data))]
      {
        PartlyNext(values, i, a.data);
        publisher.SetData(j, 4 * i, values[i]);
        i := i + 1;
      }
    }

    /** Writes one reading into ASDU j of the message. */
    method Fill(j: nat, values: seq<seq<byte>>, now: nat)
      requires Valid() && j < samplesPerMessage && Floats(values)
      modifies publisher, publisher.buffer
      ensures Valid()
      ensures publisher.content == old(publisher.content)[j :=
              Sampled(old(publisher.content[j]), SampleOctets(values, now))]
    {
      hide SvPublisher.Publisher.Valid, Sent, SampleOctets, Splice, Partly, Timestamps.NsTime;
      ghost var a := publisher.content[j];
      WriteFloats(j, values);
      PartlyAll(values, a.data, now);
      publisher.CounterTracked(j);
      publisher.IncreaseSmpCnt(j);
      publisher.SetData(j, 32, Timestamps.NsTime(now) + [0]);
    }
  }

  lemma PartlyNone(values: seq<seq<byte>>, data: seq<byte>)
    ensures Partly(values, 0, data) == data
  {
    ConcatNone(values);
  }

  // ----- what a subscriber application reads

  /** The fields of a reading, where the subscriber application looks for them: the floats as sent, the time at most
      60 ns early. */
  lemma SampleFields(c: Call, values: seq<seq<byte>>, now: nat)
    requires Floats(values) && DataOf(c) == SampleOctets(values, now)
    ensures |DataOf(c)| == SAMPLE_SIZE
    ensures forall i :: 0 <= i < 8 ==> SampleAt(c, 4 * i, 4) == BigEndian(values[i])
    ensures now % Timestamps.NS_LIMIT - 60 <= Timestamps.InNs(DataOf(c)[32..39]) <= now % Timestamps.NS_LIMIT
  {
    hide Concat, Timestamps.NsTime, Timestamps.InNs, BigEndian, DataOf;
    PartlyAll(values, seq(SAMPLE_SIZE, _ => 0), now);
    FloatsLength(values, 8);
    assert values[..8] == values;
    forall i | 0 <= i < 8 ensures SampleAt(c, 4 * i, 4) == BigEndian(values[i]) {
      FloatAt(values, i);
      assert SampleOctets(values, now)[4 * i..4 * i + 4] == Concat(values)[4 * i..4 * i + 4];
    }
    assert DataOf(c)[32..39] == Timestamps.NsTime(now);
    Timestamps.NsLoss(now);
  }

  lemma FloatAt(values: seq<seq<byte>>, i: nat)
    requires Floats(values) && i < 8
    ensures |Concat(values)| == 32 && Concat(values)[4 * i..4 * i + 4] == values[i]
  {
    hide Concat;
    FloatsLength(values, i);
    FloatsLength(values, 8);
    assert values[..8] == values;
    ConcatSplit(values, i);
  }

  /** A reading, as Measure takes it. */
  datatype Sample = Sample(values: seq<seq<byte>>, time: nat)

  predicate Measurable(r: Sample) {
    Floats(r.values)
  }

  /** The listener call c shows reading r with sample counter n. */
  predicate Shows(c: Call, r: Sample, n: nat)
    requires Measurable(r)
  {
    && Number16(c, 0x82) == n && |DataOf(c)| == SAMPLE_SIZE
    && (forall i :: 0 <= i < 8 ==> SampleAt(c, 4 * i, 4) == BigEndian(r.values[i]))
    && r.time % Timestamps.NS_LIMIT - 60 <= Timestamps.InNs(DataOf(c)[32..39]) <= r.time % Timestamps.NS_LIMIT
  }

  predicate AllMeasurable(rs: seq<Sample>) {
    forall k :: 0 <= k < |rs| ==> Measurable(rs[k])
  }

  function Data(rs: seq<Sample>): (ds: seq<seq<byte>>)
    requires AllMeasurable(rs)
    ensures |ds| == |rs| && forall k :: 0 <= k < |rs| ==>
              Measurable(rs[k]) && ds[k] == SampleOctets(rs[k].values, rs[k].time)
  {
    seq(|rs|, k requires 0 <= k < |rs| => assert Measurable(rs[k]); SampleOctets(rs[k].values, rs[k].time))
  }

  /** Subscriber i is served, with one call for each of the n readings of batch m. */
  predicate ServedBatch(r: Reception, i: nat, n: nat, rs: seq<Sample>, m: nat)
    requires AllMeasurable(rs)
  {
    && r.Served? && r.subscriber == i && |r.calls| == n
    && forall j :: 0 <= j < n ==>
         m * n + j < |rs| && Measurable(rs[m * n + j]) && Shows(r.calls[j], rs[m * n + j], (m + 1) % 65535)
  }

  /** End to end: whatever frame the application has sent, a receiver that gets it calls the listener of the matching
      subscriber once per reading of that batch, in order, and each call shows that reading and the number of the
      message modulo 65535. */
  lemma BatchReceived(s: Batch, maxPackets: nat, rs: seq<Sample>, m: nat, xs: seq<Asdu>, src: seq<byte>,
                      packet: seq<byte>, b: seq<byte>, appIds: seq<uint16>, i: nat)
    requires Start(s, maxPackets) && AllMeasurable(rs)
    requires m < |Run(s, Data(rs)).messages| && Run(s, Data(rs)).messages[m] == xs
    requires |src| == 6 && Sent(AppHeader(src), xs, packet)
    requires HasAt(b, 0, packet) && |packet| < |b| && FindAppId(appIds, APP_ID) == Some(i)
    ensures |b| > FRAME_HEADER && AnnouncedEnd(b) < |b|
    ensures ServedBatch(ParseMessage(appIds, b, |packet|), i, s.samplesPerMessage, rs, m)
  {
    hide Run, SvPayload, TotalSize, AllValid, HasAt, ParseMessage, FindAppId, Data, Shows, U16Octets;
    hide SvRoundTrip.Reading;
    var ds := Data(rs);
    RunExact(s, maxPackets, ds);
    TaggedPacket(DESTINATION, src, TagControl(PRIORITY, VLAN_ID), SV_ETHER_TYPE, APP_ID, SvPayload(xs));
    SvRoundTrip.FrameRoundTrip(appIds, b, TagControl(PRIORITY, VLAN_ID), APP_ID, xs);
    var calls := ParseMessage(appIds, b, |packet|).calls;
    CarriedShown(calls, xs, s, rs, m);
  }

  lemma CarriedShown(calls: seq<Call>, xs: seq<Asdu>, s: Batch, rs: seq<Sample>, m: nat)
    requires AllMeasurable(rs) && |s.asdus| == s.samplesPerMessage && Carries(xs, s, Data(rs), m)
             && SvRoundTrip.AllRead(calls, xs)
    ensures |calls| == s.samplesPerMessage
    ensures forall j :: 0 <= j < s.samplesPerMessage ==>
              m * s.samplesPerMessage + j < |rs| && Measurable(rs[m * s.samplesPerMessage + j])
              && Shows(calls[j], rs[m * s.samplesPerMessage + j], (m + 1) % 65535)
  {
    hide Data, Shows, SvRoundTrip.Reading, SvRoundTrip.Surviving, SampleOctets;
    var n := s.samplesPerMessage;
    forall j | 0 <= j < n
      ensures m * n + j < |rs| && Measurable(rs[m * n + j]) && Shows(calls[j], rs[m * n + j], (m + 1) % 65535)
    {
      ShownFrom(calls[j], xs[j], rs[m * n + j], m + 1);
    }
  }

  lemma ShownFrom(c: Call, a: Asdu, r: Sample, n: nat)
    requires Measurable(r) && SvRoundTrip.Reading(c) == SvRoundTrip.Surviving(a)
    requires a.data == SampleOctets(r.values, r.time) && a.smpCnt == n % 65535
    ensures Shows(c, r, n % 65535)
  {
    hide SampleOctets, TextAt, FieldOctets, Number16, Number32, Number8, DataOf, CString;
    SampleFields(c, r.values, r.time);
  }
}
