/** The publisher application as the object it is (goose-publisher-app.cc): its handlers update counters and timer
    slots in place and publish through a GOOSE publisher.  Each is proved to do what GooseScheduler's functions say;
    what a subscriber sees of the packets follows. */
module GooseApplication {
  import opened Octets
  import opened MmsValues
  import opened DataSetTheorems
  import opened GooseMessages
  import opened GooseParsing
  import opened EthernetFrames
  import opened GooseRoundTrip
  import opened GooseScheduler
  import opened Freshness
  import opened SequenceNumbers
  import BerInteger
  import GoosePublisher
  import Timestamps

  // ----- what the application publishes

  function Ascii(s: string): (r: seq<byte>)
    ensures |r| == |s|
  {
    seq(|s|, i requires 0 <= i < |s| => s[i] as int % 256)
  }

  const GO_CB_REF := "simpleIOGenericIO/LLN0$GO$gcbAnalogValues"
  const DATA_SET_REF := "simpleIOGenericIO/LLN0$AnalogValues"
  const TIME_ALLOWED_TO_LIVE: uint32 := 500

  const DESTINATION: seq<byte> := [0x01, 0x0c, 0xcd, 0x01, 0x00, 0x01]
  const PRIORITY: byte := 4
  const VLAN_ID: uint16 := 0

  /** The tag control information of every message. */
  const TCI: uint16 := TagControl(PRIORITY, VLAN_ID)

  /** Every message but for its numbers and its time. */
  function BaseMessage(): (m: Message) {
    Message(Some(Ascii(GO_CB_REF)), TIME_ALLOWED_TO_LIVE, Some(Ascii(DATA_SET_REF)), None, [0, 0, 0, 0, 0, 0, 0, 0], 1,
        0, false, 1,
            false)
  }

  /** The integers 1234 and 5678, and a six-octet binary time between them. */
  function AppDataSet(): (vs: seq<MmsValue>) {
    [MmsInteger([0x04, 0xd2], 5), MmsBinaryTime(6, [0, 0, 0, 0, 0, 0]), MmsInteger([0x16, 0x2e], 5)]
  }

  lemma DataSetSizes()
    ensures AllEncodable(AppDataSet()) && AllLearnable(AppDataSet())
    ensures SizeAll(AppDataSet()) == 16 && ExcessAll(AppDataSet()) == 0
  {
    var vs := AppDataSet();
    assert Size(vs[0]) == 4 && Size(vs[1]) == 8 && Size(vs[2]) == 4;
    assert Excess(vs[0]) == 0 && Excess(vs[1]) == 0 && Excess(vs[2]) == 0;
    assert vs[1..][1..] == [vs[2]] && [vs[2]][1..] == [];
    assert SizeAll([vs[2]]) == 4 && ExcessAll([vs[2]]) == 0;
    assert SizeAll(vs[1..]) == 12 && ExcessAll(vs[1..]) == 0;
  }

  lemma DataSetRegular()
    ensures Regular(AppDataSet()) && |AppDataSet()| == 3
  {
    hide AppDataSet, SizeAll, ExcessAll, EncodeAll;
    DataSetSizes();
    EncodedLengthAll(AppDataSet());
    assert |AppDataSet()| == 3 by { ThreeEntries(); }
  }

  lemma ThreeEntries()
    ensures |AppDataSet()| == 3
  {
  }

  /** Every message of the application can be published and stored, whatever its numbers and time. */
  lemma AppFits(i: nat, t: nat)
    ensures AllEncodable(AppDataSet()) && |AppDataSet()| == 3
    ensures var m := MessageAt(BaseMessage(), i, t);
            && Publishable(m, AppDataSet()) && PayloadSize(m, 3, SizeAll(AppDataSet())) <= 300
            && ExcessAll(AppDataSet()) == 0 && |Payload(m, AppDataSet())| == PayloadSize(m, 3, SizeAll(AppDataSet()))
  {
    hide AppDataSet, SizeAll, ExcessAll, EncodeAll, BerInteger.UIntOctets, Timestamps.MsTime, StNum, Payload;
    DataSetRegular();
    DataSetSizes();
    PayloadLength(MessageAt(BaseMessage(), i, t), AppDataSet());
  }

  /** Publication number i, at time t, as the HAL passes it on. */
  function PacketAt(appId: uint16, i: nat, t: nat): (s: seq<byte>) {
    AppFits(i, t);
    Packet(TCI, appId, MessageAt(BaseMessage(), i, t), AppDataSet())
  }

  /** The packets of all publications logged. */
  function PacketsOf(appId: uint16, log: seq<nat>): (ps: seq<seq<byte>>)
    ensures |ps| == |log| && forall i :: 0 <= i < |log| ==> ps[i] == PacketAt(appId, i, log[i])
  {
    seq(|log|, i requires 0 <= i < |log| => PacketAt(appId, i, log[i]))
  }

  lemma PacketsSnoc(appId: uint16, log: seq<nat>, t: nat)
    ensures PacketsOf(appId, log + [t]) == PacketsOf(appId, log) + [PacketAt(appId, |log|, t)]
  {
    hide PacketAt;
  }

  /** The publisher as StartApplication creates and configures it. */
  method ConfiguredPublisher(appId: uint16, source: seq<byte>, start: nat) returns (p: GoosePublisher.Publisher)
    requires |source| == 6
    ensures fresh(p) && fresh(p.buffer) && p.Valid()
    ensures p.header == EthernetHeader(DESTINATION, source, Some(TCI), GOOSE_ETHER_TYPE, appId)
    ensures p.NextMessage() == BaseMessage().(stNum := 1, sqNum := p.sqNum, timestamp := p.timestamp)
  {
    hide Milliseconds, Timestamps.MsTime, EthernetHeader, Ascii, HasAt;
    p := new GoosePublisher.Publisher(DESTINATION, source, true, PRIORITY, VLAN_ID, appId, Milliseconds(start));
    p.goCbRef := Some(Ascii(GO_CB_REF));
    p.confRev := 1;
    p.dataSetRef := Some(Ascii(DATA_SET_REF));
    p.timeAllowedToLive := TIME_ALLOWED_TO_LIVE;
  }

  class Application {
    const config: Config
    const appId: uint16
    const publisher: GoosePublisher.Publisher
    ghost const source: seq<byte>

    /** The simulator: the current time and the pending timers by id. */
    var now: nat
    var pending: map<nat, Timer>
    var nextId: nat

    var eventId: nat
    var gooseEventId: nat
    var count: nat
    var sent: nat
    var eventCount: byte

    /** The time of every publication, and the packet it put on the wire. */
    var log: seq<nat>
    var packets: seq<seq<byte>>

    function State(): (s: App)
      reads this
    {
      App(now, pending, nextId, eventId, gooseEventId, count, sent, eventCount, log)
    }

    /** The publisher carries the application's settings and the state number of the last publication, and the packets
        sent are those of the log. */
    ghost predicate Valid()
      reads `log, `packets, publisher, publisher.buffer
    {
      && publisher.Valid() && |source| == 6
      && publisher.header == EthernetHeader(DESTINATION, source, Some(TCI), GOOSE_ETHER_TYPE, appId)
      && publisher.NextMessage() ==
           BaseMessage().(stNum := StNum(|log|), sqNum := publisher.sqNum, timestamp := publisher.timestamp)
      && packets == PacketsOf(appId, log)
    }

    /** StartApplication at simulator time start. */
    constructor (config: Config, appId: uint16, source: seq<byte>, start: nat, maxPackets: nat)
      requires |source| == 6
      ensures Valid() && fresh(publisher) && fresh(publisher.buffer)
      ensures this.config == config && this.appId == appId && State() == Started(config, start, maxPackets)
    {
      hide Milliseconds, EthernetHeader, BaseMessage, StNum;
      var p := ConfiguredPublisher(appId, source, start);
      publisher, this.config, this.appId, this.source := p, config, appId, source;
      now, pending, nextId, eventId, gooseEventId := start, map[], 0, 0, 0;
      eventCount, sent, log, packets := 1, 0, [], [];
      count := if maxPackets == 0 then UNLIMITED else maxPackets;
      new;
      FirstNumbers();
      assert Valid();
      hide Valid;
      StartTimers();
    }

    /** The timers of StartApplication: the first event, if there are events, and the first Send. */
    method StartTimers()
      modifies `pending, `nextId, `eventId, `gooseEventId
      ensures var s := if config.eventInterval == 0 then old(State())
                       else Schedule(old(State()), config.eventInterval,
                           GooseScheduler.SendEvent).(gooseEventId := old(nextId));
              State() == Schedule(s, 0, GooseScheduler.Send).(eventId := s.nextId)
    {
      if config.eventInterval != 0 {
        gooseEventId := AddTimer(config.eventInterval, GooseScheduler.SendEvent);
      }
      eventId := AddTimer(0, GooseScheduler.Send);
    }

    /** Simulator::Schedule. */
    method AddTimer(delay: nat, h: Handler) returns (id: nat)
      modifies `pending, `nextId
      ensures id == old(nextId) && State() == Schedule(old(State()), delay, h)
    {
      id := nextId;
      pending := pending[id := Timer(h, now + delay)];
      nextId := nextId + 1;
    }

    /** increaseStNum and publish: the next packet of the run is put on the wire. */
    method Transmit()
      requires Valid()
      modifies `log, `packets, publisher, publisher.buffer
      ensures Valid() && log == old(log) + [now]
    {
      hide Milliseconds, Timestamps.MsTime, EthernetHeader, Ascii, StNum, Payload, PayloadSize, SizeAll, ExcessAll;
      hide AppDataSet;
      hide Publishable, Framed, U16Octets, HasAt;
      var i := |log|;
      AppFits(i, now);
      AdvanceStNum(i);
      publisher.IncreaseStNum(Milliseconds(now));
      assert publisher.NextMessage() == MessageAt(BaseMessage(), i, now);
      ghost var m := publisher.NextMessage();
      ghost var p := Payload(m, AppDataSet());
      var rc, packet := publisher.Publish(AppDataSet());
      TaggedPacket(DESTINATION, source, TCI, GOOSE_ETHER_TYPE, appId, p);
      assert packet == Some(PacketAt(appId, i, now));
      PacketsSnoc(appId, log, now);
      log, packets := log + [now], packets + [packet.value];
    }

    method Send()
      requires Valid()
      modifies this, publisher, publisher.buffer
      ensures Valid() && State() == DoSend(config, old(State()))
    {
      hide Valid;
      if count == 0 {
        return;
      }
      PublishOnce();
      eventId := AddTimer(config.t0, GooseScheduler.Send);
    }

    /** A publication, counted against the budget. */
    method PublishOnce()
      requires Valid() && count > 0
      modifies `log, `packets, `sent, `count, publisher, publisher.buffer
      ensures Valid() && State() == Published(old(State()))
    {
      hide Valid;
      Transmit();
      sent := sent + 1;
      count := count - 1;
    }

    method SendEvent()
      requires Valid()
      modifies this, publisher, publisher.buffer
      ensures Valid() && State() == DoSendEvent(config, old(State()))
    {
      hide Valid, Interval;
      if count == 0 {
        return;
      }
      pending := pending - {eventId};
      if eventCount > config.eventMessages {
        eventCount := 1;
        gooseEventId := AddTimer(config.eventInterval, GooseScheduler.SendEvent);
        Send();
        return;
      }
      PublishOnce();
      var delay := Interval(config, eventCount);
      eventId := AddTimer(if delay < 0 then 0 else delay, GooseScheduler.SendEvent);
      eventCount := (eventCount + 1) % 256;
    }

    /** The simulator runs the due timer id. */
    method Run(id: nat)
      requires Valid() && Due(State(), id)
      modifies this, publisher, publisher.buffer
      ensures Valid() && State() == Fire(config, old(State()), id)
    {
      hide Valid, DoSend, DoSendEvent;
      var timer := pending[id];
      now := timer.at;
      pending := pending - {id};
      if timer.handler == GooseScheduler.Send {
        Send();
      } else {
        SendEvent();
      }
    }
  }

  // ----- what a subscriber sees of it

  /** A packet in the receive buffer, with at least eight octets of anything behind it, at a simulator time. */
  predicate Arrives(d: Delivery, packet: seq<byte>, at: nat) {
    HasAt(d.buffer, 0, packet) && |packet| + SLACK <= |d.buffer| && d.numbytes == |packet| && d.at == at
  }

  lemma PacketCarries(d: Delivery, appId: uint16, i: nat, t: nat, delay: nat)
    requires Arrives(d, PacketAt(appId, i, t), t + delay)
    ensures Carries(d, BaseMessage(), TCI, appId, i, t, AppDataSet(), delay)
  {
    hide BaseMessage, AppDataSet, Regular, Publishable, Payload, HasAt, MessageAt;
    AppFits(i, t);
    DataSetRegular();
  }

  /** The application's data set, once for each publication. */
  function SameData(n: nat): (data: seq<seq<MmsValue>>)
    ensures |data| == n && forall i :: 0 <= i < n ==> data[i] == AppDataSet()
  {
    seq(n, _ => AppDataSet())
  }

  lemma SameDataAlike(n: nat)
    ensures LaidOutAlike(SameData(n))
  {
    hide AppDataSet, Regular, SameLayout;
    DataSetRegular();
    var vs := AppDataSet();
    assert AllEncodable(vs) by { RegularEncodable(vs); }
    forall j | 0 <= j < |vs| ensures SameLayout(vs[j], vs[j]) {
      SameLayoutRefl(vs[j]);
    }
  }

  lemma RegularEncodable(vs: seq<MmsValue>)
    requires Regular(vs)
    ensures AllEncodable(vs)
  {
  }

  /** End to end, from the application's packets to the subscriber: take any run with 0 < T1 <= T0 <= 500 ms, and let
      the packets of the log arrive in order at a constant delay.  From the first arrival up to T0 after the last, a
      subscriber to the application's control block sees valid data at every instant, and they are the application's
      data set. */
  lemma ApplicationFresh(c: Config, start: nat, budget: nat, run: seq<App>, appId: uint16, packets: seq<seq<byte>>,
                         subs: seq<Subscriber>, k: nat, ds: seq<Delivery>, delay: nat, n: nat, instant: nat)
    requires ValidConfig(c) && run != [] && GooseScheduler.Run(c, start, budget, run)
    requires c.t0 <= 500 * NS_PER_MS
    requires packets == PacketsOf(appId, run[|run| - 1].log) && |ds| == |packets|
    requires forall i :: 0 <= i < |ds| ==> Arrives(ds[i], packets[i], run[|run| - 1].log[i] + delay)
    requires Target(subs, k, BaseMessage()) && Unused(subs[k], BaseMessage())
    requires 0 < n <= |ds| && ds[n - 1].at <= instant
    requires if n < |ds| then instant < ds[n].at else instant <= ds[n - 1].at + c.t0
    ensures Regular(AppDataSet())
    ensures var sub := AfterDeliveries(subs, ds, n)[k];
            IsValid(sub, Milliseconds(instant)) && sub.values == Some(ReceivedAll(AppDataSet()))
  {
    hide *;
    PacketsInOrder(appId, packets, run[|run| - 1].log, ds, delay);
    SameDataAlike(|ds|);
    DataSetRegular();
    BaseTime();
    AtMost500(c.t0);
    AlwaysFresh(c, start, budget, run, subs, k, BaseMessage(), TCI, appId, SameData(|ds|), ds, delay, n, instant);
  }

  /** The same for a receiver whose one subscriber was just created for the application's control block. */
  lemma CreatedSubscriberFresh(c: Config, start: nat, budget: nat, run: seq<App>, appId: uint16,
                               packets: seq<seq<byte>>,
                               ds: seq<Delivery>, delay: nat, n: nat, instant: nat)
    requires ValidConfig(c) && run != [] && GooseScheduler.Run(c, start, budget, run) && c.t0 <= 500 * NS_PER_MS
    requires packets == PacketsOf(appId, run[|run| - 1].log) && |ds| == |packets|
    requires forall i :: 0 <= i < |ds| ==> Arrives(ds[i], packets[i], run[|run| - 1].log[i] + delay)
    requires 0 < n <= |ds| && ds[n - 1].at <= instant
    requires if n < |ds| then instant < ds[n].at else instant <= ds[n - 1].at + c.t0
    ensures Regular(AppDataSet())
    ensures var sub := AfterDeliveries([NewSubscriber(Ascii(GO_CB_REF), None)], ds, n)[0];
            IsValid(sub, Milliseconds(instant)) && sub.values == Some(ReceivedAll(AppDataSet()))
  {
    hide *;
    var subs := [NewSubscriber(Ascii(GO_CB_REF), None)];
    CreatedTarget(subs);
    ApplicationFresh(c, start, budget, run, appId, packets, subs, 0, ds, delay, n, instant);
  }

  lemma CreatedTarget(subs: seq<Subscriber>)
    requires subs == [NewSubscriber(Ascii(GO_CB_REF), None)]
    ensures Target(subs, 0, BaseMessage()) && Unused(subs[0], BaseMessage())
  {
    ShortReference();
    CreatedUnused(BaseMessage());
  }

  lemma ShortReference()
    ensures |Chars(BaseMessage().goCbRef)| <= MAX_REFERENCE
  {
    assert |GO_CB_REF| == 41;
  }

  lemma PacketsInOrder(appId: uint16, packets: seq<seq<byte>>, log: seq<nat>, ds: seq<Delivery>, delay: nat)
    requires packets == PacketsOf(appId, log) && |ds| == |packets|
    requires forall i :: 0 <= i < |ds| ==> Arrives(ds[i], packets[i], log[i] + delay)
    ensures InOrder(ds, BaseMessage(), TCI, appId, log, SameData(|ds|), delay)
  {
    hide BaseMessage, AppDataSet, PacketAt, Carries, Arrives;
    forall i | 0 <= i < |ds| ensures Carries(ds[i], BaseMessage(), TCI, appId, i, log[i], AppDataSet(), delay) {
      PacketCarries(ds[i], appId, i, log[i], delay);
    }
  }

  lemma AtMost500(t: nat)
    requires t <= 500 * NS_PER_MS
    ensures Ceiling(t) <= 500
  {
  }

  lemma BaseTime()
    ensures BaseMessage().timeAllowedToLive == 500
  {
  }
}
