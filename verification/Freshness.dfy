/** End to end: the publisher application, the wire and a subscriber together.  From the first delivery on, while
    the publisher has budget, the subscriber never sees its data as invalid. */
module Freshness {
  import opened Octets
  import opened MmsValues
  import opened DataSets
  import opened DataSetTheorems
  import opened GooseMessages
  import opened GooseParsing
  import opened EthernetFrames
  import opened GooseRoundTrip
  import opened GooseScheduler
  import opened SequenceNumbers
  import Timestamps
  import GoosePublisher

  const NS_PER_MS := 1_000_000

  /** Hal_getTimeInMs at a simulator time in nanoseconds. */
  function Milliseconds(t: nat): (ms: nat) {
    t / NS_PER_MS
  }

  /** The application announces a new state before every publication. */
  function AppOps(n: nat): (ops: seq<Op>) {
    if n == 0 then [] else AppOps(n - 1) + [NewState, SequenceNumbers.Publish]
  }

  lemma {:induction false} StampsAppend(t: Stamp, ops: seq<Op>, more: seq<Op>, u: Stamp)
    requires u == StampAfter(t, ops)
    ensures Stamps(t, ops + more) == Stamps(t, ops) + Stamps(u, more)
    ensures StampAfter(t, ops + more) == StampAfter(u, more)
    decreases ops
  {
    hide Stamped;
    if ops == [] {
      assert ops + more == more;
      assert Stamps(t, ops) == [];
    } else {
      var all, rest := ops + more, ops[1..] + more;
      assert all[0] == ops[0] && all[1..] == rest;
      StampsAppend(Stamped(t, ops[0]), ops[1..], more, u);
      var first := if ops[0] == SequenceNumbers.Publish then [t] else [];
      assert Stamps(t, all) == first + Stamps(Stamped(t, ops[0]), rest);
      assert Stamps(t, ops) == first + Stamps(Stamped(t, ops[0]), ops[1..]);
    }
  }

  function StampAfter(t: Stamp, ops: seq<Op>): (u: Stamp)
    decreases ops
  {
    if ops == [] then t else StampAfter(Stamped(t, ops[0]), ops[1..])
  }

  lemma OneRound(t: Stamp)
    ensures Stamps(t, [NewState, SequenceNumbers.Publish]) == [Stamp(t.state + 1, 0)]
    ensures StampAfter(t, [NewState, SequenceNumbers.Publish]) == Stamp(t.state + 1, 1)
  {
    var ops := [NewState, SequenceNumbers.Publish];
    assert ops[1..] == [SequenceNumbers.Publish];
    assert ops[1..][1..] == [];
    assert Stamps(Stamp(t.state + 1, 0), ops[1..]) == [Stamp(t.state + 1, 0)] + Stamps(Stamp(t.state + 1, 1), []);
    assert StampAfter(Stamp(t.state + 1, 0), ops[1..]) == Stamp(t.state + 1, 1);
  }

  /** So its i-th message carries stNum i + 2, counted round the 32-bit range without zero, and sqNum 0. */
  lemma {:induction false} AppStamps(n: nat)
    ensures |Stamps(Stamp(0, 0), AppOps(n))| == n && StampAfter(Stamp(0, 0), AppOps(n)).state == n
    ensures forall i :: 0 <= i < n ==> Stamps(Stamp(0, 0), AppOps(n))[i] == Stamp(i + 1, 0)
  {
    if n > 0 {
      AppStamps(n - 1);
      var u := StampAfter(Stamp(0, 0), AppOps(n - 1));
      StampsAppend(Stamp(0, 0), AppOps(n - 1), [NewState, SequenceNumbers.Publish], u);
      OneRound(u);
    }
  }

  /** The numbers that the application's n publications have on the wire are those of MessageAt. */
  lemma AppNumbers(n: nat, i: nat, base: Message, t: nat)
    requires i < n
    ensures |Wire(Start(), AppOps(n))| == n
    ensures var m := MessageAt(base, i, t); Wire(Start(), AppOps(n))[i] == Numbers(m.stNum, m.sqNum)
  {
    hide Wire, Stamps, AppOps, StNum, SqNum, Milliseconds, Timestamps.MsTime;
    AppStamps(n);
    WireNumbers(Stamp(0, 0), AppOps(n));
    FirstNumbers();
    assert NumbersOf(Stamp(0, 0)) == Start();
    assert Stamps(Stamp(0, 0), AppOps(n))[i] == Stamp(i + 1, 0);
  }

  /** The i-th message of the application, published at time t. */
  function MessageAt(base: Message, i: nat, t: nat): (m: Message)
    ensures |m.timestamp| == 8
  {
    base.(stNum := StNum(i + 1), sqNum := 0,
          timestamp := Timestamps.MsTime(Milliseconds(t)) + [GoosePublisher.UTC_QUALITY])
  }

  // ----- one delivery to a subscriber

  /** A data set that is sized, encoded and learned without loss. */
  predicate Regular(vs: seq<MmsValue>) {
    AllEncodable(vs) && AllLearnable(vs) && ExcessAll(vs) == 0 && |EncodeAll(vs)| < 65535
  }

  /** The subscriber holds the data set vs, learned by itself under the given configuration revision. */
  predicate HoldsDataSet(sub: Subscriber, vs: seq<MmsValue>, confRev: uint32)
    requires Regular(vs)
  {
    && sub.values == Some(ReceivedAll(vs)) && sub.confRev == confRev && !sub.isObserver
  }

  lemma FirstData(sub: Subscriber, b: seq<byte>, start: nat, vs: seq<MmsValue>)
    requires Regular(vs) && HasAt(b, start, EncodeAll(vs)) && start + |EncodeAll(vs)| < |b|
    requires sub.values == None
    ensures var r := TakeData(sub, b, start, |EncodeAll(vs)|);
            r.0 && r.1.values == Some(ReceivedAll(vs))
  {
    hide Learn, EncodeAll, ReceivedAll;
    LearnEncoded(b, start, vs, false);
  }

  lemma NextData(sub: Subscriber, b: seq<byte>, start: nat, us: seq<MmsValue>, vs: seq<MmsValue>)
    requires Regular(us) && Regular(vs) && SameLayouts(us, vs)
    requires HasAt(b, start, EncodeAll(vs)) && start + |EncodeAll(vs)| < |b|
    requires sub.values == Some(ReceivedAll(us))
    ensures var r := TakeData(sub, b, start, |EncodeAll(vs)|);
            r.0 && r.1.values == Some(ReceivedAll(vs)) && r.1.parseError == NoError
  {
    hide Refresh, EncodeAll, ReceivedAll, SameLayouts;
    RefreshEncoded(b, start, us, vs);
  }

  /** Delivery number i, to a subscriber that is new (us == None) or holds the previous data set us. */
  lemma OneDelivery(sub: Subscriber, us: Option<seq<MmsValue>>, s: Scan, b: seq<byte>, vs: seq<MmsValue>, now: nat)
    requires Regular(vs) && s.dataSize == |EncodeAll(vs)|
    requires HasAt(b, s.dataStart, EncodeAll(vs)) && s.dataStart + s.dataSize < |b|
    requires !sub.isObserver
    requires us.None? ==> sub.values == None
    requires us.Some? ==> Regular(us.value) && SameLayouts(us.value, vs) && HoldsDataSet(sub, us.value, s.confRev)
    requires sub.stNum != s.stNum
    ensures var r := Deliver(sub, s, b, now);
            && HoldsDataSet(r, vs, s.confRev) && r.stateValid && r.stNum == s.stNum
            && r.invalidityTime == now + s.timeAllowedToLive && r.goCbRef == sub.goCbRef
            && r.goCbRefLen == sub.goCbRefLen
  {
    hide TakeData, Regular, ReceivedAll, SameLayouts, EncodeAll;
    var p := Prepared(sub, s);
    if us.None? {
      FirstData(p, b, s.dataStart, vs);
    } else {
      NextData(p, b, s.dataStart, us.value, vs);
    }
    TakeDataKeeps(p, b, s.dataStart, s.dataSize);
  }

  // ----- a series of deliveries

  /** A frame in the receive buffer, of which numbytes octets were received, at a simulator time. */
  datatype Delivery = Delivery(buffer: seq<byte>, numbytes: nat, at: nat)

  predicate Parsable(b: seq<byte>) {
    |b| > FRAME_HEADER && Buffered(b, AnnouncedEnd(b))
  }

  /** The receiver's subscribers after its first n deliveries. */
  function AfterDeliveries(subs: seq<Subscriber>, ds: seq<Delivery>, n: nat): (r: seq<Subscriber>)
    requires n <= |ds|
    ensures |r| == |subs|
  {
    if n == 0 then subs
    else
      var before := AfterDeliveries(subs, ds, n - 1);
      var d := ds[n - 1];
      if Parsable(d.buffer) then ParseMessage(before, d.buffer, d.numbytes, Milliseconds(d.at)).1 else before
  }

  /** Delivery d is message i, published at time t with data vs, after the constant delay; behind the frame the
      receive buffer may hold anything. */
  ghost predicate Carries(d: Delivery, base: Message, tci: uint16, appId: uint16, i: nat, t: nat, vs: seq<MmsValue>,
                          delay: nat) {
    var m := MessageAt(base, i, t);
    && Regular(vs) && Publishable(m, vs) && |Payload(m, vs)| + 8 < 0x1_0000
    && HasAt(d.buffer, 0, Packet(tci, appId, m, vs)) && |Packet(tci, appId, m, vs)| + SLACK <= |d.buffer|
    && d.numbytes == |Packet(tci, appId, m, vs)| && d.at == t + delay
  }

  /** The deliveries are the publications logged, in order. */
  ghost predicate InOrder(ds: seq<Delivery>, base: Message, tci: uint16, appId: uint16, log: seq<nat>,
                          data: seq<seq<MmsValue>>, delay: nat)
    requires |ds| == |log| == |data|
  {
    forall i :: 0 <= i < |ds| ==> Carries(ds[i], base, tci, appId, i, log[i], data[i], delay)
  }

  /** The data sets of successive messages may differ in their values, not in their layout. */
  predicate LaidOutAlike(data: seq<seq<MmsValue>>) {
    && (forall i :: 0 <= i < |data| ==> Regular(data[i]))
    && (forall i, j :: 0 <= i < j < |data| ==> SameLayouts(data[i], data[j]))
  }

  /** The target subscriber after a delivery of message i at time at. */
  ghost predicate UpToDate(sub: Subscriber, base: Message, i: nat, at: nat, vs: seq<MmsValue>) {
    && Regular(vs) && HoldsDataSet(sub, vs, base.confRev) && sub.stateValid && sub.stNum == StNum(i + 1)
    && sub.invalidityTime == Milliseconds(at) + base.timeAllowedToLive
    && Subscribes(sub, Chars(base.goCbRef))
  }

  /** A subscriber that has not received anything yet. */
  predicate Unused(sub: Subscriber, base: Message) {
    sub.values == None && sub.stNum == 0 && !sub.isObserver && Subscribes(sub, Chars(base.goCbRef))
  }

  /** Every subscriber in front of k ignores this control block. */
  predicate Target(subs: seq<Subscriber>, k: nat, base: Message) {
    && k < |subs|
    && forall j :: 0 <= j < k ==> !subs[j].isObserver && !Subscribes(subs[j], Chars(base.goCbRef))
  }

  lemma TargetFound(subs: seq<Subscriber>, k: nat, base: Message)
    requires Target(subs, k, base) && Subscribes(subs[k], Chars(base.goCbRef))
    ensures FindMatch(subs, Chars(base.goCbRef)) == Some(k)
  {
    hide Chars;
    var r := FindMatch(subs, Chars(base.goCbRef));
    assert r.Some?;
  }

  lemma StNumsDiffer(i: nat)
    ensures StNum(i + 1) != 0 && StNum(i + 1) != StNum(i + 2)
  {
    hide StNum;
    AdvanceStNum(i + 1);
    StNumPositive(i + 1);
  }

  lemma StNumPositive(i: nat)
    ensures 1 <= StNum(i)
  {
  }

  /** One frame brings the target up to date and leaves every other subscriber alone. */
  lemma FrameDelivered(subs: seq<Subscriber>, k: nat, us: Option<seq<MmsValue>>, base: Message, tci: uint16,
                       appId: uint16,
                       i: nat, t: nat, vs: seq<MmsValue>, d: Delivery, delay: nat)
    requires Target(subs, k, base) && Subscribes(subs[k], Chars(base.goCbRef))
    requires Carries(d, base, tci, appId, i, t, vs, delay)
    requires !subs[k].isObserver && subs[k].stNum != StNum(i + 1)
    requires us.None? ==> subs[k].values == None
    requires us.Some? ==>
               Regular(us.value) && SameLayouts(us.value, vs) && HoldsDataSet(subs[k], us.value, base.confRev)
    ensures Parsable(d.buffer)
    ensures var r := ParseMessage(subs, d.buffer, d.numbytes, Milliseconds(d.at)).1;
            r == subs[k := r[k]] && UpToDate(r[k], base, i, d.at, vs)
  {
    hide ParseMessage, FindMatch, Deliver, Packet, Payload, EncodeAll, SizeAll, ExcessAll, Chars, Milliseconds;
    hide DataStart;
    hide SameLayouts, HoldsDataSet, StNum, Publishable;
    var m := MessageAt(base, i, t);
    TargetFound(subs, k, base);
    PublishableEncodable(m, vs);
    FrameRoundTrip(subs, k, d.buffer, tci, appId, m, vs, Milliseconds(d.at));
    var s := Scanned(subs, k, m).(dataStart := DataStart(FRAME_HEADER, m, vs), dataSize := SizeAll(vs));
    NamedKeeps(subs[k], m, us, base.confRev);
    OneDelivery(Named(subs[k], m), us, s, d.buffer, vs, Milliseconds(d.at));
  }

  lemma NamedKeeps(sub: Subscriber, m: Message, us: Option<seq<MmsValue>>, confRev: uint32)
    requires us.Some? ==> Regular(us.value) && HoldsDataSet(sub, us.value, confRev)
    ensures us.Some? ==> HoldsDataSet(Named(sub, m), us.value, confRev)
  {
  }

  lemma Alike(data: seq<seq<MmsValue>>, i: nat, j: nat)
    requires LaidOutAlike(data) && i < j < |data|
    ensures Regular(data[i]) && Regular(data[j]) && SameLayouts(data[i], data[j])
  {
  }

  /** After n deliveries the target holds message n - 1. */
  lemma {:induction false} DeliveriesUpToDate(subs: seq<Subscriber>, k: nat, base: Message, tci: uint16, appId: uint16,
                                              log: seq<nat>, data: seq<seq<MmsValue>>, ds: seq<Delivery>, delay: nat,
                                                  n: nat)
    requires Target(subs, k, base) && Unused(subs[k], base) && 0 < n <= |ds| == |log| == |data|
    requires InOrder(ds, base, tci, appId, log, data, delay) && LaidOutAlike(data)
    ensures var r := AfterDeliveries(subs, ds, n);
            r == subs[k := r[k]] && UpToDate(r[k], base, n - 1, ds[n - 1].at, data[n - 1])
  {
    hide Carries, Regular, SameLayouts, ParseMessage, Chars, StNum, Milliseconds, HoldsDataSet, Parsable;
    StNumPositive(1);
    if n == 1 {
      FrameDelivered(subs, k, None, base, tci, appId, 0, log[0], data[0], ds[0], delay);
    } else {
      DeliveriesUpToDate(subs, k, base, tci, appId, log, data, ds, delay, n - 1);
      var before := AfterDeliveries(subs, ds, n - 1);
      Alike(data, n - 2, n - 1);
      StNumsDiffer(n - 2);
      NotObserver(before[k], base, data[n - 2]);
      FrameDelivered(before, k, Some(data[n - 2]), base, tci, appId, n - 1, log[n - 1], data[n - 1], ds[n - 1], delay);
    }
  }

  lemma NotObserver(sub: Subscriber, base: Message, vs: seq<MmsValue>)
    requires Regular(vs) && HoldsDataSet(sub, vs, base.confRev)
    ensures !sub.isObserver
  {
  }

  // ----- freshness

  /** An interval in milliseconds, rounded up. */
  function Ceiling(t: nat): (ms: nat) {
    (t + NS_PER_MS - 1) / NS_PER_MS
  }

  /** The millisecond clock advances at most so much during an interval of t0, and just as much if that starts at the
      very end of a millisecond. */
  lemma WithinMilliseconds(received: nat, instant: nat, t0: nat)
    requires received <= instant <= received + t0
    ensures Milliseconds(instant) <= Milliseconds(received) + Ceiling(t0)
  {
  }

  lemma CeilingReached(received: nat, t0: nat)
    requires received % NS_PER_MS == NS_PER_MS - 1
    ensures Milliseconds(received + t0) == Milliseconds(received) + Ceiling(t0)
  {
  }

  /** A subscriber just created for the publisher's control block. */
  lemma CreatedUnused(base: Message)
    requires |Chars(base.goCbRef)| <= MAX_REFERENCE
    ensures Unused(NewSubscriber(Chars(base.goCbRef), None), base)
  {
  }

  /** Take any run of the publisher application with 0 < T1 <= T0, T0 in milliseconds, rounded up, not above
      timeAllowedToLive, and in-order delivery at a constant delay.  At every instant from the first delivery up
      to T0 after the last, the subscriber's data are valid.  Here n messages have been delivered so far. */
  lemma AlwaysFresh(c: Config, start: nat, budget: nat, run: seq<App>,
                    subs: seq<Subscriber>, k: nat, base: Message, tci: uint16, appId: uint16,
                    data: seq<seq<MmsValue>>, ds: seq<Delivery>, delay: nat, n: nat, instant: nat)
    requires ValidConfig(c) && Run(c, start, budget, run)
    requires Ceiling(c.t0) <= base.timeAllowedToLive
    requires Target(subs, k, base) && Unused(subs[k], base)
    requires var log := run[|run| - 1].log;
             |log| == |data| == |ds| && InOrder(ds, base, tci, appId, log, data, delay) && LaidOutAlike(data)
    requires 0 < n <= |ds| && ds[n - 1].at <= instant
    requires if n < |ds| then instant < ds[n].at else instant <= ds[n - 1].at + c.t0
    ensures |run| == |ds| + 1
    ensures IsValid(AfterDeliveries(subs, ds, n)[k], Milliseconds(instant))
    ensures AfterDeliveries(subs, ds, n)[k].values == Some(ReceivedAll(data[n - 1]))
  {
    hide Regular, SameLayouts, AfterDeliveries, ReceivedAll, Milliseconds, Ceiling, Target, Unused, Invariant;
    hide InOrder, LaidOutAlike, Step;
    var log := run[|run| - 1].log;
    RunInvariant(c, start, budget, run, |run| - 1);
    Gaps(c, run[|run| - 1], if budget == 0 then UNLIMITED else budget, n);
    DeliveriesUpToDate(subs, k, base, tci, appId, log, data, ds, delay, n);
    Arrival(ds, base, tci, appId, log, data, delay, n - 1);
    if n < |ds| {
      Arrival(ds, base, tci, appId, log, data, delay, n);
    }
    WithinMilliseconds(ds[n - 1].at, instant, c.t0);
  }

  /** The bound on T0 cannot be improved: with T0, rounded up, above timeAllowedToLive after every run there are delays
      for which the data are invalid at the last of those instants. */
  lemma StaleOtherwise(c: Config, start: nat, budget: nat, run: seq<App>,
                       subs: seq<Subscriber>, k: nat, base: Message, tci: uint16, appId: uint16,
                       data: seq<seq<MmsValue>>, ds: seq<Delivery>, delay: nat)
    requires ValidConfig(c) && Run(c, start, budget, run)
    requires Ceiling(c.t0) > base.timeAllowedToLive
    requires Target(subs, k, base) && Unused(subs[k], base)
    requires var log := run[|run| - 1].log;
             && |log| == |data| == |ds| > 0 && InOrder(ds, base, tci, appId, log, data, delay) && LaidOutAlike(data)
             && (log[|log| - 1] + delay) % NS_PER_MS == NS_PER_MS - 1
    ensures var n := |ds|; !IsValid(AfterDeliveries(subs, ds, n)[k], Milliseconds(ds[n - 1].at + c.t0))
  {
    hide Regular, SameLayouts, AfterDeliveries, Milliseconds, Ceiling, Target, Unused, InOrder, LaidOutAlike, Step;
    hide HoldsDataSet, Subscribes, ValidConfig;
    var log, n := run[|run| - 1].log, |ds|;
    DeliveriesUpToDate(subs, k, base, tci, appId, log, data, ds, delay, n);
    Arrival(ds, base, tci, appId, log, data, delay, n - 1);
    CeilingReached(ds[n - 1].at, c.t0);
  }

  lemma Gaps(c: Config, s: App, budget: nat, n: nat)
    requires Invariant(c, s, budget)
    ensures |s.log| == s.sent
    ensures 0 < n < |s.log| ==> s.log[n] <= s.log[n - 1] + c.t0
  {
  }

  lemma Arrival(ds: seq<Delivery>, base: Message, tci: uint16, appId: uint16, log: seq<nat>, data: seq<seq<MmsValue>>,
                delay: nat, i: nat)
    requires |ds| == |log| == |data| && InOrder(ds, base, tci, appId, log, data, delay) && i < |ds|
    ensures ds[i].at == log[i] + delay
  {
    hide Regular, Publishable, Payload, Packet;
    assert Carries(ds[i], base, tci, appId, i, log[i], data[i], delay);
  }
}
