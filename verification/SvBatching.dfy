/** The sample batching of the sampled-values application (sv-publisher-app.cc): each Measure fills the next ASDU of
    the message, and the one that fills the last ASDU sends it. */
module SvBatching {
  import opened Octets
  import opened SvFrames

  /** A Count attribute of zero becomes -1 in an unsigned 64-bit counter. */
  const UNLIMITED := 0xffff_ffff_ffff_ffff

  /** The wrap of the sample counter: its limit is the largest 16-bit number. */
  const SMP_CNT_LIMIT := 0xffff

  /** The state that Measure works on; pending tells whether a Measure is scheduled. */
  datatype Batch = Batch(
    samplesPerMessage: nat, count: nat, sent: nat, sampleIndex: nat, pending: bool,
    asdus: seq<Asdu>, messages: seq<seq<Asdu>>)

  function Budget(maxPackets: nat): (n: nat)
    ensures n > 0
  {
    if maxPackets == 0 then UNLIMITED else maxPackets
  }

  /** What StartApplication leaves behind. */
  predicate Start(s: Batch, maxPackets: nat) {
    && 1 <= s.samplesPerMessage <= 8 && |s.asdus| == s.samplesPerMessage
    && s.count == Budget(maxPackets) && s.sent == 0 && s.sampleIndex == 0 && s.pending && s.messages == []
    && forall j :: 0 <= j < |s.asdus| ==> s.asdus[j].smpCnt == 0
  }

  /** One ASDU measured: new data, counter advanced. */
  function Sampled(a: Asdu, data: seq<byte>): (c: Asdu) {
    a.(data := data, smpCnt := (a.smpCnt + 1) % SMP_CNT_LIMIT)
  }

  predicate WellFormed(s: Batch) {
    |s.asdus| == s.samplesPerMessage && s.sampleIndex < s.samplesPerMessage
  }

  /** Measure; nothing happens if none is scheduled. */
  function Measured(s: Batch, data: seq<byte>): (r: Batch)
    requires WellFormed(s)
    ensures WellFormed(r)
  {
    if !s.pending then s
    else if s.count == 0 then s.(pending := false)
    else
      var asdus := s.asdus[s.sampleIndex := Sampled(s.asdus[s.sampleIndex], data)];
      if s.sampleIndex + 1 == s.samplesPerMessage
      then s.(asdus := asdus, sampleIndex := 0, messages := s.messages + [asdus], count := s.count - 1,
          sent := s.sent + 1)
      else s.(asdus := asdus, sampleIndex := s.sampleIndex + 1)
  }

  function Run(s: Batch, ds: seq<seq<byte>>): (r: Batch)
    requires WellFormed(s)
    ensures WellFormed(r)
    decreases ds
  {
    if ds == [] then s else Measured(Run(s, ds[..|ds| - 1]), ds[|ds| - 1])
  }

  /** The ASDU as it is after its m-th measurement, m >= 1. */
  function Filled(a: Asdu, data: seq<byte>, m: nat): (c: Asdu) {
    a.(data := data, smpCnt := m % SMP_CNT_LIMIT)
  }

  /** Reading j of batch m, for batches of n readings. */
  function Item(ds: seq<seq<byte>>, n: nat, m: nat, j: nat): (d: seq<byte>) {
    if m * n + j < |ds| then ds[m * n + j] else []
  }

  /** Message m of a run, counting from 0: the readings of batch m, all with counter m + 1. */
  function Message(s: Batch, ds: seq<seq<byte>>, m: nat): (xs: seq<Asdu>)
    requires |s.asdus| == s.samplesPerMessage
    ensures |xs| == |s.asdus|
    ensures forall j :: 0 <= j < |xs| ==> xs[j] == Filled(s.asdus[j], Item(ds, s.samplesPerMessage, m, j), m + 1)
  {
    seq(|s.asdus|, j requires 0 <= j < |s.asdus| => Filled(s.asdus[j], Item(ds, s.samplesPerMessage, m, j), m + 1))
  }

  /** The ASDUs once q batches were sent and i further readings taken. */
  predicate Half(s: Batch, ds: seq<seq<byte>>, asdus: seq<Asdu>, q: nat, i: nat)
    requires |s.asdus| == s.samplesPerMessage
  {
    && |asdus| == |s.asdus|
    && (forall j :: 0 <= j < |asdus| && j < i ==>
         asdus[j] == Filled(s.asdus[j], Item(ds, s.samplesPerMessage, q, j), q + 1))
    && (forall j :: 0 <= j < |asdus| && i <= j ==>
          asdus[j] == if q == 0 then s.asdus[j] else Filled(s.asdus[j], Item(ds, s.samplesPerMessage, q - 1, j), q))
  }

  /** The state reached from s after q whole batches and i further readings. */
  predicate Reached(s: Batch, ds: seq<seq<byte>>, r: Batch, q: nat, i: nat)
    requires |s.asdus| == s.samplesPerMessage
  {
    && i < s.samplesPerMessage && q <= s.count
    && r.samplesPerMessage == s.samplesPerMessage && r.sampleIndex == i && r.sent == q && r.count == s.count - q
    && |r.messages| == q && (forall m :: 0 <= m < q ==> r.messages[m] == Message(s, ds, m))
    && Half(s, ds, r.asdus, q, i)
  }

  /** Taking one more reading. */
  lemma SampledHalf(s: Batch, ds: seq<seq<byte>>, asdus: seq<Asdu>, q: nat, i: nat, d: seq<byte>)
    requires |s.asdus| == s.samplesPerMessage && Half(s, ds, asdus, q, i) && i < |asdus|
    requires d == Item(ds, s.samplesPerMessage, q, i) && forall j :: 0 <= j < |s.asdus| ==> s.asdus[j].smpCnt == 0
    ensures Half(s, ds, asdus[i := Sampled(asdus[i], d)], q, i + 1)
  {
    hide Item;
    assert (q % SMP_CNT_LIMIT + 1) % SMP_CNT_LIMIT == (q + 1) % SMP_CNT_LIMIT;
  }

  /** A full message is the start of the next. */
  lemma FullHalf(s: Batch, ds: seq<seq<byte>>, asdus: seq<Asdu>, q: nat)
    requires |s.asdus| == s.samplesPerMessage && Half(s, ds, asdus, q, s.samplesPerMessage)
    ensures asdus == Message(s, ds, q) && Half(s, ds, asdus, q + 1, 0)
  {
    hide Item;
  }

  lemma {:induction false} ReachedStep(s: Batch, ds: seq<seq<byte>>, r: Batch, q: nat, i: nat, d: seq<byte>)
    requires WellFormed(s) && WellFormed(r) && Reached(s, ds, r, q, i) && r.pending && q < s.count
    requires d == Item(ds, s.samplesPerMessage, q, i) && forall j :: 0 <= j < |s.asdus| ==> s.asdus[j].smpCnt == 0
    ensures Measured(r, d).pending
    ensures if i + 1 == s.samplesPerMessage then Reached(s, ds, Measured(r, d), q + 1, 0)
            else Reached(s, ds, Measured(r, d), q, i + 1)
  {
    hide Half, Item, Sampled, Message;
    SampledHalf(s, ds, r.asdus, q, i, d);
    if i + 1 == s.samplesPerMessage {
      FullHalf(s, ds, r.asdus[i := Sampled(r.asdus[i], d)], q);
    }
  }

  lemma WholeBatches(m: nat, q: nat, n: nat)
    requires m <= q
    ensures m * n <= q * n
  {
  }

  lemma BelowBudget(q: nat, i: nat, n: nat, budget: nat)
    requires i < n && q * n + i < budget * n
    ensures q < budget
  {
    if q >= budget {
      WholeBatches(budget, q, n);
    }
  }

  lemma Divide(k: nat, n: nat, q: nat, i: nat)
    requires i < n && q * n + i == k
    ensures k / n == q && k % n == i
  {
    SameQuotient(k / n, k % n, n, q, i);
  }

  lemma SameQuotient(q: nat, i: nat, n: nat, q': nat, i': nat)
    requires i < n && i' < n && q * n + i == q' * n + i'
    ensures q == q' && i == i'
  {
    NextBatch(q, n);
    NextBatch(q', n);
    if q < q' {
      WholeBatches(q + 1, q', n);
    } else if q' < q {
      WholeBatches(q' + 1, q, n);
    }
  }

  /** Every run: after k firings there are q whole batches and i further readings, as far as the budget goes. */
  lemma {:induction false} RunReached(s: Batch, maxPackets: nat, ds: seq<seq<byte>>, k: nat) returns (q: nat, i: nat)
    requires Start(s, maxPackets) && k <= |ds|
    ensures i < s.samplesPerMessage && q * s.samplesPerMessage + i == Taken(s, k)
    ensures Reached(s, ds, Run(s, ds[..k]), q, i)
    ensures Run(s, ds[..k]).pending <==> k <= s.count * s.samplesPerMessage
  {
    hide Measured, Reached, Item;
    var n := s.samplesPerMessage;
    if k == 0 {
      q, i := 0, 0;
      StartReached(s, maxPackets, ds);
    } else {
      q, i := RunReached(s, maxPackets, ds, k - 1);
      var r := Run(s, ds[..k - 1]);
      assert ds[..k][..k - 1] == ds[..k - 1];
      if k - 1 < s.count * n {
        BelowBudget(q, i, n, s.count);
        assert ds[k - 1] == Item(ds, n, q, i) by { ItemAt(ds, n, q, i); }
        ReachedStep(s, ds, r, q, i, ds[k - 1]);
        if i + 1 == n {
          NextBatch(q, n);
          q, i := q + 1, 0;
        } else {
          i := i + 1;
        }
      } else {
        SameQuotient(q, i, n, s.count, 0);
        ReachedDry(s, ds, r, ds[k - 1]);
      }
    }
  }

  /** The readings that are taken, of k firings: as many as the packet budget has room for. */
  function Taken(s: Batch, k: nat): (n: nat) {
    if k <= s.count * s.samplesPerMessage then k else s.count * s.samplesPerMessage
  }

  lemma NextBatch(q: nat, n: nat)
    ensures (q + 1) * n == q * n + n
  {
  }

  lemma ItemAt(ds: seq<seq<byte>>, n: nat, q: nat, i: nat)
    requires q * n + i < |ds|
    ensures Item(ds, n, q, i) == ds[q * n + i]
  {
  }

  lemma StartReached(s: Batch, maxPackets: nat, ds: seq<seq<byte>>)
    requires Start(s, maxPackets)
    ensures Reached(s, ds, s, 0, 0) && Run(s, ds[..0]) == s
  {
    assert ds[..0] == [];
  }

  /** Once the budget is used up the next firing only lets the timer lapse. */
  lemma ReachedDry(s: Batch, ds: seq<seq<byte>>, r: Batch, d: seq<byte>)
    requires WellFormed(s) && WellFormed(r) && Reached(s, ds, r, s.count, 0)
    ensures Reached(s, ds, Measured(r, d), s.count, 0) && !Measured(r, d).pending
  {
    hide Half;
  }

  /** xs carries readings m * n .. m * n + n - 1 in order, every ASDU with sample counter m + 1 modulo 65535. */
  predicate Carries(xs: seq<Asdu>, s: Batch, ds: seq<seq<byte>>, m: nat)
    requires |s.asdus| == s.samplesPerMessage
  {
    var n := s.samplesPerMessage;
    && |xs| == n && (m + 1) * n <= |ds|
    && forall j :: 0 <= j < n ==>
         m * n + j < |ds| && xs[j] == s.asdus[j].(data := ds[m * n + j], smpCnt := (m + 1) % 65535)
  }

  lemma MessageCarries(s: Batch, ds: seq<seq<byte>>, m: nat)
    requires |s.asdus| == s.samplesPerMessage && (m + 1) * s.samplesPerMessage <= |ds|
    ensures Carries(Message(s, ds, m), s, ds, m)
  {
    NextBatch(m, s.samplesPerMessage);
  }

  /** Batching over whole runs: however many times Measure fires, the index stays within the message, every full
      batch makes one message, each message takes one from the budget, and message m carries batch m. */
  lemma RunExact(s: Batch, maxPackets: nat, ds: seq<seq<byte>>)
    requires Start(s, maxPackets)
    ensures var r := Run(s, ds); var n := s.samplesPerMessage; var taken := Taken(s, |ds|);
            && r.sampleIndex == taken % n && r.sent == taken / n && r.sent + r.count == Budget(maxPackets)
            && |r.messages| == r.sent && (r.pending <==> |ds| <= Budget(maxPackets) * n)
    ensures forall m :: 0 <= m < |Run(s, ds).messages| ==> Carries(Run(s, ds).messages[m], s, ds, m)
  {
    hide Run, Item, Message, Carries, Half;
    var n := s.samplesPerMessage;
    assert ds[..|ds|] == ds;
    var q, i := RunReached(s, maxPackets, ds, |ds|);
    Divide(Taken(s, |ds|), n, q, i);
    forall m | 0 <= m < q ensures Carries(Message(s, ds, m), s, ds, m) {
      WholeBatches(m + 1, q, n);
      MessageCarries(s, ds, m);
    }
  }
}
