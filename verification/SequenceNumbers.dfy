/** The stNum/sqNum protocol: how a publisher numbers its messages over a whole run (goose_publisher.cc) and how
    a subscriber judges what reaches it (goose_receiver.cc). */
module SequenceNumbers {
  import opened Octets

  const UINT32_MAX: uint32 := 0xffff_ffff

  /** A 32-bit counter that skips zero when it overflows, as both stNum and sqNum do. */
  function Advance(n: uint32): (r: uint32)
    ensures r != 0
  {
    if n == UINT32_MAX then 1 else n + 1
  }

  datatype Numbers = Numbers(st: uint32, sq: uint32)

  /** What a publisher is asked to do: publish, announce a new state (increaseStNum), or reset. */
  datatype Op = Publish | NewState | Reset

  function Start(): (n: Numbers) {
    Numbers(1, 0)
  }

  function After(n: Numbers, op: Op): (r: Numbers) {
    match op
    case Publish => Numbers(n.st, Advance(n.sq))
    case NewState => Numbers(Advance(n.st), 0)
    case Reset => Start()
  }

  /** The numbers on the wire over a run, one pair per publication. */
  function Wire(n: Numbers, ops: seq<Op>): (s: seq<Numbers>)
    decreases ops
  {
    if ops == [] then []
    else (if ops[0] == Publish then [n] else []) + Wire(After(n, ops[0]), ops[1..])
  }

  // ----- where a message stands in the run

  /** The state a message belongs to, counted from the last reset, and how many were published in it before. */
  datatype Stamp = Stamp(state: nat, index: nat)

  function Stamped(t: Stamp, op: Op): (r: Stamp) {
    match op
    case Publish => Stamp(t.state, t.index + 1)
    case NewState => Stamp(t.state + 1, 0)
    case Reset => Stamp(0, 0)
  }

  function Stamps(t: Stamp, ops: seq<Op>): (s: seq<Stamp>)
    decreases ops
  {
    if ops == [] then []
    else (if ops[0] == Publish then [t] else []) + Stamps(Stamped(t, ops[0]), ops[1..])
  }

  /** stNum of the k-th state, and sqNum of the k-th message of a state. */
  function StNum(state: nat): (n: uint32) {
    1 + state % UINT32_MAX
  }

  function SqNum(index: nat): (n: uint32) {
    if index == 0 then 0 else 1 + (index - 1) % UINT32_MAX
  }

  function NumbersOf(t: Stamp): (n: Numbers) {
    Numbers(StNum(t.state), SqNum(t.index))
  }

  lemma AdvanceStNum(k: nat)
    ensures Advance(StNum(k)) == StNum(k + 1)
  {
  }

  lemma AdvanceSqNum(k: nat)
    ensures Advance(SqNum(k)) == SqNum(k + 1)
  {
    if k > 0 {
      AdvanceStNum(k - 1);
    }
  }

  lemma StampedNumbers(t: Stamp, op: Op)
    ensures After(NumbersOf(t), op) == NumbersOf(Stamped(t, op))
  {
    hide Advance, StNum, SqNum;
    AdvanceStNum(t.state);
    AdvanceSqNum(t.index);
    assert StNum(0) == 1 && SqNum(0) == 0 by { FirstNumbers(); }
  }

  lemma FirstNumbers()
    ensures StNum(0) == 1 && SqNum(0) == 0
  {
  }

  /** In every run, whatever its length and however often it wraps or resets, the numbers on the wire are the
      ones their position in the run prescribes. */
  lemma {:induction false} WireNumbers(t: Stamp, ops: seq<Op>)
    ensures |Wire(NumbersOf(t), ops)| == |Stamps(t, ops)|
    ensures forall i :: 0 <= i < |Stamps(t, ops)| ==> Wire(NumbersOf(t), ops)[i] == NumbersOf(Stamps(t, ops)[i])
    decreases ops
  {
    hide NumbersOf, Stamped, After;
    if ops != [] {
      StampedNumbers(t, ops[0]);
      WireNumbers(Stamped(t, ops[0]), ops[1..]);
    }
  }

  /** stNum is never 0 on the wire, and sqNum is 0 only on the first message of a state. */
  lemma ZeroOnlyFirst(ops: seq<Op>)
    ensures |Wire(Start(), ops)| == |Stamps(Stamp(0, 0), ops)|
    ensures forall i :: 0 <= i < |Wire(Start(), ops)| ==>
              && Wire(Start(), ops)[i].st != 0
              && (Wire(Start(), ops)[i].sq == 0 <==> Stamps(Stamp(0, 0), ops)[i].index == 0)
  {
    hide Wire, Stamps;
    WireNumbers(Stamp(0, 0), ops);
  }

  // ----- the subscriber's verdict

  /** The receiver's rule: a message is out of sequence if it repeats stNum without advancing sqNum. */
  predicate InSequence(last: Numbers, n: Numbers) {
    !(last.st == n.st && last.sq >= n.sq)
  }

  predicate Before(t: Stamp, u: Stamp) {
    t.state < u.state || (t.state == u.state && t.index < u.index)
  }

  lemma {:induction false} StampsFrom(t: Stamp, ops: seq<Op>)
    requires Reset !in ops
    ensures forall i :: 0 <= i < |Stamps(t, ops)| ==> Stamps(t, ops)[i] == t || Before(t, Stamps(t, ops)[i])
    decreases ops
  {
    if ops != [] {
      StampsFrom(Stamped(t, ops[0]), ops[1..]);
    }
  }

  /** Without a reset, publications are ordered by state and then by index. */
  lemma {:induction false} StampsOrdered(t: Stamp, ops: seq<Op>)
    requires Reset !in ops
    ensures forall i, j :: 0 <= i < j < |Stamps(t, ops)| ==> Before(Stamps(t, ops)[i], Stamps(t, ops)[j])
    decreases ops
  {
    if ops != [] {
      StampsOrdered(Stamped(t, ops[0]), ops[1..]);
      StampsFrom(Stamped(t, ops[0]), ops[1..]);
      if ops[0] == Publish {
        var rest := Stamps(Stamped(t, ops[0]), ops[1..]);
        var all := Stamps(t, ops);
        assert all == [t] + rest;
        forall i, j | 0 <= i < j < |all| ensures Before(all[i], all[j]) {
          if i == 0 {
            assert all[j] == rest[j - 1];
          } else {
            assert all[i] == rest[i - 1] && all[j] == rest[j - 1];
          }
        }
      }
    }
  }

  /** For a message u delivered after t the exact condition: their states do not carry the same stNum, or their
      positions carry increasing sqNums. */
  lemma VerdictExact(t: Stamp, u: Stamp)
    requires Before(t, u)
    ensures InSequence(NumbersOf(t), NumbersOf(u)) <==>
            (u.state - t.state) % UINT32_MAX != 0 || SqNum(t.index) < SqNum(u.index)
  {
    hide SqNum;
    SameResidue(t.state, u.state);
  }

  lemma SameResidue(a: nat, b: nat)
    ensures a % UINT32_MAX == b % UINT32_MAX <==> (b - a) % UINT32_MAX == 0
  {
    assert b - a == (b / UINT32_MAX - a / UINT32_MAX) * UINT32_MAX + (b % UINT32_MAX - a % UINT32_MAX);
  }

  /** So within one state, message after message, the verdict fails exactly where sqNum wraps. */
  lemma ConsecutiveVerdict(state: nat, index: nat)
    ensures InSequence(NumbersOf(Stamp(state, index)), NumbersOf(Stamp(state, index + 1))) <==>
            SqNum(index) != UINT32_MAX
  {
    AdvanceSqNum(index);
  }

  /** n publications and nothing else. */
  function Publications(n: nat): (ops: seq<Op>)
    ensures |ops| == n
  {
    if n == 0 then [] else [Publish] + Publications(n - 1)
  }

  lemma {:induction false} PublicationStamps(t: Stamp, n: nat)
    ensures |Stamps(t, Publications(n))| == n
    ensures forall i :: 0 <= i < n ==> Stamps(t, Publications(n))[i] == Stamp(t.state, t.index + i)
    decreases n
  {
    if n > 0 {
      var ops := Publications(n);
      assert ops[0] == Publish && ops[1..] == Publications(n - 1);
      PublicationStamps(Stamp(t.state, t.index + 1), n - 1);
      assert Stamps(t, ops) == [t] + Stamps(Stamp(t.state, t.index + 1), ops[1..]);
    }
  }

  /** The first state reaches the wrap with its message 2^32, counted from zero: it carries sqNum 1 behind sqNum
      2^32 - 1 and is judged out of sequence although nothing was lost. */
  lemma WrapRejected(n: nat)
    requires n > 0x1_0000_0000
    ensures var ns := Wire(Start(), Publications(n));
            && |ns| == n && ns[0xffff_ffff] == Numbers(1, UINT32_MAX) && ns[0x1_0000_0000] == Numbers(1, 1)
            && !InSequence(ns[0xffff_ffff], ns[0x1_0000_0000])
  {
    hide Wire, Stamps, Publications;
    PublicationStamps(Stamp(0, 0), n);
    WireNumbers(Stamp(0, 0), Publications(n));
    assert NumbersOf(Stamp(0, 0)) == Start();
  }

  /** Close enough for the counters not to have gone round: at most 2^32 messages per state, and fewer than
      2^32 - 1 new states in between. */
  predicate WithinRange(t: Stamp, u: Stamp) {
    u.index <= UINT32_MAX && u.state < t.state + UINT32_MAX
  }

  lemma WithinRangeInSequence(t: Stamp, u: Stamp)
    requires Before(t, u) && WithinRange(t, u)
    ensures InSequence(NumbersOf(t), NumbersOf(u))
  {
    if t.state != u.state {
      hide SqNum;
      SameResidue(t.state, u.state);
    }
  }

  /** A subscriber's verdicts on a series of deliveries. */
  function Verdicts(last: Numbers, ns: seq<Numbers>): (vs: seq<bool>)
    ensures |vs| == |ns|
    decreases ns
  {
    if ns == [] then [] else [InSequence(last, ns[0])] + Verdicts(ns[0], ns[1..])
  }

  lemma {:induction false} VerdictAt(last: Numbers, ns: seq<Numbers>, i: nat)
    requires i < |ns|
    ensures Verdicts(last, ns)[i] == InSequence(if i == 0 then last else ns[i - 1], ns[i])
    decreases ns
  {
    hide InSequence;
    if i > 0 {
      VerdictAt(ns[0], ns[1..], i - 1);
    }
  }

  /** Lossy in-order delivery: a fresh subscriber that gets any increasing selection of the publications of a
      reset-free run, consecutive ones within range, judges every single one in sequence. */
  lemma LossyDelivery(ops: seq<Op>, picked: seq<nat>)
    requires Reset !in ops
    requires forall i :: 0 <= i < |picked| ==> picked[i] < |Stamps(Stamp(0, 0), ops)|
    requires forall i :: 0 < i < |picked| ==>
               picked[i - 1] < picked[i] &&
               WithinRange(Stamps(Stamp(0, 0), ops)[picked[i - 1]], Stamps(Stamp(0, 0), ops)[picked[i]])
    ensures |Wire(Start(), ops)| == |Stamps(Stamp(0, 0), ops)|
    ensures var ns := seq(|picked|, i requires 0 <= i < |picked| => Wire(Start(), ops)[picked[i]]);
            forall i :: 0 <= i < |picked| ==> Verdicts(Numbers(0, 0), ns)[i]
  {
    hide Wire, Stamps, Verdicts, WithinRange, Before, InSequence;
    WireNumbers(Stamp(0, 0), ops);
    StampsOrdered(Stamp(0, 0), ops);
    var ts := Stamps(Stamp(0, 0), ops);
    var ns := seq(|picked|, i requires 0 <= i < |picked| => Wire(Start(), ops)[picked[i]]);
    assert NumbersOf(Stamp(0, 0)) == Start();
    forall i | 0 <= i < |picked| ensures Verdicts(Numbers(0, 0), ns)[i] {
      assert ns[i] == NumbersOf(ts[picked[i]]);
      VerdictAt(Numbers(0, 0), ns, i);
      if i > 0 {
        assert ns[i - 1] == NumbersOf(ts[picked[i - 1]]);
        WithinRangeInSequence(ts[picked[i - 1]], ts[picked[i]]);
      } else {
        FirstVerdict(ns[0]);
      }
    }
  }

  lemma FirstVerdict(n: Numbers)
    ensures n.st != 0 ==> InSequence(Numbers(0, 0), n)
  {
  }

  /** An immediate second delivery of the same message is always judged out of sequence. */
  lemma Redelivery(last: Numbers, n: Numbers)
    ensures Verdicts(last, [n, n])[1] == false
  {
    VerdictAt(last, [n, n], 1);
  }
}
