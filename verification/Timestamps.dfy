/** The 8-octet UTC timestamp (iec61850_common.cc): four octets of seconds, three of binary fraction, one of
    quality.  The seconds are counted modulo 2^32. */
module Timestamps {
  import opened Octets

  /** The times at which the seconds field wraps, in milliseconds and in nanoseconds. */
  const MS_LIMIT := 0x1_0000_0000 * 1000
  const NS_LIMIT := 0x1_0000_0000 * 1_000_000_000

  function FractionOctets(f: nat): (s: seq<byte>)
    ensures |s| == 3
  {
    [f / 0x1_0000 % 256, f / 256 % 256, f % 256]
  }

  function FractionOf(s: seq<byte>): (f: nat)
    requires |s| == 3
    ensures f < 0x100_0000
  {
    s[0] as int * 0x1_0000 + s[1] as int * 256 + s[2]
  }

  /** The fixed-point approximation used for milliseconds. */
  function MsFraction(ms: nat): (f: nat)
    requires ms < 1000
    ensures f < 0x100_0000
  {
    ms * 16777 + ms * 216 / 1000
  }

  function NsFraction(ns: nat): (f: nat)
    requires ns < 1_000_000_000
    ensures f < 0x100_0000
  {
    ns * 0x100_0000 / 1_000_000_000
  }

  function MsTime(t: nat): (s: seq<byte>)
    ensures |s| == 7
  {
    U32Octets(t / 1000 % 0x1_0000_0000) + FractionOctets(MsFraction(t % 1000))
  }

  function NsTime(t: nat): (s: seq<byte>)
    ensures |s| == 7
  {
    U32Octets(t / 1_000_000_000 % 0x1_0000_0000) + FractionOctets(NsFraction(t % 1_000_000_000))
  }

  /** getTimeInMs and getTimeInNs of the seven time octets. */
  function InMs(s: seq<byte>): (t: nat)
    requires |s| == 7
  {
    BigEndian(s[..4]) * 1000 + FractionOf(s[4..]) / 16777
  }

  function InNs(s: seq<byte>): (t: nat)
    requires |s| == 7
  {
    BigEndian(s[..4]) * 1_000_000_000 + FractionOf(s[4..]) * 1_000_000_000 / 0x100_0000
  }

  class Timestamp {
    var val: array<byte>

    ghost predicate Valid()
      reads this
    {
      val.Length == 8
    }

    constructor ()
      ensures Valid() && fresh(val)
    {
      val := new byte[8];
    }

    /** Stores seconds and fraction; the quality octet is not touched. */
    method Store(seconds: uint32, f: nat)
      requires Valid()
      modifies val
      ensures val[..] == U32Octets(seconds) + FractionOctets(f) + [old(val[7])]
    {
      val[0] := seconds / 0x100_0000 % 256;
      val[1] := seconds / 0x1_0000 % 256;
      val[2] := seconds / 0x100 % 256;
      val[3] := seconds % 256;
      val[4] := f / 0x1_0000 % 256;
      val[5] := f / 256 % 256;
      val[6] := f % 256;
    }

    method SetTimeInMilliseconds(t: nat)
      requires Valid()
      modifies val
      ensures val[..] == MsTime(t) + [old(val[7])]
    {
      hide U32Octets, FractionOctets;
      var remainder := t % 1000;
      Store(t / 1000 % 0x1_0000_0000, remainder * 16777 + remainder * 216 / 1000);
    }

    method SetTimeInNanoseconds(t: nat)
      requires Valid()
      modifies val
      ensures val[..] == NsTime(t) + [old(val[7])]
    {
      hide U32Octets, FractionOctets;
      var remainder := t % 1_000_000_000;
      Store(t / 1_000_000_000 % 0x1_0000_0000, remainder * 0x100_0000 / 1_000_000_000);
    }
  }

  lemma FractionRoundTrip(f: nat)
    requires f < 0x100_0000
    ensures FractionOf(FractionOctets(f)) == f
  {
    Digits(f);
    assert f / 0x100_0000 == 0;
  }

  lemma TimeParts(seconds: uint32, f: nat)
    requires f < 0x100_0000
    ensures var s := U32Octets(seconds) + FractionOctets(f);
            |s| == 7 && BigEndian(s[..4]) == seconds && FractionOf(s[4..]) == f
  {
    hide BigEndian, FractionOf, FractionOctets, U32Octets;
    var s := U32Octets(seconds) + FractionOctets(f);
    assert s[..4] == U32Octets(seconds) && s[4..] == FractionOctets(f);
    U32RoundTrip(seconds);
    FractionRoundTrip(f);
  }

  /** Setting a whole number of milliseconds through either setter writes the same octets. */
  lemma SettersAgree(t: nat)
    ensures MsTime(t) == NsTime(1_000_000 * t)
  {
    hide U32Octets, FractionOctets;
    var q, r := t / 1000, t % 1000;
    assert 1_000_000 * t == 1_000_000_000 * q + 1_000_000 * r;
    assert 1_000_000 * t / 1_000_000_000 == q && 1_000_000 * t % 1_000_000_000 == 1_000_000 * r;
    FractionsAgree(r);
  }

  lemma FractionsAgree(r: nat)
    requires r < 1000
    ensures MsFraction(r) == NsFraction(1_000_000 * r)
  {
    assert 1_000_000 * r * 0x100_0000 == 1_000_000 * (16777 * r * 1000 + 216 * r);
  }

  lemma WrappedMs(t: nat)
    ensures t % MS_LIMIT == t / 1000 % 0x1_0000_0000 * 1000 + t % 1000
  {
    var q, r := t / 1000, t % 1000;
    var k, m := q / 0x1_0000_0000, q % 0x1_0000_0000;
    assert t == k * MS_LIMIT + (m * 1000 + r);
  }

  lemma WrappedNs(t: nat)
    ensures t % NS_LIMIT == t / 1_000_000_000 % 0x1_0000_0000 * 1_000_000_000 + t % 1_000_000_000
  {
    var q, r := t / 1_000_000_000, t % 1_000_000_000;
    var k, m := q / 0x1_0000_0000, q % 0x1_0000_0000;
    assert t == k * NS_LIMIT + (m * 1_000_000_000 + r);
  }

  lemma MsFractionRead(ms: nat)
    requires ms < 1000
    ensures MsFraction(ms) / 16777 == ms
  {
  }

  /** getMs after setMs gives the time back, modulo 2^32 seconds: it is the identity exactly below that limit. */
  lemma MsRoundTrip(t: nat)
    ensures InMs(MsTime(t)) == t % MS_LIMIT
    ensures InMs(MsTime(t)) == t <==> t < MS_LIMIT
  {
    hide BigEndian, FractionOf, FractionOctets, U32Octets, MsFraction;
    TimeParts(t / 1000 % 0x1_0000_0000, MsFraction(t % 1000));
    MsFractionRead(t % 1000);
    WrappedMs(t);
  }

  /** getNs after setNs loses at most 60 ns, and whole multiples of 2^32 seconds. */
  lemma NsLoss(t: nat)
    ensures t % NS_LIMIT - 60 <= InNs(NsTime(t)) <= t % NS_LIMIT
  {
    hide BigEndian, FractionOf, FractionOctets, U32Octets;
    var r := t % 1_000_000_000;
    TimeParts(t / 1_000_000_000 % 0x1_0000_0000, NsFraction(r));
    WrappedNs(t);
    var f := NsFraction(r);
    assert f * 1_000_000_000 <= r * 0x100_0000 < f * 1_000_000_000 + 1_000_000_000;
  }

  lemma FractionMonotone(r: nat, r': nat)
    requires r <= r' < 1_000_000_000
    ensures NsFraction(r) <= NsFraction(r')
  {
    assert r * 0x100_0000 <= r' * 0x100_0000;
  }

  /** It also keeps the order of any two times below 2^32 seconds. */
  lemma NsMonotone(t: nat, u: nat)
    requires t <= u < NS_LIMIT
    ensures InNs(NsTime(t)) <= InNs(NsTime(u))
  {
    hide BigEndian, FractionOf, FractionOctets, U32Octets;
    var q, r, q', r' := t / 1_000_000_000, t % 1_000_000_000, u / 1_000_000_000, u % 1_000_000_000;
    TimeParts(q, NsFraction(r));
    TimeParts(q', NsFraction(r'));
    if q == q' {
      FractionMonotone(r, r');
    } else {
      assert NsFraction(r) * 1_000_000_000 / 0x100_0000 < 1_000_000_000;
    }
  }

  /** On any octets whatsoever, the millisecond reading is the nanosecond reading rounded down, or one more. */
  lemma ReadingsAgree(s: seq<byte>)
    requires |s| == 7
    ensures InNs(s) / 1_000_000 <= InMs(s) <= InNs(s) / 1_000_000 + 1
  {
    hide BigEndian, FractionOf;
    var q, f := BigEndian(s[..4]), FractionOf(s[4..]);
    FractionReadings(f);
    var n := f * 1_000_000_000 / 0x100_0000;
    assert (q * 1_000_000_000 + n) / 1_000_000 == q * 1000 + n / 1_000_000;
  }

  lemma FractionReadings(f: nat)
    requires f < 0x100_0000
    ensures f * 1_000_000_000 / 0x100_0000 / 1_000_000 <= f / 16777 <= f * 1_000_000_000 / 0x100_0000 / 1_000_000 + 1
  {
    var m := f * 1_000_000_000 / 0x100_0000 / 1_000_000;
    assert m * 1_000_000 <= f * 1_000_000_000 / 0x100_0000 < (m + 1) * 1_000_000;
    assert m * 1_000_000 * 0x100_0000 <= f * 1_000_000_000;
    assert f * 1_000_000_000 < (m + 1) * 1_000_000 * 0x100_0000;
  }
}
