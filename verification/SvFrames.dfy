/** The octets of a sampled-values message (sv_publisher.cc): ASDUs, the APDU around them, the size pass, and
    how a change of one field shows in the octets. */
module SvFrames {
  import opened Octets
  import opened BerLength
  import opened MmsValues
  import opened TlvSlots
  import BerInteger

  /** The content of an ASDU.  None marks a field that was not enabled when the message was laid out. */
  datatype Asdu = Asdu(
    svId: seq<byte>, datset: Option<seq<byte>>, smpCnt: uint16, confRev: uint32, refrTm: Option<seq<byte>>,
    smpSynch: byte, smpRate: Option<uint16>, data: seq<byte>, smpMod: Option<byte>)

  predicate ValidAsdu(a: Asdu) {
    a.refrTm.Some? ==> |a.refrTm.value| == 8
  }

  /** The places of the fields behind svID. */
  const DATSET := 1
  const SMP_CNT := 2
  const CONF_REV := 3
  const REFR_TM := 4
  const SMP_SYNCH := 5
  const SMP_RATE := 6
  const DATA := 7
  const SMP_MOD := 8

  function Slots(a: Asdu): (xs: seq<Slot>)
    ensures |xs| == 9
  {
    [ Present(0x80, a.svId),
      if a.datset.Some? then Present(0x81, a.datset.value) else Absent,
      Present(0x82, U16Octets(a.smpCnt)),
      Present(0x83, U32Octets(a.confRev)),
      if a.refrTm.Some? then Present(0x84, a.refrTm.value) else Absent,
      Present(0x85, [a.smpSynch]),
      if a.smpRate.Some? then Present(0x86, U16Octets(a.smpRate.value)) else Absent,
      Present(0x87, a.data),
      if a.smpMod.Some? then Present(0x88, U16Octets(a.smpMod.value)) else Absent ]
  }

  function AsduBody(a: Asdu): (s: seq<byte>) {
    EncodeSlots(Slots(a))
  }

  /** ASDU_getEncodedSize, from the lengths of the strings and of the data and the optional fields there are. */
  function FieldsSize(svId: seq<byte>, datset: Option<seq<byte>>, refrTm: bool, smpRate: bool, data: nat,
                      smpMod: bool): (n: nat) {
    (1 + AnnounceSize(|svId|) + |svId|)
    + (if datset.Some? then 1 + AnnounceSize(|datset.value|) + |datset.value| else 0)
    + 4 + 6 + (if refrTm then 10 else 0) + 3 + (if smpRate then 4 else 0)
    + (1 + AnnounceSize(data) + data) + (if smpMod then 4 else 0)
  }

  function BodySize(a: Asdu): (n: nat) {
    FieldsSize(a.svId, a.datset, a.refrTm.Some?, a.smpRate.Some?, |a.data|, a.smpMod.Some?)
  }

  /** ASDU_encodeToBuffer. */
  function EncodeAsdu(a: Asdu): (s: seq<byte>) {
    [0x30] + Announce(BodySize(a)) + AsduBody(a)
  }

  function AsduSize(a: Asdu): (n: nat) {
    BodySize(a) + AnnounceSize(BodySize(a)) + 1
  }

  function TotalSize(xs: seq<Asdu>): (n: nat) {
    if xs == [] then 0 else AsduSize(xs[0]) + TotalSize(xs[1..])
  }

  function Encodings(xs: seq<Asdu>): (ss: seq<seq<byte>>)
    ensures |ss| == |xs| && forall i :: 0 <= i < |xs| ==> ss[i] == EncodeAsdu(xs[i])
  {
    seq(|xs|, i requires 0 <= i < |xs| => EncodeAsdu(xs[i]))
  }

  function InnerSize(n: uint32, total: nat): (k: nat) {
    2 + |BerInteger.UIntOctets(n)| + (1 + AnnounceSize(total) + total)
  }

  /** The octets in front of the first ASDU. */
  function ApduHead(n: uint32, total: nat): (s: seq<byte>) {
    [0x60] + Announce(InnerSize(n, total)) + Tlv(0x80, BerInteger.UIntOctets(n)) + [0xa2] + Announce(total)
  }

  /** A whole SV payload: what a fresh encoding of the ASDU list xs would be. */
  function SvPayload(xs: seq<Asdu>): (s: seq<byte>)
    requires |xs| < 0x1_0000_0000
  {
    ApduHead(|xs|, TotalSize(xs)) + Concat(Encodings(xs))
  }

  // ----- the announced lengths are the lengths

  lemma SlotSize(x: Slot)
    requires x.Present? && |x.contents| < 65535
    ensures |SlotOctets(x)| == 1 + AnnounceSize(|x.contents|) + |x.contents|
  {
  }

  lemma NineSlots(xs: seq<Slot>)
    requires |xs| == 9
    ensures |EncodeSlots(xs)| ==
            |SlotOctets(xs[0])| + |SlotOctets(xs[1])| + |SlotOctets(xs[2])| + |SlotOctets(xs[3])| + |SlotOctets(xs[4])|
            + |SlotOctets(xs[5])| + |SlotOctets(xs[6])| + |SlotOctets(xs[7])| + |SlotOctets(xs[8])|
  {
    assert SlotStart(xs, 0) == 0;
    assert xs[..9] == xs;
    hide EncodeSlots, SlotOctets;
    SplitAt(xs, 0); SplitAt(xs, 1); SplitAt(xs, 2); SplitAt(xs, 3); SplitAt(xs, 4);
    SplitAt(xs, 5); SplitAt(xs, 6); SplitAt(xs, 7); SplitAt(xs, 8);
  }

  lemma ShortSlot(x: Slot)
    requires x.Present? ==> |x.contents| < 128
    ensures |SlotOctets(x)| == if x.Present? then 2 + |x.contents| else 0
  {
  }

  lemma BodyLength(a: Asdu)
    requires ValidAsdu(a) && BodySize(a) < 65535
    ensures |AsduBody(a)| == BodySize(a)
  {
    hide EncodeSlots, SlotOctets, AnnounceSize, U16Octets, U32Octets;
    var xs := Slots(a);
    NineSlots(xs);
    SlotSize(xs[0]);
    if a.datset.Some? {
      SlotSize(xs[1]);
    } else {
      ShortSlot(xs[1]);
    }
    ShortSlot(xs[2]);
    ShortSlot(xs[3]);
    ShortSlot(xs[4]);
    ShortSlot(xs[5]);
    ShortSlot(xs[6]);
    SlotSize(xs[7]);
    ShortSlot(xs[8]);
  }

  lemma AsduLength(a: Asdu)
    requires ValidAsdu(a) && BodySize(a) < 65535
    ensures |EncodeAsdu(a)| == AsduSize(a)
  {
    hide AsduBody, BodySize, LengthOctets;
    BodyLength(a);
    LengthSizeExact(BodySize(a));
  }

  predicate AllValid(xs: seq<Asdu>) {
    forall i :: 0 <= i < |xs| ==> ValidAsdu(xs[i])
  }

  lemma {:induction false} ConcatLength(xs: seq<Asdu>)
    requires AllValid(xs) && TotalSize(xs) < 65535
    ensures |Concat(Encodings(xs))| == TotalSize(xs)
    ensures forall i :: 0 <= i < |xs| ==> BodySize(xs[i]) < 65535
  {
    hide BodySize, EncodeAsdu;
    if xs != [] {
      AsduLength(xs[0]);
      ConcatLength(xs[1..]);
      assert Encodings(xs)[1..] == Encodings(xs[1..]);
    }
  }

  lemma SlotAtLeast(x: Slot)
    requires x.Present?
    ensures |SlotOctets(x)| >= 1 + AnnounceSize(|x.contents|) + |x.contents|
  {
    hide Announce, AnnounceSize;
    AnnounceAtLeast(|x.contents|);
  }

  lemma BodyAtLeast(a: Asdu)
    requires ValidAsdu(a)
    ensures |AsduBody(a)| >= BodySize(a)
  {
    hide EncodeSlots, SlotOctets, AnnounceSize, U16Octets, U32Octets;
    var xs := Slots(a);
    NineSlots(xs);
    SlotAtLeast(xs[0]);
    if a.datset.Some? {
      SlotAtLeast(xs[1]);
    }
    ShortSlot(xs[2]);
    ShortSlot(xs[3]);
    ShortSlot(xs[4]);
    ShortSlot(xs[5]);
    ShortSlot(xs[6]);
    SlotAtLeast(xs[7]);
    ShortSlot(xs[8]);
  }

  /** Without any bound on the sizes the ASDUs take at least what the size pass adds up. */
  lemma {:induction false} ConcatAtLeast(xs: seq<Asdu>)
    requires AllValid(xs)
    ensures |Concat(Encodings(xs))| >= TotalSize(xs)
  {
    hide BodySize, AsduBody, Announce, AnnounceSize;
    if xs != [] {
      BodyAtLeast(xs[0]);
      AnnounceAtLeast(BodySize(xs[0]));
      ConcatAtLeast(xs[1..]);
      assert Encodings(xs)[1..] == Encodings(xs[1..]);
    }
  }

  // ----- replacing a field

  /** The same ASDU but for its counter, synchronization, time or data, which keep their widths. */
  predicate SameFrame(a: Asdu, c: Asdu) {
    && a.svId == c.svId && a.datset == c.datset && a.confRev == c.confRev && a.smpRate == c.smpRate
       && a.smpMod == c.smpMod
    && |a.data| == |c.data| && (a.refrTm.Some? <==> c.refrTm.Some?)
  }

  lemma SameFrameSize(a: Asdu, c: Asdu)
    requires SameFrame(a, c)
    ensures BodySize(a) == BodySize(c)
  {
  }

  /** Slot j of a holds octets that slot j of c has replaced, all other slots being equal. */
  predicate DiffersAt(a: Asdu, c: Asdu, j: nat, octets: seq<byte>) {
    && j < 9 && Slots(a)[j].Present? && |octets| == |Slots(a)[j].contents|
    && Slots(c) == Slots(a)[j := Present(Slots(a)[j].tag, octets)]
  }

  /** Position of the contents of slot j within the encoding of a. */
  function FieldOffset(a: Asdu, j: nat): (n: nat)
    requires j < 9 && Slots(a)[j].Present?
  {
    1 + |Announce(BodySize(a))| + SlotOffset(Slots(a), j)
  }

  lemma PatchAsdu(a: Asdu, c: Asdu, j: nat, octets: seq<byte>)
    requires DiffersAt(a, c, j, octets) && BodySize(a) == BodySize(c)
    ensures FieldOffset(a, j) + |octets| <= |EncodeAsdu(a)|
    ensures EncodeAsdu(c) == Splice(EncodeAsdu(a), FieldOffset(a, j), octets)
  {
    hide Slots, BodySize, Announce, SlotOffset, EncodeSlots, Splice;
    PatchSlot(Slots(a), j, octets);
    SpliceBehind([0x30] + Announce(BodySize(a)), AsduBody(a), SlotOffset(Slots(a), j), octets);
  }

  /** Position of the encoding of ASDU i within the payload. */
  function AsduOffset(xs: seq<Asdu>, i: nat): (n: nat)
    requires i < |xs| < 0x1_0000_0000
  {
    |ApduHead(|xs|, TotalSize(xs))| + |Concat(Encodings(xs)[..i])|
  }

  /** Position of the contents of field j of ASDU i within the payload. */
  function Position(xs: seq<Asdu>, i: nat, j: nat): (n: nat)
    requires i < |xs| < 0x1_0000_0000 && j < 9 && Slots(xs[i])[j].Present?
  {
    AsduOffset(xs, i) + FieldOffset(xs[i], j)
  }

  lemma {:induction false} SameTotal(xs: seq<Asdu>, i: nat, c: Asdu)
    requires i < |xs| && BodySize(c) == BodySize(xs[i])
    ensures TotalSize(xs[i := c]) == TotalSize(xs)
  {
    hide BodySize;
    if i > 0 {
      assert xs[i := c][1..] == xs[1..][i - 1 := c];
      SameTotal(xs[1..], i - 1, c);
    } else {
      assert xs[i := c][1..] == xs[1..];
    }
  }

  /** Patching one field of one ASDU in the payload gives the fresh encoding of the changed list. */
  lemma PatchPayload(xs: seq<Asdu>, i: nat, c: Asdu, j: nat, octets: seq<byte>)
    requires i < |xs| < 0x1_0000_0000 && DiffersAt(xs[i], c, j, octets) && BodySize(c) == BodySize(xs[i])
    ensures Position(xs, i, j) + |octets| <= |SvPayload(xs)|
    ensures SvPayload(xs[i := c]) == Splice(SvPayload(xs), Position(xs, i, j), octets)
  {
    hide BodySize, EncodeAsdu, Slots, FieldOffset, ApduHead, TotalSize, Concat, Splice;
    var ys := xs[i := c];
    SameTotal(xs, i, c);
    PatchAsdu(xs[i], c, j, octets);
    var ss := Encodings(xs);
    assert Encodings(ys) == ss[i := Splice(ss[i], FieldOffset(xs[i], j), octets)];
    PatchConcat(ss, i, FieldOffset(xs[i], j), octets);
    SpliceBehind(ApduHead(|xs|, TotalSize(xs)), Concat(ss), |Concat(ss[..i])| + FieldOffset(xs[i], j), octets);
  }

  /** So fields keep their places when contents are replaced. */
  lemma PositionStable(xs: seq<Asdu>, i: nat, c: Asdu, i': nat, j: nat)
    requires i < |xs| < 0x1_0000_0000 && i' < |xs| && SameFrame(xs[i], c) && ValidAsdu(c) && AllValid(xs)
    requires TotalSize(xs) < 65535 && j < 9 && Slots(xs[i'])[j].Present?
    ensures Slots(xs[i := c][i'])[j].Present?
    ensures Position(xs[i := c], i', j) == Position(xs, i', j)
  {
    hide ApduHead, TotalSize, EncodeSlots, Announce, EncodeAsdu, BodySize, Concat;
    var ys := xs[i := c];
    SameFrameSize(xs[i], c);
    SameTotal(xs, i, c);
    PrefixLength(xs, i');
    PrefixLength(ys, i');
    SizesStable(xs, i, c, i');
    if i == i' {
      OffsetStable(xs[i], c, j);
    }
  }

  function Sizes(xs: seq<Asdu>, i: nat): (n: nat)
    requires i <= |xs|
  {
    TotalSize(xs[..i])
  }

  lemma SizesStable(xs: seq<Asdu>, i: nat, c: Asdu, k: nat)
    requires i < |xs| && k <= |xs| && BodySize(c) == BodySize(xs[i])
    ensures Sizes(xs[i := c], k) == Sizes(xs, k)
  {
    hide BodySize, TotalSize;
    if i < k {
      assert xs[i := c][..k] == xs[..k][i := c];
      SameTotal(xs[..k], i, c);
    } else {
      assert xs[i := c][..k] == xs[..k];
    }
  }

  lemma {:induction false} TotalAppend(xs: seq<Asdu>, ys: seq<Asdu>)
    ensures TotalSize(xs + ys) == TotalSize(xs) + TotalSize(ys)
  {
    hide AsduSize;
    if xs == [] {
      assert xs + ys == ys;
    } else {
      assert (xs + ys)[1..] == xs[1..] + ys;
      TotalAppend(xs[1..], ys);
    }
  }

  lemma PrefixLength(xs: seq<Asdu>, i: nat)
    requires i <= |xs| && AllValid(xs) && TotalSize(xs) < 65535
    ensures |Concat(Encodings(xs)[..i])| == Sizes(xs, i)
  {
    hide TotalSize, Concat, EncodeAsdu;
    assert xs == xs[..i] + xs[i..];
    TotalAppend(xs[..i], xs[i..]);
    assert Encodings(xs)[..i] == Encodings(xs[..i]);
    ConcatLength(xs[..i]);
  }

  lemma OffsetStable(a: Asdu, c: Asdu, j: nat)
    requires SameFrame(a, c) && ValidAsdu(a) && ValidAsdu(c) && j < 9 && Slots(a)[j].Present?
    ensures Slots(c)[j].Present? && FieldOffset(c, j) == FieldOffset(a, j)
  {
    hide Announce, BodySize, EncodeSlots, SlotOctets, U16Octets, U32Octets;
    SameFrameSize(a, c);
    var xs, ys := Slots(a), Slots(c);
    forall k | 0 <= k < 9 ensures |SlotOctets(xs[k])| == |SlotOctets(ys[k])| {
      EqualWidth(xs[k], ys[k]);
    }
    SlotStartStable(xs, ys, j);
  }

  lemma EqualWidth(x: Slot, y: Slot)
    requires x.Present? <==> y.Present?
    requires x.Present? ==> |x.contents| == |y.contents|
    ensures |SlotOctets(x)| == |SlotOctets(y)|
  {
  }

  lemma FirstStart(xs: seq<Slot>)
    ensures SlotStart(xs, 0) == 0
  {
    assert xs[..0] == [];
  }

  predicate SameShape(xs: seq<Slot>, ys: seq<Slot>) {
    && |xs| == |ys|
    && forall i :: 0 <= i < |xs| ==> |SlotOctets(xs[i])| == |SlotOctets(ys[i])|
  }

  lemma {:induction false} SlotStartStable(xs: seq<Slot>, ys: seq<Slot>, j: nat)
    requires SameShape(xs, ys) && j <= |xs|
    ensures SlotStart(xs, j) == SlotStart(ys, j)
  {
    hide EncodeSlots, SlotOctets, SlotStart;
    if j == 0 {
      FirstStart(xs);
      FirstStart(ys);
    } else {
      SlotStartStable(xs, ys, j - 1);
      SplitAt(xs, j - 1);
      SplitAt(ys, j - 1);
    }
  }
}
