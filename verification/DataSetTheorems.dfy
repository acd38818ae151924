/** What the two data-set parsers guarantee together: that learning and refreshing agree, and that learning recovers
    what the encoder sent. */
module DataSetTheorems {
  import opened Octets
  import opened BerLength
  import opened MmsValues
  import opened DataSets
  import BerInteger

  // ----- learning and refreshing agree

  /** No slot anywhere in the tree was left empty. */
  predicate FullySet(v: MmsValue) {
    match v
    case Unset => false
    case MmsArray(es) => forall i :: 0 <= i < |es| ==> FullySet(es[i])
    case MmsStructure(es) => forall i :: 0 <= i < |es| ==> FullySet(es[i])
    case _ => true
  }

  predicate AllFullySet(vs: seq<MmsValue>) {
    forall i :: 0 <= i < |vs| ==> FullySet(vs[i])
  }

  /** Two elements with equal tag and length, equal padding if a bit string, equal shape inside if nested. */
  predicate SameElement(b1: seq<byte>, e1: Element, b2: seq<byte>, e2: Element)
    requires Window(b1, e1.start, e1.start + e1.size) && Window(b2, e2.start, e2.start + e2.size)
    decreases e1.size, 1
  {
    && e1.tag == e2.tag && e1.size == e2.size
    && (e1.tag == 0x84 && e1.size > 0 ==> b1[e1.start] == b2[e2.start])
    && (e1.tag == 0xa1 || e1.tag == 0xa2 ==>
          SameShape(b1, e1.start, e1.start + e1.size, b2, e2.start, e2.start + e2.size))
  }

  /** Two windows with the same nested shape. */
  predicate SameShape(b1: seq<byte>, p1: nat, end1: nat, b2: seq<byte>, p2: nat, end2: nat)
    requires Window(b1, p1, end1) && Window(b2, p2, end2)
    decreases end1 - p1, 0
  {
    if p1 >= end1 || p2 >= end2 then p1 >= end1 && p2 >= end2
    else
      var r1, r2 := Decode(b1, p1 + 1, end1), Decode(b2, p2 + 1, end2);
      && r1.Length? && r2.Length?
      && SameElement(b1, Element(b1[p1], r1.start, r1.size), b2, Element(b2[p2], r2.start, r2.size))
      && SameShape(b1, r1.start + r1.size, end1, b2, r2.start + r2.size, end2)
  }

  lemma PrimitiveAgree(b1: seq<byte>, e1: Element, b2: seq<byte>, e2: Element)
    requires Window(b1, e1.start, e1.start + e1.size) && Window(b2, e2.start, e2.start + e2.size)
    requires e1.tag == e2.tag && e1.size == e2.size
    requires e1.tag == 0x84 && e1.size > 0 ==> b1[e1.start] == b2[e2.start]
    requires LearnPrimitive(b1, e1.tag, e1.start, e1.size).Learned?
    ensures var v1 := LearnPrimitive(b1, e1.tag, e1.start, e1.size).value;
            var l2 := LearnPrimitive(b2, e2.tag, e2.start, e2.size);
            !v1.Unset? && l2.Learned? && RefreshPrimitive(b2, e2.tag, e2.start, e2.size, v1) == (NoError, l2.value)
  {
    var c := b2[e2.start..e2.start + e2.size];
    if e1.tag == 0x84 {
      assert Splice(b1[e1.start..e1.start + e1.size][1..], 0, c[1..]) == c[1..];
    } else if e1.tag == 0x8c && e1.size == 4 {
      var z := b1[e1.start..e1.start + 4] + [0, 0];
      assert Splice(z, 0, c) == c + [0, 0];
    } else if e1.tag == 0x8c && e1.size == 6 {
      assert Splice(b1[e1.start..e1.start + 6], 0, c) == c;
    }
  }

  lemma {:induction false} ElementAgree(b1: seq<byte>, e1: Element, b2: seq<byte>, e2: Element)
    requires Window(b1, e1.start, e1.start + e1.size) && Window(b2, e2.start, e2.start + e2.size)
    requires SameElement(b1, e1, b2, e2)
    requires LearnOne(b1, e1.tag, e1.start, e1.size).Learned?
    requires FullySet(LearnOne(b1, e1.tag, e1.start, e1.size).value)
    ensures var v1 := LearnOne(b1, e1.tag, e1.start, e1.size).value;
            var l2 := LearnOne(b2, e2.tag, e2.start, e2.size);
            l2.Learned? && RefreshOne(b2, e2.tag, e2.start, e2.size, v1) == (NoError, l2.value)
    decreases e1.size, 2
  {
    hide Learn, Refresh, LearnPrimitive, RefreshPrimitive, SameShape;
    if e1.tag == 0xa1 || e1.tag == 0xa2 {
      WindowAgree(b1, e1.start, e1.start + e1.size, b2, e2.start, e2.start + e2.size, e1.tag == 0xa2);
    } else {
      PrimitiveAgree(b1, e1, b2, e2);
    }
  }

  /** The build pass never fills more slots than were counted. */
  lemma BuildBound(b: seq<byte>, pos: nat, end: nat)
    requires Window(b, pos, end) && Count(b, pos, end).Some? && Build(b, pos, end).Some?
    ensures |Build(b, pos, end).value| <= Count(b, pos, end).value
  {
    hide Build, Count;
    PassesVisitSameElements(b, pos, end);
  }

  lemma {:induction false} BuildAgree(b1: seq<byte>, p1: nat, end1: nat, b2: seq<byte>, p2: nat, end2: nat)
    requires Window(b1, p1, end1) && Window(b2, p2, end2) && SameShape(b1, p1, end1, b2, p2, end2)
    requires Count(b1, p1, end1).Some? && Build(b1, p1, end1).Some?
    requires |Build(b1, p1, end1).value| == Count(b1, p1, end1).value && AllFullySet(Build(b1, p1, end1).value)
    ensures Count(b2, p2, end2) == Count(b1, p1, end1)
    ensures Build(b2, p2, end2).Some? && |Build(b2, p2, end2).value| == |Build(b1, p1, end1).value|
    ensures Refresh(b2, p2, end2, Build(b1, p1, end1).value) == (NoError, Build(b2, p2, end2).value)
    decreases end1 - p1, 0
  {
    hide Decode, LearnOne, RefreshOne, SameElement, Count, Build, Refresh;
    if p1 == end1 {
      CountDone(b1, end1);
      CountDone(b2, end2);
      BuildDone(b1, end1);
      BuildDone(b2, end2);
      RefreshDone(b2, end2);
    } else {
      var r1, r2 := Decode(b1, p1 + 1, end1), Decode(b2, p2 + 1, end2);
      var e1, e2 := Element(b1[p1], r1.start, r1.size), Element(b2[p2], r2.start, r2.size);
      CountStep(b1, p1, end1);
      BuildStep(b1, p1, end1);
      BuildBound(b1, r1.start + r1.size, end1);
      var vs := Build(b1, p1, end1).value;
      assert LearnOne(b1, e1.tag, e1.start, e1.size).Learned?;
      assert FullySet(vs[0]) && vs[1..] == Build(b1, r1.start + r1.size, end1).value;
      SameElementTag(b1, e1, b2, e2);
      ElementAgree(b1, e1, b2, e2);
      BuildAgree(b1, r1.start + r1.size, end1, b2, r2.start + r2.size, end2);
      CountStep(b2, p2, end2);
      BuildStep(b2, p2, end2);
      RefreshStep(b2, p2, end2, vs);
    }
  }

  lemma SameElementTag(b1: seq<byte>, e1: Element, b2: seq<byte>, e2: Element)
    requires Window(b1, e1.start, e1.start + e1.size) && Window(b2, e2.start, e2.start + e2.size)
    requires SameElement(b1, e1, b2, e2)
    ensures e1.tag == e2.tag
  {
  }

  lemma PaddingIsUnset(vs: seq<MmsValue>, n: nat)
    requires |vs| < n
    ensures !AllFullySet(vs + Repeat(Unset, n - |vs|))
  {
    assert (vs + Repeat(Unset, n - |vs|))[|vs|] == Unset;
  }

  /** Refreshing a learned tree from a window of the same shape succeeds and gives exactly the tree that
      learning that window from scratch would give. */
  lemma {:induction false} WindowAgree(b1: seq<byte>, p1: nat, end1: nat, b2: seq<byte>, p2: nat, end2: nat,
                                       isStructure: bool)
    requires Window(b1, p1, end1) && Window(b2, p2, end2) && SameShape(b1, p1, end1, b2, p2, end2)
    requires Learn(b1, p1, end1, isStructure).Some? && FullySet(Learn(b1, p1, end1, isStructure).value)
    ensures Learn(b2, p2, end2, isStructure).Some?
    ensures Refresh(b2, p2, end2, Learn(b1, p1, end1, isStructure).value.elements) ==
            (NoError, Learn(b2, p2, end2, isStructure).value.elements)
    decreases end1 - p1, 1
  {
    hide Count, Build, Refresh, SameShape;
    BuildBound(b1, p1, end1);
    var n, vs := Count(b1, p1, end1).value, Build(b1, p1, end1).value;
    var v := Learn(b1, p1, end1, isStructure).value;
    assert v.elements == vs + Repeat(Unset, n - |vs|);
    if |vs| < n {
      PaddingIsUnset(vs, n);
    }
    assert v.elements == vs;
    BuildAgree(b1, p1, end1, b2, p2, end2);
    assert Build(b2, p2, end2).value + Repeat(Unset, 0) == Build(b2, p2, end2).value;
  }

  // ----- learning what was encoded

  /** The values the learning parser can rebuild from their encoding. */
  predicate Learnable(v: MmsValue) {
    match v
    case MmsBitString(n, _) => n > 0
    case MmsInteger(octets, _) => |octets| <= 8
    case MmsUnsigned(octets, _) => |octets| <= 8
    case MmsArray(es) => forall i :: 0 <= i < |es| ==> Learnable(es[i])
    case MmsStructure(es) => forall i :: 0 <= i < |es| ==> Learnable(es[i])
    case MmsString(_, _) => false
    case MmsDataAccessError(_) => false
    case _ => true
  }

  predicate AllLearnable(vs: seq<MmsValue>) {
    forall i :: 0 <= i < |vs| ==> Learnable(vs[i])
  }

  /** The value as a receiver holds it: same content, capacities chosen by the receiver. */
  function Received(v: MmsValue): (r: MmsValue)
    requires Encodable(v) && Learnable(v)
    ensures FullySet(r)
  {
    match v
    case MmsBoolean(_) => v
    case MmsBitString(n, bits) => MmsBitString(n, MaskedBits(n, bits))
    case MmsInteger(octets, _) => MmsInteger(octets, IntegerCapacity(|octets|))
    case MmsUnsigned(octets, _) => MmsUnsigned(octets, IntegerCapacity(|octets|))
    case MmsFloat(_, _) => v
    case MmsOctetString(octets, _) => MmsOctetString(octets, |octets|)
    case MmsVisibleString(chars, _) => MmsVisibleString(Some(Text(chars)), Int16(|Text(chars)|))
    case MmsBinaryTime(n, buf) => MmsBinaryTime(n, if n == 4 then buf[..4] + [0, 0] else buf)
    case MmsUtcTime(_) => v
    case MmsArray(es) => MmsArray(ReceivedAll(es))
    case MmsStructure(es) => MmsStructure(ReceivedAll(es))
  }

  function ReceivedAll(vs: seq<MmsValue>): (r: seq<MmsValue>)
    requires AllEncodable(vs) && AllLearnable(vs)
    ensures |r| == |vs| && AllFullySet(r)
  {
    if vs == [] then [] else [Received(vs[0])] + ReceivedAll(vs[1..])
  }

  /** Where the encoder's octets for v are, an element scan finds v's tag and its body. */
  lemma EncodedElement(b: seq<byte>, pos: nat, end: nat, tag: byte, c: seq<byte>)
    requires HasAt(b, pos, Tlv(tag, c)) && |c| < 0x100_0000 && pos + |Tlv(tag, c)| <= end < |b|
    ensures pos < end && b[pos] == tag
    ensures Decode(b, pos + 1, end) == Length(pos + |Tlv(tag, c)| - |c|, |c|)
    ensures HasAt(b, pos + |Tlv(tag, c)| - |c|, c)
  {
    hide Decode, LengthOctets;
    HasAtSplit(b, pos, [tag], Announce(|c|) + c);
    HasAtIndex(b, pos, [tag], 0);
    HasAtSplit(b, pos + 1, Announce(|c|), c);
    LengthOctetsRead(b, pos + 1, |c|, end);
  }

  lemma BitStringLearned(b: seq<byte>, start: nat, v: MmsValue)
    requires Encodable(v) && v.MmsBitString?
    requires HasAt(b, start, Contents(v)) && Window(b, start, start + |Contents(v)|)
    ensures LearnPrimitive(b, 0x84, start, |Contents(v)|) ==
            if v.bitSize > 0 then Learned(MmsBitString(v.bitSize, MaskedBits(v.bitSize, v.bits))) else Failed
  {
    hide MaskedBits, LearnPrimitive, HasAt;
    var c := Contents(v);
    assert c[1..] == MaskedBits(v.bitSize, v.bits);
    LearnBits(b, start, c);
  }

  lemma LearnBits(b: seq<byte>, start: nat, c: seq<byte>)
    requires HasAt(b, start, c) && Window(b, start, start + |c|)
    ensures LearnPrimitive(b, 0x84, start, |c|) ==
            if |c| > 1 && c[0] <= 7 then Learned(MmsBitString(8 * (|c| - 1) - c[0], c[1..])) else Failed
  {
  }

  lemma PrimitiveLearned(b: seq<byte>, start: nat, v: MmsValue)
    requires Encodable(v) && !v.MmsArray? && !v.MmsStructure? && !v.MmsBitString?
    requires HasAt(b, start, Contents(v)) && Window(b, start, start + |Contents(v)|)
    ensures LearnPrimitive(b, Tag(v), start, |Contents(v)|) ==
            if Learnable(v) then Learned(Received(v)) else Failed
  {
    hide MaskedBits, Text, ReceivedAll, SizeAll, BerInteger.UIntOctets;
    if v.MmsFloat? {
      assert Contents(v)[1..] == v.source;
    } else if v.MmsBoolean? {
      HasAtIndex(b, start, Contents(v), 0);
    }
  }

  lemma {:induction false} EncodedLearned(b: seq<byte>, start: nat, v: MmsValue)
    requires Encodable(v) && Excess(v) == 0 && |Body(v)| < 0x100_0000
    requires HasAt(b, start, Body(v)) && Window(b, start, start + |Body(v)|)
    ensures LearnOne(b, Tag(v), start, |Body(v)|) == if Learnable(v) then Learned(Received(v)) else Failed
    decreases v
  {
    hide Learn, LearnPrimitive, EncodeAll, Contents, SizeAll, ReceivedAll, AnnounceSize, Announce, MaskedBits;
    if v.MmsArray? || v.MmsStructure? {
      assert |Announce(SizeAll(v.elements))| >= AnnounceSize(SizeAll(v.elements))
          by { AnnounceAtLeast(SizeAll(v.elements)); }
      LearnEncoded(b, start, v.elements, v.MmsStructure?);
    } else if v.MmsBitString? {
      BitStringLearned(b, start, v);
    } else {
      PrimitiveLearned(b, start, v);
    }
  }

  lemma {:induction false} BuildEncoded(b: seq<byte>, pos: nat, vs: seq<MmsValue>)
    requires AllEncodable(vs) && ExcessAll(vs) == 0 && |EncodeAll(vs)| < 0x100_0000
    requires HasAt(b, pos, EncodeAll(vs)) && Window(b, pos, pos + |EncodeAll(vs)|)
    ensures AllLearnable(vs) ==> Count(b, pos, pos + |EncodeAll(vs)|) == Some(|vs|)
    ensures Build(b, pos, pos + |EncodeAll(vs)|) == if AllLearnable(vs) then Some(ReceivedAll(vs)) else None
    decreases vs, 0
  {
    hide Decode, LearnOne, Encode, EncodeAll, Received, Learnable, Body, Excess, ExcessAll, Tag, Announce, Count, Build;
    var end := pos + |EncodeAll(vs)|;
    if vs == [] {
      NothingEncoded();
      CountDone(b, pos);
      BuildDone(b, pos);
    } else {
      var v := vs[0];
      FirstEncoded(b, pos, end, vs);
      if Learnable(v) {
        TagKnown(v);
      }
      CountStep(b, pos, end);
      BuildStep(b, pos, end);
      EncodedLearned(b, pos + |Encode(v)| - |Body(v)|, v);
      BuildEncoded(b, pos + |Encode(v)|, vs[1..]);
      assert AllLearnable(vs) <==> Learnable(v) && AllLearnable(vs[1..]);
    }
  }

  lemma NothingEncoded()
    ensures EncodeAll([]) == []
  {
  }

  lemma TagKnown(v: MmsValue)
    requires !v.Unset? && Learnable(v)
    ensures KnownTag(Tag(v))
  {
  }

  /** Learning the encoding of a data set gives back every value of it, in order and at every level; it fails exactly
      when some value in it is an access error, an MMS string, an empty bit string or an integer over eight octets. */
  lemma {:induction false} LearnEncoded(b: seq<byte>, pos: nat, vs: seq<MmsValue>, isStructure: bool)
    requires AllEncodable(vs) && ExcessAll(vs) == 0 && |EncodeAll(vs)| < 0x100_0000
    requires HasAt(b, pos, EncodeAll(vs)) && Window(b, pos, pos + |EncodeAll(vs)|)
    ensures Learn(b, pos, pos + |EncodeAll(vs)|, isStructure) ==
            if AllLearnable(vs) then Some(Collection(ReceivedAll(vs), isStructure)) else None
    decreases vs, 1
  {
    hide Count, Build, EncodeAll;
    BuildEncoded(b, pos, vs);
    if AllLearnable(vs) {
      assert ReceivedAll(vs) + Repeat(Unset, 0) == ReceivedAll(vs);
    }
  }

  // ----- refreshing with what was encoded

  /** Two values whose encodings have the same tags, lengths and paddings at every level. */
  predicate SameLayout(v: MmsValue, w: MmsValue)
    requires Encodable(v) && Encodable(w)
  {
    && Tag(v) == Tag(w) && |Body(v)| == |Body(w)|
    && (v.MmsBitString? && w.MmsBitString? ==> v.bitSize == w.bitSize)
    && (v.MmsArray? && w.MmsArray? ==> SameLayouts(v.elements, w.elements))
    && (v.MmsStructure? && w.MmsStructure? ==> SameLayouts(v.elements, w.elements))
  }

  predicate SameLayouts(vs: seq<MmsValue>, ws: seq<MmsValue>)
    requires AllEncodable(vs) && AllEncodable(ws)
  {
    |vs| == |ws| && forall i :: 0 <= i < |vs| ==> SameLayout(vs[i], ws[i])
  }

  lemma {:induction false} SameLayoutRefl(v: MmsValue)
    requires Encodable(v)
    ensures SameLayout(v, v)
  {
    if v.MmsArray? || v.MmsStructure? {
      forall i | 0 <= i < |v.elements| ensures SameLayout(v.elements[i], v.elements[i]) {
        SameLayoutRefl(v.elements[i]);
      }
    }
  }

  /** The contents octets at start have the encoding of v as their body. */
  predicate Holds(b: seq<byte>, start: nat, v: MmsValue)
    requires Encodable(v)
  {
    Excess(v) == 0 && |Body(v)| < 0x100_0000 && HasAt(b, start, Body(v)) && Window(b, start, start + |Body(v)|)
  }

  predicate HoldsAll(b: seq<byte>, pos: nat, vs: seq<MmsValue>)
    requires AllEncodable(vs)
  {
    && ExcessAll(vs) == 0 && |EncodeAll(vs)| < 0x100_0000
    && HasAt(b, pos, EncodeAll(vs)) && Window(b, pos, pos + |EncodeAll(vs)|)
  }

  lemma NestedHolds(b: seq<byte>, start: nat, v: MmsValue)
    requires Encodable(v) && (v.MmsArray? || v.MmsStructure?) && Holds(b, start, v)
    ensures HoldsAll(b, start, v.elements) && Body(v) == EncodeAll(v.elements)
  {
    hide EncodeAll, SizeAll, ExcessAll, AnnounceSize, Announce;
    AnnounceAtLeast(SizeAll(v.elements));
  }

  lemma PaddingAt(b: seq<byte>, start: nat, v: MmsValue)
    requires Encodable(v) && v.MmsBitString? && Holds(b, start, v)
    ensures b[start] == 8 * |v.bits| - v.bitSize
  {
    hide MaskedBits, Announce, AnnounceSize;
    HasAtIndex(b, start, Body(v), 0);
  }

  lemma {:induction false} EncodedSameElement(b1: seq<byte>, s1: nat, v: MmsValue, b2: seq<byte>, s2: nat, w: MmsValue)
    requires Encodable(v) && Encodable(w)
    requires SameLayout(v, w) && Holds(b1, s1, v) && Holds(b2, s2, w)
    ensures SameElement(b1, Element(Tag(v), s1, |Body(v)|), b2, Element(Tag(w), s2, |Body(w)|))
    decreases v
  {
    hide SameShape, Body, Excess, Tag, SameLayout, SameLayouts;
    LayoutParts(v, w);
    TagKinds(v);
    if v.MmsArray? || v.MmsStructure? {
      NestedHolds(b1, s1, v);
      NestedHolds(b2, s2, w);
      EncodedSameShape(b1, s1, v.elements, b2, s2, w.elements);
    } else if v.MmsBitString? {
      PaddingAt(b1, s1, v);
      PaddingAt(b2, s2, w);
    }
  }

  /** What two values of the same layout share: the kind, the length of the body, and what kind calls for. */
  lemma LayoutParts(v: MmsValue, w: MmsValue)
    requires Encodable(v) && Encodable(w) && SameLayout(v, w)
    ensures Tag(v) == Tag(w) && |Body(v)| == |Body(w)|
    ensures (v.MmsBitString? <==> w.MmsBitString?) && (v.MmsBitString? ==> v.bitSize == w.bitSize)
    ensures (v.MmsArray? <==> w.MmsArray?) && (v.MmsStructure? <==> w.MmsStructure?)
    ensures v.MmsArray? || v.MmsStructure? ==> SameLayouts(v.elements, w.elements)
    ensures v.MmsBitString? ==> |v.bits| == |w.bits|
  {
    hide Body, SameLayouts;
  }

  lemma TagKinds(v: MmsValue)
    requires !v.Unset?
    ensures (Tag(v) == 0x84 <==> v.MmsBitString?) && (Tag(v) == 0xa1 <==> v.MmsArray?)
    ensures Tag(v) == 0xa2 <==> v.MmsStructure?
  {
  }

  lemma {:induction false} EncodedSameShape(b1: seq<byte>, p1: nat, vs: seq<MmsValue>, b2: seq<byte>, p2: nat,
                                            ws: seq<MmsValue>)
    requires AllEncodable(vs) && AllEncodable(ws) && SameLayouts(vs, ws) && HoldsAll(b1, p1, vs) && HoldsAll(b2, p2, ws)
    ensures SameShape(b1, p1, p1 + |EncodeAll(vs)|, b2, p2, p2 + |EncodeAll(ws)|)
    decreases vs
  {
    hide Decode, SameElement, SameLayout, Encode, Body, Excess, Tag, Announce, HoldsAll, Holds;
    if vs != [] {
      var end1, end2 := p1 + |EncodeAll(vs)|, p2 + |EncodeAll(ws)|;
      FirstEncoded(b1, p1, end1, vs);
      FirstEncoded(b2, p2, end2, ws);
      EncodedSameElement(b1, p1 + |Encode(vs[0])| - |Body(vs[0])|, vs[0], b2, p2 + |Encode(ws[0])| - |Body(ws[0])|,
          ws[0]);
      EncodedSameShape(b1, p1 + |Encode(vs[0])|, vs[1..], b2, p2 + |Encode(ws[0])|, ws[1..]);
    }
  }

  lemma EncodeAllCons(vs: seq<MmsValue>)
    requires vs != [] && AllEncodable(vs)
    ensures EncodeAll(vs) == Encode(vs[0]) + EncodeAll(vs[1..])
    ensures ExcessAll(vs) == Excess(vs[0]) + ExcessAll(vs[1..])
  {
    hide Encode, Excess;
  }

  lemma HoldsUncons(b: seq<byte>, pos: nat, vs: seq<MmsValue>)
    requires vs != [] && AllEncodable(vs) && HoldsAll(b, pos, vs)
    ensures Excess(vs[0]) == 0 && HasAt(b, pos, Encode(vs[0]))
    ensures |EncodeAll(vs)| == |Encode(vs[0])| + |EncodeAll(vs[1..])|
    ensures HoldsAll(b, pos + |Encode(vs[0])|, vs[1..])
  {
    hide Encode, Excess, EncodeAll, ExcessAll;
    EncodeAllCons(vs);
    HasAtSplit(b, pos, Encode(vs[0]), EncodeAll(vs[1..]));
  }

  lemma FirstEncoded(b: seq<byte>, pos: nat, end: nat, vs: seq<MmsValue>)
    requires vs != [] && AllEncodable(vs) && HoldsAll(b, pos, vs) && end == pos + |EncodeAll(vs)|
    ensures pos < end && b[pos] == Tag(vs[0]) && |Body(vs[0])| <= |Encode(vs[0])|
    ensures Decode(b, pos + 1, end) == Length(pos + |Encode(vs[0])| - |Body(vs[0])|, |Body(vs[0])|)
    ensures Holds(b, pos + |Encode(vs[0])| - |Body(vs[0])|, vs[0])
    ensures HoldsAll(b, pos + |Encode(vs[0])|, vs[1..]) && |EncodeAll(vs)| == |Encode(vs[0])| + |EncodeAll(vs[1..])|
  {
    hide Decode, Encode, EncodeAll, ExcessAll, Body, Excess, Tag, Announce;
    HoldsUncons(b, pos, vs);
    EncodeShape(vs[0]);
    EncodedElement(b, pos, end, Tag(vs[0]), Body(vs[0]));
  }

  /** A subscriber that holds the received form of vs and is sent ws, laid out alike, accepts the data and
      ends up with the received form of ws. */
  lemma RefreshEncoded(b: seq<byte>, pos: nat, vs: seq<MmsValue>, ws: seq<MmsValue>)
    requires AllEncodable(vs) && AllLearnable(vs) && ExcessAll(vs) == 0 && |EncodeAll(vs)| < 0x100_0000
    requires AllEncodable(ws) && AllLearnable(ws) && SameLayouts(vs, ws) && HoldsAll(b, pos, ws)
    ensures Refresh(b, pos, pos + |EncodeAll(ws)|, ReceivedAll(vs)) == (NoError, ReceivedAll(ws))
  {
    hide EncodeAll, SameLayouts, SameShape, Refresh, Learn;
    var a := EncodeAll(vs) + [0];
    assert HasAt(a, 0, EncodeAll(vs));
    EncodedSameShape(a, 0, vs, b, pos, ws);
    LearnEncoded(a, 0, vs, false);
    LearnEncoded(b, pos, ws, false);
    WindowAgree(a, 0, |EncodeAll(vs)|, b, pos, pos + |EncodeAll(ws)|, false);
  }
}
