/** From the publisher's buffer to the listener: every ASDU of a sampled-values message is handed over once, in
    order, with the content it was given; the terminators the subscriber writes fall on tag octets only. */
module SvRoundTrip {
  import opened Octets
  import opened BerLength
  import opened MmsValues
  import opened DataSetTheorems
  import opened TlvSlots
  import opened SvFrames
  import opened SvParsing
  import opened EthernetFrames
  import BerInteger

  // ----- one ASDU

  /** Slot j, if present, has tag 0x80 + j. */
  predicate Tagged(xs: seq<Slot>) {
    && |xs| == 9
    && forall j :: 0 <= j < 9 && xs[j].Present? ==> xs[j].tag == 0x80 + j && |xs[j].contents| < 0x100_0000
  }

  /** What the scan has noted after the first j slots of an encoding that starts at pos. */
  function FoundUpTo(xs: seq<Slot>, pos: nat, j: nat): (f: Found)
    requires j <= |xs|
  {
    if j == 0 then map[]
    else if xs[j - 1].Absent? then FoundUpTo(xs, pos, j - 1)
    else Noted(FoundUpTo(xs, pos, j - 1), xs[j - 1].tag, Region(pos + SlotOffset(xs, j - 1), |xs[j - 1].contents|))
  }

  /** It is the present slots among them, each with the place of its contents. */
  lemma {:induction false} FoundExact(xs: seq<Slot>, pos: nat, j: nat, k: nat)
    requires Tagged(xs) && j <= 9 && k < 9
    ensures (0x80 + k) in FoundUpTo(xs, pos, j) <==> k < j && xs[k].Present?
    ensures k < j && xs[k].Present? ==>
              FoundUpTo(xs, pos, j)[0x80 + k] == Region(pos + SlotOffset(xs, k), |xs[k].contents|)
    decreases j
  {
    hide SlotOffset;
    if j > 0 {
      FoundExact(xs, pos, j - 1, k);
    }
  }

  lemma SlotSpan(xs: seq<Slot>, j: nat)
    requires j < |xs| && xs[j].Present?
    ensures SlotStart(xs, j) < SlotOffset(xs, j)
    ensures SlotOffset(xs, j) + |xs[j].contents| == SlotStart(xs, j + 1) <= |EncodeSlots(xs)|
  {
    hide EncodeSlots, SlotOctets, Announce;
    SplitAt(xs, j);
    SlotParts(xs[j]);
    SlotStartsOrdered(xs, j + 1, |xs|);
  }

  lemma {:induction false} FoundInside(xs: seq<Slot>, pos: nat, j: nat)
    requires Tagged(xs) && j <= 9
    ensures Inside(FoundUpTo(xs, pos, j), pos + |EncodeSlots(xs)|)
    decreases j
  {
    hide SlotOffset, EncodeSlots, SlotStart;
    if j > 0 {
      FoundInside(xs, pos, j - 1);
      if xs[j - 1].Present? {
        SlotSpan(xs, j - 1);
      }
    }
  }

  lemma ScanOne(b: seq<byte>, pos: nat, end: nat, x: Slot, f: Found)
    requires x.Present? && |x.contents| < 0x100_0000 && HasAt(b, pos, SlotOctets(x))
             && pos + |SlotOctets(x)| <= end < |b|
    requires Inside(f, end)
    ensures |SlotOctets(x)| == |SlotHead(x)| + |x.contents|
    ensures Inside(Noted(f, x.tag, Region(pos + |SlotHead(x)|, |x.contents|)), end)
    ensures ScanAsdu(b, pos, end, f) ==
            ScanAsdu(b, pos + |SlotOctets(x)|, end, Noted(f, x.tag, Region(pos + |SlotHead(x)|, |x.contents|)))
  {
    hide Decode, SlotHead, Tlv;
    SlotParts(x);
    EncodedElement(b, pos, end, x.tag, x.contents);
  }

  lemma {:induction false} ScanUpTo(b: seq<byte>, pos: nat, xs: seq<Slot>, j: nat)
    requires Tagged(xs) && j <= 9 && HasAt(b, pos, EncodeSlots(xs)) && pos + |EncodeSlots(xs)| < |b|
    ensures Inside(FoundUpTo(xs, pos, j), pos + |EncodeSlots(xs)|)
    ensures ScanAsdu(b, pos, pos + |EncodeSlots(xs)|, map[]) ==
            ScanAsdu(b, pos + SlotStart(xs, j), pos + |EncodeSlots(xs)|, FoundUpTo(xs, pos, j))
    decreases j
  {
    hide EncodeSlots, SlotOctets, SlotHead, SlotStart, ScanAsdu, HasAt, Inside, Noted;
    FoundInside(xs, pos, j);
    if j == 0 {
      FirstStart(xs);
    } else {
      ScanUpTo(b, pos, xs, j - 1);
      SplitAt(xs, j - 1);
      if xs[j - 1].Present? {
        SlotAt(b, pos, xs, j - 1);
        ScanOne(b, pos + SlotStart(xs, j - 1), pos + |EncodeSlots(xs)|, xs[j - 1], FoundUpTo(xs, pos, j - 1));
      } else {
        assert SlotOctets(xs[j - 1]) == [] by { AbsentOctets(); }
      }
    }
  }

  lemma AbsentOctets()
    ensures SlotOctets(Absent) == []
  {
  }

  /** The scan of an encoded ASDU body finds exactly its fields. */
  lemma ScanAll(b: seq<byte>, pos: nat, xs: seq<Slot>)
    requires Tagged(xs) && HasAt(b, pos, EncodeSlots(xs)) && pos + |EncodeSlots(xs)| < |b|
    ensures ScanAsdu(b, pos, pos + |EncodeSlots(xs)|, map[]) == Some(FoundUpTo(xs, pos, 9))
  {
    hide EncodeSlots;
    ScanUpTo(b, pos, xs, 9);
    assert xs[..9] == xs;
  }

  lemma HasAtUpdate(b: seq<byte>, p: nat, s: seq<byte>, q: nat)
    requires HasAt(b, p, s) && q < |b| && (q < p || q >= p + |s|)
    ensures HasAt(b[q := 0], p, s)
  {
    assert b[q := 0][p..p + |s|] == b[p..p + |s|];
  }

  /** The same octets outside lo..hi. */
  predicate SameOutside(b: seq<byte>, c: seq<byte>, lo: nat, hi: nat) {
    && |b| == |c| && lo <= hi <= |b|
    && b[..lo] == c[..lo] && b[hi..] == c[hi..]
  }

  lemma SameOutsideTransitive(b: seq<byte>, c: seq<byte>, d: seq<byte>, lo: nat, mid: nat, hi: nat)
    requires SameOutside(b, c, lo, mid) && SameOutside(c, d, mid, hi)
    ensures SameOutside(b, d, lo, hi)
  {
    assert lo <= mid <= hi;
    assert c[hi..] == c[mid..][hi - mid..] && b[hi..] == b[mid..][hi - mid..];
    assert c[..lo] == c[..mid][..lo] && d[..lo] == d[..mid][..lo];
  }

  lemma SameOutsideUpdate(b: seq<byte>, lo: nat, hi: nat, q: nat)
    requires lo <= q < hi <= |b|
    ensures SameOutside(b, b[q := 0], lo, hi)
  {
  }

  lemma HasAtSame(b: seq<byte>, c: seq<byte>, lo: nat, hi: nat, s: seq<byte>)
    requires SameOutside(b, c, lo, hi) && HasAt(b, hi, s)
    ensures HasAt(c, hi, s)
  {
    assert b[hi..][..|s|] == b[hi..hi + |s|];
    assert c[hi..][..|s|] == c[hi..hi + |s|];
  }

  /** The buffer once the strings of the ASDU whose slots xs start at pos are terminated. */
  function TerminatedBody(b: seq<byte>, pos: nat, xs: seq<Slot>): (c: seq<byte>)
    requires |xs| == 9 && pos + SlotStart(xs, 1) < |b| && pos + SlotStart(xs, 2) < |b|
    ensures |c| == |b|
  {
    var b1 := b[pos + SlotStart(xs, 1) := 0];
    if xs[1].Present? then b1[pos + SlotStart(xs, 2) := 0] else b1
  }

  /** Both terminators fall on the tag octet of a later field. */
  lemma TerminatorsOnTags(b: seq<byte>, pos: nat, xs: seq<Slot>)
    requires Tagged(xs) && xs[0].Present? && xs[2].Present? && HasAt(b, pos, EncodeSlots(xs))
    ensures SlotStart(xs, 1) <= SlotStart(xs, 2) < |EncodeSlots(xs)| && pos + |EncodeSlots(xs)| <= |b|
    ensures b[pos + SlotStart(xs, 1)] == if xs[1].Present? then 0x81 else 0x82
    ensures b[pos + SlotStart(xs, 2)] == 0x82
  {
    hide EncodeSlots, SlotOctets, SlotStart;
    SlotStartsOrdered(xs, 1, 2);
    SlotSpan(xs, 2);
    TagAt(b, pos, xs, 2);
    if xs[1].Present? {
      TagAt(b, pos, xs, 1);
    } else {
      SplitAt(xs, 1);
      AbsentOctets();
    }
  }

  lemma TagAt(b: seq<byte>, pos: nat, xs: seq<Slot>, j: nat)
    requires Tagged(xs) && j < 9 && xs[j].Present? && HasAt(b, pos, EncodeSlots(xs))
    ensures pos + SlotStart(xs, j) < |b| && b[pos + SlotStart(xs, j)] == xs[j].tag
  {
    hide EncodeSlots, SlotOctets, Announce;
    SlotAt(b, pos, xs, j);
    SlotParts(xs[j]);
    HasAtIndex(b, pos + SlotStart(xs, j), SlotOctets(xs[j]), 0);
  }

  /** So no field is disturbed, and nothing outside the ASDU is touched. */
  lemma TerminatedKeeps(b: seq<byte>, pos: nat, xs: seq<Slot>, j: nat)
    requires Tagged(xs) && xs[0].Present? && xs[2].Present? && HasAt(b, pos, EncodeSlots(xs))
    requires j < 9 && xs[j].Present?
    ensures SlotStart(xs, 1) <= SlotStart(xs, 2) < |EncodeSlots(xs)| && pos + |EncodeSlots(xs)| <= |b|
    ensures HasAt(TerminatedBody(b, pos, xs), pos + SlotOffset(xs, j), xs[j].contents)
  {
    hide EncodeSlots, SlotStart, HasAt, SlotOffset;
    TerminatorsOnTags(b, pos, xs);
    SlotAt(b, pos, xs, j);
    SlotSpan(xs, j);
    if j == 0 {
      SlotStartsOrdered(xs, 1, 2);
    } else {
      SlotStartsOrdered(xs, 1, j);
      if j > 1 {
        SlotStartsOrdered(xs, 2, j);
      }
    }
    var q1, q2 := pos + SlotStart(xs, 1), pos + SlotStart(xs, 2);
    assert |b| > q2 >= q1;
    HasAtUpdate(b, pos + SlotOffset(xs, j), xs[j].contents, q1);
    if xs[1].Present? {
      HasAtUpdate(b[q1 := 0], pos + SlotOffset(xs, j), xs[j].contents, q2);
    }
  }

  lemma ParseBody(b: seq<byte>, pos: nat, xs: seq<Slot>)
    requires Tagged(xs) && xs[0].Present? && xs[2].Present?
    requires HasAt(b, pos, EncodeSlots(xs)) && pos + |EncodeSlots(xs)| < |b|
    ensures SlotStart(xs, 1) <= SlotStart(xs, 2) < |EncodeSlots(xs)|
    ensures var c := TerminatedBody(b, pos, xs);
            && ParseAsdu(b, pos, pos + |EncodeSlots(xs)|) == (c, Some(Call(FoundUpTo(xs, pos, 9), c)))
            && SameOutside(b, c, pos, pos + |EncodeSlots(xs)|)
  {
    hide EncodeSlots, ScanAsdu, SlotStart, SlotOffset, FoundUpTo, SameOutside;
    TerminatorsOnTags(b, pos, xs);
    ScanAll(b, pos, xs);
    FoundExact(xs, pos, 9, 0);
    FoundExact(xs, pos, 9, 1);
    SlotSpan(xs, 0);
    var end, q1, q2 := pos + |EncodeSlots(xs)|, pos + SlotStart(xs, 1), pos + SlotStart(xs, 2);
    SameOutsideUpdate(b, pos, end, q1);
    if xs[1].Present? {
      SlotSpan(xs, 1);
      SameOutsideUpdate(b[q1 := 0], pos, end, q2);
      OutsideTwice(b, b[q1 := 0], b[q1 := 0][q2 := 0], pos, end);
    }
  }

  lemma OutsideTwice(b: seq<byte>, c: seq<byte>, d: seq<byte>, lo: nat, hi: nat)
    requires SameOutside(b, c, lo, hi) && SameOutside(c, d, lo, hi)
    ensures SameOutside(b, d, lo, hi)
  {
  }

  // ----- the places of the fields

  /** A field lies inside its ASDU. */
  lemma FieldInside(a: Asdu, j: nat)
    requires j < 9 && Slots(a)[j].Present?
    ensures FieldOffset(a, j) + |Slots(a)[j].contents| <= |EncodeAsdu(a)|
  {
    hide Slots, EncodeSlots, Announce, BodySize, SlotStart, SlotOffset;
    SlotSpan(Slots(a), j);
  }

  lemma FieldsOrdered(a: Asdu, j: nat, k: nat)
    requires j < k < 9 && Slots(a)[j].Present? && Slots(a)[k].Present?
    ensures FieldOffset(a, j) + |Slots(a)[j].contents| < FieldOffset(a, k)
  {
    hide Slots, EncodeSlots, Announce, BodySize, SlotStart, SlotOffset;
    SlotSpan(Slots(a), j);
    SlotSpan(Slots(a), k);
    SlotStartsOrdered(Slots(a), j + 1, k);
  }

  lemma AsdusOrdered(xs: seq<Asdu>, i: nat, k: nat)
    requires i < k <= |xs|
    ensures |Concat(Encodings(xs)[..i])|
            + |EncodeAsdu(xs[i])| <= |Concat(Encodings(xs)[..k])| <= |Concat(Encodings(xs))|
  {
    hide Concat, EncodeAsdu;
    var ss := Encodings(xs);
    ConcatSnoc(ss, i);
    assert ss[..k] == ss[..i + 1] + ss[i + 1..k];
    ConcatAppend(ss[..i + 1], ss[i + 1..k]);
    assert ss == ss[..k] + ss[k..];
    ConcatAppend(ss[..k], ss[k..]);
  }

  /** All saved positions of a message are apart: each field ends before any later field of its ASDU or of a later
      ASDU begins, and all lie inside the payload. */
  lemma FieldsApart(xs: seq<Asdu>, i: nat, j: nat, i': nat, j': nat)
    requires i < |xs| < 0x1_0000_0000 && i' < |xs| && j < 9 && j' < 9
    requires Slots(xs[i])[j].Present? && Slots(xs[i'])[j'].Present? && (i < i' || (i == i' && j < j'))
    ensures Position(xs, i, j) + |Slots(xs[i])[j].contents| < Position(xs, i', j')
    ensures Position(xs, i', j') + |Slots(xs[i'])[j'].contents| <= |SvPayload(xs)|
  {
    hide Slots, EncodeSlots, BodySize, EncodeAsdu, Concat, ApduHead, TotalSize;
    FieldInside(xs[i'], j');
    AsdusOrdered(xs, i', |xs|);
    if i == i' {
      FieldsOrdered(xs[i], j, j');
    } else {
      FieldInside(xs[i], j);
      AsdusOrdered(xs, i, i');
    }
  }

  // ----- what the listener reads

  /** The ASDU as the getters show it during a listener call. */
  function Reading(c: Call): (a: Asdu) {
    Asdu(TextAt(c, 0x80), if 0x81 in c.found then Some(TextAt(c, 0x81)) else None, Number16(c, 0x82), Number32(c, 0x83),
         if 0x84 in c.found then Some(FieldOctets(c, 0x84, 8)) else None, Number8(c, 0x85),
         if 0x86 in c.found then Some(Number16(c, 0x86)) else None, DataOf(c),
         if 0x88 in c.found then Some(Number8(c, 0x88)) else None)
  }

  /** The part of an ASDU that survives: strings up to a zero octet, and of smpMod the octet that is always zero. */
  function Surviving(a: Asdu): (r: Asdu) {
    a.(svId := CString(a.svId), datset := if a.datset.Some? then Some(CString(a.datset.value)) else None,
       smpMod := if a.smpMod.Some? then Some(0) else None)
  }

  lemma {:induction false} CStringWhole(s: seq<byte>)
    ensures CString(s) == s <==> 0 !in s
  {
    if s != [] && s[0] != 0 {
      CStringWhole(s[1..]);
      assert s == [s[0]] + s[1..];
    }
  }

  /** Everything survives exactly when the strings have no zero octet and smpMod is absent or zero. */
  lemma SurvivingExact(a: Asdu)
    ensures Surviving(a) == a <==>
            0 !in a.svId && (a.datset.Some? ==> 0 !in a.datset.value) && (a.smpMod.Some? ==> a.smpMod.value == 0)
  {
    hide CString;
    CStringWhole(a.svId);
    if a.datset.Some? {
      CStringWhole(a.datset.value);
    }
  }

  lemma {:induction false} CStringStops(s: seq<byte>, t: seq<byte>)
    requires t != [] && t[0] == 0
    ensures CString(s + t) == CString(s)
  {
    if s == [] {
      assert s + t == t;
    } else if s[0] != 0 {
      assert (s + t)[1..] == s[1..] + t;
      CStringStops(s[1..], t);
    }
  }

  lemma TextRead(c: Call, tag: byte, s: seq<byte>)
    requires tag in c.found && HasAt(c.buffer, c.found[tag].start, s)
    requires c.found[tag].start + |s| < |c.buffer| && c.buffer[c.found[tag].start + |s|] == 0
    ensures TextAt(c, tag) == CString(s)
  {
    hide CString;
    var p := c.found[tag].start;
    var t := c.buffer[p + |s|..];
    assert c.buffer[p..] == s + t;
    CStringStops(s, t);
  }

  lemma SlotsTagged(a: Asdu)
    requires ValidAsdu(a) && BodySize(a) < 65535
    ensures Tagged(Slots(a))
  {
    hide AnnounceSize;
  }

  /** The octets of field j, as the listener finds them. */
  lemma FieldFound(b: seq<byte>, pos: nat, xs: seq<Slot>, j: nat, c: Call)
    requires Tagged(xs) && xs[0].Present? && xs[2].Present? && HasAt(b, pos, EncodeSlots(xs)) && j < 9
    requires pos + SlotStart(xs, 1) < |b| && pos + SlotStart(xs, 2) < |b|
    requires c == Call(FoundUpTo(xs, pos, 9), TerminatedBody(b, pos, xs))
    ensures (0x80 + j) in c.found <==> xs[j].Present?
    ensures xs[j].Present? ==> c.found[0x80 + j] == Region(pos + SlotOffset(xs, j), |xs[j].contents|)
    ensures xs[j].Present? ==> HasAt(c.buffer, c.found[0x80 + j].start, xs[j].contents)
    ensures xs[j].Present? ==> FieldOctets(c, 0x80 + j, |xs[j].contents|) == xs[j].contents
  {
    hide EncodeSlots, SlotStart, SlotOffset, FoundUpTo, TerminatedBody;
    FoundExact(xs, pos, 9, j);
    if xs[j].Present? {
      TerminatedKeeps(b, pos, xs, j);
    }
  }

  lemma TextsFound(b: seq<byte>, pos: nat, xs: seq<Slot>, c: Call)
    requires Tagged(xs) && xs[0].Present? && xs[2].Present? && HasAt(b, pos, EncodeSlots(xs))
    requires pos + SlotStart(xs, 1) < |b| && pos + SlotStart(xs, 2) < |b|
    requires c == Call(FoundUpTo(xs, pos, 9), TerminatedBody(b, pos, xs))
    ensures TextAt(c, 0x80) == CString(xs[0].contents)
    ensures xs[1].Present? ==> TextAt(c, 0x81) == CString(xs[1].contents)
  {
    hide EncodeSlots, SlotStart, SlotOffset, FoundUpTo, CString, TextAt, HasAt;
    TerminatorsOnTags(b, pos, xs);
    FieldFound(b, pos, xs, 0, c);
    SlotSpan(xs, 0);
    TextRead(c, 0x80, xs[0].contents);
    if xs[1].Present? {
      FieldFound(b, pos, xs, 1, c);
      SlotSpan(xs, 1);
      TextRead(c, 0x81, xs[1].contents);
    }
  }

  lemma Parts16(v: uint16)
    ensures var s := U16Octets(v); (s[0] as int) * 256 + s[1] == v
    ensures v < 256 ==> U16Octets(v)[0] == 0
  {
  }

  lemma Parts32(v: uint32)
    ensures var s := U32Octets(v);
            (s[0] as int) * 0x100_0000 + (s[1] as int) * 0x1_0000 + (s[2] as int) * 256 + s[3] == v
  {
    U32RoundTrip(v);
    BigEndian4(U32Octets(v));
  }

  lemma ReadingFront(b: seq<byte>, pos: nat, a: Asdu, c: Call)
    requires ValidAsdu(a) && Tagged(Slots(a)) && HasAt(b, pos, AsduBody(a))
    requires pos + SlotStart(Slots(a), 1) < |b| && pos + SlotStart(Slots(a), 2) < |b|
    requires c == Call(FoundUpTo(Slots(a), pos, 9), TerminatedBody(b, pos, Slots(a)))
    ensures Reading(c).svId == Surviving(a).svId && Reading(c).datset == Surviving(a).datset
    ensures Reading(c).smpCnt == a.smpCnt && Reading(c).confRev == a.confRev && Reading(c).refrTm == a.refrTm
  {
    hide EncodeSlots, SlotStart, SlotOffset, FoundUpTo, TerminatedBody, CString, TextAt, FieldOctets, HasAt;
    hide U16Octets, U32Octets;
    var xs := Slots(a);
    TextsFound(b, pos, xs, c);
    FieldFound(b, pos, xs, DATSET, c);
    FieldFound(b, pos, xs, SMP_CNT, c);
    Parts16(a.smpCnt);
    FieldFound(b, pos, xs, CONF_REV, c);
    Parts32(a.confRev);
    FieldFound(b, pos, xs, REFR_TM, c);
  }

  lemma ReadingBack(b: seq<byte>, pos: nat, a: Asdu, c: Call)
    requires ValidAsdu(a) && Tagged(Slots(a)) && HasAt(b, pos, AsduBody(a))
    requires pos + SlotStart(Slots(a), 1) < |b| && pos + SlotStart(Slots(a), 2) < |b|
    requires c == Call(FoundUpTo(Slots(a), pos, 9), TerminatedBody(b, pos, Slots(a)))
    ensures Reading(c).smpSynch == a.smpSynch && Reading(c).smpRate == a.smpRate && Reading(c).data == a.data
    ensures Reading(c).smpMod == Surviving(a).smpMod
  {
    hide EncodeSlots, SlotStart, SlotOffset, FoundUpTo, TerminatedBody, CString, TextAt, U16Octets, U32Octets;
    var xs := Slots(a);
    FieldFound(b, pos, xs, SMP_SYNCH, c);
    FieldFound(b, pos, xs, SMP_RATE, c);
    FieldFound(b, pos, xs, DATA, c);
    FieldFound(b, pos, xs, SMP_MOD, c);
    if a.smpRate.Some? {
      Parts16(a.smpRate.value);
    }
    if a.smpMod.Some? {
      Parts16(a.smpMod.value);
      HasAtIndex(c.buffer, c.found[0x88].start, xs[8].contents, 0);
    }
  }

  /** An encoded ASDU is parsed into one listener call that reads what was encoded. */
  lemma AsduParsed(b: seq<byte>, pos: nat, a: Asdu)
    requires ValidAsdu(a) && BodySize(a) < 65535 && HasAt(b, pos, AsduBody(a)) && pos + |AsduBody(a)| < |b|
    ensures var r := ParseAsdu(b, pos, pos + |AsduBody(a)|);
            && r.1.Some? && Reading(r.1.value) == Surviving(a)
            && SameOutside(b, r.0, pos, pos + |AsduBody(a)|)
  {
    hide EncodeSlots, SlotStart, FoundUpTo, TerminatedBody, ParseAsdu, BodySize, Reading, Surviving, HasAt, SameOutside;
    var xs := Slots(a);
    SlotsTagged(a);
    ParseBody(b, pos, xs);
    var c := Call(FoundUpTo(xs, pos, 9), TerminatedBody(b, pos, xs));
    ReadingFront(b, pos, a, c);
    ReadingBack(b, pos, a, c);
    SurvivingFields(a);
  }

  lemma SurvivingFields(a: Asdu)
    ensures var r := Surviving(a);
            && r.smpCnt == a.smpCnt && r.confRev == a.confRev && r.refrTm == a.refrTm && r.smpSynch == a.smpSynch
            && r.smpRate == a.smpRate && r.data == a.data
  {
  }

  // ----- all ASDUs of a message

  predicate AllRead(calls: seq<Call>, xs: seq<Asdu>) {
    |calls| == |xs| && forall k :: 0 <= k < |xs| ==> Reading(calls[k]) == Surviving(xs[k])
  }

  lemma AsduTlv(a: Asdu)
    requires ValidAsdu(a) && BodySize(a) < 65535
    ensures EncodeAsdu(a) == Tlv(0x30, AsduBody(a)) && |AsduBody(a)| == BodySize(a)
  {
    hide BodySize, AsduBody, Announce;
    BodyLength(a);
  }

  lemma ConcatFirst(xs: seq<Asdu>)
    requires xs != []
    ensures Concat(Encodings(xs)) == EncodeAsdu(xs[0]) + Concat(Encodings(xs[1..]))
  {
    hide EncodeAsdu;
    assert Encodings(xs)[1..] == Encodings(xs[1..]);
  }

  /** The first ASDU of a sequence. */
  lemma FirstParsed(b: seq<byte>, pos: nat, end: nat, a: Asdu, mid: nat) returns (b': seq<byte>, call: Call)
    requires ValidAsdu(a) && BodySize(a) < 65535 && HasAt(b, pos, EncodeAsdu(a))
             && mid == pos + |EncodeAsdu(a)| <= end < |b|
    ensures |b'| == |b| && SameOutside(b, b', pos, mid) && Reading(call) == Surviving(a)
    ensures ParseSequence(b, pos, end) == (ParseSequence(b', mid, end).0, [call] + ParseSequence(b', mid, end).1)
  {
    hide BodySize, AsduBody, EncodeAsdu, Reading, Surviving, Decode, ParseAsdu, HasAt, SameOutside, Announce;
    AsduTlv(a);
    EncodedElement(b, pos, end, 0x30, AsduBody(a));
    var start := mid - |AsduBody(a)|;
    AsduParsed(b, start, a);
    b', call := ParseAsdu(b, start, mid).0, ParseAsdu(b, start, mid).1.value;
    Widen(b, b', pos, start, mid);
  }

  lemma {:induction false} SequenceParsed(b: seq<byte>, pos: nat, xs: seq<Asdu>)
    requires AllValid(xs) && TotalSize(xs) < 65535
    requires HasAt(b, pos, Concat(Encodings(xs))) && pos + |Concat(Encodings(xs))| < |b|
    ensures var end := pos + |Concat(Encodings(xs))|; var r := ParseSequence(b, pos, end);
            AllRead(r.1, xs) && SameOutside(b, r.0, pos, end)
    decreases |xs|
  {
    hide BodySize, AsduBody, EncodeAsdu, Encodings, Concat, Reading, Surviving, ParseAsdu, HasAt, AsduSize;
    hide ParseSequence;
    hide SameOutside;
    if xs == [] {
      NothingParsed(b, pos);
    } else {
      var a, c, rest := xs[0], EncodeAsdu(xs[0]), Concat(Encodings(xs[1..]));
      ConcatFirst(xs);
      ConcatLength(xs);
      HasAtSplit(b, pos, c, rest);
      var mid, end := pos + |c|, pos + |c| + |rest|;
      var b', call := FirstParsed(b, pos, end, a, mid);
      HasAtSame(b, b', pos, mid, rest);
      SequenceParsed(b', mid, xs[1..]);
      SameOutsideTransitive(b, b', ParseSequence(b', mid, end).0, pos, mid, end);
    }
  }

  lemma NothingParsed(b: seq<byte>, pos: nat)
    requires pos < |b|
    ensures Concat(Encodings([])) == [] && ParseSequence(b, pos, pos) == (b, []) && SameOutside(b, b, pos, pos)
  {
  }

  lemma Widen(b: seq<byte>, c: seq<byte>, lo: nat, mid: nat, hi: nat)
    requires SameOutside(b, c, mid, hi) && lo <= mid
    ensures SameOutside(b, c, lo, hi)
  {
    assert b[..lo] == b[..mid][..lo] && c[..lo] == c[..mid][..lo];
  }

  // ----- the payload

  predicate Fits(xs: seq<Asdu>) {
    |xs| < 0x1_0000_0000 && AllValid(xs) && TotalSize(xs) < 65535 && |SvPayload(xs)| < 65535
  }

  /** The octets of a payload, one element after the other: the announced lengths are those of what follows. */
  lemma PayloadParts(b: seq<byte>, pos: nat, xs: seq<Asdu>)
    requires Fits(xs) && HasAt(b, pos, SvPayload(xs))
    ensures |Concat(Encodings(xs))| == TotalSize(xs)
    ensures var n := BerInteger.UIntOctets(|xs|); var inner := InnerSize(|xs|, TotalSize(xs));
            var start := pos + 1 + |Announce(inner)|; var asdus := start + |Tlv(0x80, n)|;
            && inner < 65535 && start + inner == pos + |SvPayload(xs)|
            && b[pos] == 0x60 && HasAt(b, pos + 1, Announce(inner)) && HasAt(b, start, Tlv(0x80, n))
            && HasAt(b, asdus, Tlv(0xa2, Concat(Encodings(xs))))
               && asdus + |Tlv(0xa2, Concat(Encodings(xs)))| == start + inner
  {
    hide Announce, AnnounceSize, Concat, Encodings, TotalSize, BerInteger.UIntOctets, HasAt, Tlv, SvPayload, AllValid;
    ConcatLength(xs);
    var n, total, c := BerInteger.UIntOctets(|xs|), TotalSize(xs), Concat(Encodings(xs));
    var inner := InnerSize(|xs|, total);
    NumberSize(|xs|);
    AnnounceExact(total);
    var t1, t2 := Tlv(0x80, n), Tlv(0xa2, c);
    TlvSize(0xa2, c);
    PayloadShape(xs);
    HasAtSplit(b, pos, [0x60], Announce(inner) + (t1 + t2));
    HasAtIndex(b, pos, [0x60], 0);
    HasAtSplit(b, pos + 1, Announce(inner), t1 + t2);
    HasAtSplit(b, pos + 1 + |Announce(inner)|, t1, t2);
  }

  lemma TlvSize(tag: byte, c: seq<byte>)
    ensures |Tlv(tag, c)| == 1 + |Announce(|c|)| + |c|
  {
  }

  lemma PayloadShape(xs: seq<Asdu>)
    requires |xs| < 0x1_0000_0000 && |Concat(Encodings(xs))| == TotalSize(xs)
    ensures SvPayload(xs) == [0x60] + (Announce(InnerSize(|xs|, TotalSize(xs))) +
                                       (Tlv(0x80, BerInteger.UIntOctets(|xs|)) + Tlv(0xa2, Concat(Encodings(xs)))))
  {
    var t := Tlv(0x80, BerInteger.UIntOctets(|xs|));
    Regroup([0x60], Announce(InnerSize(|xs|, TotalSize(xs))), t, [0xa2], Announce(TotalSize(xs)),
        Concat(Encodings(xs)));
    hide Announce, Concat, Encodings, TotalSize, BerInteger.UIntOctets, InnerSize;
  }

  lemma Regroup(a: seq<byte>, b: seq<byte>, c: seq<byte>, d: seq<byte>, e: seq<byte>, f: seq<byte>)
    ensures (a + b + c + d + e) + f == a + (b + (c + (d + (e + f))))
  {
    assert (d + e) + f == d + (e + f);
    assert (a + b + c + d + e) + f == a + b + c + ((d + e) + f);
  }

  lemma NumberSize(v: uint32)
    ensures |BerInteger.UIntOctets(v)| <= 5 && |Tlv(0x80, BerInteger.UIntOctets(v))| == 2 + |BerInteger.UIntOctets(v)|
  {
    hide BerInteger.UIntOctets;
  }

  /** An encoded payload is parsed into one listener call for each ASDU, in order. */
  lemma PayloadParsed(b: seq<byte>, pos: nat, xs: seq<Asdu>)
    requires Fits(xs) && HasAt(b, pos, SvPayload(xs)) && pos + |SvPayload(xs)| < |b|
    ensures var r := ParsePayload(b, pos, pos + |SvPayload(xs)|);
            AllRead(r.1, xs) && SameOutside(b, r.0, pos, pos + |SvPayload(xs)|)
  {
    hide Decode, SvPayload, Tlv, Announce, Concat, Encodings, InnerSize, TotalSize, BerInteger.UIntOctets;
    hide ParseElements, AllRead, HasAt, SameOutside, AllValid;
    PayloadParts(b, pos, xs);
    var n, inner, c := BerInteger.UIntOctets(|xs|), InnerSize(|xs|, TotalSize(xs)), Concat(Encodings(xs));
    var start, end := pos + 1 + |Announce(inner)|, pos + |SvPayload(xs)|;
    AnnounceRead(b, pos + 1, inner, end);
    ElementsParsed(b, start, end, n, xs);
    Widen(b, ParseElements(b, start, end).0, pos, start, end);
  }

  lemma ElementsParsed(b: seq<byte>, start: nat, end: nat, n: seq<byte>, xs: seq<Asdu>)
    requires AllValid(xs) && TotalSize(xs) < 65535 && |n| < 65535 && end < |b|
    requires HasAt(b, start, Tlv(0x80, n)) && HasAt(b, start + |Tlv(0x80, n)|, Tlv(0xa2, Concat(Encodings(xs))))
    requires start + |Tlv(0x80, n)| + |Tlv(0xa2, Concat(Encodings(xs)))| == end
    ensures AllRead(ParseElements(b, start, end).1, xs) && SameOutside(b, ParseElements(b, start, end).0, start, end)
  {
    hide Decode, Announce, Concat, Encodings, TotalSize, AllRead, HasAt, SameOutside, ParseSequence, AllValid;
    var c := Concat(Encodings(xs));
    ConcatLength(xs);
    var asdus := start + |Tlv(0x80, n)|;
    EncodedElement(b, start, end, 0x80, n);
    assert ParseElements(b, start, end) == ParseElements(b, asdus, end);
    EncodedElement(b, asdus, end, 0xa2, c);
    SequenceParsed(b, end - |c|, xs);
    var r := ParseSequence(b, end - |c|, end);
    assert ParseElements(r.0, end, end) == (r.0, []);
    assert ParseElements(b, asdus, end) == (r.0, r.1 + []);
    assert r.1 + [] == r.1;
    Widen(b, r.0, start, end - |c|, end);
  }

  // ----- the whole frame

  lemma PayloadAtLeast(xs: seq<Asdu>)
    requires Fits(xs) && xs != []
    ensures |SvPayload(xs)| >= 10
  {
    hide BerInteger.UIntOctets, Announce, AnnounceSize, Concat, EncodeAsdu;
    ConcatLength(xs);
  }

  /** Whole-frame round trip: the frame of an ASDU list, followed in the receive buffer by at least one octet of
      anything, makes the first subscriber with its APPID get one call per ASDU, in order, each with the content
      that was encoded; the buffer changes within the payload only. */
  lemma FrameRoundTrip(appIds: seq<uint16>, b: seq<byte>, tci: uint16, appId: uint16, xs: seq<Asdu>)
    requires Fits(xs) && xs != [] && |SvPayload(xs)| + 8 < 0x1_0000
    requires HasAt(b, 0, Framed(tci, SV_ETHER_TYPE, appId, SvPayload(xs)))
             && |Framed(tci, SV_ETHER_TYPE, appId, SvPayload(xs))| < |b|
    ensures |b| > FRAME_HEADER && AnnouncedEnd(b) < |b|
    ensures var n := |Framed(tci, SV_ETHER_TYPE, appId, SvPayload(xs))|; var r := ParseMessage(appIds, b, n);
            match FindAppId(appIds, appId)
            case None => r == Ignored
            case Some(i) =>
              r.Served? && r.subscriber == i && AllRead(r.calls, xs) && SameOutside(b, r.buffer, FRAME_HEADER, n)
  {
    hide SvPayload, Framed, ParsePayload, AllRead, SameOutside, FindAppId, HasAt, AllValid, TotalSize;
    PayloadAtLeast(xs);
    FramedParts(b, tci, SV_ETHER_TYPE, appId, SvPayload(xs));
    PayloadParsed(b, FRAME_HEADER, xs);
  }

  // ----- when the receive buffer is left

  /** Nothing checks the length field against the receive buffer.  Up to 1513 the octets of the buffer are all that is
      touched to parse a frame that holds an SV PDU, whatever they are. */
  lemma ReceiveBufferExact(b: seq<byte>)
    requires |b| == ETH_BUFFER_LENGTH
    ensures Readable(b, FRAME_HEADER, AnnouncedEnd(b)) <==> b[FRAME_HEADER] != 0x60 || LengthField(b) <= 1513
  {
  }

  /** A PDU with one ASDU that has nothing but an identifier. */
  function IdOnly(id: seq<byte>): (p: seq<byte>) {
    Tlv(0x60, Tlv(0x80, [1]) + Tlv(0xa2, Tlv(0x30, Tlv(0x80, id))))
  }

  lemma IdOnlySize(id: seq<byte>)
    requires 256 <= |id| < 65510
    ensures |IdOnly(id)| == |id| + 19 && |Tlv(0x80, [1])| == 3
  {
    assert |Tlv(0x80, [1])| == 3;
    hide Tlv;
    LongTlv(0x80, id);
    LongTlv(0x30, Tlv(0x80, id));
    LongTlv(0xa2, Tlv(0x30, Tlv(0x80, id)));
    LongTlv(0x60, Tlv(0x80, [1]) + Tlv(0xa2, Tlv(0x30, Tlv(0x80, id))));
  }

  /** Any greater length field leaves the buffer for some contents: the terminator of an identifier that ends the
      frame is written behind the buffer.  With an identifier of 1487 octets the frame just fills the buffer. */
  lemma BufferLeft(id: seq<byte>, tci: uint16, appId: uint16, numbytes: nat, x: byte)
    requires 1487 <= |id| <= 65508 && numbytes >= 22
    ensures |IdOnly(id)| + 8 < 0x1_0000
    ensures var f := Framed(tci, SV_ETHER_TYPE, appId, IdOnly(id));
            && |f| == |id| + 31 >= ETH_BUFFER_LENGTH && LengthField(f + [x]) == |id| + 27
            && Readable(f + [x], FRAME_HEADER, AnnouncedEnd(f + [x]))
            && var r := ParseMessage([appId], f + [x], numbytes);
            r.Served? && |r.buffer| == |f| + 1 && r.buffer[|f|] == 0
  {
    hide IdOnly, Framed, HasEtherType, ParsePayload, LengthField;
    IdOnlySize(id);
    var f := Framed(tci, SV_ETHER_TYPE, appId, IdOnly(id));
    var b := f + [x];
    assert HasAt(b, 0, f);
    FramedParts(b, tci, SV_ETHER_TYPE, appId, IdOnly(id));
    assert [appId][0] == appId;
    IdOnlyParsed(b, id);
  }

  lemma IdOnlyParsed(b: seq<byte>, id: seq<byte>)
    requires 256 <= |id| < 65510 && |b| == |id| + 32 && HasAt(b, FRAME_HEADER, IdOnly(id))
    ensures var end := |id| + 31; var r := ParsePayload(b, FRAME_HEADER, end);
            |r.0| == |b| && r.0[end] == 0
  {
    hide Tlv, Decode, ParseElements, ParseSequence, ParseAsdu;
    IdOnlySize(id);
    var asdu, end := Tlv(0x80, id), |id| + 31;
    var seqOf := Tlv(0x30, asdu);
    LongTlv(0x80, id);
    LongTlv(0x30, asdu);
    LongTlv(0xa2, seqOf);
    EncodedElement(b, FRAME_HEADER, end, 0x60, Tlv(0x80, [1]) + Tlv(0xa2, seqOf));
    HasAtSplit(b, 16, Tlv(0x80, [1]), Tlv(0xa2, seqOf));
    EncodedElement(b, 16, end, 0x80, [1]);
    EncodedElement(b, 19, end, 0xa2, seqOf);
    EncodedElement(b, 23, end, 0x30, asdu);
    EncodedElement(b, 27, end, 0x80, id);
    IdTerminated(b, 27, end, |id|);
    OneElement(b, 23, end);
    SkipThenSequence(b, 16, 19, end);
  }

  lemma IdTerminated(b: seq<byte>, pos: nat, end: nat, n: nat)
    requires pos < end < |b| && n <= end && b[pos] == 0x80 && Decode(b, pos + 1, end) == Length(end - n, n)
    ensures ParseAsdu(b, pos, end).0 == b[end := 0]
  {
    hide Decode;
    var f := Noted(map[], 0x80, Region(end - n, n));
    assert ScanAsdu(b, end, end, f) == Some(f);
    assert ScanAsdu(b, pos, end, map[]) == Some(f);
  }

  lemma OneElement(b: seq<byte>, pos: nat, end: nat)
    requires pos < end < |b| && b[pos] == 0x30 && Decode(b, pos + 1, end).Length?
    requires var r := Decode(b, pos + 1, end); r.start + r.size == end
    ensures ParseSequence(b, pos, end).0 == ParseAsdu(b, Decode(b, pos + 1, end).start, end).0
  {
    hide Decode, ParseAsdu;
    var r := Decode(b, pos + 1, end);
    var b' := ParseAsdu(b, r.start, end).0;
    assert ParseSequence(b', end, end) == (b', []);
  }

  lemma SkipThenSequence(b: seq<byte>, pos: nat, next: nat, end: nat)
    requires pos < next < end < |b| && b[pos] == 0x80 && b[next] == 0xa2
    requires Decode(b, pos + 1, end).Length? && Decode(b, next + 1, end).Length?
    requires var r := Decode(b, pos + 1, end); r.start + r.size == next
    requires var r := Decode(b, next + 1, end); r.start + r.size == end
    ensures ParseElements(b, pos, end).0 == ParseSequence(b, Decode(b, next + 1, end).start, end).0
  {
    hide Decode, ParseSequence;
    var r := Decode(b, next + 1, end);
    var b' := ParseSequence(b, r.start, end).0;
    assert ParseElements(b', end, end) == (b', []);
    assert ParseElements(b, pos, end) == ParseElements(b, next, end);
  }

  // ----- typed samples

  /** Octets stored at one index of the sample data read back from there as the number they were made from, and
      every index range apart from theirs reads as before. */
  lemma SampleRead(c: Call, data: seq<byte>, index: nat, octets: seq<byte>, index': nat, n: nat)
    requires index + |octets| <= |data| && DataOf(c) == Splice(data, index, octets)
    requires index' + n <= |data| && (index' + n <= index || index + |octets| <= index')
    ensures SampleAt(c, index, |octets|) == BigEndian(octets) && SignedAt(c, index, |octets|) == TwosComplement(octets)
    ensures SampleAt(c, index', n) == BigEndian(data[index'..index' + n])
    ensures SignedAt(c, index', n) == TwosComplement(data[index'..index' + n])
  {
    hide BigEndian, TwosComplement, DataOf;
    SpliceSlices(data, index, octets, index', n);
  }

  lemma SpliceSlices(data: seq<byte>, index: nat, octets: seq<byte>, index': nat, n: nat)
    requires index + |octets| <= |data|
    requires index' + n <= |data| && (index' + n <= index || index + |octets| <= index')
    ensures var s := Splice(data, index, octets);
            s[index..index + |octets|] == octets && s[index'..index' + n] == data[index'..index' + n]
  {
  }

  lemma Pow256Of4()
    ensures Pow256(4) == 0x1_0000_0000
  {
    assert Pow256(1) == 256 && Pow256(2) == 0x1_0000 && Pow256(3) == 0x100_0000;
  }

  /** getINT32 after setINT32. */
  lemma Int32Sample(c: Call, data: seq<byte>, index: nat, v: int32)
    requires index + 4 <= |data| && DataOf(c) == Splice(data, index, U32Octets(v % 0x1_0000_0000))
    ensures SignedAt(c, index, 4) == v
  {
    hide TwosComplement, BigEndian, Splice, SignedAt, U32Octets;
    var octets := U32Octets(v % 0x1_0000_0000);
    U32RoundTrip(v % 0x1_0000_0000);
    Pow256Of4();
    BerInteger.SignedValue(octets, v);
    SampleRead(c, data, index, octets, 0, 0);
  }
}
