/** What parseAllData (goose_receiver.cc) guarantees: when a refresh succeeds, which error it reports, and when its
    stores stay inside the buffers of the tree. */
module DataSetRefresh {
  import opened Octets
  import opened BerLength
  import opened MmsValues
  import opened DataSets

  // ----- when a refresh succeeds

  /** The code's acceptance rule for one element and the value in its slot. */
  predicate Accepts(b: seq<byte>, e: Element, v: MmsValue)
    requires Window(b, e.start, e.start + e.size)
    decreases v
  {
    !v.Unset? &&
    (|| e.tag == 0x80
     || (e.tag == 0xa1 && v.MmsArray? && Fits(b, e.start, e.start + e.size, v.elements))
     || (e.tag == 0xa2 && v.MmsStructure? && Fits(b, e.start, e.start + e.size, v.elements))
     || (e.tag == 0x83 && v.MmsBoolean?)
     || (e.tag == 0x84 && v.MmsBitString? && 8 * (e.size - 1) - b[e.start] == v.bitSize)
     || (e.tag == 0x85 && v.MmsInteger? && e.size <= v.maxSize)
     || (e.tag == 0x86 && v.MmsUnsigned? && e.size <= v.maxSize)
     || (e.tag == 0x87 && v.MmsFloat? && (e.size == 5 || e.size == 9))
     || (e.tag == 0x89 && v.MmsOctetString?)
     || (e.tag == 0x8a && v.MmsVisibleString?)
     || (e.tag == 0x8c && v.MmsBinaryTime?)
     || (e.tag == 0x91 && v.MmsUtcTime? && e.size == 8))
  }

  /** The window is a complete list of elements that matches vs one for one. */
  predicate Fits(b: seq<byte>, pos: nat, end: nat, vs: seq<MmsValue>)
    requires Window(b, pos, end)
    decreases vs
  {
    ElementsInside(b, pos, end);
    match Elements(b, pos, end)
    case None => false
    case Some(es) => |es| == |vs| && forall i :: 0 <= i < |vs| ==> Accepts(b, es[i], vs[i])
  }

  lemma {:induction false} ElementsInside(b: seq<byte>, pos: nat, end: nat)
    requires Window(b, pos, end)
    ensures var r := Elements(b, pos, end);
            r.Some? ==> forall i :: 0 <= i < |r.value| ==>
              pos < r.value[i].start && r.value[i].start + r.value[i].size <= end
    decreases end - pos
  {
    hide Decode;
    if pos < end && Elements(b, pos, end).Some? {
      var r := Decode(b, pos + 1, end);
      ElementsInside(b, r.start + r.size, end);
      assert Elements(b, pos, end).value ==
             [Element(b[pos], r.start, r.size)] + Elements(b, r.start + r.size, end).value;
    }
  }

  /** The store of an accepted element stays inside the buffer of its slot: only a bit string is copied without a
      look at the size of the buffer. */
  predicate Inside(b: seq<byte>, e: Element, v: MmsValue)
    requires Window(b, e.start, e.start + e.size)
    decreases v
  {
    && (e.tag == 0x84 && v.MmsBitString? ==> e.size - 1 <= |v.bits|)
    && (e.tag == 0xa1 && v.MmsArray? ==> AllInside(b, e.start, e.start + e.size, v.elements))
    && (e.tag == 0xa2 && v.MmsStructure? ==> AllInside(b, e.start, e.start + e.size, v.elements))
  }

  predicate AllInside(b: seq<byte>, pos: nat, end: nat, vs: seq<MmsValue>)
    requires Window(b, pos, end)
    decreases vs
  {
    ElementsInside(b, pos, end);
    match Elements(b, pos, end)
    case None => false
    case Some(es) => forall i :: 0 <= i < |vs| && i < |es| ==> Inside(b, es[i], vs[i])
  }

  lemma {:induction false} RefreshVerdict(b: seq<byte>, pos: nat, end: nat, vs: seq<MmsValue>)
    requires Window(b, pos, end)
    ensures Refresh(b, pos, end, vs).0 == NoError <==> Fits(b, pos, end, vs) && AllInside(b, pos, end, vs)
    ensures Fits(b, pos, end, vs) && !AllInside(b, pos, end, vs) ==> Refresh(b, pos, end, vs).0 == Overrun
    decreases end - pos, 0
  {
    hide Decode, RefreshOne, Accepts, Inside, Fits, AllInside;
    if pos < end && vs != [] && Decode(b, pos + 1, end).Length? {
      var r := Decode(b, pos + 1, end);
      RefreshOneExact(b, Element(b[pos], r.start, r.size), vs[0]);
      RefreshVerdict(b, r.start + r.size, end, vs[1..]);
      FitsCons(b, pos, end, vs);
      InsideCons(b, pos, end, vs);
    } else {
      FitsEnd(b, pos, end, vs);
    }
  }

  /** A window that cannot be taken apart further fits if and only if it and the slots are both used up. */
  lemma FitsEnd(b: seq<byte>, pos: nat, end: nat, vs: seq<MmsValue>)
    requires Window(b, pos, end) && (pos == end || vs == [] || Decode(b, pos + 1, end).Malformed?)
    ensures Fits(b, pos, end, vs) <==> pos == end && vs == []
    ensures pos == end && vs == [] ==> AllInside(b, pos, end, vs)
  {
    hide Decode, Accepts, Inside;
    ElementsInside(b, pos, end);
  }

  lemma {:induction false} RefreshedSlots(b: seq<byte>, pos: nat, end: nat, vs: seq<MmsValue>)
    requires Window(b, pos, end) && Refresh(b, pos, end, vs).0 == NoError
    ensures Elements(b, pos, end).Some? && |Elements(b, pos, end).value| == |vs|
    ensures (ElementsInside(b, pos, end);
             var es := Elements(b, pos, end).value;
             forall i :: 0 <= i < |vs| ==>
               Refresh(b, pos, end, vs).1[i] == RefreshOne(b, es[i].tag, es[i].start, es[i].size, vs[i]).1)
    decreases end - pos
  {
    hide Decode, RefreshOne;
    ElementsInside(b, pos, end);
    if pos < end {
      var r := Decode(b, pos + 1, end);
      RefreshedSlots(b, r.start + r.size, end, vs[1..]);
      ElementsInside(b, r.start + r.size, end);
      var es, rest := Elements(b, pos, end).value, Elements(b, r.start + r.size, end).value;
      assert es == [Element(b[pos], r.start, r.size)] + rest;
      var ws, tail := Refresh(b, pos, end, vs).1, Refresh(b, r.start + r.size, end, vs[1..]).1;
      assert ws == [RefreshOne(b, b[pos], r.start, r.size, vs[0]).1] + tail;
      forall i | 0 < i < |vs| ensures ws[i] == RefreshOne(b, es[i].tag, es[i].start, es[i].size, vs[i]).1 {
        assert ws[i] == tail[i - 1] && es[i] == rest[i - 1] && vs[i] == vs[1..][i - 1];
      }
    }
  }

  /** parseAllData returns NO_ERROR exactly when the window fits the tree and no store leaves its buffer, and then every
      slot holds what its own element assigns.  A window that fits otherwise makes it write past a buffer. */
  lemma RefreshExact(b: seq<byte>, pos: nat, end: nat, vs: seq<MmsValue>)
    requires Window(b, pos, end)
    ensures Refresh(b, pos, end, vs).0 == NoError <==> Fits(b, pos, end, vs) && AllInside(b, pos, end, vs)
    ensures Fits(b, pos, end, vs) && !AllInside(b, pos, end, vs) ==> Refresh(b, pos, end, vs).0 == Overrun
    ensures Fits(b, pos, end, vs) && AllInside(b, pos, end, vs) ==>
              (ElementsInside(b, pos, end);
               var es := Elements(b, pos, end).value;
               forall i :: 0 <= i < |vs| ==>
                 Refresh(b, pos, end, vs).1[i] == RefreshOne(b, es[i].tag, es[i].start, es[i].size, vs[i]).1)
  {
    hide Refresh, RefreshOne, Fits, AllInside, Elements;
    RefreshVerdict(b, pos, end, vs);
    if Refresh(b, pos, end, vs).0 == NoError {
      RefreshedSlots(b, pos, end, vs);
    }
  }

  lemma FitsCons(b: seq<byte>, pos: nat, end: nat, vs: seq<MmsValue>)
    requires Window(b, pos, end) && pos < end && vs != [] && Decode(b, pos + 1, end).Length?
    ensures var r := Decode(b, pos + 1, end);
            Fits(b, pos, end, vs) <==>
              Accepts(b, Element(b[pos], r.start, r.size), vs[0]) && Fits(b, r.start + r.size, end, vs[1..])
  {
    hide Decode, Accepts;
    ElementsInside(b, pos, end);
    var r := Decode(b, pos + 1, end);
    ElementsInside(b, r.start + r.size, end);
    if Elements(b, pos, end).Some? {
      var es := Elements(b, pos, end).value;
      assert es[1..] == Elements(b, r.start + r.size, end).value;
      if |es| == |vs| {
        assert forall i :: 0 < i < |vs| ==> vs[i] == vs[1..][i - 1] && es[i] == es[1..][i - 1];
      }
    }
  }

  lemma InsideCons(b: seq<byte>, pos: nat, end: nat, vs: seq<MmsValue>)
    requires Window(b, pos, end) && pos < end && vs != [] && Decode(b, pos + 1, end).Length?
    ensures var r := Decode(b, pos + 1, end);
            Fits(b, pos, end, vs) ==>
              (AllInside(b, pos, end, vs) <==>
               Inside(b, Element(b[pos], r.start, r.size), vs[0]) && AllInside(b, r.start + r.size, end, vs[1..]))
  {
    hide Decode, Accepts, Inside;
    ElementsInside(b, pos, end);
    var r := Decode(b, pos + 1, end);
    ElementsInside(b, r.start + r.size, end);
    if Fits(b, pos, end, vs) {
      var es := Elements(b, pos, end).value;
      assert es[1..] == Elements(b, r.start + r.size, end).value;
      assert forall i :: 0 < i < |vs| ==> vs[i] == vs[1..][i - 1] && es[i] == es[1..][i - 1];
    }
  }

  lemma {:induction false} RefreshOneExact(b: seq<byte>, e: Element, v: MmsValue)
    requires Window(b, e.start, e.start + e.size)
    ensures !v.Unset? ==>
              (RefreshOne(b, e.tag, e.start, e.size, v).0 == NoError <==> Accepts(b, e, v) && Inside(b, e, v))
    ensures Accepts(b, e, v) && !Inside(b, e, v) ==> RefreshOne(b, e.tag, e.start, e.size, v).0 == Overrun
    ensures v.Unset? ==> !Accepts(b, e, v)
    decreases e.size, 1
  {
    hide Refresh, Fits, AllInside;
    if (e.tag == 0xa1 && v.MmsArray?) || (e.tag == 0xa2 && v.MmsStructure?) {
      RefreshVerdict(b, e.start, e.start + e.size, v.elements);
    }
  }

  // ----- which error is reported

  /** What ends the loop: the window and the slots together, the window alone, the slots alone, an empty slot, a length
      that cannot be decoded, or an element its slot does not take. */
  datatype Stop = Complete | TooFew | TooMany | EmptySlot | BadLength | BadElement(error: ParseError)

  /** The width rule for an element of the slot's own kind. */
  predicate WidthAccepted(b: seq<byte>, e: Element, v: MmsValue)
    requires Window(b, e.start, e.start + e.size)
  {
    && (v.MmsBitString? ==> 8 * (e.size - 1) - b[e.start] == v.bitSize)
    && (v.MmsInteger? || v.MmsUnsigned? ==> e.size <= v.maxSize)
    && (v.MmsFloat? ==> e.size == 5 || e.size == 9)
  }

  /** What is wrong with an element: the tag is unknown, it is not the tag of the slot's value, the width is wrong, or
      something is wrong inside. */
  function ElementError(b: seq<byte>, e: Element, v: MmsValue): (r: ParseError)
    requires Window(b, e.start, e.start + e.size) && !v.Unset?
    ensures r !in {Underflow, Overflow, TagDecode}
    decreases v
  {
    if e.tag == 0x80 then NoError
    else if !KnownTag(e.tag) then UnknownTag
    else if e.tag == 0x91 && e.size != 8 then LengthMismatch
    else if e.tag != Tag(v) then TypeMismatch
    else if v.MmsArray? || v.MmsStructure? then
      match StopOf(b, e.start, e.start + e.size, v.elements)
      case Complete => NoError
      case BadElement(Overrun) => Overrun
      case _ => Sublevel
    else if !WidthAccepted(b, e, v) then LengthMismatch
    else if v.MmsBitString? && e.size - 1 > |v.bits| then Overrun
    else NoError
  }

  function StopOf(b: seq<byte>, pos: nat, end: nat, vs: seq<MmsValue>): (s: Stop)
    requires Window(b, pos, end)
    decreases vs
  {
    if pos >= end then if vs == [] then Complete else TooFew
    else if vs == [] then TooMany
    else if vs[0].Unset? then EmptySlot
    else
      match Decode(b, pos + 1, end)
      case Malformed => BadLength
      case Length(start, size) =>
        var error := ElementError(b, Element(b[pos], start, size), vs[0]);
        if error != NoError then BadElement(error) else StopOf(b, start + size, end, vs[1..])
  }

  /** The error code meant for each stop. */
  function Cause(s: Stop): (r: ParseError) {
    match s
    case Complete => NoError
    case TooFew => Underflow
    case TooMany => Overflow
    case EmptySlot => TypeMismatch
    case BadLength => TagDecode
    case BadElement(error) => error
  }

  /** The final check finds slots left and replaces the code. */
  predicate Masked(s: Stop) {
    s.BadLength? || (s.BadElement? && s.error != Overrun)
  }

  lemma {:induction false} ElementErrorExact(b: seq<byte>, e: Element, v: MmsValue)
    requires Window(b, e.start, e.start + e.size) && !v.Unset?
    ensures RefreshOne(b, e.tag, e.start, e.size, v).0 == ElementError(b, e, v)
    decreases e.size, 1
  {
    hide Refresh, StopOf;
    if e.tag == Tag(v) && (v.MmsArray? || v.MmsStructure?) {
      CauseIsMasked(b, e.start, e.start + e.size, v.elements);
      NestedStop(StopOf(b, e.start, e.start + e.size, v.elements));
    }
  }

  lemma NestedStop(s: Stop)
    ensures var reported := if Masked(s) then Underflow else Cause(s);
            Nested(reported) ==
            match s case Complete => NoError case BadElement(Overrun) => Overrun case _ => Sublevel
  {
  }

  /** An undecodable length and an element that does not fit its slot are always reported as an underflow, whatever the
      cause; every other cause is reported as it is. */
  lemma {:induction false} CauseIsMasked(b: seq<byte>, pos: nat, end: nat, vs: seq<MmsValue>)
    requires Window(b, pos, end)
    ensures var s := StopOf(b, pos, end, vs);
            && Refresh(b, pos, end, vs).0 == (if Masked(s) then Underflow else Cause(s))
            && (Refresh(b, pos, end, vs).0 == Cause(s) <==> !Masked(s))
    decreases end - pos, 0
  {
    hide Decode, RefreshOne, ElementError;
    if pos < end && vs != [] && !vs[0].Unset? && Decode(b, pos + 1, end).Length? {
      var r := Decode(b, pos + 1, end);
      ElementErrorExact(b, Element(b[pos], r.start, r.size), vs[0]);
      CauseIsMasked(b, r.start + r.size, end, vs[1..]);
    }
  }

  /** One octet of length n decoded. */
  lemma ShortLength(b: seq<byte>, pos: nat, end: nat)
    requires pos < end <= |b| && b[pos] < 128 && pos + 1 + b[pos] <= end
    ensures Decode(b, pos, end) == Length(pos + 1, b[pos])
  {
    assert HasAt(b, pos, LengthOctets(b[pos]));
    hide Decode;
    LengthOctetsRead(b, pos, b[pos], end);
  }

  /** An integer for a boolean slot is a type mismatch, two octets for a one-octet integer a length mismatch; both are
      reported as an underflow. */
  lemma MaskedExamples(x: byte)
    ensures var b: seq<byte> := [0x85, 2, x, x, 0];
            && StopOf(b, 0, 4, [MmsBoolean(false)]) == BadElement(TypeMismatch)
            && StopOf(b, 0, 4, [MmsInteger([0], 1)]) == BadElement(LengthMismatch)
            && Refresh(b, 0, 4, [MmsBoolean(false)]).0 == Refresh(b, 0, 4, [MmsInteger([0], 1)]).0 == Underflow
  {
    hide Decode;
    ShortLength([0x85, 2, x, x, 0], 1, 4);
  }

  // ----- the buffers of the tree

  /** Every buffer has the size its slot calls for, and what it holds fits, as far as a 16-bit field can tell. */
  predicate WellSized(v: MmsValue) {
    match v
    case MmsBitString(n, bits) => |bits| == BitOctets(n)
    case MmsInteger(octets, max) => |octets| <= max
    case MmsUnsigned(octets, max) => |octets| <= max
    case MmsOctetString(octets, max) => |octets| <= Abs(max)
    case MmsVisibleString(chars, n) => chars.Some? && |chars.value| < 0x8000 ==> |chars.value| <= n
    case MmsBinaryTime(_, buf) => |buf| == 6
    case MmsUtcTime(octets) => |octets| == 8
    case MmsArray(es) => forall i :: 0 <= i < |es| ==> WellSized(es[i])
    case MmsStructure(es) => forall i :: 0 <= i < |es| ==> WellSized(es[i])
    case _ => true
  }

  predicate AllWellSized(vs: seq<MmsValue>) {
    forall i :: 0 <= i < |vs| ==> WellSized(vs[i])
  }

  /** No bit string that reaches a bit-string slot announces more than seven padding bits. */
  predicate ShortPadding(b: seq<byte>, e: Element, v: MmsValue)
    requires Window(b, e.start, e.start + e.size)
    decreases v
  {
    && (e.tag == 0x84 && v.MmsBitString? ==> b[e.start] <= 7)
    && (e.tag == 0xa1 && v.MmsArray? ==> AllShortPadding(b, e.start, e.start + e.size, v.elements))
    && (e.tag == 0xa2 && v.MmsStructure? ==> AllShortPadding(b, e.start, e.start + e.size, v.elements))
  }

  predicate AllShortPadding(b: seq<byte>, pos: nat, end: nat, vs: seq<MmsValue>)
    requires Window(b, pos, end)
    decreases vs
  {
    ElementsInside(b, pos, end);
    match Elements(b, pos, end)
    case None => false
    case Some(es) => forall i :: 0 <= i < |vs| && i < |es| ==> ShortPadding(b, es[i], vs[i])
  }

  lemma {:induction false} InsideExact(b: seq<byte>, e: Element, v: MmsValue)
    requires Window(b, e.start, e.start + e.size) && WellSized(v) && Accepts(b, e, v)
    ensures Inside(b, e, v) <==> ShortPadding(b, e, v)
    decreases v
  {
    hide Fits, AllInside, AllShortPadding;
    if e.tag == 0xa1 || e.tag == 0xa2 {
      if v.MmsArray? || v.MmsStructure? {
        AllInsideExact(b, e.start, e.start + e.size, v.elements);
      }
    }
  }

  lemma {:induction false} AllInsideExact(b: seq<byte>, pos: nat, end: nat, vs: seq<MmsValue>)
    requires Window(b, pos, end) && AllWellSized(vs)
    ensures Fits(b, pos, end, vs) ==> (AllInside(b, pos, end, vs) <==> AllShortPadding(b, pos, end, vs))
    decreases vs
  {
    hide Accepts, Inside, ShortPadding, WellSized;
    ElementsInside(b, pos, end);
    if Fits(b, pos, end, vs) {
      var es := Elements(b, pos, end).value;
      forall i | 0 <= i < |vs| ensures Inside(b, es[i], vs[i]) <==> ShortPadding(b, es[i], vs[i]) {
        InsideExact(b, es[i], vs[i]);
      }
    }
  }

  /** For a tree with well-sized buffers the exact condition: data that fit are stored inside the buffers if and only if
      no bit string announces more than seven padding bits; otherwise the refresh writes past a buffer. */
  lemma StoresInside(b: seq<byte>, pos: nat, end: nat, vs: seq<MmsValue>)
    requires Window(b, pos, end) && AllWellSized(vs)
    ensures Refresh(b, pos, end, vs).0 == NoError <==> Fits(b, pos, end, vs) && AllShortPadding(b, pos, end, vs)
    ensures Fits(b, pos, end, vs) && !AllShortPadding(b, pos, end, vs) ==> Refresh(b, pos, end, vs).0 == Overrun
  {
    hide Refresh, Fits, AllInside, AllShortPadding, AllWellSized;
    RefreshExact(b, pos, end, vs);
    AllInsideExact(b, pos, end, vs);
  }

  lemma OnlyElement(b: seq<byte>, pos: nat, end: nat)
    requires pos < end <= |b| && Decode(b, pos + 1, end).Length?
    requires var r := Decode(b, pos + 1, end); r.start + r.size == end
    ensures var r := Decode(b, pos + 1, end); Elements(b, pos, end) == Some([Element(b[pos], r.start, r.size)])
  {
    hide Decode;
    var r := Decode(b, pos + 1, end);
    assert Elements(b, r.start + r.size, end) == Some([]);
    assert [Element(b[pos], r.start, r.size)] + [] == [Element(b[pos], r.start, r.size)];
  }

  /** Sixteen padding bits in front of four octets pass for a bit string of sixteen bits: two octets too many. */
  lemma OverrunExample(w: byte, x: byte, y: byte, z: byte)
    ensures var b: seq<byte> := [0x84, 5, 16, w, x, y, z, 0]; var vs := [MmsBitString(16, [0, 0])];
            Fits(b, 0, 7, vs) && AllWellSized(vs) && Refresh(b, 0, 7, vs).0 == Overrun
  {
    hide Decode;
    var b: seq<byte> := [0x84, 5, 16, w, x, y, z, 0];
    ShortLength(b, 1, 7);
    OnlyElement(b, 0, 7);
    assert Elements(b, 0, 7) == Some([Element(0x84, 2, 5)]);
  }

  /** A string whose size is below the sign bit of the capacity field. */
  predicate Short(chars: Option<seq<byte>>) {
    chars.Some? ==> |chars.value| < 0x8000
  }

  /** The same kind of value in a buffer of the same size; only strings are moved, to buffers that are larger as far
      as the capacity field can tell: from 32768 octets on it is negative, and the next string is moved in any
      case. */
  predicate SameSlot(v: MmsValue, w: MmsValue) {
    match v
    case MmsBitString(n, bits) => w.MmsBitString? && w.bitSize == n && |w.bits| == |bits|
    case MmsInteger(_, max) => w.MmsInteger? && w.maxSize == max
    case MmsUnsigned(_, max) => w.MmsUnsigned? && w.maxSize == max
    case MmsOctetString(_, max) => w.MmsOctetString? && Abs(w.maxSize) >= Abs(max)
    case MmsVisibleString(_, n) => w.MmsVisibleString? && (v.chars.Some? && Short(w.chars) ==> w.capacity >= n)
    case MmsBinaryTime(n, buf) => w.MmsBinaryTime? && w.size == n && |w.buf| == |buf|
    case MmsUtcTime(octets) => w.MmsUtcTime? && |w.octets| == |octets|
    case MmsFloat(width, _) => w.MmsFloat? && w.width == width
    case MmsBoolean(_) => w.MmsBoolean?
    case MmsArray(es) =>
      w.MmsArray? && |w.elements| == |es| && forall i :: 0 <= i < |es| ==> SameSlot(es[i], w.elements[i])
    case MmsStructure(es) =>
      w.MmsStructure? && |w.elements| == |es| && forall i :: 0 <= i < |es| ==> SameSlot(es[i], w.elements[i])
    case _ => w == v
  }

  lemma {:induction false} SameSlotRefl(v: MmsValue)
    ensures SameSlot(v, v)
  {
    if v.MmsArray? || v.MmsStructure? {
      forall i | 0 <= i < |v.elements| ensures SameSlot(v.elements[i], v.elements[i]) {
        SameSlotRefl(v.elements[i]);
      }
    }
  }

  lemma PrimitiveKeepsSizes(b: seq<byte>, tag: byte, start: nat, size: nat, v: MmsValue)
    requires Window(b, start, start + size) && WellSized(v)
    ensures var w := RefreshPrimitive(b, tag, start, size, v).1; WellSized(w) && SameSlot(v, w)
  {
    SameSlotRefl(v);
  }

  lemma {:induction false} ElementKeepsSizes(b: seq<byte>, tag: byte, start: nat, size: nat, v: MmsValue)
    requires Window(b, start, start + size) && WellSized(v)
    ensures var w := RefreshOne(b, tag, start, size, v).1; WellSized(w) && SameSlot(v, w)
    decreases size, 1
  {
    hide Refresh, RefreshPrimitive;
    if tag != 0xa1 && tag != 0xa2 {
      PrimitiveKeepsSizes(b, tag, start, size, v);
    } else {
      SameSlotRefl(v);
      if v.MmsArray? || v.MmsStructure? {
        KeepsSizes(b, start, start + size, v.elements);
      }
    }
  }

  /** Up to the first overrun, if any, a refresh keeps every buffer of a well-sized tree at its size: with StoresInside,
      the tree stays one that the next refresh can be trusted with. */
  lemma {:induction false} KeepsSizes(b: seq<byte>, pos: nat, end: nat, vs: seq<MmsValue>)
    requires Window(b, pos, end) && AllWellSized(vs)
    ensures var ws := Refresh(b, pos, end, vs).1;
            AllWellSized(ws) && |ws| == |vs| && forall i :: 0 <= i < |vs| ==> SameSlot(vs[i], ws[i])
    decreases end - pos, 0
  {
    hide Decode, RefreshOne, WellSized, SameSlot;
    forall i | 0 <= i < |vs| ensures SameSlot(vs[i], vs[i]) {
      SameSlotRefl(vs[i]);
    }
    if pos < end && vs != [] && !vs[0].Unset? && Decode(b, pos + 1, end).Length? {
      var r := Decode(b, pos + 1, end);
      ElementKeepsSizes(b, b[pos], r.start, r.size, vs[0]);
      KeepsSizes(b, r.start + r.size, end, vs[1..]);
    }
  }

  // ----- learned trees are well sized

  lemma PrimitiveWellSized(b: seq<byte>, tag: byte, start: nat, size: nat)
    requires Window(b, start, start + size)
    ensures var r := LearnPrimitive(b, tag, start, size); r.Learned? ==> WellSized(r.value)
  {
  }

  lemma {:induction false} BuildWellSized(b: seq<byte>, pos: nat, end: nat)
    requires Window(b, pos, end)
    ensures Build(b, pos, end).Some? ==> AllWellSized(Build(b, pos, end).value)
    decreases end - pos, 0
  {
    hide Decode, WellSized, LearnPrimitive, Learn, Build;
    if pos < end {
      BuildStep(b, pos, end);
      if Decode(b, pos + 1, end).Length? {
        var r := Decode(b, pos + 1, end);
        if b[pos] == 0xa1 || b[pos] == 0xa2 {
          LearnWellSized(b, r.start, r.start + r.size, b[pos] == 0xa2);
        } else {
          PrimitiveWellSized(b, b[pos], r.start, r.size);
        }
        BuildWellSized(b, r.start + r.size, end);
      }
    } else {
      BuildDone(b, end);
    }
  }

  /** Every tree the receiver learns by itself has well-sized buffers. */
  lemma {:induction false} LearnWellSized(b: seq<byte>, pos: nat, end: nat, isStructure: bool)
    requires Window(b, pos, end)
    ensures var r := Learn(b, pos, end, isStructure); r.Some? ==> WellSized(r.value)
    decreases end - pos, 1
  {
    hide Count, Build;
    BuildWellSized(b, pos, end);
  }
}
