/** Sequences of optional tag-length-value elements in a fixed order, as a sampled-values ASDU is one, and what
    happens to the octets when the contents of one element are replaced. */
module TlvSlots {
  import opened Octets
  import opened MmsValues

  datatype Slot = Absent | Present(tag: byte, contents: seq<byte>)

  function SlotOctets(x: Slot): (s: seq<byte>) {
    match x case Absent => [] case Present(tag, c) => Tlv(tag, c)
  }

  function EncodeSlots(xs: seq<Slot>): (s: seq<byte>) {
    if xs == [] then [] else SlotOctets(xs[0]) + EncodeSlots(xs[1..])
  }

  lemma {:induction false} EncodeSlotsAppend(xs: seq<Slot>, ys: seq<Slot>)
    ensures EncodeSlots(xs + ys) == EncodeSlots(xs) + EncodeSlots(ys)
  {
    hide SlotOctets;
    if xs == [] {
      assert xs + ys == ys;
    } else {
      assert (xs + ys)[1..] == xs[1..] + ys;
      EncodeSlotsAppend(xs[1..], ys);
    }
  }

  lemma OneSlot(x: Slot)
    ensures EncodeSlots([x]) == SlotOctets(x)
  {
    hide SlotOctets;
    assert EncodeSlots([x][1..]) == [];
  }

  function SlotHead(x: Slot): (s: seq<byte>)
    requires x.Present?
  {
    [x.tag] + Announce(|x.contents|)
  }

  lemma SlotParts(x: Slot)
    requires x.Present?
    ensures SlotOctets(x) == SlotHead(x) + x.contents
  {
    hide Announce;
  }

  /** Where slot j starts within the encoding. */
  function SlotStart(xs: seq<Slot>, j: nat): (n: nat)
    requires j <= |xs|
  {
    |EncodeSlots(xs[..j])|
  }

  /** Where the contents of slot j start within the encoding. */
  function SlotOffset(xs: seq<Slot>, j: nat): (n: nat)
    requires j < |xs| && xs[j].Present?
  {
    SlotStart(xs, j) + |SlotHead(xs[j])|
  }

  /** Everything before slot j, slot j, everything after. */
  lemma SplitAt(xs: seq<Slot>, j: nat)
    requires j < |xs|
    ensures EncodeSlots(xs) == EncodeSlots(xs[..j]) + SlotOctets(xs[j]) + EncodeSlots(xs[j + 1..])
    ensures SlotStart(xs, j + 1) == SlotStart(xs, j) + |SlotOctets(xs[j])|
  {
    hide EncodeSlots, SlotOctets;
    assert xs == xs[..j] + ([xs[j]] + xs[j + 1..]);
    EncodeSlotsAppend(xs[..j], [xs[j]] + xs[j + 1..]);
    EncodeSlotsAppend([xs[j]], xs[j + 1..]);
    OneSlot(xs[j]);
    assert xs[..j + 1] == xs[..j] + [xs[j]];
    EncodeSlotsAppend(xs[..j], [xs[j]]);
  }

  lemma SlotStartsOrdered(xs: seq<Slot>, i: nat, j: nat)
    requires i <= j <= |xs|
    ensures SlotStart(xs, i) <= SlotStart(xs, j) <= |EncodeSlots(xs)|
  {
    hide EncodeSlots;
    assert xs[..j] == xs[..i] + xs[i..j];
    EncodeSlotsAppend(xs[..i], xs[i..j]);
    assert xs == xs[..j] + xs[j..];
    EncodeSlotsAppend(xs[..j], xs[j..]);
  }

  /** The contents of slot j are where SlotOffset says. */
  lemma SlotAt(b: seq<byte>, pos: nat, xs: seq<Slot>, j: nat)
    requires HasAt(b, pos, EncodeSlots(xs)) && j < |xs| && xs[j].Present?
    ensures HasAt(b, pos + SlotStart(xs, j), SlotOctets(xs[j]))
    ensures HasAt(b, pos + SlotOffset(xs, j), xs[j].contents)
    ensures SlotOffset(xs, j) + |xs[j].contents| == SlotStart(xs, j + 1) <= |EncodeSlots(xs)|
  {
    hide EncodeSlots, SlotOctets, SlotHead, HasAt;
    SplitAt(xs, j);
    SlotStartsOrdered(xs, j + 1, |xs|);
    var before, after := EncodeSlots(xs[..j]), EncodeSlots(xs[j + 1..]);
    HasAtSplit(b, pos, before + SlotOctets(xs[j]), after);
    HasAtSplit(b, pos, before, SlotOctets(xs[j]));
    SlotParts(xs[j]);
    HasAtSplit(b, pos + |before|, SlotHead(xs[j]), xs[j].contents);
  }

  lemma SpliceContents(before: seq<byte>, head: seq<byte>, c: seq<byte>, after: seq<byte>, c': seq<byte>)
    requires |c'| == |c|
    ensures before + (head + c') + after == Splice(before + (head + c) + after, |before| + |head|, c')
  {
  }

  /** Replacing the contents of slot j by as many octets changes just those octets of the encoding. */
  lemma PatchSlot(xs: seq<Slot>, j: nat, c: seq<byte>)
    requires j < |xs| && xs[j].Present? && |c| == |xs[j].contents|
    ensures SlotOffset(xs, j) + |c| <= |EncodeSlots(xs)|
    ensures EncodeSlots(xs[j := Present(xs[j].tag, c)]) == Splice(EncodeSlots(xs), SlotOffset(xs, j), c)
  {
    hide EncodeSlots, SlotOctets, Splice, Announce;
    var ys := xs[j := Present(xs[j].tag, c)];
    SplitAt(xs, j);
    SplitAt(ys, j);
    SlotStartsOrdered(xs, j + 1, |xs|);
    assert ys[..j] == xs[..j] && ys[j + 1..] == xs[j + 1..];
    SlotParts(xs[j]);
    SlotParts(ys[j]);
    SpliceContents(EncodeSlots(xs[..j]), SlotHead(xs[j]), xs[j].contents, EncodeSlots(xs[j + 1..]), c);
  }

  /** Replacing part of a region is replacing the region. */
  lemma SpliceInside(s: seq<byte>, off: nat, c: seq<byte>, k: nat, t: seq<byte>)
    requires HasAt(s, off, c) && k + |t| <= |c|
    ensures Splice(s, off, Splice(c, k, t)) == Splice(s, off + k, t)
  {
    hide Splice;
    var d := Splice(c, k, t);
    var l, r := Splice(s, off, d), Splice(s, off + k, t);
    forall i | 0 <= i < |s| ensures l[i] == r[i] {
      SpliceAt(s, off, d, i);
      SpliceAt(s, off + k, t, i);
      if off <= i < off + |c| {
        SpliceAt(c, k, t, i - off);
        HasAtIndex(s, off, c, i - off);
      }
    }
  }

  lemma SpliceAt(s: seq<byte>, pos: nat, t: seq<byte>, i: nat)
    requires pos + |t| <= |s| && i < |s|
    ensures Splice(s, pos, t)[i] == if pos <= i < pos + |t| then t[i - pos] else s[i]
  {
  }

  // ----- lists of encodings

  function Concat(ss: seq<seq<byte>>): (s: seq<byte>) {
    if ss == [] then [] else ss[0] + Concat(ss[1..])
  }

  lemma {:induction false} ConcatAppend(ss: seq<seq<byte>>, ts: seq<seq<byte>>)
    ensures Concat(ss + ts) == Concat(ss) + Concat(ts)
  {
    if ss == [] {
      assert ss + ts == ts;
    } else {
      assert (ss + ts)[1..] == ss[1..] + ts;
      ConcatAppend(ss[1..], ts);
    }
  }

  lemma ConcatOne(s: seq<byte>)
    ensures Concat([s]) == s
  {
    assert Concat([s][1..]) == [];
  }

  lemma ConcatSnoc(ss: seq<seq<byte>>, i: nat)
    requires i < |ss|
    ensures Concat(ss[..i + 1]) == Concat(ss[..i]) + ss[i]
  {
    hide Concat;
    assert ss[..i + 1] == ss[..i] + [ss[i]];
    ConcatAppend(ss[..i], [ss[i]]);
    ConcatOne(ss[i]);
  }

  lemma ConcatSplit(ss: seq<seq<byte>>, i: nat)
    requires i < |ss|
    ensures Concat(ss) == Concat(ss[..i]) + ss[i] + Concat(ss[i + 1..])
  {
    hide Concat;
    assert ss == ss[..i + 1] + ss[i + 1..];
    ConcatAppend(ss[..i + 1], ss[i + 1..]);
    ConcatSnoc(ss, i);
  }

  /** Patching one member of a list patches the concatenation at that member's offset. */
  lemma PatchConcat(ss: seq<seq<byte>>, i: nat, k: nat, t: seq<byte>)
    requires i < |ss| && k + |t| <= |ss[i]|
    ensures |Concat(ss[..i])| + k + |t| <= |Concat(ss)|
    ensures Concat(ss[i := Splice(ss[i], k, t)]) == Splice(Concat(ss), |Concat(ss[..i])| + k, t)
  {
    hide Concat, Splice;
    var us := ss[i := Splice(ss[i], k, t)];
    ConcatSplit(ss, i);
    ConcatSplit(us, i);
    assert us[..i] == ss[..i] && us[i + 1..] == ss[i + 1..];
    SpliceMiddle(Concat(ss[..i]), ss[i], Concat(ss[i + 1..]), k, t);
  }

  lemma SpliceMiddle(a: seq<byte>, s: seq<byte>, z: seq<byte>, k: nat, t: seq<byte>)
    requires k + |t| <= |s|
    ensures a + Splice(s, k, t) + z == Splice(a + s + z, |a| + k, t)
  {
    var w, r := a + s + z, k + |t|;
    assert w[..|a| + k] == a + s[..k] && w[|a| + r..] == s[r..] + z;
    assert a + (s[..k] + t + s[r..]) + z == (a + s[..k]) + t + (s[r..] + z);
  }

  lemma SpliceBehind(a: seq<byte>, s: seq<byte>, k: nat, t: seq<byte>)
    requires k + |t| <= |s|
    ensures a + Splice(s, k, t) == Splice(a + s, |a| + k, t)
  {
  }
}
