/** The sampled-values publisher (sv_publisher.cc): the message is laid out once by SetupComplete and from then on
    patched in place through the field positions saved in each ASDU. */
module SvPublisher {
  import opened Octets
  import opened MmsValues
  import opened BerEncoders
  import opened TlvSlots
  import opened SvFrames
  import opened EthernetFrames
  import BerInteger
  import Timestamps

  const SV_MAX_MESSAGE_SIZE := 1518

  /** An ASDU as the publisher keeps it: settings, and positions in the message buffer once it is laid out. */
  datatype Block = Block(
    svId: seq<byte>, datset: Option<seq<byte>>, dataSize: nat, hasRefrTm: bool, hasSmpRate: bool, hasSmpMod: bool,
    smpSynch: byte, smpCnt: uint16, smpCntLimit: uint16, confRev: uint32, smpMod: byte, smpRate: uint16,
    dataPos: Option<nat>, smpCntPos: Option<nat>, smpSynchPos: Option<nat>, refrTmPos: Option<nat>)

  /** What the settings of a block say, given the octets found in its reserved places. */
  function Content(k: Block, refrTm: seq<byte>, data: seq<byte>): (a: Asdu) {
    Asdu(k.svId, k.datset, k.smpCnt, k.confRev, if k.hasRefrTm then Some(refrTm) else None, k.smpSynch,
         if k.hasSmpRate then Some(k.smpRate) else None, data, if k.hasSmpMod then Some(k.smpMod) else None)
  }

  /** ASDU_getEncodedSize of a block. */
  function BlockSize(k: Block): (n: nat) {
    FieldsSize(k.svId, k.datset, k.hasRefrTm, k.hasSmpRate, k.dataSize, k.hasSmpMod)
  }

  lemma ContentSize(k: Block, refrTm: seq<byte>, data: seq<byte>)
    requires |data| == k.dataSize
    ensures BodySize(Content(k, refrTm, data)) == BlockSize(k)
  {
  }

  // ----- laying out one ASDU

  /** The octets written so far: what stood in the buffer, with `done` put in from `base` on. */
  ghost predicate Written(b: seq<byte>, before: seq<byte>, base: nat, done: seq<byte>) {
    base + |done| <= |before| && b == Splice(before, base, done)
  }

  lemma WrittenLength(b: seq<byte>, before: seq<byte>, base: nat, done: seq<byte>)
    requires Written(b, before, base, done)
    ensures |b| == |before|
  {
  }

  lemma WrittenMore(b: seq<byte>, before: seq<byte>, base: nat, done: seq<byte>, t: seq<byte>)
    requires Written(b, before, base, done) && base + |done| + |t| <= |before|
    ensures Written(Splice(b, base + |done|, t), before, base, done + t)
  {
    SpliceSplice(before, base, done, t);
  }

  /** One more element behind those written so far. */
  method AppendSlot(x: Slot, buffer: array<byte>, ghost before: seq<byte>, ghost base: nat, ghost head: seq<byte>,
                    ghost xs: seq<Slot>, bufPos: nat) returns (end: nat)
    requires Written(buffer[..], before, base, head + EncodeSlots(xs)) && bufPos == base + |head| + |EncodeSlots(xs)|
    requires bufPos + |SlotOctets(x)| <= buffer.Length
    modifies buffer
    ensures Written(buffer[..], before, base, head + EncodeSlots(xs + [x])) && end == bufPos + |SlotOctets(x)|
    ensures end == base + |head| + |EncodeSlots(xs + [x])|
  {
    hide EncodeSlots, Tlv, Splice;
    EncodeSlotsAppend(xs, [x]);
    OneSlot(x);
    WrittenMore(buffer[..], before, base, head + EncodeSlots(xs), SlotOctets(x));
    assert head + EncodeSlots(xs) + SlotOctets(x) == head + EncodeSlots(xs + [x]);
    end := bufPos;
    if x.Present? {
      end := EncodeOctetString(x.tag, x.contents, buffer, bufPos);
    } else {
      NothingSpliced(buffer[..], bufPos);
    }
  }

  lemma NothingSpliced(b: seq<byte>, pos: nat)
    requires pos <= |b|
    ensures Splice(b, pos, []) == b
  {
  }

  lemma SpliceOwn(b: seq<byte>, pos: nat, t: seq<byte>)
    requires HasAt(b, pos, t)
    ensures Splice(b, pos, t) == b
  {
  }

  /** Tag and length only: the n octets behind them stay as they are, for the user to fill in. */
  method AppendReserved(tag: byte, n: nat, buffer: array<byte>, ghost before: seq<byte>, ghost base: nat,
                        ghost head: seq<byte>,
                        ghost xs: seq<Slot>, bufPos: nat) returns (end: nat, position: nat, ghost c: seq<byte>)
    requires Written(buffer[..], before, base, head + EncodeSlots(xs)) && bufPos == base + |head| + |EncodeSlots(xs)|
    requires bufPos + 1 + |Announce(n)| + n <= buffer.Length
    modifies buffer
    ensures |c| == n && position == bufPos + 1 + |Announce(n)| && end == position + n
    ensures Written(buffer[..], before, base, head + EncodeSlots(xs + [Present(tag, c)]))
    ensures end == base + |head| + |EncodeSlots(xs + [Present(tag, c)])|
  {
    hide EncodeSlots, SlotOctets, Announce, Splice, Written;
    ghost var b := buffer[..];
    position := EncodeTL(tag, n, buffer, bufPos);
    end := position + n;
    c := buffer[..][position..end];
    WrittenLength(b, before, base, head + EncodeSlots(xs));
    ReservedWritten(b, bufPos, [tag] + Announce(n), n, c);
    SlotParts(Present(tag, c));
    SlotWritten(b, before, base, head, xs, Present(tag, c));
  }

  /** Writing t and leaving the next n octets alone is writing t and those octets. */
  lemma ReservedWritten(b: seq<byte>, pos: nat, t: seq<byte>, n: nat, c: seq<byte>)
    requires pos + |t| + n <= |b| && c == Splice(b, pos, t)[pos + |t|..pos + |t| + n]
    ensures Splice(b, pos, t) == Splice(b, pos, t + c)
  {
    SpliceOwn(Splice(b, pos, t), pos + |t|, c);
    SpliceSplice(b, pos, t, c);
  }

  lemma SlotWritten(b: seq<byte>, before: seq<byte>, base: nat, head: seq<byte>, xs: seq<Slot>, x: Slot)
    requires Written(b, before, base, head + EncodeSlots(xs)) && x.Present?
    requires base + |head| + |EncodeSlots(xs)| + |SlotOctets(x)| <= |before|
    ensures SlotOctets(x) == [x.tag] + Announce(|x.contents|) + x.contents
    ensures |EncodeSlots(xs + [x])| == |EncodeSlots(xs)| + |SlotOctets(x)|
    ensures Written(Splice(b, base + |head| + |EncodeSlots(xs)|, SlotOctets(x)), before, base,
            head + EncodeSlots(xs + [x]))
  {
    hide EncodeSlots, SlotOctets, Splice, Written, Announce;
    EncodeSlotsAppend(xs, [x]);
    OneSlot(x);
    SlotParts(x);
    WrittenMore(b, before, base, head + EncodeSlots(xs), SlotOctets(x));
    assert head + EncodeSlots(xs) + SlotOctets(x) == head + EncodeSlots(xs + [x]);
  }

  function DatsetSlot(k: Block): (x: Slot) {
    if k.datset.Some? then Present(0x81, k.datset.value) else Absent
  }

  function RateSlot(k: Block): (x: Slot) {
    if k.hasSmpRate then Present(0x86, U16Octets(k.smpRate)) else Absent
  }

  function ModSlot(k: Block): (x: Slot) {
    if k.hasSmpMod then Present(0x88, U16Octets(k.smpMod)) else Absent
  }

  /** The octets that slot x and all before it take, as the size pass counts them. */
  lemma SlotWidth(x: Slot)
    requires x.Present? ==> |x.contents| < 65535
    ensures |SlotOctets(x)| == if x.Present? then 1 + AnnounceSize(|x.contents|) + |x.contents| else 0
    ensures x.Present? && |x.contents| < 128 ==> |SlotOctets(x)| == 2 + |x.contents| && |SlotHead(x)| == 2
  {
    if x.Present? {
      SlotSize(x);
    } else {
      ShortSlot(x);
    }
  }

  function FrontSize(k: Block): (n: nat) {
    (1 + AnnounceSize(|k.svId|) + |k.svId|)
    + (if k.datset.Some? then 1 + AnnounceSize(|k.datset.value|) + |k.datset.value| else 0) + 4 + 6
  }

  /** svID, datset, smpCnt and confRev. */
  method EncodeFront(k: Block, buffer: array<byte>, ghost before: seq<byte>, ghost base: nat, ghost head: seq<byte>,
                     bufPos: nat)
    returns (end: nat, smpCntPos: nat, ghost xs: seq<Slot>)
    requires Written(buffer[..], before, base, head) && bufPos == base + |head|
    requires FrontSize(k) < 65535 && bufPos + FrontSize(k) <= buffer.Length
    modifies buffer
    ensures xs == [Present(0x80, k.svId), DatsetSlot(k), Present(0x82, U16Octets(k.smpCnt)),
            Present(0x83, U32Octets(k.confRev))]
    ensures Written(buffer[..], before, base, head + EncodeSlots(xs))
    ensures end == bufPos + FrontSize(k) == bufPos + |EncodeSlots(xs)|
    ensures smpCntPos == bufPos + SlotOffset(xs, SMP_CNT)
  {
    assert EncodeSlots([]) == [] && head + [] == head;
    hide EncodeSlots, SlotOctets, SlotHead, AnnounceSize, Splice, Written, U16Octets, U32Octets;
    ghost var x0, x1 := Present(0x80, k.svId), DatsetSlot(k);
    ghost var x2, x3 := Present(0x82, U16Octets(k.smpCnt)), Present(0x83, U32Octets(k.confRev));
    SlotWidth(x0);
    SlotWidth(x1);
    SlotWidth(x2);
    SlotWidth(x3);
    end := AppendSlot(Present(0x80, k.svId), buffer, before, base, head, [], bufPos);
    end := AppendSlot(DatsetSlot(k), buffer, before, base, head, [] + [x0], end);
    smpCntPos := end + 2;
    end := AppendSlot(Present(0x82, U16Octets(k.smpCnt)), buffer, before, base, head, [] + [x0] + [x1], end);
    end := AppendSlot(Present(0x83, U32Octets(k.confRev)), buffer, before, base, head, [] + [x0] + [x1] + [x2], end);
    xs := [] + [x0] + [x1] + [x2] + [x3];
    assert xs == [x0, x1, x2, x3] && xs[..2] == [] + [x0] + [x1];
  }

  /** refrTm (reserved), smpSynch and smpRate. */
  method EncodeMiddle(k: Block, buffer: array<byte>, ghost before: seq<byte>, ghost base: nat, ghost head: seq<byte>,
                      ghost xs: seq<Slot>, bufPos: nat)
    returns (end: nat, refrTmPos: Option<nat>, smpSynchPos: nat, ghost ys: seq<Slot>, ghost c: seq<byte>)
    requires Written(buffer[..], before, base, head + EncodeSlots(xs)) && bufPos == base + |head| + |EncodeSlots(xs)|
    requires bufPos + (if k.hasRefrTm then 10 else 0) + 3 + (if k.hasSmpRate then 4 else 0) <= buffer.Length
    modifies buffer
    ensures k.hasRefrTm ==> |c| == 8
    ensures ys == xs + [if k.hasRefrTm then Present(0x84, c) else Absent, Present(0x85, [k.smpSynch]), RateSlot(k)]
    ensures Written(buffer[..], before, base, head + EncodeSlots(ys))
    ensures end == base + |head| + |EncodeSlots(ys)|
    ensures end == bufPos + (if k.hasRefrTm then 10 else 0) + 3 + (if k.hasSmpRate then 4 else 0)
    ensures smpSynchPos == base + |head| + SlotOffset(ys, |xs| + 1)
    ensures refrTmPos == if k.hasRefrTm then Some(base + |head| + SlotOffset(ys, |xs|)) else None
  {
    hide EncodeSlots, SlotOctets, SlotHead, Splice, Written, U16Octets, AnnounceSize;
    c := [];
    refrTmPos := None;
    if k.hasRefrTm {
      AnnounceSmall(8);
      var p;
      end, p, c := AppendReserved(0x84, 8, buffer, before, base, head, xs, bufPos);
      SlotWidth(Present(0x84, c));
      refrTmPos := Some(p);
    } else {
      SlotWidth(Absent);
      end := AppendSlot(Absent, buffer, before, base, head, xs, bufPos);
    }
    ghost var x0 := if k.hasRefrTm then Present(0x84, c) else Absent;
    ghost var x1, x2 := Present(0x85, [k.smpSynch]), RateSlot(k);
    SlotWidth(x1);
    SlotWidth(x2);
    smpSynchPos := end + 2;
    end := AppendSlot(Present(0x85, [k.smpSynch]), buffer, before, base, head, xs + [x0], end);
    end := AppendSlot(RateSlot(k), buffer, before, base, head, xs + [x0] + [x1], end);
    ys := xs + [x0] + [x1] + [x2];
    assert ys == xs + [x0, x1, x2] && ys[..|xs|] == xs && ys[..|xs| + 1] == xs + [x0];
  }

  lemma AnnounceSmall(n: nat)
    requires n < 128
    ensures |Announce(n)| == 1
  {
  }

  /** The sample data (reserved) and smpMod. */
  method EncodeBack(k: Block, buffer: array<byte>, ghost before: seq<byte>, ghost base: nat, ghost head: seq<byte>,
                    ghost xs: seq<Slot>, bufPos: nat)
    returns (end: nat, dataPos: nat, ghost ys: seq<Slot>, ghost c: seq<byte>)
    requires Written(buffer[..], before, base, head + EncodeSlots(xs)) && bufPos == base + |head| + |EncodeSlots(xs)|
    requires k.dataSize < 65535
    requires bufPos + 1 + AnnounceSize(k.dataSize) + k.dataSize + (if k.hasSmpMod then 4 else 0) <= buffer.Length
    modifies buffer
    ensures |c| == k.dataSize && ys == xs + [Present(0x87, c), ModSlot(k)]
    ensures Written(buffer[..], before, base, head + EncodeSlots(ys))
    ensures end == base + |head| + |EncodeSlots(ys)|
    ensures end == bufPos + 1 + AnnounceSize(k.dataSize) + k.dataSize + (if k.hasSmpMod then 4 else 0)
    ensures dataPos == base + |head| + SlotOffset(ys, |xs|)
  {
    hide EncodeSlots, SlotOctets, Splice, Written, U16Octets, Announce, AnnounceSize;
    AnnounceExact(k.dataSize);
    end, dataPos, c := AppendReserved(0x87, k.dataSize, buffer, before, base, head, xs, bufPos);
    ghost var x0 := Present(0x87, c);
    SlotWidth(ModSlot(k));
    end := AppendSlot(ModSlot(k), buffer, before, base, head, xs + [x0], end);
    ys := xs + [x0] + [ModSlot(k)];
    assert ys == xs + [x0, ModSlot(k)] && ys[..|xs|] == xs;
  }

  /** The content of a block whose reserved places hold the given octets has just the slots written. */
  lemma ContentSlots(k: Block, refrTm: seq<byte>, data: seq<byte>, xs: seq<Slot>, ys: seq<Slot>, zs: seq<Slot>)
    requires xs == [Present(0x80, k.svId), DatsetSlot(k), Present(0x82, U16Octets(k.smpCnt)),
             Present(0x83, U32Octets(k.confRev))]
    requires ys == xs + [if k.hasRefrTm then Present(0x84, refrTm) else Absent, Present(0x85, [k.smpSynch]),
             RateSlot(k)]
    requires zs == ys + [Present(0x87, data), ModSlot(k)]
    ensures zs == Slots(Content(k, refrTm, data))
    ensures zs[..4] == xs && zs[..7] == ys
  {
  }

  lemma PrefixOffset(xs: seq<Slot>, ys: seq<Slot>, j: nat)
    requires j < |ys| <= |xs| && ys == xs[..|ys|] && ys[j].Present?
    ensures SlotOffset(xs, j) == SlotOffset(ys, j)
  {
    hide EncodeSlots;
    assert xs[..j] == ys[..j];
  }

  lemma BlockParts(k: Block)
    ensures BlockSize(k) ==
            FrontSize(k) + (if k.hasRefrTm then 10 else 0) + 3 + (if k.hasSmpRate then 4 else 0)
            + (1 + AnnounceSize(k.dataSize) + k.dataSize) + (if k.hasSmpMod then 4 else 0)
  {
    hide AnnounceSize;
  }

  /** ASDU_encodeToBuffer: the nine fields in order; the field positions are saved on the way. */
  method EncodeBlock(k: Block, buffer: array<byte>, bufPos: nat) returns (end: nat, k': Block, ghost a: Asdu)
    requires BlockSize(k) < 65535 && bufPos + 1 + |Announce(BlockSize(k))| + BlockSize(k) <= buffer.Length
    modifies buffer
    ensures ValidAsdu(a) && |a.data| == k.dataSize && BodySize(a) == BlockSize(k)
    ensures exists refrTm :: a == Content(k, refrTm, a.data)
    ensures end == bufPos + |EncodeAsdu(a)| == bufPos + 1 + |Announce(BlockSize(k))| + BlockSize(k)
    ensures buffer[..] == Splice(old(buffer[..]), bufPos, EncodeAsdu(a))
    ensures Placed(k, k', a, bufPos)
  {
    hide EncodeSlots, SlotOctets, SlotOffset, Announce, AnnounceSize, Splice, U16Octets, U32Octets, Slots, BodySize;
    hide BlockSize, FrontSize;
    BlockParts(k);
    ghost var before, head := buffer[..], [0x30] + Announce(BlockSize(k));
    end := EncodeTL(0x30, BlockSize(k), buffer, bufPos);
    var smpCntPos, smpSynchPos, dataPos, refrTmPos;
    ghost var xs, ys, zs, refrTm, data;
    end, smpCntPos, xs := EncodeFront(k, buffer, before, bufPos, head, end);
    end, refrTmPos, smpSynchPos, ys, refrTm := EncodeMiddle(k, buffer, before, bufPos, head, xs, end);
    end, dataPos, zs, data := EncodeBack(k, buffer, before, bufPos, head, ys, end);
    a := Content(k, refrTm, data);
    ContentSlots(k, refrTm, data, xs, ys, zs);
    ContentSize(k, refrTm, data);
    assert buffer[..] == Splice(before, bufPos, EncodeAsdu(a));
    PrefixOffset(zs, xs, SMP_CNT);
    PrefixOffset(zs, ys, SMP_SYNCH);
    if k.hasRefrTm {
      PrefixOffset(zs, ys, REFR_TM);
    }
    k' := k.(smpCntPos := Some(smpCntPos), smpSynchPos := Some(smpSynchPos), dataPos := Some(dataPos),
        refrTmPos := refrTmPos);
  }

  /** k' is k with its field positions saved, for the ASDU a encoded from base on. */
  ghost predicate Placed(k: Block, k': Block, a: Asdu, base: nat) {
    && k' == k.(smpCntPos := k'.smpCntPos, smpSynchPos := k'.smpSynchPos, dataPos := k'.dataPos,
       refrTmPos := k'.refrTmPos)
    && k'.smpCntPos == Some(base + FieldOffset(a, SMP_CNT)) && k'.smpSynchPos == Some(base + FieldOffset(a, SMP_SYNCH))
    && k'.dataPos == Some(base + FieldOffset(a, DATA))
    && k'.refrTmPos == if a.refrTm.Some? then Some(base + FieldOffset(a, REFR_TM)) else None
  }

  // ----- laying out the message

  function BlocksSize(ks: seq<Block>): (n: nat) {
    if ks == [] then 0 else BlockSize(ks[0]) + AnnounceSize(BlockSize(ks[0])) + 1 + BlocksSize(ks[1..])
  }

  /** Block k stands for ASDU a: same settings, a's reserved octets apart. */
  ghost predicate Represents(k: Block, a: Asdu) {
    && ValidAsdu(a) && |a.data| == k.dataSize && BodySize(a) == BlockSize(k)
    && exists refrTm :: a == Content(k, refrTm, a.data)
  }

  lemma {:induction false} BlocksSizeAppend(ks: seq<Block>, ls: seq<Block>)
    ensures BlocksSize(ks + ls) == BlocksSize(ks) + BlocksSize(ls)
  {
    hide BlockSize, AnnounceSize;
    if ks == [] {
      assert ks + ls == ls;
    } else {
      assert (ks + ls)[1..] == ks[1..] + ls;
      BlocksSizeAppend(ks[1..], ls);
    }
  }

  lemma OneBlockSize(k: Block)
    ensures BlocksSize([k]) == BlockSize(k) + AnnounceSize(BlockSize(k)) + 1
  {
    hide BlockSize, AnnounceSize;
    assert BlocksSize([k][1..]) == 0;
  }

  lemma BlocksSizeSnoc(ks: seq<Block>, i: nat)
    requires i < |ks|
    ensures BlocksSize(ks[..i + 1]) == BlocksSize(ks[..i]) + BlockSize(ks[i]) + AnnounceSize(BlockSize(ks[i])) + 1
    ensures BlocksSize(ks[..i + 1]) <= BlocksSize(ks)
  {
    hide BlocksSize, BlockSize, AnnounceSize;
    OneBlockSize(ks[i]);
    assert ks[..i + 1] == ks[..i] + [ks[i]];
    BlocksSizeAppend(ks[..i], [ks[i]]);
    assert ks == ks[..i + 1] + ks[i + 1..];
    BlocksSizeAppend(ks[..i + 1], ks[i + 1..]);
  }

  lemma {:induction false} RepresentedTotal(ks: seq<Block>, xs: seq<Asdu>)
    requires |ks| == |xs| && forall i :: 0 <= i < |xs| ==> Represents(ks[i], xs[i])
    ensures TotalSize(xs) == BlocksSize(ks)
  {
    hide BodySize, BlockSize, AnnounceSize;
    if xs != [] {
      assert Represents(ks[0], xs[0]);
      RepresentedTotal(ks[1..], xs[1..]);
    }
  }

  /** The loop of setupComplete that adds up the ASDU lengths. */
  method AllBlocksSize(ks: seq<Block>) returns (total: nat)
    ensures total == BlocksSize(ks)
  {
    hide BlockSize, AnnounceSize;
    total := 0;
    var i := 0;
    while i < |ks|
      invariant 0 <= i <= |ks| && total + BlocksSize(ks[i..]) == BlocksSize(ks)
    {
      assert ks[i..][1..] == ks[i + 1..];
      var asduLength := BlockSize(ks[i]);
      asduLength := asduLength + AnnounceSize(asduLength);
      asduLength := asduLength + 1;
      total := total + asduLength;
      i := i + 1;
    }
  }

  /** The APDU header in front of the ASDUs. */
  method EncodeApduHead(n: uint32, total: nat, buffer: array<byte>, bufPos: nat) returns (end: nat)
    requires bufPos + |ApduHead(n, total)| <= buffer.Length
    modifies buffer
    ensures end == bufPos + |ApduHead(n, total)|
    ensures buffer[..] == Splice(old(buffer[..]), bufPos, ApduHead(n, total))
  {
    hide Splice, Announce, AnnounceSize, Tlv, BerInteger.UIntOctets;
    ghost var b, h0 := buffer[..], [0x60] + Announce(InnerSize(n, total));
    ghost var h1, h2 := Tlv(0x80, BerInteger.UIntOctets(n)), [0xa2] + Announce(total);
    assert ApduHead(n, total) == h0 + h1 + h2;
    end := EncodeTL(0x60, InnerSize(n, total), buffer, bufPos);
    end := EncodeUInt32WithTL(0x80, n, buffer, end);
    SpliceSplice(b, bufPos, h0, h1);
    end := EncodeTL(0xa2, total, buffer, end);
    SpliceSplice(b, bufPos, h0 + h1, h2);
  }

  lemma EncodingsSnoc(xs: seq<Asdu>, a: Asdu)
    ensures Concat(Encodings(xs + [a])) == Concat(Encodings(xs)) + EncodeAsdu(a)
    ensures forall i :: 0 <= i <= |xs| ==> Encodings(xs + [a])[..i] == Encodings(xs)[..i]
  {
    hide EncodeAsdu, Concat;
    assert Encodings(xs + [a]) == Encodings(xs) + [EncodeAsdu(a)];
    ConcatAppend(Encodings(xs), [EncodeAsdu(a)]);
    ConcatOne(EncodeAsdu(a));
  }

  /** The saved positions of block j, whose ASDU starts behind the first j encodings. */
  ghost predicate PlacedAll(ks: seq<Block>, ls: seq<Block>, xs: seq<Asdu>, base: nat) {
    && |ls| == |xs| <= |ks|
    && forall j :: 0 <= j < |xs| ==>
         Represents(ks[j], xs[j]) && Placed(ks[j], ls[j], xs[j], base + |Concat(Encodings(xs)[..j])|)
  }

  lemma PlacedSnoc(ks: seq<Block>, ls: seq<Block>, xs: seq<Asdu>, base: nat, l: Block, a: Asdu)
    requires PlacedAll(ks, ls, xs, base) && |xs| < |ks|
    requires Represents(ks[|xs|], a) && Placed(ks[|xs|], l, a, base + |Concat(Encodings(xs))|)
    ensures PlacedAll(ks, ls + [l], xs + [a], base)
  {
    hide Represents, Placed, EncodeAsdu, Concat;
    EncodingsSnoc(xs, a);
    assert Encodings(xs)[..|xs|] == Encodings(xs);
  }

  /** The loop of setupComplete that encodes the ASDUs one after the other. */
  method EncodeBlocks(ks: seq<Block>, buffer: array<byte>, bufPos: nat)
                      returns (end: nat, ls: seq<Block>, ghost xs: seq<Asdu>)
    requires BlocksSize(ks) < 65535 && bufPos + BlocksSize(ks) <= buffer.Length
    modifies buffer
    ensures |xs| == |ks| && PlacedAll(ks, ls, xs, bufPos)
    ensures end == bufPos + |Concat(Encodings(xs))| == bufPos + BlocksSize(ks)
    ensures buffer[..] == Splice(old(buffer[..]), bufPos, Concat(Encodings(xs)))
  {
    hide BlockSize, Announce, AnnounceSize, EncodeAsdu, Concat, PlacedAll, Placed, Represents, Splice;
    ghost var before := buffer[..];
    end, ls, xs := bufPos, [], [];
    var i := 0;
    StartEmpty(ks, before, bufPos);
    while i < |ks|
      invariant 0 <= i <= |ks| && |xs| == i && PlacedAll(ks, ls, xs, bufPos)
      invariant end == bufPos + |Concat(Encodings(xs))| == bufPos + BlocksSize(ks[..i])
      invariant end <= |before| && buffer[..] == Splice(before, bufPos, Concat(Encodings(xs)))
    {
      BlocksSizeSnoc(ks, i);
      AnnounceExact(BlockSize(ks[i]));
      ghost var a;
      var l;
      end, l, a := EncodeBlock(ks[i], buffer, end);
      assert Represents(ks[i], a) by { RepresentsIntro(ks[i], a); }
      PlacedSnoc(ks, ls, xs, bufPos, l, a);
      EncodingsSnoc(xs, a);
      SpliceSplice(before, bufPos, Concat(Encodings(xs)), EncodeAsdu(a));
      ls, xs := ls + [l], xs + [a];
      i := i + 1;
    }
    assert ks[..i] == ks;
  }

  lemma RepresentsIntro(k: Block, a: Asdu)
    requires ValidAsdu(a) && |a.data| == k.dataSize && BodySize(a) == BlockSize(k)
    requires exists refrTm :: a == Content(k, refrTm, a.data)
    ensures Represents(k, a)
  {
  }

  lemma StartEmpty(ks: seq<Block>, before: seq<byte>, pos: nat)
    requires pos <= |before|
    ensures Concat(Encodings([])) == [] && PlacedAll(ks, [], [], pos) && BlocksSize(ks[..0]) == 0
    ensures before == Splice(before, pos, [])
  {
    NothingSpliced(before, pos);
    assert ks[..0] == [];
  }

  /** Block k of a laid-out message: its positions are those of ASDU i of xs in a payload that starts at base, and
      its counters are the encoded ones. */
  ghost predicate Tracks(k: Block, xs: seq<Asdu>, i: nat, base: nat)
    requires i < |xs| < 0x1_0000_0000
  {
    SlotsPresent(xs[i]);
    && k.smpCnt == xs[i].smpCnt && k.smpSynch == xs[i].smpSynch
    && k.smpCntPos == Some(base + Position(xs, i, SMP_CNT)) && k.smpSynchPos == Some(base + Position(xs, i, SMP_SYNCH))
    && k.dataPos == Some(base + Position(xs, i, DATA))
    && k.refrTmPos == if xs[i].refrTm.Some? then Some(base + Position(xs, i, REFR_TM)) else None
  }

  lemma TracksFields(k: Block, xs: seq<Asdu>, i: nat, base: nat)
    requires i < |xs| < 0x1_0000_0000 && Tracks(k, xs, i, base)
    ensures k.smpCnt == xs[i].smpCnt
  {
  }

  lemma PlacedTracks(ks: seq<Block>, ls: seq<Block>, xs: seq<Asdu>, base: nat, i: nat)
    requires |xs| < 0x1_0000_0000 && PlacedAll(ks, ls, xs, base + |ApduHead(|xs|, TotalSize(xs))|) && i < |xs|
    ensures Tracks(ls[i], xs, i, base)
  {
    hide ApduHead, TotalSize, FieldOffset, Concat, BodySize, Slots;
    assert Represents(ks[i], xs[i]);
    assert Placed(ks[i], ls[i], xs[i], base + |ApduHead(|xs|, TotalSize(xs))| + |Concat(Encodings(xs)[..i])|);
    SlotsPresent(xs[i]);
  }

  lemma SlotsPresent(a: Asdu)
    ensures Slots(a)[SMP_CNT].Present? && Slots(a)[SMP_SYNCH].Present? && Slots(a)[DATA].Present?
    ensures Slots(a)[REFR_TM].Present? <==> a.refrTm.Some?
  {
  }

  /** Both passes of setupComplete. */
  method LayOut(ks: seq<Block>, buffer: array<byte>, start: nat) returns (end: nat, ls: seq<Block>, ghost xs: seq<Asdu>)
    requires |ks| < 0x1_0000_0000 && BlocksSize(ks) < 65535
    requires start + |ApduHead(|ks|, BlocksSize(ks))| + BlocksSize(ks) <= buffer.Length
    modifies buffer
    ensures |xs| == |ls| == |ks| && AllValid(xs) && TotalSize(xs) < 65535
    ensures forall i :: 0 <= i < |xs| ==> Represents(ks[i], xs[i]) && ls[i].smpCntLimit == ks[i].smpCntLimit
    ensures forall i :: 0 <= i < |xs| ==> Tracks(ls[i], xs, i, start)
    ensures end == start + |SvPayload(xs)| <= buffer.Length
    ensures buffer[..] == Splice(old(buffer[..]), start, SvPayload(xs))
  {
    hide ApduHead, BlocksSize, Concat, PlacedAll, Splice, Represents, Tracks, TotalSize, Encodings;
    ghost var b := buffer[..];
    var total := AllBlocksSize(ks);
    end := EncodeApduHead(|ks|, total, buffer, start);
    end, ls, xs := EncodeBlocks(ks, buffer, end);
    PlacedRepresents(ks, ls, xs, start + |ApduHead(|ks|, total)|);
    RepresentedTotal(ks, xs);
    RepresentedValid(ks, xs);
    SpliceSplice(b, start, ApduHead(|ks|, total), Concat(Encodings(xs)));
    forall i | 0 <= i < |xs| ensures Tracks(ls[i], xs, i, start) {
      PlacedTracks(ks, ls, xs, start, i);
    }
  }

  /** The size pass over the blocks, with the APDU header in front, is more than the message buffer takes from start
      on. */
  predicate SetupOverruns(ks: seq<Block>, start: nat)
    requires |ks| < 0x1_0000_0000
  {
    start + |ApduHead(|ks|, BlocksSize(ks))| + BlocksSize(ks) > SV_MAX_MESSAGE_SIZE
  }

  /** setupComplete checks nothing.  What it lays out, whatever the reserved places hold, ends behind the message buffer
      exactly then. */
  lemma SetupOverrunExact(ks: seq<Block>, xs: seq<Asdu>, start: nat)
    requires |ks| == |xs| < 0x1_0000_0000 && forall i :: 0 <= i < |xs| ==> Represents(ks[i], xs[i])
    ensures SetupOverruns(ks, start) <==> start + |SvPayload(xs)| > SV_MAX_MESSAGE_SIZE
  {
    hide ApduHead, BlocksSize, Concat, Represents, TotalSize, Encodings;
    RepresentedTotal(ks, xs);
    RepresentedValid(ks, xs);
    if TotalSize(xs) < 65535 {
      ConcatLength(xs);
    } else {
      ConcatAtLeast(xs);
    }
  }

  /** One ASDU with 1500 data octets and an empty identifier, behind a tagged header. */
  lemma SetupOverrunExample(k: Block)
    requires k.svId == [] && k.dataSize == 1500
    ensures SetupOverruns([k], 26)
  {
    hide ApduHead;
    OneBlockSize(k);
  }

  /** No positions have been saved. */
  predicate Unplaced(k: Block) {
    k.smpCntPos.None? && k.smpSynchPos.None? && k.dataPos.None? && k.refrTmPos.None?
  }

  class Publisher {
    const buffer: array<byte>
    const lengthField: nat
    const payloadStart: nat
    var payloadLength: nat
    var asdus: seq<Block>

    /** The Ethernet header up to the length field. */
    ghost const header: seq<byte>

    /** Whether SetupComplete was called, and then the ASDU list that the buffer encodes: the ASDUs there were at the
        last call. */
    ghost var laidOut: bool
    ghost var content: seq<Asdu>

    ghost predicate Shape()
      reads this
    {
      buffer.Length == SV_MAX_MESSAGE_SIZE && 14 <= lengthField <= 20 && payloadStart == lengthField + 6
    }

    ghost predicate HeaderKept()
      reads this, buffer
      requires Shape()
    {
      buffer[..lengthField] == header && buffer[lengthField + 2..payloadStart] == [0, 0, 0, 0]
    }

    /** The message is the fresh encoding of content, and every block knows where its fields are. */
    ghost predicate InSync()
      reads this, buffer
    {
      && Shape() && |content| <= |asdus| && |content| < 0x1_0000_0000 && AllValid(content) && TotalSize(content) < 65535
      && payloadLength == |SvPayload(content)| && payloadStart + payloadLength <= buffer.Length
      && HasAt(buffer[..], payloadStart, SvPayload(content))
      && HasAt(buffer[..], lengthField, U16Octets(payloadLength + 8))
      && forall i :: 0 <= i < |content| ==> Tracks(asdus[i], content, i, payloadStart)
    }

    ghost predicate Valid()
      reads this, buffer
    {
      && Shape() && HeaderKept()
      && (if laidOut then InSync() else content == [])
      && forall i :: |content| <= i < |asdus| ==> Unplaced(asdus[i])
    }

    /** createEx with the Ethernet socket available. */
    constructor (dst: seq<byte>, src: seq<byte>, useVlanTags: bool, priority: byte, vlanId: uint16, appId: uint16)
      requires |dst| == 6 && |src| == 6
      ensures Valid() && !laidOut && fresh(buffer) && asdus == [] && content == [] && payloadStart == |header| + 6
      ensures header ==
              EthernetHeader(dst, src, if useVlanTags then Some(TagControl(priority, vlanId)) else None, SV_ETHER_TYPE,
                  appId)
    {
      var b := new byte[SV_MAX_MESSAGE_SIZE];
      ghost var head :=
        EthernetHeader(dst, src, if useVlanTags then Some(TagControl(priority, vlanId)) else None, SV_ETHER_TYPE,
            appId);
      var k, n := PrepareBuffer(b, dst, src, useVlanTags, priority, vlanId, SV_ETHER_TYPE, appId);
      buffer, lengthField, payloadStart := b, k, n;
      payloadLength := 0;
      asdus, content, laidOut := [], [], false;
      header := head;
      new;
      hide EthernetHeader;
      HeaderPrepared(buffer[..], header);
      assert buffer[..lengthField] == buffer[..][0..lengthField];
      assert buffer[lengthField + 2..payloadStart] == buffer[..][lengthField + 2..payloadStart];
    }

    /** addASDU appends to the list; the counter wraps at 65535 unless told otherwise.  An ASDU added after
        SetupComplete is not in the message. */
    method AddASDU(svId: seq<byte>, datset: Option<seq<byte>>, confRev: uint32) returns (i: nat)
      requires Valid()
      modifies `asdus
      ensures Valid() && i == |old(asdus)|
      ensures asdus == old(asdus) +
              [Block(svId, datset, 0, false, false, false, 0, 0, 0xffff, confRev, 0, 0, None, None, None, None)]
    {
      hide SvPayload, TotalSize, Tracks, AllValid, U16Octets, HasAt;
      i := |asdus|;
      asdus := asdus + [Block(svId, datset, 0, false, false, false, 0, 0, 0xffff, confRev, 0, 0, None, None, None,
          None)];
    }

    /** addINT8, addINT32, addFLOAT and their like: reserves n data octets and returns their index.  Octets reserved
        after SetupComplete are not in the message. */
    method Reserve(i: nat, n: nat) returns (index: nat)
      requires Valid() && i < |asdus|
      modifies `asdus
      ensures Valid() && index == old(asdus[i].dataSize)
      ensures asdus == old(asdus)[i := old(asdus[i]).(dataSize := index + n)]
    {
      hide Valid;
      index := asdus[i].dataSize;
      Configure(i, asdus[i].(dataSize := index + n));
    }

    /** A change of settings: after SetupComplete it no longer reaches the message. */
    method Configure(i: nat, k: Block)
      requires Valid() && i < |asdus| && SameTracking(asdus[i], k)
      modifies `asdus
      ensures Valid() && asdus == old(asdus)[i := k]
    {
      hide SvPayload, TotalSize, Tracks, AllValid, U16Octets, HasAt;
      if laidOut {
        SettingKept(content, asdus, i, k, asdus[i := k], payloadStart);
      }
      asdus := asdus[i := k];
    }

    method EnableRefrTm(i: nat)
      requires Valid() && i < |asdus|
      modifies `asdus
      ensures Valid() && asdus == old(asdus)[i := old(asdus[i]).(hasRefrTm := true)]
    {
      hide Valid;
      Configure(i, asdus[i].(hasRefrTm := true));
    }

    method SetSmpMod(i: nat, smpMod: byte)
      requires Valid() && i < |asdus|
      modifies `asdus
      ensures Valid() && asdus == old(asdus)[i := old(asdus[i]).(hasSmpMod := true, smpMod := smpMod)]
    {
      hide Valid;
      Configure(i, asdus[i].(hasSmpMod := true, smpMod := smpMod));
    }

    method SetSmpRate(i: nat, smpRate: uint16)
      requires Valid() && i < |asdus|
      modifies `asdus
      ensures Valid() && asdus == old(asdus)[i := old(asdus[i]).(hasSmpRate := true, smpRate := smpRate)]
    {
      hide Valid;
      Configure(i, asdus[i].(hasSmpRate := true, smpRate := smpRate));
    }

    method SetSmpCntWrap(i: nat, limit: uint16)
      requires Valid() && i < |asdus|
      modifies `asdus
      ensures Valid() && asdus == old(asdus)[i := old(asdus[i]).(smpCntLimit := limit)]
    {
      hide Valid;
      Configure(i, asdus[i].(smpCntLimit := limit));
    }

    /** setupComplete, for a list of ASDUs that fits the message.  It may be called again, for ASDUs added since. */
    method SetupComplete()
      requires Valid() && |asdus| < 0x1_0000_0000 && !SetupOverruns(asdus, payloadStart)
      modifies this, buffer
      ensures Valid() && laidOut && |content| == |old(asdus)|
      ensures |asdus| == |old(asdus)|
      ensures forall i :: 0 <= i < |content| ==>
                Represents(old(asdus[i]), content[i]) && asdus[i].smpCntLimit == old(asdus[i].smpCntLimit)
    {
      hide ApduHead, BlocksSize, Splice, Represents, Tracks, U16Octets, SvPayload, AllValid, TotalSize;
      var bufPos;
      bufPos, asdus, content := LayOut(asdus, buffer, payloadStart);
      laidOut := true;
      payloadLength := bufPos - payloadStart;
      var end := Copy(buffer, lengthField, U16Octets(payloadLength + 8));
      LengthFieldWritten(old(buffer[..]), SvPayload(content), lengthField, U16Octets(payloadLength + 8));
    }

    /** Stores octets at a field of ASDU i, whose block becomes k and whose content becomes c. */
    method Store(i: nat, offset: nat, octets: seq<byte>, k: Block, ghost c: Asdu)
      requires Valid() && i < |content| && SameFrame(content[i], c) && ValidAsdu(c)
      requires offset + |octets| <= payloadLength
      requires SvPayload(content[i := c]) == Splice(SvPayload(content), offset, octets)
      requires k == asdus[i].(smpCnt := c.smpCnt, smpSynch := c.smpSynch, hasRefrTm := k.hasRefrTm)
      modifies `asdus, `content, buffer
      ensures Valid() && content == old(content)[i := c] && asdus == old(asdus)[i := k]
    {
      hide SvPayload, Splice, U16Octets, TotalSize, Tracks, SameFrame, AllValid, ValidAsdu, HasAt;
      ghost var xs, p, n := content, SvPayload(content), U16Octets(payloadLength + 8);
      var end := Copy(buffer, payloadStart + offset, octets);
      PatchedBuffer(old(buffer[..]), payloadStart, p, offset, octets, lengthField, n);
      assert buffer[..lengthField] == buffer[..payloadStart][..lengthField];
      assert buffer[lengthField + 2..payloadStart] == buffer[..payloadStart][lengthField + 2..];
      content := xs[i := c];
      ContentKept(xs, i, c);
      asdus := asdus[i := k];
      forall j | 0 <= j < |content| ensures Tracks(asdus[j], content, j, payloadStart) {
        assert Tracks(old(asdus[j]), xs, j, payloadStart);
        TracksStable(old(asdus[j]), asdus[j], xs, i, c, j, payloadStart);
      }
    }

    /** The counter of a block is the one in the message. */
    lemma CounterTracked(i: nat)
      requires Valid() && i < |content|
      ensures |content| <= |asdus| && asdus[i].smpCnt == content[i].smpCnt
    {
      hide Tracks, SvPayload, TotalSize, AllValid, HasAt, U16Octets;
      TracksFields(asdus[i], content, i, payloadStart);
    }

    /** setSmpCnt. */
    method SetSmpCnt(i: nat, value: uint16)
      requires Valid() && i < |asdus|
      modifies `asdus, `content, buffer
      ensures Valid() && asdus == old(asdus)[i := old(asdus[i]).(smpCnt := value)]
      ensures content == if i < |old(content)| then old(content)[i := old(content[i]).(smpCnt := value)]
              else old(content)
    {
      hide U16Octets, SvPayload, TotalSize, Position, Splice;
      if asdus[i].smpCntPos.Some? {
        ghost var c := content[i].(smpCnt := value);
        assert Tracks(asdus[i], content, i, payloadStart);
        FieldPatch(content, i, c, SMP_CNT, U16Octets(value));
        Store(i, asdus[i].smpCntPos.value - payloadStart, U16Octets(value), asdus[i].(smpCnt := value), c);
      } else {
        asdus := asdus[i := asdus[i].(smpCnt := value)];
      }
    }

    /** increaseSmpCnt. */
    method IncreaseSmpCnt(i: nat)
      requires Valid() && i < |asdus| && asdus[i].smpCntLimit > 0
      modifies `asdus, `content, buffer
      ensures Valid()
      ensures var next := (old(asdus[i].smpCnt) + 1) % old(asdus[i].smpCntLimit);
              && asdus == old(asdus)[i := old(asdus[i]).(smpCnt := next)]
              && content == if i < |old(content)| then old(content)[i := old(content[i]).(smpCnt := next)]
                 else old(content)
    {
      SetSmpCnt(i, (asdus[i].smpCnt + 1) % asdus[i].smpCntLimit);
    }

    /** setSmpSynch, which keeps the low octet of its argument; only for an ASDU of a laid-out message. */
    method SetSmpSynch(i: nat, value: uint16)
      requires Valid() && i < |content|
      modifies `asdus, `content, buffer
      ensures Valid() && asdus == old(asdus)[i := old(asdus[i]).(smpSynch := value % 256)]
      ensures content == old(content)[i := old(content[i]).(smpSynch := value % 256)]
    {
      hide SvPayload, TotalSize, Position, Splice;
      var v: byte := value % 256;
      ghost var c := content[i].(smpSynch := v);
      assert Tracks(asdus[i], content, i, payloadStart);
      FieldPatch(content, i, c, SMP_SYNCH, [v]);
      Store(i, asdus[i].smpSynchPos.value - payloadStart, [v], asdus[i].(smpSynch := v), c);
    }

    /** setRefrTmByTimestamp: written only if the field was enabled before the message was laid out. */
    method SetRefrTmByTimestamp(i: nat, t: seq<byte>)
      requires Valid() && i < |asdus| && |t| == 8
      modifies `asdus, `content, buffer
      ensures Valid() && asdus == old(asdus)[i := old(asdus[i]).(hasRefrTm := true)]
      ensures content == if i < |old(content)| && old(content[i].refrTm).Some?
                         then old(content)[i := old(content[i]).(refrTm := Some(t))] else old(content)
    {
      hide SvPayload, TotalSize, Position, Splice;
      if i < |content| {
        assert Tracks(asdus[i], content, i, payloadStart);
      }
      if asdus[i].refrTmPos.Some? {
        ghost var c := content[i].(refrTm := Some(t));
        assert ValidAsdu(content[i]);
        FieldPatch(content, i, c, REFR_TM, t);
        Store(i, asdus[i].refrTmPos.value - payloadStart, t, asdus[i].(hasRefrTm := true), c);
      } else {
        asdus := asdus[i := asdus[i].(hasRefrTm := true)];
      }
    }

    /** The common part of setRefrTmNs and setRefrTm: the time octets are replaced and the sub-second precision is set;
        the other quality bits stay.  Nothing is written if the field was not enabled in time. */
    method SetRefrTmOctets(i: nat, time: seq<byte>, precision: byte)
      requires Valid() && i < |asdus| && |time| == 7 && precision < 32
      modifies `asdus, `content, buffer
      ensures Valid() && asdus == old(asdus)[i := old(asdus[i]).(hasRefrTm := true)]
      ensures content == RetimedAt(old(content), i, time, precision)
    {
      hide SvPayload, TotalSize, Tracks, AllValid, U16Octets, HasAt, ValidAsdu;
      if i < |content| {
        ValidAt(content, i);
        RefrTmTracked(buffer[..], payloadStart, content, i, asdus[i]);
      }
      if asdus[i].refrTmPos.Some? {
        SetRefrTmByTimestamp(i, time + [(buffer[asdus[i].refrTmPos.value + 7] / 32 * 32 + precision) % 256]);
      } else {
        Configure(i, asdus[i].(hasRefrTm := true));
      }
    }

    /** setRefrTmNs. */
    method SetRefrTmNs(i: nat, t: nat)
      requires Valid() && i < |asdus|
      modifies `asdus, `content, buffer
      ensures Valid() && asdus == old(asdus)[i := old(asdus[i]).(hasRefrTm := true)]
      ensures content == RetimedAt(old(content), i, Timestamps.NsTime(t), 20)
    {
      hide Valid, Retimed;
      SetRefrTmOctets(i, Timestamps.NsTime(t), 20);
    }

    /** setRefrTm, in milliseconds. */
    method SetRefrTm(i: nat, t: nat)
      requires Valid() && i < |asdus|
      modifies `asdus, `content, buffer
      ensures Valid() && asdus == old(asdus)[i := old(asdus[i]).(hasRefrTm := true)]
      ensures content == RetimedAt(old(content), i, Timestamps.MsTime(t), 10)
    {
      hide Valid, Retimed;
      SetRefrTmOctets(i, Timestamps.MsTime(t), 10);
    }

    /** setINT8, setINT32, setFLOAT and their like: octets at a reserved index of the sample data. */
    method SetData(i: nat, index: nat, octets: seq<byte>)
      requires Valid() && i < |content| && index + |octets| <= |content[i].data|
      modifies `asdus, `content, buffer
      ensures Valid() && asdus == old(asdus) && index + |octets| <= |old(content[i].data)|
      ensures content == old(content)[i := old(content[i]).(data := Splice(old(content[i].data), index, octets))]
    {
      hide SvPayload, TotalSize, Position, Slots, Splice, SameFrame, AllValid, U16Octets;
      assert Tracks(asdus[i], content, i, payloadStart);
      ghost var c := content[i].(data := Splice(content[i].data, index, octets));
      DataPatch(content, i, index, octets, c);
      Store(i, asdus[i].dataPos.value + index - payloadStart, octets, asdus[i], c);
    }

    method SetINT32(i: nat, index: nat, value: int32)
      requires Valid() && i < |content| && index + 4 <= |content[i].data|
      modifies `asdus, `content, buffer
      ensures Valid() && asdus == old(asdus) && index + 4 <= |old(content[i].data)|
      ensures content == old(content)[i :=
              old(content[i]).(data := Splice(old(content[i].data), index, U32Octets(value % 0x1_0000_0000)))]
    {
      SetData(i, index, U32Octets(value % 0x1_0000_0000));
    }

    /** setQuality: two zero octets in front of the 16-bit quality. */
    method SetQuality(i: nat, index: nat, value: uint16)
      requires Valid() && i < |content| && index + 4 <= |content[i].data|
      modifies `asdus, `content, buffer
      ensures Valid() && asdus == old(asdus) && index + 4 <= |old(content[i].data)|
      ensures content == old(content)[i :=
              old(content[i]).(data := Splice(old(content[i].data), index, [0, 0] + U16Octets(value)))]
    {
      SetData(i, index, [0, 0] + U16Octets(value));
    }

    /** publish hands the frame to the HAL, which drops its first fourteen octets. */
    method Publish() returns (packet: seq<byte>)
      requires Valid() && laidOut
      ensures |header| >= 14 && |content| < 0x1_0000_0000 && |SvPayload(content)| + 8 < 0x1_0000
      ensures packet == Transmitted(header, SvPayload(content))
    {
      hide SvPayload, TotalSize, U16Octets;
      packet := buffer[14..payloadStart + payloadLength];
      assert buffer[..][payloadStart..payloadStart + payloadLength] == SvPayload(content);
      assert header[14..] == buffer[14..lengthField];
      assert buffer[..][lengthField..lengthField + 2] == U16Octets(payloadLength + 8);
    }
  }

  /** Writing inside the payload does not disturb what is in front of it. */
  lemma PatchedBuffer(b: seq<byte>, start: nat, p: seq<byte>, off: nat, t: seq<byte>, k: nat, n: seq<byte>)
    requires HasAt(b, start, p) && off + |t| <= |p| && HasAt(b, k, n) && k + |n| <= start
    ensures var f := Splice(b, start + off, t);
            HasAt(f, start, Splice(p, off, t)) && HasAt(f, k, n) && f[..start] == b[..start]
  {
    var f := Splice(b, start + off, t);
    assert f[..start] == b[..start];
    assert f[k..k + |n|] == b[k..k + |n|];
    assert f[start..start + |p|] == Splice(p, off, t);
  }

  lemma ContentKept(xs: seq<Asdu>, i: nat, c: Asdu)
    requires i < |xs| && SameFrame(xs[i], c) && ValidAsdu(c) && AllValid(xs)
    ensures TotalSize(xs[i := c]) == TotalSize(xs) && AllValid(xs[i := c])
  {
    hide TotalSize, BodySize;
    SameFrameSize(xs[i], c);
    SameTotal(xs, i, c);
  }

  lemma TracksStable(k: Block, k': Block, xs: seq<Asdu>, i: nat, c: Asdu, j: nat, base: nat)
    requires i < |xs| < 0x1_0000_0000 && j < |xs| && SameFrame(xs[i], c) && ValidAsdu(c) && AllValid(xs)
             && TotalSize(xs) < 65535
    requires Tracks(k, xs, j, base)
    requires k' == if i == j then k.(smpCnt := c.smpCnt, smpSynch := c.smpSynch, hasRefrTm := k'.hasRefrTm) else k
    ensures Tracks(k', xs[i := c], j, base)
  {
    hide Position, TotalSize, Slots;
    SlotsPresent(xs[j]);
    SlotsPresent(c);
    PositionStable(xs, i, c, j, SMP_CNT);
    PositionStable(xs, i, c, j, SMP_SYNCH);
    PositionStable(xs, i, c, j, DATA);
    if xs[j].refrTm.Some? {
      PositionStable(xs, i, c, j, REFR_TM);
    }
  }

  /** The ASDU with new time octets and sub-second precision, if it has a reference time. */
  function Retimed(a: Asdu, time: seq<byte>, precision: byte): (c: Asdu) {
    if a.refrTm.Some? && |a.refrTm.value| == 8
    then a.(refrTm := Some(time + [(a.refrTm.value[7] / 32 * 32 + precision) % 256]))
    else a
  }

  function RetimedAt(xs: seq<Asdu>, i: nat, time: seq<byte>, precision: byte): (ys: seq<Asdu>) {
    if i < |xs| then xs[i := Retimed(xs[i], time, precision)] else xs
  }

  lemma ValidAt(xs: seq<Asdu>, i: nat)
    requires AllValid(xs) && i < |xs|
    ensures ValidAsdu(xs[i])
  {
  }

  /** The same counters and positions; settings that are only read by SetupComplete may differ. */
  predicate SameTracking(k: Block, l: Block) {
    && k.smpCnt == l.smpCnt && k.smpSynch == l.smpSynch
    && k.dataPos == l.dataPos && k.smpCntPos == l.smpCntPos && k.smpSynchPos == l.smpSynchPos
       && k.refrTmPos == l.refrTmPos
  }

  lemma SettingKept(xs: seq<Asdu>, ls: seq<Block>, i: nat, k: Block, ks: seq<Block>, base: nat)
    requires |xs| <= |ls| && |xs| < 0x1_0000_0000 && i < |ls| && SameTracking(ls[i], k) && ks == ls[i := k]
    requires forall j :: 0 <= j < |xs| ==> Tracks(ls[j], xs, j, base)
    ensures forall j :: 0 <= j < |xs| ==> Tracks(ks[j], xs, j, base)
  {
    hide Position;
    forall j | 0 <= j < |xs| ensures Tracks(ks[j], xs, j, base) {
      assert Tracks(ls[j], xs, j, base);
    }
  }

  lemma RefrTmSlot(a: Asdu)
    requires a.refrTm.Some?
    ensures Slots(a)[REFR_TM] == Present(0x84, a.refrTm.value)
  {
  }

  /** A saved position of the reference time leads to its quality octet; there is one exactly if the field is there. */
  lemma RefrTmTracked(b: seq<byte>, base: nat, xs: seq<Asdu>, i: nat, k: Block)
    requires i < |xs| < 0x1_0000_0000 && ValidAsdu(xs[i]) && HasAt(b, base, SvPayload(xs)) && Tracks(k, xs, i, base)
    ensures k.refrTmPos.Some? <==> xs[i].refrTm.Some?
    ensures k.refrTmPos.Some? ==>
              |xs[i].refrTm.value| == 8 && k.refrTmPos.value + 7 < |b|
                  && b[k.refrTmPos.value + 7] == xs[i].refrTm.value[7]
  {
    hide SvPayload, Position, Slots;
    if xs[i].refrTm.Some? {
      RefrTmSlot(xs[i]);
      FieldRead(b, base, xs, i, REFR_TM);
      HasAtIndex(b, k.refrTmPos.value, xs[i].refrTm.value, 7);
    }
  }

  /** The contents of field j of ASDU i are at its position. */
  lemma FieldRead(b: seq<byte>, base: nat, xs: seq<Asdu>, i: nat, j: nat)
    requires i < |xs| < 0x1_0000_0000 && j < 9 && Slots(xs[i])[j].Present? && HasAt(b, base, SvPayload(xs))
    ensures HasAt(b, base + Position(xs, i, j), Slots(xs[i])[j].contents)
  {
    hide Slots, ApduHead, TotalSize, Concat, Announce, EncodeSlots, BodySize, SlotOffset;
    var ss := Encodings(xs);
    var head := ApduHead(|xs|, TotalSize(xs));
    HasAtSplit(b, base, head, Concat(ss));
    ConcatSplit(ss, i);
    HasAtSplit(b, base + |head|, Concat(ss[..i]) + ss[i], Concat(ss[i + 1..]));
    HasAtSplit(b, base + |head|, Concat(ss[..i]), ss[i]);
    var at := base + |head| + |Concat(ss[..i])|;
    HasAtSplit(b, at, [0x30] + Announce(BodySize(xs[i])), AsduBody(xs[i]));
    SlotAt(b, at + 1 + |Announce(BodySize(xs[i]))|, Slots(xs[i]), j);
  }

  lemma DataAt(xs: seq<Asdu>, i: nat)
    requires i < |xs| < 0x1_0000_0000
    ensures Slots(xs[i])[DATA].Present? && HasAt(SvPayload(xs), Position(xs, i, DATA), xs[i].data)
  {
    hide SvPayload, Position;
    assert Slots(xs[i])[DATA] == Present(0x87, xs[i].data);
    var b := SvPayload(xs);
    assert HasAt(b, 0, b);
    FieldRead(b, 0, xs, i, DATA);
  }

  /** The octets of a field of ASDU i, replaced by as many. */
  lemma FieldPatch(xs: seq<Asdu>, i: nat, c: Asdu, j: nat, octets: seq<byte>)
    requires i < |xs| < 0x1_0000_0000 && SameFrame(xs[i], c)
    requires || (j == SMP_CNT && c == xs[i].(smpCnt := c.smpCnt) && octets == U16Octets(c.smpCnt))
             || (j == SMP_SYNCH && c == xs[i].(smpSynch := c.smpSynch) && octets == [c.smpSynch])
             || (j == REFR_TM && xs[i].refrTm.Some? && c == xs[i].(refrTm := Some(octets))
                && |octets| == |xs[i].refrTm.value|)
             || (j == DATA && c == xs[i].(data := octets) && |octets| == |xs[i].data|)
    ensures Slots(xs[i])[j].Present? && Position(xs, i, j) + |octets| <= |SvPayload(xs)|
    ensures SvPayload(xs[i := c]) == Splice(SvPayload(xs), Position(xs, i, j), octets)
  {
    hide Position, SvPayload, U16Octets, U32Octets, Splice, BodySize;
    SameFrameSize(xs[i], c);
    PatchPayload(xs, i, c, j, octets);
  }

  /** Octets within the sample data of ASDU i, replaced by as many. */
  lemma DataPatch(xs: seq<Asdu>, i: nat, index: nat, octets: seq<byte>, c: Asdu)
    requires i < |xs| < 0x1_0000_0000 && AllValid(xs) && index + |octets| <= |xs[i].data|
    requires c == xs[i].(data := Splice(xs[i].data, index, octets))
    ensures SameFrame(xs[i], c) && ValidAsdu(c) && Slots(xs[i])[DATA].Present?
    ensures Position(xs, i, DATA) + index + |octets| <= |SvPayload(xs)|
    ensures SvPayload(xs[i := c]) == Splice(SvPayload(xs), Position(xs, i, DATA) + index, octets)
  {
    hide SvPayload, Position, Splice;
    assert ValidAsdu(xs[i]);
    FieldPatch(xs, i, c, DATA, c.data);
    DataAt(xs, i);
    SpliceInside(SvPayload(xs), Position(xs, i, DATA), xs[i].data, index, octets);
  }

  lemma PlacedRepresents(ks: seq<Block>, ls: seq<Block>, xs: seq<Asdu>, base: nat)
    requires PlacedAll(ks, ls, xs, base)
    ensures |ls| == |xs| <= |ks| && forall i :: 0 <= i < |xs| ==>
              Represents(ks[i], xs[i]) && ls[i].smpCntLimit == ks[i].smpCntLimit
  {
  }

  lemma RepresentedValid(ks: seq<Block>, xs: seq<Asdu>)
    requires |xs| <= |ks| && forall i :: 0 <= i < |xs| ==> Represents(ks[i], xs[i])
    ensures AllValid(xs)
  {
    forall i | 0 <= i < |xs| ensures ValidAsdu(xs[i]) {
      assert Represents(ks[i], xs[i]);
    }
  }

  /** Writing the length field leaves the rest of the header and the payload alone. */
  lemma LengthFieldWritten(b: seq<byte>, p: seq<byte>, k: nat, n: seq<byte>)
    requires |n| == 2 && k + 6 + |p| <= |b|
    ensures var f := Splice(Splice(b, k + 6, p), k, n);
            && HasAt(f, k + 6, p) && HasAt(f, k, n) && f[..k] == b[..k] && f[k + 2..k + 6] == b[k + 2..k + 6]
  {
    var g := Splice(b, k + 6, p);
    assert g[..k + 6] == b[..k + 6] && g[k + 6..k + 6 + |p|] == p;
    var f := Splice(g, k, n);
    assert f[k + 2..] == g[k + 2..];
    assert f[k + 2..k + 6] == g[k + 2..k + 6] == b[k + 2..k + 6];
    assert f[k + 6..k + 6 + |p|] == g[k + 6..k + 6 + |p|];
  }
}
