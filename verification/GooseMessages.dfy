/** The octets of a GOOSE message (goose_publisher.cc): the size pass over the header fields and the data set,
    the encoded PDU, and the Ethernet frame around it. */
module GooseMessages {
  import opened Octets
  import opened MmsValues
  import BerInteger

  /** What a publisher puts into a message besides the data set.  References are C strings; None is NULL. */
  datatype Message = Message(
    goCbRef: Option<seq<byte>>, timeAllowedToLive: uint32, dataSetRef: Option<seq<byte>>, goId: Option<seq<byte>>,
    timestamp: seq<byte>, stNum: uint32, sqNum: uint32, simulation: bool, confRev: uint32, needsCommission: bool)

  function Chars(s: Option<seq<byte>>): (r: seq<byte>) {
    match s case None => [] case Some(r) => r
  }

  /** goID falls back to the control block reference. */
  function GoId(m: Message): (r: Option<seq<byte>>) {
    if m.goId.Some? then m.goId else m.goCbRef
  }

  function BooleanOctets(flag: bool): (s: seq<byte>) {
    [if flag then 1 else 0]
  }

  datatype Field = Field(tag: byte, contents: seq<byte>)

  function NameFields(m: Message): (fs: seq<Field>) {
    [ Field(0x80, Chars(m.goCbRef)),
      Field(0x81, BerInteger.UIntOctets(m.timeAllowedToLive)),
      Field(0x82, Chars(m.dataSetRef)),
      Field(0x83, Chars(GoId(m))) ]
  }

  function StateFields(m: Message): (fs: seq<Field>) {
    [ Field(0x84, m.timestamp),
      Field(0x85, BerInteger.UIntOctets(m.stNum)),
      Field(0x86, BerInteger.UIntOctets(m.sqNum)),
      Field(0x87, BooleanOctets(m.simulation)) ]
  }

  function ConfigurationFields(m: Message, entries: uint32): (fs: seq<Field>) {
    [ Field(0x88, BerInteger.UIntOctets(m.confRev)),
      Field(0x89, BooleanOctets(m.needsCommission)),
      Field(0x8a, BerInteger.UIntOctets(entries)) ]
  }

  /** The eleven fields in front of the data set. */
  function HeaderFields(m: Message, entries: uint32): (fs: seq<Field>)
    ensures |fs| == 11
  {
    NameFields(m) + (StateFields(m) + ConfigurationFields(m, entries))
  }

  function EncodeFields(fs: seq<Field>): (s: seq<byte>) {
    if fs == [] then [] else Tlv(fs[0].tag, fs[0].contents) + EncodeFields(fs[1..])
  }

  /** determineEncodedStringSize. */
  function StringSize(s: Option<seq<byte>>): (n: nat) {
    match s case None => 2 case Some(t) => 1 + AnnounceSize(|t|) + |t|
  }

  /** The size pass of createGoosePayload: the length announced for the PDU. */
  function PduLength(m: Message, entries: uint32, dataSetSize: nat): (n: nat) {
    StringSize(m.goCbRef) + (2 + |BerInteger.UIntOctets(m.timeAllowedToLive)|) + StringSize(m.dataSetRef)
    + StringSize(GoId(m)) + 10 + (2 + |BerInteger.UIntOctets(m.sqNum)|) + (2 + |BerInteger.UIntOctets(m.stNum)|)
    + (2 + |BerInteger.UIntOctets(m.confRev)|) + 6 + (2 + |BerInteger.UIntOctets(entries)|)
    + (dataSetSize + AnnounceSize(dataSetSize) + 1)
  }

  function PayloadSize(m: Message, entries: uint32, dataSetSize: nat): (n: nat) {
    var pdu := PduLength(m, entries, dataSetSize);
    1 + AnnounceSize(pdu) + pdu
  }

  /** The size that the code compares with the room in the buffer: all its sums are kept in 32 bits. */
  function PredictedSize(m: Message, vs: seq<MmsValue>): (n: uint32)
    requires AllEncodable(vs) && |vs| < 0x1_0000_0000
  {
    Low32(PayloadSize(m, |vs|, SizeAll(vs)))
  }

  /** The encode pass of createGoosePayload. */
  function Payload(m: Message, vs: seq<MmsValue>): (s: seq<byte>)
    requires AllEncodable(vs) && |vs| < 0x1_0000_0000
  {
    [0x61] + (Announce(PduLength(m, |vs|, SizeAll(vs))) +
      (EncodeFields(HeaderFields(m, |vs|)) + ([0xab] + (Announce(SizeAll(vs)) + EncodeAll(vs)))))
  }

  // ----- the two passes agree

  function FieldSize(f: Field): (n: nat) {
    1 + |Announce(|f.contents|)| + |f.contents|
  }

  function FieldSizes(fs: seq<Field>): (n: nat) {
    if fs == [] then 0 else FieldSize(fs[0]) + FieldSizes(fs[1..])
  }

  lemma {:induction false} EncodeFieldsLength(fs: seq<Field>)
    ensures |EncodeFields(fs)| == FieldSizes(fs)
  {
    if fs != [] {
      EncodeFieldsLength(fs[1..]);
    }
  }

  lemma FieldSizesFrom(fs: seq<Field>, k: nat)
    requires k < |fs|
    ensures FieldSizes(fs[k..]) == FieldSize(fs[k]) + FieldSizes(fs[k + 1..])
  {
    hide FieldSize;
    assert fs[k..][1..] == fs[k + 1..];
  }

  lemma StringFieldSize(tag: byte, s: Option<seq<byte>>)
    requires |Chars(s)| < 65535
    ensures FieldSize(Field(tag, Chars(s))) == StringSize(s)
  {
  }

  lemma ShortFieldSize(f: Field)
    requires |f.contents| < 128
    ensures FieldSize(f) == 2 + |f.contents|
  {
  }

  /** References whose length fields are sized correctly. */
  predicate ShortReferences(m: Message) {
    |Chars(m.goCbRef)| < 65535 && |Chars(m.dataSetRef)| < 65535 && |Chars(GoId(m))| < 65535
  }

  lemma ElevenFields(fs: seq<Field>)
    requires |fs| == 11
    ensures FieldSizes(fs) ==
            FieldSize(fs[0]) + FieldSize(fs[1]) + FieldSize(fs[2]) + FieldSize(fs[3]) + FieldSize(fs[4])
                + FieldSize(fs[5])
            + FieldSize(fs[6]) + FieldSize(fs[7]) + FieldSize(fs[8]) + FieldSize(fs[9]) + FieldSize(fs[10])
  {
    assert FieldSizes(fs[11..]) == 0;
    assert fs[0..] == fs;
    hide FieldSize, FieldSizes;
    FieldSizesFrom(fs, 0); FieldSizesFrom(fs, 1); FieldSizesFrom(fs, 2); FieldSizesFrom(fs, 3);
    FieldSizesFrom(fs, 4); FieldSizesFrom(fs, 5); FieldSizesFrom(fs, 6); FieldSizesFrom(fs, 7);
    FieldSizesFrom(fs, 8); FieldSizesFrom(fs, 9); FieldSizesFrom(fs, 10);
  }

  lemma HeaderLength(m: Message, entries: uint32)
    requires |m.timestamp| == 8 && ShortReferences(m)
    ensures |EncodeFields(HeaderFields(m, entries))| == PduLength(m, entries, 0) - 2
  {
    hide BerInteger.UIntOctets, Chars, StringSize, FieldSize, FieldSizes, EncodeFields;
    var fs := HeaderFields(m, entries);
    EncodeFieldsLength(fs);
    ElevenFields(fs);
    StringFieldSize(0x80, m.goCbRef);
    StringFieldSize(0x82, m.dataSetRef);
    StringFieldSize(0x83, GoId(m));
    ShortFieldSize(fs[1]); ShortFieldSize(fs[4]); ShortFieldSize(fs[5]); ShortFieldSize(fs[6]);
    ShortFieldSize(fs[7]); ShortFieldSize(fs[8]); ShortFieldSize(fs[9]); ShortFieldSize(fs[10]);
  }

  lemma SizesBounded(m: Message, entries: uint32, n: nat)
    requires PayloadSize(m, entries, n) < 65535
    ensures ShortReferences(m) && PduLength(m, entries, n) < 65535 && n < 65535
    ensures PduLength(m, entries, n) == PduLength(m, entries, 0) + n + AnnounceSize(n) - 1
  {
    hide BerInteger.UIntOctets;
  }

  /** The encode pass writes the size the size pass computed, plus the excess of the data set, whenever that
      size stays below the one length at which encoder and predictor differ. */
  lemma PayloadLength(m: Message, vs: seq<MmsValue>)
    requires AllEncodable(vs) && |vs| < 0x1_0000_0000 && |m.timestamp| == 8
    requires PayloadSize(m, |vs|, SizeAll(vs)) < 65535
    ensures |Payload(m, vs)| == PayloadSize(m, |vs|, SizeAll(vs)) + ExcessAll(vs)
  {
    hide BerInteger.UIntOctets, EncodeFields, HeaderFields, SizeAll, EncodeAll, ExcessAll, Announce, AnnounceSize;
    hide PduLength;
    var n := SizeAll(vs);
    SizesBounded(m, |vs|, n);
    HeaderLength(m, |vs|);
    EncodedLengthAll(vs);
    AnnounceExact(n);
    AnnounceExact(PduLength(m, |vs|, n));
  }

  // ----- when an accepted message overruns its buffer

  lemma StringFieldAtLeast(tag: byte, s: Option<seq<byte>>)
    ensures FieldSize(Field(tag, Chars(s))) >= StringSize(s)
  {
  }

  lemma HeaderAtLeast(m: Message, entries: uint32)
    requires |m.timestamp| == 8
    ensures |EncodeFields(HeaderFields(m, entries))| >= PduLength(m, entries, 0) - 2
  {
    hide BerInteger.UIntOctets, Chars, StringSize, FieldSize, FieldSizes, EncodeFields;
    var fs := HeaderFields(m, entries);
    EncodeFieldsLength(fs);
    ElevenFields(fs);
    StringFieldAtLeast(0x80, m.goCbRef);
    StringFieldAtLeast(0x82, m.dataSetRef);
    StringFieldAtLeast(0x83, GoId(m));
    ShortFieldSize(fs[1]); ShortFieldSize(fs[4]); ShortFieldSize(fs[5]); ShortFieldSize(fs[6]);
    ShortFieldSize(fs[7]); ShortFieldSize(fs[8]); ShortFieldSize(fs[9]); ShortFieldSize(fs[10]);
  }

  lemma PduOfData(m: Message, entries: uint32, n: nat)
    ensures PduLength(m, entries, n) == PduLength(m, entries, 0) + n + AnnounceSize(n) - 1
    ensures PduLength(m, entries, 0) > 1
  {
    hide BerInteger.UIntOctets, StringSize;
  }

  /** The encode pass never writes less than the size pass adds up, before any wrap. */
  lemma PayloadAtLeast(m: Message, vs: seq<MmsValue>)
    requires AllEncodable(vs) && |vs| < 0x1_0000_0000 && |m.timestamp| == 8
    ensures |Payload(m, vs)| >= PayloadSize(m, |vs|, SizeAll(vs))
  {
    hide EncodeFields, HeaderFields, SizeAll, EncodeAll, ExcessAll, Announce, AnnounceSize, PduLength;
    var n := SizeAll(vs);
    HeaderAtLeast(m, |vs|);
    PduOfData(m, |vs|, n);
    EncodedLengthAll(vs);
    AnnounceAtLeast(n);
    AnnounceAtLeast(PduLength(m, |vs|, n));
  }

  /** createGoosePayload accepts the message for max octets, because it compares the size of the size pass, and then
      writes more than that. */
  predicate Overruns(m: Message, vs: seq<MmsValue>, max: nat)
    requires AllEncodable(vs) && |vs| < 0x1_0000_0000
  {
    PredictedSize(m, vs) <= max < |Payload(m, vs)|
  }

  /** What a caller can compute beforehand: an accepted message overruns exactly when its size wrapped, or when the room
      behind the predicted size does not take up the data set's excess. */
  lemma OverrunExact(m: Message, vs: seq<MmsValue>, max: nat)
    requires AllEncodable(vs) && |vs| < 0x1_0000_0000 && |m.timestamp| == 8 && max < 65535
    ensures var size := PayloadSize(m, |vs|, SizeAll(vs));
            Overruns(m, vs, max) <==>
            PredictedSize(m, vs) <= max && (size != PredictedSize(m, vs) || max < size + ExcessAll(vs))
  {
    hide PayloadSize, Payload, SizeAll, ExcessAll, Low32;
    var size := PayloadSize(m, |vs|, SizeAll(vs));
    Low32Small(size);
    if size < 65535 {
      PayloadLength(m, vs);
    } else {
      PayloadAtLeast(m, vs);
    }
  }

  /** A message is safe for every buffer size exactly when it is accepted for none, or its size does not wrap and no
      value in its data set sits at a crossover size: any other overruns the buffer that its predicted size fills. */
  lemma OverrunFree(m: Message, vs: seq<MmsValue>)
    requires AllEncodable(vs) && |vs| < 0x1_0000_0000 && |m.timestamp| == 8
    ensures (forall max: nat :: max < 65535 ==> !Overruns(m, vs, max)) <==>
            PredictedSize(m, vs) >= 65535 ||
            (PayloadSize(m, |vs|, SizeAll(vs)) < 0x1_0000_0000 && forall i :: 0 <= i < |vs| ==> !Crossover(vs[i]))
  {
    hide PayloadSize, Payload, SizeAll, ExcessAll, Crossover, Overruns, Low32;
    NoExcessAll(vs);
    var size := PayloadSize(m, |vs|, SizeAll(vs));
    Low32Small(size);
    forall max: nat | max < 65535
      ensures Overruns(m, vs, max) <==>
              PredictedSize(m, vs) <= max && (size != PredictedSize(m, vs) || max < size + ExcessAll(vs))
    {
      OverrunExact(m, vs, max);
    }
    if PredictedSize(m, vs) < 65535 && (size >= 0x1_0000_0000 || ExcessAll(vs) > 0) {
      assert Overruns(m, vs, PredictedSize(m, vs));
    }
  }

  function Zeros(n: nat): (s: seq<byte>)
    ensures |s| == n
  {
    seq(n, _ => 0)
  }

  /** A bit string of 1016 bits and enough octets to fill the 1492 octets behind a tagged header. */
  function OverrunData(): (vs: seq<MmsValue>) {
    [MmsBitString(1016, Zeros(127)), MmsOctetString(Zeros(1313), 1313)]
  }

  function PlainMessage(): (m: Message) {
    Message(None, 0, None, None, Zeros(8), 1, 0, false, 0, false)
  }

  lemma PlainTimestamp()
    ensures |PlainMessage().timestamp| == 8
  {
  }

  lemma OverrunDataSizes()
    ensures AllEncodable(OverrunData()) && SizeAll(OverrunData()) == 1447 && ExcessAll(OverrunData()) == 1
  {
    var vs := OverrunData();
    assert Size(vs[0]) == 130 && Size(vs[1]) == 1317 && Excess(vs[0]) == 1 && Excess(vs[1]) == 0;
    assert vs[1..] == [vs[1]] && vs[1..][1..] == [];
    assert SizeAll(vs[1..]) == 1317 && ExcessAll(vs[1..]) == 0;
  }

  lemma SmallNumber(v: uint32)
    requires v < 128
    ensures |BerInteger.UIntOctets(v)| == 1
  {
    hide BerInteger.Compress;
    BerInteger.CompressDropsZeros([0] + U32Octets(v));
  }

  /** One octet past the buffer, in a message that was accepted because its predicted size fills the buffer. */
  lemma OverrunExample()
    ensures AllEncodable(OverrunData()) && |OverrunData()| == 2
    ensures PayloadSize(PlainMessage(), 2, SizeAll(OverrunData())) == 1492
            && |Payload(PlainMessage(), OverrunData())| == 1493
  {
    hide SizeAll, ExcessAll, Payload, BerInteger.UIntOctets;
    OverrunDataSizes();
    SmallNumber(0);
    SmallNumber(1);
    SmallNumber(2);
    PayloadLength(PlainMessage(), OverrunData());
  }

  /** The value v, n times over. */
  function Copies(v: MmsValue, n: nat): (vs: seq<MmsValue>)
    ensures |vs| == n && forall i :: 0 <= i < n ==> vs[i] == v
  {
    if n == 0 then [] else [v] + Copies(v, n - 1)
  }

  lemma {:induction false} CopiesSize(v: MmsValue, n: nat)
    requires Encodable(v) && Excess(v) == 0
    ensures SizeAll(Copies(v, n)) == n * Size(v) && ExcessAll(Copies(v, n)) == 0
  {
    hide Encodable, Size, Excess;
    if n > 0 {
      CopiesSize(v, n - 1);
      assert Copies(v, n)[1..] == Copies(v, n - 1);
      assert n * Size(v) == Size(v) + (n - 1) * Size(v);
    }
  }

  /** An octet string of 23008 octets and 66072 times one of 65000: 2^32 + 4 octets in all. */
  function WrappingData(): (vs: seq<MmsValue>) {
    [MmsOctetString(Zeros(23008), 23008)] + Copies(MmsOctetString(Zeros(65000), 65000), 66072)
  }

  lemma SizeCons(v: MmsValue, vs: seq<MmsValue>)
    requires Encodable(v) && AllEncodable(vs)
    ensures AllEncodable([v] + vs)
    ensures SizeAll([v] + vs) == Size(v) + SizeAll(vs) && ExcessAll([v] + vs) == Excess(v) + ExcessAll(vs)
  {
    hide Encodable, Size, Excess;
    assert ([v] + vs)[1..] == vs;
  }

  lemma OctetStringSize(n: nat)
    requires 256 <= n < 65535
    ensures var v := MmsOctetString(Zeros(n), n); Encodable(v) && Size(v) == 4 + n && Excess(v) == 0
  {
  }

  lemma WrappingDataSizes()
    ensures var vs := WrappingData();
            AllEncodable(vs) && |vs| == 66073 && SizeAll(vs) == 0x1_0000_0004 && ExcessAll(vs) == 0
  {
    hide Encodable, Size, Excess, Zeros, Copies;
    var v, w := MmsOctetString(Zeros(23008), 23008), MmsOctetString(Zeros(65000), 65000);
    OctetStringSize(23008);
    OctetStringSize(65000);
    CopiesSize(w, 66072);
    SizeCons(v, Copies(w, 66072));
  }

  lemma PlainSize(entries: uint32)
    ensures 0x1_0000_0000 < PayloadSize(PlainMessage(), entries, 0x1_0000_0004) <= 0x1_0000_0000 + 100
  {
    hide PduLength, AnnounceSize;
    PlainHeader(entries);
    PduOfData(PlainMessage(), entries, 0x1_0000_0004);
    assert AnnounceSize(0x1_0000_0004) == 1 by { AnnounceOne(0x1_0000_0004); }
    AnnounceOne(PduLength(PlainMessage(), entries, 0x1_0000_0004));
  }

  lemma PlainHeader(entries: uint32)
    ensures PduLength(PlainMessage(), entries, 0) <= 60
  {
    hide BerInteger.UIntOctets, Zeros;
  }

  lemma AnnounceOne(n: nat)
    requires n % 0x1_0000_0000 < 128
    ensures AnnounceSize(n) == 1
  {
  }

  /** Four data octets are predicted, and the message is accepted for any buffer of 100 octets or more; four gigabytes
      are written. */
  lemma WrapExample(max: nat)
    requires 100 <= max < 65535
    ensures AllEncodable(WrappingData()) && |WrappingData()| == 66073
    ensures ExcessAll(WrappingData()) == 0 && |Payload(PlainMessage(), WrappingData())| > 0x1_0000_0000
    ensures Overruns(PlainMessage(), WrappingData(), max)
  {
    hide SizeAll, ExcessAll, Payload, PayloadSize, PlainMessage, WrappingData;
    WrappingDataSizes();
    PlainSize(66073);
    assert |PlainMessage().timestamp| == 8 by { PlainTimestamp(); }
    PayloadAtLeast(PlainMessage(), WrappingData());
  }
}
