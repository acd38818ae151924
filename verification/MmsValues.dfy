/** MMS data values and their BER encoding: the size pass and the encode pass of MmsValue_encodeMmsData
    (mms_access_result.cc), and exactly when the two agree. */
module MmsValues {
  import opened Octets
  import opened BerLength
  import BerInteger

  /** A value tree as the library stores it, buffer capacities included.
      - bits: the octets that hold a bit string of `size` bits
      - source: the IEEE octets last assigned to a float held in a format of `width` bits
      - maxSize of an octet string is negative once its buffer was reallocated; only its magnitude matters
      - chars: the stored octets of a visible string or MMS string (None is a null buffer), capacity: the
        size of that buffer in a signed 16-bit field
      - buf: the six octets of a binary time, of which `size` count
      - Unset: a component slot that holds no value */
  datatype MmsValue =
    | MmsBoolean(flag: bool)
    | MmsBitString(bitSize: nat, bits: seq<byte>)
    | MmsInteger(octets: seq<byte>, maxSize: int)
    | MmsUnsigned(octets: seq<byte>, maxSize: int)
    | MmsFloat(width: nat, source: seq<byte>)
    | MmsOctetString(octets: seq<byte>, maxSize: int)
    | MmsVisibleString(chars: Option<seq<byte>>, capacity: int)
    | MmsString(chars: Option<seq<byte>>, capacity: int)
    | MmsBinaryTime(size: nat, buf: seq<byte>)
    | MmsUtcTime(octets: seq<byte>)
    | MmsArray(elements: seq<MmsValue>)
    | MmsStructure(elements: seq<MmsValue>)
    | MmsDataAccessError(code: uint32)
    | Unset

  /** What a signed 16-bit field keeps of a size. */
  function Int16(n: nat): (r: int) {
    (n + 0x8000) % 0x1_0000 - 0x8000
  }

  /** The octets of c that an unsigned 16-bit size counts. */
  function Counted(c: seq<byte>): (r: seq<byte>)
    ensures r <= c && |r| < 0x1_0000
    ensures |c| < 0x1_0000 ==> r == c
  {
    c[..|c| % 0x1_0000]
  }

  function BitOctets(bitSize: nat): (n: nat) {
    (bitSize + 7) / 8
  }

  /** A value the encoder can be given: no empty slot, buffers of the right length, and a float whose last
      assignment had the width it is held in. */
  predicate Encodable(v: MmsValue) {
    match v
    case MmsBitString(n, bits) => n < 0x8000_0000 && |bits| == BitOctets(n)
    case MmsFloat(width, source) => (width == 32 || width == 64) && 8 * |source| == width
    case MmsOctetString(octets, _) => |octets| < 0x1_0000
    case MmsBinaryTime(n, buf) => (n == 4 || n == 6) && |buf| == 6
    case MmsUtcTime(octets) => |octets| == 8
    case MmsArray(es) => forall i :: 0 <= i < |es| ==> Encodable(es[i])
    case MmsStructure(es) => forall i :: 0 <= i < |es| ==> Encodable(es[i])
    case Unset => false
    case _ => true
  }

  predicate AllEncodable(vs: seq<MmsValue>) {
    forall i :: 0 <= i < |vs| ==> Encodable(vs[i])
  }

  /** The octets before the terminator, which is what strlen and the string encoder see. */
  function CString(s: seq<byte>): (r: seq<byte>)
    ensures r <= s && 0 !in r
  {
    if s == [] || s[0] == 0 then [] else [s[0]] + CString(s[1..])
  }

  function Text(chars: Option<seq<byte>>): (r: seq<byte>) {
    match chars case None => [] case Some(s) => CString(s)
  }

  /** The octets of a bit string with its padding bits cleared. */
  function MaskedBits(bitSize: nat, bits: seq<byte>): (r: seq<byte>)
    requires |bits| == BitOctets(bitSize)
    ensures |r| == |bits|
  {
    if bits == [] then []
    else
      var last := bits[|bits| - 1];
      bits[..|bits| - 1] + [ClearLow(last, 8 * |bits| - bitSize)]
  }

  /** d with its k low bits cleared. */
  function ClearLow(d: byte, k: nat): (r: byte)
    ensures r <= d
    decreases k
  {
    if k == 0 then d else ClearLow(d / 2, k - 1) * 2
  }

  // ----- the two passes

  /** Length octets for an announced size, which the encoder receives as a 32-bit number. */
  function Announce(n: nat): (s: seq<byte>)
    ensures 1 <= |s| <= 4
  {
    LengthOctets(n % 0x1_0000_0000)
  }

  function AnnounceSize(n: nat): (k: nat) {
    LengthSize(n % 0x1_0000_0000)
  }

  lemma AnnounceExact(n: nat)
    requires n < 65535
    ensures |Announce(n)| == AnnounceSize(n)
  {
  }

  /** Lengths are announced and sized by their low 32 bits anyway. */
  lemma AnnounceLow(n: nat)
    ensures Announce(Low32(n)) == Announce(n) && AnnounceSize(Low32(n)) == AnnounceSize(n)
  {
    hide LengthOctets, LengthSize;
  }

  lemma AnnounceAtLeast(n: nat)
    ensures |Announce(n)| >= AnnounceSize(n)
  {
  }

  lemma AnnounceRead(b: seq<byte>, pos: nat, n: nat, max: nat)
    requires n < 65535 && HasAt(b, pos, Announce(n)) && max <= |b| && pos + |Announce(n)| + n <= max
    ensures Decode(b, pos, max) == Length(pos + |Announce(n)|, n)
  {
    hide Decode, LengthOctets;
    LengthOctetsRead(b, pos, n, max);
  }

  function Tlv(tag: byte, contents: seq<byte>): (s: seq<byte>) {
    [tag] + (Announce(|contents|) + contents)
  }

  lemma LongTlv(tag: byte, c: seq<byte>)
    requires 256 <= |c| < 65535
    ensures |Tlv(tag, c)| == 4 + |c|
  {
  }

  /** The contents octets of a primitive value. */
  function Contents(v: MmsValue): (s: seq<byte>)
    requires Encodable(v) && !v.MmsArray? && !v.MmsStructure?
  {
    match v
    case MmsBoolean(flag) => [if flag then 1 else 0]
    case MmsBitString(n, bits) => [8 * |bits| - n] + MaskedBits(n, bits)
    case MmsInteger(octets, _) => octets
    case MmsUnsigned(octets, _) => octets
    case MmsFloat(width, source) => [if width == 32 then 8 else 11] + source
    case MmsOctetString(octets, _) => octets
    case MmsVisibleString(chars, _) => Text(chars)
    case MmsString(chars, _) => Text(chars)
    case MmsBinaryTime(n, buf) => buf[..n]
    case MmsUtcTime(octets) => octets
    case MmsDataAccessError(code) => BerInteger.UIntOctets(code)
  }

  function Tag(v: MmsValue): (t: byte)
    requires !v.Unset?
  {
    match v
    case MmsBoolean(_) => 0x83
    case MmsBitString(_, _) => 0x84
    case MmsInteger(_, _) => 0x85
    case MmsUnsigned(_, _) => 0x86
    case MmsFloat(_, _) => 0x87
    case MmsOctetString(_, _) => 0x89
    case MmsVisibleString(_, _) => 0x8a
    case MmsString(_, _) => 0x90
    case MmsBinaryTime(_, _) => 0x8c
    case MmsUtcTime(_) => 0x91
    case MmsArray(_) => 0xa1
    case MmsStructure(_) => 0xa2
    case MmsDataAccessError(_) => 0x80
  }

  /** encodeMmsData with encode == false. */
  function Size(v: MmsValue): (n: nat)
    requires Encodable(v)
  {
    match v
    case MmsBoolean(_) => 3
    case MmsBitString(n, _) => 2 + AnnounceSize(BitOctets(n)) + BitOctets(n)
    case MmsInteger(octets, _) => 2 + |octets|
    case MmsUnsigned(octets, _) => 2 + |octets|
    case MmsFloat(width, _) => width / 8 + 1 + 2
    case MmsOctetString(octets, _) => 1 + AnnounceSize(|octets|) + |octets|
    case MmsVisibleString(chars, _) => 1 + AnnounceSize(|Text(chars)|) + |Text(chars)|
    case MmsString(chars, _) => 1 + AnnounceSize(|Text(chars)|) + |Text(chars)|
    case MmsBinaryTime(n, _) => 2 + n
    case MmsUtcTime(_) => 10
    case MmsArray(es) => 1 + SizeAll(es) + AnnounceSize(SizeAll(es))
    case MmsStructure(es) => 1 + SizeAll(es) + AnnounceSize(SizeAll(es))
    case MmsDataAccessError(code) => 2 + |BerInteger.UIntOctets(code)|
  }

  function SizeAll(vs: seq<MmsValue>): (n: nat)
    requires AllEncodable(vs)
  {
    if vs == [] then 0 else Size(vs[0]) + SizeAll(vs[1..])
  }

  /** encodeMmsData with encode == true.  Arrays and structures announce the size computed by the size pass. */
  function Encode(v: MmsValue): (s: seq<byte>)
    requires Encodable(v)
  {
    if v.MmsArray? || v.MmsStructure? then [Tag(v)] + (Announce(SizeAll(v.elements)) + EncodeAll(v.elements))
    else Tlv(Tag(v), Contents(v))
  }

  function EncodeAll(vs: seq<MmsValue>): (s: seq<byte>)
    requires AllEncodable(vs)
  {
    if vs == [] then [] else Encode(vs[0]) + EncodeAll(vs[1..])
  }

  /** The octets that follow a value's length field. */
  function Body(v: MmsValue): (s: seq<byte>)
    requires Encodable(v)
  {
    if v.MmsArray? || v.MmsStructure? then EncodeAll(v.elements) else Contents(v)
  }

  // ----- when the two passes agree

  /** How many octets the encode pass writes beyond what the size pass promised. */
  function Excess(v: MmsValue): (n: nat)
    requires Encodable(v)
  {
    match v
    case MmsBitString(n, _) => |Announce(BitOctets(n) + 1)| - AnnounceSize(BitOctets(n))
    case MmsInteger(octets, _) => |Announce(|octets|)| - 1
    case MmsUnsigned(octets, _) => |Announce(|octets|)| - 1
    case MmsOctetString(octets, _) => |Announce(|octets|)| - AnnounceSize(|octets|)
    case MmsVisibleString(chars, _) => |Announce(|Text(chars)|)| - AnnounceSize(|Text(chars)|)
    case MmsString(chars, _) => |Announce(|Text(chars)|)| - AnnounceSize(|Text(chars)|)
    case MmsArray(es) => |Announce(SizeAll(es))| - AnnounceSize(SizeAll(es)) + ExcessAll(es)
    case MmsStructure(es) => |Announce(SizeAll(es))| - AnnounceSize(SizeAll(es)) + ExcessAll(es)
    case _ => 0
  }

  function ExcessAll(vs: seq<MmsValue>): (n: nat)
    requires AllEncodable(vs)
  {
    if vs == [] then 0 else Excess(vs[0]) + ExcessAll(vs[1..])
  }

  lemma PrimitiveLength(v: MmsValue)
    requires Encodable(v) && !v.MmsArray? && !v.MmsStructure?
    ensures |Encode(v)| == Size(v) + Excess(v)
  {
    hide SizeAll, EncodeAll, ExcessAll, Text, MaskedBits, BerInteger.UIntOctets, Announce, AnnounceSize;
    if |Contents(v)| < 128 {
      AnnounceShort(|Contents(v)|);
    }
  }

  lemma AnnounceShort(n: nat)
    requires n < 128
    ensures |Announce(n)| == 1 == AnnounceSize(n)
  {
  }

  /** The encode pass writes what the size pass promised, plus the excess of every value in the tree. */
  lemma {:induction false} EncodedLength(v: MmsValue)
    requires Encodable(v)
    ensures |Encode(v)| == Size(v) + Excess(v)
    decreases v
  {
    if v.MmsArray? || v.MmsStructure? {
      hide Announce, AnnounceSize, Contents, SizeAll, EncodeAll, ExcessAll;
      EncodedLengthAll(v.elements);
    } else {
      PrimitiveLength(v);
    }
  }

  lemma {:induction false} EncodedLengthAll(vs: seq<MmsValue>)
    requires AllEncodable(vs)
    ensures |EncodeAll(vs)| == SizeAll(vs) + ExcessAll(vs)
    decreases vs
  {
    if vs != [] {
      EncodedLength(vs[0]);
      EncodedLengthAll(vs[1..]);
    }
  }

  /** Without excess, every value is a tag, the length of its body, and its body. */
  lemma EncodeShape(v: MmsValue)
    requires Encodable(v) && Excess(v) == 0
    ensures Encode(v) == Tlv(Tag(v), Body(v))
  {
    hide Tag, Contents, EncodeAll, SizeAll, ExcessAll;
    if v.MmsArray? || v.MmsStructure? {
      EncodedLengthAll(v.elements);
    }
  }

  /** Sizes at which one value's own length field is predicted too short: bit strings of 127, 255, 65534 or
      65535 octets, strings of 65535 octets, and integers of 128 octets or more. */
  predicate Crossover(v: MmsValue)
    requires Encodable(v)
  {
    match v
    case MmsBitString(n, _) => BitOctets(n) in {127, 255, 65534, 65535}
    case MmsInteger(octets, _) => |octets| % 0x1_0000_0000 >= 128
    case MmsUnsigned(octets, _) => |octets| % 0x1_0000_0000 >= 128
    case MmsOctetString(octets, _) => |octets| % 0x1_0000_0000 == 65535
    case MmsVisibleString(chars, _) => |Text(chars)| % 0x1_0000_0000 == 65535
    case MmsString(chars, _) => |Text(chars)| % 0x1_0000_0000 == 65535
    case MmsArray(es) => SizeAll(es) % 0x1_0000_0000 == 65535 || exists i :: 0 <= i < |es| && Crossover(es[i])
    case MmsStructure(es) => SizeAll(es) % 0x1_0000_0000 == 65535 || exists i :: 0 <= i < |es| && Crossover(es[i])
    case _ => false
  }

  lemma {:induction false} NoExcess(v: MmsValue)
    requires Encodable(v)
    ensures Excess(v) == 0 <==> !Crossover(v)
    decreases v
  {
    hide SizeAll, ExcessAll, Text, Announce, AnnounceSize;
    match v
    case MmsBitString(n, _) => BitStringExcess(BitOctets(n));
    case MmsInteger(octets, _) => LengthExcess(|octets|);
    case MmsUnsigned(octets, _) => LengthExcess(|octets|);
    case MmsOctetString(octets, _) => LengthExcess(|octets|);
    case MmsVisibleString(chars, _) => LengthExcess(|Text(chars)|);
    case MmsString(chars, _) => LengthExcess(|Text(chars)|);
    case MmsArray(es) => NoExcessAll(es); LengthExcess(SizeAll(es));
    case MmsStructure(es) => NoExcessAll(es); LengthExcess(SizeAll(es));
    case _ =>
  }

  /** The length field is one octet longer than predicted at 65535, and is one octet exactly below 128. */
  lemma LengthExcess(n: nat)
    ensures |Announce(n)| - AnnounceSize(n) == if n % 0x1_0000_0000 == 65535 then 1 else 0
    ensures |Announce(n)| == 1 <==> n % 0x1_0000_0000 < 128
  {
  }

  lemma BitStringExcess(n: nat)
    requires n <= 0x1000_0000
    ensures |Announce(n + 1)| == AnnounceSize(n) <==> n !in {127, 255, 65534, 65535}
  {
    hide Announce, AnnounceSize;
    Widths(n);
    Widths(n + 1);
  }

  lemma Widths(n: nat)
    requires n < 0x1_0000_0000
    ensures |Announce(n)| == if n < 128 then 1 else if n < 256 then 2 else if n < 65535 then 3 else 4
    ensures AnnounceSize(n) == if n < 128 then 1 else if n < 256 then 2 else if n < 65536 then 3 else 4
  {
  }

  lemma {:induction false} NoExcessAll(vs: seq<MmsValue>)
    requires AllEncodable(vs)
    ensures ExcessAll(vs) == 0 <==> forall i :: 0 <= i < |vs| ==> !Crossover(vs[i])
    decreases vs
  {
    if vs != [] {
      NoExcess(vs[0]);
      NoExcessAll(vs[1..]);
    }
  }

  /** The two passes agree on a data set, whose size is added up in 32 bits, exactly when that sum does not wrap and no
      value in it sits at a crossover size. */
  lemma PassesAgree(vs: seq<MmsValue>)
    requires AllEncodable(vs)
    ensures |EncodeAll(vs)| >= SizeAll(vs)
    ensures |EncodeAll(vs)| == SizeAll(vs) <==> forall i :: 0 <= i < |vs| ==> !Crossover(vs[i])
    ensures |EncodeAll(vs)| == Low32(SizeAll(vs)) <==>
            SizeAll(vs) < 0x1_0000_0000 && forall i :: 0 <= i < |vs| ==> !Crossover(vs[i])
  {
    hide SizeAll, EncodeAll, ExcessAll, Crossover;
    EncodedLengthAll(vs);
    NoExcessAll(vs);
  }

  /** A bit string of 1016 bits is announced one octet too short. */
  lemma CrossoverExample(bits: seq<byte>)
    requires |bits| == 127
    ensures var v := MmsBitString(1016, bits); Encodable(v) && Size(v) == 130 && |Encode(v)| == 131
  {
    hide MaskedBits;
  }
}
