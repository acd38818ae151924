/** The nesting grammar of BER (ITU-T X.690 sections 8.1.2, 8.1.3 and 8.1.5), written without reference to the
    decoder, and the proof that the decoder's indefinite-length measurement is exactly membership in it. */
module BerGrammar {
  import opened Octets
  import opened BerLength

  /** One encoded value.  Definite contents are opaque octets, as they are to the decoder. */
  datatype Tlv =
    | Definite(tag: seq<byte>, lengthOctets: seq<byte>, contents: seq<byte>)
    | Indefinite(tag: seq<byte>, items: seq<Tlv>)

  /** One-octet tags, and the two-octet tags that are the only extended tags the decoder knows. */
  predicate IsTag(t: seq<byte>) {
    (|t| == 1 && t[0] % 32 != 31) || (|t| == 2 && t[0] % 32 == 31)
  }

  predicate Denotes(lengthOctets: seq<byte>, n: nat) {
    || (|lengthOctets| == 1 && lengthOctets[0] < 128 && lengthOctets[0] == n)
    || (2 <= |lengthOctets| <= 128 && lengthOctets[0] == 127 + |lengthOctets| && BigEndian(lengthOctets[1..]) == n)
  }

  predicate WellFormed(x: Tlv) {
    IsTag(x.tag) &&
    match x
    case Definite(tag, lo, contents) => Denotes(lo, |contents|) && !(tag == [0] && lo == [0])
    case Indefinite(_, items) => forall i :: 0 <= i < |items| ==> WellFormed(items[i])
  }

  predicate AllWellFormed(xs: seq<Tlv>) {
    forall i :: 0 <= i < |xs| ==> WellFormed(xs[i])
  }

  const END_OF_CONTENTS: seq<byte> := [0, 0]

  function Serialize(x: Tlv): (s: seq<byte>)
    ensures x.tag != [] ==> s != []
  {
    match x
    case Definite(tag, lo, contents) => tag + (lo + contents)
    case Indefinite(tag, items) => tag + ([128] + (SerializeAll(items) + END_OF_CONTENTS))
  }

  function SerializeAll(xs: seq<Tlv>): (s: seq<byte>) {
    if xs == [] then [] else Serialize(xs[0]) + SerializeAll(xs[1..])
  }

  /** Levels of indefinite length. */
  function Nesting(x: Tlv): (n: nat) {
    match x
    case Definite(_, _, _) => 0
    case Indefinite(_, items) => 1 + NestingAll(items)
  }

  function NestingAll(xs: seq<Tlv>): (n: nat) {
    if xs == [] then 0
    else var a, b := Nesting(xs[0]), NestingAll(xs[1..]); if a > b then a else b
  }

  /** b[pos..max] starts with a list of well-formed values, nested at most `budget` deep, that is closed by
      its end-of-contents octets after n octets in all. */
  ghost predicate ClosedList(b: seq<byte>, pos: nat, max: nat, budget: nat, n: nat, xs: seq<Tlv>) {
    && AllWellFormed(xs) && NestingAll(xs) <= budget
    && n == |SerializeAll(xs)| + 2 && pos + n <= max
    && HasAt(b, pos, SerializeAll(xs) + END_OF_CONTENTS)
  }

  // ----- every grammatical list is measured

  lemma DefiniteMeasured(b: seq<byte>, pos: nat, lo: seq<byte>, n: nat, max: nat, budget: nat)
    requires max <= |b| && HasAt(b, pos, lo) && Denotes(lo, n) && pos + |lo| + n <= max
    ensures DecodeAt(b, pos, max, budget) == Length(pos + |lo|, n)
  {
    hide DecodeAt, BigEndian;
    HasAtIndex(b, pos, lo, 0);
    DecodeDefinite(b, pos, max, budget);
    if |lo| > 1 {
      assert b[pos + 1..pos + |lo|] == b[pos..pos + |lo|][1..] == lo[1..];
    }
  }

  lemma {:induction false} ValueMeasured(x: Tlv, b: seq<byte>, pos: nat, max: nat, budget: nat)
    requires WellFormed(x) && Nesting(x) <= budget && max <= |b|
    requires HasAt(b, pos, Serialize(x)) && pos + |Serialize(x)| <= max
    ensures var r := DecodeAt(b, pos + |x.tag|, max, budget);
            r.Length? && r.start + r.size == pos + |Serialize(x)|
    decreases x
  {
    hide DecodeAt, IndefiniteSize, BigEndian, SerializeAll;
    match x
    case Definite(tag, lo, contents) =>
      HasAtSplit(b, pos, tag, lo + contents);
      HasAtSplit(b, pos + |tag|, lo, contents);
      DefiniteMeasured(b, pos + |tag|, lo, |contents|, max, budget);
    case Indefinite(tag, items) =>
      var closed := SerializeAll(items) + END_OF_CONTENTS;
      HasAtSplit(b, pos, tag, [128] + closed);
      HasAtSplit(b, pos + |tag|, [128], closed);
      HasAtIndex(b, pos + |tag|, [128], 0);
      DecodeIndefinite(b, pos + |tag|, max, budget);
      ListMeasured(items, b, pos + |tag| + 1, max, budget - 1);
  }

  lemma FirstOctets(x: Tlv, b: seq<byte>, pos: nat)
    requires WellFormed(x) && HasAt(b, pos, Serialize(x))
    ensures pos + 1 < |b| && !(b[pos] == 0 && b[pos + 1] == 0)
    ensures |x.tag| == if b[pos] % 32 == 31 then 2 else 1
  {
    hide SerializeAll, BigEndian;
    var rest := Serialize(x)[|x.tag|..];
    assert Serialize(x) == x.tag + rest;
    HasAtSplit(b, pos, x.tag, rest);
    HasAtIndex(b, pos, x.tag, 0);
    assert rest[0] == if x.Definite? then x.lengthOctets[0] else 128;
    HasAtIndex(b, pos + |x.tag|, rest, 0);
  }

  lemma ListUncons(xs: seq<Tlv>, b: seq<byte>, pos: nat)
    requires xs != [] && HasAt(b, pos, SerializeAll(xs) + END_OF_CONTENTS)
    ensures HasAt(b, pos, Serialize(xs[0]))
    ensures HasAt(b, pos + |Serialize(xs[0])|, SerializeAll(xs[1..]) + END_OF_CONTENTS)
  {
    hide Serialize, SerializeAll, HasAt;
    var tail := SerializeAll(xs[1..]) + END_OF_CONTENTS;
    SerializeCons(xs);
    assert Serialize(xs[0]) + SerializeAll(xs[1..]) + END_OF_CONTENTS == Serialize(xs[0]) + tail;
    HasAtSplit(b, pos, Serialize(xs[0]), tail);
  }

  lemma SerializeCons(xs: seq<Tlv>)
    requires xs != []
    ensures SerializeAll(xs) == Serialize(xs[0]) + SerializeAll(xs[1..])
  {
    hide Serialize;
  }

  lemma {:induction false} ListMeasured(xs: seq<Tlv>, b: seq<byte>, pos: nat, max: nat, budget: nat)
    requires AllWellFormed(xs) && NestingAll(xs) <= budget && max <= |b|
    requires HasAt(b, pos, SerializeAll(xs) + END_OF_CONTENTS) && pos + |SerializeAll(xs)| + 2 <= max
    ensures IndefiniteSize(b, pos, max, budget) == |SerializeAll(xs)| + 2
    decreases xs
  {
    hide DecodeAt, IndefiniteSize, Serialize;
    MeasureRound(b, pos, max, budget);
    if xs == [] {
      HasAtIndex(b, pos, SerializeAll(xs) + END_OF_CONTENTS, 0);
      HasAtIndex(b, pos, SerializeAll(xs) + END_OF_CONTENTS, 1);
    } else {
      ListUncons(xs, b, pos);
      FirstOctets(xs[0], b, pos);
      ValueMeasured(xs[0], b, pos, max, budget);
      ListMeasured(xs[1..], b, pos + |Serialize(xs[0])|, max, budget);
    }
  }

  // ----- everything measured is grammatical

  lemma DefiniteParsed(b: seq<byte>, pos: nat, p: nat, max: nat, budget: nat) returns (x: Tlv)
    requires max <= |b| && pos <= p && DecodeAt(b, p, max, budget).Length? && b[p] != 128
    requires IsTag(b[pos..p]) && !(b[pos] == 0 && b[pos + 1] == 0)
    ensures WellFormed(x) && Nesting(x) == 0
    ensures var r := DecodeAt(b, p, max, budget); Serialize(x) == b[pos..r.start + r.size]
  {
    hide DecodeAt, BigEndian;
    DecodeDefinite(b, p, max, budget);
    var r := DecodeAt(b, p, max, budget);
    var lo, end := b[p..r.start], r.start + r.size;
    if b[p] > 128 {
      assert lo[1..] == b[p + 1..r.start];
    }
    assert Denotes(lo, r.size);
    x := Definite(b[pos..p], lo, b[r.start..end]);
    assert lo + b[r.start..end] == b[p..end];
    assert b[pos..p] + b[p..end] == b[pos..end];
  }

  lemma IndefiniteOctets(b: seq<byte>, pos: nat, p: nat, end: nat, items: seq<Tlv>)
    requires pos <= p < end <= |b| && b[p] == 128
    requires HasAt(b, p + 1, SerializeAll(items) + END_OF_CONTENTS) && end == p + 1 + |SerializeAll(items)| + 2
    ensures Serialize(Indefinite(b[pos..p], items)) == b[pos..end]
  {
    hide SerializeAll;
    assert [128] + b[p + 1..end] == b[p..end];
    assert b[pos..p] + b[p..end] == b[pos..end];
  }

  lemma ClosedListCons(b: seq<byte>, pos: nat, end: nat, max: nat, budget: nat, x: Tlv, rest: seq<Tlv>, m: nat)
    requires pos <= end <= |b| && Serialize(x) == b[pos..end] && WellFormed(x) && Nesting(x) <= budget
    requires ClosedList(b, end, max, budget, m, rest)
    ensures ClosedList(b, pos, max, budget, end - pos + m, [x] + rest)
  {
    hide Serialize, BigEndian;
    var xs := [x] + rest;
    assert xs[1..] == rest;
    var tail := SerializeAll(rest) + END_OF_CONTENTS;
    HasAtSplit(b, pos, Serialize(x), tail);
    assert SerializeAll(xs) + END_OF_CONTENTS == Serialize(x) + tail;
  }

  lemma {:induction false} ValueParsed(b: seq<byte>, pos: nat, tagLen: nat, max: nat, budget: nat) returns (x: Tlv)
    requires max <= |b| && pos + tagLen <= max && IsTag(b[pos..pos + tagLen])
    requires DecodeAt(b, pos + tagLen, max, budget).Length?
    requires !(b[pos] == 0 && b[pos + 1] == 0)
    ensures WellFormed(x) && Nesting(x) <= budget
    ensures var r := DecodeAt(b, pos + tagLen, max, budget); Serialize(x) == b[pos..r.start + r.size]
    decreases budget, max + 2 - (pos + tagLen), 1
  {
    hide DecodeAt, IndefiniteSize, SerializeAll, BigEndian;
    var p := pos + tagLen;
    if b[p] == 128 {
      DecodeIndefinite(b, p, max, budget);
      var items := ListParsed(b, p + 1, max, budget - 1);
      x := Indefinite(b[pos..p], items);
      IndefiniteOctets(b, pos, p, p + 1 + IndefiniteSize(b, p + 1, max, budget - 1), items);
    } else {
      x := DefiniteParsed(b, pos, p, max, budget);
    }
  }

  lemma {:induction false} ListParsed(b: seq<byte>, pos: nat, max: nat, budget: nat) returns (xs: seq<Tlv>)
    requires max <= |b| && IndefiniteSize(b, pos, max, budget) >= 0
    ensures ClosedList(b, pos, max, budget, IndefiniteSize(b, pos, max, budget), xs)
    decreases budget, max + 2 - pos, 2
  {
    hide DecodeAt, IndefiniteSize, Serialize, BigEndian;
    MeasureRound(b, pos, max, budget);
    if b[pos] == 0 && pos + 1 < max && b[pos + 1] == 0 {
      xs := [];
      assert b[pos..pos + 2] == END_OF_CONTENTS;
    } else {
      var tagLen := if b[pos] % 32 == 31 then 2 else 1;
      var r := DecodeAt(b, pos + tagLen, max, budget);
      var x := ValueParsed(b, pos, tagLen, max, budget);
      var rest := ListParsed(b, r.start + r.size, max, budget);
      xs := [x] + rest;
      ClosedListCons(b, pos, r.start + r.size, max, budget, x, rest, IndefiniteSize(b, r.start + r.size, max, budget));
    }
  }

  /** getIndefiniteLength succeeds with n exactly when the window starts with a well-formed list, nested no
      deeper than the remaining budget, whose matching end-of-contents octets end after n octets. */
  lemma IndefiniteSizeExact(b: seq<byte>, pos: nat, max: nat, budget: nat, n: nat)
    requires max <= |b|
    ensures IndefiniteSize(b, pos, max, budget) == n <==> exists xs :: ClosedList(b, pos, max, budget, n, xs)
  {
    if IndefiniteSize(b, pos, max, budget) == n {
      var xs := ListParsed(b, pos, max, budget);
    }
    if xs :| ClosedList(b, pos, max, budget, n, xs) {
      ListMeasured(xs, b, pos, max, budget);
    }
  }
}
