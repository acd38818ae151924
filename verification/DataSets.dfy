/** The receiver's two data-set parsers (goose_receiver.cc): parseAllDataUnknownValue learns a value tree from
    a window of octets, parseAllData refreshes an existing tree from one.  Both are given here as functions of
    the window b[pos..end]; the loops that compute them are in DataSetParsers. */
module DataSets {
  import opened Octets
  import opened BerLength
  import opened MmsValues

  /** The receive buffer holds the window and at least one octet behind it, which a boolean without contents
      makes both parsers read. */
  predicate Window(b: seq<byte>, pos: nat, end: nat) {
    pos <= end < |b|
  }

  /** One tag-length-value element: its tag and where its contents are. */
  datatype Element = Element(tag: byte, start: nat, size: nat)

  predicate KnownTag(tag: byte) {
    tag in {0x80, 0xa1, 0xa2, 0x83, 0x84, 0x85, 0x86, 0x87, 0x89, 0x8a, 0x8c, 0x91}
  }

  /** The elements of a window at its top level, or None if a length cannot be decoded. */
  function Elements(b: seq<byte>, pos: nat, end: nat): (r: Option<seq<Element>>)
    requires end <= |b|
    decreases end - pos
  {
    if pos >= end then Some([])
    else
      match Decode(b, pos + 1, end)
      case Malformed => None
      case Length(start, size) =>
        match Elements(b, start + size, end)
        case None => None
        case Some(rest) => Some([Element(b[pos], start, size)] + rest)
  }

  // ----- learning

  /** What the build pass makes of one element: an error, nothing at all, or a value. */
  datatype Learned = Failed | Dropped | Learned(value: MmsValue)

  /** The first pass: the number of elements, or None on an undecodable length or unknown tag. */
  function Count(b: seq<byte>, pos: nat, end: nat): (r: Option<nat>)
    requires end <= |b|
    decreases end - pos
  {
    if pos >= end then Some(0)
    else
      match Decode(b, pos + 1, end)
      case Malformed => None
      case Length(start, size) =>
        if !KnownTag(b[pos]) then None
        else
          match Count(b, start + size, end)
          case None => None
          case Some(n) => Some(n + 1)
  }

  function IntegerCapacity(size: nat): (n: nat) {
    if 8 * size <= 32 then 5 else 9
  }

  function LearnPrimitive(b: seq<byte>, tag: byte, start: nat, size: nat): (r: Learned)
    requires Window(b, start, start + size)
  {
    var c := b[start..start + size];
    if tag == 0x83 then Learned(MmsBoolean(b[start] != 0))
    else if tag == 0x84 then
      if size > 1 && c[0] <= 7 then Learned(MmsBitString(8 * (size - 1) - c[0], c[1..])) else Failed
    else if tag == 0x85 then if size > 8 then Failed else Learned(MmsInteger(c, IntegerCapacity(size)))
    else if tag == 0x86 then if size > 8 then Failed else Learned(MmsUnsigned(c, IntegerCapacity(size)))
    else if tag == 0x87 then
      if size == 9 then Learned(MmsFloat(64, c[1..])) else if size == 5 then Learned(MmsFloat(32, c[1..])) else Dropped
    else if tag == 0x89 then Learned(MmsOctetString(Counted(c), size))
    else if tag == 0x8a then Learned(MmsVisibleString(Some(c), Int16(size)))
    else if tag == 0x8c then
      if size == 4 then Learned(MmsBinaryTime(4, c + [0, 0])) else if size == 6 then Learned(MmsBinaryTime(6, c))
          else Dropped
    else if tag == 0x91 then if size == 8 then Learned(MmsUtcTime(c)) else Dropped
    else Failed
  }

  function LearnOne(b: seq<byte>, tag: byte, start: nat, size: nat): (r: Learned)
    requires Window(b, start, start + size)
    decreases size, 2
  {
    if tag == 0xa1 || tag == 0xa2 then
      match Learn(b, start, start + size, tag == 0xa2)
      case None => Failed
      case Some(v) => Learned(v)
    else LearnPrimitive(b, tag, start, size)
  }

  /** The second pass: the values built, in order. */
  function Build(b: seq<byte>, pos: nat, end: nat): (r: Option<seq<MmsValue>>)
    requires Window(b, pos, end)
    decreases end - pos, 0
  {
    if pos >= end then Some([])
    else
      match Decode(b, pos + 1, end)
      case Malformed => None
      case Length(start, size) =>
        match LearnOne(b, b[pos], start, size)
        case Failed => None
        case Dropped => Build(b, start + size, end)
        case Learned(v) =>
          match Build(b, start + size, end)
          case None => None
          case Some(vs) => Some([v] + vs)
  }

  function Repeat<T>(x: T, n: nat): (s: seq<T>)
    ensures |s| == n && forall i :: 0 <= i < n ==> s[i] == x
  {
    if n == 0 then [] else [x] + Repeat(x, n - 1)
  }

  function Collection(vs: seq<MmsValue>, isStructure: bool): (v: MmsValue) {
    if isStructure then MmsStructure(vs) else MmsArray(vs)
  }

  /** parseAllDataUnknownValue: one slot per element counted, filled from the front with what was built. */
  function Learn(b: seq<byte>, pos: nat, end: nat, isStructure: bool): (r: Option<MmsValue>)
    requires Window(b, pos, end)
    ensures r.Some? ==> if isStructure then r.value.MmsStructure? else r.value.MmsArray?
    decreases end - pos, 1
  {
    match Count(b, pos, end)
    case None => None
    case Some(n) =>
      match Build(b, pos, end)
      case None => None
      case Some(vs) =>
        Some(Collection(if |vs| <= n then vs + Repeat(Unset, n - |vs|) else vs[..n], isStructure))
  }

  /** An element that the build pass never drops. */
  predicate Kept(e: Element) {
    && (e.tag == 0x87 ==> e.size == 5 || e.size == 9)
    && (e.tag == 0x8c ==> e.size == 4 || e.size == 6)
    && (e.tag == 0x91 ==> e.size == 8)
  }

  lemma LearnOneDrops(b: seq<byte>, tag: byte, start: nat, size: nat)
    requires Window(b, start, start + size)
    ensures LearnOne(b, tag, start, size).Dropped? <==> !Kept(Element(tag, start, size))
  {
    hide Learn;
  }

  /** The two passes visit the same elements: the build never runs past the slots allocated, and it fills all
      of them exactly when no float, binary time or UTC time had an unaccepted width. */
  lemma {:induction false} PassesVisitSameElements(b: seq<byte>, pos: nat, end: nat)
    requires Window(b, pos, end) && Count(b, pos, end).Some?
    ensures Elements(b, pos, end).Some? && |Elements(b, pos, end).value| == Count(b, pos, end).value
    ensures Build(b, pos, end).Some? ==>
              var es, vs := Elements(b, pos, end).value, Build(b, pos, end).value;
              |vs| <= |es| && (|vs| == |es| <==> forall i :: 0 <= i < |es| ==> Kept(es[i]))
    decreases end - pos
  {
    hide LearnOne, Decode;
    if pos < end {
      var r := Decode(b, pos + 1, end);
      PassesVisitSameElements(b, r.start + r.size, end);
      LearnOneDrops(b, b[pos], r.start, r.size);
      var es := Elements(b, pos, end).value;
      assert es[1..] == Elements(b, r.start + r.size, end).value;
      assert (forall i :: 0 <= i < |es| ==> Kept(es[i])) <==>
             Kept(es[0]) && forall i :: 0 <= i < |es[1..]| ==> Kept(es[1..][i]);
    }
  }

  // ----- refreshing

  /** The error codes of the parser, and Overrun, which is none of them: a store ran past the buffer of its slot, and
      what the code does from there on is undefined. */
  datatype ParseError =
    NoError | UnknownTag | TagDecode | Sublevel | Overflow | Underflow | TypeMismatch | LengthMismatch | Overrun

  function Abs(x: int): (r: nat) {
    if x < 0 then -x else x
  }

  /** Assignment of one primitive element to the value in its slot. */
  function RefreshPrimitive(b: seq<byte>, tag: byte, start: nat, size: nat, v: MmsValue): (r: (ParseError, MmsValue))
    requires Window(b, start, start + size)
  {
    var c := b[start..start + size];
    if tag == 0x80 then (NoError, v)
    else if tag == 0x83 then
      if v.MmsBoolean? then (NoError, MmsBoolean(b[start] != 0)) else (TypeMismatch, v)
    else if tag == 0x84 then
      if !v.MmsBitString? then (TypeMismatch, v)
      else if 8 * (size - 1) - b[start] != v.bitSize then (LengthMismatch, v)
      else if size - 1 > |v.bits| then (Overrun, v)
      else (NoError, MmsBitString(v.bitSize, Splice(v.bits, 0, c[1..])))
    else if tag == 0x85 then
      if !v.MmsInteger? then (TypeMismatch, v)
      else if size > v.maxSize then (LengthMismatch, v) else (NoError, MmsInteger(c, v.maxSize))
    else if tag == 0x86 then
      if !v.MmsUnsigned? then (TypeMismatch, v)
      else if size > v.maxSize then (LengthMismatch, v) else (NoError, MmsUnsigned(c, v.maxSize))
    else if tag == 0x87 then
      if !v.MmsFloat? then (TypeMismatch, v)
      else if size == 9 || size == 5 then (NoError, MmsFloat(v.width, c[1..])) else (LengthMismatch, v)
    else if tag == 0x89 then
      if !v.MmsOctetString? then (TypeMismatch, v)
      else (NoError, MmsOctetString(Counted(c), if size <= Abs(v.maxSize) then v.maxSize else 0 - size))
    else if tag == 0x8a then
      if !v.MmsVisibleString? then (TypeMismatch, v)
      else (NoError, MmsVisibleString(Some(c), if v.chars.Some? && v.capacity >= size then v.capacity else Int16(size)))
    else if tag == 0x8c then
      if !v.MmsBinaryTime? then (TypeMismatch, v)
      else if (size == 4 || size == 6) && size <= |v.buf| then (NoError, MmsBinaryTime(v.size, Splice(v.buf, 0, c)))
      else (NoError, v)
    else if tag == 0x91 then
      if size != 8 then (LengthMismatch, v)
      else if v.MmsUtcTime? then (NoError, MmsUtcTime(c)) else (TypeMismatch, v)
    else (UnknownTag, v)
  }

  /** What an array or structure makes of the code of its own elements. */
  function Nested(pe: ParseError): (r: ParseError) {
    if pe == NoError || pe == Overrun then pe else Sublevel
  }

  function RefreshOne(b: seq<byte>, tag: byte, start: nat, size: nat, v: MmsValue): (r: (ParseError, MmsValue))
    requires Window(b, start, start + size)
    decreases size, 1
  {
    if tag == 0xa1 then
      if !v.MmsArray? then (TypeMismatch, v)
      else
        var (pe, es) := Refresh(b, start, start + size, v.elements);
        (Nested(pe), MmsArray(es))
    else if tag == 0xa2 then
      if !v.MmsStructure? then (TypeMismatch, v)
      else
        var (pe, es) := Refresh(b, start, start + size, v.elements);
        (Nested(pe), MmsStructure(es))
    else RefreshPrimitive(b, tag, start, size, v)
  }

  /** parseAllData on the components vs that are still to be assigned.  Whatever stops the loop while
      components are left is finally reported as an underflow, except an empty slot. */
  function Refresh(b: seq<byte>, pos: nat, end: nat, vs: seq<MmsValue>): (r: (ParseError, seq<MmsValue>))
    requires Window(b, pos, end)
    ensures |r.1| == |vs|
    decreases end - pos, 0
  {
    if pos >= end then (if vs == [] then NoError else Underflow, vs)
    else if vs == [] then (Overflow, vs)
    else if vs[0].Unset? then (TypeMismatch, vs)
    else
      match Decode(b, pos + 1, end)
      case Malformed => (Underflow, vs)
      case Length(start, size) =>
        var (pe, v) := RefreshOne(b, b[pos], start, size, vs[0]);
        if pe != NoError then (if pe == Overrun then Overrun else Underflow, [v] + vs[1..])
        else
          var (pe', rest) := Refresh(b, start + size, end, vs[1..]);
          (pe', [v] + rest)
  }

  // ----- one step of each

  lemma RefreshStep(b: seq<byte>, pos: nat, end: nat, vs: seq<MmsValue>)
    requires Window(b, pos, end) && pos < end && vs != [] && !vs[0].Unset?
    ensures Refresh(b, pos, end, vs) ==
            match Decode(b, pos + 1, end)
            case Malformed => (Underflow, vs)
            case Length(start, size) =>
              var one := RefreshOne(b, b[pos], start, size, vs[0]);
              if one.0 != NoError then (if one.0 == Overrun then Overrun else Underflow, [one.1] + vs[1..])
              else
                var rest := Refresh(b, start + size, end, vs[1..]);
                (rest.0, [one.1] + rest.1)
  {
    hide Decode, RefreshOne;
  }

  lemma CountStep(b: seq<byte>, pos: nat, end: nat)
    requires pos < end <= |b|
    ensures Count(b, pos, end) ==
            var r := Decode(b, pos + 1, end);
            if r.Malformed? || !KnownTag(b[pos]) || Count(b, r.start + r.size, end).None? then None
            else Some(Count(b, r.start + r.size, end).value + 1)
  {
    hide Decode;
  }

  lemma CountDone(b: seq<byte>, end: nat)
    requires end <= |b|
    ensures Count(b, end, end) == Some(0)
  {
  }

  lemma BuildStep(b: seq<byte>, pos: nat, end: nat)
    requires Window(b, pos, end) && pos < end
    ensures Build(b, pos, end) ==
            var r := Decode(b, pos + 1, end);
            if r.Malformed? then None
            else
              var one, rest := LearnOne(b, b[pos], r.start, r.size), Build(b, r.start + r.size, end);
              if one.Failed? then None
              else if one.Dropped? then rest
              else if rest.None? then None else Some([one.value] + rest.value)
  {
    hide Decode, LearnOne;
  }

  lemma BuildDone(b: seq<byte>, end: nat)
    requires end < |b|
    ensures Build(b, end, end) == Some([])
  {
  }

  lemma RefreshDone(b: seq<byte>, end: nat)
    requires end < |b|
    ensures Refresh(b, end, end, []) == (NoError, [])
  {
  }
}
