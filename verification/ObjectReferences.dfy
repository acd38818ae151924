/** Object references such as "LD/LN.Do(3).Da[MX]" and the MMS variable access specifications they stand for
    (iec61850_common.cc): the parser, the printer, and that each undoes the other. */
module ObjectReferences {
  import opened Octets

  const INT_MAX := 0x7fff_ffff

  // ----- functional constraints

  datatype FunctionalConstraint =
    ST | MX | SP | SV | CF | DC | SG | SE | SR | OR | BL | EX | CO | US | MS | RP | BR | LG | GO | NoConstraint

  function FcText(fc: FunctionalConstraint): (s: string)
    ensures fc != NoConstraint ==> |s| == 2
  {
    match fc
    case ST => "ST" case MX => "MX" case SP => "SP" case SV => "SV" case CF => "CF" case DC => "DC" case SG => "SG"
    case SE => "SE" case SR => "SR" case OR => "OR" case BL => "BL" case EX => "EX" case CO => "CO" case US => "US"
    case MS => "MS" case RP => "RP" case BR => "BR" case LG => "LG" case GO => "GO" case NoConstraint => ""
  }

  /** FunctionalConstraint_fromString on the first two characters. */
  function FcFrom(a: char, b: char): (fc: FunctionalConstraint) {
    if a == 'S' then
      if b == 'T' then ST else if b == 'P' then SP else if b == 'V' then SV else if b == 'G' then SG
      else if b == 'E' then SE else if b == 'R' then SR else NoConstraint
    else if a == 'M' then if b == 'X' then MX else if b == 'S' then MS else NoConstraint
    else if a == 'C' then if b == 'F' then CF else if b == 'O' then CO else NoConstraint
    else if a == 'D' then if b == 'C' then DC else NoConstraint
    else if a == 'O' then if b == 'R' then OR else NoConstraint
    else if a == 'B' then if b == 'L' then BL else if b == 'R' then BR else NoConstraint
    else if a == 'E' then if b == 'X' then EX else NoConstraint
    else if a == 'U' then if b == 'S' then US else NoConstraint
    else if a == 'R' then if b == 'P' then RP else NoConstraint
    else if a == 'L' then if b == 'G' then LG else NoConstraint
    else if a == 'G' then if b == 'O' then GO else NoConstraint
    else NoConstraint
  }

  /** The two conversions undo each other on every known constraint. */
  lemma FcRoundTrip(fc: FunctionalConstraint, a: char, b: char)
    ensures fc != NoConstraint ==> FcFrom(FcText(fc)[0], FcText(fc)[1]) == fc
    ensures FcFrom(a, b) != NoConstraint ==> FcText(FcFrom(a, b)) == [a, b]
    ensures fc != NoConstraint ==> forall c :: c in FcText(fc) ==> 'A' <= c <= 'Z'
  {
  }

  // ----- characters in strings

  /** strchr on s[from..]. */
  function IndexOf(s: string, c: char, from: nat): (r: Option<nat>)
    requires from <= |s|
    ensures r.Some? ==> from <= r.value < |s| && s[r.value] == c && c !in s[from..r.value]
    ensures r.None? ==> c !in s[from..]
    decreases |s| - from
  {
    if from == |s| then None
    else if s[from] == c then Some(from)
    else IndexOf(s, c, from + 1)
  }

  lemma {:induction false} FoundAt(s: string, c: char, from: nat, k: nat)
    requires from <= k < |s| && s[k] == c && c !in s[from..k]
    ensures IndexOf(s, c, from) == Some(k)
    decreases k - from
  {
    if from < k {
      assert s[from..k] == [s[from]] + s[from + 1..k];
      FoundAt(s, c, from + 1, k);
    }
  }

  lemma {:induction false} NotFound(s: string, c: char, from: nat)
    requires from <= |s| && c !in s[from..]
    ensures IndexOf(s, c, from) == None
    decreases |s| - from
  {
    if from < |s| {
      assert s[from..] == [s[from]] + s[from + 1..];
      NotFound(s, c, from + 1);
    }
  }

  function Replace(s: string, a: char, b: char): (r: string)
    ensures |r| == |s| && forall i :: 0 <= i < |s| ==> r[i] == if s[i] == a then b else s[i]
  {
    seq(|s|, i requires 0 <= i < |s| => if s[i] == a then b else s[i])
  }

  lemma ReplaceBack(s: string, a: char, b: char)
    requires b !in s
    ensures Replace(Replace(s, a, b), b, a) == s
  {
  }

  lemma Replaced(s: string, a: char, b: char, c: char)
    requires a != b
    ensures a !in Replace(s, a, b)
    ensures c != b && c !in s ==> c !in Replace(s, a, b)
  {
    var r := Replace(s, a, b);
    if c != b && c in r {
      var i :| 0 <= i < |r| && r[i] == c;
      assert s[i] in s;
    }
  }

  // ----- numbers in strings

  function Decimal(n: nat): (s: string)
    ensures s != []
  {
    if n < 10 then ['0' + n as char] else Decimal(n / 10) + ['0' + (n % 10) as char]
  }

  predicate IsDigit(c: char) {
    '0' <= c <= '9'
  }

  /** StringUtils_digitsToInt: -1 if there is anything but digits, None if the running value leaves the int range
      first, which C does not define. */
  function DigitsToInt(s: string): (r: Option<int>)
    ensures r.Some? ==> -1 <= r.value <= INT_MAX
  {
    if s == [] then Some(0)
    else
      var before, c := DigitsToInt(s[..|s| - 1]), s[|s| - 1];
      if before.None? || before.value < 0 then before
      else if before.value * 10 > INT_MAX then None
      else if !IsDigit(c) then Some(-1)
      else
        var v := before.value * 10 + (c as int - '0' as int);
        if v > INT_MAX then None else Some(v)
  }

  lemma {:induction false} DecimalRead(n: nat)
    requires n <= INT_MAX
    ensures DigitsToInt(Decimal(n)) == Some(n)
    ensures forall c :: c in Decimal(n) ==> IsDigit(c)
  {
    var s := Decimal(n);
    if n >= 10 {
      DecimalRead(n / 10);
      assert s[..|s| - 1] == Decimal(n / 10);
    } else {
      assert s[..0] == [];
    }
  }

  method StringDigitsToInt(s: string) returns (r: Option<int>)
    ensures r == DigitsToInt(s)
  {
    var value, i := 0, 0;
    while i < |s|
      invariant 0 <= i <= |s| && 0 <= value <= INT_MAX && DigitsToInt(s[..i]) == Some(value)
    {
      assert s[..i + 1][..i] == s[..i];
      if value * 10 > INT_MAX {
        DigitsStuck(s, i + 1);
        return None;
      }
      value := value * 10;
      if !IsDigit(s[i]) {
        DigitsStuck(s, i + 1);
        return Some(-1);
      }
      if value + (s[i] as int - '0' as int) > INT_MAX {
        DigitsStuck(s, i + 1);
        return None;
      }
      value := value + (s[i] as int - '0' as int);
      i := i + 1;
    }
    assert s[..i] == s;
    return Some(value);
  }

  lemma {:induction false} DigitsStuck(s: string, i: nat)
    requires i <= |s| && (DigitsToInt(s[..i]).None? || DigitsToInt(s[..i]).value < 0)
    ensures DigitsToInt(s) == DigitsToInt(s[..i])
    decreases |s| - i
  {
    if i < |s| {
      assert s[..i + 1][..i] == s[..i];
      DigitsStuck(s, i + 1);
    } else {
      assert s[..i] == s;
    }
  }

  /** getNumberOfDigits. */
  method NumberOfDigits(value: nat) returns (n: nat)
    ensures n == |Decimal(value)|
  {
    n := 1;
    var v := value;
    while v > 9
      invariant v >= 0 && n - 1 + |Decimal(v)| == |Decimal(value)|
    {
      n := n + 1;
      v := v / 10;
    }
  }

  // ----- access specifications

  /** domainId, itemId (None is NULL), the array index or -1, and the component name. */
  datatype AccessSpec = AccessSpec(domainId: string, itemId: Option<string>, arrayIndex: int,
                                   componentName: Option<string>)

  /** MmsMapping_createMmsVariableNameFromObjectReference with a known constraint: the first dot becomes the
      constraint between dollar signs, the others dollar signs. */
  function MmsName(s: string, fc: string): (r: string) {
    match IndexOf(s, '.', 0)
    case None => s + "$" + fc
    case Some(k) => s[..k] + "$" + fc + "$" + Replace(s[k + 1..], '.', '$')
  }

  function VariableName(s: string, fc: FunctionalConstraint): (r: Option<string>) {
    if |s| > 129 then None
    else
      var slash := IndexOf(s, '/', 0);
      var i := if slash.None? then |s| else slash.value;
      if i > 64 then None
      else
        var name := if slash.None? then s else s[slash.value + 1..];
        if fc == NoConstraint then Some(if |name| > 64 then name[..64] else name)
        else if |name| - 1 > 61 then None
        else Some(MmsName(name, FcText(fc)))
  }

  /** What the parser does with a reference.  Undefined stands for the inputs on which the C code runs out of bounds:
      an item of more than 128 characters, an index without closing parenthesis or beyond the int range. */
  datatype Parsed = Rejected | Undefined | Accepted(spec: AccessSpec)

  /** MmsMapping_ObjectReferenceToVariableAccessSpec. */
  function Parse(ref: string): (r: Parsed) {
    match IndexOf(ref, '/', 0)
    case None => Rejected
    case Some(slash) =>
      if slash > 64 then Rejected
      else
        match IndexOf(ref, '[', 0)
        case None => Rejected
        case Some(fcStart) =>
          match IndexOf(ref, ']', fcStart)
          case None => Rejected
          case Some(fcEnd) =>
            if fcEnd - fcStart != 3 then Rejected
            else ParseItem(ref, slash, FcFrom(ref[fcStart + 1], ref[fcStart + 2]))
  }

  function ParseItem(ref: string, slash: nat, fc: FunctionalConstraint): (r: Parsed)
    requires slash < |ref| && ref[slash] == '/'
  {
    var brace := IndexOf(ref, '(', slash);
    var itemEnd := if brace.Some? then brace else IndexOf(ref, '[', slash);
    if itemEnd.None? then Accepted(AccessSpec(ref[..slash], None, -1, None))
    else if itemEnd.value - slash - 1 > 128 then Undefined
    else
      var itemId := VariableName(ref[slash + 1..itemEnd.value], fc);
      if brace.None? then Accepted(AccessSpec(ref[..slash], itemId, -1, None))
      else ParseIndex(ref, ref[..slash], itemId, brace.value + 1)
  }

  function ParseIndex(ref: string, domainId: string, itemId: Option<string>, start: nat): (r: Parsed)
    requires start <= |ref|
  {
    match IndexOf(ref, ')', start)
    case None => Undefined
    case Some(end) =>
      match DigitsToInt(ref[start..end])
      case None => Undefined
      case Some(index) =>
        var n := |ref| - (end + 2) - 4;
        Accepted(AccessSpec(domainId, itemId, index, if n > 0 then Some(Replace(ref[end + 2..end + 2 + n], '.', '$'))
            else None))
  }

  /** A specification the printer can be given: its item has a first dollar sign and two characters behind it. */
  predicate Printable(v: AccessSpec) {
    && v.itemId.Some? && v.arrayIndex <= INT_MAX
    && IndexOf(v.itemId.value, '$', 0).Some? && IndexOf(v.itemId.value, '$', 0).value + 2 < |v.itemId.value|
  }

  function IndexText(index: int): (s: string) {
    if index > -1 then "(" + Decimal(index) + ")" else ""
  }

  function ComponentText(component: Option<string>): (s: string) {
    match component case None => "" case Some(c) => "." + Replace(c, '$', '.')
  }

  function RestOf(item: string, separator: nat): (s: string) {
    if separator + 4 <= |item| then item[separator + 4..] else ""
  }

  /** MmsMapping_varAccessSpecToObjectReference. */
  function Print(v: AccessSpec): (s: string)
    requires Printable(v)
  {
    var item := v.itemId.value;
    var k := IndexOf(item, '$', 0).value;
    v.domainId + "/" + item[..k] + "." + Replace(RestOf(item, k), '$', '.') + IndexText(v.arrayIndex)
    + ComponentText(v.componentName) + "[" + [item[k + 1], item[k + 2]] + "]"
  }

  // ----- references in canonical form

  /** The parts of a reference; names and component are written with dots. */
  datatype Parts = Parts(domain: string, node: string, names: string, index: Option<nat>, component: Option<string>,
                         fc: FunctionalConstraint)

  predicate Free(s: string, cs: string) {
    forall c :: c in cs ==> c !in s
  }

  /** Parts whose characters cannot be mistaken for punctuation.  A component needs an index and a character. */
  predicate Clean(p: Parts) {
    && Free(p.domain, "/[") && Free(p.node, "$.[(/") && Free(p.names, "$[(/")
    && (p.index.Some? ==> p.index.value <= INT_MAX)
    && (p.component.Some? ==> p.index.Some? && Free(p.component.value, "$[") && p.component.value != "")
    && p.fc != NoConstraint
  }

  function Item(p: Parts): (s: string) {
    p.node + "." + p.names
  }

  function Suffix(p: Parts): (s: string) {
    IndexText(if p.index.Some? then p.index.value else -1) + (if p.component.Some? then "." + p.component.value else "")
  }

  /** The text of a reference. */
  function Render(p: Parts): (s: string) {
    p.domain + "/" + Item(p) + Suffix(p) + "[" + FcText(p.fc) + "]"
  }

  /** The specification it stands for. */
  function SpecOf(p: Parts): (v: AccessSpec) {
    AccessSpec(p.domain, Some(p.node + "$" + FcText(p.fc) + "$" + Replace(p.names, '.', '$')),
               if p.index.Some? then p.index.value else -1,
               if p.component.Some? then Some(Replace(p.component.value, '.', '$')) else None)
  }

  /** The item of a specification, taken apart at its first dollar sign. */
  lemma SpecItem(p: Parts)
    requires Clean(p)
    ensures var item, k := SpecOf(p).itemId.value, |p.node|;
            && k + 3 < |item| && IndexOf(item, '$', 0) == Some(k) && item[..k] == p.node
            && [item[k + 1], item[k + 2]] == FcText(p.fc) && RestOf(item, k) == Replace(p.names, '.', '$')
  {
    hide IndexOf, FcText, Replace;
    var item, fc, k := SpecOf(p).itemId.value, FcText(p.fc), |p.node|;
    assert item[..k] == p.node && item[k] == '$' && item[k + 1..k + 3] == fc
        && item[k + 4..] == Replace(p.names, '.', '$');
    assert '$' !in p.node by { assert '$' in "$.[(/"; }
    FoundAt(item, '$', 0, k);
  }

  lemma SpecTexts(p: Parts)
    requires Clean(p)
    ensures Replace(Replace(p.names, '.', '$'), '$', '.') == p.names
    ensures IndexText(SpecOf(p).arrayIndex) + ComponentText(SpecOf(p).componentName) == Suffix(p)
  {
    hide IndexText;
    assert '$' !in p.names by { assert '$' in "$[(/"; }
    ReplaceBack(p.names, '.', '$');
    if p.component.Some? {
      assert '$' !in p.component.value by { assert '$' in "$["; }
      ReplaceBack(p.component.value, '.', '$');
    }
  }

  /** The printer writes that text for it. */
  lemma PrintsRender(p: Parts)
    requires Clean(p)
    ensures Printable(SpecOf(p)) && Print(SpecOf(p)) == Render(p)
  {
    SpecItem(p);
    SpecTexts(p);
    IndexInRange(p);
    hide IndexOf, FcText, IndexText, ComponentText, Replace, RestOf, Suffix, Clean;
    var v, k := SpecOf(p), |p.node|;
    Regroup(p.domain + "/" + p.node + "." + p.names, IndexText(v.arrayIndex), ComponentText(v.componentName), "[",
        FcText(p.fc));
    assert p.domain + "/" + p.node + "." + p.names == p.domain + "/" + Item(p);
  }

  lemma IndexInRange(p: Parts)
    requires Clean(p)
    ensures SpecOf(p).arrayIndex <= INT_MAX
  {
  }

  lemma Regroup(a: string, b: string, c: string, d: string, e: string)
    ensures a + b + c + d + e + "]" == a + (b + c) + d + e + "]"
  {
    assert a + b + c == a + (b + c);
  }

  /** Where the parts of a reference are: the item ends at e, the suffix at f. */
  lemma RenderedAt(p: Parts)
    requires p.fc != NoConstraint
    ensures var ref, d := Render(p), |p.domain|; var e := d + 1 + |Item(p)|; var f := e + |Suffix(p)|;
            && |ref| == f + 4 && ref[..d] == p.domain && ref[d] == '/' && ref[d + 1..e] == Item(p)
               && ref[e..f] == Suffix(p)
            && ref[f..f + 3] == "[" + FcText(p.fc) && ref[f + 3] == ']'
  {
    hide FcText, Suffix, Item;
    var ref, d := Render(p), |p.domain|;
    var e := d + 1 + |Item(p)|;
    var f := e + |Suffix(p)|;
    assert ref == (p.domain + "/" + Item(p)) + (Suffix(p) + "[" + FcText(p.fc) + "]");
    assert ref[f..] == "[" + FcText(p.fc) + "]";
  }

  lemma SuffixFree(p: Parts)
    requires Clean(p)
    ensures '[' !in Suffix(p)
    ensures p.index.None? ==> Suffix(p) == ""
  {
    if p.index.Some? {
      DecimalRead(p.index.value);
    }
    if p.component.Some? {
      assert '[' !in p.component.value by { assert '[' in "$["; }
    }
  }

  lemma ItemFree(p: Parts)
    requires Clean(p)
    ensures '[' !in Item(p) && '(' !in Item(p) && '/' !in Item(p) && '.' !in p.node && '/' !in p.domain
            && '[' !in p.domain
  {
    assert '[' in "$.[(/" && '(' in "$.[(/" && '/' in "$.[(/" && '.' in "$.[(/";
    assert '[' in "$[(/" && '(' in "$[(/" && '/' in "$[(/";
    assert '/' in "/[" && '[' in "/[";
  }

  /** The parser finds the domain and the constraint. */
  lemma OuterFound(p: Parts)
    requires Clean(p)
    ensures Parse(Render(p)) ==
            if |p.domain| > 64 then Rejected else ParseItem(Render(p), |p.domain|, p.fc)
  {
    hide ParseItem, Suffix, Item, FcText, IndexOf, FcFrom, Render;
    var ref, d := Render(p), |p.domain|;
    var e := d + 1 + |Item(p)|;
    var f := e + |Suffix(p)|;
    RenderedAt(p);
    ItemFree(p);
    SuffixFree(p);
    FoundAt(ref, '/', 0, d);
    assert ref[..f] == p.domain + "/" + Item(p) + Suffix(p);
    assert ref[f] == ref[f..f + 3][0] && ref[f + 1] == ref[f..f + 3][1] && ref[f + 2] == ref[f..f + 3][2];
    FoundAt(ref, '[', 0, f);
    FcRoundTrip(p.fc, 'A', 'A');
    FoundAt(ref, ']', f, f + 3);
  }

  /** The item becomes the MMS name, if it has at most 62 characters. */
  lemma ItemNamed(p: Parts)
    requires Clean(p)
    ensures VariableName(Item(p), p.fc) ==
            if |Item(p)| > 62 then None else Some(p.node + "$" + FcText(p.fc) + "$" + Replace(p.names, '.', '$'))
  {
    hide FcText, IndexOf;
    ItemFree(p);
    var item, k := Item(p), |p.node|;
    NotFound(item, '/', 0);
    assert item[..k] == p.node && item[k] == '.' && item[k + 1..] == p.names;
    FoundAt(item, '.', 0, k);
  }

  lemma SuffixParts(p: Parts)
    requires p.index.Some?
    ensures var t, dec := Suffix(p), Decimal(p.index.value); var n := |dec|;
            && |t| == n + 2 + (if p.component.Some? then 1 + |p.component.value| else 0)
            && t[1..1 + n] == dec && t[1 + n] == ')' && (p.component.Some? ==> t[n + 3..] == p.component.value)
  {
    hide Decimal;
  }

  lemma SliceOfSlice(s: string, lo: nat, hi: nat, a: nat, b: nat)
    requires lo <= hi <= |s| && a <= b <= hi - lo
    ensures s[lo..hi][a..b] == s[lo + a..lo + b]
  {
    var t, u := s[lo..hi][a..b], s[lo + a..lo + b];
    assert |t| == |u| == b - a;
    forall i | 0 <= i < b - a ensures t[i] == u[i] {
      assert t[i] == s[lo..hi][a + i] == s[lo + (a + i)];
    }
  }

  lemma IndexFound(p: Parts, itemId: Option<string>)
    requires Clean(p) && p.index.Some?
    ensures var e := |p.domain| + 1 + |Item(p)|;
            e + 1 <= |Render(p)| && ParseIndex(Render(p), p.domain, itemId, e + 1) ==
                Accepted(SpecOf(p).(itemId := itemId))
  {
    hide Item, Suffix, FcText, IndexOf, Render, Decimal, DigitsToInt, Free;
    var ref, e, n := Render(p), |p.domain| + 1 + |Item(p)|, |Decimal(p.index.value)|;
    var f, end := e + |Suffix(p)|, e + 1 + n;
    RenderedAt(p);
    SuffixParts(p);
    DecimalRead(p.index.value);
    SliceOfSlice(ref, e, f, 1, 1 + n);
    assert ref[end] == ref[e..f][1 + n];
    FoundAt(ref, ')', e + 1, end);
    if p.component.Some? {
      SliceOfSlice(ref, e, f, n + 3, f - e);
    }
  }

  /** What the parser makes of a reference in canonical form, whatever the lengths of its parts. */
  lemma ParsesRender(p: Parts)
    requires Clean(p)
    ensures Parse(Render(p)) ==
            if |p.domain| > 64 then Rejected
            else if |Item(p)| > 128 then Undefined
            else Accepted(if |Item(p)| > 62 then SpecOf(p).(itemId := None) else SpecOf(p))
  {
    hide Parse, ParseIndex, Suffix, Item, FcText, IndexOf, Render, VariableName;
    var ref, d := Render(p), |p.domain|;
    var e := d + 1 + |Item(p)|;
    var f := e + |Suffix(p)|;
    OuterFound(p);
    RenderedAt(p);
    ItemFree(p);
    SuffixFree(p);
    ItemNamed(p);
    assert ref[d..e] == "/" + Item(p);
    if p.index.Some? {
      assert ref[e] == ref[e..f][0] == '(' by { SuffixStarts(p); }
      FoundAt(ref, '(', d, e);
      IndexFound(p, VariableName(Item(p), p.fc));
    } else {
      FcRoundTrip(p.fc, 'A', 'A');
      assert e == f && ref[e] == ref[f..f + 3][0] == '[';
      assert ref[d..] == ref[d..e] + ref[f..f + 3] + [ref[f + 3]];
      assert '(' !in ref[d..e] && '(' !in ref[f..f + 3];
      NotFound(ref, '(', d);
      FoundAt(ref, '[', d, e);
    }
  }

  lemma SuffixStarts(p: Parts)
    requires p.index.Some?
    ensures Suffix(p) != "" && Suffix(p)[0] == '('
  {
  }

  /** Text in canonical form survives parsing and printing exactly when its domain has at most 64 characters and its
      item at most 62. */
  lemma TextRoundTrip(p: Parts)
    requires Clean(p)
    ensures var r := Parse(Render(p));
            (r.Accepted? && Printable(r.spec) && Print(r.spec) == Render(p)) <==> |p.domain| <= 64 && |Item(p)| <= 62
  {
    hide Parse, Print, Render, Item;
    ParsesRender(p);
    PrintsRender(p);
  }

  // ----- specifications in canonical form

  /** A specification with a known constraint followed by a dollar sign, whose names hold no punctuation of the
      reference syntax. */
  predicate Canonical(v: AccessSpec) {
    && Printable(v)
    && var item := v.itemId.value; var k := IndexOf(item, '$', 0).value;
    && k + 3 < |item| && item[k + 3] == '$' && FcFrom(item[k + 1], item[k + 2]) != NoConstraint
    && Free(v.domainId, "/[") && Free(item[..k], ".[(/") && Free(item[k + 4..], ".[(/")
    && v.arrayIndex >= -1
    && (v.componentName.Some? ==> v.arrayIndex >= 0 && Free(v.componentName.value, ".[") && v.componentName.value != "")
  }

  function PartsOf(v: AccessSpec): (p: Parts)
    requires Canonical(v)
  {
    var item := v.itemId.value;
    var k := IndexOf(item, '$', 0).value;
    Parts(v.domainId, item[..k], Replace(item[k + 4..], '$', '.'),
          if v.arrayIndex >= 0 then Some(v.arrayIndex) else None,
          if v.componentName.Some? then Some(Replace(v.componentName.value, '$', '.')) else None,
          FcFrom(item[k + 1], item[k + 2]))
  }

  lemma FreeReplaced(s: string)
    requires Free(s, ".[(/")
    ensures Free(Replace(s, '$', '.'), "$[(/") && Replace(Replace(s, '$', '.'), '.', '$') == s
  {
    assert '.' in ".[(/" && '[' in ".[(/" && '(' in ".[(/" && '/' in ".[(/";
    Replaced(s, '$', '.', '[');
    Replaced(s, '$', '.', '(');
    Replaced(s, '$', '.', '/');
    ReplaceBack(s, '$', '.');
  }

  lemma FreeComponent(s: string)
    requires Free(s, ".[")
    ensures Free(Replace(s, '$', '.'), "$[") && Replace(Replace(s, '$', '.'), '.', '$') == s
  {
    assert '.' in ".[" && '[' in ".[";
    Replaced(s, '$', '.', '[');
    ReplaceBack(s, '$', '.');
  }

  lemma FreeNode(s: string)
    requires '$' !in s && Free(s, ".[(/")
    ensures Free(s, "$.[(/")
  {
    assert '.' in ".[(/" && '[' in ".[(/" && '(' in ".[(/" && '/' in ".[(/";
  }

  lemma PartsClean(v: AccessSpec)
    requires Canonical(v)
    ensures Clean(PartsOf(v)) && SpecOf(PartsOf(v)) == v
    ensures |Item(PartsOf(v))| == |v.itemId.value| - 3
  {
    hide FcText, FcFrom, Free, IndexOf, Replace;
    var item := v.itemId.value;
    var k := IndexOf(item, '$', 0).value;
    var p := PartsOf(v);
    assert item[0..k] == item[..k];
    FreeNode(item[..k]);
    FreeReplaced(item[k + 4..]);
    if v.componentName.Some? {
      FreeComponent(v.componentName.value);
    }
    FcRoundTrip(ST, item[k + 1], item[k + 2]);
    assert item == item[..k] + "$" + [item[k + 1], item[k + 2]] + "$" + item[k + 4..];
  }

  /** Printing and parsing gives a specification back exactly when its domain has at most 64 characters and its item
      at most 65. */
  lemma SpecRoundTrip(v: AccessSpec)
    requires Canonical(v)
    ensures Parse(Print(v)) == Accepted(v) <==> |v.domainId| <= 64 && |v.itemId.value| <= 65
  {
    hide Parse, Print, Render, Item, SpecOf, Clean;
    PartsClean(v);
    var p := PartsOf(v);
    PrintsRender(p);
    ParsesRender(p);
    assert p.domain == v.domainId;
  }

  /** A specification that ends with the constraint prints like the one with an empty name behind it, so it never comes
      back: its item has grown by a dollar sign if its parts are short enough to be accepted, and is lost if not. */
  lemma BareConstraint(p: Parts)
    requires Clean(p) && p.names == ""
    ensures var v := SpecOf(p).(itemId := Some(p.node + "$" + FcText(p.fc)));
            && Printable(v) && Print(v) == Render(p) && Parse(Print(v)) != Accepted(v)
            && (|p.domain| <= 64 && |p.node| <= 61 ==>
                 Parse(Print(v)) == Accepted(v.(itemId := Some(v.itemId.value + "$"))))
  {
    SpecItem(p);
    IndexInRange(p);
    PrintsRender(p);
    ParsesRender(p);
    hide IndexOf, FcText, IndexText, ComponentText, Render, Parse;
    var item, k := p.node + "$" + FcText(p.fc), |p.node|;
    assert SpecOf(p).itemId.value == item + "$";
    assert item[..k] == p.node && item[k] == '$';
    assert '$' !in p.node by { assert '$' in "$.[(/"; }
    FoundAt(item, '$', 0, k);
  }

  // ----- the code that works on buffers

  /** strchr: the first c at or behind from. */
  method Strchr(s: string, c: char, from: nat) returns (r: Option<nat>)
    requires from <= |s|
    ensures r == IndexOf(s, c, from)
  {
    hide IndexOf;
    var i := from;
    while i < |s|
      invariant from <= i <= |s| && c !in s[from..i]
    {
      if s[i] == c {
        FoundAt(s, c, from, i);
        return Some(i);
      }
      assert s[from..i + 1] == s[from..i] + [s[i]];
      i := i + 1;
    }
    assert s[from..i] == s[from..];
    NotFound(s, c, from);
    return None;
  }

  /** What the name loop has written after n characters. */
  function NamePrefix(s: string, fc: string, n: nat): (r: string)
    requires n <= |s|
    decreases n
  {
    if n == 0 then ""
    else
      NamePrefix(s, fc, n - 1) +
      (if s[n - 1] != '.' then [s[n - 1]] else if '.' in s[..n - 1] then "$" else "$" + fc + "$")
  }

  lemma {:induction false} PrefixPlain(s: string, fc: string, n: nat)
    requires n <= |s| && '.' !in s[..n]
    ensures NamePrefix(s, fc, n) == s[..n]
  {
    if n > 0 {
      assert s[..n] == s[..n - 1] + [s[n - 1]];
      PrefixPlain(s, fc, n - 1);
    }
  }

  lemma {:induction false} PrefixDotted(s: string, fc: string, k: nat, n: nat)
    requires k < n <= |s| && s[k] == '.' && '.' !in s[..k]
    ensures NamePrefix(s, fc, n) == s[..k] + "$" + fc + "$" + Replace(s[k + 1..n], '.', '$')
  {
    if n == k + 1 {
      PrefixPlain(s, fc, k);
      assert Replace(s[k + 1..n], '.', '$') == "";
    } else {
      PrefixDotted(s, fc, k, n - 1);
      assert s[k] in s[..n - 1];
      assert s[k + 1..n] == s[k + 1..n - 1] + [s[n - 1]];
      assert Replace(s[k + 1..n], '.', '$') ==
             Replace(s[k + 1..n - 1], '.', '$') + [if s[n - 1] == '.' then '$' else s[n - 1]];
    }
  }

  lemma NameWritten(s: string, fc: string)
    ensures MmsName(s, fc) == NamePrefix(s, fc, |s|) + if '.' in s then "" else "$" + fc
  {
    hide IndexOf, NamePrefix;
    assert s[..|s|] == s && s[0..] == s;
    var r := IndexOf(s, '.', 0);
    if r.None? {
      PrefixPlain(s, fc, |s|);
    } else {
      var k := r.value;
      assert s[k] in s && s[0..k] == s[..k];
      PrefixDotted(s, fc, k, |s|);
    }
  }

  /** The buffer of createMmsVariableNameFromObjectReference: with its terminator the name fills it exactly. */
  method WriteMmsName(s: string, fc: string) returns (buffer: array<char>, destIndex: nat)
    requires |fc| == 2
    ensures fresh(buffer) && buffer.Length == |s| - 1 + 5 && destIndex + 1 == buffer.Length
    ensures buffer[..destIndex] == MmsName(s, fc) && buffer[destIndex] == 0 as char
  {
    hide IndexOf, MmsName;
    buffer := new char[|s| - 1 + 5];
    var sourceIndex, fcAdded := 0, false;
    destIndex := 0;
    while sourceIndex < |s|
      invariant 0 <= sourceIndex <= |s| && (fcAdded <==> '.' in s[..sourceIndex])
      invariant destIndex == sourceIndex + if fcAdded then 3 else 0
      invariant buffer[..destIndex] == NamePrefix(s, fc, sourceIndex)
    {
      assert s[..sourceIndex + 1] == s[..sourceIndex] + [s[sourceIndex]];
      if s[sourceIndex] != '.' {
        destIndex := Append(buffer, destIndex, [s[sourceIndex]]);
      } else if !fcAdded {
        destIndex := Append(buffer, destIndex, "$" + fc + "$");
        fcAdded := true;
      } else {
        destIndex := Append(buffer, destIndex, "$");
      }
      sourceIndex := sourceIndex + 1;
    }
    assert s[..sourceIndex] == s;
    NameWritten(s, fc);
    if !fcAdded {
      destIndex := Append(buffer, destIndex, "$" + fc);
    }
    buffer[destIndex] := 0 as char;
  }

  /** Characters stored one by one from pos on. */
  method Append(buffer: array<char>, pos: nat, s: string) returns (end: nat)
    requires pos + |s| <= buffer.Length
    modifies buffer
    ensures end == pos + |s| && buffer[..end] == old(buffer[..pos]) + s
  {
    var i := 0;
    while i < |s|
      invariant 0 <= i <= |s| && buffer[..pos + i] == old(buffer[..pos]) + s[..i]
    {
      buffer[pos + i] := s[i];
      i := i + 1;
    }
    assert s[..i] == s;
    end := pos + i;
  }

  /** The loops of the printer that turn dollar signs into dots. */
  method AppendDotted(buffer: array<char>, pos: nat, s: string) returns (end: nat)
    requires pos + |s| <= buffer.Length
    modifies buffer
    ensures end == pos + |s| && buffer[..end] == old(buffer[..pos]) + Replace(s, '$', '.')
  {
    var i := 0;
    while i < |s|
      invariant 0 <= i <= |s| && buffer[..pos + i] == old(buffer[..pos]) + Replace(s, '$', '.')[..i]
    {
      buffer[pos + i] := if s[i] == '$' then '.' else s[i];
      i := i + 1;
    }
    assert Replace(s, '$', '.')[..i] == Replace(s, '$', '.');
    end := pos + i;
  }

  /** createMmsVariableNameFromObjectReference. */
  method CreateMmsVariableName(s: string, fc: FunctionalConstraint) returns (r: Option<string>)
    ensures r == VariableName(s, fc)
  {
    hide IndexOf, MmsName, FcText;
    if |s| > 129 {
      return None;
    }
    var slash := Strchr(s, '/', 0);
    var i := if slash.None? then |s| else slash.value;
    if i > 64 {
      return None;
    }
    i := if i == |s| then 0 else i + 1;
    var name := s[i..];
    if fc == NoConstraint {
      return Some(if |name| > 64 then name[..64] else name);
    }
    if |s| - i - 1 > 61 {
      return None;
    }
    var buffer, n := WriteMmsName(name, FcText(fc));
    return Some(buffer[..n]);
  }

  /** MmsMapping_ObjectReferenceToVariableAccessSpec. */
  method ObjectReferenceToVariableAccessSpec(ref: string) returns (r: Parsed)
    ensures r == Parse(ref)
  {
    hide IndexOf, FcFrom, ParseItem;
    var slash := Strchr(ref, '/', 0);
    if slash.None? || slash.value > 64 {
      return Rejected;
    }
    var fcStart := Strchr(ref, '[', 0);
    if fcStart.None? {
      return Rejected;
    }
    var fcEnd := Strchr(ref, ']', fcStart.value);
    if fcEnd.None? || fcEnd.value - fcStart.value != 3 {
      return Rejected;
    }
    r := ItemToAccessSpec(ref, slash.value, FcFrom(ref[fcStart.value + 1], ref[fcStart.value + 2]));
  }

  method ItemToAccessSpec(ref: string, slash: nat, fc: FunctionalConstraint) returns (r: Parsed)
    requires slash < |ref| && ref[slash] == '/'
    ensures r == ParseItem(ref, slash, fc)
  {
    hide IndexOf, VariableName, DigitsToInt;
    var indexBrace := Strchr(ref, '(', slash);
    var itemIdEnd := indexBrace;
    if itemIdEnd.None? {
      itemIdEnd := Strchr(ref, '[', slash);
    }
    if itemIdEnd.None? {
      return Accepted(AccessSpec(ref[..slash], None, -1, None));
    }
    if itemIdEnd.value - slash - 1 > 128 {
      return Undefined;
    }
    var itemId := CreateMmsVariableName(ref[slash + 1..itemIdEnd.value], fc);
    if indexBrace.None? {
      return Accepted(AccessSpec(ref[..slash], itemId, -1, None));
    }
    var indexStart := indexBrace.value + 1;
    var indexEnd := Strchr(ref, ')', indexStart);
    if indexEnd.None? {
      return Undefined;
    }
    var index := StringDigitsToInt(ref[indexStart..indexEnd.value]);
    if index.None? {
      return Undefined;
    }
    var componentNameLen := |ref| - (indexEnd.value + 2) - 4;
    var componentName := None;
    if componentNameLen > 0 {
      componentName := Some(Replace(ref[indexEnd.value + 2..indexEnd.value + 2 + componentNameLen], '.', '$'));
    }
    return Accepted(AccessSpec(ref[..slash], itemId, index.value, componentName));
  }

  /** The size of the buffer the printer allocates. */
  function Allocated(v: AccessSpec): (n: int)
    requires v.itemId.Some?
  {
    |v.domainId| + 1 + (|v.itemId.value| - 2) + |IndexText(v.arrayIndex)| + 4
    + (if v.componentName.Some? then |v.componentName.value| else 0) + 1
  }

  /** Text and terminator fit the allocation exactly when there is no component or the item goes on behind the
      constraint; for a canonical specification they leave one character unused, or none if there is a component. */
  lemma AllocationExact(v: AccessSpec)
    requires Printable(v)
    ensures var k := IndexOf(v.itemId.value, '$', 0).value;
            |Print(v)| + 1 <= Allocated(v) <==> v.componentName.None? || k + 4 <= |v.itemId.value|
    ensures Canonical(v) ==> |Print(v)| + 1 + (if v.componentName.None? then 1 else 0) == Allocated(v)
  {
    hide IndexOf, IndexText, FcFrom, Free;
  }

  function HeadText(v: AccessSpec, k: nat): (s: string)
    requires v.itemId.Some? && k <= |v.itemId.value|
  {
    v.domainId + "/" + v.itemId.value[..k] + "." + Replace(RestOf(v.itemId.value, k), '$', '.')
  }

  /** The domain and the item, up to the array index. */
  method WriteHead(v: AccessSpec, k: nat, buffer: array<char>) returns (length: nat)
    requires v.itemId.Some? && k <= |v.itemId.value| && |HeadText(v, k)| <= buffer.Length
    modifies buffer
    ensures length == |HeadText(v, k)| && buffer[..length] == HeadText(v, k)
  {
    hide Replace;
    length := Append(buffer, 0, v.domainId + "/");
    length := Append(buffer, length, v.itemId.value[..k] + ".");
    assert v.domainId + "/" + (v.itemId.value[..k] + ".") == v.domainId + "/" + v.itemId.value[..k] + ".";
    length := AppendDotted(buffer, length, RestOf(v.itemId.value, k));
  }

  /** The array index and the component, if there are any. */
  method WriteSuffix(v: AccessSpec, buffer: array<char>, pos: nat) returns (length: nat)
    requires pos + |IndexText(v.arrayIndex)| + |ComponentText(v.componentName)| <= buffer.Length
    modifies buffer
    ensures length == pos + |IndexText(v.arrayIndex)| + |ComponentText(v.componentName)|
    ensures buffer[..length] == old(buffer[..pos]) + IndexText(v.arrayIndex) + ComponentText(v.componentName)
  {
    hide IndexText, ComponentText;
    length := WriteIndex(v.arrayIndex, buffer, pos);
    length := WriteComponent(v.componentName, buffer, length);
  }

  lemma Joined(a: string, b: string, c: string)
    ensures a + b + c == a + (b + c)
  {
  }

  method WriteIndex(index: int, buffer: array<char>, pos: nat) returns (length: nat)
    requires pos + |IndexText(index)| <= buffer.Length
    modifies buffer
    ensures length == pos + |IndexText(index)| && buffer[..length] == old(buffer[..pos]) + IndexText(index)
  {
    hide Decimal;
    length := pos;
    if index > -1 {
      length := Append(buffer, length, "(" + Decimal(index) + ")");
    } else {
      assert buffer[..pos] + "" == buffer[..pos];
    }
  }

  method WriteComponent(component: Option<string>, buffer: array<char>, pos: nat) returns (length: nat)
    requires pos + |ComponentText(component)| <= buffer.Length
    modifies buffer
    ensures length == pos + |ComponentText(component)|
            && buffer[..length] == old(buffer[..pos]) + ComponentText(component)
  {
    hide Replace;
    ghost var before := buffer[..pos];
    length := pos;
    if component.Some? {
      length := Append(buffer, length, ".");
      length := AppendDotted(buffer, length, component.value);
      Joined(before, ".", Replace(component.value, '$', '.'));
    } else {
      assert before + "" == before;
    }
  }

  /** MmsMapping_varAccessSpecToObjectReference.  By AllocationExact, a component behind an item that ends with its
      constraint, and nothing else, would be written past the allocation. */
  method VarAccessSpecToObjectReference(v: AccessSpec) returns (buffer: array<char>, length: nat)
    requires Printable(v) && (v.componentName.None? || IndexOf(v.itemId.value, '$', 0).value + 4 <= |v.itemId.value|)
    ensures fresh(buffer) && buffer.Length == Allocated(v)
    ensures length == |Print(v)| < buffer.Length && buffer[..length] == Print(v) && buffer[length] == 0 as char
  {
    hide IndexOf, IndexText, ComponentText, RestOf, Replace;
    AllocationExact(v);
    var item := v.itemId.value;
    var separator := Strchr(item, '$', 0);
    var k := separator.value;
    var arrayIndexLen := 0;
    if v.arrayIndex > -1 {
      var digits := NumberOfDigits(v.arrayIndex);
      arrayIndexLen := 2 + digits;
    }
    IndexTextLength(v.arrayIndex);
    var componentPartLen := if v.componentName.Some? then |v.componentName.value| else 0;
    buffer := new char[(|v.domainId| + 1) + (|item| - 2) + arrayIndexLen + 4 + componentPartLen + 1];
    length := WriteHead(v, k, buffer);
    length := WriteSuffix(v, buffer, length);
    var fc := "[" + [item[k + 1], item[k + 2]] + "]";
    length := Append(buffer, length, fc);
    Grouped(HeadText(v, k) + IndexText(v.arrayIndex) + ComponentText(v.componentName), [item[k + 1], item[k + 2]]);
    buffer[length] := 0 as char;
  }

  lemma IndexTextLength(index: int)
    ensures |IndexText(index)| == if index > -1 then 2 + |Decimal(index)| else 0
  {
  }

  lemma Grouped(a: string, b: string)
    ensures a + ("[" + b + "]") == a + "[" + b + "]"
  {
  }
}
