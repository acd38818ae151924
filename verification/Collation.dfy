/** The collation of object names (string_utilities.cc): the weight table of section 7.5.2 of ISO 9506-2, the string
    comparison built on it, and the insertion sort that relinks the nodes of a list. */
module Collation {

  /** A char of a C string: signed, eight bits wide, never the terminator. */
  type schar = c: int | -128 <= c < 128 && c != 0 witness 1

  type Text = seq<schar>

  // ----- the weight table

  /** The characters that are weighted by their place in the order string. */
  predicate Ordered(c: int) {
    c == 36 || 48 <= c <= 57 || 65 <= c <= 90 || c == 95 || 97 <= c <= 122
  }

  /** The weight of a character: first all others in code order, then the letters in pairs, '$', '_' and the digits.
      What is outside the table weighs its own code. */
  function Weight(c: int): (w: int) {
    if c < 1 || c >= 128 then c
    else if c < 36 then c
    else if c == 36 then 116
    else if c < 48 then c - 1
    else if c <= 57 then 118 + (c - 48)
    else if c < 65 then c - 11
    else if c <= 90 then 64 + 2 * (c - 65)
    else if c < 95 then c - 37
    else if c == 95 then 117
    else if c == 96 then 58
    else if c <= 122 then 65 + 2 * (c - 97)
    else c - 64
  }

  /** Table characters weigh 1 to 127, and no two characters weigh the same; the terminator weighs nothing. */
  lemma WeightBijective(c: int, d: int)
    requires -128 <= c < 128 && -128 <= d < 128
    ensures Weight(c) == Weight(d) <==> c == d
    ensures 1 <= c < 128 <==> 1 <= Weight(c) < 128
    ensures Weight(0) == 0
  {
  }

  /** The order string of the source, in four parts of sixteen characters. */
  function OrderPart(k: nat): (s: string) {
    if k == 0 then "AaBbCcDd" + "EeFfGgHh"
    else if k == 1 then "IiJjKkLl" + "MmNnOoPp"
    else if k == 2 then "QqRrSsTt" + "UuVvWwXx"
    else "YyZz$_01" + "23456789"
  }

  function CharOrder(): (s: string) {
    OrderPart(0) + OrderPart(1) + OrderPart(2) + OrderPart(3)
  }

  /** The character at each place of the order string. */
  function OrderAt(i: nat): (c: int) {
    if i < 52 then (if i % 2 == 0 then 65 else 97) + i / 2 else if i == 52 then 36 else if i == 53 then 95 else i - 6
  }

  lemma LetterParts(i: nat)
    requires i < 16
    ensures |OrderPart(0)| == 16 && OrderPart(0)[i] as int == OrderAt(i)
    ensures |OrderPart(1)| == 16 && OrderPart(1)[i] as int == OrderAt(16 + i)
  {
  }

  lemma OtherParts(i: nat)
    requires i < 16
    ensures |OrderPart(2)| == 16 && OrderPart(2)[i] as int == OrderAt(32 + i)
    ensures |OrderPart(3)| == 16 && OrderPart(3)[i] as int == OrderAt(48 + i)
  {
  }

  lemma OrderText(i: nat)
    requires i < 64
    ensures |CharOrder()| == 64 && CharOrder()[i] as int == OrderAt(i)
  {
    hide OrderAt, OrderPart;
    LetterParts(i % 16);
    OtherParts(i % 16);
  }

  /** The order string lists exactly the ordered characters, and their weights follow it. */
  lemma OrderWeights(i: nat)
    requires i < 64
    ensures Ordered(OrderAt(i)) && Weight(OrderAt(i)) == 64 + i
  {
  }

  /** Where an ordered character stands. */
  function OrderIndex(c: int): (i: nat)
    requires Ordered(c)
    ensures i < 64 && OrderAt(i) == c
  {
    if c == 36 then 52 else if c == 95 then 53 else if c <= 57 then c + 6 else if c <= 90 then 2 * (c - 65)
        else 2 * (c - 97) + 1
  }

  lemma InOrder(c: int)
    requires 1 <= c < 128
    ensures c as char in CharOrder() <==> Ordered(c)
  {
    hide CharOrder, OrderAt;
    OrderText(0);
    if Ordered(c) {
      OrderText(OrderIndex(c));
    }
    if c as char in CharOrder() {
      var i :| 0 <= i < |CharOrder()| && CharOrder()[i] == c as char;
      OrderText(i);
      OrderWeights(i);
    }
  }

  /** The characters of 1 .. c - 1 that are not in the order string. */
  function OthersBelow(c: int): (n: int)
    requires 1 <= c <= 128
  {
    if c == 128 then 63 else if Ordered(c) then (if c == 36 then 35 else if c <= 57 then 46 else if c <= 90 then 53
        else if c == 95 then 57 else 58)
    else Weight(c) - 1
  }

  lemma NextOther(c: int)
    requires 1 <= c < 128
    ensures OthersBelow(c + 1) == OthersBelow(c) + if Ordered(c) then 0 else 1
    ensures !Ordered(c) ==> Weight(c) == OthersBelow(c) + 1
  {
  }

  /** The two loops of getCharWeight that fill the lookup table. */
  method FillTable() returns (table: array<int>)
    ensures fresh(table) && table.Length == 129
    ensures forall c :: 1 <= c < 128 ==> table[c] == Weight(c)
  {
    hide CharOrder, OrderAt, Weight, Ordered, OthersBelow;
    table := new int[129];
    var weight := 1;
    var ltIndex := 1;
    NoneBelowFirst();
    while ltIndex < 128
      invariant 1 <= ltIndex <= 128 && weight == OthersBelow(ltIndex) + 1
      invariant forall c :: 1 <= c < ltIndex && !Ordered(c) ==> table[c] == Weight(c)
    {
      NextOther(ltIndex);
      InOrder(ltIndex);
      if ltIndex as char !in CharOrder() {
        table[ltIndex] := weight;
        weight := weight + 1;
      }
      ltIndex := ltIndex + 1;
    }
    OrderText(0);
    var charIndex := 0;
    while charIndex < |CharOrder()|
      invariant 0 <= charIndex <= |CharOrder()| && weight == 64 + charIndex
      invariant forall c :: 1 <= c < 128 && !Ordered(c) ==> table[c] == Weight(c)
      invariant forall i :: 0 <= i < charIndex ==> 1 <= OrderAt(i) < 128 && table[OrderAt(i)] == Weight(OrderAt(i))
    {
      OrderText(charIndex);
      OrderWeights(charIndex);
      OrderedRange(OrderAt(charIndex));
      table[CharOrder()[charIndex] as int] := weight;
      weight := weight + 1;
      charIndex := charIndex + 1;
    }
    forall c | 1 <= c < 128 ensures table[c] == Weight(c) {
      if Ordered(c) {
        assert OrderAt(OrderIndex(c)) == c;
      }
    }
  }

  lemma NoneBelowFirst()
    ensures OthersBelow(1) == 0 && OthersBelow(128) == 63
  {
  }

  lemma OrderedRange(c: int)
    requires Ordered(c)
    ensures 1 <= c < 128
  {
  }

  // ----- the order of strings

  function CharAt(s: Text, i: nat): (c: int) {
    if i < |s| then s[i] else 0
  }

  /** a comes before b: at the first place where they differ, a has the lighter character. */
  ghost predicate Less(a: Text, b: Text) {
    exists i: nat :: FirstDifference(a, b, i) && Weight(CharAt(a, i)) < Weight(CharAt(b, i))
  }

  predicate FirstDifference(a: Text, b: Text, i: nat) {
    i <= |a| && i <= |b| && a[..i] == b[..i] && CharAt(a, i) != CharAt(b, i)
  }

  lemma SamePrefix(a: Text, b: Text, n: nat)
    requires n <= |a| && n <= |b| && a[..n] == b[..n]
    ensures forall k :: 0 <= k < n ==> a[k] == b[k]
  {
    assert forall k :: 0 <= k < n ==> a[k] == a[..n][k] && b[k] == b[..n][k];
  }

  lemma WholeText(a: Text)
    ensures a[..|a|] == a
  {
  }

  lemma FirstDifferenceUnique(a: Text, b: Text, i: nat, j: nat)
    requires FirstDifference(a, b, i) && FirstDifference(a, b, j)
    ensures i == j
  {
    SamePrefix(a, b, i);
    SamePrefix(a, b, j);
  }

  lemma {:induction false} Differ(a: Text, b: Text, i: nat) returns (j: nat)
    requires i <= |a| && i <= |b| && a[..i] == b[..i] && a != b
    ensures FirstDifference(a, b, j)
    decreases |a| - i
  {
    if i < |a| && i < |b| && a[i] == b[i] {
      assert a[..i + 1] == a[..i] + [a[i]] && b[..i + 1] == b[..i] + [b[i]];
      j := Differ(a, b, i + 1);
    } else {
      WholeText(a);
      WholeText(b);
      j := i;
    }
  }

  /** The order is strict and total: of two different strings exactly one comes first. */
  lemma LessTotal(a: Text, b: Text)
    ensures !(Less(a, b) && Less(b, a)) && !Less(a, a)
    ensures a != b ==> Less(a, b) || Less(b, a)
  {
    hide Weight;
    if Less(a, b) && Less(b, a) {
      var i: nat :| FirstDifference(a, b, i) && Weight(CharAt(a, i)) < Weight(CharAt(b, i));
      var j: nat :| FirstDifference(b, a, j) && Weight(CharAt(b, j)) < Weight(CharAt(a, j));
      FirstDifferenceUnique(a, b, i, j);
    }
    if a != b {
      var i := Differ(a, b, 0);
      WeightBijective(CharAt(a, i), CharAt(b, i));
      assert FirstDifference(b, a, i);
    }
  }

  lemma LessTransitive(a: Text, b: Text, c: Text)
    requires Less(a, b) && Less(b, c)
    ensures Less(a, c)
  {
    hide Weight;
    var i: nat :| FirstDifference(a, b, i) && Weight(CharAt(a, i)) < Weight(CharAt(b, i));
    var j: nat :| FirstDifference(b, c, j) && Weight(CharAt(b, j)) < Weight(CharAt(c, j));
    if i < j {
      assert b[..j][..i] == c[..j][..i];
      assert b[..j][i] == c[..j][i];
      assert FirstDifference(a, c, i);
    } else if j < i {
      assert a[..i][..j] == b[..i][..j];
      assert a[..i][j] == b[..i][j];
      assert FirstDifference(a, c, j);
    } else {
      assert FirstDifference(a, c, i);
    }
  }

  /** compareStrings.  Equal strings are reported as the difference of their addresses. */
  method CompareStrings(a: Text, b: Text, addressDifference: int) returns (diff: int)
    ensures diff < 0 <==> Less(a, b) || (a == b && addressDifference < 0)
    ensures diff > 0 <==> Less(b, a) || (a == b && addressDifference > 0)
  {
    hide Weight, Less;
    var i := 0;
    diff := Weight(CharAt(a, 0)) - Weight(CharAt(b, 0));
    WeightBijective(CharAt(a, 0), CharAt(b, 0));
    while diff == 0
      invariant i <= |a| && i <= |b| && a[..i] == b[..i]
      invariant diff == Weight(CharAt(a, i)) - Weight(CharAt(b, i))
      decreases |a| - i, diff
    {
      WeightBijective(CharAt(a, i), CharAt(b, i));
      if CharAt(a, i) == 0 || CharAt(b, i) == 0 {
        assert a[..i] == a && b[..i] == b;
        LessTotal(a, a);
        return addressDifference;
      }
      assert a[..i + 1] == a[..i] + [a[i]] && b[..i + 1] == b[..i] + [b[i]];
      i := i + 1;
      diff := Weight(CharAt(a, i)) - Weight(CharAt(b, i));
    }
    assert Less(a, b) || Less(b, a) by { LighterFirst(a, b, i); }
    LighterFirst(a, b, i);
    LessTotal(a, b);
  }

  lemma LighterFirst(a: Text, b: Text, i: nat)
    requires i <= |a| && i <= |b| && a[..i] == b[..i] && Weight(CharAt(a, i)) != Weight(CharAt(b, i))
    ensures a != b
    ensures Weight(CharAt(a, i)) < Weight(CharAt(b, i)) ==> Less(a, b)
    ensures Weight(CharAt(b, i)) < Weight(CharAt(a, i)) ==> Less(b, a)
  {
    hide Weight;
    assert FirstDifference(a, b, i) && FirstDifference(b, a, i);
  }
}
