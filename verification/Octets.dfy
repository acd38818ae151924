/** Octet strings: big-endian and two's-complement values, and what it means for a buffer to hold a
    given octet string at a given position. */
module Octets {

  type byte = x: int | 0 <= x < 256

  type uint16 = x: int | 0 <= x < 0x1_0000

  type uint32 = x: int | 0 <= x < 0x1_0000_0000

  type int32 = x: int | -0x8000_0000 <= x < 0x8000_0000

  /** What an unsigned 32-bit variable keeps of a number. */
  function Low32(n: nat): (r: uint32) {
    n % 0x1_0000_0000
  }

  lemma Low32Small(n: nat)
    ensures Low32(n) == n <==> n < 0x1_0000_0000
  {
  }

  lemma Low32Sum(a: nat, b: nat)
    ensures Low32(Low32(a) + b) == Low32(a + b)
  {
  }

  datatype Option<+T> = None | Some(value: T)

  function Pow256(n: nat): (p: nat)
    ensures p >= 1
  {
    if n == 0 then 1 else 256 * Pow256(n - 1)
  }

  /** The unsigned value of an octet string, most significant octet first. */
  function BigEndian(s: seq<byte>): (v: nat)
  {
    if s == [] then 0 else BigEndian(s[..|s| - 1]) * 256 + s[|s| - 1]
  }

  /** The two's-complement value of an octet string (ITU-T X.690 section 8.3.3). */
  function TwosComplement(s: seq<byte>): (v: int)
  {
    if s != [] && s[0] >= 128 then BigEndian(s) - Pow256(|s|) else BigEndian(s)
  }

  /** The most significant octet contributes its own power of 256. */
  lemma {:induction false} BigEndianHead(s: seq<byte>)
    requires s != []
    ensures BigEndian(s) == s[0] * Pow256(|s| - 1) + BigEndian(s[1..])
  {
    if |s| == 1 {
      assert s[..0] == [] && s[1..] == [];
      assert BigEndian(s) == BigEndian(s[..0]) * 256 + s[0];
      assert Pow256(0) == 1;
    } else {
      var n := |s| - 1;
      var init, last := s[..n], s[n];
      BigEndianHead(init);
      BigEndianLast(s);
      BigEndianLast(s[1..]);
      assert s[1..][..n - 1] == init[1..];
      assert Pow256(n) == 256 * Pow256(n - 1);
      hide BigEndian, Pow256;
      Shifted(s[0], Pow256(n - 1), BigEndian(init[1..]), last);
    }
  }

  lemma BigEndianLast(s: seq<byte>)
    requires s != []
    ensures BigEndian(s) == BigEndian(s[..|s| - 1]) * 256 + s[|s| - 1]
  {
  }

  lemma Shifted(d: int, p: int, rest: int, last: int)
    ensures (d * p + rest) * 256 + last == d * (256 * p) + (rest * 256 + last)
  {
  }

  lemma {:induction false} BigEndianBound(s: seq<byte>)
    ensures BigEndian(s) < Pow256(|s|)
  {
    if s != [] {
      BigEndianBound(s[..|s| - 1]);
    }
  }

  /** Octet strings of one length are determined by their value. */
  lemma {:induction false} BigEndianInjective(s: seq<byte>, t: seq<byte>)
    requires |s| == |t| && BigEndian(s) == BigEndian(t)
    ensures s == t
  {
    if s != [] {
      var n := |s| - 1;
      BigEndianInjective(s[..n], t[..n]);
      assert s == s[..n] + [s[n]] && t == t[..n] + [t[n]];
    }
  }

  /** The low n octets of v, most significant first. */
  function LowOctets(v: nat, n: nat): (s: seq<byte>)
    ensures |s| == n
    decreases n
  {
    if n == 0 then [] else LowOctets(v / 256, n - 1) + [v % 256]
  }

  lemma {:induction false} LowOctetsValue(v: nat, n: nat)
    requires v < Pow256(n)
    ensures BigEndian(LowOctets(v, n)) == v
  {
    if n > 0 {
      LowOctetsValue(v / 256, n - 1);
      var s := LowOctets(v, n);
      assert s[..n - 1] == LowOctets(v / 256, n - 1);
    }
  }

  function U16Octets(v: uint16): (s: seq<byte>)
    ensures |s| == 2
  {
    [v / 256, v % 256]
  }

  function U32Octets(v: uint32): (s: seq<byte>)
    ensures |s| == 4
  {
    [v / 0x100_0000, v / 0x1_0000 % 256, v / 0x100 % 256, v % 256]
  }

  /** The base-256 digits of a number, taken off one by one. */
  lemma Digits(v: nat)
    ensures v / 0x1_0000 % 256 == v % 0x100_0000 / 0x1_0000 && v / 0x100 % 256 == v % 0x1_0000 / 0x100
    ensures v == v / 0x100_0000 * 0x100_0000 + v / 0x1_0000 % 256 * 0x1_0000 + v / 0x100 % 256 * 256 + v % 256
  {
    var u := v / 0x100;
    var t := u / 0x100;
    var s := t / 0x100;
    assert v == u * 0x100 + v % 0x100;
    assert u == t * 0x100 + u % 0x100;
    assert t == s * 0x100 + t % 0x100;
    assert v == t * 0x1_0000 + (u % 0x100 * 0x100 + v % 0x100);
    assert v / 0x1_0000 == t && v % 0x1_0000 == u % 0x100 * 0x100 + v % 0x100;
    assert v == s * 0x100_0000 + (t % 0x100 * 0x1_0000 + v % 0x1_0000);
    assert v / 0x100_0000 == s && v % 0x100_0000 == t % 0x100 * 0x1_0000 + v % 0x1_0000;
  }

  lemma BigEndian2(s: seq<byte>)
    requires |s| == 2
    ensures BigEndian(s) == (s[0] as int) * 256 + s[1]
  {
    assert s[..1][..0] == [];
    assert BigEndian(s[..1]) == s[0];
  }

  lemma BigEndian4(s: seq<byte>)
    requires |s| == 4
    ensures BigEndian(s) == (s[0] as int) * 0x100_0000 + (s[1] as int) * 0x1_0000 + (s[2] as int) * 256 + s[3]
  {
    BigEndian2(s[..2]);
    assert s[..3][..2] == s[..2];
    assert BigEndian(s[..3]) == BigEndian(s[..2]) * 256 + s[2];
  }

  lemma U32RoundTrip(v: uint32)
    ensures BigEndian(U32Octets(v)) == v
  {
    hide BigEndian;
    BigEndian4(U32Octets(v));
    Digits(v);
  }

  /** Buffer b holds the octets s from position pos on. */
  predicate HasAt(b: seq<byte>, pos: nat, s: seq<byte>) {
    pos + |s| <= |b| && b[pos..pos + |s|] == s
  }

  lemma HasAtIndex(b: seq<byte>, pos: nat, s: seq<byte>, i: nat)
    requires HasAt(b, pos, s) && i < |s|
    ensures b[pos + i] == s[i]
  {
    assert b[pos..pos + |s|][i] == s[i];
  }

  lemma HasAtSplit(b: seq<byte>, pos: nat, s: seq<byte>, t: seq<byte>)
    ensures HasAt(b, pos, s + t) <==> HasAt(b, pos, s) && HasAt(b, pos + |s|, t)
  {
    if pos + |s| + |t| <= |b| {
      var w := b[pos..pos + |s| + |t|];
      assert w[..|s|] == b[pos..pos + |s|];
      assert w[|s|..] == b[pos + |s|..pos + |s| + |t|];
      assert (s + t)[..|s|] == s && (s + t)[|s|..] == t;
      assert w == w[..|s|] + w[|s|..];
    }
  }

  /** s with its octets from pos on replaced by t. */
  function Splice(s: seq<byte>, pos: nat, t: seq<byte>): (r: seq<byte>)
    requires pos + |t| <= |s|
    ensures |r| == |s|
    ensures HasAt(r, pos, t)
  {
    s[..pos] + t + s[pos + |t|..]
  }

  lemma SpliceSplice(s: seq<byte>, pos: nat, t: seq<byte>, u: seq<byte>)
    requires pos + |t| + |u| <= |s|
    ensures Splice(Splice(s, pos, t), pos + |t|, u) == Splice(s, pos, t + u)
  {
  }

  /** memcpy: the octets of s are stored one by one from pos on. */
  method Copy(buffer: array<byte>, pos: nat, s: seq<byte>) returns (end: nat)
    requires pos + |s| <= buffer.Length
    modifies buffer
    ensures end == pos + |s|
    ensures buffer[..] == Splice(old(buffer[..]), pos, s)
  {
    var i := 0;
    while i < |s|
      invariant 0 <= i <= |s|
      invariant buffer[..] == Splice(old(buffer[..]), pos, s[..i])
    {
      buffer[pos + i] := s[i];
      i := i + 1;
    }
    assert s[..i] == s;
    end := pos + |s|;
  }
}
