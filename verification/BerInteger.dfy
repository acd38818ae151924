/** BER INTEGER contents: the in-place compression to the minimal form, the encoders built on it and the
    decoders that undo it (ber_encoder.cc, ber_decode.cc, ber_integer.cc). */
module BerInteger {
  import opened Octets

  /** The first nine bits of s are all zero or all one, which ITU-T X.690 section 8.3.2 forbids. */
  predicate Redundant(s: seq<byte>) {
    |s| >= 2 && ((s[0] == 0 && s[1] < 128) || (s[0] == 255 && s[1] >= 128))
  }

  predicate Minimal(s: seq<byte>) {
    s != [] && !Redundant(s)
  }

  function Compress(s: seq<byte>): (r: seq<byte>)
    ensures |r| <= |s|
    ensures r == s[|s| - |r|..]
    ensures !Redundant(r)
    ensures s != [] ==> r != []
  {
    if Redundant(s) then Compress(s[1..]) else s
  }

  /** Leading zero octets in front of an octet below 128 are all dropped. */
  lemma {:induction false} CompressDropsZeros(s: seq<byte>)
    requires s != [] && s[|s| - 1] < 128 && forall i :: 0 <= i < |s| - 1 ==> s[i] == 0
    ensures Compress(s) == [s[|s| - 1]]
  {
    if |s| > 1 {
      assert Redundant(s);
      CompressDropsZeros(s[1..]);
    }
  }

  lemma DropRedundant(s: seq<byte>)
    requires Redundant(s)
    ensures TwosComplement(s[1..]) == TwosComplement(s)
  {
    BigEndianHead(s);
    assert Pow256(|s|) == 256 * Pow256(|s| - 1);
  }

  lemma {:induction false} CompressKeepsValue(s: seq<byte>)
    ensures TwosComplement(Compress(s)) == TwosComplement(s)
  {
    if Redundant(s) {
      DropRedundant(s);
      CompressKeepsValue(s[1..]);
    }
  }

  lemma {:induction false} Pow256Monotone(m: nat, n: nat)
    requires m <= n
    ensures Pow256(m) <= Pow256(n)
  {
    if m < n {
      Pow256Monotone(m, n - 1);
    }
  }

  lemma ScaleBounds(lo: int, d: int, hi: int, p: nat)
    requires lo <= d <= hi
    ensures lo * p <= d * p <= hi * p
  {
  }

  /** Twice the value of an n-octet string lies in [-256^n, 256^n). */
  lemma TwosComplementRange(s: seq<byte>)
    requires s != []
    ensures -1 * Pow256(|s|) <= 2 * TwosComplement(s) < Pow256(|s|)
  {
    BigEndianHead(s);
    BigEndianBound(s[1..]);
    var p: int, d: int := Pow256(|s| - 1), s[0];
    if d < 128 {
      ScaleBounds(0, d, 127, p);
    } else {
      ScaleBounds(128, d, 255, p);
    }
  }

  /** A minimal form of two or more octets holds a value that no shorter string can hold. */
  lemma MinimalOutOfRange(s: seq<byte>)
    requires Minimal(s) && |s| >= 2
    ensures 2 * TwosComplement(s) >= Pow256(|s| - 1) || 2 * TwosComplement(s) < -1 * Pow256(|s| - 1)
  {
    hide BigEndian;
    var p: int, d: int := Pow256(|s| - 1), s[0];
    var rest := s[1..];
    BigEndianHead(s);
    BigEndianBound(rest);
    if d == 0 || d == 255 {
      TwosComplementRange(rest);
      assert s[1] == rest[0];
    } else if d < 128 {
      ScaleBounds(1, d, 127, p);
    } else {
      ScaleBounds(128, d, 254, p);
    }
  }

  lemma EqualLengthUnique(s: seq<byte>, t: seq<byte>)
    requires |s| == |t| && s != [] && TwosComplement(s) == TwosComplement(t)
    ensures s == t
  {
    BigEndianBound(s);
    BigEndianBound(t);
    BigEndianInjective(s, t);
  }

  lemma ShorterDiffers(s: seq<byte>, t: seq<byte>)
    requires Minimal(t) && s != [] && |s| < |t|
    ensures TwosComplement(s) != TwosComplement(t)
  {
    TwosComplementRange(s);
    MinimalOutOfRange(t);
    Pow256Monotone(|s|, |t| - 1);
  }

  /** Compression is canonical: two non-empty strings denote the same integer exactly when they compress
      to the same octets.  So the result is the only minimal form of its value, no equivalent string is
      shorter, and compressing again changes nothing. */
  lemma CompressCanonical(s: seq<byte>, t: seq<byte>)
    requires s != [] && t != []
    ensures TwosComplement(s) == TwosComplement(t) <==> Compress(s) == Compress(t)
    ensures Minimal(Compress(s))
    ensures TwosComplement(s) == TwosComplement(t) ==> |Compress(s)| <= |t|
    ensures Compress(Compress(s)) == Compress(s)
  {
    CompressKeepsValue(s);
    CompressKeepsValue(t);
    var u, v := Compress(s), Compress(t);
    if TwosComplement(s) == TwosComplement(t) {
      if |u| < |v| {
        ShorterDiffers(u, v);
      } else if |v| < |u| {
        ShorterDiffers(v, u);
      } else {
        EqualLengthUnique(u, v);
      }
    }
  }

  /** The first octet of integer[..size] that compression keeps. */
  method FirstSignificant(integer: array<byte>, size: nat) returns (k: nat)
    requires size <= integer.Length
    ensures k <= size
    ensures integer[k..size] == Compress(integer[..size])
  {
    ghost var s := integer[..size];
    k := 0;
    while k + 1 < size && ((integer[k] == 0 && integer[k + 1] < 128) || (integer[k] == 255 && integer[k + 1] >= 128))
      invariant k <= size
      invariant Compress(s[k..]) == Compress(s)
    {
      assert Redundant(s[k..]);
      assert s[k..][1..] == s[k + 1..];
      k := k + 1;
    }
    assert !Redundant(s[k..]);
  }

  /** Moves integer[k..k + n] to the front, octet by octet. */
  method MoveToFront(integer: array<byte>, k: nat, n: nat)
    requires k + n <= integer.Length
    modifies integer
    ensures integer[..] == old(integer[k..k + n] + integer[n..])
  {
    ghost var s := integer[..];
    var i := 0;
    while i < n
      invariant 0 <= i <= n
      invariant forall j :: 0 <= j < i ==> integer[j] == s[k + j]
      invariant forall j :: i <= j < integer.Length ==> integer[j] == s[j]
    {
      integer[i] := integer[k + i];
      i := i + 1;
    }
    assert integer[..n] == s[k..k + n];
  }

  /** compressInteger: finds the first octet to keep, then moves the rest to the front of the array. */
  method CompressInteger(integer: array<byte>, originalSize: nat) returns (newSize: nat)
    requires originalSize <= integer.Length
    modifies integer
    ensures newSize <= originalSize
    ensures integer[..newSize] == Compress(old(integer[..originalSize]))
    ensures integer[newSize..] == old(integer[newSize..])
  {
    var k := FirstSignificant(integer, originalSize);
    newSize := originalSize - k;
    MoveToFront(integer, k, newSize);
  }

  /** The n octets of a signed number, reduced modulo 256^n, denote that number. */
  lemma SignedValue(octets: seq<byte>, v: int)
    requires octets != [] && -1 * Pow256(|octets|) <= 2 * v < Pow256(|octets|)
    requires BigEndian(octets) == if v < 0 then v + Pow256(|octets|) else v
    ensures TwosComplement(octets) == v
  {
    var n := |octets|;
    assert Pow256(n) == 256 * Pow256(n - 1);
    hide BigEndian, Pow256;
    BigEndianHead(octets);
    BigEndianBound(octets[1..]);
    TopOctet(octets[0], Pow256(n - 1), BigEndian(octets[1..]));
  }

  /** The top octet decides on which side of the half range a number is. */
  lemma TopOctet(d: byte, p: nat, r: nat)
    requires r < p
    ensures d >= 128 <==> 2 * (d * p + r) >= 256 * p
  {
    if d >= 128 {
      assert d * p >= 128 * p;
    } else {
      assert d * p <= 127 * p;
    }
  }

  // ----- unsigned and signed 32-bit integers

  function UIntOctets(v: uint32): (s: seq<byte>)
    ensures 1 <= |s| <= 5
  {
    Compress([0] + U32Octets(v))
  }

  function IntOctets(v: int32): (s: seq<byte>)
    ensures 1 <= |s| <= 4
  {
    Compress(U32Octets(v % 0x1_0000_0000))
  }

  lemma UIntOctetsValue(v: uint32)
    ensures BigEndian(UIntOctets(v)) == v && UIntOctets(v)[0] < 128
  {
    hide BigEndian, Compress;
    var s := [0] + U32Octets(v);
    CompressKeepsValue(s);
    BigEndianHead(s);
    assert s[1..] == U32Octets(v);
    U32RoundTrip(v);
    BigEndianBound(UIntOctets(v));
  }

  lemma IntOctetsValue(v: int32)
    ensures TwosComplement(IntOctets(v)) == v
  {
    hide BigEndian, Compress;
    var w := v % 0x1_0000_0000;
    CompressKeepsValue(U32Octets(w));
    U32RoundTrip(w);
    assert Pow256(2) == 0x1_0000;
  }

  /** Reduction of an integer to its 32-bit two's-complement representative. */
  function Wrap32(x: int): (r: int32) {
    (x + 0x8000_0000) % 0x1_0000_0000 - 0x8000_0000
  }

  /** What decodeUint32 makes of the octets s. */
  function DecodedUint32(s: seq<byte>): (v: uint32) {
    BigEndian(s) % 0x1_0000_0000
  }

  lemma BigEndianStep(b: seq<byte>, lo: nat, hi: nat)
    requires lo <= hi < |b|
    ensures BigEndian(b[lo..hi + 1]) == BigEndian(b[lo..hi]) * 256 + b[hi]
  {
    var s := b[lo..hi + 1];
    assert s[..|s| - 1] == b[lo..hi];
  }

  lemma UnsignedStep(x: nat, d: byte)
    ensures ((x % 0x1_0000_0000) * 256 % 0x1_0000_0000 + d) % 0x1_0000_0000 == (x * 256 + d) % 0x1_0000_0000
  {
  }

  /** decodeUint32: shift and add, discarding what no longer fits 32 bits. */
  method DecodeUint32(buffer: seq<byte>, intLen: nat, bufPos: nat) returns (value: uint32)
    requires bufPos + intLen <= |buffer|
    ensures value == DecodedUint32(buffer[bufPos..bufPos + intLen])
  {
    value := 0;
    var i := 0;
    while i < intLen
      invariant 0 <= i <= intLen
      invariant value == BigEndian(buffer[bufPos..bufPos + i]) % 0x1_0000_0000
    {
      hide BigEndian;
      BigEndianStep(buffer, bufPos, bufPos + i);
      UnsignedStep(BigEndian(buffer[bufPos..bufPos + i]), buffer[bufPos + i]);
      value := (value as int * 256 % 0x1_0000_0000 + buffer[bufPos + i]) % 0x1_0000_0000;
      i := i + 1;
    }
  }

  ghost function SignedAcc(sign: int, s: seq<byte>): int {
    sign * Pow256(|s|) + BigEndian(s)
  }

  lemma SignedStep(sign: int, b: seq<byte>, lo: nat, hi: nat)
    requires lo <= hi < |b|
    ensures SignedAcc(sign, b[lo..hi + 1]) == SignedAcc(sign, b[lo..hi]) * 256 + b[hi]
  {
    BigEndianStep(b, lo, hi);
  }

  lemma WrapCongruent(x: int, k: int)
    ensures Wrap32(x + k * 0x1_0000_0000) == Wrap32(x)
  {
  }

  lemma WrapStep(x: int, d: byte)
    ensures Wrap32(Wrap32(Wrap32(x) as int * 256) as int + d) == Wrap32(x * 256 + d)
  {
    var q := (x + 0x8000_0000) / 0x1_0000_0000;
    var y: int := Wrap32(x) * 256;
    assert y == x * 256 + (-256 * q) * 0x1_0000_0000;
    var r := (y + 0x8000_0000) / 0x1_0000_0000;
    assert Wrap32(y) + d == x * 256 + d + (-256 * q - r) * 0x1_0000_0000;
    WrapCongruent(x * 256 + d, -256 * q - r);
  }

  /** decodeInt32: the accumulator starts as all ones for a negative number, as all zeros otherwise. */
  method DecodeInt32(buffer: seq<byte>, intLen: nat, bufPos: nat) returns (value: int32)
    requires bufPos + intLen <= |buffer| && bufPos < |buffer|
    ensures intLen > 0 ==> value == Wrap32(TwosComplement(buffer[bufPos..bufPos + intLen]))
    ensures intLen == 0 ==> value == if buffer[bufPos] >= 128 then -1 else 0
  {
    value := if buffer[bufPos] >= 128 then -1 else 0;
    ghost var sign: int := value;
    var i := 0;
    while i < intLen
      invariant 0 <= i <= intLen
      invariant value == Wrap32(SignedAcc(sign, buffer[bufPos..bufPos + i]))
    {
      SignedStep(sign, buffer, bufPos, bufPos + i);
      WrapStep(SignedAcc(sign, buffer[bufPos..bufPos + i]), buffer[bufPos + i]);
      value := Wrap32(Wrap32(value as int * 256) as int + buffer[bufPos + i]);
      i := i + 1;
    }
  }

  lemma WrapIdentity(v: int32)
    ensures Wrap32(v) == v
  {
  }

  /** decodeUint32 undoes encodeUInt32, and decodeInt32 undoes encodeInt32, on every 32-bit value. */
  lemma UInt32RoundTrip(u: uint32)
    ensures DecodedUint32(UIntOctets(u)) == u
  {
    hide UIntOctets, BigEndian;
    UIntOctetsValue(u);
  }

  lemma Int32RoundTrip(v: int32)
    ensures Wrap32(TwosComplement(IntOctets(v))) == v
  {
    hide *;
    IntOctetsValue(v);
    WrapIdentity(v);
  }
}
