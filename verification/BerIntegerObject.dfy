/** The INTEGER object of the MMS stack (ber_integer.cc): a fixed buffer that is overwritten with the minimal form of
    native integers of several widths, and read back into native integers. */
module BerIntegerObject {
  import opened Octets
  import opened BerInteger

  // ----- native integers in memory

  function Reversed(s: seq<byte>): (r: seq<byte>)
    ensures |r| == |s|
  {
    seq(|s|, i requires 0 <= i < |s| => s[|s| - 1 - i])
  }

  lemma ReversedTwice(s: seq<byte>)
    ensures Reversed(Reversed(s)) == s
  {
  }

  /** BerEncoder_revertByteOrder. */
  method RevertByteOrder(octets: array<byte>, size: nat)
    requires size <= octets.Length
    modifies octets
    ensures octets[..size] == Reversed(old(octets[..size])) && octets[size..] == old(octets[size..])
  {
    var i := 0;
    while i < size / 2
      invariant 0 <= i <= size / 2
      invariant forall k :: 0 <= k < i ==>
                  octets[k] == old(octets[size - 1 - k]) && octets[size - 1 - k] == old(octets[k])
      invariant forall k :: i <= k < size - i ==> octets[k] == old(octets[k])
      invariant octets[size..] == old(octets[size..])
    {
      octets[i], octets[size - 1 - i] := octets[size - 1 - i], octets[i];
      i := i + 1;
    }
    forall k | 0 <= k < size ensures octets[k] == old(octets[size - 1 - k]) {
      if k >= size - i {
        var j := size - 1 - k;
        assert octets[size - 1 - j] == old(octets[j]);
      }
    }
  }

  /** The n octets of v in two's complement, most significant first. */
  function NativeOctets(v: int, n: nat): (s: seq<byte>)
    ensures |s| == n
  {
    LowOctets(v % Pow256(n), n)
  }

  predicate Representable(v: int, n: nat) {
    n > 0 && -1 * Pow256(n) <= 2 * v < Pow256(n)
  }

  lemma ModWithin(v: int, m: int)
    requires m > 0 && -m <= v < m
    ensures v % m == if v < 0 then v + m else v
  {
    if v < 0 {
      QuotientUnique(v, -1, v + m, m);
    }
  }

  lemma QuotientUnique(x: int, q: int, r: int, m: int)
    requires m > 0 && 0 <= r < m && x == q * m + r
    ensures x / m == q && x % m == r
  {
    var d := x / m - q;
    assert d * m == r - x % m by {
      assert x == (x / m) * m + x % m;
    }
    AtLeastOne(d, m);
  }

  lemma AtLeastOne(d: int, m: int)
    requires m > 0
    ensures (d >= 1 ==> d * m >= m) && (d <= -1 ==> d * m <= -m)
  {
  }

  lemma NativeValue(v: int, n: nat)
    requires Representable(v, n)
    ensures TwosComplement(NativeOctets(v, n)) == v
  {
    hide LowOctets, BigEndian, TwosComplement, Pow256;
    ModWithin(v, Pow256(n));
    LowOctetsValue(v % Pow256(n), n);
    SignedValue(NativeOctets(v, n), v);
  }

  /** What a setter stores: the minimal form of the value. */
  function Stored(v: int, n: nat): (s: seq<byte>) {
    Compress(NativeOctets(v, n))
  }

  /** It denotes the value, whatever the width of the native integer it came from. */
  lemma StoredValue(v: int, n: nat)
    requires Representable(v, n)
    ensures TwosComplement(Stored(v, n)) == v && Stored(v, n) != []
  {
    hide NativeOctets, TwosComplement;
    NativeValue(v, n);
    CompressKeepsValue(NativeOctets(v, n));
  }

  /** It has at most k octets exactly when the value can be represented in k octets. */
  lemma StoredFits(v: int, n: nat, k: nat)
    requires Representable(v, n) && k > 0
    ensures |Stored(v, n)| <= k <==> Representable(v, k)
  {
    hide NativeOctets, Compress, TwosComplement, Pow256;
    StoredValue(v, n);
    var s := Stored(v, n);
    assert Minimal(s);
    if |s| <= k {
      TwosComplementRange(s);
      Pow256Monotone(|s|, k);
    } else {
      MinimalOutOfRange(s);
      Pow256Monotone(k, |s| - 1);
    }
  }

  // ----- the object

  class BerValue {
    const octets: array<byte>
    var size: nat

    ghost predicate Valid()
      reads this
    {
      0 < octets.Length && size <= octets.Length
    }

    function Contents(): (s: seq<byte>)
      requires Valid()
      reads this, octets
    {
      octets[..size]
    }

    /** Asn1PrimitiveValue_create; createInt32 asks for five octets, createInt64 for nine. */
    constructor (maxSize: nat)
      requires maxSize > 0
      ensures Valid() && octets.Length == maxSize && fresh(octets) && size == 0
    {
      octets := new byte[maxSize];
      size := 0;
    }

    /** setIntegerValue, for the octets of a native integer in little-endian memory order. */
    method SetIntegerValue(valueBuffer: array<byte>) returns (ok: bool)
      requires Valid() && valueBuffer != octets
      modifies `size, octets, valueBuffer
      ensures Valid()
      ensures var c := Compress(Reversed(old(valueBuffer[..])));
              && ok == (|c| <= octets.Length)
              && Contents() == if ok then c else old(Contents())
    {
      hide Compress;
      ghost var c := Compress(Reversed(old(valueBuffer[..])));
      RevertByteOrder(valueBuffer, valueBuffer.Length);
      assert valueBuffer[..valueBuffer.Length] == valueBuffer[..]
          && old(valueBuffer[..valueBuffer.Length]) == old(valueBuffer[..]);
      var newSize := CompressInteger(valueBuffer, valueBuffer.Length);
      ok := newSize <= octets.Length;
      if ok {
        size := newSize;
        var end := Copy(octets, 0, valueBuffer[..newSize]);
      }
    }

    /** setInt32 and setInt64, n being 4 and 8. */
    method SetSigned(value: int, n: nat) returns (ok: bool)
      requires Valid() && Representable(value, n)
      modifies `size, octets
      ensures Valid() && ok == (|Stored(value, n)| <= octets.Length)
      ensures Contents() == if ok then Stored(value, n) else old(Contents())
    {
      hide NativeOctets, Compress, Reversed;
      var memory := Reversed(NativeOctets(value, n));
      ReversedTwice(NativeOctets(value, n));
      var valueBuffer := new byte[n];
      var end := Copy(valueBuffer, 0, memory);
      assert valueBuffer[..] == memory;
      ok := SetIntegerValue(valueBuffer);
    }

    /** setUint16 and setUint32, n being 2 and 4: a zero octet goes on top. */
    method SetUnsigned(value: nat, n: nat) returns (ok: bool)
      requires Valid() && value < Pow256(n)
      modifies `size, octets
      ensures Valid() && ok == (|Stored(value, n + 1)| <= octets.Length)
      ensures Contents() == if ok then Stored(value, n + 1) else old(Contents())
    {
      hide NativeOctets, Compress, Reversed, LowOctets;
      var memory := Reversed(LowOctets(value, n)) + [0];
      WithZeroOnTop(value, n);
      ReversedTwice(NativeOctets(value, n + 1));
      var valueBuffer := new byte[n + 1];
      var end := Copy(valueBuffer, 0, memory);
      assert valueBuffer[..] == memory;
      ok := SetIntegerValue(valueBuffer);
    }

    /** toUint32 and its like: shift and add, keeping the low octets of the native integer of width n. */
    method ToUnsigned(n: nat) returns (value: nat)
      requires Valid() && n > 0
      ensures value == BigEndian(Contents()) % Pow256(n)
    {
      hide Pow256;
      value := 0;
      var i := 0;
      Within(0, Pow256(n));
      while i < size
        invariant 0 <= i <= size && value == BigEndian(octets[..i]) % Pow256(n)
      {
        hide BigEndian;
        BigEndianStep(octets[..], 0, i);
        assert octets[..][0..i] == octets[..i] && octets[..][0..i + 1] == octets[..i + 1];
        ShiftStep(BigEndian(octets[..i]), octets[i], Pow256(n));
        value := (value * 256 + octets[i]) % Pow256(n);
        i := i + 1;
      }
    }

    /** toInt32 and toInt64, n being 4 and 8: the accumulator starts as all ones for a negative number. */
    method ToSigned(n: nat) returns (value: int)
      requires Valid() && n > 0
      ensures size > 0 ==> value == Wrap(TwosComplement(Contents()), Pow256(n))
      ensures size == 0 ==> value == if octets[0] >= 128 then -1 else 0
    {
      hide Pow256, Wrap;
      var sign := if octets[0] >= 128 then -1 else 0;
      value := Wrap(sign, Pow256(n));
      SignKept(sign, n);
      var i := 0;
      assert octets[..0] == [] && SignedAcc(sign, []) == sign by { Nothing(sign); }
      while i < size
        invariant 0 <= i <= size && value == Wrap(SignedAcc(sign, octets[..i]), Pow256(n))
      {
        hide BigEndian, SignedAcc;
        SignedStep(sign, octets[..], 0, i);
        assert octets[..][0..i] == octets[..i] && octets[..][0..i + 1] == octets[..i + 1];
        WrapShift(SignedAcc(sign, octets[..i]), octets[i], Pow256(n));
        value := Wrap(value * 256 + octets[i], Pow256(n));
        i := i + 1;
      }
    }
  }

  lemma SignKept(sign: int, n: nat)
    requires -1 <= sign <= 0 && n > 0
    ensures Wrap(sign, Pow256(n)) == sign
  {
    hide Wrap;
    assert Pow256(n) == 256 * Pow256(n - 1);
    WrapWithin(sign, Pow256(n));
  }

  lemma Nothing(sign: int)
    ensures SignedAcc(sign, []) == sign
  {
  }

  /** The representative of x modulo m that lies in the signed range of that many values. */
  function Wrap(x: int, m: int): (r: int)
    requires m > 0
  {
    (x + m / 2) % m - m / 2
  }

  lemma Within(x: int, m: int)
    requires 0 <= x < m
    ensures x % m == x
  {
    QuotientUnique(x, 0, x, m);
  }

  lemma ModMultiple(x: int, k: int, m: int)
    requires m > 0
    ensures (x + k * m) % m == x % m
  {
    assert x == (x / m) * m + x % m;
    assert (x / m) * m + k * m == (x / m + k) * m;
    QuotientUnique(x + k * m, x / m + k, x % m, m);
  }

  lemma ShiftStep(x: nat, d: byte, m: int)
    requires m > 0
    ensures ((x % m) * 256 + d) % m == (x * 256 + d) % m
  {
    var q, r := x / m, x % m;
    assert x == q * m + r;
    assert x * 256 + d == (r * 256 + d) + (256 * q) * m;
    ModMultiple(r * 256 + d, 256 * q, m);
  }

  lemma WrapShift(x: int, d: byte, m: int)
    requires m > 0
    ensures Wrap(Wrap(x, m) * 256 + d, m) == Wrap(x * 256 + d, m)
  {
    var h, y := m / 2, Wrap(x, m);
    var q := (x + h) / m;
    assert x + h == q * m + (x + h) % m;
    assert y == x - q * m;
    assert y * 256 + d + h == (x * 256 + d + h) + (-256 * q) * m;
    ModMultiple(x * 256 + d + h, -256 * q, m);
  }

  lemma WrapWithin(v: int, m: int)
    requires m > 0 && m % 2 == 0 && -m <= 2 * v < m
    ensures Wrap(v, m) == v
  {
    Within(v + m / 2, m);
  }

  lemma {:induction false} Pow256Even(n: nat)
    requires n > 0
    ensures Pow256(n) % 2 == 0
  {
    assert Pow256(n) == 2 * (128 * Pow256(n - 1));
  }

  lemma WithZeroOnTop(value: nat, n: nat)
    requires value < Pow256(n)
    ensures Reversed(LowOctets(value, n)) + [0] == Reversed(NativeOctets(value, n + 1))
    ensures Representable(value, n + 1)
  {
    assert Pow256(n + 1) == 256 * Pow256(n);
    hide Pow256, LowOctets, Reversed;
    Within(value, Pow256(n + 1));
    ZeroOnTop(value, n);
    ReversedCons(0, LowOctets(value, n));
  }

  lemma ReversedCons(x: byte, s: seq<byte>)
    ensures Reversed([x] + s) == Reversed(s) + [x]
  {
  }

  lemma {:induction false} ZeroOnTop(v: nat, n: nat)
    requires v < Pow256(n)
    ensures LowOctets(v, n + 1) == [0] + LowOctets(v, n)
  {
    if n > 0 {
      ZeroOnTop(v / 256, n - 1);
    }
  }

  /** A signed getter of width n undoes a signed setter of width m on every value that the getter's width can
      represent: the same width, a wider one, or a narrower one that still has room. */
  lemma SignedRoundTrip(v: int, m: nat, n: nat)
    requires Representable(v, m) && Representable(v, n)
    ensures Wrap(TwosComplement(Stored(v, m)), Pow256(n)) == v
  {
    hide Stored, Wrap, TwosComplement, Pow256;
    StoredValue(v, m);
    Pow256Even(n);
    WrapWithin(v, Pow256(n));
  }

  /** An unsigned getter of width n undoes an unsigned setter of width m on every value below 256^n. */
  lemma UnsignedRoundTrip(v: nat, m: nat, n: nat)
    requires v < Pow256(m) && v < Pow256(n)
    ensures BigEndian(Stored(v, m + 1)) % Pow256(n) == v
  {
    hide Stored, BigEndian, Pow256;
    assert Representable(v, m + 1) by { WithZeroOnTop(v, m); }
    StoredValue(v, m + 1);
    var s := Stored(v, m + 1);
    BigEndianBound(s);
    Within(v, Pow256(n));
  }

  /** A 64-bit value goes into a five-octet object exactly when it fits forty bits; otherwise the object keeps what it
      had. */
  lemma Int64IntoInt32(v: int)
    requires Representable(v, 8)
    ensures |Stored(v, 8)| <= 5 <==> -0x80_0000_0000 <= v < 0x80_0000_0000
  {
    hide Stored;
    StoredFits(v, 8, 5);
    assert Pow256(2) == 0x1_0000 && Pow256(4) == 0x1_0000 * Pow256(2);
  }
}
