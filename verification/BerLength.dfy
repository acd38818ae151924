/** BER length octets: the encoder and its size predictor (ber_encoder.cc), and the depth-limited decoder
    that also measures values of indefinite length (ber_decode.cc). */
module BerLength {
  import opened Octets

  // ----- encoding

  function LengthOctets(n: uint32): (s: seq<byte>)
    ensures 1 <= |s| <= 4
  {
    if n < 128 then [n]
    else if n < 256 then [0x81, n]
    else if n < 65535 then [0x82, n / 256, n % 256]
    else [0x83, n / 0x1_0000 % 256, n % 0x1_0000 / 256, n % 256]
  }

  /** determineLengthSize. */
  function LengthSize(n: uint32): (k: nat) {
    if n < 128 then 1 else if n < 256 then 2 else if n < 65536 then 3 else 4
  }

  /** The size predicted is the size written except at 65535, where the encoder already switches to the
      three-octet form and the predictor does not. */
  lemma LengthSizeExact(n: uint32)
    ensures |LengthOctets(n)| == LengthSize(n) + if n == 65535 then 1 else 0
    ensures LengthSize(n) == |LengthOctets(n)| <==> n != 65535
  {
  }

  /** encodeLength, storing octet by octet. */
  method EncodeLength(length: uint32, buffer: array<byte>, bufPos: nat) returns (end: nat)
    requires bufPos + |LengthOctets(length)| <= buffer.Length
    modifies buffer
    ensures end == bufPos + |LengthOctets(length)|
    ensures buffer[..] == Splice(old(buffer[..]), bufPos, LengthOctets(length))
  {
    if length < 128 {
      end := Copy(buffer, bufPos, [length]);
    } else if length < 256 {
      end := Copy(buffer, bufPos, [0x81, length]);
    } else if length < 65535 {
      end := Copy(buffer, bufPos, [0x82, length / 256, length % 256]);
    } else {
      end := Copy(buffer, bufPos, [0x83, length / 0x1_0000 % 256, length % 0x1_0000 / 256, length % 256]);
    }
  }

  // ----- decoding

  /** A decoded length: where the contents start and how many octets they have. */
  datatype Length = Malformed | Length(start: nat, size: nat)

  /** decodeLengthRecursive on b[pos..max], with `budget` further levels of indefinite length allowed. */
  function DecodeAt(b: seq<byte>, pos: nat, max: nat, budget: nat): (r: Length)
    requires max <= |b|
    ensures r.Length? ==> pos < r.start && r.start + r.size <= max
    decreases budget, max + 2 - pos
  {
    if pos >= max then Malformed
    else if b[pos] < 128 then
      if pos + 1 + b[pos] <= max then Length(pos + 1, b[pos]) else Malformed
    else if b[pos] == 128 then
      if budget == 0 then Malformed
      else
        var n := IndefiniteSize(b, pos + 1, max, budget - 1);
        if n < 0 then Malformed else Length(pos + 1, n)
    else
      var start := pos + 1 + (b[pos] - 128);
      if start > max then Malformed
      else
        var n := BigEndian(b[pos + 1..start]);
        if start + n <= max then Length(start, n) else Malformed
  }

  /** getIndefiniteLength: the octets up to and including the end-of-contents pair, or -1. */
  function IndefiniteSize(b: seq<byte>, pos: nat, max: nat, budget: nat): (n: int)
    requires max <= |b|
    ensures n == -1 || (2 <= n && pos + n <= max)
    decreases budget, max + 2 - pos
  {
    if pos >= max then -1
    else if b[pos] == 0 && pos + 1 < max && b[pos + 1] == 0 then 2
    else
      var p := if b[pos] % 32 == 31 then pos + 2 else pos + 1;
      match DecodeAt(b, p, max, budget)
      case Malformed => -1
      case Length(start, size) =>
        var rest := IndefiniteSize(b, start + size, max, budget);
        if rest < 0 then -1 else start + size - pos + rest
  }

  /** One round of the measuring loop. */
  lemma MeasureRound(b: seq<byte>, pos: nat, max: nat, budget: nat)
    requires max <= |b|
    ensures IndefiniteSize(b, pos, max, budget) ==
            if pos >= max then -1
            else if b[pos] == 0 && pos + 1 < max && b[pos + 1] == 0 then 2
            else
              var r := DecodeAt(b, if b[pos] % 32 == 31 then pos + 2 else pos + 1, max, budget);
              if r.Malformed? then -1
              else
                var rest := IndefiniteSize(b, r.start + r.size, max, budget);
                if rest < 0 then -1 else r.start + r.size - pos + rest
  {
  }

  /** The indefinite form. */
  lemma DecodeIndefinite(b: seq<byte>, pos: nat, max: nat, budget: nat)
    requires pos < max <= |b| && b[pos] == 128
    ensures DecodeAt(b, pos, max, budget) ==
            if budget == 0 || IndefiniteSize(b, pos + 1, max, budget - 1) < 0 then Malformed
            else Length(pos + 1, IndefiniteSize(b, pos + 1, max, budget - 1))
  {
  }

  /** The definite forms. */
  lemma DecodeDefinite(b: seq<byte>, pos: nat, max: nat, budget: nat)
    requires pos < max <= |b| && b[pos] != 128
    ensures DecodeAt(b, pos, max, budget) ==
            if b[pos] < 128 then if pos + 1 + b[pos] <= max then Length(pos + 1, b[pos]) else Malformed
            else
              var start := pos + 1 + (b[pos] - 128);
              if start <= max && start + BigEndian(b[pos + 1..start]) <= max
              then Length(start, BigEndian(b[pos + 1..start])) else Malformed
  {
  }

  const MAX_DEPTH := 50

  /** decodeLength, as every parser calls it. */
  function Decode(b: seq<byte>, pos: nat, max: nat): (r: Length)
    requires max <= |b|
    ensures r.Length? ==> pos < r.start && r.start + r.size <= max
  {
    DecodeAt(b, pos, max, MAX_DEPTH)
  }

  lemma BigEndian1(s: seq<byte>)
    requires |s| == 1
    ensures BigEndian(s) == s[0]
  {
    assert s[..0] == [];
  }

  lemma BigEndian3(s: seq<byte>)
    requires |s| == 3
    ensures BigEndian(s) == (s[0] as int) * 0x1_0000 + (s[1] as int) * 256 + s[2]
  {
    BigEndian2(s[..2]);
  }

  /** The long definite form, read off the octets t that follow the initial octet. */
  lemma LongFormRead(b: seq<byte>, pos: nat, t: seq<byte>, max: nat)
    requires 0 < |t| < 128 && max <= |b|
    requires pos < |b| && b[pos] == 128 + |t| && HasAt(b, pos + 1, t)
    ensures Decode(b, pos, max) ==
            if pos + 1 + |t| + BigEndian(t) <= max then Length(pos + 1 + |t|, BigEndian(t)) else Malformed
  {
    hide DecodeAt, BigEndian;
    if pos < max {
      DecodeDefinite(b, pos, max, MAX_DEPTH);
    }
  }

  lemma ThreeOctets(n: nat)
    ensures n % 0x100_0000 == n / 0x1_0000 % 256 * 0x1_0000 + n % 0x1_0000 / 256 * 256 + n % 256
  {
    Digits(n);
    assert n == n / 0x100_0000 * 0x100_0000 + n % 0x100_0000;
  }

  lemma LongOctetsShape(n: uint32)
    requires n >= 128
    ensures var s := LengthOctets(n);
            s == [128 + |s[1..]|] + s[1..] && BigEndian(s[1..]) == n % 0x100_0000
  {
    hide BigEndian;
    if n < 256 {
      assert LengthOctets(n)[1..] == [n];
      BigEndian1([n]);
    } else if n < 65535 {
      assert LengthOctets(n)[1..] == [n / 256, n % 256];
      BigEndian2([n / 256, n % 256]);
    } else {
      var t := [n / 0x1_0000 % 256, n % 0x1_0000 / 256, n % 256];
      assert LengthOctets(n)[1..] == t;
      BigEndian3(t);
      ThreeOctets(n);
    }
  }

  /** The value the decoder reads back from the encoder's length octets: n itself below 2^24, else n
      without its most significant octet. */
  lemma LengthOctetsRead(b: seq<byte>, pos: nat, n: uint32, max: nat)
    requires HasAt(b, pos, LengthOctets(n)) && max <= |b|
    ensures var start := pos + |LengthOctets(n)|; var m := n % 0x100_0000;
            Decode(b, pos, max) == if start + m <= max then Length(start, m) else Malformed
  {
    if n < 128 {
      HasAtIndex(b, pos, LengthOctets(n), 0);
    } else {
      var t := LengthOctets(n)[1..];
      LongOctetsShape(n);
      HasAtSplit(b, pos, [128 + |t|], t);
      HasAtIndex(b, pos, [128 + |t|], 0);
      LongFormRead(b, pos, t, max);
    }
  }

  /** So a length written by the encoder is read back unchanged exactly when it is below 2^24. */
  lemma LengthRoundTrip(b: seq<byte>, pos: nat, n: uint32, max: nat)
    requires HasAt(b, pos, LengthOctets(n)) && max <= |b|
    requires pos + |LengthOctets(n)| + n <= max
    ensures Decode(b, pos, max) == Length(pos + |LengthOctets(n)|, n) <==> n < 0x100_0000
  {
    LengthOctetsRead(b, pos, n, max);
  }

  // ----- the decoder's loops, on 32-bit integers

  /** The largest window for which the length accumulator cannot leave the int range. */
  const MAX_WINDOW := 0x7f_ffff

  lemma NoOctets(b: seq<byte>, start: nat)
    requires start <= |b|
    ensures BigEndian(b[start..start]) == 0
  {
  }

  lemma OneMoreOctet(b: seq<byte>, start: nat, pos: nat)
    requires start <= pos < |b|
    ensures BigEndian(b[start..pos + 1]) == BigEndian(b[start..pos]) * 256 + b[pos]
  {
    var s := b[start..pos + 1];
    BigEndianLast(s);
    assert s[..|s| - 1] == b[start..pos] && s[|s| - 1] == b[pos];
  }

  lemma {:induction false} BigEndianPrefix(b: seq<byte>, lo: nat, mid: nat, hi: nat)
    requires lo <= mid <= hi <= |b|
    ensures BigEndian(b[lo..mid]) <= BigEndian(b[lo..hi])
    decreases hi
  {
    hide BigEndian;
    if mid < hi {
      BigEndianPrefix(b, lo, mid, hi - 1);
      OneMoreOctet(b, lo, hi - 1);
    }
  }

  /** The long definite form: the early exit on a partial value that is already too large never changes
      the verdict, and keeps the accumulator within 32 bits. */
  method DecodeLongForm(b: seq<byte>, lenLength: nat, start: nat, max: nat) returns (length: int32, bufPos: int32)
    requires start <= max <= |b| && max <= MAX_WINDOW && lenLength < 128
    ensures bufPos == -1 || bufPos == start + lenLength
    ensures bufPos != -1 ==> bufPos <= max && length == BigEndian(b[start..bufPos])
    ensures bufPos == -1 ==> start + lenLength > max || start + lenLength + BigEndian(b[start..start + lenLength]) > max
  {
    hide BigEndian;
    NoOctets(b, start);
    length, bufPos := 0, start;
    var i := 0;
    while i < lenLength
      invariant 0 <= i <= lenLength && bufPos == start + i <= max
      invariant length == BigEndian(b[start..bufPos])
    {
      if bufPos >= max {
        return -1, -1;
      }
      if bufPos + length > max {
        if start + lenLength <= max {
          BigEndianPrefix(b, start, bufPos, start + lenLength);
        }
        return -1, -1;
      }
      OneMoreOctet(b, start, bufPos);
      length := length * 256;
      length := length + b[bufPos];
      bufPos := bufPos + 1;
      i := i + 1;
    }
  }

  /** decodeLengthRecursive. */
  method DecodeLengthRecursive(b: seq<byte>, pos: nat, max: nat, depth: nat, maxDepth: nat)
    returns (length: int32, bufPos: int32)
    requires max <= |b| && max <= MAX_WINDOW && depth <= maxDepth
    ensures var r := DecodeAt(b, pos, max, maxDepth - depth);
            if r.Length? then bufPos == r.start && length == r.size else bufPos == -1
    decreases maxDepth - depth, max + 2 - pos
  {
    length := -1;
    if pos >= max {
      return -1, -1;
    }
    bufPos := pos + 1;
    var len1 := b[pos];
    if len1 >= 128 {
      var lenLength := len1 - 128;
      if lenLength == 0 {
        length := GetIndefiniteLength(b, bufPos, max, depth, maxDepth);
      } else {
        length, bufPos := DecodeLongForm(b, lenLength, bufPos, max);
        if bufPos == -1 {
          return -1, -1;
        }
      }
    } else {
      length := len1;
    }
    if length < 0 || length > max || bufPos + length > max {
      return -1, -1;
    }
  }

  /** getIndefiniteLength. */
  method GetIndefiniteLength(b: seq<byte>, start: nat, max: nat, depth: nat, maxDepth: nat) returns (result: int32)
    requires start <= max <= |b| && max <= MAX_WINDOW && depth <= maxDepth
    ensures result == if depth == maxDepth then -1 else IndefiniteSize(b, start, max, maxDepth - depth - 1)
    decreases maxDepth - depth, 0
  {
    hide DecodeAt, IndefiniteSize;
    var deeper := depth + 1;
    if deeper > maxDepth {
      return -1;
    }
    ghost var goal := IndefiniteSize(b, start, max, maxDepth - deeper);
    var length: int32, bufPos: int32 := 0, start;
    while bufPos < max
      invariant start <= bufPos <= max && length == bufPos - start
      invariant var rest := IndefiniteSize(b, bufPos, max, maxDepth - deeper);
                goal == if rest < 0 then -1 else length + rest
    {
      MeasureRound(b, bufPos, max, maxDepth - deeper);
      if b[bufPos] == 0 && bufPos + 1 < max && b[bufPos + 1] == 0 {
        return length + 2;
      }
      length := length + 1;
      if b[bufPos] % 32 == 31 {
        bufPos := bufPos + 1;
        length := length + 1;
      }
      bufPos := bufPos + 1;
      var subLength, newBufPos := DecodeLengthRecursive(b, bufPos, max, deeper, maxDepth);
      if newBufPos == -1 {
        return -1;
      }
      length := length + subLength + newBufPos - bufPos;
      bufPos := newBufPos + subLength;
    }
    MeasureRound(b, bufPos, max, maxDepth - deeper);
    return -1;
  }

  /** decodeLength: the position of the contents, or -1, and their length. */
  method DecodeLength(b: seq<byte>, pos: nat, max: nat) returns (length: int32, bufPos: int32)
    requires max <= |b| && max <= MAX_WINDOW
    ensures var r := Decode(b, pos, max);
            if r.Length? then bufPos == r.start && length == r.size else bufPos == -1
  {
    hide DecodeAt;
    length, bufPos := DecodeLengthRecursive(b, pos, max, 0, MAX_DEPTH);
  }
}
