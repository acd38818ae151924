/** The encoders that store into a message buffer (ber_encoder.cc, mms_access_result.cc).  Each returns the
    next free position and leaves every octet outside what it wrote unchanged. */
module BerEncoders {
  import opened Octets
  import opened BerLength
  import opened MmsValues
  import BerInteger

  /** encodeTL. */
  method EncodeTL(tag: byte, length: nat, buffer: array<byte>, bufPos: nat) returns (end: nat)
    requires bufPos + 1 + |Announce(length)| <= buffer.Length
    modifies buffer
    ensures end == bufPos + 1 + |Announce(length)|
    ensures buffer[..] == Splice(old(buffer[..]), bufPos, [tag] + Announce(length))
  {
    hide LengthOctets;
    end := Copy(buffer, bufPos, [tag]);
    end := EncodeLength(length % 0x1_0000_0000, buffer, end);
    SpliceSplice(old(buffer[..]), bufPos, [tag], Announce(length));
  }

  /** encodeOctetString; with the characters of a C string, also encodeStringWithTag. */
  method EncodeOctetString(tag: byte, octets: seq<byte>, buffer: array<byte>, bufPos: nat) returns (end: nat)
    requires bufPos + |Tlv(tag, octets)| <= buffer.Length
    modifies buffer
    ensures end == bufPos + |Tlv(tag, octets)|
    ensures buffer[..] == Splice(old(buffer[..]), bufPos, Tlv(tag, octets))
  {
    hide Announce;
    end := EncodeTL(tag, |octets|, buffer, bufPos);
    end := Copy(buffer, end, octets);
    SpliceSplice(old(buffer[..]), bufPos, [tag] + Announce(|octets|), octets);
    assert Tlv(tag, octets) == [tag] + Announce(|octets|) + octets;
  }

  /** encodeUInt32WithTL: the value is put behind a zero octet, compressed in place and copied out. */
  method EncodeUInt32WithTL(tag: byte, value: uint32, buffer: array<byte>, bufPos: nat) returns (end: nat)
    requires bufPos + |Tlv(tag, BerInteger.UIntOctets(value))| <= buffer.Length
    modifies buffer
    ensures end == bufPos + |Tlv(tag, BerInteger.UIntOctets(value))|
    ensures buffer[..] == Splice(old(buffer[..]), bufPos, Tlv(tag, BerInteger.UIntOctets(value)))
  {
    hide BerInteger.Compress, Tlv, Announce;
    var valueBuffer := new byte[5];
    var i := Copy(valueBuffer, 0, [0] + U32Octets(value));
    assert valueBuffer[..5] == [0] + U32Octets(value);
    var size := BerInteger.CompressInteger(valueBuffer, 5);
    end := EncodeOctetString(tag, valueBuffer[..size], buffer, bufPos);
  }

  /** encodeBitString: the octets are copied, then the padding bits of the last one are cleared. */
  method EncodeBitString(tag: byte, bitStringSize: nat, bitString: seq<byte>, buffer: array<byte>, bufPos: nat)
                         returns (end: nat)
    requires bitStringSize < 0x8000_0000 && |bitString| == BitOctets(bitStringSize)
    requires bufPos + |Tlv(tag, Contents(MmsBitString(bitStringSize, bitString)))| <= buffer.Length
    modifies buffer
    ensures end == bufPos + |Tlv(tag, Contents(MmsBitString(bitStringSize, bitString)))|
    ensures buffer[..] == Splice(old(buffer[..]), bufPos, Tlv(tag, Contents(MmsBitString(bitStringSize, bitString))))
  {
    hide Announce, ClearLow, Tlv, Contents, Splice;
    var byteSize := bitStringSize / 8;
    if bitStringSize % 8 != 0 {
      byteSize := byteSize + 1;
    }
    var padding := byteSize * 8 - bitStringSize;
    ghost var raw := Tlv(tag, [padding] + bitString);
    MaskedLast(tag, bitStringSize, bitString, padding);
    end := EncodeOctetString(tag, [padding] + bitString, buffer, bufPos);
    if byteSize > 0 {
      var last := ClearLow(bitString[byteSize - 1], padding);
      SpliceLast(old(buffer[..]), bufPos, raw, last);
      assert buffer[end - 1] == buffer[..][end - 1] == bitString[byteSize - 1];
      buffer[end - 1] := ClearLow(buffer[end - 1], padding);
    }
  }

  lemma SpliceLast(b: seq<byte>, pos: nat, t: seq<byte>, x: byte)
    requires t != [] && pos + |t| <= |b|
    ensures var f := Splice(b, pos, t); var end := pos + |t|;
            f[end - 1] == t[|t| - 1] && f[end - 1 := x] == Splice(b, pos, t[|t| - 1 := x])
  {
  }

  lemma MaskedLast(tag: byte, n: nat, bits: seq<byte>, padding: byte)
    requires n < 0x8000_0000 && |bits| == BitOctets(n) && padding == 8 * |bits| - n
    ensures var raw, coded := Tlv(tag, [padding] + bits), Tlv(tag, Contents(MmsBitString(n, bits)));
            && raw != [] && |raw| == |coded|
            && if bits == [] then coded == raw
               else raw[|raw| - 1] == bits[|bits| - 1] && coded == raw[|raw| - 1 := ClearLow(bits[|bits| - 1], padding)]
  {
    hide Announce, ClearLow;
    var c := [padding] + bits;
    if bits == [] {
      assert Contents(MmsBitString(n, bits)) == c;
    } else {
      var x := ClearLow(bits[|bits| - 1], padding);
      assert Contents(MmsBitString(n, bits)) == c[|c| - 1 := x];
      hide Contents;
      TlvLast(tag, c, x);
    }
  }

  lemma TlvLast(tag: byte, c: seq<byte>, x: byte)
    requires c != []
    ensures var raw := Tlv(tag, c);
            raw != [] && raw[|raw| - 1] == c[|c| - 1] && Tlv(tag, c[|c| - 1 := x]) == raw[|raw| - 1 := x]
  {
    hide Announce;
  }

  /** encodeMmsData with encode == true. */
  method EncodeMmsData(v: MmsValue, buffer: array<byte>, bufPos: nat) returns (end: nat)
    requires Encodable(v) && bufPos + |Encode(v)| <= buffer.Length
    modifies buffer
    ensures end == bufPos + |Encode(v)|
    ensures buffer[..] == Splice(old(buffer[..]), bufPos, Encode(v))
    decreases v, 2
  {
    hide Announce, SizeAll, EncodeAll, Contents, Splice;
    if v.MmsArray? || v.MmsStructure? {
      end := EncodeCollection(v, buffer, bufPos);
    } else if v.MmsBitString? {
      end := EncodeBitString(0x84, v.bitSize, v.bits, buffer, bufPos);
    } else {
      end := EncodeOctetString(Tag(v), Contents(v), buffer, bufPos);
    }
  }

  /** encodeArrayAccessResult and encodeStructuredAccessResult: the announced length is the size pass's. */
  method EncodeCollection(v: MmsValue, buffer: array<byte>, bufPos: nat) returns (end: nat)
    requires Encodable(v) && (v.MmsArray? || v.MmsStructure?) && bufPos + |Encode(v)| <= buffer.Length
    modifies buffer
    ensures end == bufPos + |Encode(v)|
    ensures buffer[..] == Splice(old(buffer[..]), bufPos, Encode(v))
    decreases v, 1
  {
    hide Announce, SizeAll, EncodeAll, Contents, Splice;
    ghost var head := [Tag(v)] + Announce(SizeAll(v.elements));
    assert Encode(v) == head + EncodeAll(v.elements);
    end := EncodeTL(Tag(v), SizeAll(v.elements), buffer, bufPos);
    end := EncodeElements(v.elements, buffer, end);
    SpliceSplice(old(buffer[..]), bufPos, head, EncodeAll(v.elements));
  }

  /** The loop over the components of an array, a structure or a data set. */
  method EncodeElements(vs: seq<MmsValue>, buffer: array<byte>, bufPos: nat) returns (end: nat)
    requires AllEncodable(vs) && bufPos + |EncodeAll(vs)| <= buffer.Length
    modifies buffer
    ensures end == bufPos + |EncodeAll(vs)|
    ensures buffer[..] == Splice(old(buffer[..]), bufPos, EncodeAll(vs))
    decreases vs, 0
  {
    hide Encode, EncodeAll, Splice;
    end := bufPos;
    var i := 0;
    NothingEncoded(buffer[..], bufPos);
    assert vs[..0] == [];
    while i < |vs|
      invariant 0 <= i <= |vs|
      invariant end == bufPos + |EncodeAll(vs[..i])| <= buffer.Length
      invariant buffer[..] == Splice(old(buffer[..]), bufPos, EncodeAll(vs[..i]))
    {
      EncodeAllSnoc(vs, i);
      end := EncodeMmsData(vs[i], buffer, end);
      SpliceSplice(old(buffer[..]), bufPos, EncodeAll(vs[..i]), Encode(vs[i]));
      i := i + 1;
    }
    assert vs[..i] == vs;
  }

  lemma NothingEncoded(b: seq<byte>, pos: nat)
    requires pos <= |b|
    ensures EncodeAll([]) == [] && Splice(b, pos, []) == b
  {
  }

  lemma EncodeAllSnoc(vs: seq<MmsValue>, i: nat)
    requires AllEncodable(vs) && i < |vs|
    ensures EncodeAll(vs[..i + 1]) == EncodeAll(vs[..i]) + Encode(vs[i])
    ensures |EncodeAll(vs[..i + 1])| <= |EncodeAll(vs)|
  {
    hide Encode, EncodeAll;
    assert vs[..i + 1] == vs[..i] + [vs[i]];
    EncodeAllAppend(vs[..i], [vs[i]]);
    EncodeAllOne(vs[i]);
    assert vs == vs[..i + 1] + vs[i + 1..];
    EncodeAllAppend(vs[..i + 1], vs[i + 1..]);
  }

  lemma EncodeAllOne(v: MmsValue)
    requires Encodable(v)
    ensures EncodeAll([v]) == Encode(v)
  {
    hide Encode;
    assert EncodeAll([v][1..]) == [];
  }

  lemma {:induction false} EncodeAllAppend(vs: seq<MmsValue>, ws: seq<MmsValue>)
    requires AllEncodable(vs) && AllEncodable(ws)
    ensures EncodeAll(vs + ws) == EncodeAll(vs) + EncodeAll(ws)
  {
    hide Encode;
    if vs == [] {
      assert vs + ws == ws;
    } else {
      assert (vs + ws)[1..] == vs[1..] + ws;
      EncodeAllAppend(vs[1..], ws);
    }
  }
}
