/** The loops of parseAllData and parseAllDataUnknownValue (goose_receiver.cc), proved to compute the functions
    Refresh and Learn. */
module DataSetParsers {
  import opened Octets
  import opened BerLength
  import opened MmsValues
  import opened DataSets

  /** What is still to come, put behind the first i components of vs. */
  ghost function Resume(b: seq<byte>, pos: nat, end: nat, vs: seq<MmsValue>, i: nat): (ParseError, seq<MmsValue>)
    requires Window(b, pos, end) && i <= |vs|
  {
    var rest := Refresh(b, pos, end, vs[i..]);
    (rest.0, vs[..i] + rest.1)
  }

  lemma ResumeStep(b: seq<byte>, pos: nat, end: nat, vs: seq<MmsValue>, i: nat, vs': seq<MmsValue>)
    requires Window(b, pos, end) && pos < end && i < |vs| == |vs'| && !vs[i].Unset?
    requires Decode(b, pos + 1, end).Length?
    requires var r := Decode(b, pos + 1, end);
             vs' == vs[i := RefreshOne(b, b[pos], r.start, r.size, vs[i]).1]
    ensures var r := Decode(b, pos + 1, end);
            Resume(b, pos, end, vs, i) ==
            match RefreshOne(b, b[pos], r.start, r.size, vs[i]).0
            case NoError => Resume(b, r.start + r.size, end, vs', i + 1)
            case Overrun => (Overrun, vs')
            case _ => (Underflow, vs')
  {
    hide Decode, RefreshOne, Refresh;
    var r := Decode(b, pos + 1, end);
    RefreshStep(b, pos, end, vs[i..]);
    assert vs[i..][1..] == vs'[i + 1..];
    var one := RefreshOne(b, b[pos], r.start, r.size, vs[i]);
    assert vs'[..i + 1] == vs[..i] + [one.1];
    if one.0 == NoError {
      var rest := Refresh(b, r.start + r.size, end, vs'[i + 1..]);
      assert vs[..i] + ([one.1] + rest.1) == vs'[..i + 1] + rest.1;
    } else {
      assert vs' == vs[..i] + ([one.1] + vs[i + 1..]);
    }
  }

  /** parseAllData. */
  method ParseAllData(b: seq<byte>, start: nat, end: nat, dataSetValues: seq<MmsValue>)
    returns (pe: ParseError, values: seq<MmsValue>)
    requires Window(b, start, end) && end <= MAX_WINDOW
    ensures (pe, values) == Refresh(b, start, end, dataSetValues)
    decreases end - start, 0
  {
    hide Decode, RefreshOne;
    values := dataSetValues;
    var bufPos, elementIndex := start, 0;
    pe := NoError;
    ghost var goal := Refresh(b, start, end, dataSetValues);
    assert values[..0] + Refresh(b, start, end, values[0..]).1 == goal.1;
    while bufPos < end
      invariant start <= bufPos <= end && 0 <= elementIndex <= |values| == |dataSetValues|
      invariant pe == NoError && goal == Resume(b, bufPos, end, values, elementIndex)
      decreases end - bufPos
    {
      var tag := b[bufPos];
      if elementIndex >= |values| {
        pe := Overflow;
        assert values[..elementIndex] + values[elementIndex..] == values;
        break;
      }
      var value := values[elementIndex];
      if value.Unset? {
        assert values[..elementIndex] + values[elementIndex..] == values;
        return TypeMismatch, values;
      }
      var elementLength, contents := DecodeLength(b, bufPos + 1, end);
      if contents < 0 {
        pe := TagDecode;
        RefreshStep(b, bufPos, end, values[elementIndex..]);
        assert values[..elementIndex] + values[elementIndex..] == values;
        break;
      }
      ghost var before := values;
      pe, value := RefreshElement(b, tag, contents, elementLength, value);
      values := values[elementIndex := value];
      ResumeStep(b, bufPos, end, before, elementIndex, values);
      if pe == Overrun {
        return pe, values;
      }
      if pe != NoError {
        break;
      }
      bufPos := contents + elementLength;
      elementIndex := elementIndex + 1;
    }
    if pe == NoError {
      assert values[..elementIndex] + values[elementIndex..] == values;
    }
    if elementIndex < |values| {
      pe := Underflow;
    }
  }

  /** The switch of parseAllData. */
  method RefreshElement(b: seq<byte>, tag: byte, start: nat, size: nat, value: MmsValue)
    returns (pe: ParseError, result: MmsValue)
    requires Window(b, start, start + size) && start + size <= MAX_WINDOW
    ensures (pe, result) == RefreshOne(b, tag, start, size, value)
    decreases size, 1
  {
    hide Refresh, RefreshPrimitive;
    pe, result := NoError, value;
    if tag == 0xa1 {
      if value.MmsArray? {
        var sub, es := ParseAllData(b, start, start + size, value.elements);
        result := MmsArray(es);
        pe := Nested(sub);
      } else {
        pe := TypeMismatch;
      }
    } else if tag == 0xa2 {
      if value.MmsStructure? {
        var sub, es := ParseAllData(b, start, start + size, value.elements);
        result := MmsStructure(es);
        pe := Nested(sub);
      } else {
        pe := TypeMismatch;
      }
    } else {
      var r := RefreshPrimitive(b, tag, start, size, value);
      pe, result := r.0, r.1;
    }
  }

  /** The first pass of parseAllDataUnknownValue. */
  method CountElements(b: seq<byte>, start: nat, end: nat) returns (r: Option<nat>)
    requires Window(b, start, end) && end <= MAX_WINDOW
    ensures r == Count(b, start, end)
  {
    hide Decode, Count;
    var bufPos, elementIndex := start, 0;
    while bufPos < end
      invariant start <= bufPos <= end
      invariant var rest := Count(b, bufPos, end);
                Count(b, start, end) == if rest.None? then None else Some(elementIndex + rest.value)
    {
      CountStep(b, bufPos, end);
      var tag := b[bufPos];
      var elementLength, contents := DecodeLength(b, bufPos + 1, end);
      if contents < 0 || !KnownTag(tag) {
        return None;
      }
      bufPos := contents + elementLength;
      elementIndex := elementIndex + 1;
    }
    CountDone(b, end);
    return Some(elementIndex);
  }

  /** The second pass of parseAllDataUnknownValue. */
  method BuildElements(b: seq<byte>, start: nat, end: nat) returns (r: Option<seq<MmsValue>>)
    requires Window(b, start, end) && end <= MAX_WINDOW
    ensures r == Build(b, start, end)
    decreases end - start, 0
  {
    hide Decode, LearnOne, Build;
    var bufPos := start;
    var values: seq<MmsValue> := [];
    ghost var goal := Build(b, start, end);
    assert goal.Some? ==> [] + goal.value == goal.value;
    while bufPos < end
      invariant start <= bufPos <= end
      invariant var rest := Build(b, bufPos, end);
                goal == if rest.None? then None else Some(values + rest.value)
    {
      BuildStep(b, bufPos, end);
      var tag := b[bufPos];
      var elementLength, contents := DecodeLength(b, bufPos + 1, end);
      if contents < 0 {
        return None;
      }
      ghost var rest := Build(b, contents + elementLength, end);
      var one := LearnElement(b, tag, contents, elementLength);
      if one.Failed? {
        return None;
      }
      if one.Learned? {
        assert rest.Some? ==> values + ([one.value] + rest.value) == (values + [one.value]) + rest.value;
        values := values + [one.value];
      }
      bufPos := contents + elementLength;
    }
    BuildDone(b, end);
    assert values + [] == values;
    return Some(values);
  }

  /** The switch of the second pass. */
  method LearnElement(b: seq<byte>, tag: byte, start: nat, size: nat) returns (r: Learned)
    requires Window(b, start, start + size) && start + size <= MAX_WINDOW
    ensures r == LearnOne(b, tag, start, size)
    decreases size, 2
  {
    hide Learn, LearnPrimitive;
    if tag == 0xa1 || tag == 0xa2 {
      var v := ParseAllDataUnknownValue(b, start, start + size, tag == 0xa2);
      r := if v.None? then Failed else Learned(v.value);
    } else {
      r := LearnPrimitive(b, tag, start, size);
    }
  }

  /** parseAllDataUnknownValue. */
  method ParseAllDataUnknownValue(b: seq<byte>, start: nat, end: nat, isStructure: bool) returns (r: Option<MmsValue>)
    requires Window(b, start, end) && end <= MAX_WINDOW
    ensures r == Learn(b, start, end, isStructure)
    decreases end - start, 1
  {
    hide Count, Build;
    var n := CountElements(b, start, end);
    if n.None? {
      return None;
    }
    var values := BuildElements(b, start, end);
    if values.None? {
      return None;
    }
    var slots := Repeat(Unset, n.value);
    var i := 0;
    while i < |values.value| && i < n.value
      invariant 0 <= i <= |values.value| && i <= n.value
      invariant slots == values.value[..i] + Repeat(Unset, n.value - i)
    {
      assert Repeat(Unset, n.value - i) == [Unset] + Repeat(Unset, n.value - i - 1);
      slots := slots[i := values.value[i]];
      i := i + 1;
    }
    assert n.value <= |values.value| ==> slots == values.value[..n.value];
    assert |values.value| <= n.value ==> values.value[..i] == values.value;
    return Some(Collection(slots, isStructure));
  }
}
