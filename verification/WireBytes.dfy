/**
 * The record layer by the numbers: which bytes each kind of record is written as, and what each tag makes of what
 * follows.
 */
module WireBytes {
  import opened Options
  import opened Varint
  import opened Wire
  import opened WireTheorems
  import opened Messages
  import opened Codec

  // ----- writing

  /** The tag is eight times the field number plus 0, 1, 2, 3 or 5; a group ends with 4 in its place. */
  lemma RecordBytes(r: Record)
    ensures WriteRecord(r)
         == match r.payload
            case Number(v) => Encode(8 * r.number + 0) + Encode(v)
            case Fixed64(raw) => Encode(8 * r.number + 1) + raw
            case Bytes(data) => Encode(8 * r.number + 2) + Encode(|data|) + data
            case Group(body) => Encode(8 * r.number + 3) + WriteAll(body) + Encode(8 * r.number + 4)
            case Fixed32(raw) => Encode(8 * r.number + 5) + raw
  {
  }

  /** A field number below 16 is written in the first byte. */
  lemma FirstByte(r: Record)
    requires r.number < 16
    ensures WriteRecord(r)[0]
         == 8 * r.number + match r.payload
                           case Number(_) => 0
                           case Fixed64(_) => 1
                           case Bytes(_) => 2
                           case Group(_) => 3
                           case Fixed32(_) => 5
  {
    RecordBytes(r);
  }

  // ----- reading

  /** Some byte among the first max ends a varint. */
  predicate EndsWithin(s: seq<byte>, max: nat) {
    exists i :: 0 <= i < |s| && i < max && s[i] < 128
  }

  /** A tag ends within five bytes, and is what they spell, cut to 32 bits. */
  lemma TagBytes(s: seq<byte>)
    ensures ReadTag(s).Some? <==> EndsWithin(s, 5)
    ensures ReadTag(s).Some? ==>
              var d := ReadTag(s).value;
              && s[d.len - 1] < 128 && (forall i :: 0 <= i < d.len - 1 ==> s[i] >= 128)
              && d.value == Digits(s, d.len) % 0x1_0000_0000
  {
    DecodeEnds(s, 5);
    if Decode(s, 5).Some? { DecodeSpells(s, 5); }
  }

  /** An integer ends within ten bytes, and is what they spell, cut to 64 bits. */
  lemma NumberBytes(s: seq<byte>)
    ensures ReadVarint64(s).Some? <==> EndsWithin(s, 10)
    ensures ReadVarint64(s).Some? ==>
              var d := ReadVarint64(s).value;
              && s[d.len - 1] < 128 && (forall i :: 0 <= i < d.len - 1 ==> s[i] >= 128)
              && d.value == Digits(s, d.len) % 0x1_0000_0000_0000_0000
  {
    DecodeEnds(s, 10);
    if Decode(s, 10).Some? { DecodeSpells(s, 10); }
  }

  /** A string is a length that ends within five bytes and is below 2 GiB, and that many bytes. */
  lemma StringBytes(s: seq<byte>)
    ensures ReadBlob(s).Some? ==>
              var head := ReadBlob(s).value.len - |ReadBlob(s).value.data|;
              && 0 < head <= |s| && s[head - 1] < 128 && (forall i :: 0 <= i < head - 1 ==> s[i] >= 128)
              && |ReadBlob(s).value.data| == Digits(s, head) < 0x8000_0000
              && ReadBlob(s).value.data == s[head..ReadBlob(s).value.len]
    ensures ReadBlob(s).Some? <==>
              exists head ::
                && 0 < head <= |s| && head <= 5 && s[head - 1] < 128 && (forall i :: 0 <= i < head - 1 ==> s[i] >= 128)
                && Digits(s, head) < 0x8000_0000 && head + Digits(s, head) <= |s|
  {
    DecodeEnds(s, 5);
    if Decode(s, 5).Some? { DecodeSpells(s, 5); }
    if head :|
      && 0 < head <= |s| && head <= 5 && s[head - 1] < 128 && (forall i :: 0 <= i < head - 1 ==> s[i] >= 128)
      && Digits(s, head) < 0x8000_0000 && head + Digits(s, head) <= |s|
    {
      var len := Decode(s, 5).value.len;
      assert len == head;
    }
  }

  /** What the low three bits of a tag make of the bytes after it. */
  lemma PayloadByType(number: nat, wireType: nat, s: seq<byte>)
    ensures wireType == 0 ==>
              ReadPayload(number, wireType, s)
              == match ReadVarint64(s) case None => None case Some(d) => Some(Body(Number(d.value), d.len))
    ensures wireType == 1 ==>
              ReadPayload(number, wireType, s) == if |s| < 8 then None else Some(Body(Fixed64(s[..8]), 8))
    ensures wireType == 2 ==>
              ReadPayload(number, wireType, s)
              == match ReadBlob(s) case None => None case Some(b) => Some(Body(Bytes(b.data), b.len))
    ensures wireType == 3 ==>
              ReadPayload(number, wireType, s)
              == if ReadAll(s).end != StoppedAt(8 * number + 4) then None
                 else Some(Body(Group(ReadAll(s).records), ReadAll(s).len))
    ensures wireType == 5 ==>
              ReadPayload(number, wireType, s) == if |s| < 4 then None else Some(Body(Fixed32(s[..4]), 4))
    ensures wireType == 4 || wireType >= 6 ==> ReadPayload(number, wireType, s) == None
  {
  }

  /**
   * What the loop meets at the front of s: a malformed tag; a zero or end-group tag, where it stops; the number 0,
   * which no field has; or a record of the tag's number, if its payload is there.
   */
  lemma ItemByTag(s: seq<byte>)
    ensures !EndsWithin(s, 5) ==> ReadRecord(s) == Bad
    ensures EndsWithin(s, 5) ==>
              && ReadTag(s).Some?
              && var tag, len := ReadTag(s).value.value, ReadTag(s).value.len;
                 ReadRecord(s)
                 == if tag == 0 || tag % 8 == 4 then Stop(tag, len)
                    else if tag < 8 then Bad
                    else
                      match ReadPayload(tag / 8, tag % 8, s[len..])
                      case None => Bad
                      case Some(b) => Got(Record(tag / 8, b.payload), len + b.len)
  {
    TagBytes(s);
  }

  // ----- worked examples

  /** The guide's own examples: field 1 with the integer 150, and field 2 with the string "testing". */
  lemma GuideExamples()
    ensures WriteRecord(Record(1, Number(150))) == [0x08, 0x96, 0x01]
    ensures WriteRecord(Record(2, Bytes([0x74, 0x65, 0x73, 0x74, 0x69, 0x6e, 0x67])))
         == [0x12, 0x07, 0x74, 0x65, 0x73, 0x74, 0x69, 0x6e, 0x67]
    ensures ReadRecord([0x2D, 1, 2, 3, 4]) == Got(Record(5, Fixed32([1, 2, 3, 4])), 5)
  {
    EncodeStep(150);
    RecordBytes(Record(1, Number(150)));
    RecordBytes(Record(2, Bytes([0x74, 0x65, 0x73, 0x74, 0x69, 0x6e, 0x67])));
    var s: seq<byte> := [0x2D, 1, 2, 3, 4];
    assert Decode(s, 5) == Some(Decoded(0x2D, 1));
    assert s[1..] == [1, 2, 3, 4] && s[1..][..4] == s[1..];
    PayloadByType(5, 5, s[1..]);
  }

  /** The server's error response: return value -1 and the text "no". */
  lemma ErrorResponse()
    ensures Serialize(RSP, Msg(map[1 := Num(-1), 2 := Text([0x6e, 0x6f])], []))
         == [0x08, 255, 255, 255, 255, 255, 255, 255, 255, 255, 1, 0x12, 0x02, 0x6e, 0x6f]
  {
    var m := Msg(map[1 := Num(-1), 2 := Text([0x6e, 0x6f])], []);
    SerializeSplits(RSP, m);
    TwoFields(1, 2, m.known);
    ErrorFields();
    assert FieldBytes(1, m.known) == WriteRecord(FieldRecord(1, Num(-1)));
    assert FieldBytes(2, m.known) == WriteRecord(FieldRecord(2, Text([0x6e, 0x6f])));
  }

  lemma ErrorFields()
    ensures WriteRecord(FieldRecord(1, Num(-1))) == [0x08, 255, 255, 255, 255, 255, 255, 255, 255, 255, 1]
    ensures WriteRecord(FieldRecord(2, Text([0x6e, 0x6f]))) == [0x12, 0x02, 0x6e, 0x6f]
  {
    NumberField(1, -1);
    var s: seq<byte> := [255, 255, 255, 255, 255, 255, 255, 255, 255, 1];
    assert Encode(SignExtend64(-1)) == s by { NegativeBytes(-1); }
    assert [0x08] + s == [0x08, 255, 255, 255, 255, 255, 255, 255, 255, 255, 1];
    TextField(2, [0x6e, 0x6f]);
  }

  lemma NumberField(n: nat, v: int32)
    requires n < 16
    ensures WriteRecord(FieldRecord(n, Num(v))) == [8 * n] + Encode(SignExtend64(v))
  {
    RecordBytes(FieldRecord(n, Num(v)));
  }

  lemma TextField(n: nat, data: seq<byte>)
    requires n < 16 && |data| < 128
    ensures WriteRecord(FieldRecord(n, Text(data))) == [8 * n + 2, |data|] + data
  {
    RecordBytes(FieldRecord(n, Text(data)));
  }
}
