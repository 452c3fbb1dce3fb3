/** Locality, round trip, soundness and truncation of the record layer. */
module WireTheorems {
  import opened Options
  import opened Varint
  import opened Wire

  lemma PrependTwice(a: seq<Record>, la: nat, b: seq<Record>, lb: nat, rest: Reading)
    ensures Prepend(a, la, Prepend(b, lb, rest)) == Prepend(a + b, la + lb, rest)
  {
    assert a + (b + rest.records) == (a + b) + rest.records;
  }

  lemma TagParts(number: nat, wireType: nat)
    requires wireType < 8
    ensures Tag(number, wireType) / 8 == number && Tag(number, wireType) % 8 == wireType
    ensures 1 <= number < NUMBER_LIMIT ==> 0 < Tag(number, wireType) < TWO_32
  {
  }

  // ----- locality: bytes beyond what a reader used never change what it read

  lemma TagExtend(s: seq<byte>, t: seq<byte>)
    requires ReadTag(s).Some?
    ensures ReadTag(s + t) == ReadTag(s)
  {
    DecodeExtend(s, 5, t);
  }

  lemma BlobExtend(s: seq<byte>, t: seq<byte>)
    requires ReadBlob(s).Some?
    ensures ReadBlob(s + t) == ReadBlob(s)
  {
    DecodeExtend(s, 5, t);
    var d := Decode(s, 5).value;
    assert (s + t)[d.len..d.len + d.value] == s[d.len..d.len + d.value];
  }

  lemma {:induction false} PayloadExtend(number: nat, wireType: nat, s: seq<byte>, t: seq<byte>)
    requires ReadPayload(number, wireType, s).Some?
    ensures ReadPayload(number, wireType, s + t) == ReadPayload(number, wireType, s)
    decreases |s|, 2
  {
    if wireType == VARINT {
      DecodeExtend(s, 10, t);
    } else if wireType == I64 {
      assert (s + t)[..8] == s[..8];
    } else if wireType == I32 {
      assert (s + t)[..4] == s[..4];
    } else if wireType == LEN {
      BlobExtend(s, t);
    } else if wireType == SGROUP {
      AllExtend(s, t);
    }
  }

  lemma {:induction false} RecordExtend(s: seq<byte>, t: seq<byte>)
    requires !ReadRecord(s).Bad?
    ensures ReadRecord(s + t) == ReadRecord(s)
    decreases |s|, 0
  {
    TagExtend(s, t);
    var d := ReadTag(s).value;
    assert (s + t)[d.len..] == s[d.len..] + t;
    if ReadRecord(s).Got? {
      PayloadExtend(d.value / 8, d.value % 8, s[d.len..], t);
    }
  }

  /** A loop that stopped inside s stops there whatever follows; one that used up s goes on with what follows. */
  lemma {:induction false} AllExtend(s: seq<byte>, t: seq<byte>)
    ensures ReadAll(s).end.StoppedAt? ==> ReadAll(s + t) == ReadAll(s)
    ensures ReadAll(s).end == AtEnd ==> ReadAll(s + t) == Prepend(ReadAll(s).records, |s|, ReadAll(t))
    decreases |s|, 1
  {
    if s == [] {
      assert s + t == t;
    } else if !ReadRecord(s).Bad? {
      RecordExtend(s, t);
      if ReadRecord(s).Got? {
        var item := ReadRecord(s);
        assert (s + t)[item.len..] == s[item.len..] + t;
        AllExtend(s[item.len..], t);
        if ReadAll(s).end == AtEnd {
          PrependTwice([item.record], item.len, ReadAll(s[item.len..]).records, |s| - item.len, ReadAll(t));
        }
      }
    }
  }

  lemma OneMore(s: seq<byte>, r: Record, len: nat, rest: seq<byte>)
    requires s != [] && ReadRecord(s) == Got(r, len) && rest == s[len..]
    ensures ReadAll(s) == Prepend([r], len, ReadAll(rest))
  {
  }

  lemma TagThenPayload(s: seq<byte>, d: Decoded, rest: seq<byte>)
    requires ReadTag(s) == Some(d) && rest == s[d.len..]
    ensures ReadRecord(s) == ItemAfter(d, ReadPayload(d.value / 8, d.value % 8, rest))
  {
  }

  /** What the record at ptr is, once its tag was read. */
  lemma AfterTag(input: seq<byte>, ptr: nat, tag: nat, next: nat)
    requires ptr < next <= |input| && ReadTag(input[ptr..]) == Some(Decoded(tag, next - ptr))
    ensures ReadRecord(input[ptr..])
         == ItemAfter(Decoded(tag, next - ptr), ReadPayload(tag / 8, tag % 8, input[next..]))
  {
    assert input[next..] == input[ptr..][next - ptr..];
    TagThenPayload(input[ptr..], Decoded(tag, next - ptr), input[next..]);
  }

  // ----- round trip: what was written is read back, whatever follows

  lemma TagRoundTrip(tag: nat, t: seq<byte>)
    requires tag < TWO_32
    ensures ReadTag(Encode(tag) + t) == Some(Decoded(tag, |Encode(tag)|))
  {
    EncodeLength32(tag);
    DecodeEncode(tag, 5, t);
  }

  lemma VarintRoundTrip(v: nat, t: seq<byte>)
    requires v < TWO_64
    ensures ReadVarint64(Encode(v) + t) == Some(Decoded(v, |Encode(v)|))
  {
    EncodeLength64(v);
    DecodeEncode(v, 10, t);
    Modulo64(v);
  }

  lemma BlobRoundTrip(data: seq<byte>, t: seq<byte>)
    requires |data| < TWO_31
    ensures ReadBlob(Encode(|data|) + data + t) == Some(Blob(data, |Encode(|data|)| + |data|))
  {
    EncodeLength32(|data|);
    assert Encode(|data|) + data + t == Encode(|data|) + (data + t);
    DecodeEncode(|data|, 5, data + t);
  }

  function WireType(p: Payload): nat {
    match p
    case Number(_) => VARINT
    case Fixed64(_) => I64
    case Bytes(_) => LEN
    case Group(_) => SGROUP
    case Fixed32(_) => I32
  }

  /** The bytes of a record after its tag. */
  function WritePayload(r: Record): seq<byte> {
    match r.payload
    case Number(v) => Encode(v)
    case Fixed64(raw) => raw
    case Bytes(data) => Encode(|data|) + data
    case Group(body) => WriteAll(body) + Encode(Tag(r.number, EGROUP))
    case Fixed32(raw) => raw
  }

  lemma WriteSplits(r: Record)
    ensures WriteRecord(r) == Encode(Tag(r.number, WireType(r.payload))) + WritePayload(r)
  {
  }

  /** After a written tag the reader goes straight to the payload. */
  lemma RecordAfterTag(number: nat, wireType: nat, rest: seq<byte>)
    requires 1 <= number < NUMBER_LIMIT && wireType < 8 && wireType != EGROUP
    ensures ReadRecord(Encode(Tag(number, wireType)) + rest)
         == match ReadPayload(number, wireType, rest)
            case None => Bad
            case Some(b) => Got(Record(number, b.payload), |Encode(Tag(number, wireType))| + b.len)
  {
    var tag := Tag(number, wireType);
    TagParts(number, wireType);
    TagRoundTrip(tag, rest);
    assert (Encode(tag) + rest)[|Encode(tag)|..] == rest;
  }

  lemma StopTag(tag: nat, t: seq<byte>)
    requires tag < TWO_32 && tag % 8 == EGROUP
    ensures ReadAll(Encode(tag) + t) == Reading([], StoppedAt(tag), |Encode(tag)|)
  {
    TagRoundTrip(tag, t);
  }

  lemma FlatPayloadRoundTrip(number: nat, p: Payload, t: seq<byte>)
    requires Sound(Record(number, p)) && !p.Group?
    ensures var s := WritePayload(Record(number, p));
            ReadPayload(number, WireType(p), s + t) == Some(Body(p, |s|))
  {
    match p
    case Number(v) => VarintRoundTrip(v, t);
    case Fixed64(raw) => assert (raw + t)[..8] == raw;
    case Bytes(data) => BlobRoundTrip(data, t);
    case Fixed32(raw) => assert (raw + t)[..4] == raw;
  }

  lemma {:induction false} GroupRoundTrip(number: nat, body: seq<Record>, t: seq<byte>)
    requires 1 <= number < NUMBER_LIMIT && AllSound(body)
    ensures var s := WriteAll(body) + Encode(Tag(number, EGROUP));
            ReadPayload(number, SGROUP, s + t) == Some(Body(Group(body), |s|))
    decreases body, 1
  {
    var tag := Tag(number, EGROUP);
    assert WriteAll(body) + Encode(tag) + t == WriteAll(body) + (Encode(tag) + t);
    AllRoundTrip(body, Encode(tag) + t);
    TagParts(number, EGROUP);
    StopTag(tag, t);
    assert body + [] == body;
  }

  lemma {:induction false} PayloadRoundTrip(r: Record, t: seq<byte>)
    requires Sound(r)
    ensures ReadPayload(r.number, WireType(r.payload), WritePayload(r) + t) == Some(Body(r.payload, |WritePayload(r)|))
    decreases r, 1
  {
    if r.payload.Group? {
      GroupRoundTrip(r.number, r.payload.body, t);
    } else {
      FlatPayloadRoundTrip(r.number, r.payload, t);
    }
  }

  lemma {:induction false} RecordRoundTrip(r: Record, t: seq<byte>)
    requires Sound(r)
    ensures ReadRecord(WriteRecord(r) + t) == Got(r, |WriteRecord(r)|)
    decreases r, 2
  {
    var head := Encode(Tag(r.number, WireType(r.payload)));
    WriteSplits(r);
    assert WriteRecord(r) + t == head + (WritePayload(r) + t);
    RecordAfterTag(r.number, WireType(r.payload), WritePayload(r) + t);
    PayloadRoundTrip(r, t);
  }

  lemma {:induction false} AllRoundTrip(rs: seq<Record>, t: seq<byte>)
    requires AllSound(rs)
    ensures ReadAll(WriteAll(rs) + t) == Prepend(rs, |WriteAll(rs)|, ReadAll(t))
    decreases rs, 0
  {
    if rs == [] {
      assert WriteAll(rs) + t == t;
    } else {
      var rest := WriteAll(rs[1..]) + t;
      assert WriteAll(rs) + t == WriteRecord(rs[0]) + rest;
      RecordRoundTrip(rs[0], rest);
      assert (WriteRecord(rs[0]) + rest)[|WriteRecord(rs[0])|..] == rest;
      AllRoundTrip(rs[1..], t);
      PrependTwice([rs[0]], |WriteRecord(rs[0])|, rs[1..], |WriteAll(rs[1..])|, ReadAll(t));
      assert [rs[0]] + rs[1..] == rs;
    }
  }

  // ----- soundness: every record that is read could have been written

  lemma {:induction false} PayloadSound(number: nat, wireType: nat, s: seq<byte>)
    requires 1 <= number < NUMBER_LIMIT && ReadPayload(number, wireType, s).Some?
    ensures Sound(Record(number, ReadPayload(number, wireType, s).value.payload))
    decreases |s|, 2
  {
    if wireType == SGROUP {
      AllReadSound(s);
    }
  }

  /** Whatever the input, every record read from it is sound, and the loop reads at most one record a byte. */
  lemma {:induction false} AllReadSound(s: seq<byte>)
    ensures AllSound(ReadAll(s).records)
    ensures |ReadAll(s).records| <= ReadAll(s).len <= |s|
    ensures ReadAll(s).end.StoppedAt? ==> ReadAll(s).end.tag == 0 || ReadAll(s).end.tag % 8 == EGROUP
    decreases |s|, 1
  {
    if s != [] && ReadRecord(s).Got? {
      var item := ReadRecord(s);
      var d := ReadTag(s).value;
      PayloadSound(d.value / 8, d.value % 8, s[d.len..]);
      AllReadSound(s[item.len..]);
      assert ReadAll(s).records[1..] == ReadAll(s[item.len..]).records;
    }
  }

  // ----- truncation: cutting an encoding anywhere but between records is always noticed

  lemma BlobTruncated(data: seq<byte>, k: nat)
    requires |data| < TWO_31 && k < |Encode(|data|) + data|
    ensures ReadBlob((Encode(|data|) + data)[..k]).None?
  {
    var head := Encode(|data|);
    if k < |head| {
      assert (head + data)[..k] == head[..k];
      DecodeTruncated(|data|, k, 5);
    } else {
      EncodeLength32(|data|);
      assert (head + data)[..k] == head + data[..k - |head|];
      DecodeEncode(|data|, 5, data[..k - |head|]);
    }
  }

  lemma {:induction false} PayloadTruncated(r: Record, k: nat)
    requires Sound(r) && k < |WritePayload(r)|
    ensures ReadPayload(r.number, WireType(r.payload), WritePayload(r)[..k]).None?
    decreases r, 1
  {
    match r.payload
    case Number(v) => DecodeTruncated(v, k, 10);
    case Fixed64(raw) =>
    case Bytes(data) => BlobTruncated(data, k);
    case Group(body) => GroupTruncated(r.number, body, k);
    case Fixed32(raw) =>
  }

  lemma {:induction false} GroupTruncated(number: nat, body: seq<Record>, k: nat)
    requires 1 <= number < NUMBER_LIMIT && AllSound(body)
    requires k < |WriteAll(body) + Encode(Tag(number, EGROUP))|
    ensures !ReadAll((WriteAll(body) + Encode(Tag(number, EGROUP)))[..k]).end.StoppedAt?
    decreases body, 1
  {
    var all, tag := WriteAll(body), Encode(Tag(number, EGROUP));
    if k <= |all| {
      assert (all + tag)[..k] == all[..k];
      AllTruncated(body, k);
    } else {
      var cut := tag[..k - |all|];
      assert (all + tag)[..k] == all + cut;
      AllRoundTrip(body, cut);
      DecodeTruncated(Tag(number, EGROUP), k - |all|, 5);
    }
  }

  /** A record cut after its tag: the tag is read, the payload is not. */
  lemma {:induction false} CutAfterTag(r: Record, k: nat)
    requires Sound(r) && k < |WritePayload(r)|
    ensures ReadRecord(Encode(Tag(r.number, WireType(r.payload))) + WritePayload(r)[..k]).Bad?
    decreases r, 2
  {
    RecordAfterTag(r.number, WireType(r.payload), WritePayload(r)[..k]);
    PayloadTruncated(r, k);
  }

  lemma CutInTag(tag: nat, k: nat)
    requires k < |Encode(tag)|
    ensures ReadRecord(Encode(tag)[..k]).Bad?
  {
    DecodeTruncated(tag, k, 5);
  }

  lemma CutJoined(a: seq<byte>, b: seq<byte>, k: nat)
    requires k <= |a + b|
    ensures (a + b)[..k] == if k < |a| then a[..k] else a + b[..k - |a|]
  {
  }

  lemma {:induction false} RecordTruncated(r: Record, k: nat)
    requires Sound(r) && k < |WriteRecord(r)|
    ensures ReadRecord(WriteRecord(r)[..k]).Bad?
    decreases r, 3
  {
    var tag := Tag(r.number, WireType(r.payload));
    WriteSplits(r);
    CutJoined(Encode(tag), WritePayload(r), k);
    if k < |Encode(tag)| {
      CutInTag(tag, k);
    } else {
      CutAfterTag(r, k - |Encode(tag)|);
    }
  }

  /** How many records lie completely within the first k bytes of their encoding. */
  function Complete(rs: seq<Record>, k: nat): (j: nat)
    ensures j <= |rs|
  {
    if rs == [] || k < |WriteRecord(rs[0])| then 0 else 1 + Complete(rs[1..], k - |WriteRecord(rs[0])|)
  }

  /** Reading the first k bytes yields exactly the complete records; it succeeds only when k ends the last of them. */
  lemma {:induction false} AllTruncated(rs: seq<Record>, k: nat)
    requires AllSound(rs) && k <= |WriteAll(rs)|
    ensures var j := Complete(rs, k);
            && ReadAll(WriteAll(rs)[..k]).records == rs[..j]
            && ReadAll(WriteAll(rs)[..k]).end == (if k == |WriteAll(rs[..j])| then AtEnd else Failed)
    decreases rs, 0
  {
    if rs == [] {
      assert WriteAll(rs)[..k] == [];
    } else if k < |WriteRecord(rs[0])| {
      assert WriteAll(rs)[..k] == WriteRecord(rs[0])[..k];
      if k > 0 { RecordTruncated(rs[0], k); }
    } else {
      AllTruncated(rs[1..], k - |WriteRecord(rs[0])|);
      FirstThenCut(rs, k);
      WriteAllTake(rs, Complete(rs, k));
    }
  }

  lemma WriteAllTake(rs: seq<Record>, j: nat)
    requires 1 <= j <= |rs|
    ensures rs[..j] == [rs[0]] + rs[1..][..j - 1]
    ensures WriteAll(rs[..j]) == WriteRecord(rs[0]) + WriteAll(rs[1..][..j - 1])
  {
    assert rs[..j][1..] == rs[1..][..j - 1];
  }

  lemma FirstThenCut(rs: seq<Record>, k: nat)
    requires rs != [] && Sound(rs[0]) && |WriteRecord(rs[0])| <= k <= |WriteAll(rs)|
    ensures var size := |WriteRecord(rs[0])|;
            ReadAll(WriteAll(rs)[..k]) == Prepend([rs[0]], size, ReadAll(WriteAll(rs[1..])[..k - size]))
  {
    var first := WriteRecord(rs[0]);
    var cut := WriteAll(rs[1..])[..k - |first|];
    assert WriteAll(rs)[..k] == first + cut;
    RecordRoundTrip(rs[0], cut);
    assert (first + cut)[|first|..] == cut;
  }

  // ----- the list forms distribute over concatenation

  lemma {:induction false} WriteAllAppend(a: seq<Record>, b: seq<Record>)
    ensures WriteAll(a + b) == WriteAll(a) + WriteAll(b)
  {
    if a == [] {
      assert a + b == b;
    } else {
      assert (a + b)[1..] == a[1..] + b;
      WriteAllAppend(a[1..], b);
    }
  }

  lemma {:induction false} AllSoundAppend(a: seq<Record>, b: seq<Record>)
    ensures AllSound(a + b) <==> AllSound(a) && AllSound(b)
  {
    if a == [] {
      assert a + b == b;
    } else {
      assert (a + b)[1..] == a[1..] + b;
      AllSoundAppend(a[1..], b);
    }
  }

  /** The encoding of a record list determines the list. */
  lemma WriteAllInjective(a: seq<Record>, b: seq<Record>)
    requires AllSound(a) && AllSound(b)
    ensures WriteAll(a) == WriteAll(b) <==> a == b
  {
    AllRoundTrip(a, []);
    AllRoundTrip(b, []);
    assert WriteAll(a) + [] == WriteAll(a) && WriteAll(b) + [] == WriteAll(b);
    assert a + [] == a && b + [] == b;
  }
}
