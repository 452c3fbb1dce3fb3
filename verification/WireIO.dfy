/** The runtime's readers and writers as loops over bytes, each proved against the record layer. */
module WireIO {
  import opened Options
  import opened Varint
  import opened Wire
  import opened WireTheorems

  // ----- readers: `ptr` moves over the input; after a failure the value read so far is unspecified

  /** Seven more bits a step, until a byte without its top bit or `max` bytes. */
  method ReadVarint(input: seq<byte>, ptr: nat, max: nat) returns (ok: bool, value: nat, next: nat)
    requires ptr <= |input|
    ensures ok <==> Decode(input[ptr..], max).Some?
    ensures ok ==> ptr < next <= |input| && Decode(input[ptr..], max) == Some(Decoded(value, next - ptr))
  {
    value := 0;
    var scale: nat, i: nat := 1, 0;
    next := ptr;
    while i < max && next < |input|
      invariant i <= max && next == ptr + i <= |input|
      invariant Decode(input[ptr..], max) == Shifted(Decode(input[next..], max - i), value, scale, i)
    {
      DecodeStep(input, next, max - i, value, scale, i);
      var b := input[next];
      next := next + 1;
      if b < 128 {
        return true, Added(value, scale, b), next;
      }
      value := Added(value, scale, b - 128);
      scale := 128 * scale;
      i := i + 1;
    }
    ok := false;
  }

  function Added(low: nat, scale: nat, digit: nat): nat {
    low + scale * digit
  }

  /** A varint of which i bytes, worth `low`, were read already. */
  ghost function Shifted(d: Option<Decoded>, low: nat, scale: nat, i: nat): Option<Decoded> {
    match d
    case None => None
    case Some(d) => Some(Decoded(Added(low, scale, d.value), i + d.len))
  }

  lemma DecodeStep(input: seq<byte>, at: nat, max: nat, low: nat, scale: nat, i: nat)
    requires at < |input| && max > 0
    ensures input[at] < 128 ==>
              Shifted(Decode(input[at..], max), low, scale, i) == Some(Decoded(Added(low, scale, input[at]), i + 1))
    ensures input[at] >= 128 ==>
              Shifted(Decode(input[at..], max), low, scale, i)
              == Shifted(Decode(input[at + 1..], max - 1), Added(low, scale, input[at] - 128), 128 * scale, i + 1)
  {
    assert input[at..][1..] == input[at + 1..];
    var b, rest := input[at], Decode(input[at + 1..], max - 1);
    if b >= 128 && rest.Some? {
      AddedTwice(low, scale, b - 128, rest.value.value);
    }
  }

  lemma AddedTwice(low: nat, scale: nat, digit: nat, rest: nat)
    ensures Added(low, scale, digit + 128 * rest) == Added(Added(low, scale, digit), 128 * scale, rest)
  {
    assert scale * (digit + 128 * rest) == scale * digit + 128 * scale * rest;
  }

  method ReadTagAt(input: seq<byte>, ptr: nat) returns (ok: bool, tag: nat, next: nat)
    requires ptr <= |input|
    ensures ok <==> ReadTag(input[ptr..]).Some?
    ensures ok ==> ptr < next <= |input| && ReadTag(input[ptr..]) == Some(Decoded(tag, next - ptr))
  {
    ok, tag, next := ReadVarint(input, ptr, 5);
    tag := tag % TWO_32;
  }

  method ReadVarint64At(input: seq<byte>, ptr: nat) returns (ok: bool, value: nat, next: nat)
    requires ptr <= |input|
    ensures ok <==> ReadVarint64(input[ptr..]).Some?
    ensures ok ==> ptr < next <= |input| && ReadVarint64(input[ptr..]) == Some(Decoded(value, next - ptr))
  {
    ok, value, next := ReadVarint(input, ptr, 10);
    value := value % TWO_64;
  }

  method InlineGreedyStringParser(input: seq<byte>, ptr: nat) returns (ok: bool, data: seq<byte>, next: nat)
    requires ptr <= |input|
    ensures ok <==> ReadBlob(input[ptr..]).Some?
    ensures ok ==> ptr < next <= |input| && ReadBlob(input[ptr..]) == Some(Blob(data, next - ptr))
  {
    var size: nat;
    data := [];
    ok, size, next := ReadVarint(input, ptr, 5);
    if ok {
      if size < TWO_31 && next + size <= |input| {
        data := input[next..next + size];
        assert input[ptr..][next - ptr..next - ptr + size] == data;
        next := next + size;
      } else {
        ok := false;
        data := input[next..];
      }
    }
  }

  /** Adds the record of an unrecognised tag; a failed parse may leave part of it behind. */
  method UnknownFieldParse(tag: nat, input: seq<byte>, ptr: nat) returns (ok: bool, added: seq<Record>, next: nat)
    requires ptr <= |input|
    ensures ok <==> tag / 8 != 0 && ReadPayload(tag / 8, tag % 8, input[ptr..]).Some?
    ensures ok ==>
      && ptr <= next <= |input|
      && added == [Record(tag / 8, ReadPayload(tag / 8, tag % 8, input[ptr..]).value.payload)]
      && ReadPayload(tag / 8, tag % 8, input[ptr..]).value.len == next - ptr
    ensures |added| <= 1 && (added != [] ==> added[0].number == tag / 8)
    decreases |input| - ptr, 2
  {
    var number, wireType := tag / 8, tag % 8;
    ok, added, next := false, [], ptr;
    if number == 0 {
      return;
    }
    if wireType == VARINT {
      var value;
      ok, value, next := ReadVarint64At(input, ptr);
      if ok { added := [Record(number, Number(value))]; }
    } else if wireType == I64 {
      if ptr + 8 <= |input| {
        assert input[ptr..][..8] == input[ptr..ptr + 8];
        ok, added, next := true, [Record(number, Fixed64(input[ptr..ptr + 8]))], ptr + 8;
      }
    } else if wireType == LEN {
      var data;
      ok, data, next := InlineGreedyStringParser(input, ptr);
      added := [Record(number, Bytes(data))];
    } else if wireType == SGROUP {
      var end, body;
      end, body, next := ParseUnknownSet(input, ptr);
      ok := end == StoppedAt(Tag(number, EGROUP));
      added := [Record(number, Group(body))];
    } else if wireType == I32 {
      if ptr + 4 <= |input| {
        assert input[ptr..][..4] == input[ptr..ptr + 4];
        ok, added, next := true, [Record(number, Fixed32(input[ptr..ptr + 4]))], ptr + 4;
      }
    }
  }

  ghost predicate IsRest(input: seq<byte>, ptr: nat, rest: seq<byte>) {
    ptr <= |input| && rest == input[ptr..]
  }

  /** A tag was read at ptr and ends at next. */
  ghost predicate Tagged(input: seq<byte>, ptr: nat, tag: nat, next: nat) {
    ptr < next <= |input| && ReadTag(input[ptr..]) == Some(Decoded(tag, next - ptr))
  }

  /** Between two records of a loop: what was read so far is the front of what the whole input reads as. */
  ghost predicate UnknownUnderway(input: seq<byte>, start: nat, ptr: nat, records: seq<Record>) {
    && start <= ptr <= |input|
    && forall whole, rest :: IsRest(input, start, whole) && IsRest(input, ptr, rest) ==>
         ReadAll(whole) == Prepend(records, ptr - start, ReadAll(rest))
  }

  lemma UnknownStart(input: seq<byte>, start: nat)
    requires start <= |input|
    ensures UnknownUnderway(input, start, start, [])
  {
    assert [] + ReadAll(input[start..]).records == ReadAll(input[start..]).records;
  }

  /** A loop that cannot go on ends the whole reading with the records it has. */
  lemma UnknownEnd(input: seq<byte>, start: nat, ptr: nat, records: seq<Record>)
    requires UnknownUnderway(input, start, ptr, records)
    requires ptr == |input| || !ReadRecord(input[ptr..]).Got?
    ensures ReadAll(input[start..])
         == Reading(records, ReadAll(input[ptr..]).end, ptr - start + ReadAll(input[ptr..]).len)
  {
    assert IsRest(input, start, input[start..]) && IsRest(input, ptr, input[ptr..]);
    assert records + [] == records;
  }

  lemma UnknownNext(input: seq<byte>, start: nat, ptr: nat, records: seq<Record>, r: Record, len: nat)
    requires UnknownUnderway(input, start, ptr, records) && ptr < |input| && ReadRecord(input[ptr..]) == Got(r, len)
    ensures UnknownUnderway(input, start, ptr + len, records + [r])
  {
    assert IsRest(input, start, input[start..]) && IsRest(input, ptr, input[ptr..]);
    var rest := input[ptr + len..];
    assert rest == input[ptr..][len..];
    OneMore(input[ptr..], r, len, rest);
    PrependTwice(records, ptr - start, [r], len, ReadAll(rest));
  }

  /** One turn of the loop, given what UnknownFieldParse says about the record after the tag. */
  lemma UnknownTurn(input: seq<byte>, start: nat, ptr: nat, records: seq<Record>, tag: nat, at: nat, ok: bool,
      added: seq<Record>, next: nat)
    requires UnknownUnderway(input, start, ptr, records) && Tagged(input, ptr, tag, at) && tag != 0 && tag % 8 != EGROUP
    requires ok <==> tag / 8 != 0 && ReadPayload(tag / 8, tag % 8, input[at..]).Some?
    requires ok ==>
      && at <= next <= |input|
      && added == [Record(tag / 8, ReadPayload(tag / 8, tag % 8, input[at..]).value.payload)]
      && ReadPayload(tag / 8, tag % 8, input[at..]).value.len == next - at
    ensures ok ==> UnknownUnderway(input, start, next, records + added)
    ensures !ok ==> ReadAll(input[start..]).end == Failed
  {
    AfterTag(input, ptr, tag, at);
    if ok {
      UnknownNext(input, start, ptr, records, added[0], next - ptr);
    } else {
      UnknownEnd(input, start, ptr, records);
    }
  }

  /** The record loop inside a group: everything is unknown until an end-group or zero tag. */
  method ParseUnknownSet(input: seq<byte>, start: nat) returns (end: End, records: seq<Record>, ptr: nat)
    requires start <= |input|
    ensures end == ReadAll(input[start..]).end
    ensures end != Failed ==> records == ReadAll(input[start..]).records
    ensures end != Failed ==> ptr == start + ReadAll(input[start..]).len <= |input|
    decreases |input| - start, 1
  {
    ptr, records := start, [];
    UnknownStart(input, start);
    while ptr < |input|
      invariant UnknownUnderway(input, start, ptr, records)
    {
      var ok, tag, at := ReadTagAt(input, ptr);
      if !ok {
        UnknownEnd(input, start, ptr, records);
        return Failed, records, ptr;
      }
      if tag == 0 || tag % 8 == EGROUP {
        AfterTag(input, ptr, tag, at);
        UnknownEnd(input, start, ptr, records);
        return StoppedAt(tag), records, at;
      }
      var added, next;
      ok, added, next := UnknownFieldParse(tag, input, at);
      UnknownTurn(input, start, ptr, records, tag, at, ok, added, next);
      records := records + added;
      if !ok {
        return Failed, records, ptr;
      }
      ptr := next;
    }
    UnknownEnd(input, start, ptr, records);
    end := AtEnd;
  }

  // ----- writers: `target` grows

  method WriteVarint(value: nat, target: seq<byte>) returns (out: seq<byte>)
    ensures out == target + Encode(value)
  {
    var rest := value;
    out := target;
    while rest >= 128
      invariant out + Encode(rest) == target + Encode(value)
    {
      assert out + Encode(rest) == (out + [rest % 128 + 128]) + Encode(rest / 128);
      out := out + [rest % 128 + 128];
      rest := rest / 128;
    }
    out := out + [rest];
  }

  method WriteTag(number: nat, wireType: nat, target: seq<byte>) returns (out: seq<byte>)
    ensures out == target + Encode(Tag(number, wireType))
  {
    out := WriteVarint(8 * number + wireType, target);
  }

  method WriteInt32ToArray(number: nat, value: int32, target: seq<byte>) returns (out: seq<byte>)
    ensures out == target + WriteRecord(Record(number, Number(SignExtend64(value))))
  {
    out := WriteTag(number, VARINT, target);
    out := WriteVarint(if value < 0 then value + TWO_64 else value, out);
  }

  method WriteStringMaybeAliased(number: nat, data: seq<byte>, target: seq<byte>) returns (out: seq<byte>)
    ensures out == target + WriteRecord(Record(number, Bytes(data)))
  {
    out := WriteTag(number, LEN, target);
    out := WriteVarint(|data|, out);
    out := out + data;
  }

  method InternalSerializeUnknownFieldsToArray(fields: seq<Record>, target: seq<byte>) returns (out: seq<byte>)
    ensures out == target + WriteAll(fields)
    decreases fields, 0
  {
    out := target;
    for i := 0 to |fields|
      invariant out == target + WriteAll(fields[..i])
    {
      out := SerializeUnknownField(fields[i], out);
      WriteAllSnoc(fields, i);
    }
    assert fields[..|fields|] == fields;
  }

  method SerializeUnknownField(r: Record, target: seq<byte>) returns (out: seq<byte>)
    ensures out == target + WriteRecord(r)
    decreases r, 1
  {
    match r.payload
    case Number(v) =>
      out := WriteTag(r.number, VARINT, target);
      out := WriteVarint(v, out);
    case Fixed64(raw) =>
      out := WriteTag(r.number, I64, target);
      out := out + raw;
    case Bytes(data) =>
      out := WriteStringMaybeAliased(r.number, data, target);
    case Group(body) =>
      out := WriteTag(r.number, SGROUP, target);
      out := InternalSerializeUnknownFieldsToArray(body, out);
      out := WriteTag(r.number, EGROUP, out);
    case Fixed32(raw) =>
      out := WriteTag(r.number, I32, target);
      out := out + raw;
  }

  lemma WriteAllSnoc(rs: seq<Record>, i: nat)
    requires i < |rs|
    ensures WriteAll(rs[..i + 1]) == WriteAll(rs[..i]) + WriteRecord(rs[i])
  {
    assert rs[..i + 1] == rs[..i] + [rs[i]];
    WriteAllAppend(rs[..i], [rs[i]]);
    assert WriteAll([rs[i]]) == WriteRecord(rs[i]) + WriteAll([]);
  }

  // ----- sizes

  method VarintSize(value: nat) returns (size: nat)
    ensures size == |Encode(value)|
  {
    var rest := value;
    size := 1;
    while rest >= 128
      invariant size - 1 + |Encode(rest)| == |Encode(value)|
    {
      rest := rest / 128;
      size := size + 1;
    }
  }

  /** The length prefix plus the bytes. */
  method StringSize(data: seq<byte>) returns (size: nat)
    ensures size == |Encode(|data|) + data|
  {
    size := VarintSize(|data|);
    size := size + |data|;
  }

  method ComputeUnknownFieldsSize(fields: seq<Record>, total: nat) returns (size: nat)
    ensures size == total + |WriteAll(fields)|
    decreases fields, 0
  {
    size := total;
    for i := 0 to |fields|
      invariant size == total + |WriteAll(fields[..i])|
    {
      var part := UnknownFieldSize(fields[i]);
      size := size + part;
      WriteAllSnoc(fields, i);
    }
    assert fields[..|fields|] == fields;
  }

  method UnknownFieldSize(r: Record) returns (size: nat)
    ensures size == |WriteRecord(r)|
    decreases r, 1
  {
    match r.payload
    case Number(v) =>
      var head := VarintSize(8 * r.number + VARINT);
      size := VarintSize(v);
      size := head + size;
    case Fixed64(raw) =>
      size := VarintSize(8 * r.number + I64);
      size := size + |raw|;
    case Bytes(data) =>
      var head := VarintSize(8 * r.number + LEN);
      size := StringSize(data);
      size := head + size;
    case Group(body) =>
      var open := VarintSize(8 * r.number + SGROUP);
      var close := VarintSize(8 * r.number + EGROUP);
      size := ComputeUnknownFieldsSize(body, open);
      size := size + close;
    case Fixed32(raw) =>
      size := VarintSize(8 * r.number + I32);
      size := size + |raw|;
  }
}
