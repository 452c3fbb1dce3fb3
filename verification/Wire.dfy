/** The record layer of the wire format: what a record is, how it is written, how it is read. */
module Wire {
  import opened Options
  import opened Varint

  /** What a record carries, by wire type. Fixed-width payloads are kept as their raw bytes. */
  datatype Payload =
    | Number(value: nat)
    | Fixed64(raw: seq<byte>)
    | Bytes(data: seq<byte>)
    | Group(body: seq<Record>)
    | Fixed32(raw: seq<byte>)

  datatype Record = Record(number: nat, payload: Payload)

  const VARINT: nat := 0
  const I64: nat := 1
  const LEN: nat := 2
  const SGROUP: nat := 3
  const EGROUP: nat := 4
  const I32: nat := 5

  const NUMBER_LIMIT: nat := 0x2000_0000

  function Tag(number: nat, wireType: nat): nat {
    8 * number + wireType
  }

  /** The records that the format can carry: a 29-bit field number, 64-bit integers, lengths below 2 GiB. */
  predicate Sound(r: Record)
    decreases r, 1
  {
    && 1 <= r.number < NUMBER_LIMIT
    && match r.payload
       case Number(v) => v < TWO_64
       case Fixed64(raw) => |raw| == 8
       case Bytes(data) => |data| < TWO_31
       case Group(body) => AllSound(body)
       case Fixed32(raw) => |raw| == 4
  }

  predicate AllSound(rs: seq<Record>)
    decreases rs, 0
  {
    rs == [] || (Sound(rs[0]) && AllSound(rs[1..]))
  }

  function WriteRecord(r: Record): (s: seq<byte>)
    ensures |s| >= 1
    decreases r, 1
  {
    match r.payload
    case Number(v) => Encode(Tag(r.number, VARINT)) + Encode(v)
    case Fixed64(raw) => Encode(Tag(r.number, I64)) + raw
    case Bytes(data) => Encode(Tag(r.number, LEN)) + Encode(|data|) + data
    case Group(body) => Encode(Tag(r.number, SGROUP)) + WriteAll(body) + Encode(Tag(r.number, EGROUP))
    case Fixed32(raw) => Encode(Tag(r.number, I32)) + raw
  }

  function WriteAll(rs: seq<Record>): seq<byte>
    decreases rs, 0
  {
    if rs == [] then [] else WriteRecord(rs[0]) + WriteAll(rs[1..])
  }

  /** A tag is a varint of at most five bytes, cut to 32 bits. */
  function ReadTag(s: seq<byte>): (d: Option<Decoded>)
    ensures d.Some? ==> 1 <= d.value.len <= |s| && d.value.value < TWO_32
  {
    match Decode(s, 5)
    case None => None
    case Some(d) => Some(Decoded(d.value % TWO_32, d.len))
  }

  /** An integer payload is a varint of at most ten bytes, cut to 64 bits. */
  function ReadVarint64(s: seq<byte>): (d: Option<Decoded>)
    ensures d.Some? ==> 1 <= d.value.len <= |s| && d.value.value < TWO_64
  {
    match Decode(s, 10)
    case None => None
    case Some(d) => Some(Decoded(d.value % TWO_64, d.len))
  }

  datatype Blob = Blob(data: seq<byte>, len: nat)

  /** A length below 2 GiB followed by that many bytes. */
  function ReadBlob(s: seq<byte>): (d: Option<Blob>)
    ensures d.Some? ==> 1 <= d.value.len <= |s| && |d.value.data| < TWO_31
  {
    match Decode(s, 5)
    case None => None
    case Some(d) =>
      if d.value < TWO_31 && d.len + d.value <= |s|
      then Some(Blob(s[d.len..d.len + d.value], d.len + d.value))
      else None
  }

  /** How a record loop ends: all input used, a zero or end-group tag met, or malformed input. */
  datatype End = AtEnd | StoppedAt(tag: nat) | Failed

  /** The complete records of a loop, how it ended, and how many bytes it used up to there. */
  datatype Reading = Reading(records: seq<Record>, end: End, len: nat)

  datatype Item = Got(record: Record, len: nat) | Stop(tag: nat, len: nat) | Bad

  datatype Body = Body(payload: Payload, len: nat)

  /** Reads the payload after a tag. A group's payload is a nested record loop up to its own end tag. */
  function ReadPayload(number: nat, wireType: nat, s: seq<byte>): (b: Option<Body>)
    ensures b.Some? ==> b.value.len <= |s|
    decreases |s|, 2
  {
    if wireType == VARINT then
      match ReadVarint64(s)
      case None => None
      case Some(d) => Some(Body(Number(d.value), d.len))
    else if wireType == I64 then
      if |s| < 8 then None else Some(Body(Fixed64(s[..8]), 8))
    else if wireType == LEN then
      match ReadBlob(s)
      case None => None
      case Some(b) => Some(Body(Bytes(b.data), b.len))
    else if wireType == SGROUP then
      var inner := ReadAll(s);
      if inner.end == StoppedAt(Tag(number, EGROUP)) then Some(Body(Group(inner.records), inner.len)) else None
    else if wireType == I32 then
      if |s| < 4 then None else Some(Body(Fixed32(s[..4]), 4))
    else None
  }

  /** The item that begins with the given tag and continues with the given payload, if that could be read. */
  function ItemAfter(tag: Decoded, body: Option<Body>): Item {
    if tag.value == 0 || tag.value % 8 == EGROUP then Stop(tag.value, tag.len)
    else if tag.value / 8 == 0 then Bad
    else
      match body
      case None => Bad
      case Some(b) => Got(Record(tag.value / 8, b.payload), tag.len + b.len)
  }

  function ReadRecord(s: seq<byte>): (item: Item)
    ensures item.Got? ==> 1 <= item.len <= |s|
    ensures item.Stop? ==> 1 <= item.len <= |s|
    decreases |s|, 0
  {
    match ReadTag(s)
    case None => Bad
    case Some(d) => ItemAfter(d, ReadPayload(d.value / 8, d.value % 8, s[d.len..]))
  }

  function ReadAll(s: seq<byte>): (reading: Reading)
    ensures reading.len <= |s|
    ensures reading.end == AtEnd ==> reading.len == |s|
    decreases |s|, 1
  {
    if s == [] then Reading([], AtEnd, 0)
    else
      match ReadRecord(s)
      case Bad => Reading([], Failed, 0)
      case Stop(tag, len) => Reading([], StoppedAt(tag), len)
      case Got(r, len) => Prepend([r], len, ReadAll(s[len..]))
  }

  function Prepend(rs: seq<Record>, len: nat, reading: Reading): Reading {
    Reading(rs + reading.records, reading.end, len + reading.len)
  }
}
