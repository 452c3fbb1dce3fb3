/** Messages as values: what the five schemas declare, and what parsing, merging and serializing mean. */
module Messages {
  import opened Options
  import opened Varint
  import opened Wire

  /** The two kinds of field the messages use; `string` and `bytes` fields travel the same way. */
  datatype Kind = Int32 | Blobs

  /** The fields of a message and the order in which they are written. Every field is required. */
  datatype Schema = Schema(kinds: map<nat, Kind>, order: seq<nat>)

  /** Field numbers below 16 make one-byte tags, as every declared field has. */
  ghost predicate ValidSchema(sc: Schema) {
    && (forall n :: n in sc.order <==> n in sc.kinds)
    && (forall i, j :: 0 <= i < j < |sc.order| ==> sc.order[i] < sc.order[j])
    && (forall n :: n in sc.kinds ==> 1 <= n < 16)
  }

  const REGISTER: Schema := Schema(map[1 := Blobs, 2 := Int32, 3 := Blobs, 4 := Int32], [1, 2, 3, 4])
  const LOGIN: Schema := Schema(map[1 := Int32, 2 := Blobs, 4 := Int32], [1, 2, 4])
  const RSP: Schema := Schema(map[1 := Int32, 2 := Blobs], [1, 2])
  const INSERT: Schema := Schema(map[1 := Int32, 2 := Int32, 3 := Blobs], [1, 2, 3])

  lemma RegisterValid()
    ensures ValidSchema(REGISTER)
  {
  }

  lemma LoginValid()
    ensures ValidSchema(LOGIN)
  {
  }

  lemma RspValid()
    ensures ValidSchema(RSP)
  {
  }

  lemma InsertValid()
    ensures ValidSchema(INSERT)
  {
  }

  /** The word `_has_bits_[0]`, as the set of the bit positions that are 1 in it. */
  type Bits = set<nat>

  lemma TwoBits(bits: Bits, a: nat, b: nat)
    ensures bits * {a, b} != {} <==> a in bits || b in bits
  {
    assert a in bits * {a, b} <==> a in bits;
    assert b in bits * {a, b} <==> b in bits;
  }

  lemma ThreeBits(bits: Bits, a: nat, b: nat, c: nat)
    ensures bits * {a, b, c} != {} <==> a in bits || b in bits || c in bits
  {
    assert a in bits * {a, b, c} <==> a in bits;
    assert b in bits * {a, b, c} <==> b in bits;
    assert c in bits * {a, b, c} <==> c in bits;
  }

  lemma FourBits(bits: Bits, a: nat, b: nat, c: nat, d: nat)
    ensures bits * {a, b, c, d} != {} <==> a in bits || b in bits || c in bits || d in bits
  {
    assert a in bits * {a, b, c, d} <==> a in bits;
    assert b in bits * {a, b, c, d} <==> b in bits;
    assert c in bits * {a, b, c, d} <==> c in bits;
    assert d in bits * {a, b, c, d} <==> d in bits;
  }

  datatype Value = Num(v: int32) | Text(data: seq<byte>)

  /** A message: the fields whose has-bit is set, and the records no field recognised, in arrival order. */
  datatype Msg = Msg(known: map<nat, Value>, unknown: seq<Record>)

  const DEFAULT: Msg := Msg(map[], [])

  predicate HasKind(v: Value, kind: Kind) {
    match v
    case Num(_) => kind == Int32
    case Text(data) => kind == Blobs && |data| < TWO_31
  }

  /** The messages that can be serialized: declared fields only, and everything within the format's limits. */
  ghost predicate Fits(sc: Schema, m: Msg) {
    && (forall n :: n in m.known ==> n in sc.kinds && HasKind(m.known[n], sc.kinds[n]))
    && AllSound(m.unknown)
  }

  /** All required fields are present. */
  predicate Initialized(sc: Schema, m: Msg) {
    sc.kinds.Keys <= m.known.Keys
  }

  // ----- reading

  /** The value a record gives to a declared field, when both its number and its wire type match. */
  function Recognise(sc: Schema, r: Record): Option<Value> {
    if r.number !in sc.kinds then None
    else
      match (sc.kinds[r.number], r.payload)
      case (Int32, Number(v)) => Some(Num(Truncate32(v)))
      case (Blobs, Bytes(data)) => Some(Text(data))
      case _ => None
  }

  /** A recognised record overwrites its field; any other is kept at the end of the unknown list. */
  function Absorb(sc: Schema, m: Msg, r: Record): Msg {
    match Recognise(sc, r)
    case Some(v) => m.(known := m.known[r.number := v])
    case None => m.(unknown := m.unknown + [r])
  }

  function AbsorbAll(sc: Schema, m: Msg, rs: seq<Record>): Msg
    decreases |rs|
  {
    if rs == [] then m else AbsorbAll(sc, Absorb(sc, m, rs[0]), rs[1..])
  }

  datatype Parsed = Parsed(msg: Msg, end: End)

  function Parse(sc: Schema, m: Msg, s: seq<byte>): Parsed {
    var reading := ReadAll(s);
    Parsed(AbsorbAll(sc, m, reading.records), reading.end)
  }

  // ----- an independent account of the same: last record wins, the rest is left over

  /** The value of the last record recognised for field n. */
  function Last(sc: Schema, rs: seq<Record>, n: nat): Option<Value> {
    if rs == [] then None
    else
      var r := rs[|rs| - 1];
      if r.number == n && Recognise(sc, r).Some? then Recognise(sc, r) else Last(sc, rs[..|rs| - 1], n)
  }

  predicate Foreign(sc: Schema, rs: seq<Record>) {
    forall i :: 0 <= i < |rs| ==> Recognise(sc, rs[i]).None?
  }

  /** The records that no field recognises, in order. */
  function Leftovers(sc: Schema, rs: seq<Record>): (out: seq<Record>)
    ensures Foreign(sc, out)
    ensures |out| <= |rs|
  {
    if rs == [] then []
    else (if Recognise(sc, rs[0]).None? then [rs[0]] else []) + Leftovers(sc, rs[1..])
  }

  // ----- writing

  function FieldRecord(n: nat, v: Value): Record {
    match v
    case Num(i) => Record(n, Number(SignExtend64(i)))
    case Text(data) => Record(n, Bytes(data))
  }

  /** The records of the present fields, in the given order. */
  function KnownRecords(order: seq<nat>, known: map<nat, Value>): seq<Record> {
    if order == [] then []
    else (if order[0] in known then [FieldRecord(order[0], known[order[0]])] else []) + KnownRecords(order[1..], known)
  }

  function Records(sc: Schema, m: Msg): seq<Record> {
    KnownRecords(sc.order, m.known) + m.unknown
  }

  function Serialize(sc: Schema, m: Msg): seq<byte> {
    WriteAll(Records(sc, m))
  }

  /** The fields of y win where both have one; the unknown records of y come after those of x. */
  function Merge(x: Msg, y: Msg): Msg {
    Msg(x.known + y.known, x.unknown + y.unknown)
  }
}
