/** The reasoning shared by the parse loops of the messages: what each way through the loop body does to the message. */
module ParseLoop {
  import opened Options
  import opened Varint
  import opened Wire
  import opened WireTheorems
  import opened WireIO
  import opened Messages

  lemma ParseBad(sc: Schema, m: Msg, s: seq<byte>)
    requires s != [] && ReadRecord(s).Bad?
    ensures Parse(sc, m, s) == Parsed(m, Failed) && ReadAll(s).len == 0
  {
    assert AbsorbAll(sc, m, []) == m;
  }

  lemma ParseStop(sc: Schema, m: Msg, s: seq<byte>)
    requires s != [] && ReadRecord(s).Stop?
    ensures Parse(sc, m, s) == Parsed(m, StoppedAt(ReadRecord(s).tag)) && ReadAll(s).len == ReadRecord(s).len
  {
    assert AbsorbAll(sc, m, []) == m;
  }

  lemma ParseGot(sc: Schema, m: Msg, s: seq<byte>, r: Record, len: nat)
    requires s != [] && ReadRecord(s) == Got(r, len)
    ensures Parse(sc, m, s) == Parse(sc, Absorb(sc, m, r), s[len..]) && ReadAll(s).len == len + ReadAll(s[len..]).len
  {
    var rest := ReadAll(s[len..]).records;
    OneMore(s, r, len, s[len..]);
    assert ([r] + rest)[1..] == rest;
  }

  /**
   * Between two records: parsing the rest of the input into the message so far is parsing all of it into the
   * message at the start.
   */
  ghost predicate Underway(sc: Schema, start: Msg, input: seq<byte>, ptr: nat, now: Msg) {
    && ptr <= |input|
    && forall rest :: IsRest(input, ptr, rest) ==>
         Parse(sc, start, input) == Parse(sc, now, rest) && ReadAll(input).len == ptr + ReadAll(rest).len
  }

  lemma Begin(sc: Schema, start: Msg, input: seq<byte>)
    ensures Underway(sc, start, input, 0, start)
  {
    assert input[0..] == input;
  }

  /** How a turn of the loop leaves it: not at all, at an end tag, or through `failure`. */
  datatype Turn = Continue | Leave(tag: nat) | Fail

  /**
   * A turn of the loop that met the item at the front of rest, the input from ptr on: where it moved, and how it
   * changed the message.
   */
  ghost predicate TurnAt(sc: Schema, ptr: nat, rest: seq<byte>, item: Item, turn: Turn, next: nat, was: Msg, now: Msg) {
    match item
    case Got(r, len) => turn == Continue && next == ptr + len && now == Absorb(sc, was, r)
    case Stop(tag, len) => turn == Leave(tag) && next == ptr + len && now == was
    case Bad => turn == Fail && Torn(sc, rest, was, now)
  }

  ghost predicate Turned(sc: Schema, input: seq<byte>, ptr: nat, turn: Turn, next: nat, was: Msg, now: Msg) {
    forall rest :: IsRest(input, ptr, rest) ==> TurnAt(sc, ptr, rest, ReadRecord(rest), turn, next, was, now)
  }

  /** The field that a tag belongs to with its own wire type, 0 for int32 and 2 for strings; no field is 0. */
  function FieldOf(sc: Schema, tag: nat): nat {
    if tag / 8 !in sc.kinds then 0
    else
      match sc.kinds[tag / 8]
      case Int32 => if tag % 8 == 0 then tag / 8 else 0
      case Blobs => if tag % 8 == 2 then tag / 8 else 0
  }

  /**
   * What a parse that fails at the front of rest makes of the message so far. Without a tag there, nothing. If the tag
   * is that of a field, the field is present and holds anything, and nothing else changes. Otherwise all fields stay,
   * and at most one record, with the number of the tag, is left behind in the unknown list.
   */
  ghost predicate Torn(sc: Schema, rest: seq<byte>, want: Msg, got: Msg) {
    match ReadTag(rest)
    case None => got == want
    case Some(d) =>
      var n := FieldOf(sc, d.value);
      if n != 0 then
        n in got.known && got.known - {n} == want.known - {n} && got.unknown == want.unknown
      else
        && got.known == want.known && want.unknown <= got.unknown && |got.unknown| <= |want.unknown| + 1
        && (|got.unknown| > |want.unknown| ==> got.unknown[|want.unknown|].number == d.value / 8)
  }

  lemma TornField(sc: Schema, input: seq<byte>, ptr: nat, tag: nat, at: nat, n: nat, was: Msg, v: Value)
    requires Tagged(input, ptr, tag, at) && Selects(sc, tag, n) && n != 0
    ensures Torn(sc, input[ptr..], was, was.(known := was.known[n := v]))
  {
    TagParts(n, VARINT);
    TagParts(n, LEN);
  }

  lemma TornUnknown(sc: Schema, input: seq<byte>, ptr: nat, tag: nat, at: nat, was: Msg, added: seq<Record>)
    requires Tagged(input, ptr, tag, at) && Selects(sc, tag, 0)
    requires |added| <= 1 && (added != [] ==> added[0].number == tag / 8)
    ensures Torn(sc, input[ptr..], was, was.(unknown := was.unknown + added))
  {
  }

  /** Past one more record, with the message that absorbed it. */
  lemma OnePast(sc: Schema, start: Msg, input: seq<byte>, ptr: nat, was: Msg, r: Record, len: nat)
    requires Underway(sc, start, input, ptr, was) && ptr < |input| && ReadRecord(input[ptr..]) == Got(r, len)
    ensures Underway(sc, start, input, ptr + len, Absorb(sc, was, r))
  {
    assert IsRest(input, ptr, input[ptr..]);
    ParseGot(sc, was, input[ptr..], r, len);
    assert input[ptr..][len..] == input[ptr + len..];
  }

  /** What an item that ends the loop makes of the whole parse, which used so many bytes. */
  ghost predicate Ends(item: Item, ptr: nat, was: Msg, whole: Parsed, used: nat) {
    match item
    case Got(_, _) => true
    case Stop(tag, len) => whole == Parsed(was, StoppedAt(tag)) && used == ptr + len
    case Bad => whole == Parsed(was, Failed) && used == ptr
  }

  lemma LastItem(sc: Schema, start: Msg, input: seq<byte>, ptr: nat, was: Msg)
    requires Underway(sc, start, input, ptr, was) && ptr < |input|
    ensures Ends(ReadRecord(input[ptr..]), ptr, was, Parse(sc, start, input), ReadAll(input).len)
  {
    var rest := input[ptr..];
    assert IsRest(input, ptr, rest);
    if ReadRecord(rest).Stop? {
      ParseStop(sc, was, rest);
    } else if ReadRecord(rest).Bad? {
      ParseBad(sc, was, rest);
    }
  }

  lemma TurnEnds(sc: Schema, ptr: nat, rest: seq<byte>, item: Item, turn: Turn, next: nat, was: Msg, now: Msg,
      whole: Parsed, used: nat)
    requires TurnAt(sc, ptr, rest, item, turn, next, was, now) && Ends(item, ptr, was, whole, used)
    ensures turn.Leave? ==> whole == Parsed(now, StoppedAt(turn.tag)) && used == next
    ensures turn == Fail ==> whole.end == Failed && used == ptr && Torn(sc, rest, whole.msg, now)
    ensures turn == Continue ==> item.Got? && next == ptr + item.len && now == Absorb(sc, was, item.record)
  {
  }

  /** What a turn makes of the whole parse. */
  lemma Advance(sc: Schema, start: Msg, input: seq<byte>, ptr: nat, was: Msg, turn: Turn, next: nat, now: Msg)
    requires Underway(sc, start, input, ptr, was) && ptr < |input| && Turned(sc, input, ptr, turn, next, was, now)
    ensures turn == Continue ==> ptr < next && Underway(sc, start, input, next, now)
    ensures turn.Leave? ==> Parse(sc, start, input) == Parsed(now, StoppedAt(turn.tag)) && ReadAll(input).len == next
    ensures turn == Fail ==>
              && Parse(sc, start, input).end == Failed && ReadAll(input).len == ptr
              && Torn(sc, input[ptr..], Parse(sc, start, input).msg, now)
  {
    var rest := input[ptr..];
    assert IsRest(input, ptr, rest);
    var item := ReadRecord(rest);
    LastItem(sc, start, input, ptr, was);
    TurnEnds(sc, ptr, rest, item, turn, next, was, now, Parse(sc, start, input), ReadAll(input).len);
    if turn == Continue {
      OnePast(sc, start, input, ptr, was, item.record, item.len);
    }
  }

  /** Nothing left: the message so far is the result. */
  lemma Finish(sc: Schema, start: Msg, input: seq<byte>, now: Msg)
    requires Underway(sc, start, input, |input|, now)
    ensures Parse(sc, start, input) == Parsed(now, AtEnd) && ReadAll(input).len == |input|
  {
    assert IsRest(input, |input|, input[|input|..]);
    assert AbsorbAll(sc, now, []) == now;
  }

  // ----- the branches of the switch

  lemma NoTag(sc: Schema, input: seq<byte>, ptr: nat, was: Msg)
    requires ptr < |input| && ReadTag(input[ptr..]).None?
    ensures Turned(sc, input, ptr, Fail, ptr, was, was)
  {
  }

  /** The tag matches no declared field and its wire type. */
  ghost predicate Unusual(sc: Schema, tag: nat) {
    tag / 8 in sc.kinds ==>
      match sc.kinds[tag / 8]
      case Int32 => tag % 8 != VARINT
      case Blobs => tag % 8 != LEN
  }

  /** Where `switch (tag >> 3)` and the test of the tag's low byte lead: to field n, or to `handle_unusual` for 0. */
  ghost predicate Selects(sc: Schema, tag: nat, n: nat) {
    if n == 0 then Unusual(sc, tag)
    else n in sc.kinds && tag == Tag(n, if sc.kinds[n] == Int32 then VARINT else LEN)
  }

  /** The branch of int32 field n: a varint stored into the field, or a failure after which the field holds anything. */
  method ReadInt32Field(ghost sc: Schema, input: seq<byte>, ghost ptr: nat, ghost tag: nat, at: nat, ghost n: nat,
      ghost was: Msg)
    returns (turn: Turn, v: int32, next: nat)
    requires Tagged(input, ptr, tag, at) && Selects(sc, tag, n) && n in sc.kinds && sc.kinds[n] == Int32 && n != 0
    ensures Turned(sc, input, ptr, turn, next, was, was.(known := was.known[n := Num(v)]))
  {
    AfterTag(input, ptr, tag, at);
    TagParts(n, VARINT);
    var ok, u;
    ok, u, next := ReadVarint64At(input, at);
    v := Truncate32(u);
    turn := if ok then Continue else Fail;
    if ok {
      assert Recognise(sc, Record(n, Number(u))) == Some(Num(v));
    } else {
      TornField(sc, input, ptr, tag, at, n, was, Num(v));
    }
  }

  /** The branch of string or bytes field n. */
  method ReadBlobField(ghost sc: Schema, input: seq<byte>, ghost ptr: nat, ghost tag: nat, at: nat, ghost n: nat,
      ghost was: Msg)
    returns (turn: Turn, data: seq<byte>, next: nat)
    requires Tagged(input, ptr, tag, at) && Selects(sc, tag, n) && n in sc.kinds && sc.kinds[n] == Blobs && n != 0
    ensures Turned(sc, input, ptr, turn, next, was, was.(known := was.known[n := Text(data)]))
  {
    AfterTag(input, ptr, tag, at);
    TagParts(n, LEN);
    var ok;
    ok, data, next := InlineGreedyStringParser(input, at);
    turn := if ok then Continue else Fail;
    if !ok {
      TornField(sc, input, ptr, tag, at, n, was, Text(data));
    }
  }

  lemma UnusualForeign(sc: Schema, tag: nat, s: seq<byte>)
    requires Unusual(sc, tag) && ReadPayload(tag / 8, tag % 8, s).Some?
    ensures Recognise(sc, Record(tag / 8, ReadPayload(tag / 8, tag % 8, s).value.payload)).None?
  {
  }

  /** The code at `handle_unusual`: end tags leave the loop, every other record is kept as unknown. */
  method HandleUnusual(ghost sc: Schema, input: seq<byte>, ghost ptr: nat, tag: nat, at: nat, ghost was: Msg)
    returns (turn: Turn, added: seq<Record>, next: nat)
    requires Tagged(input, ptr, tag, at) && Selects(sc, tag, 0)
    ensures Turned(sc, input, ptr, turn, next, was, was.(unknown := was.unknown + added))
  {
    AfterTag(input, ptr, tag, at);
    if tag % 8 == 4 || tag == 0 {
      assert was.unknown + [] == was.unknown;
      return Leave(tag), [], at;
    }
    var ok;
    ok, added, next := UnknownFieldParse(tag, input, at);
    if ok {
      UnusualForeign(sc, tag, input[at..]);
      turn := Continue;
    } else {
      TornUnknown(sc, input, ptr, tag, at, was, added);
      turn := Fail;
    }
  }
}
