/** A question to insert: two numbers, then the text, whose bit comes first. */
module InsertMsg {
  import opened Varint
  import opened Wire
  import opened WireIO
  import opened Messages
  import opened ParseLoop
  import opened Codec

  /** Which fields are present. */
  datatype Present = Present(degree: bool, typ: bool, msg: bool)

  /** Bits 0, 1 and 2 stand for msg, degree and type: fields 3, 1 and 2. */
  function PresentIn(bits: Bits): Present {
    Present(1 in bits, 2 in bits, 0 in bits)
  }

  ghost predicate HasField(p: Present, n: nat) {
    if n == 1 then p.degree else if n == 2 then p.typ else n == 3 && p.msg
  }

  ghost function Field(n: nat, msg: seq<byte>, degree: int32, typ: int32): Value {
    if n == 1 then Num(degree) else if n == 2 then Num(typ) else Text(msg)
  }

  ghost function Fields(p: Present, msg: seq<byte>, degree: int32, typ: int32): map<nat, Value> {
    map n: nat | 1 <= n <= 3 && HasField(p, n) :: Field(n, msg, degree, typ)
  }

  /** The hidden invariant: a field whose bit is clear holds its default. */
  ghost predicate Covered(p: Present, msg: seq<byte>, degree: int32, typ: int32) {
    && (p.msg || msg == [])
    && (p.degree || degree == 0)
    && (p.typ || typ == 0)
  }

  // Setting a bit in the message's own mask or in that of a running parse, and writing the field with it, changes
  // that field of the message and no other.

  lemma WroteMsg(has: Bits, bits: Bits, was: seq<byte>, msg: seq<byte>, degree: int32, typ: int32)
    ensures Fields(PresentIn(has + {0} + bits), msg, degree, typ)
         == Fields(PresentIn(has + bits), was, degree, typ)[3 := Text(msg)]
    ensures Covered(PresentIn(has + bits), was, degree, typ) ==> Covered(PresentIn(has + {0} + bits), msg, degree, typ)
  {
  }

  lemma WroteDegree(has: Bits, bits: Bits, msg: seq<byte>, was: int32, degree: int32, typ: int32)
    ensures Fields(PresentIn(has + (bits + {1})), msg, degree, typ)
         == Fields(PresentIn(has + bits), msg, was, typ)[1 := Num(degree)]
    ensures Covered(PresentIn(has + bits), msg, was, typ) ==> Covered(PresentIn(has + (bits + {1})), msg, degree, typ)
  {
  }

  lemma WroteType(has: Bits, bits: Bits, msg: seq<byte>, degree: int32, was: int32, typ: int32)
    ensures Fields(PresentIn(has + (bits + {2})), msg, degree, typ)
         == Fields(PresentIn(has + bits), msg, degree, was)[2 := Num(typ)]
    ensures Covered(PresentIn(has + bits), msg, degree, was) ==>
        Covered(PresentIn(has + (bits + {2})), msg, degree, typ)
  {
  }

  /** The bytes of the fields, in field-number order. */
  lemma Layout(p: Present, msg: seq<byte>, degree: int32, typ: int32)
    ensures WriteAll(KnownRecords(INSERT.order, Fields(p, msg, degree, typ)))
         == Part(p.degree, 1, Num(degree)) + Part(p.typ, 2, Num(typ)) + Part(p.msg, 3, Text(msg))
  {
    ThreeFields(1, 2, 3, Fields(p, msg, degree, typ));
  }

  lemma LayoutSize(p: Present, msg: seq<byte>, degree: int32, typ: int32)
    ensures |WriteAll(KnownRecords(INSERT.order, Fields(p, msg, degree, typ)))|
         == (if p.msg then 1 + |Encode(|msg|) + msg| else 0)
          + (if p.degree then 1 + Int32Size(degree) else 0)
          + (if p.typ then 1 + Int32Size(typ) else 0)
  {
    Layout(p, msg, degree, typ);
    FieldSize(1, Num(degree));
    FieldSize(2, Num(typ));
    FieldSize(3, Text(msg));
  }

  function Either(a: Present, b: Present): Present {
    Present(a.degree || b.degree, a.typ || b.typ, a.msg || b.msg)
  }

  /** Taking each field from the second message where it has it, from the first elsewhere, is merging them. */
  lemma MergeFields(a: Present, msg: seq<byte>, degree: int32, typ: int32,
      b: Present, msg': seq<byte>, degree': int32, typ': int32)
    ensures Fields(Either(a, b), if b.msg then msg' else msg, if b.degree then degree' else degree,
                   if b.typ then typ' else typ)
         == Fields(a, msg, degree, typ) + Fields(b, msg', degree', typ')
    ensures Covered(a, msg, degree, typ) ==>
              Covered(Either(a, b), if b.msg then msg' else msg, if b.degree then degree' else degree,
                      if b.typ then typ' else typ)
  {
  }

  /** Under the invariant the message determines the fields. */
  lemma SameFields(a: Present, msg: seq<byte>, degree: int32, typ: int32,
      b: Present, msg': seq<byte>, degree': int32, typ': int32)
    requires Covered(a, msg, degree, typ) && Covered(b, msg', degree', typ')
    requires Fields(a, msg, degree, typ) == Fields(b, msg', degree', typ')
    ensures a == b && msg == msg' && degree == degree' && typ == typ'
  {
    var x, y := Fields(a, msg, degree, typ), Fields(b, msg', degree', typ');
    assert (1 in x <==> 1 in y) && (2 in x <==> 2 in y) && (3 in x <==> 3 in y);
    assert 1 in x ==> x[1] == y[1];
    assert 2 in x ==> x[2] == y[2];
    assert 3 in x ==> x[3] == y[3];
  }

  class IMInsertMsg {
    var hasBits: Bits
    var msg: seq<byte>
    var degree: int32
    var typ: int32
    var unknown: seq<Record>
    var cachedSize: int32

    ghost predicate Valid()
      reads this
    {
      Covered(PresentIn(hasBits), msg, degree, typ)
    }

    ghost function View(): Msg
      reads this
    {
      Msg(Fields(PresentIn(hasBits), msg, degree, typ), unknown)
    }

    /** The message with the bits of a running parse counted in. */
    ghost function ViewWith(bits: Bits): Msg
      reads this
    {
      Msg(Fields(PresentIn(hasBits + bits), msg, degree, typ), unknown)
    }

    constructor ()
      ensures Valid() && IsDefault() && View() == DEFAULT && cachedSize == 0
    {
      hasBits, unknown, cachedSize, msg, degree, typ := {}, [], 0, [], 0, 0;
    }

    /** The switch on the field number, and in each case the test of the low byte of the tag. */
    static method Switch(tag: nat) returns (field: nat)
      ensures Selects(INSERT, tag, field)
    {
      field := 0;
      match tag / 8
      case 1 => if tag % 256 == 8 { field := 1; }
      case 2 => if tag % 256 == 16 { field := 2; }
      case 3 => if tag % 256 == 26 { field := 3; }
      case _ =>
    }

    /** One turn of the parse loop: a tag and the branch of the switch it selects. */
    method ParseField(input: seq<byte>, ptr: nat, parsed: Bits) returns (turn: Turn, next: nat, bits: Bits)
      requires ptr < |input|
      modifies `hasBits, `msg, `degree, `typ, `unknown
      ensures old(Covered(PresentIn(hasBits + parsed), msg, degree, typ)) ==>
                Covered(PresentIn(hasBits + bits), msg, degree, typ)
      ensures Turned(INSERT, input, ptr, turn, next, old(ViewWith(parsed)), ViewWith(bits))
    {
      ghost var was := ViewWith(parsed);
      bits := parsed;
      var ok, tag, at := ReadTagAt(input, ptr);
      next := at;
      if !ok {
        NoTag(INSERT, input, ptr, was);
        return Fail, ptr, bits;
      }
      var field := Switch(tag);
      match field
      case 1 =>
        bits := bits + {1};
        turn, degree, next := ReadInt32Field(INSERT, input, ptr, tag, at, 1, was);
        WroteDegree(hasBits, parsed, msg, old(degree), degree, typ);
      case 2 =>
        bits := bits + {2};
        turn, typ, next := ReadInt32Field(INSERT, input, ptr, tag, at, 2, was);
        WroteType(hasBits, parsed, msg, degree, old(typ), typ);
      case 3 =>
        hasBits := hasBits + {0};
        turn, msg, next := ReadBlobField(INSERT, input, ptr, tag, at, 3, was);
        WroteMsg(old(hasBits), bits, old(msg), msg, degree, typ);
      case _ =>
        var added;
        turn, added, next := HandleUnusual(INSERT, input, ptr, tag, at, was);
        unknown := unknown + added;
    }

    method InternalParse(input: seq<byte>) returns (end: End, ptr: nat)
      modifies `hasBits, `msg, `degree, `typ, `unknown
      ensures old(Valid()) ==> Valid()
      ensures end == Parse(INSERT, old(View()), input).end
      ensures end != Failed ==> View() == Parse(INSERT, old(View()), input).msg && ptr == ReadAll(input).len
      ensures end == Failed ==> Torn(INSERT, input[ReadAll(input).len..], Parse(INSERT, old(View()), input).msg, View())
    {
      ghost var start := View();
      var bits: Bits := {};
      end, ptr := AtEnd, 0;
      assert hasBits + {} == hasBits;
      Begin(INSERT, start, input);
      while ptr < |input|
        invariant old(Valid()) ==> Covered(PresentIn(hasBits + bits), msg, degree, typ)
        invariant Underway(INSERT, start, input, ptr, ViewWith(bits))
      {
        ghost var was := ViewWith(bits);
        var turn, next;
        turn, next, bits := ParseField(input, ptr, bits);
        Advance(INSERT, start, input, ptr, was, turn, next, ViewWith(bits));
        if turn != Continue {
          end, ptr := if turn == Fail then Failed else StoppedAt(turn.tag), next;
          hasBits := hasBits + bits;
          return;
        }
        ptr := next;
      }
      Finish(INSERT, start, input, ViewWith(bits));
      hasBits := hasBits + bits;
    }

    method InternalSerialize() returns (target: seq<byte>)
      ensures target == Serialize(INSERT, View())
    {
      target := [];
      if 1 in hasBits {
        target := WriteInt32ToArray(1, degree, target);
      }
      ghost var done := Part(1 in hasBits, 1, Num(degree));
      assert target == done;
      if 2 in hasBits {
        target := WriteInt32ToArray(2, typ, target);
      }
      done := done + Part(2 in hasBits, 2, Num(typ));
      assert target == done;
      if 0 in hasBits {
        target := WriteStringMaybeAliased(3, msg, target);
      }
      done := done + Part(0 in hasBits, 3, Text(msg));
      assert target == done;
      Layout(PresentIn(hasBits), msg, degree, typ);
      if unknown != [] {
        target := InternalSerializeUnknownFieldsToArray(unknown, target);
      }
      SerializeSplits(INSERT, View());
    }

    method RequiredFieldsByteSizeFallback() returns (total: nat)
      ensures total == |WriteAll(KnownRecords(INSERT.order, View().known))|
    {
      total := 0;
      if 0 in hasBits {
        var size := StringSize(msg);
        total := total + 1 + size;
      }
      if 1 in hasBits {
        total := total + 1 + Int32Size(degree);
      }
      if 2 in hasBits {
        total := total + 1 + Int32Size(typ);
      }
      LayoutSize(PresentIn(hasBits), msg, degree, typ);
    }

    method ByteSizeLong() returns (total: nat)
      modifies `cachedSize
      ensures total == |Serialize(INSERT, View())|
      ensures cachedSize == Truncate32(total) && (total < TWO_31 ==> cachedSize == total)
    {
      total := 0;
      if hasBits * {0, 1, 2} == {0, 1, 2} {
        assert forall b :: b in {0, 1, 2} ==> b in hasBits;
        var size := StringSize(msg);
        total := total + 1 + size;
        total := total + 1 + Int32Size(degree);
        total := total + 1 + Int32Size(typ);
        LayoutSize(PresentIn(hasBits), msg, degree, typ);
      } else {
        total := RequiredFieldsByteSizeFallback();
      }
      SerializeSplits(INSERT, View());
      if unknown != [] {
        total := ComputeUnknownFieldsSize(unknown, total);
      }
      if total < TWO_31 { SmallTruncate(total); }
      cachedSize := Truncate32(total);
    }

    ghost predicate IsDefault()
      reads this
    {
      hasBits == {} && unknown == [] && msg == [] && degree == 0 && typ == 0
    }

    /** What Clear relies on: every field whose group has no bit set already holds its default. */
    ghost predicate ClearReaches()
      reads this
    {
      (0 in hasBits || msg == []) && (1 in hasBits || 2 in hasBits || (degree == 0 && typ == 0))
    }

    /** Resets only what the bits name; that gives the default message exactly when nothing else needed resetting. */
    method Clear()
      modifies `hasBits, `msg, `degree, `typ, `unknown
      ensures IsDefault() <==> old(ClearReaches())
      ensures old(Valid()) ==> IsDefault()
      ensures View() == DEFAULT
    {
      var cached := hasBits;
      TwoBits(cached, 1, 2);
      if 0 in cached {
        msg := [];
      }
      if cached * {1, 2} != {} {
        degree, typ := 0, 0;
      }
      hasBits := {};
      unknown := [];
    }

    method MergeFrom(from: IMInsertMsg)
      requires from != this
      modifies `hasBits, `msg, `degree, `typ, `unknown
      ensures old(Valid()) ==> Valid()
      ensures View() == Merge(old(View()), from.View())
    {
      unknown := unknown + from.unknown;
      var cached := from.hasBits;
      ghost var a, b := PresentIn(hasBits), PresentIn(cached);
      ThreeBits(cached, 0, 1, 2);
      if cached * {0, 1, 2} != {} {
        if 0 in cached {
          hasBits := hasBits + {0};
          msg := from.msg;
        }
        if 1 in cached {
          degree := from.degree;
        }
        if 2 in cached {
          typ := from.typ;
        }
        hasBits := hasBits + cached;
      }
      assert PresentIn(hasBits) == Either(a, b);
      assert msg == if b.msg then from.msg else old(msg);
      assert degree == if b.degree then from.degree else old(degree);
      assert typ == if b.typ then from.typ else old(typ);
      MergeFields(a, old(msg), old(degree), old(typ), b, from.msg, from.degree, from.typ);
    }

    method CopyFrom(from: IMInsertMsg)
      modifies `hasBits, `msg, `degree, `typ, `unknown
      ensures View() == old(from.View()) && from.View() == old(from.View())
      ensures (old(Valid()) ==> Valid()) && (old(from.Valid()) ==> from.Valid())
      ensures old(Valid() && from.Valid()) ==>
                msg == old(from.msg) && degree == old(from.degree) && typ == old(from.typ)
    {
      if from == this {
        return;
      }
      Clear();
      MergeFrom(from);
      MergeIdentity(from.View());
      if Valid() && from.Valid() {
        SameFields(PresentIn(hasBits), msg, degree, typ,
                   PresentIn(from.hasBits), from.msg, from.degree, from.typ);
      }
    }

    method IsInitialized() returns (yes: bool)
      ensures yes <==> Initialized(INSERT, View())
    {
      if hasBits * {0, 1, 2} != {0, 1, 2} {
        assert exists b :: b in {0, 1, 2} && b !in hasBits;
        assert 1 in INSERT.kinds.Keys && 2 in INSERT.kinds.Keys && 3 in INSERT.kinds.Keys;
        return false;
      }
      assert forall b :: b in {0, 1, 2} ==> b in hasBits;
      return true;
    }

    method InternalSwap(other: IMInsertMsg)
      modifies this, other
      ensures View() == old(other.View()) && other.View() == old(View())
      ensures old(other.Valid()) ==> Valid()
      ensures old(Valid()) ==> other.Valid()
      ensures cachedSize == old(cachedSize) && other.cachedSize == old(other.cachedSize)
    {
      unknown, other.unknown := other.unknown, unknown;
      hasBits, other.hasBits := other.hasBits, hasBits;
      msg, other.msg := other.msg, msg;
      degree, other.degree := other.degree, degree;
      typ, other.typ := other.typ, typ;
    }
  }

  // ----- the codec end to end

  /** Serialize, parse into any other message after clearing it: the same message, field by field. */
  method SerializeThenParse(x: IMInsertMsg, y: IMInsertMsg)
    requires x != y && Fits(INSERT, x.View()) && Foreign(INSERT, x.unknown)
    modifies y
    ensures y.View() == x.View()
    ensures x.Valid() && old(y.Valid()) ==> y.Valid() && PresentIn(y.hasBits) == PresentIn(x.hasBits)
    ensures x.Valid() && old(y.Valid()) ==> y.msg == x.msg && y.degree == x.degree && y.typ == x.typ
  {
    var bytes := x.InternalSerialize();
    y.Clear();
    var end, ptr := y.InternalParse(bytes);
    InsertValid();
    RoundTrip(INSERT, x.View());
    if x.Valid() && y.Valid() {
      SameFields(PresentIn(y.hasBits), y.msg, y.degree, y.typ, PresentIn(x.hasBits), x.msg, x.degree, x.typ);
    }
  }

  /** Parsing two serializations one after the other gives what merging the two messages gives. */
  method ParseBothOrMerge(x: IMInsertMsg, y: IMInsertMsg, z: IMInsertMsg)
    requires x != y && y != z && x != z
    requires Fits(INSERT, x.View()) && Foreign(INSERT, x.unknown)
    requires Fits(INSERT, y.View()) && Foreign(INSERT, y.unknown)
    modifies x, z
    ensures z.View() == x.View() == Merge(old(x.View()), y.View())
  {
    var first := x.InternalSerialize();
    var second := y.InternalSerialize();
    z.Clear();
    var end, ptr := z.InternalParse(first + second);
    InsertValid();
    ConcatenationMerges(INSERT, x.View(), y.View());
    x.MergeFrom(y);
  }
}
