/** A login request: fields 1, 2 and 4; field number 3 is not declared and so is unknown. */
module LoginReq {
  import opened Varint
  import opened Wire
  import opened WireIO
  import opened Messages
  import opened ParseLoop
  import opened Codec

  /** Which fields are present. */
  datatype Present = Present(id: bool, passwd: bool, typ: bool)

  /** Bits 0, 1 and 2 stand for passwd, id and type: fields 2, 1 and 4. */
  function PresentIn(bits: Bits): Present {
    Present(1 in bits, 0 in bits, 2 in bits)
  }

  ghost predicate HasField(p: Present, n: nat) {
    if n == 1 then p.id else if n == 2 then p.passwd else n == 4 && p.typ
  }

  ghost function Field(n: nat, passwd: seq<byte>, id: int32, typ: int32): Value {
    if n == 1 then Num(id) else if n == 2 then Text(passwd) else Num(typ)
  }

  ghost function Fields(p: Present, passwd: seq<byte>, id: int32, typ: int32): map<nat, Value> {
    map n: nat | 1 <= n <= 4 && HasField(p, n) :: Field(n, passwd, id, typ)
  }

  /** The hidden invariant: a field whose bit is clear holds its default. */
  ghost predicate Covered(p: Present, passwd: seq<byte>, id: int32, typ: int32) {
    && (p.passwd || passwd == [])
    && (p.id || id == 0)
    && (p.typ || typ == 0)
  }

  // Setting a bit in the message's own mask or in that of a running parse, and writing the field with it, changes
  // that field of the message and no other.

  lemma WrotePasswd(has: Bits, bits: Bits, was: seq<byte>, passwd: seq<byte>, id: int32, typ: int32)
    ensures Fields(PresentIn(has + {0} + bits), passwd, id, typ)
         == Fields(PresentIn(has + bits), was, id, typ)[2 := Text(passwd)]
    ensures Covered(PresentIn(has + bits), was, id, typ) ==> Covered(PresentIn(has + {0} + bits), passwd, id, typ)
  {
  }

  lemma WroteId(has: Bits, bits: Bits, passwd: seq<byte>, was: int32, id: int32, typ: int32)
    ensures Fields(PresentIn(has + (bits + {1})), passwd, id, typ)
         == Fields(PresentIn(has + bits), passwd, was, typ)[1 := Num(id)]
    ensures Covered(PresentIn(has + bits), passwd, was, typ) ==> Covered(PresentIn(has + (bits + {1})), passwd, id, typ)
  {
  }

  lemma WroteType(has: Bits, bits: Bits, passwd: seq<byte>, id: int32, was: int32, typ: int32)
    ensures Fields(PresentIn(has + (bits + {2})), passwd, id, typ)
         == Fields(PresentIn(has + bits), passwd, id, was)[4 := Num(typ)]
    ensures Covered(PresentIn(has + bits), passwd, id, was) ==> Covered(PresentIn(has + (bits + {2})), passwd, id, typ)
  {
  }

  /** The bytes of the fields, in field-number order. */
  lemma Layout(p: Present, passwd: seq<byte>, id: int32, typ: int32)
    ensures WriteAll(KnownRecords(LOGIN.order, Fields(p, passwd, id, typ)))
         == Part(p.id, 1, Num(id)) + Part(p.passwd, 2, Text(passwd)) + Part(p.typ, 4, Num(typ))
  {
    ThreeFields(1, 2, 4, Fields(p, passwd, id, typ));
  }

  lemma LayoutSize(p: Present, passwd: seq<byte>, id: int32, typ: int32)
    ensures |WriteAll(KnownRecords(LOGIN.order, Fields(p, passwd, id, typ)))|
         == (if p.passwd then 1 + |Encode(|passwd|) + passwd| else 0)
          + (if p.id then 1 + Int32Size(id) else 0)
          + (if p.typ then 1 + Int32Size(typ) else 0)
  {
    Layout(p, passwd, id, typ);
    FieldSize(1, Num(id));
    FieldSize(2, Text(passwd));
    FieldSize(4, Num(typ));
  }

  function Either(a: Present, b: Present): Present {
    Present(a.id || b.id, a.passwd || b.passwd, a.typ || b.typ)
  }

  /** Taking each field from the second message where it has it, from the first elsewhere, is merging them. */
  lemma MergeFields(a: Present, passwd: seq<byte>, id: int32, typ: int32,
      b: Present, passwd': seq<byte>, id': int32, typ': int32)
    ensures Fields(Either(a, b), if b.passwd then passwd' else passwd, if b.id then id' else id,
                   if b.typ then typ' else typ)
         == Fields(a, passwd, id, typ) + Fields(b, passwd', id', typ')
    ensures Covered(a, passwd, id, typ) ==>
              Covered(Either(a, b), if b.passwd then passwd' else passwd, if b.id then id' else id,
                      if b.typ then typ' else typ)
  {
  }

  /** Under the invariant the message determines the fields. */
  lemma SameFields(a: Present, passwd: seq<byte>, id: int32, typ: int32,
      b: Present, passwd': seq<byte>, id': int32, typ': int32)
    requires Covered(a, passwd, id, typ) && Covered(b, passwd', id', typ')
    requires Fields(a, passwd, id, typ) == Fields(b, passwd', id', typ')
    ensures a == b && passwd == passwd' && id == id' && typ == typ'
  {
    var x, y := Fields(a, passwd, id, typ), Fields(b, passwd', id', typ');
    assert (1 in x <==> 1 in y) && (2 in x <==> 2 in y) && (4 in x <==> 4 in y);
    assert 1 in x ==> x[1] == y[1];
    assert 2 in x ==> x[2] == y[2];
    assert 4 in x ==> x[4] == y[4];
  }

  class IMLoginReq {
    var hasBits: Bits
    var passwd: seq<byte>
    var id: int32
    var typ: int32
    var unknown: seq<Record>
    var cachedSize: int32

    ghost predicate Valid()
      reads this
    {
      Covered(PresentIn(hasBits), passwd, id, typ)
    }

    ghost function View(): Msg
      reads this
    {
      Msg(Fields(PresentIn(hasBits), passwd, id, typ), unknown)
    }

    /** The message with the bits of a running parse counted in. */
    ghost function ViewWith(bits: Bits): Msg
      reads this
    {
      Msg(Fields(PresentIn(hasBits + bits), passwd, id, typ), unknown)
    }

    constructor ()
      ensures Valid() && IsDefault() && View() == DEFAULT && cachedSize == 0
    {
      hasBits, unknown, cachedSize, passwd, id, typ := {}, [], 0, [], 0, 0;
    }

    /** The switch on the field number, and in each case the test of the low byte of the tag. */
    static method Switch(tag: nat) returns (field: nat)
      ensures Selects(LOGIN, tag, field)
    {
      field := 0;
      match tag / 8
      case 1 => if tag % 256 == 8 { field := 1; }
      case 2 => if tag % 256 == 18 { field := 2; }
      case 4 => if tag % 256 == 32 { field := 4; }
      case _ =>
    }

    /** One turn of the parse loop: a tag and the branch of the switch it selects. */
    method ParseField(input: seq<byte>, ptr: nat, parsed: Bits) returns (turn: Turn, next: nat, bits: Bits)
      requires ptr < |input|
      modifies `hasBits, `passwd, `id, `typ, `unknown
      ensures old(Covered(PresentIn(hasBits + parsed), passwd, id, typ)) ==>
                Covered(PresentIn(hasBits + bits), passwd, id, typ)
      ensures Turned(LOGIN, input, ptr, turn, next, old(ViewWith(parsed)), ViewWith(bits))
    {
      ghost var was := ViewWith(parsed);
      bits := parsed;
      var ok, tag, at := ReadTagAt(input, ptr);
      next := at;
      if !ok {
        NoTag(LOGIN, input, ptr, was);
        return Fail, ptr, bits;
      }
      var field := Switch(tag);
      match field
      case 1 =>
        bits := bits + {1};
        turn, id, next := ReadInt32Field(LOGIN, input, ptr, tag, at, 1, was);
        WroteId(hasBits, parsed, passwd, old(id), id, typ);
      case 2 =>
        hasBits := hasBits + {0};
        turn, passwd, next := ReadBlobField(LOGIN, input, ptr, tag, at, 2, was);
        WrotePasswd(old(hasBits), bits, old(passwd), passwd, id, typ);
      case 4 =>
        bits := bits + {2};
        turn, typ, next := ReadInt32Field(LOGIN, input, ptr, tag, at, 4, was);
        WroteType(hasBits, parsed, passwd, id, old(typ), typ);
      case _ =>
        var added;
        turn, added, next := HandleUnusual(LOGIN, input, ptr, tag, at, was);
        unknown := unknown + added;
    }

    method InternalParse(input: seq<byte>) returns (end: End, ptr: nat)
      modifies `hasBits, `passwd, `id, `typ, `unknown
      ensures old(Valid()) ==> Valid()
      ensures end == Parse(LOGIN, old(View()), input).end
      ensures end != Failed ==> View() == Parse(LOGIN, old(View()), input).msg && ptr == ReadAll(input).len
      ensures end == Failed ==> Torn(LOGIN, input[ReadAll(input).len..], Parse(LOGIN, old(View()), input).msg, View())
    {
      ghost var start := View();
      var bits: Bits := {};
      end, ptr := AtEnd, 0;
      assert hasBits + {} == hasBits;
      Begin(LOGIN, start, input);
      while ptr < |input|
        invariant old(Valid()) ==> Covered(PresentIn(hasBits + bits), passwd, id, typ)
        invariant Underway(LOGIN, start, input, ptr, ViewWith(bits))
      {
        ghost var was := ViewWith(bits);
        var turn, next;
        turn, next, bits := ParseField(input, ptr, bits);
        Advance(LOGIN, start, input, ptr, was, turn, next, ViewWith(bits));
        if turn != Continue {
          end, ptr := if turn == Fail then Failed else StoppedAt(turn.tag), next;
          hasBits := hasBits + bits;
          return;
        }
        ptr := next;
      }
      Finish(LOGIN, start, input, ViewWith(bits));
      hasBits := hasBits + bits;
    }

    method InternalSerialize() returns (target: seq<byte>)
      ensures target == Serialize(LOGIN, View())
    {
      target := [];
      if 1 in hasBits {
        target := WriteInt32ToArray(1, id, target);
      }
      ghost var done := Part(1 in hasBits, 1, Num(id));
      assert target == done;
      if 0 in hasBits {
        target := WriteStringMaybeAliased(2, passwd, target);
      }
      done := done + Part(0 in hasBits, 2, Text(passwd));
      assert target == done;
      if 2 in hasBits {
        target := WriteInt32ToArray(4, typ, target);
      }
      done := done + Part(2 in hasBits, 4, Num(typ));
      assert target == done;
      Layout(PresentIn(hasBits), passwd, id, typ);
      if unknown != [] {
        target := InternalSerializeUnknownFieldsToArray(unknown, target);
      }
      SerializeSplits(LOGIN, View());
    }

    method RequiredFieldsByteSizeFallback() returns (total: nat)
      ensures total == |WriteAll(KnownRecords(LOGIN.order, View().known))|
    {
      total := 0;
      if 0 in hasBits {
        var size := StringSize(passwd);
        total := total + 1 + size;
      }
      if 1 in hasBits {
        total := total + 1 + Int32Size(id);
      }
      if 2 in hasBits {
        total := total + 1 + Int32Size(typ);
      }
      LayoutSize(PresentIn(hasBits), passwd, id, typ);
    }

    method ByteSizeLong() returns (total: nat)
      modifies `cachedSize
      ensures total == |Serialize(LOGIN, View())|
      ensures cachedSize == Truncate32(total) && (total < TWO_31 ==> cachedSize == total)
    {
      total := 0;
      if hasBits * {0, 1, 2} == {0, 1, 2} {
        assert forall b :: b in {0, 1, 2} ==> b in hasBits;
        var size := StringSize(passwd);
        total := total + 1 + size;
        total := total + 1 + Int32Size(id);
        total := total + 1 + Int32Size(typ);
        LayoutSize(PresentIn(hasBits), passwd, id, typ);
      } else {
        total := RequiredFieldsByteSizeFallback();
      }
      SerializeSplits(LOGIN, View());
      if unknown != [] {
        total := ComputeUnknownFieldsSize(unknown, total);
      }
      if total < TWO_31 { SmallTruncate(total); }
      cachedSize := Truncate32(total);
    }

    ghost predicate IsDefault()
      reads this
    {
      hasBits == {} && unknown == [] && passwd == [] && id == 0 && typ == 0
    }

    /** What Clear relies on: every field whose group has no bit set already holds its default. */
    ghost predicate ClearReaches()
      reads this
    {
      (0 in hasBits || passwd == []) && (1 in hasBits || 2 in hasBits || (id == 0 && typ == 0))
    }

    /** Resets only what the bits name; that gives the default message exactly when nothing else needed resetting. */
    method Clear()
      modifies `hasBits, `passwd, `id, `typ, `unknown
      ensures IsDefault() <==> old(ClearReaches())
      ensures old(Valid()) ==> IsDefault()
      ensures View() == DEFAULT
    {
      var cached := hasBits;
      TwoBits(cached, 1, 2);
      if 0 in cached {
        passwd := [];
      }
      if cached * {1, 2} != {} {
        id, typ := 0, 0;
      }
      hasBits := {};
      unknown := [];
    }

    method MergeFrom(from: IMLoginReq)
      requires from != this
      modifies `hasBits, `passwd, `id, `typ, `unknown
      ensures old(Valid()) ==> Valid()
      ensures View() == Merge(old(View()), from.View())
    {
      unknown := unknown + from.unknown;
      var cached := from.hasBits;
      ghost var a, b := PresentIn(hasBits), PresentIn(cached);
      ThreeBits(cached, 0, 1, 2);
      if cached * {0, 1, 2} != {} {
        if 0 in cached {
          hasBits := hasBits + {0};
          passwd := from.passwd;
        }
        if 1 in cached {
          id := from.id;
        }
        if 2 in cached {
          typ := from.typ;
        }
        hasBits := hasBits + cached;
      }
      assert PresentIn(hasBits) == Either(a, b);
      assert passwd == if b.passwd then from.passwd else old(passwd);
      assert id == if b.id then from.id else old(id);
      assert typ == if b.typ then from.typ else old(typ);
      MergeFields(a, old(passwd), old(id), old(typ), b, from.passwd, from.id, from.typ);
    }

    method CopyFrom(from: IMLoginReq)
      modifies `hasBits, `passwd, `id, `typ, `unknown
      ensures View() == old(from.View()) && from.View() == old(from.View())
      ensures (old(Valid()) ==> Valid()) && (old(from.Valid()) ==> from.Valid())
      ensures old(Valid() && from.Valid()) ==>
                passwd == old(from.passwd) && id == old(from.id) && typ == old(from.typ)
    {
      if from == this {
        return;
      }
      Clear();
      MergeFrom(from);
      MergeIdentity(from.View());
      if Valid() && from.Valid() {
        SameFields(PresentIn(hasBits), passwd, id, typ,
                   PresentIn(from.hasBits), from.passwd, from.id, from.typ);
      }
    }

    method IsInitialized() returns (yes: bool)
      ensures yes <==> Initialized(LOGIN, View())
    {
      if hasBits * {0, 1, 2} != {0, 1, 2} {
        assert exists b :: b in {0, 1, 2} && b !in hasBits;
        assert 1 in LOGIN.kinds.Keys && 2 in LOGIN.kinds.Keys && 4 in LOGIN.kinds.Keys;
        return false;
      }
      assert forall b :: b in {0, 1, 2} ==> b in hasBits;
      return true;
    }

    method InternalSwap(other: IMLoginReq)
      modifies this, other
      ensures View() == old(other.View()) && other.View() == old(View())
      ensures old(other.Valid()) ==> Valid()
      ensures old(Valid()) ==> other.Valid()
      ensures cachedSize == old(cachedSize) && other.cachedSize == old(other.cachedSize)
    {
      unknown, other.unknown := other.unknown, unknown;
      hasBits, other.hasBits := other.hasBits, hasBits;
      passwd, other.passwd := other.passwd, passwd;
      id, other.id := other.id, id;
      typ, other.typ := other.typ, typ;
    }
  }

  // ----- the codec end to end

  /** Serialize, parse into any other message after clearing it: the same message, field by field. */
  method SerializeThenParse(x: IMLoginReq, y: IMLoginReq)
    requires x != y && Fits(LOGIN, x.View()) && Foreign(LOGIN, x.unknown)
    modifies y
    ensures y.View() == x.View()
    ensures x.Valid() && old(y.Valid()) ==> y.Valid() && PresentIn(y.hasBits) == PresentIn(x.hasBits)
    ensures x.Valid() && old(y.Valid()) ==> y.passwd == x.passwd && y.id == x.id && y.typ == x.typ
  {
    var bytes := x.InternalSerialize();
    y.Clear();
    var end, ptr := y.InternalParse(bytes);
    LoginValid();
    RoundTrip(LOGIN, x.View());
    if x.Valid() && y.Valid() {
      SameFields(PresentIn(y.hasBits), y.passwd, y.id, y.typ, PresentIn(x.hasBits), x.passwd, x.id, x.typ);
    }
  }

  /** Parsing two serializations one after the other gives what merging the two messages gives. */
  method ParseBothOrMerge(x: IMLoginReq, y: IMLoginReq, z: IMLoginReq)
    requires x != y && y != z && x != z
    requires Fits(LOGIN, x.View()) && Foreign(LOGIN, x.unknown)
    requires Fits(LOGIN, y.View()) && Foreign(LOGIN, y.unknown)
    modifies x, z
    ensures z.View() == x.View() == Merge(old(x.View()), y.View())
  {
    var first := x.InternalSerialize();
    var second := y.InternalSerialize();
    z.Clear();
    var end, ptr := z.InternalParse(first + second);
    LoginValid();
    ConcatenationMerges(LOGIN, x.View(), y.View());
    x.MergeFrom(y);
  }
}
