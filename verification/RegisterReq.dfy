/** A register request: four fields, whose bits are in another order than their numbers. */
module RegisterReq {
  import opened Options
  import opened Varint
  import opened Wire
  import opened WireIO
  import opened Messages
  import opened ParseLoop
  import opened Codec

  /** Which fields are present. */
  datatype Present = Present(name: bool, id: bool, passwd: bool, typ: bool)

  /** Bits 0, 1, 2 and 3 stand for name, passwd, id and type: fields 1, 3, 2 and 4. */
  function PresentIn(bits: Bits): Present {
    Present(0 in bits, 2 in bits, 1 in bits, 3 in bits)
  }

  ghost predicate HasField(p: Present, n: nat) {
    if n == 1 then p.name else if n == 2 then p.id else if n == 3 then p.passwd else n == 4 && p.typ
  }

  ghost function Field(n: nat, name: seq<byte>, passwd: seq<byte>, id: int32, typ: int32): Value {
    if n == 1 then Text(name) else if n == 2 then Num(id) else if n == 3 then Text(passwd) else Num(typ)
  }

  ghost function Fields(p: Present, name: seq<byte>, passwd: seq<byte>, id: int32, typ: int32): map<nat, Value> {
    map n: nat | 1 <= n <= 4 && HasField(p, n) :: Field(n, name, passwd, id, typ)
  }

  /** The hidden invariant: a field whose bit is clear holds its default. */
  ghost predicate Covered(p: Present, name: seq<byte>, passwd: seq<byte>, id: int32, typ: int32) {
    && (p.name || name == [])
    && (p.passwd || passwd == [])
    && (p.id || id == 0)
    && (p.typ || typ == 0)
  }

  // Setting a bit in the message's own mask or in that of a running parse, and writing the field with it, changes
  // that field of the message and no other.

  lemma WroteName(has: Bits, bits: Bits, was: seq<byte>, name: seq<byte>, passwd: seq<byte>, id: int32, typ: int32)
    ensures Fields(PresentIn(has + {0} + bits), name, passwd, id, typ)
         == Fields(PresentIn(has + bits), was, passwd, id, typ)[1 := Text(name)]
    ensures Covered(PresentIn(has + bits), was, passwd, id, typ) ==>
        Covered(PresentIn(has + {0} + bits), name, passwd, id, typ)
  {
  }

  lemma WrotePasswd(has: Bits, bits: Bits, name: seq<byte>, was: seq<byte>, passwd: seq<byte>, id: int32, typ: int32)
    ensures Fields(PresentIn(has + {1} + bits), name, passwd, id, typ)
         == Fields(PresentIn(has + bits), name, was, id, typ)[3 := Text(passwd)]
    ensures Covered(PresentIn(has + bits), name, was, id, typ) ==>
        Covered(PresentIn(has + {1} + bits), name, passwd, id, typ)
  {
  }

  lemma WroteId(has: Bits, bits: Bits, name: seq<byte>, passwd: seq<byte>, was: int32, id: int32, typ: int32)
    ensures Fields(PresentIn(has + (bits + {2})), name, passwd, id, typ)
         == Fields(PresentIn(has + bits), name, passwd, was, typ)[2 := Num(id)]
    ensures Covered(PresentIn(has + bits), name, passwd, was, typ) ==>
        Covered(PresentIn(has + (bits + {2})), name, passwd, id, typ)
  {
  }

  lemma WroteType(has: Bits, bits: Bits, name: seq<byte>, passwd: seq<byte>, id: int32, was: int32, typ: int32)
    ensures Fields(PresentIn(has + (bits + {3})), name, passwd, id, typ)
         == Fields(PresentIn(has + bits), name, passwd, id, was)[4 := Num(typ)]
    ensures Covered(PresentIn(has + bits), name, passwd, id, was) ==>
        Covered(PresentIn(has + (bits + {3})), name, passwd, id, typ)
  {
  }

  // Clearing a bit together with its field removes that field from the message and nothing else.

  lemma DroppedName(bits: Bits, name: seq<byte>, passwd: seq<byte>, id: int32, typ: int32)
    ensures Fields(PresentIn(bits - {0}), [], passwd, id, typ) == Fields(PresentIn(bits), name, passwd, id, typ) - {1}
  {
  }

  lemma DroppedId(bits: Bits, name: seq<byte>, passwd: seq<byte>, id: int32, typ: int32)
    ensures Fields(PresentIn(bits - {2}), name, passwd, 0, typ) == Fields(PresentIn(bits), name, passwd, id, typ) - {2}
  {
  }

  lemma DroppedPasswd(bits: Bits, name: seq<byte>, passwd: seq<byte>, id: int32, typ: int32)
    ensures Fields(PresentIn(bits - {1}), name, [], id, typ) == Fields(PresentIn(bits), name, passwd, id, typ) - {3}
  {
  }

  lemma DroppedType(bits: Bits, name: seq<byte>, passwd: seq<byte>, id: int32, typ: int32)
    ensures Fields(PresentIn(bits - {3}), name, passwd, id, 0) == Fields(PresentIn(bits), name, passwd, id, typ) - {4}
  {
  }

  /** The bytes of the four fields, in field-number order. */
  lemma Layout(p: Present, name: seq<byte>, passwd: seq<byte>, id: int32, typ: int32)
    ensures WriteAll(KnownRecords(REGISTER.order, Fields(p, name, passwd, id, typ)))
         == Part(p.name, 1, Text(name)) + Part(p.id, 2, Num(id))
          + Part(p.passwd, 3, Text(passwd)) + Part(p.typ, 4, Num(typ))
  {
    FourFields(1, 2, 3, 4, Fields(p, name, passwd, id, typ));
  }

  lemma LayoutSize(p: Present, name: seq<byte>, passwd: seq<byte>, id: int32, typ: int32)
    ensures |WriteAll(KnownRecords(REGISTER.order, Fields(p, name, passwd, id, typ)))|
         == (if p.name then 1 + |Encode(|name|) + name| else 0)
          + (if p.passwd then 1 + |Encode(|passwd|) + passwd| else 0)
          + (if p.id then 1 + Int32Size(id) else 0) + (if p.typ then 1 + Int32Size(typ) else 0)
  {
    Layout(p, name, passwd, id, typ);
    FieldSize(1, Text(name));
    FieldSize(2, Num(id));
    FieldSize(3, Text(passwd));
    FieldSize(4, Num(typ));
  }

  function Either(a: Present, b: Present): Present {
    Present(a.name || b.name, a.id || b.id, a.passwd || b.passwd, a.typ || b.typ)
  }

  /** Taking each field from the second message where it has it, from the first elsewhere, is merging them. */
  lemma MergeFields(a: Present, name: seq<byte>, passwd: seq<byte>, id: int32, typ: int32,
                    b: Present, name': seq<byte>, passwd': seq<byte>, id': int32, typ': int32)
    ensures Fields(Either(a, b), if b.name then name' else name, if b.passwd then passwd' else passwd,
                   if b.id then id' else id, if b.typ then typ' else typ)
         == Fields(a, name, passwd, id, typ) + Fields(b, name', passwd', id', typ')
    ensures Covered(a, name, passwd, id, typ) ==>
              Covered(Either(a, b), if b.name then name' else name, if b.passwd then passwd' else passwd,
                      if b.id then id' else id, if b.typ then typ' else typ)
  {
  }

  /** Under the invariant the message determines the fields. */
  lemma SameFields(a: Present, name: seq<byte>, passwd: seq<byte>, id: int32, typ: int32,
                   b: Present, name': seq<byte>, passwd': seq<byte>, id': int32, typ': int32)
    requires Covered(a, name, passwd, id, typ) && Covered(b, name', passwd', id', typ')
    requires Fields(a, name, passwd, id, typ) == Fields(b, name', passwd', id', typ')
    ensures a == b && name == name' && passwd == passwd' && id == id' && typ == typ'
  {
    var x, y := Fields(a, name, passwd, id, typ), Fields(b, name', passwd', id', typ');
    assert (1 in x <==> 1 in y) && (2 in x <==> 2 in y) && (3 in x <==> 3 in y) && (4 in x <==> 4 in y);
    assert 1 in x ==> x[1] == y[1];
    assert 2 in x ==> x[2] == y[2];
    assert 3 in x ==> x[3] == y[3];
    assert 4 in x ==> x[4] == y[4];
  }

  class IMRegisterReq {
    var hasBits: Bits
    var name: seq<byte>
    var passwd: seq<byte>
    var id: int32
    var typ: int32
    var unknown: seq<Record>
    var cachedSize: int32

    ghost predicate Valid()
      reads this
    {
      Covered(PresentIn(hasBits), name, passwd, id, typ)
    }

    ghost function View(): Msg
      reads this
    {
      Msg(Fields(PresentIn(hasBits), name, passwd, id, typ), unknown)
    }

    /** The message with the bits of a running parse counted in. */
    ghost function ViewWith(bits: Bits): Msg
      reads this
    {
      Msg(Fields(PresentIn(hasBits + bits), name, passwd, id, typ), unknown)
    }

    constructor ()
      ensures Valid() && IsDefault() && View() == DEFAULT && cachedSize == 0
    {
      hasBits, unknown, cachedSize, name, passwd, id, typ := {}, [], 0, [], [], 0, 0;
    }

    /** The switch on the field number, and in each case the test of the low byte of the tag. */
    static method Switch(tag: nat) returns (field: nat)
      ensures Selects(REGISTER, tag, field)
    {
      field := 0;
      match tag / 8
      case 1 => if tag % 256 == 10 { field := 1; }
      case 2 => if tag % 256 == 16 { field := 2; }
      case 3 => if tag % 256 == 26 { field := 3; }
      case 4 => if tag % 256 == 32 { field := 4; }
      case _ =>
    }

    /** One turn of the parse loop: a tag and the branch of the switch it selects. */
    method ParseField(input: seq<byte>, ptr: nat, parsed: Bits) returns (turn: Turn, next: nat, bits: Bits)
      requires ptr < |input|
      modifies `hasBits, `name, `passwd, `id, `typ, `unknown
      ensures old(Covered(PresentIn(hasBits + parsed), name, passwd, id, typ)) ==>
                Covered(PresentIn(hasBits + bits), name, passwd, id, typ)
      ensures Turned(REGISTER, input, ptr, turn, next, old(ViewWith(parsed)), ViewWith(bits))
    {
      ghost var was := ViewWith(parsed);
      bits := parsed;
      var ok, tag, at := ReadTagAt(input, ptr);
      next := at;
      if !ok {
        NoTag(REGISTER, input, ptr, was);
        return Fail, ptr, bits;
      }
      var field := Switch(tag);
      match field
      case 1 =>
        hasBits := hasBits + {0};
        turn, name, next := ReadBlobField(REGISTER, input, ptr, tag, at, 1, was);
        WroteName(old(hasBits), bits, old(name), name, passwd, id, typ);
      case 2 =>
        bits := bits + {2};
        turn, id, next := ReadInt32Field(REGISTER, input, ptr, tag, at, 2, was);
        WroteId(hasBits, parsed, name, passwd, old(id), id, typ);
      case 3 =>
        hasBits := hasBits + {1};
        turn, passwd, next := ReadBlobField(REGISTER, input, ptr, tag, at, 3, was);
        WrotePasswd(old(hasBits), bits, name, old(passwd), passwd, id, typ);
      case 4 =>
        bits := bits + {3};
        turn, typ, next := ReadInt32Field(REGISTER, input, ptr, tag, at, 4, was);
        WroteType(hasBits, parsed, name, passwd, id, old(typ), typ);
      case _ =>
        var added;
        turn, added, next := HandleUnusual(REGISTER, input, ptr, tag, at, was);
        unknown := unknown + added;
    }

    method InternalParse(input: seq<byte>) returns (end: End, ptr: nat)
      modifies `hasBits, `name, `passwd, `id, `typ, `unknown
      ensures old(Valid()) ==> Valid()
      ensures end == Parse(REGISTER, old(View()), input).end
      ensures end != Failed ==> View() == Parse(REGISTER, old(View()), input).msg && ptr == ReadAll(input).len
      ensures end == Failed ==>
                Torn(REGISTER, input[ReadAll(input).len..], Parse(REGISTER, old(View()), input).msg, View())
    {
      ghost var start := View();
      var bits: Bits := {};
      end, ptr := AtEnd, 0;
      assert hasBits + {} == hasBits;
      Begin(REGISTER, start, input);
      while ptr < |input|
        invariant old(Valid()) ==> Covered(PresentIn(hasBits + bits), name, passwd, id, typ)
        invariant Underway(REGISTER, start, input, ptr, ViewWith(bits))
      {
        ghost var was := ViewWith(bits);
        var turn, next;
        turn, next, bits := ParseField(input, ptr, bits);
        Advance(REGISTER, start, input, ptr, was, turn, next, ViewWith(bits));
        if turn != Continue {
          end, ptr := if turn == Fail then Failed else StoppedAt(turn.tag), next;
          hasBits := hasBits + bits;
          return;
        }
        ptr := next;
      }
      Finish(REGISTER, start, input, ViewWith(bits));
      hasBits := hasBits + bits;
    }

    // ----- serializing and sizes

    method InternalSerialize() returns (target: seq<byte>)
      ensures target == Serialize(REGISTER, View())
    {
      target := [];
      if 0 in hasBits {
        target := WriteStringMaybeAliased(1, name, target);
      }
      ghost var done := Part(0 in hasBits, 1, Text(name));
      assert target == done;
      if 2 in hasBits {
        target := WriteInt32ToArray(2, id, target);
      }
      done := done + Part(2 in hasBits, 2, Num(id));
      assert target == done;
      if 1 in hasBits {
        target := WriteStringMaybeAliased(3, passwd, target);
      }
      done := done + Part(1 in hasBits, 3, Text(passwd));
      assert target == done;
      if 3 in hasBits {
        target := WriteInt32ToArray(4, typ, target);
      }
      done := done + Part(3 in hasBits, 4, Num(typ));
      assert target == done;
      Layout(PresentIn(hasBits), name, passwd, id, typ);
      if unknown != [] {
        target := InternalSerializeUnknownFieldsToArray(unknown, target);
      }
      SerializeSplits(REGISTER, View());
    }

    method RequiredFieldsByteSizeFallback() returns (total: nat)
      ensures total == |WriteAll(KnownRecords(REGISTER.order, View().known))|
    {
      total := 0;
      var size;
      if 0 in hasBits {
        size := StringSize(name);
        total := total + 1 + size;
      }
      if 1 in hasBits {
        size := StringSize(passwd);
        total := total + 1 + size;
      }
      if 2 in hasBits {
        total := total + 1 + Int32Size(id);
      }
      if 3 in hasBits {
        total := total + 1 + Int32Size(typ);
      }
      LayoutSize(PresentIn(hasBits), name, passwd, id, typ);
    }

    method ByteSizeLong() returns (total: nat)
      modifies `cachedSize
      ensures total == |Serialize(REGISTER, View())|
      ensures cachedSize == Truncate32(total) && (total < TWO_31 ==> cachedSize == total)
    {
      total := 0;
      if hasBits * {0, 1, 2, 3} == {0, 1, 2, 3} {
        assert forall b :: b in {0, 1, 2, 3} ==> b in hasBits;
        var size := StringSize(name);
        total := total + 1 + size;
        size := StringSize(passwd);
        total := total + 1 + size;
        total := total + 1 + Int32Size(id);
        total := total + 1 + Int32Size(typ);
        LayoutSize(PresentIn(hasBits), name, passwd, id, typ);
      } else {
        total := RequiredFieldsByteSizeFallback();
      }
      SerializeSplits(REGISTER, View());
      if unknown != [] {
        total := ComputeUnknownFieldsSize(unknown, total);
      }
      if total < TWO_31 { SmallTruncate(total); }
      cachedSize := Truncate32(total);
    }

    // ----- clearing, merging, copying, swapping

    /** What Clear relies on: every field whose group has no bit set already holds its default. */
    ghost predicate ClearReaches()
      reads this
    {
      && (0 in hasBits || name == [])
      && (1 in hasBits || passwd == [])
      && (2 in hasBits || 3 in hasBits || (id == 0 && typ == 0))
    }

    ghost predicate IsDefault()
      reads this
    {
      hasBits == {} && unknown == [] && name == [] && passwd == [] && id == 0 && typ == 0
    }

    /** Resets only what the bits name; that gives the default message exactly when nothing else needed resetting. */
    method Clear()
      modifies `hasBits, `name, `passwd, `id, `typ, `unknown
      ensures IsDefault() <==> old(ClearReaches())
      ensures (old(0 !in hasBits) ==> name == old(name)) && (old(1 !in hasBits) ==> passwd == old(passwd))
      ensures old(Valid()) ==> IsDefault()
      ensures View() == DEFAULT
    {
      var cached := hasBits;
      TwoBits(cached, 0, 1);
      TwoBits(cached, 2, 3);
      if cached * {0, 1} != {} {
        if 0 in cached {
          name := [];
        }
        if 1 in cached {
          passwd := [];
        }
      }
      if cached * {2, 3} != {} {
        id, typ := 0, 0;
      }
      hasBits := {};
      unknown := [];
    }

    method MergeFrom(from: IMRegisterReq)
      requires from != this
      modifies `hasBits, `name, `passwd, `id, `typ, `unknown
      ensures old(Valid()) ==> Valid()
      ensures View() == Merge(old(View()), from.View())
    {
      unknown := unknown + from.unknown;
      var cached := from.hasBits;
      ghost var a, b := PresentIn(hasBits), PresentIn(cached);
      FourBits(cached, 0, 1, 2, 3);
      if cached * {0, 1, 2, 3} != {} {
        if 0 in cached {
          hasBits := hasBits + {0};
          name := from.name;
        }
        if 1 in cached {
          hasBits := hasBits + {1};
          passwd := from.passwd;
        }
        if 2 in cached {
          id := from.id;
        }
        if 3 in cached {
          typ := from.typ;
        }
        hasBits := hasBits + cached;
      }
      assert PresentIn(hasBits) == Either(a, b);
      assert name == if b.name then from.name else old(name);
      assert passwd == if b.passwd then from.passwd else old(passwd);
      assert id == if b.id then from.id else old(id);
      assert typ == if b.typ then from.typ else old(typ);
      MergeFields(a, old(name), old(passwd), old(id), old(typ), b, from.name, from.passwd, from.id, from.typ);
    }

    method CopyFrom(from: IMRegisterReq)
      modifies `hasBits, `name, `passwd, `id, `typ, `unknown
      ensures View() == old(from.View()) && from.View() == old(from.View())
      ensures (old(Valid()) ==> Valid()) && (old(from.Valid()) ==> from.Valid())
      ensures old(Valid() && from.Valid()) ==>
                name == old(from.name) && passwd == old(from.passwd) && id == old(from.id) && typ == old(from.typ)
    {
      if from == this {
        return;
      }
      Clear();
      MergeFrom(from);
      MergeIdentity(from.View());
      if Valid() && from.Valid() {
        SameFields(PresentIn(hasBits), name, passwd, id, typ,
                   PresentIn(from.hasBits), from.name, from.passwd, from.id, from.typ);
      }
    }

    method IsInitialized() returns (yes: bool)
      ensures yes <==> Initialized(REGISTER, View())
    {
      if hasBits * {0, 1, 2, 3} != {0, 1, 2, 3} {
        assert exists b :: b in {0, 1, 2, 3} && b !in hasBits;
        var required := REGISTER.kinds.Keys;
        assert 1 in required && 2 in required && 3 in required && 4 in required;
        return false;
      }
      assert forall b :: b in {0, 1, 2, 3} ==> b in hasBits;
      return true;
    }

    method InternalSwap(other: IMRegisterReq)
      modifies this, other
      ensures View() == old(other.View()) && other.View() == old(View())
      ensures old(other.Valid()) ==> Valid()
      ensures old(Valid()) ==> other.Valid()
      ensures cachedSize == old(cachedSize) && other.cachedSize == old(other.cachedSize)
    {
      unknown, other.unknown := other.unknown, unknown;
      hasBits, other.hasBits := other.hasBits, hasBits;
      name, other.name := other.name, name;
      passwd, other.passwd := other.passwd, passwd;
      id, other.id := other.id, id;
      typ, other.typ := other.typ, typ;
    }

    // ----- accessors

    method SetId(value: int32)
      modifies `hasBits, `id
      ensures old(Valid()) ==> Valid()
      ensures View() == old(View()).(known := old(View()).known[2 := Num(value)])
    {
      WroteId(hasBits, {}, name, passwd, id, value, typ);
      assert hasBits + {} == hasBits && hasBits + ({} + {2}) == hasBits + {2};
      hasBits := hasBits + {2};
      id := value;
    }

    method ClearId()
      modifies `hasBits, `id
      ensures old(Valid()) ==> Valid()
      ensures View() == old(View()).(known := old(View()).known - {2})
    {
      DroppedId(hasBits, name, passwd, id, typ);
      id := 0;
      hasBits := hasBits - {2};
    }

    method SetName(value: seq<byte>)
      modifies `hasBits, `name
      ensures old(Valid()) ==> Valid()
      ensures View() == old(View()).(known := old(View()).known[1 := Text(value)])
    {
      WroteName(hasBits, {}, name, value, passwd, id, typ);
      assert hasBits + {} == hasBits && hasBits + {0} + {} == hasBits + {0};
      hasBits := hasBits + {0};
      name := value;
    }

    method ClearName()
      modifies `hasBits, `name
      ensures old(Valid()) ==> Valid()
      ensures View() == old(View()).(known := old(View()).known - {1})
    {
      DroppedName(hasBits, name, passwd, id, typ);
      name := [];
      hasBits := hasBits - {0};
    }

    /** Hands out the string: an absent name becomes present and empty, a present one keeps its value. */
    method MutableName() returns (data: seq<byte>)
      modifies `hasBits
      ensures old(Valid()) ==> Valid()
      ensures data == name && 0 in hasBits && (old(Valid()) && old(1 !in View().known) ==> data == [])
      ensures View() == old(View()).(known := old(View()).known[1 := Text(data)])
    {
      WroteName(hasBits, {}, name, name, passwd, id, typ);
      assert hasBits + {} == hasBits && hasBits + {0} + {} == hasBits + {0};
      hasBits := hasBits + {0};
      data := name;
    }

    /**
     * A write through the string handed out at any earlier time; it keeps the invariant exactly when the bit is still
     * set.
     */
    method WriteThroughName(value: seq<byte>)
      modifies `name
      ensures name == value && (old(Valid()) ==> (Valid() <==> 0 in hasBits || value == []))
      ensures View() == if 0 in hasBits then old(View()).(known := old(View()).known[1 := Text(value)]) else old(View())
    {
      WroteName(hasBits, {}, name, value, passwd, id, typ);
      assert hasBits + {} == hasBits && (0 in hasBits ==> hasBits + {0} + {} == hasBits);
      name := value;
    }

    method ReleaseName() returns (data: Option<seq<byte>>)
      modifies `hasBits, `name
      ensures old(Valid()) ==> Valid()
      ensures View() == old(View()).(known := old(View()).known - {1})
      ensures data == if old(1 in View().known) then Some(old(name)) else None
    {
      DroppedName(hasBits, name, passwd, id, typ);
      if 0 !in hasBits {
        assert View().known - {1} == View().known;
        return None;
      }
      hasBits := hasBits - {0};
      data := Some(name);
      name := [];
    }

    method SetAllocatedName(data: Option<seq<byte>>)
      modifies `hasBits, `name
      ensures old(Valid()) ==> Valid()
      ensures data.Some? ==> View() == old(View()).(known := old(View()).known[1 := Text(data.value)])
      ensures data.None? ==> View() == old(View()).(known := old(View()).known - {1})
    {
      DroppedName(hasBits, name, passwd, id, typ);
      if data.Some? {
        WroteName(hasBits, {}, name, data.value, passwd, id, typ);
        assert hasBits + {} == hasBits && hasBits + {0} + {} == hasBits + {0};
        hasBits := hasBits + {0};
      } else {
        hasBits := hasBits - {0};
      }
      name := if data.Some? then data.value else [];
    }

    method SetType(value: int32)
      modifies `hasBits, `typ
      ensures old(Valid()) ==> Valid()
      ensures View() == old(View()).(known := old(View()).known[4 := Num(value)])
    {
      WroteType(hasBits, {}, name, passwd, id, typ, value);
      assert hasBits + {} == hasBits && hasBits + ({} + {3}) == hasBits + {3};
      hasBits := hasBits + {3};
      typ := value;
    }

    method ClearType()
      modifies `hasBits, `typ
      ensures old(Valid()) ==> Valid()
      ensures View() == old(View()).(known := old(View()).known - {4})
    {
      DroppedType(hasBits, name, passwd, id, typ);
      typ := 0;
      hasBits := hasBits - {3};
    }

    method SetPasswd(value: seq<byte>)
      modifies `hasBits, `passwd
      ensures old(Valid()) ==> Valid()
      ensures View() == old(View()).(known := old(View()).known[3 := Text(value)])
    {
      WrotePasswd(hasBits, {}, name, passwd, value, id, typ);
      assert hasBits + {} == hasBits && hasBits + {1} + {} == hasBits + {1};
      hasBits := hasBits + {1};
      passwd := value;
    }

    method ClearPasswd()
      modifies `hasBits, `passwd
      ensures old(Valid()) ==> Valid()
      ensures View() == old(View()).(known := old(View()).known - {3})
    {
      DroppedPasswd(hasBits, name, passwd, id, typ);
      passwd := [];
      hasBits := hasBits - {1};
    }

    method MutablePasswd() returns (data: seq<byte>)
      modifies `hasBits
      ensures old(Valid()) ==> Valid()
      ensures data == passwd && 1 in hasBits && (old(Valid()) && old(3 !in View().known) ==> data == [])
      ensures View() == old(View()).(known := old(View()).known[3 := Text(data)])
    {
      WrotePasswd(hasBits, {}, name, passwd, passwd, id, typ);
      assert hasBits + {} == hasBits && hasBits + {1} + {} == hasBits + {1};
      hasBits := hasBits + {1};
      data := passwd;
    }

    method WriteThroughPasswd(value: seq<byte>)
      modifies `passwd
      ensures passwd == value && (old(Valid()) ==> (Valid() <==> 1 in hasBits || value == []))
      ensures View() == if 1 in hasBits then old(View()).(known := old(View()).known[3 := Text(value)]) else old(View())
    {
      WrotePasswd(hasBits, {}, name, passwd, value, id, typ);
      assert hasBits + {} == hasBits && (1 in hasBits ==> hasBits + {1} + {} == hasBits);
      passwd := value;
    }

    method ReleasePasswd() returns (data: Option<seq<byte>>)
      modifies `hasBits, `passwd
      ensures old(Valid()) ==> Valid()
      ensures View() == old(View()).(known := old(View()).known - {3})
      ensures data == if old(3 in View().known) then Some(old(passwd)) else None
    {
      DroppedPasswd(hasBits, name, passwd, id, typ);
      if 1 !in hasBits {
        assert View().known - {3} == View().known;
        return None;
      }
      hasBits := hasBits - {1};
      data := Some(passwd);
      passwd := [];
    }

    method SetAllocatedPasswd(data: Option<seq<byte>>)
      modifies `hasBits, `passwd
      ensures old(Valid()) ==> Valid()
      ensures data.Some? ==> View() == old(View()).(known := old(View()).known[3 := Text(data.value)])
      ensures data.None? ==> View() == old(View()).(known := old(View()).known - {3})
    {
      DroppedPasswd(hasBits, name, passwd, id, typ);
      if data.Some? {
        WrotePasswd(hasBits, {}, name, passwd, data.value, id, typ);
        assert hasBits + {} == hasBits && hasBits + {1} + {} == hasBits + {1};
        hasBits := hasBits + {1};
      } else {
        hasBits := hasBits - {1};
      }
      passwd := if data.Some? then data.value else [];
    }
  }
}
