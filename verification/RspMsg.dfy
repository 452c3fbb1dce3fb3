/** A response: a number and a text. The code of IMQuestionMsg differs from this one only in the name of the number. */
module RspMsg {
  import opened Varint
  import opened Wire
  import opened WireIO
  import opened Messages
  import opened ParseLoop
  import opened Codec

  /** Which fields are present. */
  datatype Present = Present(ret: bool, msg: bool)

  /** Bits 0 and 1 stand for msg and ret: fields 2 and 1. */
  function PresentIn(bits: Bits): Present {
    Present(1 in bits, 0 in bits)
  }

  ghost predicate HasField(p: Present, n: nat) {
    if n == 1 then p.ret else n == 2 && p.msg
  }

  ghost function Field(n: nat, msg: seq<byte>, ret: int32): Value {
    if n == 1 then Num(ret) else Text(msg)
  }

  ghost function Fields(p: Present, msg: seq<byte>, ret: int32): map<nat, Value> {
    map n: nat | 1 <= n <= 2 && HasField(p, n) :: Field(n, msg, ret)
  }

  /** The hidden invariant: a field whose bit is clear holds its default. */
  ghost predicate Covered(p: Present, msg: seq<byte>, ret: int32) {
    && (p.msg || msg == [])
    && (p.ret || ret == 0)
  }

  // Setting a bit in the message's own mask or in that of a running parse, and writing the field with it, changes
  // that field of the message and no other.

  lemma WroteMsg(has: Bits, bits: Bits, was: seq<byte>, msg: seq<byte>, ret: int32)
    ensures Fields(PresentIn(has + {0} + bits), msg, ret) == Fields(PresentIn(has + bits), was, ret)[2 := Text(msg)]
    ensures Covered(PresentIn(has + bits), was, ret) ==> Covered(PresentIn(has + {0} + bits), msg, ret)
  {
  }

  lemma WroteRet(has: Bits, bits: Bits, msg: seq<byte>, was: int32, ret: int32)
    ensures Fields(PresentIn(has + (bits + {1})), msg, ret) == Fields(PresentIn(has + bits), msg, was)[1 := Num(ret)]
    ensures Covered(PresentIn(has + bits), msg, was) ==> Covered(PresentIn(has + (bits + {1})), msg, ret)
  {
  }

  /** The bytes of the fields, in field-number order. */
  lemma Layout(p: Present, msg: seq<byte>, ret: int32)
    ensures WriteAll(KnownRecords(RSP.order, Fields(p, msg, ret)))
         == Part(p.ret, 1, Num(ret)) + Part(p.msg, 2, Text(msg))
  {
    TwoFields(1, 2, Fields(p, msg, ret));
  }

  lemma LayoutSize(p: Present, msg: seq<byte>, ret: int32)
    ensures |WriteAll(KnownRecords(RSP.order, Fields(p, msg, ret)))|
         == (if p.msg then 1 + |Encode(|msg|) + msg| else 0)
          + (if p.ret then 1 + Int32Size(ret) else 0)
  {
    Layout(p, msg, ret);
    FieldSize(1, Num(ret));
    FieldSize(2, Text(msg));
  }

  function Either(a: Present, b: Present): Present {
    Present(a.ret || b.ret, a.msg || b.msg)
  }

  /** Taking each field from the second message where it has it, from the first elsewhere, is merging them. */
  lemma MergeFields(a: Present, msg: seq<byte>, ret: int32, b: Present, msg': seq<byte>, ret': int32)
    ensures Fields(Either(a, b), if b.msg then msg' else msg, if b.ret then ret' else ret)
         == Fields(a, msg, ret) + Fields(b, msg', ret')
    ensures Covered(a, msg, ret) ==>
              Covered(Either(a, b), if b.msg then msg' else msg, if b.ret then ret' else ret)
  {
  }

  /** Under the invariant the message determines the fields. */
  lemma SameFields(a: Present, msg: seq<byte>, ret: int32, b: Present, msg': seq<byte>, ret': int32)
    requires Covered(a, msg, ret) && Covered(b, msg', ret')
    requires Fields(a, msg, ret) == Fields(b, msg', ret')
    ensures a == b && msg == msg' && ret == ret'
  {
    var x, y := Fields(a, msg, ret), Fields(b, msg', ret');
    assert (1 in x <==> 1 in y) && (2 in x <==> 2 in y);
    assert 1 in x ==> x[1] == y[1];
    assert 2 in x ==> x[2] == y[2];
  }

  class IMRspMsg {
    var hasBits: Bits
    var msg: seq<byte>
    var ret: int32
    var unknown: seq<Record>
    var cachedSize: int32

    ghost predicate Valid()
      reads this
    {
      Covered(PresentIn(hasBits), msg, ret)
    }

    ghost function View(): Msg
      reads this
    {
      Msg(Fields(PresentIn(hasBits), msg, ret), unknown)
    }

    /** The message with the bits of a running parse counted in. */
    ghost function ViewWith(bits: Bits): Msg
      reads this
    {
      Msg(Fields(PresentIn(hasBits + bits), msg, ret), unknown)
    }

    constructor ()
      ensures Valid() && IsDefault() && View() == DEFAULT && cachedSize == 0
    {
      hasBits, unknown, cachedSize, msg, ret := {}, [], 0, [], 0;
    }

    /** The switch on the field number, and in each case the test of the low byte of the tag. */
    static method Switch(tag: nat) returns (field: nat)
      ensures Selects(RSP, tag, field)
    {
      field := 0;
      match tag / 8
      case 1 => if tag % 256 == 8 { field := 1; }
      case 2 => if tag % 256 == 18 { field := 2; }
      case _ =>
    }

    /** One turn of the parse loop: a tag and the branch of the switch it selects. */
    method ParseField(input: seq<byte>, ptr: nat, parsed: Bits) returns (turn: Turn, next: nat, bits: Bits)
      requires ptr < |input|
      modifies `hasBits, `msg, `ret, `unknown
      ensures old(Covered(PresentIn(hasBits + parsed), msg, ret)) ==>
                Covered(PresentIn(hasBits + bits), msg, ret)
      ensures Turned(RSP, input, ptr, turn, next, old(ViewWith(parsed)), ViewWith(bits))
    {
      ghost var was := ViewWith(parsed);
      bits := parsed;
      var ok, tag, at := ReadTagAt(input, ptr);
      next := at;
      if !ok {
        NoTag(RSP, input, ptr, was);
        return Fail, ptr, bits;
      }
      var field := Switch(tag);
      match field
      case 1 =>
        bits := bits + {1};
        turn, ret, next := ReadInt32Field(RSP, input, ptr, tag, at, 1, was);
        WroteRet(hasBits, parsed, msg, old(ret), ret);
      case 2 =>
        hasBits := hasBits + {0};
        turn, msg, next := ReadBlobField(RSP, input, ptr, tag, at, 2, was);
        WroteMsg(old(hasBits), bits, old(msg), msg, ret);
      case _ =>
        var added;
        turn, added, next := HandleUnusual(RSP, input, ptr, tag, at, was);
        unknown := unknown + added;
    }

    method InternalParse(input: seq<byte>) returns (end: End, ptr: nat)
      modifies `hasBits, `msg, `ret, `unknown
      ensures old(Valid()) ==> Valid()
      ensures end == Parse(RSP, old(View()), input).end
      ensures end != Failed ==> View() == Parse(RSP, old(View()), input).msg && ptr == ReadAll(input).len
      ensures end == Failed ==> Torn(RSP, input[ReadAll(input).len..], Parse(RSP, old(View()), input).msg, View())
    {
      ghost var start := View();
      var bits: Bits := {};
      end, ptr := AtEnd, 0;
      assert hasBits + {} == hasBits;
      Begin(RSP, start, input);
      while ptr < |input|
        invariant old(Valid()) ==> Covered(PresentIn(hasBits + bits), msg, ret)
        invariant Underway(RSP, start, input, ptr, ViewWith(bits))
      {
        ghost var was := ViewWith(bits);
        var turn, next;
        turn, next, bits := ParseField(input, ptr, bits);
        Advance(RSP, start, input, ptr, was, turn, next, ViewWith(bits));
        if turn != Continue {
          end, ptr := if turn == Fail then Failed else StoppedAt(turn.tag), next;
          hasBits := hasBits + bits;
          return;
        }
        ptr := next;
      }
      Finish(RSP, start, input, ViewWith(bits));
      hasBits := hasBits + bits;
    }

    method InternalSerialize() returns (target: seq<byte>)
      ensures target == Serialize(RSP, View())
    {
      target := [];
      if 1 in hasBits {
        target := WriteInt32ToArray(1, ret, target);
      }
      ghost var done := Part(1 in hasBits, 1, Num(ret));
      assert target == done;
      if 0 in hasBits {
        target := WriteStringMaybeAliased(2, msg, target);
      }
      done := done + Part(0 in hasBits, 2, Text(msg));
      assert target == done;
      Layout(PresentIn(hasBits), msg, ret);
      if unknown != [] {
        target := InternalSerializeUnknownFieldsToArray(unknown, target);
      }
      SerializeSplits(RSP, View());
    }

    method RequiredFieldsByteSizeFallback() returns (total: nat)
      ensures total == |WriteAll(KnownRecords(RSP.order, View().known))|
    {
      total := 0;
      if 0 in hasBits {
        var size := StringSize(msg);
        total := total + 1 + size;
      }
      if 1 in hasBits {
        total := total + 1 + Int32Size(ret);
      }
      LayoutSize(PresentIn(hasBits), msg, ret);
    }

    method ByteSizeLong() returns (total: nat)
      modifies `cachedSize
      ensures total == |Serialize(RSP, View())|
      ensures cachedSize == Truncate32(total) && (total < TWO_31 ==> cachedSize == total)
    {
      total := 0;
      if hasBits * {0, 1} == {0, 1} {
        assert forall b :: b in {0, 1} ==> b in hasBits;
        var size := StringSize(msg);
        total := total + 1 + size;
        total := total + 1 + Int32Size(ret);
        LayoutSize(PresentIn(hasBits), msg, ret);
      } else {
        total := RequiredFieldsByteSizeFallback();
      }
      SerializeSplits(RSP, View());
      if unknown != [] {
        total := ComputeUnknownFieldsSize(unknown, total);
      }
      if total < TWO_31 { SmallTruncate(total); }
      cachedSize := Truncate32(total);
    }

    ghost predicate IsDefault()
      reads this
    {
      hasBits == {} && unknown == [] && msg == [] && ret == 0
    }

    /** What Clear relies on; the number is reset whatever its bit says. */
    ghost predicate ClearReaches()
      reads this
    {
      0 in hasBits || msg == []
    }

    /** Gives the default message exactly when an absent string is already empty. */
    method Clear()
      modifies `hasBits, `msg, `ret, `unknown
      ensures IsDefault() <==> old(ClearReaches())
      ensures old(Valid()) ==> IsDefault()
      ensures View() == DEFAULT
    {
      if 0 in hasBits {
        msg := [];
      }
      ret := 0;
      hasBits := {};
      unknown := [];
    }

    method MergeFrom(from: IMRspMsg)
      requires from != this
      modifies `hasBits, `msg, `ret, `unknown
      ensures old(Valid()) ==> Valid()
      ensures View() == Merge(old(View()), from.View())
    {
      unknown := unknown + from.unknown;
      var cached := from.hasBits;
      ghost var a, b := PresentIn(hasBits), PresentIn(cached);
      TwoBits(cached, 0, 1);
      if cached * {0, 1} != {} {
        if 0 in cached {
          hasBits := hasBits + {0};
          msg := from.msg;
        }
        if 1 in cached {
          ret := from.ret;
        }
        hasBits := hasBits + cached;
      }
      assert PresentIn(hasBits) == Either(a, b);
      assert msg == if b.msg then from.msg else old(msg);
      assert ret == if b.ret then from.ret else old(ret);
      MergeFields(a, old(msg), old(ret), b, from.msg, from.ret);
    }

    method CopyFrom(from: IMRspMsg)
      modifies `hasBits, `msg, `ret, `unknown
      ensures View() == old(from.View()) && from.View() == old(from.View())
      ensures (old(Valid()) ==> Valid()) && (old(from.Valid()) ==> from.Valid())
      ensures old(Valid() && from.Valid()) ==>
                msg == old(from.msg) && ret == old(from.ret)
    {
      if from == this {
        return;
      }
      Clear();
      MergeFrom(from);
      MergeIdentity(from.View());
      if Valid() && from.Valid() {
        SameFields(PresentIn(hasBits), msg, ret,
                   PresentIn(from.hasBits), from.msg, from.ret);
      }
    }

    method IsInitialized() returns (yes: bool)
      ensures yes <==> Initialized(RSP, View())
    {
      if hasBits * {0, 1} != {0, 1} {
        assert exists b :: b in {0, 1} && b !in hasBits;
        assert 1 in RSP.kinds.Keys && 2 in RSP.kinds.Keys;
        return false;
      }
      assert forall b :: b in {0, 1} ==> b in hasBits;
      return true;
    }

    method InternalSwap(other: IMRspMsg)
      modifies this, other
      ensures View() == old(other.View()) && other.View() == old(View())
      ensures old(other.Valid()) ==> Valid()
      ensures old(Valid()) ==> other.Valid()
      ensures cachedSize == old(cachedSize) && other.cachedSize == old(other.cachedSize)
    {
      unknown, other.unknown := other.unknown, unknown;
      hasBits, other.hasBits := other.hasBits, hasBits;
      msg, other.msg := other.msg, msg;
      ret, other.ret := other.ret, ret;
    }
  }

  // ----- the codec end to end

  /** Serialize, parse into any other message after clearing it: the same message, field by field. */
  method SerializeThenParse(x: IMRspMsg, y: IMRspMsg)
    requires x != y && Fits(RSP, x.View()) && Foreign(RSP, x.unknown)
    modifies y
    ensures y.View() == x.View()
    ensures x.Valid() && old(y.Valid()) ==> y.Valid() && PresentIn(y.hasBits) == PresentIn(x.hasBits)
    ensures x.Valid() && old(y.Valid()) ==> y.msg == x.msg && y.ret == x.ret
  {
    var bytes := x.InternalSerialize();
    y.Clear();
    var end, ptr := y.InternalParse(bytes);
    RspValid();
    RoundTrip(RSP, x.View());
    if x.Valid() && y.Valid() {
      SameFields(PresentIn(y.hasBits), y.msg, y.ret, PresentIn(x.hasBits), x.msg, x.ret);
    }
  }

  /** Parsing two serializations one after the other gives what merging the two messages gives. */
  method ParseBothOrMerge(x: IMRspMsg, y: IMRspMsg, z: IMRspMsg)
    requires x != y && y != z && x != z
    requires Fits(RSP, x.View()) && Foreign(RSP, x.unknown)
    requires Fits(RSP, y.View()) && Foreign(RSP, y.unknown)
    modifies x, z
    ensures z.View() == x.View() == Merge(old(x.View()), y.View())
  {
    var first := x.InternalSerialize();
    var second := y.InternalSerialize();
    z.Clear();
    var end, ptr := z.InternalParse(first + second);
    RspValid();
    ConcatenationMerges(RSP, x.View(), y.View());
    x.MergeFrom(y);
  }
}
