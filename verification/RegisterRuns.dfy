/** Register requests in use: any sequence of operations, and the codec end to end. */
module RegisterRuns {
  import opened Options
  import opened Varint
  import opened Wire
  import opened Messages
  import opened ParseLoop
  import opened Codec
  import opened RegisterReq

  /**
   * Anything a caller can do to a message, with a second message to merge from, copy from and swap with. A caller that
   * keeps the pointer mutable_name handed out can write the string at any later time.
   */
  datatype Op =
    | OpSetId(id: int32) | OpClearId
    | OpSetType(typ: int32) | OpClearType
    | OpSetName(name: seq<byte>) | OpClearName | OpMutableName | OpWriteName(name: seq<byte>)
    | OpReleaseName | OpSetAllocatedName(data: Option<seq<byte>>)
    | OpSetPasswd(passwd: seq<byte>) | OpClearPasswd | OpMutablePasswd | OpWritePasswd(passwd: seq<byte>)
    | OpReleasePasswd | OpSetAllocatedPasswd(data: Option<seq<byte>>)
    | OpMerge | OpCopy | OpSwap | OpClear
    | OpParse(input: seq<byte>)

  function With(x: Msg, n: nat, v: Value): Msg {
    x.(known := x.known[n := v])
  }

  function Without(x: Msg, n: nat): Msg {
    x.(known := x.known - {n})
  }

  /** String n was asked for by pointer: it is present afterwards, and unchanged if it was before. */
  ghost predicate Asked(x: Msg, n: nat, x': Msg) {
    if n in x.known then x' == x else n in x'.known && Without(x', n) == Without(x, n)
  }

  function SetOrDrop(x: Msg, n: nat, data: Option<seq<byte>>): Msg {
    match data
    case Some(d) => With(x, n, Text(d))
    case None => Without(x, n)
  }

  /** What an operation makes of the messages x and y. */
  ghost predicate Effect(op: Op, x: Msg, y: Msg, x': Msg, y': Msg) {
    && y' == (if op == OpSwap then x else y)
    && match op
       case OpSetId(id) => x' == With(x, 2, Num(id))
       case OpClearId => x' == Without(x, 2)
       case OpSetType(typ) => x' == With(x, 4, Num(typ))
       case OpClearType => x' == Without(x, 4)
       case OpSetName(name) => x' == With(x, 1, Text(name))
       case OpClearName => x' == Without(x, 1)
       case OpMutableName => Asked(x, 1, x')
       case OpWriteName(name) => x' == if 1 in x.known then With(x, 1, Text(name)) else x
       case OpReleaseName => x' == Without(x, 1)
       case OpSetAllocatedName(data) => x' == SetOrDrop(x, 1, data)
       case OpSetPasswd(passwd) => x' == With(x, 3, Text(passwd))
       case OpClearPasswd => x' == Without(x, 3)
       case OpMutablePasswd => Asked(x, 3, x')
       case OpWritePasswd(passwd) => x' == if 3 in x.known then With(x, 3, Text(passwd)) else x
       case OpReleasePasswd => x' == Without(x, 3)
       case OpSetAllocatedPasswd(data) => x' == SetOrDrop(x, 3, data)
       case OpMerge => x' == Merge(x, y)
       case OpCopy => x' == y
       case OpSwap => x' == y
       case OpClear => x' == DEFAULT
       case OpParse(input) =>
         var p := Parse(REGISTER, x, input);
         if p.end == Failed then Torn(REGISTER, input[ReadAll(input).len..], p.msg, x') else x' == p.msg
  }

  /** What a caller has to know before a write through a kept pointer: the field is present, or it writes nothing. */
  predicate Guard(x: Msg, op: Op) {
    match op
    case OpWriteName(name) => 1 in x.known || name == []
    case OpWritePasswd(passwd) => 3 in x.known || passwd == []
    case _ => true
  }

  /** Every operation has its effect, and keeps the invariant of both messages if and only if it meets its guard. */
  method Perform(m: IMRegisterReq, other: IMRegisterReq, op: Op)
    requires m != other
    modifies m, other
    ensures Effect(op, old(m.View()), old(other.View()), m.View(), other.View())
    ensures old(m.Valid() && other.Valid()) ==> other.Valid() && (m.Valid() <==> Guard(old(m.View()), op))
  {
    match op
    case OpSetId(id) => m.SetId(id);
    case OpClearId => m.ClearId();
    case OpSetType(typ) => m.SetType(typ);
    case OpClearType => m.ClearType();
    case OpSetName(name) => m.SetName(name);
    case OpClearName => m.ClearName();
    case OpMutableName => var data := m.MutableName();
    case OpWriteName(name) => m.WriteThroughName(name);
    case OpReleaseName => var data := m.ReleaseName();
    case OpSetAllocatedName(data) => m.SetAllocatedName(data);
    case OpSetPasswd(passwd) => m.SetPasswd(passwd);
    case OpClearPasswd => m.ClearPasswd();
    case OpMutablePasswd => var data := m.MutablePasswd();
    case OpWritePasswd(passwd) => m.WriteThroughPasswd(passwd);
    case OpReleasePasswd => var data := m.ReleasePasswd();
    case OpSetAllocatedPasswd(data) => m.SetAllocatedPasswd(data);
    case OpMerge => m.MergeFrom(other);
    case OpCopy => m.CopyFrom(other);
    case OpSwap => m.InternalSwap(other);
    case OpClear => m.Clear();
    case OpParse(input) => var end, ptr := m.InternalParse(input);
  }

  /** What both messages were before and after each operation of a run. */
  ghost predicate Trace(ops: seq<Op>, trace: seq<(Msg, Msg)>) {
    && |trace| == |ops| + 1
    && forall i :: 0 <= i < |ops| ==> Effect(ops[i], trace[i].0, trace[i].1, trace[i + 1].0, trace[i + 1].1)
  }

  ghost predicate Guarded(ops: seq<Op>, trace: seq<(Msg, Msg)>)
    requires |ops| <= |trace|
  {
    forall i :: 0 <= i < |ops| ==> Guard(trace[i].0, ops[i])
  }

  /**
   * A run of operations, failed parses included, keeps the invariant when each write through a kept pointer meets its
   * guard.
   */
  method PerformAll(m: IMRegisterReq, other: IMRegisterReq, ops: seq<Op>) returns (ghost trace: seq<(Msg, Msg)>)
    requires m != other && m.Valid() && other.Valid()
    modifies m, other
    ensures Trace(ops, trace)
    ensures trace[0] == old((m.View(), other.View())) && trace[|ops|] == (m.View(), other.View())
    ensures Guarded(ops, trace) ==> m.Valid() && other.Valid()
  {
    trace := [(m.View(), other.View())];
    for i := 0 to |ops|
      invariant Trace(ops[..i], trace)
      invariant trace[0] == old((m.View(), other.View())) && trace[i] == (m.View(), other.View())
      invariant Guarded(ops[..i], trace) ==> m.Valid() && other.Valid()
    {
      Perform(m, other, ops[i]);
      TraceMore(ops, i, trace, (m.View(), other.View()));
      trace := trace + [(m.View(), other.View())];
    }
    assert ops[..|ops|] == ops;
  }

  lemma TraceMore(ops: seq<Op>, i: nat, trace: seq<(Msg, Msg)>, last: (Msg, Msg))
    requires i < |ops| && Trace(ops[..i], trace) && Effect(ops[i], trace[i].0, trace[i].1, last.0, last.1)
    ensures Trace(ops[..i + 1], trace + [last])
    ensures Guarded(ops[..i + 1], trace + [last]) <==> Guarded(ops[..i], trace) && Guard(trace[i].0, ops[i])
  {
    var more := trace + [last];
    assert forall k :: 0 <= k <= i ==> ops[..i + 1][k] == ops[k] && more[k] == trace[k];
    assert forall k :: 0 <= k < i ==> ops[..i][k] == ops[k];
    if Guarded(ops[..i + 1], more) {
      assert Guard(more[i].0, ops[..i + 1][i]);
      forall k | 0 <= k < i ensures Guard(trace[k].0, ops[..i][k]) {
        assert Guard(more[k].0, ops[..i + 1][k]);
      }
    }
  }

  /** Clear after such a run leaves exactly the default message. */
  method ClearAfterAnyRun(m: IMRegisterReq, other: IMRegisterReq, ops: seq<Op>) returns (ghost trace: seq<(Msg, Msg)>)
    requires m != other && m.Valid() && other.Valid()
    modifies m, other
    ensures Trace(ops, trace) && trace[0] == old((m.View(), other.View())) && m.View() == DEFAULT
    ensures Guarded(ops, trace) ==> m.IsDefault() && other.Valid()
  {
    trace := PerformAll(m, other, ops);
    m.Clear();
  }

  /**
   * A write through a pointer kept across clear_name: the string survives Clear unseen, and comes back as the value of
   * the field the next time somebody asks for the string.
   */
  method LateWriteSurvivesClear() returns (m: IMRegisterReq, data: seq<byte>)
    ensures fresh(m) && data == [120] && m.View() == DEFAULT.(known := map[1 := Text([120])])
  {
    m := new IMRegisterReq();
    data := m.MutableName();
    m.ClearName();
    m.WriteThroughName([120]);
    assert !m.Valid();
    m.Clear();
    assert !m.IsDefault() && m.View() == DEFAULT;
    data := m.MutableName();
  }

  /** Serialize, parse into any other message after clearing it: the same message, field by field. */
  method SerializeThenParse(x: IMRegisterReq, y: IMRegisterReq)
    requires x != y && Fits(REGISTER, x.View()) && Foreign(REGISTER, x.unknown)
    modifies y
    ensures y.View() == x.View()
    ensures x.Valid() && old(y.Valid()) ==> y.Valid() && PresentIn(y.hasBits) == PresentIn(x.hasBits)
    ensures x.Valid() && old(y.Valid()) ==> y.name == x.name && y.passwd == x.passwd && y.id == x.id && y.typ == x.typ
  {
    var bytes := x.InternalSerialize();
    y.Clear();
    var end, ptr := y.InternalParse(bytes);
    RegisterValid();
    RoundTrip(REGISTER, x.View());
    if x.Valid() && y.Valid() {
      SameFields(PresentIn(y.hasBits), y.name, y.passwd, y.id, y.typ,
                 PresentIn(x.hasBits), x.name, x.passwd, x.id, x.typ);
    }
  }

  /** Parsing two serializations one after the other gives what merging the two messages gives. */
  method ParseBothOrMerge(x: IMRegisterReq, y: IMRegisterReq, z: IMRegisterReq)
    requires x != y && y != z && x != z
    requires Fits(REGISTER, x.View()) && Foreign(REGISTER, x.unknown)
    requires Fits(REGISTER, y.View()) && Foreign(REGISTER, y.unknown)
    modifies x, z
    ensures z.View() == x.View() == Merge(old(x.View()), y.View())
  {
    var first := x.InternalSerialize();
    var second := y.InternalSerialize();
    z.Clear();
    var end, ptr := z.InternalParse(first + second);
    RegisterValid();
    ConcatenationMerges(REGISTER, x.View(), y.View());
    x.MergeFrom(y);
  }
}
