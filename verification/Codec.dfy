/** What the wire format promises for every schema: round trip, merging, truncation, normal form. */
module Codec {
  import opened Options
  import opened Varint
  import opened Wire
  import opened WireTheorems
  import opened Messages

  // ----- absorbing records, described without the fold

  lemma {:induction false} AbsorbAppend(sc: Schema, m: Msg, a: seq<Record>, b: seq<Record>)
    ensures AbsorbAll(sc, m, a + b) == AbsorbAll(sc, AbsorbAll(sc, m, a), b)
    decreases |a|
  {
    if a == [] {
      assert a + b == b;
    } else {
      assert (a + b)[1..] == a[1..] + b;
      AbsorbAppend(sc, Absorb(sc, m, a[0]), a[1..], b);
    }
  }

  lemma {:induction false} LeftoversAppend(sc: Schema, a: seq<Record>, b: seq<Record>)
    ensures Leftovers(sc, a + b) == Leftovers(sc, a) + Leftovers(sc, b)
  {
    if a == [] {
      assert a + b == b;
    } else {
      assert (a + b)[1..] == a[1..] + b;
      LeftoversAppend(sc, a[1..], b);
    }
  }

  /**
   * Each field ends up with the payload of its last record, or what it had; the other records are appended in order.
   */
  lemma {:induction false} LastRecordWins(sc: Schema, m: Msg, rs: seq<Record>)
    ensures var out := AbsorbAll(sc, m, rs);
            && (forall n :: n in out.known <==> n in m.known || Last(sc, rs, n).Some?)
            && (forall n :: n in out.known ==>
                  out.known[n] == (match Last(sc, rs, n) case Some(v) => v case None => m.known[n]))
            && out.unknown == m.unknown + Leftovers(sc, rs)
  {
    if rs == [] {
    } else {
      var init, r := rs[..|rs| - 1], rs[|rs| - 1];
      assert rs == init + [r];
      AbsorbAppend(sc, m, init, [r]);
      LastRecordWins(sc, m, init);
      LeftoversAppend(sc, init, [r]);
      assert Leftovers(sc, [r]) == if Recognise(sc, r).None? then [r] else [];
      assert AbsorbAll(sc, m, rs) == Absorb(sc, AbsorbAll(sc, m, init), r);
    }
  }

  /** A field has a last record exactly when some record is recognised for it. */
  lemma {:induction false} LastExists(sc: Schema, rs: seq<Record>, n: nat)
    ensures Last(sc, rs, n).Some? <==> exists i :: 0 <= i < |rs| && rs[i].number == n && Recognise(sc, rs[i]).Some?
  {
    if rs != [] {
      var init := rs[..|rs| - 1];
      LastExists(sc, init, n);
      if i :| 0 <= i < |rs| && rs[i].number == n && Recognise(sc, rs[i]).Some? {
        assert i < |init| ==> init[i] == rs[i];
      }
      if j :| 0 <= j < |init| && init[j].number == n && Recognise(sc, init[j]).Some? {
        assert rs[j] == init[j];
      }
    }
  }

  lemma {:induction false} AbsorbForeign(sc: Schema, m: Msg, rs: seq<Record>)
    requires Foreign(sc, rs)
    ensures AbsorbAll(sc, m, rs) == Msg(m.known, m.unknown + rs)
    decreases |rs|
  {
    if rs == [] {
      assert m.unknown + rs == m.unknown;
    } else {
      assert Recognise(sc, rs[0]).None?;
      AbsorbForeign(sc, Absorb(sc, m, rs[0]), rs[1..]);
      assert m.unknown + [rs[0]] + rs[1..] == m.unknown + rs;
    }
  }

  // ----- absorbing a message's own records is merging

  lemma FieldRecognised(sc: Schema, n: nat, v: Value)
    requires n in sc.kinds && HasKind(v, sc.kinds[n])
    ensures Recognise(sc, FieldRecord(n, v)) == Some(v)
  {
    if v.Num? { TruncateSignExtend(v.v); }
  }

  /** The part of a message's fields that a list of field numbers names. */
  ghost function Restrict(known: map<nat, Value>, order: seq<nat>): map<nat, Value> {
    map n | n in known && n in order :: known[n]
  }

  lemma RestrictStep(base: map<nat, Value>, known: map<nat, Value>, order: seq<nat>)
    requires order != []
    ensures order[0] in known ==>
              base[order[0] := known[order[0]]] + Restrict(known, order[1..]) == base + Restrict(known, order)
    ensures order[0] !in known ==> Restrict(known, order[1..]) == Restrict(known, order)
  {
    assert forall n :: n in order <==> n == order[0] || n in order[1..];
  }

  lemma {:induction false} AbsorbKnown(sc: Schema, m: Msg, order: seq<nat>, known: map<nat, Value>)
    requires forall n :: n in known ==> n in sc.kinds && HasKind(known[n], sc.kinds[n])
    ensures AbsorbAll(sc, m, KnownRecords(order, known)) == Msg(m.known + Restrict(known, order), m.unknown)
    decreases |order|
  {
    if order == [] {
      assert m.known + Restrict(known, order) == m.known;
    } else {
      var n, rest := order[0], KnownRecords(order[1..], known);
      RestrictStep(m.known, known, order);
      if n in known {
        FieldRecognised(sc, n, known[n]);
        assert KnownRecords(order, known)[1..] == rest;
        AbsorbKnown(sc, Absorb(sc, m, FieldRecord(n, known[n])), order[1..], known);
      } else {
        AbsorbKnown(sc, m, order[1..], known);
        assert KnownRecords(order, known) == rest;
      }
    }
  }

  lemma {:induction false} KnownSound(sc: Schema, order: seq<nat>, known: map<nat, Value>)
    requires ValidSchema(sc)
    requires forall n :: n in known ==> n in sc.kinds && HasKind(known[n], sc.kinds[n])
    ensures AllSound(KnownRecords(order, known))
    ensures Leftovers(sc, KnownRecords(order, known)) == []
  {
    if order != [] {
      KnownSound(sc, order[1..], known);
      if order[0] in known {
        FieldRecognised(sc, order[0], known[order[0]]);
        assert KnownRecords(order, known)[1..] == KnownRecords(order[1..], known);
      } else {
        assert KnownRecords(order, known) == KnownRecords(order[1..], known);
      }
    }
  }

  lemma RecordsSound(sc: Schema, m: Msg)
    requires ValidSchema(sc) && Fits(sc, m)
    ensures AllSound(Records(sc, m))
  {
    KnownSound(sc, sc.order, m.known);
    AllSoundAppend(KnownRecords(sc.order, m.known), m.unknown);
  }

  lemma AbsorbMerges(sc: Schema, x: Msg, y: Msg)
    requires ValidSchema(sc) && Fits(sc, y) && Foreign(sc, y.unknown)
    ensures AbsorbAll(sc, x, Records(sc, y)) == Merge(x, y)
  {
    var known := KnownRecords(sc.order, y.known);
    AbsorbAppend(sc, x, known, y.unknown);
    AbsorbKnown(sc, x, sc.order, y.known);
    assert Restrict(y.known, sc.order) == y.known;
    AbsorbForeign(sc, Msg(x.known + y.known, x.unknown), y.unknown);
  }

  // ----- the theorems

  /** Parsing a ++ b is parsing b into the result of parsing a, when a ends on a record boundary. */
  lemma ParseConcat(sc: Schema, m: Msg, a: seq<byte>, b: seq<byte>)
    requires Parse(sc, m, a).end == AtEnd
    ensures Parse(sc, m, a + b) == Parse(sc, Parse(sc, m, a).msg, b)
  {
    AllExtend(a, b);
    AbsorbAppend(sc, m, ReadAll(a).records, ReadAll(b).records);
  }

  /** Parsing a serialized message into any other is merging it. */
  lemma ParseSerialized(sc: Schema, x: Msg, y: Msg)
    requires ValidSchema(sc) && Fits(sc, y) && Foreign(sc, y.unknown)
    ensures Parse(sc, x, Serialize(sc, y)) == Parsed(Merge(x, y), AtEnd)
  {
    ReadSerialized(sc, y);
    AbsorbMerges(sc, x, y);
  }

  lemma ReadSerialized(sc: Schema, m: Msg)
    requires ValidSchema(sc) && Fits(sc, m)
    ensures ReadAll(Serialize(sc, m)) == Reading(Records(sc, m), AtEnd, |Serialize(sc, m)|)
  {
    var rs := Records(sc, m);
    RecordsSound(sc, m);
    AllRoundTrip(rs, []);
    assert WriteAll(rs) + [] == WriteAll(rs) && rs + [] == rs;
  }

  /**
   * Serializing then parsing from default gives the message back exactly when its unknown list holds no
   * record that one of its own fields would recognise.
   */
  lemma RoundTrip(sc: Schema, m: Msg)
    requires ValidSchema(sc) && Fits(sc, m)
    ensures Parse(sc, DEFAULT, Serialize(sc, m)).end == AtEnd
    ensures Parse(sc, DEFAULT, Serialize(sc, m)).msg == m <==> Foreign(sc, m.unknown)
  {
    ReadSerialized(sc, m);
    if Foreign(sc, m.unknown) {
      AbsorbMerges(sc, DEFAULT, m);
      MergeIdentity(m);
    } else {
      LastRecordWins(sc, DEFAULT, Records(sc, m));
      LeftoversAppend(sc, KnownRecords(sc.order, m.known), m.unknown);
      KnownSound(sc, sc.order, m.known);
      assert Parse(sc, DEFAULT, Serialize(sc, m)).msg.unknown == Leftovers(sc, m.unknown);
    }
  }

  /** Concatenated serializations parse to the merge. */
  lemma ConcatenationMerges(sc: Schema, x: Msg, y: Msg)
    requires ValidSchema(sc) && Fits(sc, x) && Fits(sc, y) && Foreign(sc, x.unknown) && Foreign(sc, y.unknown)
    ensures Parse(sc, DEFAULT, Serialize(sc, x) + Serialize(sc, y)) == Parsed(Merge(x, y), AtEnd)
  {
    RoundTrip(sc, x);
    ParseConcat(sc, DEFAULT, Serialize(sc, x), Serialize(sc, y));
    ParseSerialized(sc, x, y);
  }

  lemma MergeIdentity(m: Msg)
    ensures Merge(DEFAULT, m) == m && Merge(m, DEFAULT) == m
  {
    assert map[] + m.known == m.known && m.known + map[] == m.known;
    assert [] + m.unknown == m.unknown && m.unknown + [] == m.unknown;
  }

  lemma MergeAssociative(x: Msg, y: Msg, z: Msg)
    ensures Merge(Merge(x, y), z) == Merge(x, Merge(y, z))
  {
    assert x.known + y.known + z.known == x.known + (y.known + z.known);
    assert x.unknown + y.unknown + z.unknown == x.unknown + (y.unknown + z.unknown);
  }

  /**
   * Parsing any bytes, complete or not, into a message that fits leaves one that fits; nothing unrecognisable is
   * invented.
   */
  lemma {:induction false} AbsorbFits(sc: Schema, m: Msg, rs: seq<Record>)
    requires Fits(sc, m) && AllSound(rs)
    ensures Fits(sc, AbsorbAll(sc, m, rs))
    ensures Foreign(sc, m.unknown) ==> Foreign(sc, AbsorbAll(sc, m, rs).unknown)
    decreases |rs|
  {
    if rs != [] {
      AllSoundAppend(m.unknown, [rs[0]]);
      AbsorbFits(sc, Absorb(sc, m, rs[0]), rs[1..]);
    }
  }

  lemma ParseFits(sc: Schema, s: seq<byte>)
    ensures Fits(sc, Parse(sc, DEFAULT, s).msg) && Foreign(sc, Parse(sc, DEFAULT, s).msg.unknown)
  {
    AllReadSound(s);
    AbsorbFits(sc, DEFAULT, ReadAll(s).records);
  }

  /** Whatever was accepted, parsing its re-serialization changes nothing more: one pass reaches the normal form. */
  lemma NormalForm(sc: Schema, s: seq<byte>)
    requires ValidSchema(sc)
    ensures var m := Parse(sc, DEFAULT, s).msg;
            Parse(sc, DEFAULT, Serialize(sc, m)) == Parsed(m, AtEnd)
  {
    ParseFits(sc, s);
    RoundTrip(sc, Parse(sc, DEFAULT, s).msg);
  }

  /** Messages that parsing can produce are told apart by their serializations. */
  lemma SerializeInjective(sc: Schema, x: Msg, y: Msg)
    requires ValidSchema(sc) && Fits(sc, x) && Fits(sc, y) && Foreign(sc, x.unknown) && Foreign(sc, y.unknown)
    ensures Serialize(sc, x) == Serialize(sc, y) <==> x == y
  {
    RoundTrip(sc, x);
    RoundTrip(sc, y);
  }

  ghost predicate SameLast(sc: Schema, rs: seq<Record>, rt: seq<Record>) {
    forall n :: Last(sc, rs, n) == Last(sc, rt, n)
  }

  /** Two record lists leave the same message exactly when their last records and their leftovers agree. */
  lemma AbsorbSame(sc: Schema, rs: seq<Record>, rt: seq<Record>)
    ensures AbsorbAll(sc, DEFAULT, rs) == AbsorbAll(sc, DEFAULT, rt)
            <==> SameLast(sc, rs, rt) && Leftovers(sc, rs) == Leftovers(sc, rt)
  {
    var x, y := AbsorbAll(sc, DEFAULT, rs), AbsorbAll(sc, DEFAULT, rt);
    FromDefault(sc, rs);
    FromDefault(sc, rt);
    if x == y {
      forall n ensures Last(sc, rs, n) == Last(sc, rt, n) {
        assert n in x.known <==> n in y.known;
      }
    } else if SameLast(sc, rs, rt) {
      assert x.unknown == y.unknown ==> x.known != y.known;
    }
  }

  lemma FromDefault(sc: Schema, rs: seq<Record>)
    ensures var m := AbsorbAll(sc, DEFAULT, rs);
            && (forall n :: n in m.known <==> Last(sc, rs, n).Some?)
            && (forall n :: n in m.known ==> Last(sc, rs, n) == Some(m.known[n]))
            && m.unknown == Leftovers(sc, rs)
  {
    LastRecordWins(sc, DEFAULT, rs);
    assert DEFAULT.unknown + Leftovers(sc, rs) == Leftovers(sc, rs);
  }

  /** Two inputs re-serialize to the same bytes exactly when their last records and their leftovers agree. */
  lemma SameNormalForm(sc: Schema, s: seq<byte>, t: seq<byte>)
    requires ValidSchema(sc)
    ensures var rs, rt := ReadAll(s).records, ReadAll(t).records;
            Serialize(sc, Parse(sc, DEFAULT, s).msg) == Serialize(sc, Parse(sc, DEFAULT, t).msg)
            <==> SameLast(sc, rs, rt) && Leftovers(sc, rs) == Leftovers(sc, rt)
  {
    ParseFits(sc, s);
    ParseFits(sc, t);
    SerializeInjective(sc, Parse(sc, DEFAULT, s).msg, Parse(sc, DEFAULT, t).msg);
    AbsorbSame(sc, ReadAll(s).records, ReadAll(t).records);
  }

  /** Parsing from default to the end initializes the message iff every required field has a correctly typed record. */
  lemma InitializedIff(sc: Schema, s: seq<byte>)
    ensures var rs := ReadAll(s).records;
            Initialized(sc, Parse(sc, DEFAULT, s).msg)
            <==> forall n :: n in sc.kinds ==>
                   exists i :: 0 <= i < |rs| && rs[i].number == n && Recognise(sc, rs[i]).Some?
  {
    var rs, m := ReadAll(s).records, Parse(sc, DEFAULT, s).msg;
    LastRecordWins(sc, DEFAULT, rs);
    if Initialized(sc, m) {
      forall n | n in sc.kinds ensures exists i :: 0 <= i < |rs| && rs[i].number == n && Recognise(sc, rs[i]).Some? {
        assert n in sc.kinds.Keys && n in m.known.Keys;
        LastExists(sc, rs, n);
      }
    } else {
      var n :| n in sc.kinds.Keys && n !in m.known.Keys;
      assert n in sc.kinds && Last(sc, rs, n).None?;
      LastExists(sc, rs, n);
    }
  }

  /** When every field is present the known records are exactly one per field, in order. */
  lemma {:induction false} KnownComplete(sc: Schema, order: seq<nat>, known: map<nat, Value>)
    requires forall n :: n in order ==> n in known && n in sc.kinds && HasKind(known[n], sc.kinds[n])
    ensures |KnownRecords(order, known)| == |order|
    ensures forall i :: 0 <= i < |order| ==>
              KnownRecords(order, known)[i].number == order[i] && Recognise(sc, KnownRecords(order, known)[i]).Some?
  {
    if order != [] {
      assert order[0] in order;
      KnownComplete(sc, order[1..], known);
      FieldRecognised(sc, order[0], known[order[0]]);
      forall i | 0 <= i < |order|
        ensures KnownRecords(order, known)[i].number == order[i] && Recognise(sc, KnownRecords(order, known)[i]).Some?
      {
        if i > 0 { assert order[1..][i - 1] == order[i]; }
      }
    }
  }

  /** The first j records of an initialized message initialize it exactly when they cover all its fields. */
  lemma PrefixInitializes(sc: Schema, m: Msg, j: nat)
    requires ValidSchema(sc) && Fits(sc, m) && Initialized(sc, m) && j <= |Records(sc, m)|
    ensures |sc.order| <= |Records(sc, m)|
    ensures Initialized(sc, AbsorbAll(sc, DEFAULT, Records(sc, m)[..j])) <==> |sc.order| <= j
  {
    var rs := Records(sc, m)[..j];
    KnownComplete(sc, sc.order, m.known);
    LastRecordWins(sc, DEFAULT, rs);
    if |sc.order| <= j {
      forall n | n in sc.kinds ensures Last(sc, rs, n).Some? {
        var i :| 0 <= i < |sc.order| && sc.order[i] == n;
        assert rs[i] == KnownRecords(sc.order, m.known)[i];
        LastExists(sc, rs, n);
      }
    } else {
      var n := sc.order[j];
      assert n in sc.order;
      LastExists(sc, rs, n);
      forall i | 0 <= i < |rs| ensures rs[i].number != n {
        assert rs[i] == KnownRecords(sc.order, m.known)[i];
      }
    }
  }

  /**
   * A prefix of the serialization of an initialized message parses to an initialized message exactly when it
   * is cut between records at or after the last required one. Without unknown records no proper prefix is.
   */
  lemma Truncation(sc: Schema, m: Msg, k: nat)
    requires ValidSchema(sc) && Fits(sc, m) && Foreign(sc, m.unknown) && Initialized(sc, m) && k <= |Serialize(sc, m)|
    ensures var p := Parse(sc, DEFAULT, Serialize(sc, m)[..k]);
            (p.end == AtEnd && Initialized(sc, p.msg))
            <==> exists j :: |sc.order| <= j <= |Records(sc, m)| && k == |WriteAll(Records(sc, m)[..j])|
    ensures m.unknown == [] && k < |Serialize(sc, m)| ==>
            var p := Parse(sc, DEFAULT, Serialize(sc, m)[..k]); !(p.end == AtEnd && Initialized(sc, p.msg))
  {
    var rs := Records(sc, m);
    var j := Complete(rs, k);
    RecordsSound(sc, m);
    AllTruncated(rs, k);
    PrefixInitializes(sc, m, j);
    forall i | 0 <= i <= |rs| && k == |WriteAll(rs[..i])| ensures i == j {
      CompleteExact(rs, i);
    }
    assert rs[..|rs|] == rs;
    if m.unknown == [] {
      KnownComplete(sc, sc.order, m.known);
    }
  }

  lemma {:induction false} CompleteExact(rs: seq<Record>, i: nat)
    requires i <= |rs|
    ensures Complete(rs, |WriteAll(rs[..i])|) == i
  {
    if i > 0 {
      WriteAllTake(rs, i);
      CompleteExact(rs[1..], i - 1);
    }
  }

  // ----- the serializer and the size computation, one field at a time

  /** The bytes of field n: its record when present, nothing otherwise. */
  function FieldBytes(n: nat, known: map<nat, Value>): seq<byte> {
    if n in known then WriteRecord(FieldRecord(n, known[n])) else []
  }

  /** The bytes of a field: its record when its bit is set. */
  ghost function Part(present: bool, n: nat, v: Value): seq<byte> {
    if present then WriteRecord(FieldRecord(n, v)) else []
  }

  lemma FirstField(n: nat, rest: seq<nat>, known: map<nat, Value>)
    ensures WriteAll(KnownRecords([n] + rest, known)) == FieldBytes(n, known) + WriteAll(KnownRecords(rest, known))
  {
    var first := if n in known then [FieldRecord(n, known[n])] else [];
    assert ([n] + rest)[1..] == rest;
    assert KnownRecords([n] + rest, known) == first + KnownRecords(rest, known);
    WriteAllAppend(first, KnownRecords(rest, known));
    assert n in known ==> WriteAll(first) == FieldBytes(n, known) + WriteAll([]);
  }

  lemma TwoFields(a: nat, b: nat, known: map<nat, Value>)
    ensures WriteAll(KnownRecords([a, b], known)) == FieldBytes(a, known) + FieldBytes(b, known)
  {
    assert [a, b] == [a] + [b] && [b] == [b] + [];
    FirstField(a, [b], known);
    FirstField(b, [], known);
    assert FieldBytes(b, known) + [] == FieldBytes(b, known);
  }

  lemma ThreeFields(a: nat, b: nat, c: nat, known: map<nat, Value>)
    ensures WriteAll(KnownRecords([a, b, c], known))
         == FieldBytes(a, known) + FieldBytes(b, known) + FieldBytes(c, known)
  {
    assert [a, b, c] == [a] + [b, c];
    FirstField(a, [b, c], known);
    TwoFields(b, c, known);
  }

  lemma Regroup(w: seq<byte>, x: seq<byte>, y: seq<byte>, z: seq<byte>)
    ensures w + (x + y + z) == w + x + y + z
  {
  }

  lemma FourFields(a: nat, b: nat, c: nat, d: nat, known: map<nat, Value>)
    ensures WriteAll(KnownRecords([a, b, c, d], known))
         == FieldBytes(a, known) + FieldBytes(b, known) + FieldBytes(c, known) + FieldBytes(d, known)
  {
    var rest := [b, c, d];
    assert [a, b, c, d] == [a] + rest;
    FirstField(a, rest, known);
    ThreeFields(b, c, d, known);
    Regroup(FieldBytes(a, known), FieldBytes(b, known), FieldBytes(c, known), FieldBytes(d, known));
  }

  lemma SerializeSplits(sc: Schema, m: Msg)
    ensures Serialize(sc, m) == WriteAll(KnownRecords(sc.order, m.known)) + WriteAll(m.unknown)
  {
    WriteAllAppend(KnownRecords(sc.order, m.known), m.unknown);
  }

  /** A declared field takes one byte of tag and the size of its payload. */
  lemma FieldSize(n: nat, v: Value)
    requires n < 16
    ensures v.Num? ==> |WriteRecord(FieldRecord(n, v))| == 1 + Int32Size(v.v)
    ensures v.Text? ==> |WriteRecord(FieldRecord(n, v))| == 1 + |Encode(|v.data|) + v.data|
  {
    if v.Num? { Int32SizeAgrees(v.v); }
  }

  /** The cached size is the size itself as long as it fits an int. */
  lemma SmallTruncate(n: nat)
    requires n < TWO_31
    ensures Truncate32(n) == n
  {
  }
}
