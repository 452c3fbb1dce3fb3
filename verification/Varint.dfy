/** Base 128 varints, and the two's complement int32 values that the messages carry in them. */
module Varint {
  import opened Options

  type byte = b: int | 0 <= b < 256

  const TWO_31: nat := 0x8000_0000
  const TWO_32: nat := 0x1_0000_0000
  const TWO_64: nat := 0x1_0000_0000_0000_0000

  type int32 = v: int | -0x8000_0000 <= v < 0x8000_0000

  /** Seven bits a byte, least significant group first; every byte but the last has its top bit set. */
  function Encode(n: nat): (s: seq<byte>)
    ensures |s| >= 1
  {
    if n < 128 then [n] else [n % 128 + 128] + Encode(n / 128)
  }

  datatype Decoded = Decoded(value: nat, len: nat)

  /** The varint at the front of s, if one ends there within max bytes. */
  function Decode(s: seq<byte>, max: nat): (d: Option<Decoded>)
    ensures d.Some? ==> 1 <= d.value.len <= |s| && d.value.len <= max
    decreases max
  {
    if max == 0 || s == [] then None
    else if s[0] < 128 then Some(Decoded(s[0], 1))
    else
      match Decode(s[1..], max - 1)
      case None => None
      case Some(d) => Some(Decoded(s[0] - 128 + 128 * d.value, d.len + 1))
  }

  lemma {:induction false} DecodeEncode(n: nat, max: nat, t: seq<byte>)
    requires |Encode(n)| <= max
    ensures Decode(Encode(n) + t, max) == Some(Decoded(n, |Encode(n)|))
  {
    if n >= 128 {
      assert (Encode(n) + t)[1..] == Encode(n / 128) + t;
      DecodeEncode(n / 128, max - 1, t);
    }
  }

  /** What follows a complete varint never changes how it is read. */
  lemma {:induction false} DecodeExtend(s: seq<byte>, max: nat, t: seq<byte>)
    requires Decode(s, max).Some?
    ensures Decode(s + t, max) == Decode(s, max)
    decreases max
  {
    if s[0] >= 128 {
      assert (s + t)[1..] == s[1..] + t;
      DecodeExtend(s[1..], max - 1, t);
    }
  }

  /** No proper prefix of an encoding is itself a varint. */
  lemma {:induction false} DecodeTruncated(n: nat, k: nat, max: nat)
    requires k < |Encode(n)|
    ensures Decode(Encode(n)[..k], max).None?
    decreases max
  {
    if n >= 128 && k > 0 && max > 0 {
      assert Encode(n)[..k][1..] == Encode(n / 128)[..k - 1];
      DecodeTruncated(n / 128, k - 1, max - 1);
    }
  }

  ghost function Pow128(k: nat): (p: nat)
    ensures p >= 1
  {
    if k == 0 then 1 else 128 * Pow128(k - 1)
  }

  /** An encoding has exactly as many bytes as the value has base-128 digits. */
  lemma {:induction false} EncodeLength(n: nat, k: nat)
    requires k >= 1
    ensures |Encode(n)| <= k <==> n < Pow128(k)
    decreases k
  {
    if n >= 128 {
      if k > 1 {
        EncodeLength(n / 128, k - 1);
        assert Pow128(k) == 128 * Pow128(k - 1);
      } else {
        assert Pow128(1) == 128 * Pow128(0);
      }
    } else {
      assert Pow128(k) == 128 * Pow128(k - 1);
    }
  }

  lemma Pow128Values()
    ensures Pow128(1) == 0x80 && Pow128(2) == 0x4000 && Pow128(3) == 0x20_0000 && Pow128(4) == 0x1000_0000
    ensures Pow128(5) == 0x8_0000_0000 && Pow128(9) == 0x8000_0000_0000_0000
    ensures Pow128(10) == 128 * Pow128(9) > TWO_64
  {
    assert Pow128(1) == 128 * Pow128(0);
    assert Pow128(2) == 128 * Pow128(1);
    assert Pow128(3) == 128 * Pow128(2);
    assert Pow128(4) == 128 * Pow128(3);
    assert Pow128(5) == 128 * Pow128(4);
    assert Pow128(6) == 128 * Pow128(5);
    assert Pow128(7) == 128 * Pow128(6);
    assert Pow128(8) == 128 * Pow128(7);
    assert Pow128(9) == 128 * Pow128(8);
  }

  // ----- the same by bytes: digits to base 128, least significant first

  /** The number that the low seven bits of the first k bytes spell. */
  ghost function Digits(s: seq<byte>, k: nat): nat
    requires k <= |s|
  {
    if k == 0 then 0 else Digits(s, k - 1) + s[k - 1] % 128 * Pow128(k - 1)
  }

  lemma {:induction false} DigitsStep(b: byte, s: seq<byte>, k: nat)
    requires k <= |s|
    ensures Digits([b] + s, k + 1) == b % 128 + 128 * Digits(s, k)
  {
    var t := [b] + s;
    if k == 0 {
      assert Digits(t, 1) == Digits(t, 0) + t[0] % 128 * Pow128(0);
    } else {
      DigitsStep(b, s, k - 1);
      assert t[k] == s[k - 1];
      PowStep(s[k - 1] % 128, k - 1);
      assert Digits(t, k + 1) == Digits(t, k) + t[k] % 128 * Pow128(k);
    }
  }

  lemma PowStep(x: nat, k: nat)
    ensures x * Pow128(k + 1) == 128 * (x * Pow128(k))
  {
    assert Pow128(k + 1) == 128 * Pow128(k);
  }

  /** An encoding spells its number, marks every byte but the last, and has no superfluous last byte. */
  lemma {:induction false} EncodeSpells(n: nat)
    ensures Digits(Encode(n), |Encode(n)|) == n
    ensures forall i :: 0 <= i < |Encode(n)| - 1 ==> Encode(n)[i] >= 128
    ensures Encode(n)[|Encode(n)| - 1] < 128 && (n >= 128 ==> Encode(n)[|Encode(n)| - 1] != 0)
  {
    var s := Encode(n);
    if n < 128 {
      assert s == [n] + [];
      DigitsStep(n, [], 0);
    } else {
      EncodeSpells(n / 128);
      var rest := Encode(n / 128);
      assert s == [n % 128 + 128] + rest;
      DigitsStep(n % 128 + 128, rest, |rest|);
      if n / 128 < 128 { assert rest == [n / 128]; }
    }
  }

  /** Reading succeeds if and only if one of the first max bytes is unmarked. */
  lemma {:induction false} DecodeEnds(s: seq<byte>, max: nat)
    ensures Decode(s, max).Some? <==> exists i :: 0 <= i < |s| && i < max && s[i] < 128
    decreases max
  {
    if max > 0 && s != [] && s[0] >= 128 {
      var rest := s[1..];
      DecodeEnds(rest, max - 1);
      if i :| 0 <= i < |s| && i < max && s[i] < 128 {
        assert rest[i - 1] == s[i];
      }
      if j :| 0 <= j < |rest| && j < max - 1 && rest[j] < 128 {
        assert s[j + 1] == rest[j];
      }
    }
  }

  /** It ends at the first unmarked byte, and yields what the bytes up to there spell. */
  lemma {:induction false} DecodeSpells(s: seq<byte>, max: nat)
    requires Decode(s, max).Some?
    ensures var d := Decode(s, max).value;
            && s[d.len - 1] < 128 && (forall i :: 0 <= i < d.len - 1 ==> s[i] >= 128)
            && d.value == Digits(s, d.len)
    decreases max
  {
    var rest := s[1..];
    assert s == [s[0]] + rest;
    if s[0] < 128 {
      DigitsStep(s[0], rest, 0);
    } else {
      DecodeSpells(rest, max - 1);
      var d := Decode(rest, max - 1).value;
      DigitsStep(s[0], rest, d.len);
      assert forall i :: 1 <= i < d.len ==> s[i] == rest[i - 1];
    }
  }

  lemma EncodeLength32(n: nat)
    requires n < TWO_32
    ensures |Encode(n)| <= 5
  {
    Pow128Values();
    EncodeLength(n, 5);
  }

  lemma EncodeLength64(n: nat)
    requires n < TWO_64
    ensures |Encode(n)| <= 10
  {
    Pow128Values();
    EncodeLength(n, 10);
  }

  /** An int32 travels as the 64-bit two's complement pattern of its sign extension. */
  function SignExtend64(v: int32): (u: nat)
    ensures u < TWO_64
  {
    if v < 0 then v + TWO_64 else v
  }

  /** Storing a 64-bit pattern into an int32 keeps its low 32 bits. */
  function Truncate32(u: nat): int32 {
    var low := u % TWO_32;
    if low >= TWO_31 then low - TWO_32 else low
  }

  /** The pattern is the value modulo 2^64, for every value; what is stored is it modulo 2^32, for every pattern. */
  lemma Conversions(v: int32, u: nat)
    ensures SignExtend64(v) % 0x1_0000_0000_0000_0000 == v % 0x1_0000_0000_0000_0000
    ensures (Truncate32(u) - u) % 0x1_0000_0000 == 0
    ensures -0x8000_0000 <= Truncate32(u) <= 0x7FFF_FFFF
  {
    assert u == u / TWO_32 * TWO_32 + u % TWO_32;
    var q := u / TWO_32;
    if u % TWO_32 >= TWO_31 {
      assert Truncate32(u) - u == -(q + 1) * TWO_32;
      assert (-(q + 1) * TWO_32) % TWO_32 == 0;
    } else {
      assert Truncate32(u) - u == -q * TWO_32;
      assert (-q * TWO_32) % TWO_32 == 0;
    }
  }

  /** The ten bytes of a negative value: those of the sign extension are all ones, and the last is 1. */
  lemma NegativeBytes(v: int32)
    requires v < 0
    ensures var s := Encode(SignExtend64(v));
            |s| == 10 && s[5] == 255 && s[6] == 255 && s[7] == 255 && s[8] == 255 && s[9] == 1
    ensures v == -1 ==> Encode(SignExtend64(v)) == [255, 255, 255, 255, 255, 255, 255, 255, 255, 1]
  {
    var n := SignExtend64(v);
    EncodeStep(n);
    EncodeStep(n / 128);
    EncodeStep(n / 128 / 128);
    EncodeStep(n / 128 / 128 / 128);
    EncodeStep(n / 128 / 128 / 128 / 128);
    var m := n / 128 / 128 / 128 / 128 / 128;
    assert m == 0x1FFF_FFFF;
    EncodeStep(m);
    EncodeStep(m / 128);
    EncodeStep(m / 128 / 128);
    EncodeStep(m / 128 / 128 / 128);
  }

  lemma EncodeStep(n: nat)
    requires n >= 128
    ensures Encode(n) == [n % 128 + 128] + Encode(n / 128)
  {
  }

  lemma TruncateSignExtend(v: int32)
    ensures Truncate32(SignExtend64(v)) == v
  {
    assert TWO_64 == TWO_32 * TWO_32;
    if v < 0 {
      assert v + TWO_64 == TWO_32 * (TWO_32 - 1) + (v + TWO_32);
      assert (v + TWO_64) % TWO_32 == v + TWO_32;
    }
  }

  /** The size the serializer reserves for an int32 payload. */
  function Int32Size(v: int32): nat {
    if v < 0 then 10
    else if v < 0x80 then 1
    else if v < 0x4000 then 2
    else if v < 0x20_0000 then 3
    else if v < 0x1000_0000 then 4
    else 5
  }

  /** Negative values take ten bytes, the others as many as their magnitude needs; never anything else. */
  lemma Int32SizeAgrees(v: int32)
    ensures |Encode(SignExtend64(v))| == Int32Size(v)
    ensures v < 0 <==> |Encode(SignExtend64(v))| == 10
    ensures v >= 0 ==> 1 <= |Encode(SignExtend64(v))| <= 5
  {
    Pow128Values();
    var n := SignExtend64(v);
    EncodeLength(n, 1);
    EncodeLength(n, 2);
    EncodeLength(n, 3);
    EncodeLength(n, 4);
    EncodeLength(n, 5);
    EncodeLength(n, 9);
    EncodeLength(n, 10);
  }

  /** An int32 written as a varint and read back into an int32 is unchanged, whatever follows it. */
  lemma Int32RoundTrip(v: int32, t: seq<byte>)
    ensures Decode(Encode(SignExtend64(v)) + t, 10) == Some(Decoded(SignExtend64(v), Int32Size(v)))
    ensures Truncate32(SignExtend64(v) % TWO_64) == v
  {
    var n := SignExtend64(v);
    EncodeLength64(n);
    DecodeEncode(n, 10, t);
    Int32SizeAgrees(v);
    Modulo64(n);
    TruncateSignExtend(v);
  }

  lemma Modulo64(n: nat)
    requires n < TWO_64
    ensures n % TWO_64 == n
  {
  }
}
