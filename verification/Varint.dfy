/**
  The variable-length integer codec of src/varint.c.

  A value is written seven bits at a time, low group first; bit 7 of a byte says
  that another byte follows. The ninth byte, when there is one, holds eight bits.
  Bit operations appear as arithmetic: `x & 0x7f` is `x % 128`, `x | 0x80` of a
  seven-bit x is `x + 128`, `x >> 7` is `x / 128`, and `|` of operands that share
  no bits is `+`. Pointers are pairs of an array and an offset.
*/
module Varint {

  type Byte = x: int | 0 <= x < 0x100

  const U64: nat := 0x1_0000_0000_0000_0000
  const TOP_BYTE: nat := 0x100_0000_0000_0000

  /** 128 to the power k: the weight of byte k. */
  function Weight(k: nat): (w: nat)
    ensures w >= 1
  {
    if k == 0 then 1 else 128 * Weight(k - 1)
  }

  lemma Weights()
    ensures Weight(8) == TOP_BYTE && 256 * Weight(8) == U64
  {
    assert Weight(2) == 0x4000;
    assert Weight(4) == 0x1000_0000;
    assert Weight(6) == 0x400_0000_0000;
  }

  /** The bytes of `v` from byte index i on, where v holds what is left to write. */
  function EncodeFrom(v: nat, i: nat): (s: seq<Byte>)
    requires i <= 8 && v < 256 * Weight(8 - i)
    ensures 1 <= |s| <= 9 - i
    decreases 8 - i
  {
    if i == 8 then [v]
    else if v < 128 then [v]
    else [128 + v % 128] + EncodeFrom(v / 128, i + 1)
  }

  /** The reference encoding: what `varint_put` is meant to write. */
  function Encode(v: nat): (s: seq<Byte>)
    requires v < U64
    ensures 1 <= |s| <= 9
  {
    Weights();
    EncodeFrom(v, 0)
  }

  /** v shifted right by 7 k bits. */
  function Shifted(v: nat, k: nat): nat {
    if k == 0 then v else Shifted(v / 128, k - 1)
  }

  lemma {:induction false} EncodeTailIs(v: nat, i: nat, k: nat)
    requires i <= 8 && v < 256 * Weight(8 - i) && k < |EncodeFrom(v, i)|
    ensures var s := EncodeFrom(v, i);
            s[k] == if k == |s| - 1 then Shifted(v, k) else 128 + Shifted(v, k) % 128
    ensures k > 0 ==> Shifted(v, k) > 0
    ensures |EncodeFrom(v, i)| < 9 - i && k == |EncodeFrom(v, i)| - 1 ==> Shifted(v, k) < 128
    decreases 8 - i
  {
    if i < 8 && v >= 128 && k > 0 {
      assert EncodeFrom(v, i)[1..] == EncodeFrom(v / 128, i + 1);
      EncodeTailIs(v / 128, i + 1, k - 1);
    }
  }

  /** The format, byte for byte: low bits first, seven in a byte, each byte but the last
      with bit 7 set, and no more bytes than the value needs; a ninth byte takes the
      eight bits that are left. */
  lemma EncodeIs(v: nat, k: nat)
    requires v < U64 && k < |Encode(v)|
    ensures Encode(v)[k] == if k == |Encode(v)| - 1 then Shifted(v, k) else 128 + Shifted(v, k) % 128
    ensures k > 0 ==> Shifted(v, k) > 0
    ensures k == |Encode(v)| - 1 && k < 8 ==> Shifted(v, k) < 128
  {
    Weights();
    EncodeTailIs(v, 0, k);
  }

  /** A complete varint can be read at s[at..] when byte i of it is reached. */
  predicate Readable(s: seq<Byte>, at: nat, i: nat)
    requires i <= 8
    decreases 8 - i
  {
    at + i < |s| && (i == 8 || s[at + i] < 128 || Readable(s, at, i + 1))
  }

  /** The number of bytes of the varint at s[at..], counted from byte i. */
  function LengthFrom(s: seq<Byte>, at: nat, i: nat): (n: nat)
    requires i <= 8 && Readable(s, at, i)
    ensures 1 <= n <= 9 - i && at + i + n <= |s|
    decreases 8 - i
  {
    if i == 8 || s[at + i] < 128 then 1 else 1 + LengthFrom(s, at, i + 1)
  }

  /** The value of the varint at s[at..], byte i having weight one. */
  function ValueFrom(s: seq<Byte>, at: nat, i: nat): (v: nat)
    requires i <= 8 && Readable(s, at, i)
    ensures v < 256 * Weight(8 - i)
    decreases 8 - i
  {
    if i == 8 || s[at + i] < 128 then s[at + i]
    else s[at + i] - 128 + 128 * ValueFrom(s, at, i + 1)
  }

  /** Reading at s[at..] yields value v and uses n bytes. */
  ghost predicate Reads(s: seq<Byte>, at: nat, v: nat, n: nat) {
    Readable(s, at, 0) && ValueFrom(s, at, 0) == v && LengthFrom(s, at, 0) == n
  }

  lemma {:induction false} DecodeTail(s: seq<Byte>, at: nat, i: nat, v: nat)
    requires i <= 8 && v < 256 * Weight(8 - i)
    requires at + i <= |s| && EncodeFrom(v, i) <= s[at + i..]
    ensures Readable(s, at, i)
    ensures ValueFrom(s, at, i) == v && LengthFrom(s, at, i) == |EncodeFrom(v, i)|
    decreases 8 - i
  {
    var e := EncodeFrom(v, i);
    assert s[at + i] == e[0];
    if i < 8 && v >= 128 {
      assert e[1..] == EncodeFrom(v / 128, i + 1);
      assert s[at + i + 1..] == s[at + i..][1..];
      DecodeTail(s, at, i + 1, v / 128);
    }
  }

  /** Round trip and self-delimitation: an encoded value is read back exactly,
      whatever surrounds it. */
  lemma {:induction false} RoundTrip(s: seq<Byte>, at: nat, v: nat)
    requires v < U64 && at <= |s| && Encode(v) <= s[at..]
    ensures Reads(s, at, v, |Encode(v)|)
  {
    Weights();
    DecodeTail(s, at, 0, v);
  }

  lemma {:induction false} SameBytesTail(s: seq<Byte>, at: nat, t: seq<Byte>, to: nat, i: nat)
    requires i <= 8 && Readable(s, at, i)
    requires to + i + LengthFrom(s, at, i) <= |t|
    requires t[to + i..to + i + LengthFrom(s, at, i)] == s[at + i..at + i + LengthFrom(s, at, i)]
    ensures Readable(t, to, i)
    ensures ValueFrom(t, to, i) == ValueFrom(s, at, i) && LengthFrom(t, to, i) == LengthFrom(s, at, i)
    decreases 8 - i
  {
    var n := LengthFrom(s, at, i);
    var a, b := s[at + i..at + i + n], t[to + i..to + i + n];
    assert a[0] == b[0];
    if i < 8 && s[at + i] >= 128 {
      assert a[1..] == s[at + (i + 1)..at + (i + 1) + (n - 1)];
      assert b[1..] == t[to + (i + 1)..to + (i + 1) + (n - 1)];
      SameBytesTail(s, at, t, to, i + 1);
    }
  }

  /** Any readable varint, canonical or not, reads the same wherever it is copied. */
  lemma {:induction false} ReadsAnywhere(s: seq<Byte>, at: nat, t: seq<Byte>, to: nat, v: nat, n: nat)
    requires Reads(s, at, v, n) && to + n <= |t| && t[to..to + n] == s[at..at + n]
    ensures Reads(t, to, v, n)
  {
    SameBytesTail(s, at, t, to, 0);
  }

  lemma {:induction false} EncodeTailInjective(v: nat, w: nat, i: nat)
    requires i <= 8 && v < 256 * Weight(8 - i) && w < 256 * Weight(8 - i)
    requires EncodeFrom(v, i) <= EncodeFrom(w, i)
    ensures v == w
  {
    var s := seq(i, k => 0) + EncodeFrom(w, i);
    assert s[0 + i..] == EncodeFrom(w, i);
    DecodeTail(s, 0, i, v);
    DecodeTail(s, 0, i, w);
  }

  /** No encoding is a prefix of another: different keys have different bytes. */
  lemma PrefixFree(v: nat, w: nat)
    requires v < U64 && w < U64 && Encode(v) <= Encode(w)
    ensures v == w
  {
    Weights();
    EncodeTailInjective(v, w, 0);
  }

  // ---------------------------------------------------------------- length

  /** `varint_put_len`: agrees with the length of the reference encoding. */
  method PutLen(value: nat) returns (i: nat)
    requires value < U64
    ensures i == |Encode(value)|
  {
    Weights();
    i := 0;
    var v: nat := value;
    var more := true;
    while more
      invariant 0 <= i <= 9
      invariant more ==> i <= 8 && v < 256 * Weight(8 - i) && |Encode(value)| == i + |EncodeFrom(v, i)|
      invariant !more ==> i == |Encode(value)|
      decreases more, 9 - i
    {
      i := i + 1;
      v := v / 128;
      more := v != 0 && i < 9;
    }
  }

  /** `varint_get_len`. */
  method GetLen(src: array<Byte>, at: nat) returns (n: nat)
    requires Readable(src[..], at, 0)
    ensures n == LengthFrom(src[..], at, 0)
  {
    var i := 0;
    while i < 8 && src[at + i] >= 128
      invariant 0 <= i <= 8
      invariant Readable(src[..], at, i)
      invariant LengthFrom(src[..], at, 0) == i + LengthFrom(src[..], at, i)
    {
      i := i + 1;
    }
    n := i + 1;
  }

  // ------------------------------------------------------------------- get

  /** The sum that the loop of `varint_get` builds, from byte i and its weight on. */
  function Sum(s: seq<Byte>, at: nat, i: nat, weight: nat): nat
    requires i <= 8 && Readable(s, at, i)
    decreases 8 - i
  {
    var c: nat := s[at + i];
    if i == 8 then c * weight
    else if c < 128 then c % 128 * weight
    else c % 128 * weight + Sum(s, at, i + 1, weight * 128)
  }

  lemma Distribute(a: nat, b: nat, weight: nat)
    ensures (a + 128 * b) * weight == a * weight + b * (weight * 128)
  {
  }

  lemma {:induction false} SumIsValue(s: seq<Byte>, at: nat, i: nat, weight: nat)
    requires i <= 8 && Readable(s, at, i)
    ensures Sum(s, at, i, weight) == ValueFrom(s, at, i) * weight
    decreases 8 - i
  {
    var c: nat := s[at + i];
    if i < 8 && c >= 128 {
      SumIsValue(s, at, i + 1, weight * 128);
      Distribute(c % 128, ValueFrom(s, at, i + 1), weight);
    }
  }

  lemma BelowNextWeight(out: nat, c: nat, weight: nat)
    requires out < weight && c < 128
    ensures out + c * weight < weight * 128
  {
    assert c * weight <= 127 * weight;
  }

  lemma LengthStep(s: seq<Byte>, at: nat, i: nat)
    requires i <= 8 && Readable(s, at, i)
    ensures LengthFrom(s, at, i)
            == if i == 8 || s[at + i] < 128 then 1 else 1 + LengthFrom(s, at, i + 1)
    ensures i == 0 ==> ValueFrom(s, at, i) < U64
  {
    Weights();
  }

  /** `varint_get`: the value and its length, below 2^64. */
  method Get(src: array<Byte>, at: nat) returns (n: nat, out: nat)
    requires Readable(src[..], at, 0)
    ensures out == ValueFrom(src[..], at, 0) && n == LengthFrom(src[..], at, 0)
    ensures out < U64
  {
    hide Weight, ValueFrom, LengthFrom;
    ghost var s := src[..];
    LengthStep(s, at, 0);
    var i: nat, weight: nat := 0, 1;  // weight is 1 << (7 * i)
    out := 0;
    while true
      invariant 0 <= i <= 8 && Readable(s, at, i)
      invariant out < weight  // so `|=` adds
      invariant Sum(s, at, 0, 1) == out + Sum(s, at, i, weight)
      invariant LengthFrom(s, at, 0) == i + LengthFrom(s, at, i)
      decreases 8 - i
    {
      var c: nat := src[at + i];
      LengthStep(s, at, i);
      if i < 8 {
        BelowNextWeight(out, c % 128, weight);
        out := out + c % 128 * weight;
      } else {
        out := out + c * weight;
      }
      i, weight := i + 1, weight * 128;
      if c < 128 || i >= 9 {
        break;
      }
    }
    n := i;
    SumIsValue(s, at, 0, 1);
    Weights();
  }

  // ------------------------------------------------------------------- put

  function Splice(s: seq<Byte>, at: nat, e: seq<Byte>): (r: seq<Byte>)
    requires at + |e| <= |s|
    ensures |r| == |s| && r[at..at + |e|] == e
  {
    s[..at] + e + s[at + |e|..]
  }

  lemma SpliceIs(s: seq<Byte>, at: nat, e: seq<Byte>, r: seq<Byte>)
    requires at + |e| <= |s| == |r|
    requires forall k :: 0 <= k < |s| && !(at <= k < at + |e|) ==> r[k] == s[k]
    requires forall k :: 0 <= k < |e| ==> r[at + k] == e[k]
    ensures r == Splice(s, at, e)
  {
    forall k | 0 <= k < |s| ensures r[k] == Splice(s, at, e)[k] {
      if at <= k < at + |e| {
        assert r[at + (k - at)] == e[k - at];
      }
    }
  }

  /** What src/varint.c:8-30 leaves in the buffer. From 2^56 on the loop of line 13
      steps its unsigned 16-bit counter down from 0 to 65535 and ends after one
      byte, so only bytes 0 and 8 are written. */
  function Written(s: seq<Byte>, at: nat, value: nat): (r: seq<Byte>)
    requires value < U64 && at + |Encode(value)| <= |s|
    requires value >= TOP_BYTE ==> at + 9 <= |s|
    ensures |r| == |s|
  {
    if value < TOP_BYTE then Splice(s, at, Encode(value))
    else s[at := 128 + value % 128][at + 8 := value / 128 % 256]
  }

  /** After i bytes of a put: they are those of e with the continuation bit set,
      and nothing else changed. */
  ghost predicate PutSoFar(s: seq<Byte>, r: seq<Byte>, at: nat, e: seq<Byte>, i: nat)
    requires at + |e| <= |s| && i <= |e|
  {
    && |r| == |s|
    && (forall k :: 0 <= k < i ==> r[at + k] == if e[k] < 128 then e[k] + 128 else e[k])
    && (forall k :: 0 <= k < |s| && !(at <= k < at + i) ==> r[k] == s[k])
  }

  lemma PutStep(s: seq<Byte>, r: seq<Byte>, at: nat, e: seq<Byte>, i: nat, c: Byte)
    requires at + |e| <= |s| && i < |e| && PutSoFar(s, r, at, e, i)
    requires c == if e[i] < 128 then e[i] + 128 else e[i]
    ensures PutSoFar(s, r[at + i := c], at, e, i + 1)
  {
  }

  /** Every byte of an encoding but its last carries the continuation bit. */
  lemma {:induction false} Continued(v: nat, i: nat, k: nat)
    requires i <= 8 && v < 256 * Weight(8 - i) && k < |EncodeFrom(v, i)| - 1
    ensures EncodeFrom(v, i)[k] >= 128
    decreases k
  {
    if k > 0 {
      Continued(v / 128, i + 1, k - 1);
    }
  }

  lemma PutDone(s: seq<Byte>, r: seq<Byte>, at: nat, value: nat, last: Byte)
    requires value < U64 && at + |Encode(value)| <= |s|
    requires PutSoFar(s, r, at, Encode(value), |Encode(value)|)
    requires last == Encode(value)[|Encode(value)| - 1]
    ensures r[at + |Encode(value)| - 1 := last] == Splice(s, at, Encode(value))
  {
    var e := Encode(value);
    Weights();
    forall k | 0 <= k < |e| ensures r[at + |e| - 1 := last][at + k] == e[k] {
      if k < |e| - 1 {
        Continued(value, 0, k);
      }
    }
    SpliceIs(s, at, e, r[at + |e| - 1 := last]);
  }

  /** The loop of src/varint.c:22-26, which writes the bytes of a value below 2^56. */
  method PutSmall(dst: array<Byte>, at: nat, value: nat) returns (i: nat)
    requires value < TOP_BYTE && at + |Encode(value)| <= dst.Length
    modifies dst
    ensures i == |Encode(value)| && dst[..] == Splice(old(dst[..]), at, Encode(value))
  {
    hide Weight, EncodeFrom, Encode, Splice, PutSoFar;
    EncodeStart(value);
    PutNothing(dst[..], at, Encode(value));
    ghost var e := Encode(value);
    ghost var before := dst[..];
    var v: nat := value;
    var more := true;
    i := 0;
    while more
      invariant 0 <= i <= |e| && PutSoFar(before, dst[..], at, e, i)
      invariant more ==> i < 8 && 1 <= v + 1 <= Weight(8 - i) && e[i..] == EncodeFrom(v, i)
      invariant !more ==> i == |e| && e[i - 1] < 128 && dst[at + i - 1] == e[i - 1] + 128
      decreases more, |e| - i
    {
      EncodeHead(v, i);
      assert e[i] == e[i..][0];
      assert e[i..][1..] == e[i + 1..];
      PutStep(before, dst[..], at, e, i, v % 128 + 128);
      dst[at + i] := v % 128 + 128;
      i := i + 1;
      v := v / 128;
      more := v > 0;
    }
    PutDone(before, dst[..], at, value, dst[at + i - 1] - 128);
    dst[at + i - 1] := dst[at + i - 1] - 128;
  }

  lemma EncodeStart(v: nat)
    requires v < U64
    ensures v < 256 * Weight(8) && Encode(v) == EncodeFrom(v, 0) == Encode(v)[0..]
    ensures v < TOP_BYTE ==> v < Weight(8)
    ensures v >= TOP_BYTE ==> Weight(8) <= v && |Encode(v)| == 9
  {
    Weights();
    if v >= TOP_BYTE {
      LongEncoding(v, 0);
    }
  }

  lemma PutNothing(s: seq<Byte>, at: nat, e: seq<Byte>)
    requires at + |e| <= |s|
    ensures PutSoFar(s, s, at, e, 0)
  {
  }

  lemma EncodeHead(v: nat, i: nat)
    requires i < 8 && v < 256 * Weight(8 - i)
    ensures var e := EncodeFrom(v, i);
            && v / 128 < 256 * Weight(8 - (i + 1))
            && (v < Weight(8 - i) ==> v / 128 < Weight(8 - (i + 1)))
            && (v / 128 > 0 ==> v >= 128)
            && (i == 7 && v < Weight(8 - i) ==> v < 128)
            && (v < 128 ==> e == [v])
            && (v >= 128 ==> e[0] == 128 + v % 128 && e[1..] == EncodeFrom(v / 128, i + 1))
  {
  }

  /** `varint_put` as written. */
  method Put(dst: array<Byte>, at: nat, value: nat) returns (n: nat)
    requires value < U64 && at + |Encode(value)| <= dst.Length
    requires value >= TOP_BYTE ==> at + 9 <= dst.Length
    modifies dst
    ensures dst[..] == Written(old(dst[..]), at, value)
    ensures n == if value < TOP_BYTE then |Encode(value)| else 9
  {
    if value >= TOP_BYTE {
      var v := value;
      var i := 0;
      while i < 8
        invariant i == 0 || i == 0xffff
        invariant i == 0 ==> v == value && dst[..] == old(dst[..])
        invariant i != 0 ==> v == value / 128 && dst[..] == old(dst[..])[at := 128 + value % 128]
        decreases 0xffff - i
      {
        dst[at + i] := v % 128 + 128;
        v := v / 128;
        i := if i == 0 then 0xffff else i - 1;
      }
      dst[at + 8] := v % 256;
      return 9;
    }
    n := PutSmall(dst, at, value);
  }

  /** `varint_put` with line 13 stepping `++i`: the reference encoding, always. */
  method PutRepaired(dst: array<Byte>, at: nat, value: nat) returns (n: nat)
    requires value < U64 && at + |Encode(value)| <= dst.Length
    modifies dst
    ensures dst[..] == Splice(old(dst[..]), at, Encode(value))
    ensures n == |Encode(value)|
  {
    hide Weight, EncodeFrom, Encode, Splice, PutSoFar;
    if value >= TOP_BYTE {
      EncodeStart(value);
      PutNothing(dst[..], at, Encode(value));
      ghost var e := Encode(value);
      ghost var before := dst[..];
      var v: nat := value;
      var i := 0;
      while i < 8
        invariant 0 <= i <= 8 && PutSoFar(before, dst[..], at, e, i)
        invariant Weight(8 - i) <= v < 256 * Weight(8 - i) && e[i..] == EncodeFrom(v, i)
      {
        LongHead(v, i);
        EncodeHead(v, i);
        assert e[i] == e[i..][0];
        assert e[i..][1..] == e[i + 1..];
        PutStep(before, dst[..], at, e, i, v % 128 + 128);
        dst[at + i] := v % 128 + 128;
        v := v / 128;
        i := i + 1;
      }
      EncodeLast(v);
      assert e[8] == e[8..][0];
      ghost var half := dst[..];
      dst[at + 8] := v % 256;
      PutLast(before, half, at, value);
      return 9;
    }
    n := PutSmall(dst, at, value);
  }

  lemma EncodeLast(v: nat)
    requires v < 256 * Weight(0)
    ensures v < 256 && EncodeFrom(v, 8) == [v]
  {
  }

  lemma PutLast(s: seq<Byte>, r: seq<Byte>, at: nat, value: nat)
    requires value < U64 && |Encode(value)| == 9 && at + 9 <= |s|
    requires PutSoFar(s, r, at, Encode(value), 8)
    ensures r[at + 8 := Encode(value)[8]] == Splice(s, at, Encode(value))
  {
    var e := Encode(value);
    Weights();
    forall k | 0 <= k < |e| ensures r[at + 8 := e[8]][at + k] == e[k] {
      if k < 8 {
        Continued(value, 0, k);
      }
    }
    SpliceIs(s, at, e, r[at + 8 := e[8]]);
  }

  lemma LongHead(v: nat, i: nat)
    requires i < 8 && Weight(8 - i) <= v
    ensures v >= 128 && Weight(8 - (i + 1)) <= v / 128
  {
    assert Weight(8 - i) == 128 * Weight(8 - (i + 1));
  }

  lemma {:induction false} LongEncoding(v: nat, i: nat)
    requires i <= 8 && Weight(8 - i) <= v < 256 * Weight(8 - i)
    ensures |EncodeFrom(v, i)| == 9 - i
    decreases 8 - i
  {
    if i < 8 {
      assert Weight(8 - i) == 128 * Weight(8 - (i + 1));
      LongEncoding(v / 128, i + 1);
    }
  }

  /** The codec as written is correct for a value, in whatever buffer, exactly
      below 2^56. */
  lemma {:induction false} WrittenRoundTripIff(value: nat)
    requires value < U64
    ensures (forall s: seq<Byte>, at: nat :: at + 9 <= |s| ==> Reads(Written(s, at, value), at, value, |Encode(value)|))
            <==> value < TOP_BYTE
  {
    if value < TOP_BYTE {
      forall s: seq<Byte>, at: nat | at + 9 <= |s|
        ensures Reads(Written(s, at, value), at, value, |Encode(value)|)
      {
        var w := Written(s, at, value);
        assert w[at..][..|Encode(value)|] == w[at..at + |Encode(value)|];
        RoundTrip(w, at, value);
      }
    } else {
      var s: seq<Byte> := [0, 0, 0, 0, 0, 0, 0, 0, 0];
      LostBytes(s, value);
    }
  }

  /** The failing family: in a zeroed buffer a value from 2^56 on comes back as its
      low seven bits, from two bytes. */
  lemma LostBytes(s: seq<Byte>, value: nat)
    requires TOP_BYTE <= value < U64 && s == [0, 0, 0, 0, 0, 0, 0, 0, 0]
    ensures Reads(Written(s, 0, value), 0, value % 128, 2)
    ensures !Reads(Written(s, 0, value), 0, value, |Encode(value)|)
  {
    var w := Written(s, 0, value);
    assert w[0] == 128 + value % 128 && w[1] == 0;
    assert Readable(w, 0, 1);
  }
}
