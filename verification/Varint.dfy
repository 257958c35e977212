/**
 Base 128 varints (Protocol Buffers "Encoding" guide, section "Base 128 Varints"):
 the backward-positioned writer, the exact size it needs, and the bounded reader.
 */
module Varint {
  import opened GoTypes
  import opened Arithmetic

  datatype Error =
    | IntOverflow
    | UnexpectedEOF
    | InvalidLength
    | UnexpectedEndOfGroup
    | IllegalWireType(wireType: nat)
    | EndGroup
    | IllegalTag(fieldNum: int, wire: nat)
    | WrongWireType(wireType: nat, fieldNum: int)

  /** A varint read: its value and the bytes it takes (or, in a loop, the index after it). */
  datatype Reading = Got(v: nat, n: nat) | Failed(error: Error)

  // ---------- specification ----------

  /** The canonical encoding: seven bits a byte, least significant first. */
  function Encode(v: nat): (s: seq<byte>)
    ensures |s| >= 1
  {
    if v < 128 then [v] else [v % 128 + 128] + Encode(v / 128)
  }

  /** The bytes form one varint: at most ten, all but the last with the high bit set. */
  predicate WellFormed(s: seq<byte>) {
    && 1 <= |s| <= 10
    && s[|s| - 1] < 128
    && forall k :: 0 <= k < |s| - 1 ==> s[k] >= 128
  }

  /** Reads at most `budget` bytes; the value is not yet cut to 64 bits. */
  function ReadUpTo(d: seq<byte>, budget: nat): (r: Reading)
    ensures r.Got? ==> 1 <= r.n <= |d| && r.n <= budget
  {
    if budget == 0 then Failed(IntOverflow)
    else if d == [] then Failed(UnexpectedEOF)
    else if d[0] < 128 then Got(d[0], 1)
    else
      match ReadUpTo(d[1..], budget - 1)
      case Failed(e) => Failed(e)
      case Got(v, n) => Got(d[0] - 128 + 128 * v, n + 1)
  }

  /** The varint at the front of `d`: its value modulo 2^64 and its length. */
  function Read(d: seq<byte>): (r: Reading)
    ensures r.Got? ==> r.v < U64 && 1 <= r.n <= |d| && r.n <= 10
  {
    match ReadUpTo(d, 10)
    case Failed(e) => Failed(e)
    case Got(v, n) => Got(v % U64, n)
  }

  /** `bits.Len64`: the number of bits needed for x. */
  function Len64(x: nat): nat {
    if x == 0 then 0 else 1 + Len64(x / 2)
  }

  /** `x | 1` */
  function SetLowBit(x: nat): nat {
    if x % 2 == 0 then x + 1 else x
  }

  function SovFido2(x: uint64): nat {
    (Len64(SetLowBit(x)) + 6) / 7
  }

  // ---------- the size function is exact ----------

  lemma Quarter(x: nat)
    ensures x / 2 / 2 == x / 4 && x / 4 / 4 == x / 16 && x / 16 / 4 == x / 64 && x / 64 / 2 == x / 128
  {
  }

  lemma Len64Quarter(x: nat)
    requires x >= 4
    ensures Len64(x) == 2 + Len64(x / 4)
  {
    Quarter(x);
    assert Len64(x / 2) == 1 + Len64(x / 2 / 2);
  }

  /** Dropping the seven low bits of a number that has more shortens it by seven. */
  lemma Len64Drop7(x: nat)
    requires x >= 128
    ensures Len64(x) == 7 + Len64(x / 128)
  {
    Quarter(x);
    Len64Quarter(x);
    Len64Quarter(x / 4);
    Len64Quarter(x / 16);
    assert Len64(x / 64) == 1 + Len64(x / 64 / 2);
  }

  function Pow2(k: nat): nat {
    if k == 0 then 1 else 2 * Pow2(k - 1)
  }

  lemma {:induction false} Len64Fits(x: nat, k: nat)
    requires x < Pow2(k)
    ensures Len64(x) <= k
    decreases k
  {
    if x > 0 {
      Len64Fits(x / 2, k - 1);
    }
  }

  lemma Len64Of7Bits(x: nat)
    requires x < 128
    ensures Len64(x) <= 7
  {
    hide Len64;
    assert Pow2(3) == 2 * Pow2(2) == 4 * Pow2(1) == 8 * Pow2(0) == 8;
    assert Pow2(5) == 2 * Pow2(4) == 4 * Pow2(3) == 32;
    assert Pow2(7) == 2 * Pow2(6) == 4 * Pow2(5) == 128;
    Len64Fits(x, 7);
  }

  lemma Len64SetLowBit(x: nat)
    ensures Len64(SetLowBit(x)) == if x == 0 then 1 else Len64(x)
  {
    var y := SetLowBit(x);
    assert y / 2 == x / 2;
    assert Len64(y) == 1 + Len64(y / 2);
  }

  lemma {:induction false} SovIsLength(x: uint64)
    ensures SovFido2(x) == |Encode(x)|
  {
    Len64SetLowBit(x);
    if x < 128 {
      Len64Of7Bits(x);
    } else {
      Len64SetLowBit(x / 128);
      Len64Drop7(x);
      SovIsLength(x / 128);
    }
  }

  // ---------- the reader inverts the writer ----------

  lemma {:induction false} EncodeFits(v: nat, k: nat)
    requires v < Pow128(k + 1)
    ensures |Encode(v)| <= k + 1
  {
    if v >= 128 {
      assert k > 0;
      EncodeFits(v / 128, k - 1);
    }
  }

  function Pow128(k: nat): (p: nat)
    ensures p > 0
  {
    if k == 0 then 1 else 128 * Pow128(k - 1)
  }

  lemma Pow128Values()
    ensures Pow128(5) == 0x8_0000_0000
    ensures Pow128(10) == 64 * U64
  {
    assert Pow128(1) == 128 && Pow128(2) == 0x4000 && Pow128(3) == 0x20_0000 && Pow128(4) == 0x1000_0000;
    assert Pow128(5) == 128 * Pow128(4);
    assert Pow128(6) == 128 * Pow128(5);
    assert Pow128(7) == 128 * Pow128(6);
    assert Pow128(8) == 128 * Pow128(7);
    assert Pow128(9) == 128 * Pow128(8);
    assert Pow128(10) == 128 * Pow128(9);
  }

  lemma {:induction false} ReadUpToEncode(v: nat, rest: seq<byte>, budget: nat)
    requires |Encode(v)| <= budget
    ensures ReadUpTo(Encode(v) + rest, budget) == Got(v, |Encode(v)|)
  {
    var d := Encode(v) + rest;
    if v >= 128 {
      assert d[1..] == Encode(v / 128) + rest;
      ReadUpToEncode(v / 128, rest, budget - 1);
    }
  }

  /** For every uint64, whatever follows it in the buffer. */
  lemma ReadEncode(v: uint64, rest: seq<byte>)
    ensures |Encode(v)| <= 10
    ensures Read(Encode(v) + rest) == Got(v, |Encode(v)|)
  {
    Pow128Values();
    EncodeFits(v, 9);
    ReadUpToEncode(v, rest, 10);
  }

  // ---------- every byte of an encoding ----------

  /** Byte k of an encoding is the k-th group of seven bits, marked exactly when another byte follows. */
  lemma {:induction false} EncodeAt(v: nat, k: nat)
    requires k < |Encode(v)|
    ensures Encode(v)[k] == v / Pow128(k) % 128 + (if k + 1 < |Encode(v)| then 128 else 0)
    decreases k
  {
    if k > 0 {
      EncodeAt(v / 128, k - 1);
      DivTwice(v, 128, Pow128(k - 1));
    }
  }

  /** The length of an encoding: n bytes exactly for the numbers below 128^n and, unless n is 1, not below 128^(n - 1). */
  lemma {:induction false} EncodeLength(v: nat, n: nat)
    requires n >= 1
    ensures |Encode(v)| == n <==> v < Pow128(n) && (n > 1 ==> v >= Pow128(n - 1))
    decreases n
  {
    assert Pow128(1) == 128 * Pow128(0);
    if n > 1 && v >= 128 {
      EncodeLength(v / 128, n - 1);
      assert Pow128(n) == 128 * Pow128(n - 1);
      assert n > 2 ==> Pow128(n - 1) == 128 * Pow128(n - 2);
    } else if n > 1 {
      Pow128Rises(n - 1);
    }
  }

  lemma {:induction false} Pow128Rises(k: nat)
    requires k >= 1
    ensures Pow128(k) >= 128
  {
    if k > 1 {
      Pow128Rises(k - 1);
    }
  }

  // ---------- the value and the failures of a read ----------

  /** The number that a varint of n bytes denotes: byte k gives the k-th group of seven bits. */
  lemma {:induction false} ReadUpToAt(d: seq<byte>, budget: nat, k: nat)
    requires ReadUpTo(d, budget).Got? && k < ReadUpTo(d, budget).n
    ensures ReadUpTo(d, budget).v < Pow128(ReadUpTo(d, budget).n)
    ensures ReadUpTo(d, budget).v / Pow128(k) % 128 == d[k] % 128
    decreases budget
  {
    var r := ReadUpTo(d, budget);
    if d[0] >= 128 {
      var rest := ReadUpTo(d[1..], budget - 1);
      ReadUpToAt(d[1..], budget - 1, if k == 0 then 0 else k - 1);
      assert r.v == d[0] - 128 + 128 * rest.v && r.v / 128 == rest.v;
      if k > 0 {
        DivTwice(r.v, 128, Pow128(k - 1));
      }
    } else {
      assert Pow128(1) == 128 * Pow128(0);
    }
  }

  /** The groups of seven bits of the varint at the front, kept modulo 2^64. */
  lemma ReadAt(d: seq<byte>, k: nat)
    requires Read(d).Got? && k < Read(d).n
    ensures exists v: nat :: Read(d).v == v % U64 && v < Pow128(Read(d).n) && v / Pow128(k) % 128 == d[k] % 128
  {
    ReadUpToAt(d, 10, k);
    var v := ReadUpTo(d, 10).v;
    assert Read(d).v == v % U64;
  }

  lemma {:induction false} ReadUpToFails(d: seq<byte>, budget: nat)
    ensures ReadUpTo(d, budget) == Failed(UnexpectedEOF) <==> |d| < budget && forall k :: 0 <= k < |d| ==> d[k] >= 128
    ensures ReadUpTo(d, budget) == Failed(IntOverflow) <==> |d| >= budget && forall k :: 0 <= k < budget ==> d[k] >= 128
    ensures ReadUpTo(d, budget).Failed? ==> ReadUpTo(d, budget).error in {UnexpectedEOF, IntOverflow}
    decreases budget
  {
    if budget > 0 && d != [] && d[0] >= 128 {
      ReadUpToFails(d[1..], budget - 1);
      assert forall k :: 0 <= k < |d| - 1 ==> d[1..][k] == d[k + 1];
      assert forall k :: 0 < k < |d| ==> d[k] == d[1..][k - 1];
    }
  }

  /** A read fails exactly when ten bytes, or all there are, go on; which of the two tells the error. */
  lemma ReadFailsIff(d: seq<byte>)
    ensures Read(d) == Failed(UnexpectedEOF) <==> |d| < 10 && forall k :: 0 <= k < |d| ==> d[k] >= 128
    ensures Read(d) == Failed(IntOverflow) <==> |d| >= 10 && forall k :: 0 <= k < 10 ==> d[k] >= 128
    ensures Read(d).Failed? ==> Read(d).error in {UnexpectedEOF, IntOverflow}
  {
    hide ReadUpTo;
    ReadUpToFails(d, 10);
  }

  // ---------- exactly the well-formed prefixes are accepted ----------

  lemma {:induction false} ReadUpToPrefix(d: seq<byte>, budget: nat, rest: seq<byte>)
    requires budget <= 10
    requires ReadUpTo(d, budget).Got?
    ensures WellFormed(d[..ReadUpTo(d, budget).n])
    ensures ReadUpTo(d + rest, budget) == ReadUpTo(d, budget)
  {
    assert (d + rest)[0] == d[0];
    if d[0] >= 128 {
      ReadUpToPrefix(d[1..], budget - 1, rest);
      assert (d + rest)[1..] == d[1..] + rest;
      var n := ReadUpTo(d, budget).n;
      var inner := d[1..][..n - 1];
      assert inner == d[1..n];
      assert d[..n] == [d[0]] + inner;
    }
  }

  /** A varint that parses is well formed, and bytes after it do not matter. */
  lemma ReadPrefix(d: seq<byte>, rest: seq<byte>)
    requires Read(d).Got?
    ensures WellFormed(d[..Read(d).n])
    ensures Read(d + rest) == Read(d)
  {
    ReadUpToPrefix(d, 10, rest);
  }

  lemma {:induction false} ReadUpToWellFormed(s: seq<byte>, rest: seq<byte>, budget: nat)
    requires WellFormed(s) && |s| <= budget
    ensures ReadUpTo(s + rest, budget).Got? && ReadUpTo(s + rest, budget).n == |s|
  {
    if |s| > 1 {
      assert (s + rest)[1..] == s[1..] + rest;
      assert WellFormed(s[1..]);
      ReadUpToWellFormed(s[1..], rest, budget - 1);
    }
  }

  // ---------- the loops ----------

  lemma EncodeMore(w: nat)
    requires w >= 128
    ensures Encode(w) == [w % 128 + 128] + Encode(w / 128)
  {
  }

  lemma EncodeLast(w: nat)
    requires w < 128
    ensures Encode(w) == [w]
  {
  }

  /** Writes `v` so that it ends just before `offset`; returns where it begins. */
  method EncodeVarintFido2(dAtA: array<byte>, offset: nat, v: uint64) returns (base: nat)
    requires SovFido2(v) <= offset <= dAtA.Length
    modifies dAtA
    ensures base + |Encode(v)| == offset
    ensures dAtA[..base] == old(dAtA[..base])
    ensures dAtA[base..offset] == Encode(v)
    ensures dAtA[offset..] == old(dAtA[offset..])
  {
    SovIsLength(v);
    hide SovFido2, Encode;
    var o := offset - SovFido2(v);
    base := o;
    var w := v;
    ghost var out: seq<byte> := [];
    while w >= 128
      invariant 0 <= w < U64
      invariant base <= o && o + |Encode(w)| == offset
      invariant out == dAtA[base..o] && Encode(v) == out + Encode(w)
      invariant dAtA[..base] == old(dAtA[..base])
      invariant dAtA[offset..] == old(dAtA[offset..])
      decreases w
    {
      EncodeMore(w);
      dAtA[o] := w % 128 + 128;
      out := out + [w % 128 + 128];
      w := w / 128;
      o := o + 1;
    }
    EncodeLast(w);
    dAtA[o] := w;
  }

  /** What is still to be read, seen from `full` already accumulated over k bytes. */
  ghost function Resume(full: nat, k: nat, r: Reading): Reading {
    match r
    case Failed(e) => Failed(e)
    case Got(v, n) => Got(full + Pow128(k) * v, k + n)
  }

  lemma ResumeStart(r: Reading)
    ensures Resume(0, 0, r) == r
  {
  }

  /** The two ways the loop fails: ten bytes without an end, or no byte left. */
  lemma ResumeFailed(full: nat, k: nat, d: seq<byte>, budget: nat)
    ensures budget == 0 ==> Resume(full, k, ReadUpTo(d, budget)) == Failed(IntOverflow)
    ensures budget > 0 && d == [] ==> Resume(full, k, ReadUpTo(d, budget)) == Failed(UnexpectedEOF)
  {
  }

  lemma Distribute(p: nat, c: nat, v: nat)
    ensures p * (c + 128 * v) == c * p + 128 * p * v
  {
    assert p * (128 * v) == 128 * p * v;
  }

  /** A byte that continues the varint adds its seven bits to `full`. */
  lemma ResumeMore(full: nat, k: nat, d: seq<byte>, budget: nat)
    requires budget > 0 && d != [] && d[0] >= 128
    ensures Resume(full, k, ReadUpTo(d, budget))
         == Resume(full + Low7(d[0]) * Pow128(k), k + 1, ReadUpTo(d[1..], budget - 1))
  {
    var r := ReadUpTo(d[1..], budget - 1);
    if r.Got? {
      Distribute(Pow128(k), Low7(d[0]), r.v);
    }
  }

  /** A byte that ends it. */
  lemma ResumeLast(full: nat, k: nat, d: seq<byte>, budget: nat)
    requires budget > 0 && d != [] && d[0] < 128
    ensures Resume(full, k, ReadUpTo(d, budget)) == Got(full + Low7(d[0]) * Pow128(k), k + 1)
  {
    assert Pow128(k) * d[0] == d[0] * Pow128(k);
  }

  /** The bits an unsigned reading of the target variable keeps: uint64 and int, or int32. */
  function Cut(v: nat, wide: bool): nat {
    if wide then v % U64 else v % U32
  }

  /** `acc |= bits` where the bits do not overlap, cut to the width of the variable. */
  lemma Accumulate(full: nat, bits: nat, wide: bool)
    ensures Cut(Cut(full, wide) + bits, wide) == Cut(full + bits, wide)
  {
    if wide {
      assert full == full / U64 * U64 + full % U64;
    } else {
      assert full == full / U32 * U32 + full % U32;
    }
  }

  lemma ModU32(x: nat, q: nat, r: nat)
    requires x == q * U32 + r && r < U32
    ensures x % U32 == r
  {
  }

  lemma CutWord(full: nat, wide: bool)
    ensures Cut(full % U64, wide) == Cut(full, wide)
  {
    if !wide {
      var q, w := full / U64, full % U64;
      ModU32(full, q * U32 + w / U32, w % U32);
    }
  }

  /** `b & 0x7F` */
  function Low7(b: byte): nat {
    if b < 128 then b else b - 128
  }

  /** `x << shift`, before it is cut to the width of a variable. */
  function ShiftLeft(x: nat, shift: nat): nat {
    if shift == 0 then x else 2 * ShiftLeft(x, shift - 1)
  }

  lemma {:induction false} ShiftBySevens(x: nat, k: nat)
    ensures ShiftLeft(x, 7 * k) == x * Pow128(k)
  {
    hide ShiftLeft;
    if k == 0 {
      ShiftByNone(x);
    } else {
      ShiftByThree(x, 7 * k);
      ShiftByThree(x, 7 * k - 3);
      ShiftByOne(x, 7 * k - 6);
      ShiftBySevens(x, k - 1);
      assert x * (128 * Pow128(k - 1)) == 128 * (x * Pow128(k - 1));
    }
  }

  lemma ShiftByNone(x: nat)
    ensures ShiftLeft(x, 0) == x
  {
  }

  lemma ShiftByOne(x: nat, s: nat)
    requires s >= 1
    ensures ShiftLeft(x, s) == 2 * ShiftLeft(x, s - 1)
  {
  }

  lemma ShiftByThree(x: nat, s: nat)
    requires s >= 3
    ensures ShiftLeft(x, s) == 8 * ShiftLeft(x, s - 3)
  {
    ShiftByOne(x, s);
    ShiftByOne(x, s - 1);
    ShiftByOne(x, s - 2);
  }

  /** One pass of the decode loop, on byte d[0]. */
  lemma Absorb(full: nat, k: nat, d: seq<byte>, wide: bool)
    requires k < 10 && d != []
    ensures var bits := ShiftLeft(Low7(d[0]), 7 * k);
            && Cut(Cut(full, wide) + bits, wide) == Cut(full + bits, wide)
            && Resume(full, k, ReadUpTo(d, 10 - k))
               == if d[0] < 128 then Got(full + bits, k + 1)
                  else Resume(full + bits, k + 1, ReadUpTo(d[1..], 10 - (k + 1)))
  {
    var bits := ShiftLeft(Low7(d[0]), 7 * k);
    ShiftBySevens(Low7(d[0]), k);
    Accumulate(full, bits, wide);
    if d[0] < 128 {
      ResumeLast(full, k, d, 10 - k);
    } else {
      ResumeMore(full, k, d, 10 - k);
    }
  }

  /** The outcome of a read at index i, as the loops report it: the cut value and the next index. */
  function At(r: Reading, i: nat, wide: bool): Reading {
    match r
    case Failed(e) => Failed(e)
    case Got(v, n) => Got(Cut(v, wide), i + n)
  }

  /** Cutting to 64 bits before cutting to the target's width makes no difference. */
  lemma AtUncut(d: seq<byte>, i: nat, wide: bool)
    ensures At(Read(d), i, wide) == At(ReadUpTo(d, 10), i, wide)
  {
    hide ReadUpTo, Cut;
    var r := ReadUpTo(d, 10);
    if r.Got? {
      CutWord(r.v, wide);
    }
  }

  lemma CutZero(wide: bool)
    ensures Cut(0, wide) == 0
  {
  }

  /**
   The decode loop, inlined in the source at every varint it reads. `wide` tells whether the
   target is uint64 or int, or else int32; bits shifted beyond it are lost. The bits or-ed in lie
   above those already there, so the sum is the bitwise or.
   */
  method ReadVarint(dAtA: seq<byte>, iNdEx: nat, wide: bool) returns (r: Reading)
    requires iNdEx <= |dAtA|
    ensures r == At(Read(dAtA[iNdEx..]), iNdEx, wide)
  {
    hide Cut, ShiftLeft, Resume, Read, ReadUpTo, Low7, Pow128;
    CutZero(wide);
    AtUncut(dAtA[iNdEx..], iNdEx, wide);
    var acc, i, shift := 0, iNdEx, 0;
    ghost var full: nat, k: nat, d := 0, 0, dAtA[iNdEx..];
    ghost var whole := ReadUpTo(d, 10);
    ResumeStart(whole);
    while true
      invariant shift == 7 * k && k <= 10
      invariant i == iNdEx + k <= |dAtA| && d == dAtA[i..]
      invariant acc == Cut(full, wide)
      invariant whole == Resume(full, k, ReadUpTo(d, 10 - k))
      decreases 10 - k
    {
      if shift >= 64 {
        ResumeFailed(full, k, d, 10 - k);
        return Failed(IntOverflow);
      }
      if i >= |dAtA| {
        ResumeFailed(full, k, d, 10 - k);
        return Failed(UnexpectedEOF);
      }
      var b := dAtA[i];
      var bits := ShiftLeft(Low7(b), shift);
      Absorb(full, k, d, wide);
      acc := Cut(acc + bits, wide);
      if b < 128 {
        return Got(acc, i + 1);
      }
      full, i, k, shift, d := full + bits, i + 1, k + 1, shift + 7, d[1..];
    }
  }
}
