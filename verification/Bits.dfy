/**
 * Bit-level views: bit i of an integer, the bits of a byte payload, and two's complement.
 * Bit positions of a payload follow DBC numbering: position q is bit q % 8 of byte q / 8.
 */
module Bits {
  import opened Basics
  import opened Schemas

  // ---------- integers ----------

  function Pow2(n: nat): (p: nat)
    ensures 0 < p
  {
    if n == 0 then 1 else 2 * Pow2(n - 1)
  }

  /** `n & (1 << i)` is non-zero. */
  predicate Bit(n: nat, i: nat) {
    if i == 0 then n % 2 == 1 else Bit(n / 2, i - 1)
  }

  /** `n | (1 << i)`. */
  function SetBit(n: nat, i: nat): nat {
    if i == 0 then (if n % 2 == 1 then n else n + 1) else 2 * SetBit(n / 2, i - 1) + n % 2
  }

  lemma {:induction false} SetBitBits(n: nat, i: nat, j: nat)
    ensures Bit(SetBit(n, i), j) <==> j == i || Bit(n, j)
  {
    var m := SetBit(n, i);
    if i > 0 {
      assert m / 2 == SetBit(n / 2, i - 1) && m % 2 == n % 2;
      if j > 0 {
        SetBitBits(n / 2, i - 1, j - 1);
      }
    } else {
      assert m / 2 == n / 2;
    }
  }

  lemma {:induction false} SetBitBound(n: nat, i: nat, width: nat)
    requires n < Pow2(width) && i < width
    ensures SetBit(n, i) < Pow2(width)
  {
    if i > 0 {
      assert n / 2 < Pow2(width - 1);
      SetBitBound(n / 2, i - 1, width - 1);
      assert SetBit(n / 2, i - 1) + 1 <= Pow2(width - 1);
    } else {
      assert n % 2 == 0 ==> n + 1 < Pow2(width) by { assert Pow2(width) % 2 == 0; }
    }
  }

  lemma {:induction false} ZeroBits(i: nat)
    ensures !Bit(0, i)
  {
    if i > 0 {
      ZeroBits(i - 1);
    }
  }

  /** An integer below 2^width is determined by its low bits. */
  lemma {:induction false} BitsDetermine(m: nat, n: nat, width: nat)
    requires m < Pow2(width) && n < Pow2(width)
    requires forall i :: 0 <= i < width ==> (Bit(m, i) <==> Bit(n, i))
    ensures m == n
  {
    if width > 0 {
      assert Bit(m, 0) <==> Bit(n, 0);
      forall i | 0 <= i < width - 1 ensures Bit(m / 2, i) <==> Bit(n / 2, i) {
        assert Bit(m, i + 1) <==> Bit(n, i + 1);
      }
      BitsDetermine(m / 2, n / 2, width - 1);
    }
  }

  /** The top bit of a field splits its range in half. */
  lemma {:induction false} TopBit(n: nat, width: Positive)
    requires n < Pow2(width)
    ensures Bit(n, width - 1) <==> Pow2(width - 1) <= n
  {
    if width > 1 {
      TopBit(n / 2, width - 1);
    }
  }

  // ---------- two's complement ----------

  function RawMinimum(signed: bool, width: Positive): int {
    if signed then 0 - Pow2(width - 1) else 0
  }

  function RawMaximum(signed: bool, width: Positive): int {
    (if signed then Pow2(width - 1) else Pow2(width)) - 1
  }

  /** `raw & ((1 << width) - 1)`, which Python defines for negative integers as well. */
  function Mask(raw: int, width: nat): nat {
    raw % Pow2(width)
  }

  /** Reading a field back: a set top bit of a signed field means a negative value. */
  function Unmask(encoded: nat, signed: bool, width: Positive): int {
    if signed && Bit(encoded, width - 1) then encoded - Pow2(width) else encoded
  }

  lemma MaskBound(raw: int, width: nat)
    ensures Mask(raw, width) < Pow2(width)
  {}

  lemma MaskInRange(raw: int, signed: bool, width: Positive)
    requires RawMinimum(signed, width) <= raw <= RawMaximum(signed, width)
    ensures Mask(raw, width) == if raw < 0 then raw + Pow2(width) else raw
  {
    var p := Pow2(width);
    assert p == 2 * Pow2(width - 1);
    if raw < 0 {
      assert raw % p == raw + p by { ModOf(raw, -1, p, raw + p); }
    } else {
      assert raw % p == raw by { ModOf(raw, 0, p, raw); }
    }
  }

  lemma ModOf(a: int, q: int, p: Positive, rest: int)
    requires a == q * p + rest && 0 <= rest < p
    ensures a % p == rest
  {
    var d := a / p - q;
    assert a == (a / p) * p + a % p;
    assert d * p == rest - a % p;
    ProductOrder(d, 1, p);
    ProductOrder(-1, d, p);
  }

  /** Masking and unmasking are inverse on the raw range of a field. */
  lemma UnmaskMask(raw: int, signed: bool, width: Positive)
    requires RawMinimum(signed, width) <= raw <= RawMaximum(signed, width)
    ensures Unmask(Mask(raw, width), signed, width) == raw
  {
    MaskInRange(raw, signed, width);
    MaskBound(raw, width);
    TopBit(Mask(raw, width), width);
  }

  lemma MaskUnmask(encoded: nat, signed: bool, width: Positive)
    requires encoded < Pow2(width)
    ensures RawMinimum(signed, width) <= Unmask(encoded, signed, width) <= RawMaximum(signed, width)
    ensures Mask(Unmask(encoded, signed, width), width) == encoded
  {
    TopBit(encoded, width);
    MaskInRange(Unmask(encoded, signed, width), signed, width);
  }

  // ---------- bytes ----------

  /** `1 << k` as a byte. */
  function ByteMask(k: nat): Byte
    requires k < 8
  {
    match k
    case 0 => 1
    case 1 => 2
    case 2 => 4
    case 3 => 8
    case 4 => 16
    case 5 => 32
    case 6 => 64
    case 7 => 128
  }

  predicate ByteBit(b: Byte, k: nat)
    requires k < 8
  {
    b & ByteMask(k) != 0
  }

  lemma OrMaskBits(b: Byte, k: nat, j: nat)
    requires k < 8 && j < 8
    ensures ByteBit(b | ByteMask(k), j) <==> j == k || ByteBit(b, j)
  {}

  lemma ByteDetermined(b: Byte, c: Byte)
    requires forall k :: 0 <= k < 8 ==> (ByteBit(b, k) <==> ByteBit(c, k))
    ensures b == c
  {
    assert ByteBit(b, 0) <==> ByteBit(c, 0);
    assert ByteBit(b, 1) <==> ByteBit(c, 1);
    assert ByteBit(b, 2) <==> ByteBit(c, 2);
    assert ByteBit(b, 3) <==> ByteBit(c, 3);
    assert ByteBit(b, 4) <==> ByteBit(c, 4);
    assert ByteBit(b, 5) <==> ByteBit(c, 5);
    assert ByteBit(b, 6) <==> ByteBit(c, 6);
    assert ByteBit(b, 7) <==> ByteBit(c, 7);
  }

  // ---------- payloads ----------

  predicate BitAt(payload: seq<Byte>, q: nat)
    requires q < 8 * |payload|
  {
    ByteBit(payload[q / 8], q % 8)
  }

  /** `payload[q // 8] |= 1 << (q % 8)`. */
  function SetBitAt(payload: seq<Byte>, q: nat): (s: seq<Byte>)
    requires q < 8 * |payload|
    ensures |s| == |payload|
  {
    payload[q / 8 := payload[q / 8] | ByteMask(q % 8)]
  }

  lemma SetBitAtBits(payload: seq<Byte>, q: nat, p: nat)
    requires q < 8 * |payload| && p < 8 * |payload|
    ensures BitAt(SetBitAt(payload, q), p) <==> p == q || BitAt(payload, p)
  {
    if q / 8 == p / 8 {
      OrMaskBits(payload[q / 8], q % 8, p % 8);
    }
  }

  function Zeros(n: nat): (s: seq<Byte>)
    ensures |s| == n
  {
    seq(n, _ => 0)
  }

  lemma ZerosBits(n: nat, q: nat)
    requires q < 8 * n
    ensures !BitAt(Zeros(n), q)
  {}

  /** Two payloads of one length with the same bits are equal. */
  lemma PayloadDetermined(a: seq<Byte>, b: seq<Byte>)
    requires |a| == |b|
    requires forall q :: 0 <= q < 8 * |a| ==> (BitAt(a, q) <==> BitAt(b, q))
    ensures a == b
  {
    forall i | 0 <= i < |a| ensures a[i] == b[i] {
      forall k | 0 <= k < 8 ensures ByteBit(a[i], k) <==> ByteBit(b[i], k) {
        var q := 8 * i + k;
        assert q / 8 == i && q % 8 == k;
        assert BitAt(a, q) <==> BitAt(b, q);
      }
      ByteDetermined(a[i], b[i]);
    }
  }
}
