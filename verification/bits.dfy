/** Most-significant-bit-first bit strings and the bytes they encode. */
module Bits {
  import opened Arith

  /** An unsigned 8-bit value (`u8`). */
  type Byte = x: int | 0 <= x < 256

  function Pow2(k: nat): (r: nat)
    ensures r >= 1
  {
    if k == 0 then 1 else 2 * Pow2(k - 1)
  }

  /** `128 >> k`: the mask of bit `k` of a byte, counting from the most significant bit. */
  function Mask(k: nat): (r: Byte)
    requires k < 8
    ensures r == Pow2(7 - k)
  {
    Pow2Small(7 - k);
    Pow2(7 - k)
  }

  lemma Pow2Small(k: nat)
    requires k < 8
    ensures Pow2(k) <= 128
  {
    Pow2Add(k, 7 - k);
    assert Pow2(7) == 128;
    MulSign(Pow2(7 - k), Pow2(k));
  }

  /** The number a bit string denotes when read most significant bit first. */
  function Val(bits: seq<bool>): (r: nat)
    ensures r < Pow2(|bits|)
  {
    if |bits| == 0 then 0
    else (if bits[0] then Pow2(|bits| - 1) else 0) + Val(bits[1..])
  }

  /** Whether bit `k` (most significant first) of an 8-bit value is set. */
  predicate BitSet(b: Byte, k: nat)
    requires k < 8
  {
    (b / Mask(k)) % 2 == 1
  }

  lemma Pow2Add(a: nat, b: nat)
    ensures Pow2(a + b) == Pow2(a) * Pow2(b)
  {
    if a > 0 {
      Pow2Add(a - 1, b);
    }
  }

  lemma ShiftedParity(m: nat, q: nat, rest: nat)
    requires q > 0
    ensures ((2 * m * q + rest) / q) % 2 == (rest / q) % 2
  {
    DivAddMultiple(2 * m, q, rest);
  }

  lemma ValSplit(bits: seq<bool>)
    requires |bits| > 0
    ensures Val(bits) == (if bits[0] then Pow2(|bits| - 1) else 0) + Val(bits[1..])
  {
  }

  lemma TopBit(top: nat, rest: nat, q: nat, b: bool)
    requires q > 0 && rest < q && top == (if b then q else 0)
    ensures ((top + rest) / q) % 2 == (if b then 1 else 0)
  {
    ModSmall(rest, q);
    if b {
      DivUnique(top + rest, q, 1, rest);
    } else {
      assert top + rest == rest;
    }
  }

  lemma LowerBit(top: nat, rest: nat, q: nat, m: nat)
    requires q > 0 && top == 2 * m * q
    ensures ((top + rest) / q) % 2 == (rest / q) % 2
  {
    ShiftedParity(m, q, rest);
  }

  lemma HighPow(n: nat, k: nat, b: bool)
    requires 0 < k < n
    ensures (if b then Pow2(n - 1) else 0) == 2 * (if b then Pow2(k - 1) else 0) * Pow2(n - 1 - k)
  {
    Pow2Add(k, n - 1 - k);
  }

  /** Reading back bit `k` of a most-significant-first bit string recovers it. */
  lemma {:induction false} ValBit(bits: seq<bool>, k: nat)
    requires k < |bits|
    ensures (Val(bits) / Pow2(|bits| - 1 - k)) % 2 == (if bits[k] then 1 else 0)
  {
    if k == 0 {
      ValBitFirst(bits);
    } else {
      ValBit(bits[1..], k - 1);
      ValBitLater(bits, k);
    }
  }

  /** The first bit is the quotient by the weight of the first position. */
  lemma ValBitFirst(bits: seq<bool>)
    requires 0 < |bits|
    ensures (Val(bits) / Pow2(|bits| - 1)) % 2 == (if bits[0] then 1 else 0)
  {
    var q := Pow2(|bits| - 1);
    var rest := Val(bits[1..]);
    var top := if bits[0] then q else 0;
    ValSplit(bits);
    assert Val(bits) == top + rest;
    TopBit(top, rest, q, bits[0]);
  }

  /** A later bit reads the same in the whole string as in its tail: the first bit
      contributes an even multiple of the bit's weight. */
  lemma ValBitLater(bits: seq<bool>, k: nat)
    requires 0 < k < |bits|
    requires (Val(bits[1..]) / Pow2(|bits| - 1 - k)) % 2 == (if bits[1..][k - 1] then 1 else 0)
    ensures (Val(bits) / Pow2(|bits| - 1 - k)) % 2 == (if bits[k] then 1 else 0)
  {
    var n := |bits|;
    var top := if bits[0] then Pow2(n - 1) else 0;
    ValSplit(bits);
    assert bits[1..][k - 1] == bits[k];
    HighPow(n, k, bits[0]);
    LowerBit(top, Val(bits[1..]), Pow2(n - 1 - k), if bits[0] then Pow2(k - 1) else 0);
  }

  /** The 8-bit value of eight bits. */
  lemma ByteVal(bits: seq<bool>)
    requires |bits| == 8
    ensures Val(bits) < 256
  {
  }

  /** The byte eight bits denote. */
  function ByteOf(bits: seq<bool>): (r: Byte)
    requires |bits| == 8
    ensures forall k :: 0 <= k < 8 ==> (BitSet(r, k) <==> bits[k])
  {
    forall k | 0 <= k < 8
      ensures BitSet(Val(bits), k) <==> bits[k]
    {
      PackedBit(bits, k);
    }
    Val(bits)
  }

  /** Bit `k` of the byte packed from eight bits is exactly `bits[k]`. */
  lemma PackedBit(bits: seq<bool>, k: nat)
    requires |bits| == 8 && k < 8
    ensures Val(bits) < 256
    ensures BitSet(Val(bits), k) <==> bits[k]
  {
    ValBit(bits, k);
  }

  /** Setting a clear bit adds exactly its mask: `buf += 128 >> k` sets bit `k`. */
  lemma {:induction false} ValSetBit(bits: seq<bool>, k: nat)
    requires k < |bits| && !bits[k]
    ensures Val(bits[k := true]) == Val(bits) + Pow2(|bits| - 1 - k)
  {
    if k > 0 {
      assert bits[k := true][1..] == bits[1..][k - 1 := true];
      ValSetBit(bits[1..], k - 1);
    } else {
      assert bits[k := true][1..] == bits[1..];
    }
  }

  /** All-clear bits denote zero. */
  lemma {:induction false} ValZero(bits: seq<bool>)
    requires forall i :: 0 <= i < |bits| ==> !bits[i]
    ensures Val(bits) == 0
  {
    if |bits| > 0 {
      ValZero(bits[1..]);
    }
  }
}
