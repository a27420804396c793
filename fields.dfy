/** Bytes and the pure helpers of the handlebar-display listener: the flag-bit
    extractor, the XOR used by the frame checksum and the big-endian integer
    decoder. Python works on unbounded integers holding byte values; so does
    this module, and the bit-vector type `bv8` serves only as the independent
    reference the arithmetic definitions are proved against. */
module LcdFields {

  newtype byte = x: int | 0 <= x < 256

  /** Bit positions, within a frame's flag byte, of the three reported switches. */
  const FlagPas: nat := 1
  const FlagCruiseCtl: nat := 2
  const FlagSoftStart: nat := 3

  function Pow2(p: nat): (r: nat)
    ensures r >= 1
  {
    if p == 0 then 1 else 2 * Pow2(p - 1)
  }

  function Pow256(k: nat): (r: nat)
    ensures r >= 1
  {
    if k == 0 then 1 else 256 * Pow256(k - 1)
  }

  /** `n >> p` on a non-negative integer: `p` halvings, rounding down. */
  function Shr(n: nat, p: nat): (r: nat)
    ensures r <= n
  {
    if p == 0 then n else Shr(n / 2, p - 1)
  }

  /** `decode_flag(b, p)`, that is `(b >> p) & 1`: bit `p` of byte `b`; a
      position past the byte's width yields 0. */
  function DecodeFlag(b: byte, p: nat): (r: byte)
    ensures r == 0 || r == 1
  {
    (Shr(b as nat, p) % 2) as byte
  }

  /** Bitwise exclusive or of two non-negative integers, one bit per halving. */
  function XorNat(a: nat, b: nat): nat
    decreases a + b
  {
    if a == 0 then b
    else if b == 0 then a
    else 2 * XorNat(a / 2, b / 2) + (if a % 2 == b % 2 then 0 else 1)
  }

  lemma {:induction false} XorNatBound(a: nat, b: nat, k: nat)
    requires a < Pow2(k) && b < Pow2(k)
    ensures XorNat(a, b) < Pow2(k)
    decreases a + b
  {
    if a != 0 && b != 0 {
      XorNatBound(a / 2, b / 2, k - 1);
    }
  }

  /** `a ^ b` on two bytes. */
  function Xor(a: byte, b: byte): (r: byte)
  {
    assert Pow2(8) == 256;
    XorNatBound(a as nat, b as nat, 8);
    XorNat(a as nat, b as nat) as byte
  }

  // ---- the bit-vector reference

  lemma HalfShift(q: bv8)
    ensures (q >> 1) as int == q as int / 2
  {
  }

  lemma LowBit(q: bv8)
    ensures (q & 1) as int == q as int % 2
  {
  }

  lemma ShiftStep(q: bv8, p: nat)
    requires 0 < p <= 8
    ensures q >> p == (q >> 1) >> (p - 1)
  {
  }

  lemma {:induction false} ShrBeyond(n: nat, p: nat)
    requires n < Pow2(p)
    ensures Shr(n, p) == 0
  {
    if p > 0 {
      ShrBeyond(n / 2, p - 1);
    }
  }

  lemma {:induction false} Pow2AtLeast256(p: nat)
    requires p >= 8
    ensures Pow2(p) >= 256
  {
    if p > 8 {
      Pow2AtLeast256(p - 1);
    } else {
      assert Pow2(8) == 256;
    }
  }

  /** Repeated halving is the bit-vector right shift. */
  lemma {:induction false} ShrIsShift(q: bv8, p: nat)
    requires p <= 8
    ensures Shr(q as nat, p) == (q >> p) as int
  {
    if p > 0 {
      HalfShift(q);
      ShiftStep(q, p);
      ShrIsShift(q >> 1, p - 1);
    }
  }

  /** On every byte, given as its 8-bit pattern `q`, the flag extractor
      agrees with `(q >> p) & 1` on `bv8` at every position inside the byte,
      and is 0 beyond it. */
  lemma DecodeFlagIsBit(q: bv8, p: nat)
    ensures p < 8 ==> DecodeFlag(q as int as byte, p) as int == ((q >> p) & 1) as int
    ensures p >= 8 ==> DecodeFlag(q as int as byte, p) == 0
  {
    if p < 8 {
      ShrIsShift(q, p);
      LowBit(q >> p);
    } else {
      Pow2AtLeast256(p);
      ShrBeyond(q as nat, p);
    }
  }

  lemma XorNatHalves(a: nat, b: nat)
    ensures XorNat(a, b) % 2 == (a % 2 + b % 2) % 2
    ensures XorNat(a, b) / 2 == XorNat(a / 2, b / 2)
  {
    if a == 0 {
      assert XorNat(0, b / 2) == b / 2;
    } else if b == 0 {
      assert XorNat(a / 2, 0) == a / 2;
    } else {
      var high := XorNat(a / 2, b / 2);
      var low := if a % 2 == b % 2 then 0 else 1;
      assert XorNat(a, b) == 2 * high + low;
      assert low == (a % 2 + b % 2) % 2;
      assert (2 * high + low) % 2 == low && (2 * high + low) / 2 == high;
    }
  }

  lemma {:induction false} XorNatBit(a: nat, b: nat, p: nat)
    ensures Shr(XorNat(a, b), p) % 2 == (Shr(a, p) % 2 + Shr(b, p) % 2) % 2
  {
    XorNatHalves(a, b);
    if p > 0 {
      XorNatBit(a / 2, b / 2, p - 1);
    }
  }

  /** Each flag of `Xor(a, b)` is the sum modulo 2 of the same flag of `a`
      and of `b`: `Xor` is the bitwise exclusive or. */
  lemma XorIsBitwise(a: byte, b: byte, p: nat)
    ensures DecodeFlag(Xor(a, b), p) as int == (DecodeFlag(a, p) as int + DecodeFlag(b, p) as int) % 2
  {
    XorNatBit(a as nat, b as nat, p);
  }

  /** XOR with 0 changes nothing and XOR with itself gives 0. */
  lemma {:induction false} XorNatUnits(a: nat)
    ensures XorNat(a, 0) == a && XorNat(0, a) == a
    ensures XorNat(a, a) == 0
    decreases a
  {
    if a != 0 {
      XorNatUnits(a / 2);
    }
  }

  // ---- big-endian integers

  /** `int.from_bytes(bs, byteorder='big')`: the first byte is the most
      significant one. */
  function DecodeShort(bs: seq<byte>): (r: nat)
    ensures r < Pow256(|bs|)
  {
    if bs == [] then 0 else DecodeShort(bs[..|bs| - 1]) * 256 + bs[|bs| - 1] as int
  }

  /** The `k`-byte big-endian encoding of `n`: the inverse partner of
      DecodeShort (the listener itself never encodes). */
  function EncodeBigEndian(n: nat, k: nat): (bs: seq<byte>)
    ensures |bs| == k
  {
    if k == 0 then [] else EncodeBigEndian(n / 256, k - 1) + [(n % 256) as byte]
  }

  lemma DivBound(n: nat, m: nat)
    requires n < 256 * m
    ensures n / 256 < m
  {
  }

  lemma {:induction false} DecodeEncode(n: nat, k: nat)
    requires n < Pow256(k)
    ensures DecodeShort(EncodeBigEndian(n, k)) == n
  {
    if k > 0 {
      var bs := EncodeBigEndian(n, k);
      assert bs[..|bs| - 1] == EncodeBigEndian(n / 256, k - 1);
      DivBound(n, Pow256(k - 1));
      DecodeEncode(n / 256, k - 1);
    }
  }

  lemma {:induction false} EncodeDecode(bs: seq<byte>)
    ensures EncodeBigEndian(DecodeShort(bs), |bs|) == bs
  {
    if bs != [] {
      var front := bs[..|bs| - 1];
      var n := DecodeShort(bs);
      assert n / 256 == DecodeShort(front) && n % 256 == bs[|bs| - 1] as int;
      EncodeDecode(front);
      assert front + [bs[|bs| - 1]] == bs;
    }
  }

  /** Two bytes `[hi, lo]` decode to hi * 256 + lo. */
  lemma DecodeShortPair(hi: byte, lo: byte)
    ensures DecodeShort([hi, lo]) == hi as int * 256 + lo as int
  {
    assert [hi, lo][..1] == [hi];
    assert [hi][..0] == [];
  }

  /** Concrete readings: flag byte 2 sets only pedal assist; flag byte 14 sets
      all three reported switches. */
  lemma FlagExamples()
    ensures DecodeFlag(2, FlagPas) == 1 && DecodeFlag(2, FlagCruiseCtl) == 0 && DecodeFlag(2, FlagSoftStart) == 0
    ensures DecodeFlag(14, FlagPas) == 1 && DecodeFlag(14, FlagCruiseCtl) == 1 && DecodeFlag(14, FlagSoftStart) == 1
  {
  }
}
