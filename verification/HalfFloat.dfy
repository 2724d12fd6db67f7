/** IEEE 754 half to single precision (crates/rkvm-vision/src/rec.rs), on bit patterns. */
module HalfFloat {
  import opened Arith

  lemma {:induction false} Pow2Add(a: nat, b: nat)
    ensures Pow2(a + b) == Pow2(a) * Pow2(b)
  {
    if a > 0 {
      Pow2Add(a - 1, b);
      assert Pow2(a + b) == 2 * Pow2((a - 1) + b);
    }
  }

  lemma Pow2Small()
    ensures Pow2(10) == 0x400 && Pow2(13) == 0x2000 && Pow2(23) == 0x80_0000
  {
    assert Pow2(4) == 16;
    assert Pow2(8) == 256;
    assert Pow2(10) == 0x400;
    assert Pow2(13) == 0x2000;
    Pow2Add(13, 10);
  }

  /** A `u16` and a `u32`. */
  type Half = b: nat | b < 0x1_0000
  type Single = b: nat | b < 0x1_0000_0000

  function HalfExp(b: Half): nat { b / 0x400 % 0x20 }
  function HalfMant(b: Half): nat { b % 0x400 }
  function HalfNegative(b: Half): bool { b >= 0x8000 }

  function SingleExp(b: Single): nat { b / 0x80_0000 % 0x100 }
  function SingleMant(b: Single): nat { b % 0x80_0000 }
  function SingleNegative(b: Single): bool { b >= 0x8000_0000 }

  /** The place of the leading one, `31 - m.leading_zeros()`. */
  function TopBit(m: nat): (t: nat)
    requires m > 0
    ensures Pow2(t) <= m < Pow2(t + 1)
  {
    if m == 1 then 0 else 1 + TopBit(m / 2)
  }

  lemma TopBitFits(m: nat)
    requires 0 < m < 0x400
    ensures TopBit(m) < 10
  {
    Pow2Small();
    if TopBit(m) >= 10 { Pow2Grows(10, TopBit(m)); assert false; }
  }

  /** The exponent and mantissa fields `f16_to_f32` builds; shifts and the masking of the leading one
      are written as arithmetic. */
  function Widen(exp: nat, mant: nat): (r: (nat, nat))
    requires exp < 0x20 && mant < 0x400
    ensures r.0 < 0x100 && r.1 < 0x80_0000
  {
    if exp == 0 && mant == 0 then (0, 0)
    else if exp == 0 then
      var top := TopBit(mant);
      TopBitFits(mant);
      (top + 103, mant * Pow2(23 - top) % 0x80_0000)
    else if exp == 0x1f then (0xff, mant * 0x2000)
    else (exp + 112, mant * 0x2000)
  }

  function F16ToF32(b: Half): (r: Single)
    ensures SingleNegative(r) == HalfNegative(b)
    ensures (SingleExp(r), SingleMant(r)) == Widen(HalfExp(b), HalfMant(b))
  {
    var (e, m) := Widen(HalfExp(b), HalfMant(b));
    FieldsApart(e, m);
    (if HalfNegative(b) then 0x8000_0000 else 0) + e * 0x80_0000 + m
  }

  /** Exponent and mantissa fields do not run into each other or into the sign. */
  lemma FieldsApart(e: nat, m: nat)
    requires e < 0x100 && m < 0x80_0000
    ensures var b := e * 0x80_0000 + m;
            && b < 0x8000_0000
            && b / 0x80_0000 == e && b % 0x80_0000 == m
            && (b + 0x8000_0000) / 0x80_0000 == e + 0x100 && (b + 0x8000_0000) % 0x80_0000 == m
  {
  }

  // ---- Values (section 3.4 of IEEE 754-2019) ----

  /** The magnitude of a finite half, in units of 2^-24. */
  function HalfUnits(b: Half): nat { Units(HalfExp(b), HalfMant(b), 0x400) }

  /** The magnitude of a finite single, in units of 2^-149. */
  function SingleUnits(b: Single): nat { Units(SingleExp(b), SingleMant(b), 0x80_0000) }

  /** The subnormals count in single units; above them a hidden one joins the mantissa. */
  function Units(exp: nat, mant: nat, hidden: nat): nat {
    if exp == 0 then mant else (hidden + mant) * Pow2(exp - 1)
  }

  lemma NormalUnits(exp: nat, mant: nat)
    requires 0 < exp < 0x1f && mant < 0x400
    ensures (0x80_0000 + mant * 0x2000) * Pow2(exp + 111) == (0x400 + mant) * Pow2(exp - 1) * Pow2(125)
  {
    Pow2Small();
    Pow2Add(13, exp + 111);
    Pow2Add(exp - 1, 125);
    Regroup(0x400 + mant, Pow2(13), Pow2(exp + 111));
    Regroup(0x400 + mant, Pow2(exp - 1), Pow2(125));
  }

  lemma Regroup(a: nat, b: nat, c: nat)
    ensures a * b * c == a * (b * c)
  {
  }

  /** Shifted up to bit 23, the leading one stands alone above the mantissa field. */
  lemma ShiftedTop(mant: nat, top: nat)
    requires top <= 23 && Pow2(top) <= mant < Pow2(top + 1)
    ensures 0x80_0000 <= mant * Pow2(23 - top) < 0x100_0000
  {
    Pow2Small();
    var p := Pow2(23 - top);
    Pow2Add(top, 23 - top);
    MulMono(Pow2(top), mant, p);
    MulMono(mant + 1, Pow2(top + 1), p);
    DoubleProduct(Pow2(top), p);
    assert (mant + 1) * p == mant * p + p;
  }

  lemma DoubleProduct(a: nat, b: nat)
    ensures 2 * a * b == 2 * (a * b)
  {
  }

  lemma SubnormalUnits(mant: nat)
    requires 0 < mant < 0x400
    ensures TopBit(mant) < 10
    ensures var top := TopBit(mant);
            (0x80_0000 + mant * Pow2(23 - top) % 0x80_0000) * Pow2(top + 102) == mant * Pow2(125)
  {
    var top := TopBit(mant);
    TopBitFits(mant);
    ShiftedTop(mant, top);
    var scaled := mant * Pow2(23 - top);
    DivUnique(scaled, 0x80_0000, 1, scaled - 0x80_0000);
    Pow2Add(23 - top, top + 102);
    Regroup(mant, Pow2(23 - top), Pow2(top + 102));
  }

  lemma FieldsExact(e: nat, m: nat)
    requires e < 0x20 && m < 0x400
    ensures var (e', m') := Widen(e, m);
            && (e != 0x1f ==> e' != 0xff && Units(e', m', 0x80_0000) == Units(e, m, 0x400) * Pow2(125))
            && (e == 0x1f ==> e' == 0xff && (m' == 0 <==> m == 0))
  {
    if e == 0 && m > 0 {
      SubnormalUnits(m);
    } else if 0 < e < 0x1f {
      NormalUnits(e, m);
    }
  }

  /** The conversion is exact: a finite half keeps its sign and its value, an infinity stays one and
      a NaN stays one. */
  lemma ConversionExact(b: Half)
    ensures var s := F16ToF32(b);
            && SingleNegative(s) == HalfNegative(b)
            && (HalfExp(b) != 0x1f ==> SingleExp(s) != 0xff && SingleUnits(s) == HalfUnits(b) * Pow2(125))
            && (HalfExp(b) == 0x1f ==> SingleExp(s) == 0xff && (SingleMant(s) == 0 <==> HalfMant(b) == 0))
  {
    FieldsExact(HalfExp(b), HalfMant(b));
  }

  // ---- Order ----

  /** One more in the bits is strictly more in value, across exponent boundaries too. */
  lemma NextHalf(b: Half)
    requires b < 0x7bff
    ensures HalfUnits(b) < HalfUnits(b + 1)
  {
    if HalfMant(b) < 0x3ff {
      assert HalfExp(b + 1) == HalfExp(b) && HalfMant(b + 1) == HalfMant(b) + 1;
      if HalfExp(b) > 0 { StepUnits(HalfMant(b), Pow2(HalfExp(b) - 1)); }
    } else {
      assert HalfExp(b + 1) == HalfExp(b) + 1 && HalfMant(b + 1) == 0;
    }
  }

  lemma StepUnits(m: nat, p: nat)
    requires p > 0
    ensures (0x400 + m) * p < (0x400 + (m + 1)) * p
  {
  }

  /** Non-negative finite halves order like their bits. */
  lemma {:induction false} HalvesOrderLikeBits(a: Half, b: Half)
    requires a < b <= 0x7bff
    ensures HalfUnits(a) < HalfUnits(b)
    decreases b - a
  {
    NextHalf(a);
    if a + 1 < b { HalvesOrderLikeBits(a + 1, b); }
  }
}
