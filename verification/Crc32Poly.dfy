// CRC registers (dep/zlib/crc32.c): a 32-bit word holds a polynomial of degree
// below 32 with the coefficient of x^0 in its most significant bit.
module Crc32Poly {
  import opened Bits
  import opened Gf2

  const POLY: bv32 := 0xedb8_8320
  const TOP: bv32 := 0x8000_0000

  // The polynomial 1.
  const ONE: bv32 := 0x8000_0000

  // Addition of registers.
  function Add(a: bv32, b: bv32): bv32 {
    a ^ b
  }

  // Is the coefficient selected by the mask m set?
  predicate Has(v: bv32, m: bv32) {
    v & m != 0
  }

  function Half(v: bv32): bv32 {
    v >> 1
  }

  // Multiplication by x modulo p(x).
  function X(v: bv32): bv32 {
    if Has(v, 1) then Add(Half(v), POLY) else Half(v)
  }

  // ----- Facts about words, each decided on its bits -----

  predicate IsMask(m: bv32) {
    m & (m - 1) == 0
  }

  // Every bit of v lies at or below the mask m.
  predicate Below(v: bv32, m: bv32) {
    v & ((m << 1) - 1) == v
  }

  // Every bit of v lies above the mask m.
  predicate Above(v: bv32, m: bv32) {
    v & ((m << 1) - 1) == 0
  }

  lemma XorAlgebra(a: bv32, b: bv32, c: bv32, d: bv32)
    ensures (a ^ b) ^ (c ^ d) == (a ^ c) ^ (b ^ d)
    ensures (a ^ b) ^ c == a ^ (b ^ c) && a ^ b == b ^ a
    ensures a ^ 0 == a && a ^ a == 0 && (a ^ b) ^ b == a
  {
  }

  lemma AddRules(a: bv32, b: bv32, c: bv32)
    ensures Add(Add(a, b), c) == Add(a, Add(b, c)) && Add(a, b) == Add(b, a)
    ensures Add(a, 0) == a && Add(a, a) == 0 && Add(Add(a, b), b) == a
  {
    XorAlgebra(a, b, c, 0);
  }

  lemma AddSwap(a: bv32, b: bv32, c: bv32, d: bv32)
    ensures Add(Add(a, b), Add(c, d)) == Add(Add(a, c), Add(b, d))
  {
    hide Add;
    AddRules(a, b, Add(c, d));
    AddRules(b, c, d);
    AddRules(c, b, d);
    AddRules(a, c, Add(b, d));
  }

  lemma XorMask(v: bv32, w: bv32, m: bv32)
    requires m & (m - 1) == 0
    ensures (v ^ w) & m != 0 <==> (v & m != 0) != (w & m != 0)
  {
  }

  lemma HasAdd(v: bv32, w: bv32, m: bv32)
    requires IsMask(m)
    ensures Has(Add(v, w), m) <==> Has(v, m) != Has(w, m)
  {
    XorMask(v, w, m);
  }

  lemma ShiftXor(v: bv32, w: bv32)
    ensures (v ^ w) >> 1 == (v >> 1) ^ (w >> 1)
  {
  }

  lemma HalfAdd(v: bv32, w: bv32)
    ensures Half(Add(v, w)) == Add(Half(v), Half(w))
  {
    ShiftXor(v, w);
  }

  lemma MaskHalf(m: bv32)
    requires IsMask(m)
    ensures IsMask(Half(m)) && IsMask(1)
  {
  }

  lemma BelowHalf(v: bv32, m: bv32)
    requires IsMask(m) && m != 0 && m != 1 && Below(v, m) && !Has(v, m)
    ensures Below(v, Half(m)) && Half(m) != 0
  {
  }

  lemma BelowOne(v: bv32)
    requires Below(v, 1) && !Has(v, 1)
    ensures v == 0
  {
  }

  lemma AboveHalf(v: bv32, m: bv32)
    requires IsMask(m) && m != 0 && Above(v, m)
    ensures !Has(v, m) && (Half(m) != 0 ==> Above(v, Half(m)))
  {
  }

  lemma HasHalf(v: bv32, m: bv32)
    requires IsMask(m) && m != 1
    ensures Has(Half(v), Half(m)) <==> Has(v, m)
  {
  }

  lemma HalfSmaller(m: bv32)
    requires m != 0
    ensures Half(m) < m
    ensures m != 1 ==> Half(m) != 0
    ensures m == 1 ==> Half(m) == 0
  {
  }

  lemma TopFacts(v: bv32)
    ensures IsMask(TOP) && Below(v, TOP) && Above(ONE, Half(TOP)) && Has(ONE, TOP)
    ensures !Has(Half(v), TOP)
  {
  }

  lemma ClearLow(v: bv32)
    requires Has(v, 1)
    ensures Half(Add(v, 1)) == Half(v) && !Has(Add(v, 1), 1)
  {
  }

  // ----- X is linear and invertible -----

  lemma XAdd(b: bv32, c: bv32)
    ensures X(Add(b, c)) == Add(X(b), X(c))
  {
    hide Add, Has, Half;
    assert IsMask(1);
    HasAdd(b, c, 1);
    HalfAdd(b, c);
    AddRules(Half(b), Half(c), POLY);
    AddRules(Half(b), POLY, Half(c));
    AddRules(POLY, Half(c), POLY);
    AddRules(Half(c), POLY, 0);
    AddSwap(Half(b), POLY, Half(c), POLY);
    AddRules(Add(Half(b), Half(c)), 0, 0);
  }

  lemma XZero()
    ensures X(0) == 0
  {
  }

  lemma XNonzero(v: bv32)
    requires v != 0
    ensures X(v) != 0
  {
  }

  // ----- Registers as polynomials -----

  // The coefficients selected by the mask m and the masks below it.
  function Coeffs(v: bv32, m: bv32): nat
    decreases m
  {
    if m == 0 then 0
    else HalfSmaller(m); (if Has(v, m) then 1 else 0) + 2 * Coeffs(v, Half(m))
  }

  function Poly(v: bv32): nat {
    Coeffs(v, TOP)
  }

  function Weight(m: bv32): nat
    decreases m
  {
    if m == 0 then 1 else HalfSmaller(m); 2 * Weight(Half(m))
  }

  lemma CoeffsUnfold(v: bv32, m: bv32)
    ensures Coeffs(v, m) == if m == 0 then 0 else (if Has(v, m) then 1 else 0) + 2 * Coeffs(v, Half(m))
  {
    hide Has, Half;
  }

  lemma WeightUnfold(m: bv32)
    ensures Weight(m) == if m == 0 then 1 else 2 * Weight(Half(m))
  {
    hide Half;
  }

  lemma XorOneBit(p: bool, q: bool, f: nat, g: nat)
    ensures (if p != q then 1 else 0) + 2 * Xor(f, g)
         == Xor((if p then 1 else 0) + 2 * f, (if q then 1 else 0) + 2 * g)
  {
    if !p && !q { XorDouble(f, g); }
  }

  lemma {:induction false} CoeffsXor(v: bv32, w: bv32, m: bv32)
    requires IsMask(m)
    ensures Coeffs(Add(v, w), m) == Xor(Coeffs(v, m), Coeffs(w, m))
    decreases m
  {
    hide Add, Has, Half, Xor, IsMask;
    if m == 0 { XorZero(0); }
    else {
      HalfSmaller(m);
      MaskHalf(m);
      HasAdd(v, w, m);
      CoeffsXor(v, w, Half(m));
      XorOneBit(Has(v, m), Has(w, m), Coeffs(v, Half(m)), Coeffs(w, Half(m)));
    }
  }

  lemma PolyXor(v: bv32, w: bv32)
    ensures Poly(Add(v, w)) == Xor(Poly(v), Poly(w))
  {
    hide Add, Xor, Coeffs;
    TopFacts(0);
    CoeffsXor(v, w, TOP);
  }

  lemma {:induction false} CoeffsSize(v: bv32, m: bv32)
    ensures Coeffs(v, m) < Weight(m)
    decreases m
  {
    hide Has, Half;
    if m != 0 {
      HalfSmaller(m);
      CoeffsSize(v, Half(m));
    }
  }

  lemma {:induction false} CoeffsZero(v: bv32, m: bv32)
    requires Coeffs(v, m) == 0 && m != 0 && IsMask(m) && Below(v, m)
    ensures v == 0
    decreases m
  {
    hide Has, Half, IsMask, Below;
    HalfSmaller(m);
    if m == 1 { BelowOne(v); }
    else {
      MaskHalf(m);
      BelowHalf(v, m);
      CoeffsZero(v, Half(m));
    }
  }

  lemma PolyInjective(v: bv32, w: bv32)
    requires Poly(v) == Poly(w)
    ensures v == w
  {
    hide Add, Xor, Coeffs, Below, IsMask;
    PolyXor(v, w);
    XorSelf(Poly(v));
    TopFacts(Add(v, w));
    CoeffsZero(Add(v, w), TOP);
    AddRules(v, w, 0);
    AddRules(w, 0, 0);
    AddRules(0, w, 0);
  }

  // Shifting out a zero bit doubles: every coefficient moves up one power.
  lemma {:induction false} CoeffsShift(v: bv32, m: bv32)
    requires m != 0 && IsMask(m) && !Has(v, 1)
    ensures Coeffs(Half(v), Half(m)) == Coeffs(v, m)
    decreases m
  {
    hide Has, Half, IsMask;
    HalfSmaller(m);
    if m != 1 {
      MaskHalf(m);
      HasHalf(v, m);
      CoeffsShift(v, Half(m));
    }
  }

  lemma PolyShift(v: bv32)
    requires !Has(v, 1)
    ensures Poly(Half(v)) == 2 * Poly(v)
  {
    hide Has, Half, IsMask;
    CoeffsShift(v, TOP) by { TopFacts(v); }
    TopFacts(v);
  }

  lemma {:induction false} CoeffsNone(v: bv32, m: bv32)
    requires IsMask(m) && (m != 0 ==> Above(v, m))
    ensures Coeffs(v, m) == 0
    decreases m
  {
    hide Has, Half, IsMask, Above;
    if m != 0 {
      HalfSmaller(m);
      MaskHalf(m);
      AboveHalf(v, m);
      CoeffsNone(v, Half(m));
    }
  }

  lemma {:induction false} CoeffsLow(m: bv32)
    requires m != 0 && IsMask(m)
    ensures 2 * Coeffs(1, m) == Weight(m)
    decreases m
  {
    hide Has, Half, IsMask;
    HalfSmaller(m);
    OneBit(m);
    if m == 1 {
      assert Coeffs(1, Half(1)) == 0 && Weight(Half(1)) == 1;
    } else {
      MaskHalf(m);
      CoeffsLow(Half(m));
    }
  }

  lemma OneBit(m: bv32)
    requires IsMask(m) && m != 0
    ensures Has(1, m) <==> m == 1
  {
  }

  // Four masks at a time, from a down to d.
  lemma Nibble(v: bv32, a: bv32, b: bv32, c: bv32, d: bv32, e: bv32)
    requires a != 0 && b != 0 && c != 0 && d != 0
    requires Half(a) == b && Half(b) == c && Half(c) == d && Half(d) == e
    ensures Coeffs(v, a) == (if Has(v, a) then 1 else 0) + (if Has(v, b) then 2 else 0)
      + (if Has(v, c) then 4 else 0) + (if Has(v, d) then 8 else 0) + 16 * Coeffs(v, e)
    ensures Weight(a) == 16 * Weight(e)
  {
    hide *;
    CoeffsUnfold(v, a);
    CoeffsUnfold(v, b);
    CoeffsUnfold(v, c);
    CoeffsUnfold(v, d);
    WeightUnfold(a);
    WeightUnfold(b);
    WeightUnfold(c);
    WeightUnfold(d);
  }

  lemma LowNibbles()
    ensures Coeffs(POLY, 0x8000) == 0x4c1 && Weight(0x8000) == 0x1_0000
  {
    assert Coeffs(POLY, 0) == 0 && Weight(0) == 1;
    hide Coeffs, Weight;
    Nibble(POLY, 0x8, 0x4, 0x2, 0x1, 0x0);
    assert Coeffs(POLY, 0x8) == 0x0 && Weight(0x8) == 0x10;
    Nibble(POLY, 0x80, 0x40, 0x20, 0x10, 0x8);
    assert Coeffs(POLY, 0x80) == 0x4 && Weight(0x80) == 0x100;
    Nibble(POLY, 0x800, 0x400, 0x200, 0x100, 0x80);
    assert Coeffs(POLY, 0x800) == 0x4c && Weight(0x800) == 0x1000;
    Nibble(POLY, 0x8000, 0x4000, 0x2000, 0x1000, 0x800);
    assert Coeffs(POLY, 0x8000) == 0x4c1 && Weight(0x8000) == 0x10000;
  }

  // POLY, with x^32 implied, is P.
  lemma PolyOfPoly()
    ensures Poly(POLY) == 0x04c1_1db7 && Weight(TOP) == 0x1_0000_0000
  {
    LowNibbles();
    hide Coeffs, Weight;
    Nibble(POLY, 0x80000, 0x40000, 0x20000, 0x10000, 0x8000);
    assert Coeffs(POLY, 0x80000) == 0x4c11 && Weight(0x80000) == 0x100000;
    Nibble(POLY, 0x800000, 0x400000, 0x200000, 0x100000, 0x80000);
    assert Coeffs(POLY, 0x800000) == 0x4c11d && Weight(0x800000) == 0x1000000;
    Nibble(POLY, 0x8000000, 0x4000000, 0x2000000, 0x1000000, 0x800000);
    assert Coeffs(POLY, 0x8000000) == 0x4c11db && Weight(0x8000000) == 0x10000000;
    Nibble(POLY, 0x80000000, 0x40000000, 0x20000000, 0x10000000, 0x8000000);
    assert Coeffs(POLY, 0x80000000) == 0x4c11db7 && Weight(0x80000000) == 0x100000000;
  }

  lemma PImplied()
    ensures Xor(0x04c1_1db7, P) == 0x1_0000_0000
  {
    XorDisjoint(0x04c1_1db7, 0x1_0000_0000, 32) by { PBounds(); }
    XorComm(0x04c1_1db7, 0x1_0000_0000);
    XorCancel(0x1_0000_0000, 0x04c1_1db7);
    XorComm(0x04c1_1db7, P);
  }

  // Words with no common bits add up.
  lemma {:induction false} XorDisjoint(f: nat, g: nat, k: nat)
    requires f < Pow2(k) && g == Pow2(k)
    ensures Xor(g, f) == g + f
    decreases k
  {
    if k == 0 { XorZero(1); }
    else { XorDisjoint(f / 2, g / 2, k - 1); }
  }

  lemma PolySmall()
    ensures Poly(0) == 0 && Poly(ONE) == 1 && Poly(1) == 0x8000_0000
  {
    CoeffsNone(0, TOP);
    CoeffsNone(ONE, Half(TOP));
    CoeffsLow(TOP);
    PolyOfPoly();
  }

  lemma PolySize(v: bv32)
    ensures Poly(v) < Pow2(32)
  {
    hide Coeffs, Weight;
    CoeffsSize(v, TOP);
    PolyOfPoly();
    PBounds();
  }

  // X really is multiplication by x: the difference from 2*Poly(v) is 0 or P.
  lemma PolyX(v: bv32)
    ensures 2 * Poly(v) == Xor(Poly(X(v)), if Has(v, 1) then P else 0)
  {
    hide Xor, Poly, Add, Has, Half;
    if Has(v, 1) {
      var w := Add(v, 1);
      ClearLow(v);
      AddRules(v, 1, 0);
      PolySmall();
      PolyOfPoly();
      PImplied();
      PolyXor(w, 1);
      PolyShift(w);
      PolyXor(Half(v), POLY);
      XorDouble(Poly(w), 0x8000_0000);
      XorAssoc(Poly(Half(v)), Poly(POLY), P);
    } else {
      PolyShift(v);
      XorZero(2 * Poly(v));
    }
  }

  lemma CongX(v: bv32)
    ensures Cong(2 * Poly(v), Poly(X(v)))
  {
    hide Poly, X, Xor, Mul, Has;
    PolyX(v);
    var t := if Has(v, 1) then P else 0;
    XorComm(Poly(X(v)), t);
    XorCancel(t, Poly(X(v)));
    MulOne(P);
    MulZeroLeft(P);
    assert Xor(2 * Poly(v), Poly(X(v))) == Mul(if Has(v, 1) then 1 else 0, P);
  }

  // ----- Products of registers -----

  // The sum of x^i * b over the coefficients of a selected by m and below.
  function Prod(a: bv32, b: bv32, m: bv32): bv32
    decreases m
  {
    if m == 0 then 0
    else HalfSmaller(m); Add(if Has(a, m) then b else 0, Prod(a, X(b), Half(m)))
  }

  function Times(a: bv32, b: bv32): bv32 {
    Prod(a, b, TOP)
  }

  lemma {:induction false} ProdCong(a: bv32, b: bv32, m: bv32)
    requires IsMask(m)
    ensures Cong(Mul(Coeffs(a, m), Poly(b)), Poly(Prod(a, b, m)))
    decreases m
  {
    hide *;
    ProdUnfold(a, b, m);
    CoeffsUnfold(a, m);
    if m == 0 {
      PolySmall();
      MulZeroLeft(Poly(b));
      CongRefl(0);
    } else {
      MaskHalf(m);
      ProdCong(a, X(b), Half(m));
      ProdCongStep(Has(a, m), Coeffs(a, Half(m)), b, Prod(a, X(b), Half(m)));
    }
  }

  lemma ProdCongStep(has: bool, rest: nat, b: bv32, r: bv32)
    requires Cong(Mul(rest, Poly(X(b))), Poly(r))
    ensures Cong(Mul((if has then 1 else 0) + 2 * rest, Poly(b)), Poly(Add(Pick(has, b), r)))
  {
    hide Poly, X, Mul, Xor, Cong, Add;
    var g := Poly(b);
    var t, u := if has then b else 0, if has then g else 0;
    PolySmall();
    assert Poly(t) == u;
    MulUnfold((if has then 1 else 0) + 2 * rest, g);
    MulDoubleRight(rest, g);
    CongX(b);
    CongMul(rest, 2 * g, Poly(X(b)));
    CongTrans(Mul(rest, 2 * g), Mul(rest, Poly(X(b))), Poly(r));
    PolyXor(t, r);
    CongRefl(u);
    CongXor(u, 2 * Mul(rest, g), u, Poly(r));
  }

  // Times is multiplication of polynomials modulo p(x) ...
  lemma TimesIsProduct(a: bv32, b: bv32)
    ensures Poly(Times(a, b)) < Pow2(32)
    ensures Cong(Mul(Poly(a), Poly(b)), Poly(Times(a, b)))
  {
    hide Prod, Coeffs;
    PolySize(Times(a, b));
    TopFacts(0);
    ProdCong(a, b, TOP);
  }

  // ... and the only register with that property.
  lemma TimesUnique(a: bv32, b: bv32, r: bv32)
    requires Cong(Mul(Poly(a), Poly(b)), Poly(r))
    ensures r == Times(a, b)
  {
    hide Poly, Cong, Mul, Times;
    TimesIsProduct(a, b);
    PolySize(r);
    CongSym(Mul(Poly(a), Poly(b)), Poly(r));
    CongTrans(Poly(r), Mul(Poly(a), Poly(b)), Poly(Times(a, b)));
    RemainderUnique(Poly(r), Poly(Times(a, b)));
    PolyInjective(r, Times(a, b));
  }

  lemma TimesComm(a: bv32, b: bv32)
    ensures Times(a, b) == Times(b, a)
  {
    hide Poly, Cong, Mul, Times;
    TimesIsProduct(a, b);
    MulComm(Poly(a), Poly(b));
    TimesUnique(b, a, Times(a, b));
  }

  // The coefficient chooses b or nothing.
  function Pick(has: bool, b: bv32): bv32 {
    if has then b else 0
  }

  lemma PickAdd(has: bool, b: bv32, c: bv32)
    ensures Pick(has, Add(b, c)) == Add(Pick(has, b), Pick(has, c)) && Add(0, 0) == 0
  {
    hide Add;
    AddRules(0, 0, 0);
  }

  lemma ProdUnfold(a: bv32, b: bv32, m: bv32)
    ensures m != 0 ==> Half(m) < m
    ensures Prod(a, b, m) == if m == 0 then 0 else Add(Pick(Has(a, m), b), Prod(a, X(b), Half(m)))
  {
    hide Add, Has, Half, X;
    if m != 0 { HalfSmaller(m); }
  }

  lemma {:induction false} ProdAdd(a: bv32, b: bv32, c: bv32, m: bv32)
    ensures Prod(a, Add(b, c), m) == Add(Prod(a, b, m), Prod(a, c, m))
    decreases m
  {
    hide *;
    ProdUnfold(a, b, m);
    ProdUnfold(a, c, m);
    ProdUnfold(a, Add(b, c), m);
    if m != 0 {
      XAdd(b, c);
      ProdAdd(a, X(b), X(c), Half(m));
      PickAdd(Has(a, m), b, c);
      AddSwap(Pick(Has(a, m), b), Prod(a, X(b), Half(m)), Pick(Has(a, m), c), Prod(a, X(c), Half(m)));
    } else {
      PickAdd(false, 0, 0);
    }
  }

  lemma TimesAdd(a: bv32, b: bv32, c: bv32)
    ensures Times(a, Add(b, c)) == Add(Times(a, b), Times(a, c))
  {
    hide Prod, Add;
    ProdAdd(a, b, c, TOP);
  }

  lemma {:induction false} ProdX(a: bv32, b: bv32, m: bv32)
    ensures Prod(a, X(b), m) == X(Prod(a, b, m))
    decreases m
  {
    XZero();
    hide X, Add, Has, Half;
    if m != 0 {
      HalfSmaller(m);
      ProdX(a, X(b), Half(m));
      XAdd(if Has(a, m) then b else 0, Prod(a, X(b), Half(m)));
    }
  }

  lemma {:induction false} ProdNone(a: bv32, b: bv32, m: bv32)
    requires IsMask(m) && (m != 0 ==> Above(a, m))
    ensures Prod(a, b, m) == 0
    decreases m
  {
    hide Has, Half, IsMask, Above, X, Add;
    AddRules(0, 0, 0);
    if m != 0 {
      HalfSmaller(m);
      MaskHalf(m);
      AboveHalf(a, m);
      ProdNone(a, X(b), Half(m));
    }
  }

  lemma TimesOne(b: bv32)
    ensures Times(ONE, b) == b
  {
    hide Has, Half, IsMask, Above, X, Add;
    TopFacts(0);
    MaskHalf(TOP);
    HalfSmaller(TOP);
    ProdNone(ONE, X(b), Half(TOP));
    AddRules(b, 0, 0);
  }

  // ----- Powers of x -----

  // x^n * v modulo p(x).
  function XPow(v: bv32, n: nat): bv32 {
    if n == 0 then v else X(XPow(v, n - 1))
  }

  lemma {:induction false} XPowSum(v: bv32, m: nat, n: nat)
    ensures XPow(XPow(v, m), n) == XPow(v, m + n)
  {
    hide X;
    if n > 0 { XPowSum(v, m, n - 1); }
  }

  lemma {:induction false} XPowAdd(v: bv32, w: bv32, n: nat)
    ensures XPow(Add(v, w), n) == Add(XPow(v, n), XPow(w, n))
  {
    hide X, Add;
    if n > 0 {
      XPowAdd(v, w, n - 1);
      XAdd(XPow(v, n - 1), XPow(w, n - 1));
    }
  }

  lemma {:induction false} XPowZero(n: nat)
    ensures XPow(0, n) == 0
  {
    XZero();
    hide X;
    if n > 0 { XPowZero(n - 1); }
  }

  // x is invertible, so no power of x times a nonzero register vanishes.
  lemma {:induction false} XPowNonzero(v: bv32, n: nat)
    requires v != 0
    ensures XPow(v, n) != 0
  {
    hide X;
    if n > 0 {
      XPowNonzero(v, n - 1);
      XNonzero(XPow(v, n - 1));
    }
  }

  lemma {:induction false} TimesXPow(a: bv32, v: bv32, n: nat)
    ensures Times(a, XPow(v, n)) == XPow(Times(a, v), n)
  {
    hide X, Prod;
    if n > 0 {
      TimesXPow(a, v, n - 1);
      ProdX(a, XPow(v, n - 1), TOP);
    }
  }

  // Multiplying by the register x^n is n steps of X.
  lemma PowerTimes(v: bv32, n: nat)
    ensures Times(XPow(ONE, n), v) == XPow(v, n)
  {
    hide Times, X;
    TimesComm(XPow(ONE, n), v);
    TimesXPow(v, ONE, n);
    TimesComm(v, ONE);
    TimesOne(v);
  }
}
