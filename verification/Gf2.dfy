// Polynomials over GF(2) as naturals: bit i is the coefficient of x^i, addition
// is exclusive or. Arithmetic modulo the CRC-32 polynomial.
module Gf2 {
  import opened Bits

  // x^32 + x^26 + x^23 + x^22 + x^16 + x^12 + x^11 + x^10 + x^8 + x^7 + x^5 + x^4 + x^2 + x + 1
  const P: nat := 0x1_04c1_1db7

  function Mul(f: nat, g: nat): nat
    decreases f
  {
    if f == 0 then 0 else Xor(if f % 2 == 1 then g else 0, 2 * Mul(f / 2, g))
  }

  // ----- Addition -----

  lemma {:induction false} XorZero(f: nat)
    ensures Xor(f, 0) == f && Xor(0, f) == f
  {
    if f != 0 { XorZero(f / 2); }
  }

  lemma {:induction false} XorSelf(f: nat)
    ensures Xor(f, f) == 0
  {
    if f != 0 { XorSelf(f / 2); }
  }

  lemma {:induction false} XorComm(f: nat, g: nat)
    ensures Xor(f, g) == Xor(g, f)
    decreases f + g
  {
    if f != 0 || g != 0 { XorComm(f / 2, g / 2); }
  }

  lemma {:induction false} XorAssoc(f: nat, g: nat, h: nat)
    ensures Xor(Xor(f, g), h) == Xor(f, Xor(g, h))
    decreases f + g + h
  {
    if f + g + h > 0 {
      XorAssoc(f / 2, g / 2, h / 2);
      XorParts(f, g);
      XorParts(g, h);
      XorParts(Xor(f, g), h);
      XorParts(f, Xor(g, h));
    }
  }

  lemma XorParts(f: nat, g: nat)
    ensures Xor(f, g) % 2 == (f % 2 + g % 2) % 2
    ensures Xor(f, g) / 2 == Xor(f / 2, g / 2)
  {
  }

  // Exchanging the middle terms of a sum of four.
  lemma XorSwap(a: nat, b: nat, c: nat, d: nat)
    ensures Xor(Xor(a, b), Xor(c, d)) == Xor(Xor(a, c), Xor(b, d))
  {
    hide Xor;
    XorAssoc(a, b, Xor(c, d));
    XorAssoc(b, c, d);
    XorComm(b, c);
    XorAssoc(c, b, d);
    XorAssoc(a, c, Xor(b, d));
  }

  lemma XorCancel(a: nat, b: nat)
    ensures Xor(Xor(a, b), b) == a
  {
    hide Xor;
    XorAssoc(a, b, b);
    XorSelf(b);
    XorZero(a);
  }

  lemma XorDouble(f: nat, g: nat)
    ensures 2 * Xor(f, g) == Xor(2 * f, 2 * g)
  {
  }

  // ----- Multiplication -----

  lemma {:induction false} MulZero(f: nat)
    ensures Mul(f, 0) == 0
  {
    if f != 0 { MulZero(f / 2); }
  }

  lemma MulOne(g: nat)
    ensures Mul(1, g) == g
  {
    XorZero(g);
  }

  lemma MulDoubleLeft(f: nat, g: nat)
    ensures Mul(2 * f, g) == 2 * Mul(f, g)
  {
    if f != 0 { XorZero(2 * Mul(f, g)); }
  }

  lemma {:induction false} MulDoubleRight(f: nat, g: nat)
    ensures Mul(f, 2 * g) == 2 * Mul(f, g)
  {
    if f != 0 {
      MulDoubleRight(f / 2, g);
      XorDouble(if f % 2 == 1 then g else 0, 2 * Mul(f / 2, g));
    }
  }

  lemma {:induction false} MulXorRight(f: nat, g: nat, h: nat)
    ensures Mul(f, Xor(g, h)) == Xor(Mul(f, g), Mul(f, h))
  {
    hide Xor;
    if f == 0 { XorSelf(0); }
    else {
      MulXorRight(f / 2, g, h);
      var b := f % 2 == 1;
      XorSelf(0);
      XorDouble(Mul(f / 2, g), Mul(f / 2, h));
      XorSwap(if b then g else 0, 2 * Mul(f / 2, g), if b then h else 0, 2 * Mul(f / 2, h));
    }
  }

  lemma {:induction false} MulXorLeft(f: nat, g: nat, h: nat)
    ensures Mul(Xor(f, g), h) == Xor(Mul(f, h), Mul(g, h))
    decreases f + g
  {
    if f == 0 || g == 0 {
      XorZero(f);
      XorZero(g);
      XorZero(Mul(f, h));
      XorZero(Mul(g, h));
    } else {
      MulXorLeft(f / 2, g / 2, h);
      XorParts(f, g);
      MulUnfold(Xor(f, g), h);
      hide Xor;
      var tf, tg := if f % 2 == 1 then h else 0, if g % 2 == 1 then h else 0;
      XorDouble(Mul(f / 2, h), Mul(g / 2, h));
      XorSwap(tf, 2 * Mul(f / 2, h), tg, 2 * Mul(g / 2, h));
      XorSelf(h);
      XorZero(h);
      XorSelf(0);
      assert Xor(tf, tg) == if (f % 2 + g % 2) % 2 == 1 then h else 0;
    }
  }

  lemma MulUnfold(f: nat, g: nat)
    ensures Mul(f, g) == Xor(if f % 2 == 1 then g else 0, 2 * Mul(f / 2, g))
  {
    if f == 0 { XorZero(0); }
  }

  lemma {:induction false} MulAssoc(f: nat, g: nat, h: nat)
    ensures Mul(Mul(f, g), h) == Mul(f, Mul(g, h))
  {
    if f != 0 {
      MulAssoc(f / 2, g, h);
      MulXorLeft(if f % 2 == 1 then g else 0, 2 * Mul(f / 2, g), h);
      MulDoubleLeft(Mul(f / 2, g), h);
    }
  }

  lemma {:induction false} MulComm(f: nat, g: nat)
    ensures Mul(f, g) == Mul(g, f)
    decreases f
  {
    if f == 0 { MulZero(g); }
    else {
      MulComm(f / 2, g);
      MulDoubleRight(g, f / 2);
      SplitParity(f);
      MulXorRight(g, f % 2, 2 * (f / 2));
      MulZero(g);
      MulOneRight(g);
    }
  }

  lemma SplitParity(f: nat)
    ensures Xor(f % 2, 2 * (f / 2)) == f
  {
    XorZero(f / 2);
  }

  lemma {:induction false} MulOneRight(g: nat)
    ensures Mul(g, 1) == g
  {
    if g != 0 {
      MulOneRight(g / 2);
      SplitParity(g);
    }
  }

  // ----- Congruence modulo P -----

  ghost predicate Cong(f: nat, g: nat) {
    exists q: nat :: Xor(f, g) == Mul(q, P)
  }

  lemma CongRefl(f: nat)
    ensures Cong(f, f)
  {
    XorSelf(f);
    assert Mul(0, P) == 0;
  }

  lemma CongSym(f: nat, g: nat)
    requires Cong(f, g)
    ensures Cong(g, f)
  {
    XorComm(f, g);
  }

  lemma CongTrans(f: nat, g: nat, h: nat)
    requires Cong(f, g) && Cong(g, h)
    ensures Cong(f, h)
  {
    hide Xor, Mul;
    var p: nat :| Xor(f, g) == Mul(p, P);
    var q: nat :| Xor(g, h) == Mul(q, P);
    MulXorLeft(p, q, P);
    XorAssoc(Xor(f, g), g, h);
    XorCancel(f, g);
    assert Xor(f, h) == Mul(Xor(p, q), P);
  }

  lemma CongXor(f: nat, g: nat, f': nat, g': nat)
    requires Cong(f, f') && Cong(g, g')
    ensures Cong(Xor(f, g), Xor(f', g'))
  {
    hide Xor, Mul;
    var p: nat :| Xor(f, f') == Mul(p, P);
    var q: nat :| Xor(g, g') == Mul(q, P);
    MulXorLeft(p, q, P);
    XorSwap(f, g, f', g');
    assert Xor(Xor(f, g), Xor(f', g')) == Mul(Xor(p, q), P);
  }

  lemma CongMul(f: nat, g: nat, g': nat)
    requires Cong(g, g')
    ensures Cong(Mul(f, g), Mul(f, g'))
  {
    hide Xor, Mul;
    var q: nat :| Xor(g, g') == Mul(q, P);
    MulXorRight(f, g, g');
    MulAssoc(f, q, P);
    assert Xor(Mul(f, g), Mul(f, g')) == Mul(Mul(f, q), P);
  }

  // ----- Remainders -----

  lemma XorHigh(f: nat, g: nat, n: nat)
    requires f >= Pow2(n) && g < Pow2(n)
    ensures Xor(f, g) >= Pow2(n)
  {
    var i := HighBit(f, n);
    SmallBit(g, n, i);
    XorBit(f, g, i);
    if Xor(f, g) < Pow2(n) { SmallBit(Xor(f, g), n, i); }
  }

  lemma XorLow(f: nat, g: nat, n: nat)
    requires f < Pow2(n) && g < Pow2(n)
    ensures Xor(f, g) < Pow2(n)
  {
    forall i: nat | i >= n ensures !Bit(Xor(f, g), i) {
      XorBit(f, g, i);
      SmallBit(f, n, i);
      SmallBit(g, n, i);
    }
    BelowPow2(Xor(f, g), n);
  }

  lemma PBounds()
    ensures Pow2(32) == 0x1_0000_0000 && Pow2(32) <= P < Pow2(33)
  {
    assert Pow2(8) == 0x100 && Pow2(1) == 2;
    hide Pow2;
    Pow2Add(8, 8);
    Pow2Add(16, 16);
    Pow2Add(32, 1);
  }

  // A nonzero multiple of P has degree at least 32.
  lemma {:induction false} MultipleDegree(q: nat)
    requires q > 0
    ensures Mul(q, P) >= Pow2(32)
  {
    PBounds();
    if q == 1 { MulOne(P); }
    else {
      MultipleDegree(q / 2);
      var t := if q % 2 == 1 then P else 0;
      XorHigh(2 * Mul(q / 2, P), t, 33);
      XorComm(2 * Mul(q / 2, P), t);
    }
  }

  // Remainders of degree below 32 are unique.
  lemma RemainderUnique(r: nat, s: nat)
    requires r < Pow2(32) && s < Pow2(32) && Cong(r, s)
    ensures r == s
  {
    hide Mul, Pow2, Xor;
    var q: nat :| Xor(r, s) == Mul(q, P);
    XorLow(r, s, 32);
    if q > 0 { MultipleDegree(q); }
    else {
      MulZeroLeft(P);
      XorCancel(r, s);
      XorZero(s);
    }
  }

  lemma MulZeroLeft(g: nat)
    ensures Mul(0, g) == 0
  {
  }
}
