// Squaring registers: a linear map, which lets the table of x^(2^k) be evaluated
// and shows that it repeats with period 32 (x^(2^32) is x modulo p).
module Crc32Square {
  import opened Bits
  import opened Crc32Poly

  function Sq(v: bv32): bv32 {
    Times(v, v)
  }

  lemma SqAdd(a: bv32, b: bv32)
    ensures Sq(Add(a, b)) == Add(Sq(a), Sq(b))
  {
    hide Add, Times;
    var c := Add(a, b);
    TimesAdd(c, a, b);
    TimesComm(c, a);
    TimesComm(c, b);
    TimesAdd(a, a, b);
    TimesAdd(b, a, b);
    TimesComm(a, b);
    var ab := Times(a, b);
    AddRules(Sq(a), ab, Add(ab, Sq(b)));
    AddRules(ab, ab, Sq(b));
    AddRules(Sq(b), 0, 0);
    AddRules(0, Sq(b), 0);
  }

  lemma SqX(v: bv32)
    ensures Sq(X(v)) == X(X(Sq(v)))
  {
    hide X, Prod;
    ProdX(X(v), v, TOP);
    TimesComm(X(v), v);
    ProdX(v, v, TOP);
  }

  // The squares of the powers of x selected by v, from the mask m down, where s
  // is the square that belongs to m.
  function SqFrom(v: bv32, m: bv32, s: bv32): bv32
    decreases m
  {
    if m == 0 then 0
    else HalfSmaller(m); Add(if Has(v, m) then s else 0, SqFrom(v, Half(m), X(X(s))))
  }

  lemma {:induction false} SqProd(v: bv32, b: bv32, m: bv32)
    ensures Sq(Prod(v, b, m)) == SqFrom(v, m, Sq(b))
    decreases m
  {
    SqZero();
    hide X, Add, Has, Half, Sq;
    if m != 0 {
      HalfSmaller(m);
      SqProd(v, X(b), Half(m));
      SqAdd(if Has(v, m) then b else 0, Prod(v, X(b), Half(m)));
      SqX(b);
    }
  }

  lemma SqZero()
    ensures Sq(0) == 0
  {
    hide Add, Times;
    SqAdd(0, 0);
    AddRules(0, 0, 0);
    AddRules(Sq(0), 0, 0);
  }

  lemma SqIsSqFrom(v: bv32)
    ensures Sq(v) == SqFrom(v, TOP, ONE)
  {
    hide Prod, SqFrom;
    TimesOne(v);
    TimesComm(v, ONE);
    TimesOne(ONE);
    SqProd(v, ONE, TOP);
  }

  function Term(v: bv32, m: bv32, s: bv32): bv32 {
    if Has(v, m) then s else 0
  }

  // Four masks at a time.
  function Quad(v: bv32, a: bv32, b: bv32, c: bv32, d: bv32, s: bv32, t: bv32, u: bv32, w: bv32, rest: bv32): bv32 {
    Add(Term(v, a, s), Add(Term(v, b, t), Add(Term(v, c, u), Add(Term(v, d, w), rest))))
  }

  lemma SqQuad(v: bv32, a: bv32, b: bv32, c: bv32, d: bv32, e: bv32, s: bv32, t: bv32, u: bv32, w: bv32, x: bv32)
    requires a != 0 && b != 0 && c != 0 && d != 0
    requires Half(a) == b && Half(b) == c && Half(c) == d && Half(d) == e
    requires X(X(s)) == t && X(X(t)) == u && X(X(u)) == w && X(X(w)) == x
    ensures SqFrom(v, a, s) == Quad(v, a, b, c, d, s, t, u, w, SqFrom(v, e, x))
  {
    hide Half, X, SqFrom, Term, Add;
    SqUnfold(v, a, s);
    SqUnfold(v, b, t);
    SqUnfold(v, c, u);
    SqUnfold(v, d, w);
  }

  lemma SqUnfold(v: bv32, m: bv32, s: bv32)
    requires m != 0
    ensures SqFrom(v, m, s) == Add(Term(v, m, s), SqFrom(v, Half(m), X(X(s))))
  {
  }

  // The squaring map on all 32 coefficients.
  function Square(v: bv32): bv32 {
    Quad(v, 0x80000000, 0x40000000, 0x20000000, 0x10000000, 0x80000000, 0x20000000, 0x08000000, 0x02000000,
    Quad(v, 0x08000000, 0x04000000, 0x02000000, 0x01000000, 0x00800000, 0x00200000, 0x00080000, 0x00020000,
    Quad(v, 0x00800000, 0x00400000, 0x00200000, 0x00100000, 0x00008000, 0x00002000, 0x00000800, 0x00000200,
    Quad(v, 0x00080000, 0x00040000, 0x00020000, 0x00010000, 0x00000080, 0x00000020, 0x00000008, 0x00000002,
    Quad(v, 0x00008000, 0x00004000, 0x00002000, 0x00001000, 0xedb88320, 0x3b6e20c8, 0x0edb8832, 0xee0e612c,
    Quad(v, 0x00000800, 0x00000400, 0x00000200, 0x00000100, 0x3b83984b, 0x958424a2, 0xc8d98a08, 0x32366282,
    Quad(v, 0x00000080, 0x00000040, 0x00000020, 0x00000010, 0xe1351b80, 0x384d46e0, 0x0e1351b8, 0x0384d46e,
    Quad(v, 0x00000008, 0x00000004, 0x00000002, 0x00000001, 0xed59b63b, 0xa032af3e, 0xc5b428ef, 0xaa09c88b,
    0))))))))
  }

  lemma SquareQuads3(v: bv32)
    ensures SqFrom(v, 0x00000080, 0xe1351b80) ==
      Quad(v, 0x00000080, 0x00000040, 0x00000020, 0x00000010, 0xe1351b80, 0x384d46e0, 0x0e1351b8, 0x0384d46e,
      Quad(v, 0x00000008, 0x00000004, 0x00000002, 0x00000001, 0xed59b63b, 0xa032af3e, 0xc5b428ef, 0xaa09c88b,
      SqFrom(v, 0x00000000, 0xb1e6b092)))
  {
    hide SqFrom, Term, Quad;
    SqQuad(v, 0x00000080, 0x00000040, 0x00000020, 0x00000010, 0x00000008, 0xe1351b80, 0x384d46e0, 0x0e1351b8,
      0x0384d46e, 0xed59b63b);
    SqQuad(v, 0x00000008, 0x00000004, 0x00000002, 0x00000001, 0x00000000, 0xed59b63b, 0xa032af3e, 0xc5b428ef,
      0xaa09c88b, 0xb1e6b092);
  }

  lemma SquareQuads2(v: bv32)
    ensures SqFrom(v, 0x00008000, 0xedb88320) ==
      Quad(v, 0x00008000, 0x00004000, 0x00002000, 0x00001000, 0xedb88320, 0x3b6e20c8, 0x0edb8832, 0xee0e612c,
      Quad(v, 0x00000800, 0x00000400, 0x00000200, 0x00000100, 0x3b83984b, 0x958424a2, 0xc8d98a08, 0x32366282,
      SqFrom(v, 0x00000080, 0xe1351b80)))
  {
    hide SqFrom, Term, Quad;
    SqQuad(v, 0x00008000, 0x00004000, 0x00002000, 0x00001000, 0x00000800, 0xedb88320, 0x3b6e20c8, 0x0edb8832,
      0xee0e612c, 0x3b83984b);
    SqQuad(v, 0x00000800, 0x00000400, 0x00000200, 0x00000100, 0x00000080, 0x3b83984b, 0x958424a2, 0xc8d98a08,
      0x32366282, 0xe1351b80);
  }

  lemma SquareQuads1(v: bv32)
    ensures SqFrom(v, 0x00800000, 0x00008000) ==
      Quad(v, 0x00800000, 0x00400000, 0x00200000, 0x00100000, 0x00008000, 0x00002000, 0x00000800, 0x00000200,
      Quad(v, 0x00080000, 0x00040000, 0x00020000, 0x00010000, 0x00000080, 0x00000020, 0x00000008, 0x00000002,
      SqFrom(v, 0x00008000, 0xedb88320)))
  {
    hide SqFrom, Term, Quad;
    SqQuad(v, 0x00800000, 0x00400000, 0x00200000, 0x00100000, 0x00080000, 0x00008000, 0x00002000, 0x00000800,
      0x00000200, 0x00000080);
    SqQuad(v, 0x00080000, 0x00040000, 0x00020000, 0x00010000, 0x00008000, 0x00000080, 0x00000020, 0x00000008,
      0x00000002, 0xedb88320);
  }

  lemma SquareQuads0(v: bv32)
    ensures SqFrom(v, 0x80000000, 0x80000000) ==
      Quad(v, 0x80000000, 0x40000000, 0x20000000, 0x10000000, 0x80000000, 0x20000000, 0x08000000, 0x02000000,
      Quad(v, 0x08000000, 0x04000000, 0x02000000, 0x01000000, 0x00800000, 0x00200000, 0x00080000, 0x00020000,
      SqFrom(v, 0x00800000, 0x00008000)))
  {
    hide SqFrom, Term, Quad;
    SqQuad(v, 0x80000000, 0x40000000, 0x20000000, 0x10000000, 0x08000000, 0x80000000, 0x20000000, 0x08000000,
      0x02000000, 0x00800000);
    SqQuad(v, 0x08000000, 0x04000000, 0x02000000, 0x01000000, 0x00800000, 0x00800000, 0x00200000, 0x00080000,
      0x00020000, 0x00008000);
  }

  lemma SquareIsSq(v: bv32)
    ensures Square(v) == Times(v, v)
  {
    assert SqFrom(v, 0, 0xb1e6b092) == 0;
    hide SqFrom, Times, Term, Add, Quad;
    SqIsSqFrom(v);
    SquareQuads3(v);
    SquareQuads2(v);
    SquareQuads1(v);
    SquareQuads0(v);
  }

  // x^(2^k), the entries of x2n_table.
  function X2n(k: nat): bv32 {
    XPow(ONE, Pow2(k))
  }

  lemma SquareX2n(k: nat)
    ensures Times(X2n(k), X2n(k)) == X2n(k + 1)
  {
    hide Times, X;
    PowerTimes(X2n(k), Pow2(k));
    XPowSum(ONE, Pow2(k), Pow2(k));
  }

  lemma NextX2n(k: nat, t: bv32, u: bv32)
    requires X2n(k) == t && Square(t) == u
    ensures X2n(k + 1) == u
  {
    hide Times, Square;
    SquareX2n(k);
    SquareIsSq(t);
  }

  lemma X2nStart()
    ensures X2n(0) == 0x40000000
  {
    assert XPow(ONE, 1) == X(XPow(ONE, 0));
  }

  lemma FirstX2n()
    ensures X2n(2) == 0x08000000
  {
    hide X2n;
    X2nStart();
    NextX2n(0, 0x40000000, 0x20000000);
    NextX2n(1, 0x20000000, 0x08000000);
  }

  lemma X2nTable0()
    ensures X2n(4) == 0x00008000
  {
    hide X2n;
    FirstX2n();
    NextX2n(2, 0x08000000, 0x00800000);
    NextX2n(3, 0x00800000, 0x00008000);
  }

  lemma X2nTable1()
    ensures X2n(8) == 0xed627dae
  {
    hide X2n;
    X2nTable0();
    NextX2n(4, 0x00008000, 0xedb88320);
    NextX2n(5, 0xedb88320, 0xb1e6b092);
    NextX2n(6, 0xb1e6b092, 0xa06a2517);
    NextX2n(7, 0xa06a2517, 0xed627dae);
  }

  lemma X2nTable2()
    ensures X2n(12) == 0x8e7ea170
  {
    hide X2n;
    X2nTable1();
    NextX2n(8, 0xed627dae, 0x88d14467);
    NextX2n(9, 0x88d14467, 0xd7bbfe6a);
    NextX2n(10, 0xd7bbfe6a, 0xec447f11);
    NextX2n(11, 0xec447f11, 0x8e7ea170);
  }

  lemma X2nTable3()
    ensures X2n(16) == 0x83852d0f
  {
    hide X2n;
    X2nTable2();
    NextX2n(12, 0x8e7ea170, 0x6427800e);
    NextX2n(13, 0x6427800e, 0x4d47bae0);
    NextX2n(14, 0x4d47bae0, 0x09fe548f);
    NextX2n(15, 0x09fe548f, 0x83852d0f);
  }

  lemma X2nTable4()
    ensures X2n(20) == 0x9fec022a
  {
    hide X2n;
    X2nTable3();
    NextX2n(16, 0x83852d0f, 0x30362f1a);
    NextX2n(17, 0x30362f1a, 0x7b5a9cc3);
    NextX2n(18, 0x7b5a9cc3, 0x31fec169);
    NextX2n(19, 0x31fec169, 0x9fec022a);
  }

  lemma X2nTable5()
    ensures X2n(24) == 0xbad90e37
  {
    hide X2n;
    X2nTable4();
    NextX2n(20, 0x9fec022a, 0x6c8dedc4);
    NextX2n(21, 0x6c8dedc4, 0x15d6874d);
    NextX2n(22, 0x15d6874d, 0x5fde7a4e);
    NextX2n(23, 0x5fde7a4e, 0xbad90e37);
  }

  lemma X2nTable6()
    ensures X2n(28) == 0x429a969e
  {
    hide X2n;
    X2nTable5();
    NextX2n(24, 0xbad90e37, 0x2e4e5eef);
    NextX2n(25, 0x2e4e5eef, 0x4eaba214);
    NextX2n(26, 0x4eaba214, 0xa8a472c0);
    NextX2n(27, 0xa8a472c0, 0x429a969e);
  }

  lemma X2nTable7()
    ensures X2n(32) == 0x40000000
  {
    hide X2n;
    X2nTable6();
    NextX2n(28, 0x429a969e, 0x148d302a);
    NextX2n(29, 0x148d302a, 0xc40ba6d0);
    NextX2n(30, 0xc40ba6d0, 0xc4e22c3c);
    NextX2n(31, 0xc4e22c3c, 0x40000000);
  }

  // The order of squaring is 32, so the table can be indexed modulo 32.
  lemma {:induction false} X2nPeriod(k: nat)
    ensures X2n(k) == X2n(k % 32)
  {
    if k >= 32 {
      X2nShift(k - 32);
      X2nPeriod(k - 32);
    }
  }

  lemma {:induction false} X2nShift(k: nat)
    ensures X2n(k + 32) == X2n(k)
  {
    if k == 0 {
      X2nTable7();
      X2nStart();
    } else {
      hide X2n, Times;
      X2nShift(k - 1);
      SquareX2n(k - 1);
      SquareX2n(k + 31);
    }
  }
}
