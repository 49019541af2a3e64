// The CRC-32 of RFC 1952, section 8, as dep/zlib/crc32.c computes it: tables,
// multiplication modulo p(x), the braided loop over words and the combination of
// two checksums.
module Crc32 {
  import opened Bits
  import opened Gf2
  import opened Crc32Poly

  // ----- Bytes of registers -----

  function Low(c: bv32): bv8 {
    (c & 0xff) as bv8
  }

  function Wide(b: bv8): bv32 {
    b as bv32
  }

  function Shr8(c: bv32): bv32 {
    c >> 8
  }

  function Xor8(a: bv8, b: bv8): bv8 {
    a ^ b
  }

  lemma LowAdd(a: bv32, b: bv32)
    ensures Low(Add(a, b)) == Xor8(Low(a), Low(b))
  {
  }

  lemma Shr8Add(a: bv32, b: bv32)
    ensures Shr8(Add(a, b)) == Add(Shr8(a), Shr8(b))
  {
  }

  lemma WideParts(b: bv8)
    ensures Low(Wide(b)) == b && Shr8(Wide(b)) == 0
    ensures Low(0) == 0 && Shr8(0) == 0 && Wide(0) == 0
    ensures Xor8(b, 0) == b && Xor8(0, b) == b
  {
  }

  lemma Wide8(a: bv8, b: bv8)
    ensures Wide(Xor8(a, b)) == Add(Wide(a), Wide(b))
  {
  }

  lemma Xor8Assoc(a: bv8, b: bv8, c: bv8)
    ensures Xor8(Xor8(a, b), c) == Xor8(a, Xor8(b, c))
  {
  }

  // ----- One byte of input -----

  lemma FourHalves(u: bv32)
    requires u & 0xf == 0
    ensures !Has(u, 1) && !Has(Half(u), 1) && !Has(Half(Half(u)), 1) && !Has(Half(Half(Half(u))), 1)
    ensures Half(Half(Half(Half(u)))) == u >> 4
  {
  }

  lemma FourX(u: bv32)
    requires u & 0xf == 0
    ensures XPow(u, 4) == u >> 4
  {
    FourHalves(u);
    hide Has, Half;
    assert XPow(u, 1) == Half(u) by { assert XPow(u, 0) == u; }
    assert XPow(u, 2) == Half(XPow(u, 1));
    assert XPow(u, 3) == Half(XPow(u, 2));
  }

  lemma ShiftOut(u: bv32)
    requires u & 0xff == 0
    ensures XPow(u, 8) == u >> 8
  {
    hide X, XPow;
    Nibbles(u);
    FourX(u);
    FourX(u >> 4);
    XPowSum(u, 4, 4);
  }

  lemma Nibbles(u: bv32)
    requires u & 0xff == 0
    ensures u & 0xf == 0 && (u >> 4) & 0xf == 0 && (u >> 4) >> 4 == u >> 8
  {
  }

  lemma HighPart(v: bv32)
    ensures (v & 0xffff_ff00) & 0xff == 0 && (v & 0xffff_ff00) >> 8 == v >> 8
    ensures v == (v & 0xffff_ff00) ^ (v & 0xff)
    ensures ((v & 0xff) as bv8) as bv32 == v & 0xff
  {
  }

  // Eight steps of X move the register down one byte and add the table entry of
  // the byte that falls out.
  lemma ShiftByte(v: bv32)
    ensures XPow(v, 8) == Add(Shr8(v), XPow(Wide(Low(v)), 8))
  {
    hide X, XPow;
    HighPart(v);
    ShiftOut(v & 0xffff_ff00);
    XPowAdd(v & 0xffff_ff00, v & 0xff, 8);
  }

  // The register after one more input byte.
  function Step(c: bv32, b: bv8): bv32 {
    XPow(Add(c, Wide(b)), 8)
  }

  function Raw(c: bv32, s: seq<bv8>): bv32
    decreases |s|
  {
    if s == [] then c else Raw(Step(c, s[0]), s[1..])
  }

  // The table-driven step of the byte loops.
  lemma TableStep(c: bv32, b: bv8)
    ensures Step(c, b) == Add(Shr8(c), XPow(Wide(Low(Add(c, Wide(b)))), 8))
  {
    hide X, XPow, Add, Shr8, Low, Wide;
    ShiftByte(Add(c, Wide(b)));
    Shr8Add(c, Wide(b));
    WideParts(b);
    AddRules(Shr8(c), 0, 0);
  }

  lemma StepSplit(d: bv32, c: bv32, b: bv8)
    ensures Step(Add(d, c), b) == Add(Step(d, Xor8(b, Low(c))), Shr8(c))
  {
    hide X, XPow, Add, Shr8, Low, Wide, Xor8;
    AddRules(d, c, Wide(b));
    AddRules(c, Wide(b), 0);
    AddRules(d, Wide(b), c);
    XPowAdd(Add(d, Wide(b)), c, 8);
    ShiftByte(c);
    Wide8(b, Low(c));
    AddRules(d, Wide(b), Wide(Low(c)));
    XPowAdd(Add(d, Wide(b)), Wide(Low(c)), 8);
    var p, q, r := XPow(Add(d, Wide(b)), 8), Shr8(c), XPow(Wide(Low(c)), 8);
    AddRules(q, r, 0);
    AddRules(p, r, q);
  }

  // n bytes of zeros.
  function T(c: bv32, n: nat): bv32 {
    XPow(c, 8 * n)
  }

  lemma TSum(c: bv32, m: nat, n: nat)
    ensures T(T(c, m), n) == T(c, m + n)
  {
    hide XPow;
    XPowSum(c, 8 * m, 8 * n);
  }

  lemma TAdd(c: bv32, d: bv32, n: nat)
    ensures T(Add(c, d), n) == Add(T(c, n), T(d, n))
  {
    hide XPow, Add;
    XPowAdd(c, d, 8 * n);
  }

  // The register is linear in its starting value.
  lemma {:induction false} RawLinear(c: bv32, d: bv32, s: seq<bv8>)
    ensures Raw(Add(c, d), s) == Add(T(c, |s|), Raw(d, s))
    decreases |s|
  {
    hide XPow, Add, Wide;
    if s == [] {
      assert XPow(c, 0) == c by { XPowNone(c); }
    } else {
      var w := Wide(s[0]);
      AddRules(c, d, w);
      XPowAdd(c, Add(d, w), 8);
      RawLinear(XPow(c, 8), Step(d, s[0]), s[1..]);
      XPowSum(c, 8, 8 * (|s| - 1));
    }
  }

  lemma XPowNone(c: bv32)
    ensures XPow(c, 0) == c
  {
  }

  lemma {:induction false} RawAppend(c: bv32, s: seq<bv8>, t: seq<bv8>)
    ensures Raw(c, s + t) == Raw(Raw(c, s), t)
    decreases |s|
  {
    if s == [] { assert s + t == t; }
    else {
      assert (s + t)[1..] == s[1..] + t;
      RawAppend(Step(c, s[0]), s[1..], t);
    }
  }

  lemma RawFromZero(c: bv32, s: seq<bv8>)
    ensures Raw(c, s) == Add(T(c, |s|), Raw(0, s))
  {
    hide T, Add, Raw;
    RawLinear(c, 0, s);
    AddRules(c, 0, 0);
  }

  // ----- Words: W consecutive bytes, least significant first -----

  // The word w with the register c added to its low four bytes.
  function XorIn(w: seq<bv8>, c: bv32): (r: seq<bv8>)
    ensures |r| == |w|
  {
    if w == [] then [] else [Xor8(w[0], Low(c))] + XorIn(w[1..], Shr8(c))
  }

  // c has no bits beyond its low n bytes.
  function Fits(c: bv32, n: nat): bool {
    if n == 0 then c == 0 else Fits(Shr8(c), n - 1)
  }

  lemma FitsFour(c: bv32)
    ensures Fits(c, 4) && Fits(Shr8(c), 3)
  {
    assert (((c >> 8) >> 8) >> 8) >> 8 == 0;
    hide Shr8;
    assert Fits(c, 4) == Fits(Shr8(Shr8(Shr8(Shr8(c)))), 0) by { FitsUnfold(c); }
    assert Shr8(Shr8(Shr8(Shr8(c)))) == 0 by { ShiftAll(c); }
  }

  lemma FitsUnfold(c: bv32)
    ensures Fits(c, 4) == Fits(Shr8(c), 3) == Fits(Shr8(Shr8(c)), 2) == Fits(Shr8(Shr8(Shr8(c))), 1)
         == Fits(Shr8(Shr8(Shr8(Shr8(c)))), 0)
  {
    hide Shr8;
  }

  lemma ShiftAll(c: bv32)
    ensures Shr8(Shr8(Shr8(Shr8(c)))) == 0
  {
  }

  lemma {:induction false} FitsMore(c: bv32, m: nat, n: nat)
    requires m <= n && Fits(c, m)
    ensures Fits(c, n)
    decreases m, n
  {
    hide Shr8;
    if m > 0 { FitsMore(Shr8(c), m - 1, n - 1); }
    else if n > 0 {
      WideParts(0);
      FitsMore(Shr8(c), 0, n - 1);
    }
  }

  // Starting from a register is adding it to the first bytes of the input.
  lemma {:induction false} Absorb(d: bv32, c: bv32, s: seq<bv8>)
    requires Fits(c, |s|)
    ensures Raw(Add(d, c), s) == Raw(d, XorIn(s, c))
    decreases |s|
  {
    hide Add, Step, Low, Shr8, Xor8;
    if s == [] { AddRules(d, 0, 0); }
    else {
      StepSplit(d, c, s[0]);
      Absorb(Step(d, Xor8(s[0], Low(c))), Shr8(c), s[1..]);
      assert XorIn(s, c)[1..] == XorIn(s[1..], Shr8(c));
    }
  }

  lemma AbsorbWord(c: bv32, s: seq<bv8>)
    requires |s| >= 4
    ensures Raw(c, s) == Raw(0, XorIn(s, c))
  {
    hide Add, Raw, XorIn;
    FitsFour(c);
    FitsMore(c, 4, |s|);
    Absorb(0, c, s);
    AddRules(c, 0, 0);
  }

  function Zeros(n: nat): (s: seq<bv8>)
    ensures |s| == n
  {
    seq(n, _ => 0)
  }

  lemma {:induction false} XorInTwice(w: seq<bv8>, c: bv32, d: bv32)
    ensures XorIn(XorIn(w, c), d) == XorIn(w, Add(c, d))
  {
    hide Add, Low, Shr8, Xor8;
    if w != [] {
      Xor8Assoc(w[0], Low(c), Low(d));
      LowAdd(c, d);
      Shr8Add(c, d);
      XorInTwice(w[1..], Shr8(c), Shr8(d));
      assert XorIn(w, c)[1..] == XorIn(w[1..], Shr8(c));
    }
  }

  lemma {:induction false} XorInExtend(w: seq<bv8>, c: bv32)
    requires Fits(c, |w|)
    ensures XorIn(w + [0], c) == XorIn(w, c) + [0]
  {
    hide Low, Shr8, Xor8;
    if w == [] {
      WideParts(0);
      assert (w + [0])[1..] == [];
    } else {
      assert (w + [0])[1..] == w[1..] + [0];
      XorInExtend(w[1..], Shr8(c));
    }
  }

  // The low four bytes of a word as a register.
  function Narrow(w: seq<bv8>): bv32
    requires |w| >= 4
  {
    (w[0] as bv32) | ((w[1] as bv32) << 8) | ((w[2] as bv32) << 16) | ((w[3] as bv32) << 24)
  }

  lemma NarrowZeros(n: nat, c: bv32)
    requires n >= 4
    ensures Narrow(XorIn(Zeros(n), c)) == c
  {
    var w := XorIn(Zeros(n), c);
    assert w[0] == Low(c) && w[1] == Low(Shr8(c)) && w[2] == Low(Shr8(Shr8(c)))
        && w[3] == Low(Shr8(Shr8(Shr8(c)))) by {
      FourBytes(Zeros(n), c);
    }
    Reassemble(c);
  }

  lemma FourBytes(w: seq<bv8>, c: bv32)
    requires |w| >= 4 && w[0] == 0 && w[1] == 0 && w[2] == 0 && w[3] == 0
    ensures var r := XorIn(w, c);
      r[0] == Low(c) && r[1] == Low(Shr8(c)) && r[2] == Low(Shr8(Shr8(c))) && r[3] == Low(Shr8(Shr8(Shr8(c))))
  {
    hide Low, Shr8, Xor8;
    var c1, c2, c3 := Shr8(c), Shr8(Shr8(c)), Shr8(Shr8(Shr8(c)));
    WideParts(Low(c));
    WideParts(Low(c1));
    WideParts(Low(c2));
    WideParts(Low(c3));
    assert XorIn(w, c) == [Xor8(w[0], Low(c))] + XorIn(w[1..], c1);
    assert XorIn(w[1..], c1) == [Xor8(w[1], Low(c1))] + XorIn(w[1..][1..], c2);
    assert XorIn(w[1..][1..], c2) == [Xor8(w[2], Low(c2))] + XorIn(w[1..][1..][1..], c3);
    assert XorIn(w[1..][1..][1..], c3)[0] == Xor8(w[3], Low(c3));
  }

  lemma Reassemble(c: bv32)
    ensures (Low(c) as bv32) | ((Low(Shr8(c)) as bv32) << 8) | ((Low(Shr8(Shr8(c))) as bv32) << 16)
      | ((Low(Shr8(Shr8(Shr8(c)))) as bv32) << 24) == c
  {
  }

  // ----- What the register means -----

  // f * x^n.
  function ShiftUp(f: nat, n: nat): nat {
    if n == 0 then f else 2 * ShiftUp(f, n - 1)
  }

  // A byte as a polynomial: its first bit, the least significant, is the highest power.
  function BytePoly(b: bv8): nat {
    Coeffs(Wide(b), 0x80)
  }

  function MessagePoly(s: seq<bv8>): nat {
    if s == [] then 0
    else Xor(ShiftUp(BytePoly(s[0]), 8 * (|s| - 1)), MessagePoly(s[1..]))
  }

  lemma {:induction false} ShiftUpXor(f: nat, g: nat, n: nat)
    ensures ShiftUp(Xor(f, g), n) == Xor(ShiftUp(f, n), ShiftUp(g, n))
  {
    hide Xor;
    if n > 0 {
      ShiftUpXor(f, g, n - 1);
      XorDouble(ShiftUp(f, n - 1), ShiftUp(g, n - 1));
    }
  }

  lemma {:induction false} ShiftUpSum(f: nat, m: nat, n: nat)
    ensures ShiftUp(ShiftUp(f, m), n) == ShiftUp(f, m + n)
  {
    if n > 0 { ShiftUpSum(f, m, n - 1); }
  }

  lemma {:induction false} CongShiftUp(f: nat, g: nat, n: nat)
    requires Cong(f, g)
    ensures Cong(ShiftUp(f, n), ShiftUp(g, n))
  {
    hide Cong;
    if n > 0 {
      CongShiftUp(f, g, n - 1);
      CongMul(2, ShiftUp(f, n - 1), ShiftUp(g, n - 1));
      MulTwo(ShiftUp(f, n - 1));
      MulTwo(ShiftUp(g, n - 1));
    }
  }

  lemma MulTwo(f: nat)
    ensures Mul(2, f) == 2 * f
  {
    MulDoubleLeft(1, f);
    MulOne(f);
  }

  lemma {:induction false} XPowCong(v: bv32, n: nat)
    ensures Cong(ShiftUp(Poly(v), n), Poly(XPow(v, n)))
  {
    hide Cong, X, Poly;
    if n == 0 { CongRefl(Poly(v)); }
    else {
      XPowCong(v, n - 1);
      var f, g := ShiftUp(Poly(v), n - 1), Poly(XPow(v, n - 1));
      CongMul(2, f, g);
      MulTwo(f);
      MulTwo(g);
      CongX(XPow(v, n - 1));
      CongTrans(2 * f, 2 * g, Poly(XPow(v, n)));
    }
  }

  lemma HighClear(b: bv8)
    ensures !Has(Wide(b), 0x8000_0000) && !Has(Wide(b), 0x4000_0000) && !Has(Wide(b), 0x2000_0000)
    ensures !Has(Wide(b), 0x1000_0000) && !Has(Wide(b), 0x800_0000) && !Has(Wide(b), 0x400_0000)
    ensures !Has(Wide(b), 0x200_0000) && !Has(Wide(b), 0x100_0000) && !Has(Wide(b), 0x80_0000)
    ensures !Has(Wide(b), 0x40_0000) && !Has(Wide(b), 0x20_0000) && !Has(Wide(b), 0x10_0000)
    ensures !Has(Wide(b), 0x8_0000) && !Has(Wide(b), 0x4_0000) && !Has(Wide(b), 0x2_0000)
    ensures !Has(Wide(b), 0x1_0000) && !Has(Wide(b), 0x8000) && !Has(Wide(b), 0x4000)
    ensures !Has(Wide(b), 0x2000) && !Has(Wide(b), 0x1000) && !Has(Wide(b), 0x800)
    ensures !Has(Wide(b), 0x400) && !Has(Wide(b), 0x200) && !Has(Wide(b), 0x100)
  {
  }

  lemma WidePoly(b: bv8)
    ensures Poly(Wide(b)) == ShiftUp(BytePoly(b), 24)
  {
    HighClear(b);
    var v := Wide(b);
    hide Wide, Has, Coeffs, ShiftUp;
    Nibble(v, 0x8000_0000, 0x4000_0000, 0x2000_0000, 0x1000_0000, 0x800_0000);
    Nibble(v, 0x800_0000, 0x400_0000, 0x200_0000, 0x100_0000, 0x80_0000);
    Nibble(v, 0x80_0000, 0x40_0000, 0x20_0000, 0x10_0000, 0x8_0000);
    Nibble(v, 0x8_0000, 0x4_0000, 0x2_0000, 0x1_0000, 0x8000);
    Nibble(v, 0x8000, 0x4000, 0x2000, 0x1000, 0x800);
    Nibble(v, 0x800, 0x400, 0x200, 0x100, 0x80);
    ShiftUp24(Coeffs(v, 0x80));
  }

  lemma {:induction false} ShiftUpTimes(f: nat, n: nat)
    ensures ShiftUp(f, n) == Pow2(n) * f
  {
    if n > 0 {
      ShiftUpTimes(f, n - 1);
      assert 2 * (Pow2(n - 1) * f) == (2 * Pow2(n - 1)) * f;
    }
  }

  lemma ShiftUp24(f: nat)
    ensures ShiftUp(f, 24) == 0x100_0000 * f
  {
    assert Pow2(8) == 0x100;
    hide Pow2;
    Pow2Add(8, 8);
    Pow2Add(16, 8);
    ShiftUpTimes(f, 24);
  }

  // The register holds the remainder modulo p(x) of its starting value followed by
  // the message and 32 zero bits.
  lemma {:induction false} RawIsRemainder(c: bv32, s: seq<bv8>)
    ensures Cong(Xor(ShiftUp(Poly(c), 8 * |s|), ShiftUp(MessagePoly(s), 32)), Poly(Raw(c, s)))
    ensures Poly(Raw(c, s)) < Pow2(32)
    decreases |s|
  {
    hide Cong, X, Poly, Xor, Step, BytePoly, ShiftUp;
    PolySize(Raw(c, s));
    if s == [] {
      ShiftUpZero(32);
      ShiftUpNone(Poly(c));
      XorZero(Poly(c));
      CongRefl(Poly(c));
    } else {
      RawIsRemainder(Step(c, s[0]), s[1..]);
      StepCong(c, s[0]);
      OneByteMore(Poly(c), BytePoly(s[0]), MessagePoly(s[1..]), Poly(Step(c, s[0])), Poly(Raw(c, s)), 8 * (|s| - 1));
    }
  }

  lemma ShiftUpNone(f: nat)
    ensures ShiftUp(f, 0) == f
  {
  }

  // The register f and the byte b lead to the register d, and d with the rest of the message
  // to the register r.
  lemma OneByteMore(f: nat, b: nat, rest: nat, d: nat, r: nat, n: nat)
    requires Cong(Xor(ShiftUp(f, 8), ShiftUp(b, 32)), d) && Cong(Xor(ShiftUp(d, n), ShiftUp(rest, 32)), r)
    ensures Cong(Xor(ShiftUp(f, 8 + n), ShiftUp(Xor(ShiftUp(b, n), rest), 32)), r)
  {
    hide Cong, Xor, ShiftUp;
    var e := Xor(ShiftUp(f, 8), ShiftUp(b, 32));
    CongShiftUp(e, d, n);
    CongRefl(ShiftUp(rest, 32));
    CongXor(ShiftUp(e, n), ShiftUp(rest, 32), ShiftUp(d, n), ShiftUp(rest, 32));
    ShiftUpXor(ShiftUp(f, 8), ShiftUp(b, 32), n);
    ShiftUpSum(f, 8, n);
    ShiftUpSum(b, 32, n);
    ShiftUpSum(b, n, 32);
    ShiftUpXor(ShiftUp(b, n), rest, 32);
    XorAssoc(ShiftUp(f, 8 + n), ShiftUp(b, 32 + n), ShiftUp(rest, 32));
    CongTrans(Xor(ShiftUp(e, n), ShiftUp(rest, 32)), Xor(ShiftUp(d, n), ShiftUp(rest, 32)), r);
  }

  lemma {:induction false} ShiftUpZero(n: nat)
    ensures ShiftUp(0, n) == 0
  {
    if n > 0 { ShiftUpZero(n - 1); }
  }

  lemma StepCong(c: bv32, b: bv8)
    ensures Cong(Xor(ShiftUp(Poly(c), 8), ShiftUp(BytePoly(b), 32)), Poly(Step(c, b)))
  {
    hide Cong, Poly, Xor, XPow, BytePoly, ShiftUp, Add, Wide;
    XPowCong(Add(c, Wide(b)), 8);
    PolyXor(c, Wide(b));
    ShiftUpXor(Poly(c), Poly(Wide(b)), 8);
    WidePoly(b);
    ShiftUpSum(BytePoly(b), 24, 8);
  }
}
