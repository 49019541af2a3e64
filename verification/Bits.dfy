// Unsigned machine words as naturals: bitwise operators, each characterised by
// the bits of its result, and arithmetic modulo a power of two.
module Bits {

  function Pow2(n: nat): (r: nat)
    ensures r > 0
  {
    if n == 0 then 1 else 2 * Pow2(n - 1)
  }

  lemma {:induction false} Pow2Add(m: nat, n: nat)
    ensures Pow2(m + n) == Pow2(m) * Pow2(n)
  {
    if m > 0 { Pow2Add(m - 1, n); }
  }

  lemma {:induction false} Pow2Mono(m: nat, n: nat)
    requires m <= n
    ensures Pow2(m) <= Pow2(n)
  {
    if m < n { Pow2Mono(m, n - 1); }
  }

  // Bit i of x.
  predicate Bit(x: nat, i: nat) {
    if i == 0 then x % 2 == 1 else Bit(x / 2, i - 1)
  }

  function And(x: nat, y: nat): nat {
    if x == 0 && y == 0 then 0
    else (if x % 2 == 1 && y % 2 == 1 then 1 else 0) + 2 * And(x / 2, y / 2)
  }

  function Or(x: nat, y: nat): nat {
    if x == 0 && y == 0 then 0
    else (if x % 2 == 1 || y % 2 == 1 then 1 else 0) + 2 * Or(x / 2, y / 2)
  }

  function Xor(x: nat, y: nat): nat {
    if x == 0 && y == 0 then 0
    else (if x % 2 != y % 2 then 1 else 0) + 2 * Xor(x / 2, y / 2)
  }

  function Shr(x: nat, s: nat): nat {
    if s == 0 then x else Shr(x / 2, s - 1)
  }

  // The word with the low n bits set.
  function Ones(n: nat): nat {
    Pow2(n) - 1
  }

  // Bitwise complement in a word of w bits.
  function Not(x: nat, w: nat): nat {
    Xor(x, Ones(w))
  }

  lemma {:induction false} ZeroBits(i: nat)
    ensures !Bit(0, i)
  {
    if i > 0 { ZeroBits(i - 1); }
  }

  lemma {:induction false} AndBit(x: nat, y: nat, i: nat)
    ensures Bit(And(x, y), i) <==> Bit(x, i) && Bit(y, i)
    decreases i
  {
    if x == 0 && y == 0 { ZeroBits(i); }
    else if i > 0 { AndBit(x / 2, y / 2, i - 1); }
  }

  lemma {:induction false} OrBit(x: nat, y: nat, i: nat)
    ensures Bit(Or(x, y), i) <==> Bit(x, i) || Bit(y, i)
    decreases i
  {
    if x == 0 && y == 0 { ZeroBits(i); }
    else if i > 0 { OrBit(x / 2, y / 2, i - 1); }
  }

  lemma {:induction false} XorBit(x: nat, y: nat, i: nat)
    ensures Bit(Xor(x, y), i) <==> Bit(x, i) != Bit(y, i)
    decreases i
  {
    if x == 0 && y == 0 { ZeroBits(i); }
    else if i > 0 { XorBit(x / 2, y / 2, i - 1); }
  }

  lemma {:induction false} ShrBit(x: nat, s: nat, i: nat)
    ensures Bit(Shr(x, s), i) == Bit(x, i + s)
    decreases s
  {
    if s > 0 { ShrBit(x / 2, s - 1, i); }
  }

  lemma {:induction false} OnesBit(n: nat, i: nat)
    ensures Bit(Ones(n), i) <==> i < n
  {
    if n == 0 { ZeroBits(i); }
    else {
      assert Ones(n) == 2 * Ones(n - 1) + 1;
      if i > 0 { OnesBit(n - 1, i - 1); }
    }
  }

  // A word of n bits has no bit at or above n, and the other way round.
  lemma {:induction false} SmallBit(x: nat, n: nat, i: nat)
    requires x < Pow2(n) && n <= i
    ensures !Bit(x, i)
    decreases n
  {
    if n == 0 { ZeroBits(i); }
    else { SmallBit(x / 2, n - 1, i - 1); }
  }

  lemma {:induction false} HighBit(x: nat, n: nat) returns (i: nat)
    requires x >= Pow2(n)
    ensures i >= n && Bit(x, i)
    decreases x
  {
    if x == 1 { i := 0; assert n == 0; }
    else {
      i := HighBit(x / 2, if n == 0 then 0 else n - 1);
      i := i + 1;
    }
  }

  // Words with the same bits are equal.
  lemma {:induction false} SameBits(x: nat, y: nat)
    requires forall i: nat :: Bit(x, i) == Bit(y, i)
    ensures x == y
    decreases x + y
  {
    assert Bit(x, 0) == Bit(y, 0);
    if x != 0 || y != 0 {
      forall i: nat ensures Bit(x / 2, i) == Bit(y / 2, i) {
        assert Bit(x, i + 1) == Bit(y, i + 1);
      }
      SameBits(x / 2, y / 2);
    }
  }

  lemma BelowPow2(x: nat, n: nat)
    requires forall i: nat | i >= n :: !Bit(x, i)
    ensures x < Pow2(n)
  {
    if x >= Pow2(n) {
      var i := HighBit(x, n);
      assert false;
    }
  }

  // A single-bit mask selects that bit.
  lemma {:induction false} AndPow2(x: nat, k: nat)
    ensures And(x, Pow2(k)) == if Bit(x, k) then Pow2(k) else 0
    decreases k
  {
    if k == 0 { AndZero(x / 2); }
    else { AndPow2(x / 2, k - 1); }
  }

  lemma {:induction false} AndZero(x: nat)
    ensures And(x, 0) == 0
  {
    if x != 0 { AndZero(x / 2); }
  }

  // Setting a bit above all the others adds its weight.
  lemma {:induction false} OrPow2(x: nat, k: nat)
    requires x < Pow2(k)
    ensures Or(x, Pow2(k)) == x + Pow2(k)
    decreases k
  {
    if k == 0 { assert Or(0, 1) == 1 + 2 * Or(0, 0); }
    else { OrPow2(x / 2, k - 1); }
  }

  // ----- Arithmetic modulo m -----

  // Or with a shifted value is addition when the low bits are free.
  lemma {:induction false} OrShifted(x: nat, i: nat)
    requires x < 256
    ensures Or(x, i * 256) == x + i * 256
  {
    OrHalf(x, i, 8);
    assert Pow2(8) == 256;
  }

  lemma {:induction false} OrHalf(x: nat, i: nat, k: nat)
    requires x < Pow2(k)
    ensures Or(x, i * Pow2(k)) == x + i * Pow2(k)
    decreases k
  {
    if k == 0 { OrZeroLeft(i); }
    else {
      var y := i * Pow2(k);
      assert y == 2 * (i * Pow2(k - 1));
      OrHalf(x / 2, i, k - 1);
    }
  }

  // Or with a shifted value leaves the low bits alone.
  lemma {:induction false} OrLow(x: nat, i: nat, k: nat)
    ensures Rem(Or(x, i * Pow2(k)), Pow2(k)) == Rem(x, Pow2(k))
    decreases k
  {
    hide Or, Pow2, Rem;
    if k > 0 {
      ShiftedHalf(i, k);
      OrLow(x / 2, i, k - 1);
      OrDouble(x, i * Pow2(k - 1));
      RemDouble(Or(x, i * Pow2(k)), Pow2(k - 1));
      RemDouble(x, Pow2(k - 1));
    } else {
      RemOne(Or(x, i * Pow2(0)));
      RemOne(x);
    }
  }

  lemma RemOne(x: nat)
    ensures Pow2(0) == 1 && Rem(x, 1) == 0
  {
  }

  lemma ShiftedHalf(i: nat, k: nat)
    requires k > 0
    ensures Pow2(k) == 2 * Pow2(k - 1) && i * Pow2(k) == 2 * (i * Pow2(k - 1))
  {
  }

  lemma OrDouble(x: nat, z: nat)
    ensures Or(x, 2 * z) / 2 == Or(x / 2, z) && Or(x, 2 * z) % 2 == x % 2
  {
    if x == 0 && z == 0 { assert Or(0, 0) == 0; }
  }

  lemma RemDouble(x: nat, p: nat)
    requires p > 0
    ensures Rem(x, 2 * p) == 2 * Rem(x / 2, p) + x % 2
  {
    var q, r := x / 2 / p, x / 2 % p;
    assert x / 2 == q * p + r;
    assert q * (2 * p) == 2 * (q * p);
    ModUnique(x, q, 2 * r + x % 2, 2 * p);
  }

  lemma {:induction false} OrZeroLeft(i: nat)
    ensures Or(0, i) == i
  {
    if i != 0 { OrZeroLeft(i / 2); }
  }

  lemma ModUnique(x: int, q: int, r: int, m: nat)
    requires m > 0 && x == q * m + r && 0 <= r < m
    ensures x % m == r
  {
    var p, s := x / m, x % m;
    assert (p - q) * m == r - s;
    MulAtLeast(p - q, m);
  }

  lemma MulAtLeast(d: int, m: int)
    requires m > 0
    ensures d >= 1 ==> d * m >= m
    ensures d <= -1 ==> d * m <= -m
  {
  }

  lemma ModShift(x: int, k: int, m: nat)
    requires m > 0
    ensures (x + k * m) % m == x % m
  {
    assert x + k * m == (x / m + k) * m + x % m;
    ModUnique(x + k * m, x / m + k, x % m, m);
  }

  function Rem(x: int, m: nat): (r: nat)
    requires m > 0
    ensures r < m
  {
    x % m
  }

  lemma RemRem(x: int, m: nat)
    requires m > 0
    ensures Rem(Rem(x, m), m) == Rem(x, m)
  {
    ModUnique(x % m, 0, x % m, m);
  }

  lemma RemSmall(x: nat, m: nat)
    requires x < m
    ensures Rem(x, m) == x
  {
    ModUnique(x, 0, x, m);
  }

  // Replacing the operands of an affine step by congruent ones keeps its residue.
  lemma RemMulAdd(s: int, a: int, c: int, s': int, a': int, c': int, m: nat)
    requires m > 0 && Rem(s, m) == Rem(s', m) && Rem(a, m) == Rem(a', m) && Rem(c, m) == Rem(c', m)
    ensures Rem(s * a + c, m) == Rem(s' * a' + c', m)
  {
    var p, q, r := s / m - s' / m, a / m - a' / m, c / m - c' / m;
    Quotient(s, s', m);
    Quotient(a, a', m);
    Quotient(c, c', m);
    RemExpanded(s', a', c', p, q, r, s, a, c, m);
  }

  lemma RemExpanded(s: int, a: int, c: int, p: int, q: int, r: int, s': int, a': int, c': int, m: nat)
    requires m > 0 && s' == s + p * m && a' == a + q * m && c' == c + r * m
    ensures Rem(s' * a' + c', m) == Rem(s * a + c, m)
  {
    hide Rem;
    var k := s * q + p * a + p * m * q + r;
    Expand(s, a, c, p, q, r, m);
    RemShift(s * a + c, k, m);
  }

  lemma RemShift(x: int, k: int, m: nat)
    requires m > 0
    ensures Rem(x + k * m, m) == Rem(x, m)
  {
    ModShift(x, k, m);
  }

  lemma RemMul(s: int, a: int, s': int, a': int, m: nat)
    requires m > 0 && Rem(s, m) == Rem(s', m) && Rem(a, m) == Rem(a', m)
    ensures Rem(s * a, m) == Rem(s' * a', m)
  {
    hide Rem;
    RemMulAdd(s, a, 0, s', a', 0, m);
  }

  lemma Quotient(s: int, t: int, m: nat)
    requires m > 0 && s % m == t % m
    ensures s == t + (s / m - t / m) * m
  {
    assert s == s / m * m + s % m && t == t / m * m + t % m;
    assert (s / m - t / m) * m == s / m * m - t / m * m;
  }

  lemma Expand(s: int, a: int, c: int, p: int, q: int, r: int, m: int)
    ensures (s + p * m) * (a + q * m) + (c + r * m)
         == s * a + c + (s * q + p * a + p * m * q + r) * m
  {
    calc {
      (s + p * m) * (a + q * m);
      s * a + s * (q * m) + p * m * a + p * m * (q * m);
      { assert s * (q * m) == s * q * m; assert p * m * a == p * a * m; assert p * m * (q * m) == p * m * q * m; }
      s * a + s * q * m + p * a * m + p * m * q * m;
    }
  }

  lemma ModOfMod(x: int, m: nat, k: nat)
    requires m > 0 && k > 0
    ensures x % (m * k) % m == x % m
  {
    var q := x / (m * k);
    assert x == q * (m * k) + x % (m * k);
    assert q * (m * k) == q * k * m;
    ModShift(x % (m * k), q * k, m);
  }

  // ----- Sums -----

  function Total(s: seq<nat>): nat {
    if s == [] then 0 else Total(s[..|s| - 1]) + s[|s| - 1]
  }

  lemma TotalMore(s: seq<nat>, n: nat)
    ensures Total(s + [n]) == Total(s) + n
  {
    assert (s + [n])[..|s|] == s;
  }

  lemma {:induction false} TotalFront(s: seq<nat>)
    requires s != []
    ensures Total(s) == s[0] + Total(s[1..])
  {
    if |s| > 1 {
      TotalFront(s[..|s| - 1]);
      assert s[..|s| - 1][1..] == s[1..][..|s| - 2];
    }
  }
}
