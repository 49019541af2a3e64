// The linear congruential core of the PCG engine (dep/PCG/pcg_random.hpp): one
// step, logarithmic jump-ahead, stepping back and the bit-by-bit distance.
// States are naturals below 2^width, for any width.
module PcgLcg {
  import opened Bits

  // One step: state * multiplier + increment in an unsigned type of n bits.
  function Bump(s: nat, a: nat, c: nat, n: nat): (r: nat)
    ensures r < Pow2(n)
  {
    Rem(s * a + c, Pow2(n))
  }

  function Iterate(s: nat, d: nat, a: nat, c: nat, n: nat): nat
    decreases d
  {
    if d == 0 then s else Iterate(Bump(s, a, c, n), d - 1, a, c, n)
  }

  // ----- The same walk over the integers, reduced only at the end -----

  function Walk(s: nat, d: nat, a: nat, c: nat): nat
    decreases d
  {
    if d == 0 then s else Walk(s * a + c, d - 1, a, c)
  }

  lemma {:induction false} WalkCong(s: nat, s': nat, d: nat, a: nat, a': nat, c: nat, c': nat, m: nat)
    requires m > 0 && Rem(s, m) == Rem(s', m) && Rem(a, m) == Rem(a', m) && Rem(c, m) == Rem(c', m)
    ensures Rem(Walk(s, d, a, c), m) == Rem(Walk(s', d, a', c'), m)
    decreases d
  {
    hide Rem;
    if d > 0 {
      RemMulAdd(s, a, c, s', a', c', m);
      WalkCong(s * a + c, s' * a' + c', d - 1, a, a', c, c', m);
    }
  }

  lemma {:induction false} IterateIsWalk(s: nat, d: nat, a: nat, c: nat, n: nat)
    requires s < Pow2(n)
    ensures Iterate(s, d, a, c, n) == Rem(Walk(s, d, a, c), Pow2(n))
    decreases d
  {
    hide Rem;
    if d == 0 {
      RemSmall(s, Pow2(n));
    } else {
      IterateIsWalk(Bump(s, a, c, n), d - 1, a, c, n);
      RemRem(s * a + c, Pow2(n));
      WalkCong(Bump(s, a, c, n), s * a + c, d - 1, a, a, c, c, Pow2(n));
    }
  }

  lemma {:induction false} WalkAdd(s: nat, d: nat, e: nat, a: nat, c: nat)
    ensures Walk(s, d + e, a, c) == Walk(Walk(s, d, a, c), e, a, c)
    decreases d
  {
    if d > 0 { WalkAdd(s * a + c, d - 1, e, a, c); }
  }

  // Two steps of a map are one step of its square.
  lemma {:induction false} WalkDouble(s: nat, d: nat, a: nat, c: nat)
    ensures Walk(s, 2 * d, a, c) == Walk(s, d, a * a, (a + 1) * c)
    decreases d
  {
    if d > 0 {
      var t := (s * a + c) * a + c;
      calc {
        Walk(s, 2 * d, a, c);
        Walk(s * a + c, 2 * d - 1, a, c);
        Walk(t, 2 * (d - 1), a, c);
        { WalkDouble(t, d - 1, a, c); }
        Walk(t, d - 1, a * a, (a + 1) * c);
        { assert t == s * (a * a) + (a + 1) * c; }
        Walk(s * (a * a) + (a + 1) * c, d - 1, a * a, (a + 1) * c);
        Walk(s, d, a * a, (a + 1) * c);
      }
    }
  }

  // The map a*x + c composed 2^k times with itself.
  function MultPow(a: nat, k: nat): nat {
    if k == 0 then a else MultPow(a, k - 1) * MultPow(a, k - 1)
  }

  function PlusPow(a: nat, c: nat, k: nat): nat {
    if k == 0 then c else (MultPow(a, k - 1) + 1) * PlusPow(a, c, k - 1)
  }

  lemma {:induction false} WalkPow2(s: nat, d: nat, a: nat, c: nat, k: nat)
    ensures Walk(s, Pow2(k) * d, a, c) == Walk(s, d, MultPow(a, k), PlusPow(a, c, k))
    decreases k
  {
    if k > 0 {
      assert Pow2(k) * d == Pow2(k - 1) * (2 * d);
      WalkPow2(s, 2 * d, a, c, k - 1);
      WalkDouble(s, d, MultPow(a, k - 1), PlusPow(a, c, k - 1));
    }
  }

  // ----- advance -----

  // One round of the loop: consume the low bit of delta and square the map.
  lemma AdvanceStep(x: nat, y: nat, delta: nat, a: nat, c: nat, a2: nat, c2: nat, m: nat)
    requires m > 0 && delta > 0
    requires Rem(y, m) == Rem(if delta % 2 == 1 then x * a + c else x, m)
    requires Rem(a2, m) == Rem(a * a, m) && Rem(c2, m) == Rem((a + 1) * c, m)
    ensures Rem(Walk(y, delta / 2, a2, c2), m) == Rem(Walk(x, delta, a, c), m)
  {
    hide Rem;
    var z := if delta % 2 == 1 then x * a + c else x;
    assert Walk(x, delta, a, c) == Walk(z, 2 * (delta / 2), a, c);
    WalkDouble(z, delta / 2, a, c);
    WalkCong(y, z, delta / 2, a2, a * a, c2, (a + 1) * c, m);
  }

  // The static advance: delta steps with one multiplication pair per bit of delta.
  method Advance(state: nat, delta: nat, mult: nat, plus: nat, n: nat) returns (r: nat)
    requires state < Pow2(n) && mult < Pow2(n) && plus < Pow2(n)
    ensures r == Iterate(state, delta, mult, plus, n)
  {
    hide Rem;
    var m := Pow2(n);
    hide Pow2;
    var curMult, curPlus, d := mult, plus, delta;
    var accMult: nat, accPlus: nat := Rem(1, m), 0;
    RemRem(1, m);
    RemMulAdd(Rem(1, m), state, 0, 1, state, 0, m);
    WalkCong(accMult * state + accPlus, state, delta, mult, mult, plus, plus, m);
    while d > 0
      invariant Rem(Walk(accMult * state + accPlus, d, curMult, curPlus), m)
             == Rem(Walk(state, delta, mult, plus), m)
    {
      ghost var x, y := accMult * state + accPlus, accMult * state + accPlus;
      var nextPlus := Rem(Rem(curMult + 1, m) * curPlus, m);
      var nextMult := Rem(curMult * curMult, m);
      SquareRounds(curMult, curPlus, m);
      if d % 2 == 1 {
        ComposeStep(state, accMult, accPlus, curMult, curPlus, m);
        accPlus := Rem(accPlus * curMult + curPlus, m);
        accMult := Rem(accMult * curMult, m);
        y := accMult * state + accPlus;
      }
      AdvanceStep(x, y, d, curMult, curPlus, nextMult, nextPlus, m);
      curPlus, curMult := nextPlus, nextMult;
      d := d / 2;
    }
    IterateIsWalk(state, delta, mult, plus, n);
    r := Rem(accMult * state + accPlus, m);
  }

  lemma SquareRounds(a: nat, c: nat, m: nat)
    requires m > 0
    ensures Rem(Rem(a * a, m), m) == Rem(a * a, m)
    ensures Rem(Rem(Rem(a + 1, m) * c, m), m) == Rem((a + 1) * c, m)
  {
    hide Rem;
    RemRem(a * a, m);
    RemRem(a + 1, m);
    RemMul(Rem(a + 1, m), c, a + 1, c, m);
    RemRem(Rem(a + 1, m) * c, m);
  }

  lemma ComposeStep(s: nat, u: nat, v: nat, a: nat, c: nat, m: nat)
    requires m > 0
    ensures Rem(Rem(u * a, m) * s + Rem(v * a + c, m), m) == Rem((u * s + v) * a + c, m)
  {
    hide Rem;
    RemRem(u * a, m);
    RemRem(v * a + c, m);
    RemMulAdd(Rem(u * a, m), s, Rem(v * a + c, m), u * a, s, v * a + c, m);
    ComposeExact(s, u, v, a, c);
  }

  lemma ComposeExact(s: nat, u: nat, v: nat, a: nat, c: nat)
    ensures u * a * s + (v * a + c) == (u * s + v) * a + c
  {
    assert (u * s + v) * a == u * s * a + v * a;
    assert u * s * a == u * a * s;
  }

  // ----- Periods and stepping back -----

  lemma SquareOdd(u: nat, h: nat)
    ensures (u * h + 1) * (u * h + 1) == (u * u * h + 2 * u) * h + 1
  {
    var t := u * h;
    assert (t + 1) * (t + 1) == t * t + 2 * t + 1;
    assert t * t == u * u * h * h;
  }

  // If x is 1 modulo an even h then x*x is 1 modulo 2h.
  lemma SquareIsOne(x: nat, h: nat)
    requires h > 0 && h % 2 == 0 && Rem(x, h) == 1
    ensures Rem(x * x, 2 * h) == 1
  {
    var u, g := x / h, h / 2;
    assert x == u * h + 1;
    SquareOdd(u, h);
    assert u * u * h == 2 * (u * u * g) by { assert u * u * (2 * g) == 2 * (u * u * g); }
    var q := u * u * g + u;
    assert x * x == (2 * q) * h + 1;
    assert (2 * q) * h == q * (2 * h);
    ModUnique(x * x, q, 1, 2 * h);
  }

  // 2^k rounds of squaring an odd multiplier give 1 modulo 2^(k+1).
  lemma {:induction false} MultPowOdd(a: nat, k: nat)
    requires a % 2 == 1
    ensures Rem(MultPow(a, k), Pow2(k + 1)) == 1
    decreases k
  {
    if k == 0 {
      assert Pow2(1) == 2;
    } else {
      MultPowOdd(a, k - 1);
      SquareIsOne(MultPow(a, k - 1), Pow2(k));
    }
  }

  lemma RemParity(x: nat, h: nat)
    requires h > 0 && h % 2 == 0
    ensures Rem(x, h) % 2 == x % 2
  {
    var q, g := x / h, h / 2;
    assert x == q * h + x % h;
    assert q * h == 2 * (q * g) by { assert q * (2 * g) == 2 * (q * g); }
  }

  lemma {:induction false} MultPowParity(a: nat, k: nat)
    requires a % 2 == 1
    ensures MultPow(a, k) % 2 == 1
  {
    if k > 0 {
      MultPowParity(a, k - 1);
      SquareIsOne(MultPow(a, k - 1), 2);
      RemParity(MultPow(a, k), 4);
    }
  }

  // ... and make the constant vanish modulo 2^k.
  lemma {:induction false} PlusPowOdd(a: nat, c: nat, k: nat)
    requires a % 2 == 1
    ensures Rem(PlusPow(a, c, k), Pow2(k)) == 0
    decreases k
  {
    hide Rem;
    if k == 0 {
      OneDivides(PlusPow(a, c, 0));
    } else {
      PlusPowOdd(a, c, k - 1);
      MultPowParity(a, k - 1);
      EvenTimes(MultPow(a, k - 1) + 1, PlusPow(a, c, k - 1), Pow2(k - 1));
    }
  }

  lemma OneDivides(x: nat)
    ensures Rem(x, 1) == 0
  {
  }

  lemma EvenTimes(e: nat, p: nat, h: nat)
    requires h > 0 && e % 2 == 0 && Rem(p, h) == 0
    ensures Rem(e * p, 2 * h) == 0
  {
    var q, v := p / h, e / 2;
    assert p == q * h;
    assert e * p == v * q * (2 * h) by { assert 2 * v * (q * h) == v * q * (2 * h); }
    ModUnique(e * p, v * q, 0, 2 * h);
  }

  // Every orbit of an invertible step closes after 2^n steps.
  lemma FullTurn(s: nat, a: nat, c: nat, n: nat)
    requires s < Pow2(n) && a % 2 == 1
    ensures Iterate(s, Pow2(n), a, c, n) == s
  {
    hide Rem;
    var m := Pow2(n);
    MultPowOdd(a, n);
    PlusPowOdd(a, c, n);
    IterateIsWalk(s, m, a, c, n);
    WalkPow2(s, 1, a, c, n);
    assert Walk(s, m, a, c) == s * MultPow(a, n) + PlusPow(a, c, n);
    OneModHalf(MultPow(a, n), m);
    RemSmall(0, m);
    RemMulAdd(s, MultPow(a, n), PlusPow(a, c, n), s, 1, 0, m);
    RemSmall(s, m);
  }

  lemma OneModHalf(x: nat, m: nat)
    requires m > 0 && Rem(x, 2 * m) == 1
    ensures Rem(x, m) == Rem(1, m)
  {
    ModOfMod(x, m, 2);
    assert m * 2 == 2 * m;
  }

  lemma {:induction false} IterateAdd(s: nat, d: nat, e: nat, a: nat, c: nat, n: nat)
    ensures Iterate(s, d + e, a, c, n) == Iterate(Iterate(s, d, a, c, n), e, a, c, n)
    decreases d
  {
    if d > 0 { IterateAdd(Bump(s, a, c, n), d - 1, e, a, c, n); }
  }

  lemma {:induction false} IterateRange(s: nat, d: nat, a: nat, c: nat, n: nat)
    requires s < Pow2(n)
    ensures Iterate(s, d, a, c, n) < Pow2(n)
    decreases d
  {
    if d > 0 { IterateRange(Bump(s, a, c, n), d - 1, a, c, n); }
  }

  // The negated delta of backstep, in an unsigned type.
  function Negate(d: nat, n: nat): nat
    requires d < Pow2(n)
  {
    if d == 0 then 0 else Pow2(n) - d
  }

  // Jumping by d and by -d cancel, in either order, from every state.
  ghost predicate BackstepCancels(a: nat, c: nat, n: nat) {
    forall s: nat, d: nat :: s < Pow2(n) && d < Pow2(n) ==>
      && Iterate(Iterate(s, d, a, c, n), Negate(d, n), a, c, n) == s
      && Iterate(Iterate(s, Negate(d, n), a, c, n), d, a, c, n) == s
  }

  // They cancel exactly when the multiplier is odd.
  lemma BackstepUndoes(a: nat, c: nat, n: nat)
    requires n > 0
    ensures BackstepCancels(a, c, n) <==> a % 2 == 1
  {
    hide Bump;
    if a % 2 == 1 {
      forall s: nat, d: nat | s < Pow2(n) && d < Pow2(n)
        ensures Iterate(Iterate(s, d, a, c, n), Negate(d, n), a, c, n) == s
        ensures Iterate(Iterate(s, Negate(d, n), a, c, n), d, a, c, n) == s
      {
        FullTurn(s, a, c, n);
        IterateAdd(s, d, Negate(d, n), a, c, n);
        IterateAdd(s, Negate(d, n), d, a, c, n);
      }
    } else {
      EvenCollides(a, c, n);
      var h := Pow2(n - 1);
      var s := if Iterate(Iterate(0, 1, a, c, n), Negate(1, n), a, c, n) == 0 then h else 0;
      assert Iterate(Iterate(s, 1, a, c, n), Negate(1, n), a, c, n) != s;
    }
  }

  lemma EvenCollides(a: nat, c: nat, n: nat)
    requires n > 0 && a % 2 == 0
    ensures Iterate(0, 1, a, c, n) == Iterate(Pow2(n - 1), 1, a, c, n)
  {
    var h := Pow2(n - 1);
    assert h * a == a / 2 * Pow2(n) by { assert h * (2 * (a / 2)) == a / 2 * (2 * h); }
    ModShift(c, a / 2, Pow2(n));
    assert Iterate(0, 1, a, c, n) == Iterate(Bump(0, a, c, n), 0, a, c, n);
    assert Iterate(h, 1, a, c, n) == Iterate(Bump(h, a, c, n), 0, a, c, n);
  }
}
