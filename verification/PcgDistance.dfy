// distance: how many steps lead from one engine state to another, found one bit
// at a time, and the engine object whose jumps it measures.
module PcgDistance {
  import opened Bits
  import opened PcgLcg

  // ----- Residues and bits -----

  lemma RemNested(x: nat, n: nat, k: nat)
    requires k <= n
    ensures Rem(Rem(x, Pow2(n)), Pow2(k)) == Rem(x, Pow2(k))
  {
    Pow2Add(k, n - k);
    ModOfMod(x, Pow2(k), Pow2(n - k));
  }

  lemma {:induction false} RemBit(x: nat, k: nat)
    ensures Rem(x, Pow2(k + 1)) == Rem(x, Pow2(k)) + (if Bit(x, k) then Pow2(k) else 0)
    decreases k
  {
    if k == 0 {
      assert Pow2(1) == 2;
    } else {
      RemBit(x / 2, k - 1);
      RemHalf(x, Pow2(k - 1));
      RemHalf(x, Pow2(k));
    }
  }

  lemma RemHalf(x: nat, h: nat)
    requires h > 0
    ensures Rem(x, 2 * h) == 2 * Rem(x / 2, h) + x % 2
  {
    var q := x / 2 / h;
    assert x / 2 == q * h + (x / 2) % h;
    assert x == q * (2 * h) + 2 * ((x / 2) % h) + x % 2;
    ModUnique(x, q, 2 * ((x / 2) % h) + x % 2, 2 * h);
  }

  // Adding 2^j flips bit j and keeps the bits below it.
  lemma AddFlips(x: nat, y: nat, j: nat)
    requires Rem(y, Pow2(j + 1)) == Rem(x + Pow2(j), Pow2(j + 1))
    ensures Bit(y, j) != Bit(x, j)
    ensures Rem(y, Pow2(j)) == Rem(x, Pow2(j))
  {
    var h := Pow2(j);
    RemBit(x, j);
    RemBit(y, j);
    assert Rem(x, h) < h && Rem(y, h) < h;
    var r := Rem(x, 2 * h);
    Shifted(x, h);
  }

  lemma Shifted(x: nat, h: nat)
    requires h > 0
    ensures Rem(x + h, 2 * h) == if Rem(x, 2 * h) < h then Rem(x, 2 * h) + h else Rem(x, 2 * h) - h
  {
    var q, r := x / (2 * h), x % (2 * h);
    assert x == q * (2 * h) + r;
    if r < h { ModUnique(x + h, q, r + h, 2 * h); }
    else {
      assert (q + 1) * (2 * h) == q * (2 * h) + 2 * h;
      ModUnique(x + h, q + 1, r - h, 2 * h);
    }
  }

  // ----- The powers of the step act on a single bit -----

  // Increment odd, multiplier 1 modulo 4: 2^k steps add an odd multiple of 2^k.
  lemma {:induction false} PlusPowExact(a: nat, c: nat, k: nat)
    requires a % 4 == 1 && c % 2 == 1
    ensures Rem(PlusPow(a, c, k), Pow2(k + 1)) == Pow2(k)
    ensures MultPow(a, k) % 4 == 1
    decreases k
  {
    hide Rem, MultPow, PlusPow, Pow2;
    MultPowMod4(a, k);
    if k == 0 {
      PowersStart(a, c);
      OddRem(c);
    } else {
      MultPowMod4(a, k - 1);
      PlusPowExact(a, c, k - 1);
      PlusPowNext(a, c, k);
    }
  }

  lemma {:induction false} MultPowMod4(a: nat, k: nat)
    requires a % 4 == 1
    ensures MultPow(a, k) % 4 == 1
  {
    if k > 0 {
      MultPowMod4(a, k - 1);
      SquareMod4(MultPow(a, k - 1));
    }
  }

  lemma PlusPowNext(a: nat, c: nat, k: nat)
    requires k > 0 && MultPow(a, k - 1) % 4 == 1 && Rem(PlusPow(a, c, k - 1), Pow2(k)) == Pow2(k - 1)
    ensures Rem(PlusPow(a, c, k), Pow2(k + 1)) == Pow2(k)
  {
    hide Rem, MultPow;
    OddTimes(MultPow(a, k - 1) + 1, PlusPow(a, c, k - 1), Pow2(k - 1));
  }

  lemma PowersStart(a: nat, c: nat)
    ensures MultPow(a, 0) == a && PlusPow(a, c, 0) == c
    ensures Pow2(0) == 1 && Pow2(1) == 2 && Pow2(2) == 4 && Pow2(3) == 8
  {
    assert Pow2(1) == 2;
  }

  lemma PowersNext(a: nat, c: nat, k: nat)
    requires k > 0
    ensures MultPow(a, k) == MultPow(a, k - 1) * MultPow(a, k - 1)
    ensures PlusPow(a, c, k) == (MultPow(a, k - 1) + 1) * PlusPow(a, c, k - 1)
    ensures Pow2(k) == 2 * Pow2(k - 1) && Pow2(k + 1) == 4 * Pow2(k - 1) && Pow2(k + 2) == 8 * Pow2(k - 1)
    ensures Pow2(k + 3) == 16 * Pow2(k - 1)
  {
  }

  lemma OddRem(x: nat)
    requires x % 2 == 1
    ensures Rem(x, 2) == 1
  {
  }

  lemma SquareMod4(x: nat)
    requires x % 4 == 1
    ensures x * x % 4 == 1
  {
    var q := x / 4;
    SquareExpanded(x, q);
    ModUnique(x * x, 4 * (q * q) + 2 * q, 1, 4);
  }

  lemma SquareExpanded(x: nat, q: nat)
    requires x == 4 * q + 1
    ensures x * x == (4 * (q * q) + 2 * q) * 4 + 1
  {
  }

  lemma OddTimes(e: nat, p: nat, h: nat)
    requires h > 0 && e % 4 == 2 && Rem(p, 2 * h) == h
    ensures Rem(e * p, 4 * h) == 2 * h
  {
    var q, v := p / (2 * h), e / 4;
    assert p == q * (2 * h) + h;
    assert e == 4 * v + 2;
    var k := v * (2 * q + 1) + q;
    assert e * p == k * (4 * h) + 2 * h by {
      assert q * (2 * h) + h == (2 * q + 1) * h;
      assert (4 * v + 2) * ((2 * q + 1) * h) == (4 * v + 2) * (2 * q + 1) * h;
      assert (4 * v + 2) * (2 * q + 1) == 4 * (v * (2 * q + 1)) + 4 * q + 2;
      assert (4 * k + 2) * h == k * (4 * h) + 2 * h;
    }
    ModUnique(e * p, k, 2 * h, 4 * h);
  }

  // Multiplier 5 modulo 8: 2^k steps multiply by 1 + 2^(k+2) modulo 2^(k+3).
  lemma {:induction false} MultPowExact(a: nat, k: nat)
    requires a % 8 == 5
    ensures Rem(MultPow(a, k), Pow2(k + 3)) == 1 + Pow2(k + 2)
    decreases k
  {
    hide Rem, MultPow, PlusPow, Pow2;
    PowersStart(a, 0);
    if k == 0 {
      RemFive(a);
    } else {
      PowersNext(a, 0, k);
      MultPowExact(a, k - 1);
      SquareExact(MultPow(a, k - 1), Pow2(k + 1));
    }
  }

  lemma RemFive(x: nat)
    requires x % 8 == 5
    ensures Rem(x, 8) == 5
  {
  }

  lemma SquareExact(x: nat, h: nat)
    requires h >= 4 && h % 4 == 0 && Rem(x, 2 * h) == 1 + h
    ensures Rem(x * x, 4 * h) == 1 + 2 * h
  {
    var u, g := x / (2 * h), h / 4;
    var w := 2 * u + 1;
    assert x == w * h + 1;
    SquareOdd(w, h);
    assert w * w * h == 4 * (w * w * g) by { assert w * w * (4 * g) == 4 * (w * w * g); }
    var q := w * w * g + u;
    assert x * x == (4 * q + 2) * h + 1;
    assert (4 * q + 2) * h == q * (4 * h) + 2 * h;
    ModUnique(x * x, q, 1 + 2 * h, 4 * h);
  }

  // The states and parameters distance is meant for.
  predicate Full(a: nat, c: nat, n: nat) {
    n >= 2 && a % 4 == 1 && c % 2 == 1
  }

  predicate Mcg(a: nat, c: nat, n: nat) {
    n >= 3 && a % 8 == 5 && c == 0
  }

  // Bit position settled at round k: the two low bits of an MCG never change.
  function Position(k: nat, mcg: bool): nat {
    if mcg then k + 2 else k
  }

  lemma StepFlips(x: nat, a: nat, c: nat, k: nat, n: nat)
    requires Full(a, c, n) || (Mcg(a, c, n) && x % 2 == 1)
    ensures var j := Position(k, c == 0);
      Rem(x * MultPow(a, k) + PlusPow(a, c, k), Pow2(j + 1)) == Rem(x + Pow2(j), Pow2(j + 1))
  {
    hide Rem;
    var j := Position(k, c == 0);
    var m := Pow2(j + 1);
    if c != 0 {
      MultPowOdd(a, k);
      PlusPowExact(a, c, k);
      assert Pow2(k) < m;
      RemSmall(1, m);
      RemSmall(Pow2(k), m);
      RemMulAdd(x, MultPow(a, k), PlusPow(a, c, k), x, 1, Pow2(k), m);
    } else {
      MultPowExact(a, k);
      PlusPowZero(a, k);
      assert 1 + Pow2(j) < m;
      RemSmall(1 + Pow2(j), m);
      RemMulAdd(x, MultPow(a, k), 0, x, 1 + Pow2(j), 0, m);
      OddShift(x, Pow2(j));
    }
  }

  lemma {:induction false} PlusPowZero(a: nat, k: nat)
    ensures PlusPow(a, 0, k) == 0
  {
    if k > 0 { PlusPowZero(a, k - 1); }
  }

  lemma OddShift(x: nat, h: nat)
    requires h > 0 && x % 2 == 1
    ensures Rem(x * (1 + h) + 0, 2 * h) == Rem(x + h, 2 * h)
  {
    var q := x / 2;
    assert x * (1 + h) == (x + h) + q * (2 * h) by {
      assert x * h == (2 * q + 1) * h;
      assert (2 * q + 1) * h == q * (2 * h) + h;
    }
    ModShift(x + h, q, 2 * h);
  }

  // ----- distance -----

  lemma JumpPow2(s: nat, e: nat, x: nat, a: nat, c: nat, k: nat, u: nat, v: nat, n: nat)
    requires s < Pow2(n) && x == Iterate(s, e, a, c, n)
    requires u == Rem(MultPow(a, k), Pow2(n)) && v == Rem(PlusPow(a, c, k), Pow2(n))
    ensures Iterate(s, e + Pow2(k), a, c, n) == Rem(x * u + v, Pow2(n))
    ensures Rem(x * u + v, Pow2(n)) == Rem(x * MultPow(a, k) + PlusPow(a, c, k), Pow2(n))
  {
    hide Rem;
    var m := Pow2(n);
    IterateAdd(s, e, Pow2(k), a, c, n);
    IterateRange(s, e, a, c, n);
    IterateIsWalk(x, Pow2(k), a, c, n);
    WalkPow2(x, 1, a, c, k);
    assert Walk(x, Pow2(k), a, c) == Walk(x * MultPow(a, k) + PlusPow(a, c, k), 0, MultPow(a, k), PlusPow(a, c, k));
    RemRem(MultPow(a, k), m);
    RemRem(PlusPow(a, c, k), m);
    RemMulAdd(x, u, v, x, MultPow(a, k), PlusPow(a, c, k), m);
  }

  lemma NextPowers(a: nat, c: nat, k: nat, u: nat, v: nat, m: nat)
    requires m > 0 && u == Rem(MultPow(a, k), m) && v == Rem(PlusPow(a, c, k), m)
    ensures Rem(u * u, m) == Rem(MultPow(a, k + 1), m)
    ensures Rem(Rem(u + 1, m) * v, m) == Rem(PlusPow(a, c, k + 1), m)
  {
    hide Rem;
    var x, y := MultPow(a, k), PlusPow(a, c, k);
    RemRem(x, m);
    RemRem(y, m);
    RemMul(u, u, x, x, m);
    RemRem(u + 1, m);
    RemMulAdd(u, 1, 1, x, 1, 1, m);
    RemMul(Rem(u + 1, m), v, x + 1, y, m);
  }

  // One round settles one more bit and leaves the settled ones alone.
  lemma Settle(x: nat, t: nat, y: nat, a: nat, c: nat, k: nat, n: nat)
    requires Full(a, c, n) || (Mcg(a, c, n) && x % 2 == 1)
    requires Position(k, c == 0) < n
    requires Rem(x, Pow2(Position(k, c == 0))) == Rem(t, Pow2(Position(k, c == 0)))
    requires y == if Bit(x, Position(k, c == 0)) == Bit(t, Position(k, c == 0)) then x
                  else Rem(x * MultPow(a, k) + PlusPow(a, c, k), Pow2(n))
    ensures Bit(y, Position(k, c == 0)) == Bit(t, Position(k, c == 0))
    ensures Rem(y, Pow2(Position(k, c == 0) + 1)) == Rem(t, Pow2(Position(k, c == 0) + 1))
  {
    hide Rem, MultPow, PlusPow;
    var j := Position(k, c == 0);
    RemBit(t, j);
    RemBit(y, j);
    if Bit(x, j) != Bit(t, j) {
      var z := x * MultPow(a, k) + PlusPow(a, c, k);
      StepFlips(x, a, c, k, n);
      RemNested(z, n, j + 1);
      AddFlips(x, y, j);
    }
  }

  lemma StaysOdd(x: nat, u: nat, n: nat)
    requires n > 0 && x % 2 == 1 && u % 2 == 1
    ensures Rem(x * u, Pow2(n)) % 2 == 1
  {
    hide Rem, Pow2;
    HalfOfPower(n);
    RemParity(x * u, Pow2(n));
    OddProduct(x, u);
  }

  lemma HalfOfPower(n: nat)
    requires n > 0
    ensures Pow2(n) > 0 && Pow2(n) % 2 == 0
  {
  }

  lemma OddProduct(x: nat, u: nat)
    requires x % 2 == 1 && u % 2 == 1
    ensures x * u % 2 == 1
  {
    var p, q := x / 2, u / 2;
    var t := 2 * (p * q) + p + q;
    assert x == 2 * p + 1 && u == 2 * q + 1;
    assert (2 * p + 1) * (2 * q + 1) == 2 * t + 1;
  }

  // What holds at the head of round k: e steps have been taken, and they have
  // settled every bit below the current one.
  ghost predicate Powers(k: nat, u: nat, v: nat, a: nat, c: nat, n: nat) {
    u == Rem(MultPow(a, k), Pow2(n)) && v == Rem(PlusPow(a, c, k), Pow2(n))
  }

  ghost predicate Settled(k: nat, e: nat, x: nat, s: nat, t: nat, a: nat, c: nat, n: nat) {
    && x < Pow2(n) && x == Iterate(s, e, a, c, n)
    && (c == 0 ==> x % 2 == 1)
    && Rem(x, Pow2(Position(k, c == 0))) == Rem(t, Pow2(Position(k, c == 0)))
  }

  ghost predicate Recorded(k: nat, e: nat, bit: nat, dist: nat, mcg: bool, n: nat) {
    && e < Pow2(k) && dist == (if mcg then 4 * e else e)
    && (Position(k, mcg) < n ==> bit == Pow2(Position(k, mcg)))
  }

  lemma RoundState(k: nat, e: nat, x: nat, y: nat, u: nat, v: nat, s: nat, t: nat, a: nat, c: nat, n: nat)
    requires Full(a, c, n) || Mcg(a, c, n)
    requires s < Pow2(n) && Position(k, c == 0) < n
    requires Powers(k, u, v, a, c, n) && Settled(k, e, x, s, t, a, c, n)
    requires Bit(x, Position(k, c == 0)) == Bit(t, Position(k, c == 0)) ==> y == x
    requires Bit(x, Position(k, c == 0)) != Bit(t, Position(k, c == 0)) ==> y == Rem(x * u + v, Pow2(n))
    ensures Bit(y, Position(k, c == 0)) == Bit(t, Position(k, c == 0))
    ensures Settled(k + 1, if Bit(x, Position(k, c == 0)) == Bit(t, Position(k, c == 0)) then e else e + Pow2(k),
                    y, s, t, a, c, n)
  {
    hide Rem, Iterate, MultPow, PlusPow, Bit, Pow2;
    var j := Position(k, c == 0);
    JumpPow2(s, e, x, a, c, k, u, v, n);
    Settle(x, t, y, a, c, k, n);
    if Bit(x, j) != Bit(t, j) && c == 0 {
      OddMultiplier(a, k, n);
      PlusPowZero(a, k);
      RemSmall(0, Pow2(n));
      StaysOdd(x, u, n);
    }
  }

  lemma RoundRecord(k: nat, e: nat, bit: nat, dist: nat, mcg: bool, n: nat)
    requires Recorded(k, e, bit, dist, mcg, n) && Position(k, mcg) < n
    ensures Or(dist, bit) == if mcg then 4 * (e + Pow2(k)) else e + Pow2(k)
    ensures Recorded(k + 1, e, Rem(2 * bit, Pow2(n)), dist, mcg, n)
    ensures Recorded(k + 1, e + Pow2(k), Rem(2 * bit, Pow2(n)), Or(dist, bit), mcg, n)
  {
    hide Rem, Or;
    var j := Position(k, mcg);
    assert mcg ==> Pow2(k + 2) == 4 * Pow2(k) by { assert Pow2(k + 2) == 2 * Pow2(k + 1); }
    OrPow2(dist, j);
    if j + 1 < n {
      Pow2Mono(j + 2, n);
      assert Pow2(j + 2) == 2 * Pow2(j + 1);
      RemSmall(2 * bit, Pow2(n));
    }
  }

  method Distance(state: nat, newState: nat, mult: nat, plus: nat, mask: nat, n: nat) returns (d: nat)
    requires state < Pow2(n) && newState < Pow2(n) && mult < Pow2(n) && plus < Pow2(n)
    requires Full(mult, plus, n)
          || (Mcg(mult, plus, n) && state % 2 == 1 && state % 4 == newState % 4)
    ensures d < Pow2(if plus == 0 then n - 2 else n)
    ensures And(Iterate(state, d, mult, plus, n), mask) == And(newState, mask)
    ensures mask == Ones(n) ==> Iterate(state, d, mult, plus, n) == newState
  {
    hide Rem, And, Or, Iterate, MultPow, PlusPow, Bit;
    var m := Pow2(n);
    var mcg := plus == 0;
    var curState: nat, curMult: nat, curPlus: nat := state, mult, plus;
    var theBit := if mcg then 4 else 1;
    var distance := 0;
    ghost var k: nat, e: nat := 0, 0;
    IterateZero(state, mult, plus, n);
    StartRound(state, newState, mult, plus, n);
    hide Powers, Settled, Recorded;
    while And(curState, mask) != And(newState, mask)
      invariant Position(k, mcg) <= n
      invariant Powers(k, curMult, curPlus, mult, plus, n)
      invariant Settled(k, e, curState, state, newState, mult, plus, n)
      invariant Recorded(k, e, theBit, distance, mcg, n)
      decreases n - k
    {
      ghost var j, x, e0 := Position(k, mcg), curState, e;
      AllSettled(k, e, curState, state, newState, mult, plus, n);
      RecordedBit(k, e, theBit, distance, mcg, n);
      AndPow2(curState, j);
      AndPow2(newState, j);
      RoundRecord(k, e, theBit, distance, mcg, n);
      if And(curState, theBit) != And(newState, theBit) {
        curState := Rem(curState * curMult + curPlus, m);
        distance := Or(distance, theBit);
        e := e + Pow2(k);
      }
      RoundState(k, e0, x, curState, curMult, curPlus, state, newState, mult, plus, n);
      AndPow2(curState, j);
      assert And(curState, theBit) == And(newState, theBit);
      RoundPowers(k, curMult, curPlus, mult, plus, n);
      theBit := Rem(2 * theBit, m);
      curPlus := Rem(Rem(curMult + 1, m) * curPlus, m);
      curMult := Rem(curMult * curMult, m);
      k := k + 1;
    }
    d := if mcg then distance / 4 else distance;
    Finish(k, e, curState, theBit, distance, state, newState, mult, plus, mask, n);
  }

  lemma RoundPowers(k: nat, u: nat, v: nat, a: nat, c: nat, n: nat)
    requires Powers(k, u, v, a, c, n)
    ensures Powers(k + 1, Rem(u * u, Pow2(n)), Rem(Rem(u + 1, Pow2(n)) * v, Pow2(n)), a, c, n)
  {
    hide Rem, MultPow, PlusPow;
    NextPowers(a, c, k, u, v, Pow2(n));
  }

  lemma RecordedBit(k: nat, e: nat, bit: nat, dist: nat, mcg: bool, n: nat)
    requires Recorded(k, e, bit, dist, mcg, n) && Position(k, mcg) < n
    ensures bit == Pow2(Position(k, mcg))
  {
  }

  lemma AllSettled(k: nat, e: nat, x: nat, s: nat, t: nat, a: nat, c: nat, n: nat)
    requires Settled(k, e, x, s, t, a, c, n) && t < Pow2(n) && x != t
    requires Position(k, c == 0) <= n
    ensures Position(k, c == 0) < n
  {
    hide Rem, Iterate;
    if Position(k, c == 0) == n {
      RemSmall(x, Pow2(n));
      RemSmall(t, Pow2(n));
    }
  }

  lemma Finish(k: nat, e: nat, x: nat, bit: nat, dist: nat, s: nat, t: nat, a: nat, c: nat, mask: nat, n: nat)
    requires Settled(k, e, x, s, t, a, c, n) && Recorded(k, e, bit, dist, c == 0, n)
    requires Position(k, c == 0) <= n && t < Pow2(n) && And(x, mask) == And(t, mask)
    ensures var d := if c == 0 then dist / 4 else dist;
      && d < Pow2(if c == 0 then n - 2 else n)
      && Iterate(s, d, a, c, n) == x
      && (mask == Ones(n) ==> x == t)
  {
    hide Rem, Iterate, And;
    Pow2Mono(k, if c == 0 then n - 2 else n);
    if mask == Ones(n) {
      AndAll(x, n);
      AndAll(t, n);
    }
  }

  lemma IterateZero(s: nat, a: nat, c: nat, n: nat)
    ensures Iterate(s, 0, a, c, n) == s
  {
  }

  lemma StartRound(s: nat, t: nat, a: nat, c: nat, n: nat)
    requires s < Pow2(n) && t < Pow2(n) && a < Pow2(n) && c < Pow2(n)
    requires Full(a, c, n) || (Mcg(a, c, n) && s % 2 == 1 && s % 4 == t % 4)
    ensures Position(0, c == 0) <= n
    ensures Powers(0, a, c, a, c, n)
    ensures Settled(0, 0, s, s, t, a, c, n)
    ensures Recorded(0, 0, if c == 0 then 4 else 1, 0, c == 0, n)
  {
    RemSmall(a, Pow2(n));
    RemSmall(c, Pow2(n));
    assert Pow2(1) == 2 && Pow2(0) == 1 && Pow2(2) == 4;
  }

  lemma OddMultiplier(a: nat, k: nat, n: nat)
    requires a % 2 == 1 && n > 0
    ensures Rem(MultPow(a, k), Pow2(n)) % 2 == 1
  {
    MultPowParity(a, k);
    RemParity(MultPow(a, k), Pow2(n));
  }

  lemma AndAll(x: nat, n: nat)
    requires x < Pow2(n)
    ensures And(x, Ones(n)) == x
  {
    forall i: nat ensures Bit(And(x, Ones(n)), i) == Bit(x, i) {
      AndBit(x, Ones(n), i);
      OnesBit(n, i);
      if i >= n { SmallBit(x, n, i); }
    }
    SameBits(And(x, Ones(n)), x);
  }

  // ----- Which states are reachable, and in how many ways -----

  function PeriodLog(c: nat, n: nat): nat
    requires n >= 2
  {
    if c == 0 then n - 2 else n
  }

  // The loop of Distance as a recursion: e steps settle the bits below round k.
  lemma {:induction false} SettleRounds(s: nat, t: nat, a: nat, c: nat, n: nat, k: nat) returns (e: nat)
    requires s < Pow2(n) && t < Pow2(n) && a < Pow2(n) && c < Pow2(n)
    requires Full(a, c, n) || (Mcg(a, c, n) && s % 2 == 1 && s % 4 == t % 4)
    requires Position(k, c == 0) <= n
    ensures e < Pow2(k) && Settled(k, e, Iterate(s, e, a, c, n), s, t, a, c, n)
  {
    hide Rem, Iterate, MultPow, PlusPow, Bit;
    if k == 0 {
      StartRound(s, t, a, c, n);
      e := 0;
    } else {
      e := SettleRounds(s, t, a, c, n, k - 1);
      var j, x := Position(k - 1, c == 0), Iterate(s, e, a, c, n);
      var u, v := Rem(MultPow(a, k - 1), Pow2(n)), Rem(PlusPow(a, c, k - 1), Pow2(n));
      var y := if Bit(x, j) == Bit(t, j) then x else Rem(x * u + v, Pow2(n));
      RoundState(k - 1, e, x, y, u, v, s, t, a, c, n);
      e := if Bit(x, j) == Bit(t, j) then e else e + Pow2(k - 1);
    }
  }

  lemma Reaches(s: nat, t: nat, a: nat, c: nat, n: nat) returns (d: nat)
    requires s < Pow2(n) && t < Pow2(n) && a < Pow2(n) && c < Pow2(n)
    requires Full(a, c, n) || (Mcg(a, c, n) && s % 2 == 1 && s % 4 == t % 4)
    ensures d < Pow2(PeriodLog(c, n)) && Iterate(s, d, a, c, n) == t
  {
    hide Rem, Iterate;
    d := SettleRounds(s, t, a, c, n, PeriodLog(c, n));
    RemSmall(t, Pow2(n));
    RemSmall(Iterate(s, d, a, c, n), Pow2(n));
  }

  // q rounds of 2^k steps add q times the flipped bit.
  lemma {:induction false} RoundsAdd(x: nat, q: nat, a: nat, c: nat, k: nat, n: nat)
    requires Full(a, c, n) || (Mcg(a, c, n) && x % 2 == 1)
    ensures var h := Pow2(Position(k, c == 0));
      Rem(Walk(x, q, MultPow(a, k), PlusPow(a, c, k)), 2 * h) == Rem(x + q * h, 2 * h)
    decreases q
  {
    hide Rem, MultPow, PlusPow, Pow2;
    var h := Pow2(Position(k, c == 0));
    DoublePow2(Position(k, c == 0));
    if q > 0 {
      var y := x * MultPow(a, k) + PlusPow(a, c, k);
      StepFlips(x, a, c, k, n);
      if c == 0 {
        MultPowParity(a, k);
        PlusPowZero(a, k);
        OddProduct(x, MultPow(a, k));
      }
      RoundsAdd(y, q - 1, a, c, k, n);
      RemAddSame(y, x + h, (q - 1) * h, 2 * h);
      OneMore(q, h);
    }
  }

  lemma OneMore(q: nat, h: nat)
    requires q > 0
    ensures h + (q - 1) * h == q * h
  {
  }

  lemma RemAddSame(x: int, y: int, z: int, m: nat)
    requires m > 0 && Rem(x, m) == Rem(y, m)
    ensures Rem(x + z, m) == Rem(y + z, m)
  {
    hide Rem;
    RemMulAdd(x, 1, z, y, 1, z, m);
  }

  lemma DoublePow2(j: nat)
    ensures Pow2(j + 1) == 2 * Pow2(j)
  {
  }

  lemma {:induction false} OddPart(g: nat) returns (k: nat, q: nat)
    requires g > 0
    ensures g == Pow2(k) * q && q % 2 == 1
  {
    if g % 2 == 1 {
      k, q := 0, g;
    } else {
      k, q := OddPart(g / 2);
      k := k + 1;
    }
  }

  lemma OddMultipleMoves(x: nat, q: nat, h: nat)
    requires h > 0 && q % 2 == 1
    ensures Rem(x + q * h, 2 * h) != Rem(x, 2 * h)
  {
    var p := q / 2;
    assert q * h == p * (2 * h) + h by { assert (2 * p + 1) * h == p * (2 * h) + h; }
    ModShift(x + h, p, 2 * h);
    Shifted(x, h);
  }

  lemma {:induction false} IterateStaysOdd(s: nat, d: nat, a: nat, n: nat)
    requires s % 2 == 1 && a % 2 == 1 && n > 0
    ensures Iterate(s, d, a, 0, n) % 2 == 1
    decreases d
  {
    if d > 0 {
      StaysOdd(s, a, n);
      IterateStaysOdd(Bump(s, a, 0, n), d - 1, a, n);
    }
  }

  lemma PowBelow(k: nat, q: nat, m: nat)
    requires q > 0 && Pow2(k) * q < Pow2(m)
    ensures k < m
  {
    assert Pow2(k) <= Pow2(k) * q;
    if k >= m { Pow2Mono(m, k); }
  }

  // No state recurs before the full period.
  lemma NoEarlyReturn(x: nat, g: nat, a: nat, c: nat, n: nat)
    requires x < Pow2(n) && (Full(a, c, n) || (Mcg(a, c, n) && x % 2 == 1))
    requires 0 < g < Pow2(PeriodLog(c, n))
    ensures Iterate(x, g, a, c, n) != x
  {
    hide Rem, Iterate, Walk;
    var k, q := OddPart(g);
    var j := Position(k, c == 0);
    PowBelow(k, q, PeriodLog(c, n));
    IterateIsWalk(x, g, a, c, n);
    WalkPow2(x, q, a, c, k);
    RoundsAdd(x, q, a, c, k, n);
    OddMultipleMoves(x, q, Pow2(j));
    RemNested(Walk(x, g, a, c), n, j + 1);
  }

  lemma LaterDiffers(s: nat, e: nat, g: nat, a: nat, c: nat, n: nat)
    requires s < Pow2(n) && (Full(a, c, n) || (Mcg(a, c, n) && s % 2 == 1))
    requires 0 < g < Pow2(PeriodLog(c, n))
    ensures Iterate(s, e, a, c, n) != Iterate(s, e + g, a, c, n)
  {
    hide *;
    var x := Iterate(s, e, a, c, n);
    IterateAdd(s, e, g, a, c, n);
    IterateRange(s, e, a, c, n);
    if !Full(a, c, n) { McgOdd(a, c, n); IterateStaysOdd(s, e, a, n); }
    NoEarlyReturn(x, g, a, c, n);
  }

  lemma McgNoStep(a: nat, c: nat, n: nat)
    ensures Mcg(a, c, n) ==> c == 0 && a % 4 == 1 && n >= 2
  {
  }

  lemma McgOdd(a: nat, c: nat, n: nat)
    requires Mcg(a, c, n)
    ensures c == 0 && a % 2 == 1 && n > 0
  {
  }

  // The step counts that lead from s to t are unique below the period, so the
  // distance is the only answer.
  lemma DistanceUnique(s: nat, d: nat, e: nat, a: nat, c: nat, n: nat)
    requires s < Pow2(n) && (Full(a, c, n) || (Mcg(a, c, n) && s % 2 == 1))
    requires d < Pow2(PeriodLog(c, n)) && e < Pow2(PeriodLog(c, n))
    requires Iterate(s, d, a, c, n) == Iterate(s, e, a, c, n)
    ensures d == e
  {
    hide Iterate, Pow2;
    var lo, hi := if d < e then d else e, if d < e then e else d;
    if lo < hi { LaterDiffers(s, lo, hi - lo, a, c, n); }
  }

  lemma {:induction false} IterateKeepsLowBits(s: nat, d: nat, a: nat, n: nat)
    requires a % 4 == 1 && n >= 2
    ensures Iterate(s, d, a, 0, n) % 4 == s % 4
    decreases d
  {
    hide Rem;
    if d > 0 {
      var b := Bump(s, a, 0, n);
      assert b % 4 == s % 4 by {
        RemNested(s * a, n, 2);
        RemMul(s, a, s, 1, 4) by { Mod4Rem(a); Mod4Rem(1); }
        Mod4Rem(b);
        Mod4Rem(s);
        assert Pow2(2) == 4 by { assert Pow2(1) == 2; }
      }
      IterateKeepsLowBits(b, d - 1, a, n);
    }
  }

  lemma Mod4Rem(x: nat)
    ensures Rem(x, 4) == x % 4
  {
  }

  // An engine with an odd increment visits every state; one without an increment
  // visits exactly the states with the same two low bits.
  lemma Reachable(s: nat, t: nat, a: nat, c: nat, n: nat)
    requires s < Pow2(n) && t < Pow2(n) && a < Pow2(n) && c < Pow2(n)
    requires Full(a, c, n) || (Mcg(a, c, n) && s % 2 == 1)
    ensures (exists d: nat :: d < Pow2(PeriodLog(c, n)) && Iterate(s, d, a, c, n) == t)
       <==> (c == 0 ==> s % 4 == t % 4)
  {
    hide Iterate, Pow2, Mcg;
    if c == 0 ==> s % 4 == t % 4 {
      McgNoStep(a, c, n);
      var d := Reaches(s, t, a, c, n);
    } else {
      McgNoStep(a, c, n);
      forall d: nat ensures Iterate(s, d, a, c, n) != t {
        IterateKeepsLowBits(s, d, a, n);
      }
    }
  }

  // ----- The engine object -----

  class Engine {
    const width: nat
    const multiplier: nat
    const increment: nat
    var state: nat

    ghost predicate Valid()
      reads this
    {
      width > 0 && state < Pow2(width) && multiplier < Pow2(width) && increment < Pow2(width)
    }

    // no_stream (is_mcg) engines force the two low bits of the seed; the others
    // step once from seed + increment.
    constructor (seed: nat, multiplier: nat, increment: nat, width: nat)
      requires width >= 2
      requires seed < Pow2(width) && multiplier < Pow2(width) && increment < Pow2(width)
      ensures Valid() && this.multiplier == multiplier && this.increment == increment && this.width == width
      ensures increment == 0 ==> state % 4 == 3 && state / 4 == seed / 4
      ensures increment != 0 ==> state == Bump(Rem(seed + increment, Pow2(width)), multiplier, increment, width)
    {
      this.multiplier, this.increment, this.width := multiplier, increment, width;
      state := if increment == 0 then Or(seed, 3)
               else Bump(Rem(seed + increment, Pow2(width)), multiplier, increment, width);
      new;
      if increment == 0 {
        OrThree(seed);
        Pow2Add(2, width - 2);
        assert Pow2(2) == 4 by { assert Pow2(1) == 2; }
      }
    }

    // The state after one step; operator() turns the old or the new one into output.
    method BaseGenerate() returns (r: nat)
      requires Valid()
      modifies this`state
      ensures Valid() && r == state && state == Iterate(old(state), 1, multiplier, increment, width)
    {
      state := Bump(state, multiplier, increment, width);
      r := state;
    }

    method BaseGenerate0() returns (r: nat)
      requires Valid()
      modifies this`state
      ensures Valid() && r == old(state) && state == Iterate(old(state), 1, multiplier, increment, width)
    {
      r := state;
      state := Bump(state, multiplier, increment, width);
    }

    method Advance(delta: nat)
      requires Valid()
      modifies this`state
      ensures Valid() && state == Iterate(old(state), delta, multiplier, increment, width)
    {
      IterateRange(state, delta, multiplier, increment, width);
      state := PcgLcg.Advance(state, delta, multiplier, increment, width);
    }

    // Stepping back delta steps: delta forward steps from the new state return to the old one.
    method Backstep(delta: nat)
      requires Valid() && delta < Pow2(width) && multiplier % 2 == 1
      modifies this`state
      ensures Valid() && Iterate(state, delta, multiplier, increment, width) == old(state)
    {
      BackstepUndoes(multiplier, increment, width);
      Advance(Negate(delta, width));
    }

    method DistanceTo(newState: nat) returns (d: nat)
      requires Valid() && newState < Pow2(width)
      requires Full(multiplier, increment, width)
            || (Mcg(multiplier, increment, width) && state % 2 == 1 && state % 4 == newState % 4)
      ensures d < Pow2(PeriodLog(increment, width))
      ensures Iterate(state, d, multiplier, increment, width) == newState
    {
      d := Distance(state, newState, multiplier, increment, Ones(width), width);
    }
  }

  lemma OrThree(x: nat)
    ensures Or(x, 3) == x / 4 * 4 + 3
  {
    assert Or(x / 2, 1) == 1 + 2 * Or(x / 4, 0);
    OrZero(x / 4);
  }

  lemma {:induction false} OrZero(x: nat)
    ensures Or(x, 0) == x
  {
    if x != 0 { OrZero(x / 2); }
  }
}
