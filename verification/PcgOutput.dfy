// Inverting the xorshift steps and the RXS M XS output permutation of PCG, for
// every word width.
module PcgOutput {
  import opened Bits

  function XorShift(x: nat, s: nat): nat {
    Xor(x, Shr(x, s))
  }

  // unxorshift on a value of `bits` bits held in a type of w bits.
  function UnXorShift(x: nat, bits: nat, shift: nat, w: nat): nat
    requires shift > 0
    decreases bits
  {
    if 2 * shift >= bits then Xor(x, Shr(x, shift))
    else
      var lowmask1 := Ones(bits - shift * 2);
      var highmask1 := Not(lowmask1, w);
      var top1 := And(Xor(x, Shr(x, shift)), highmask1);
      var bottom1 := And(x, lowmask1);
      var bottom2 := And(Or(top1, bottom1), Ones(bits - shift));
      Or(top1, And(UnXorShift(bottom2, bits - shift, shift, w), lowmask1))
  }

  lemma XorShiftBit(x: nat, s: nat, i: nat)
    ensures Bit(XorShift(x, s), i) <==> Bit(x, i) != Bit(x, i + s)
  {
    XorBit(x, Shr(x, s), i);
    ShrBit(x, s, i);
  }

  lemma XorShiftSize(x: nat, s: nat, n: nat)
    requires x < Pow2(n)
    ensures XorShift(x, s) < Pow2(n)
  {
    forall i: nat | i >= n ensures !Bit(XorShift(x, s), i) {
      XorShiftBit(x, s, i);
      SmallBit(x, n, i);
      SmallBit(x, n, i + s);
    }
    BelowPow2(XorShift(x, s), n);
  }

  // The upper part of one round: bits at and above bits - 2*shift.
  function Top(x: nat, bits: nat, shift: nat, w: nat): nat
    requires 2 * shift < bits
  {
    And(Xor(x, Shr(x, shift)), Not(Ones(bits - shift * 2), w))
  }

  function Bottom(x: nat, bits: nat, shift: nat, w: nat): nat
    requires 2 * shift < bits
  {
    And(Or(Top(x, bits, shift, w), And(x, Ones(bits - shift * 2))), Ones(bits - shift))
  }

  lemma TopBit(x: nat, bits: nat, shift: nat, w: nat, i: nat)
    requires 2 * shift < bits <= w && x < Pow2(bits)
    ensures Bit(Top(x, bits, shift, w), i) <==>
      i >= bits - 2 * shift && Bit(x, i) != Bit(x, i + shift)
  {
    var low := Ones(bits - shift * 2);
    AndBit(Xor(x, Shr(x, shift)), Not(low, w), i);
    XorShiftBit(x, shift, i);
    XorBit(low, Ones(w), i);
    OnesBit(bits - shift * 2, i);
    OnesBit(w, i);
    if i >= w {
      SmallBit(x, bits, i);
      SmallBit(x, bits, i + shift);
    }
  }

  lemma BottomBit(x: nat, bits: nat, shift: nat, w: nat, i: nat)
    requires 2 * shift < bits <= w && x < Pow2(bits)
    ensures Bit(Bottom(x, bits, shift, w), i) <==>
      i < bits - shift &&
      (if i >= bits - 2 * shift then Bit(x, i) != Bit(x, i + shift) else Bit(x, i))
  {
    var low := Ones(bits - shift * 2);
    TopBit(x, bits, shift, w, i);
    AndBit(Or(Top(x, bits, shift, w), And(x, low)), Ones(bits - shift), i);
    OrBit(Top(x, bits, shift, w), And(x, low), i);
    AndBit(x, low, i);
    OnesBit(bits - shift * 2, i);
    OnesBit(bits - shift, i);
  }

  lemma UnXorShiftBit(x: nat, bits: nat, shift: nat, w: nat, i: nat)
    requires 0 < shift && 2 * shift < bits <= w && x < Pow2(bits)
    ensures Bit(UnXorShift(x, bits, shift, w), i) <==>
      (if i >= bits - 2 * shift then Bit(x, i) != Bit(x, i + shift)
       else Bit(UnXorShift(Bottom(x, bits, shift, w), bits - shift, shift, w), i))
  {
    var low := Ones(bits - shift * 2);
    var rest := UnXorShift(Bottom(x, bits, shift, w), bits - shift, shift, w);
    assert UnXorShift(x, bits, shift, w) == Or(Top(x, bits, shift, w), And(rest, low));
    TopBit(x, bits, shift, w, i);
    OrBit(Top(x, bits, shift, w), And(rest, low), i);
    AndBit(rest, low, i);
    OnesBit(bits - shift * 2, i);
  }

  lemma BottomSize(x: nat, bits: nat, shift: nat, w: nat)
    requires 2 * shift < bits <= w && x < Pow2(bits)
    ensures Bottom(x, bits, shift, w) < Pow2(bits - shift)
  {
    forall i: nat | i >= bits - shift ensures !Bit(Bottom(x, bits, shift, w), i) {
      BottomBit(x, bits, shift, w, i);
    }
    BelowPow2(Bottom(x, bits, shift, w), bits - shift);
  }

  function Low(x: nat, n: nat): nat {
    And(x, Ones(n))
  }

  lemma LowBit(x: nat, n: nat, i: nat)
    ensures Bit(Low(x, n), i) <==> i < n && Bit(x, i)
  {
    AndBit(x, Ones(n), i);
    OnesBit(n, i);
  }

  // unxorshift undoes x ^ (x >> shift).
  lemma {:induction false} UnXorShiftLeft(y: nat, bits: nat, shift: nat, w: nat)
    requires 0 < shift && bits <= w && y < Pow2(bits)
    ensures UnXorShift(XorShift(y, shift), bits, shift, w) == y
    decreases bits
  {
    var x := XorShift(y, shift);
    XorShiftSize(y, shift, bits);
    if 2 * shift >= bits {
      forall i: nat ensures Bit(XorShift(x, shift), i) == Bit(y, i) {
        XorShiftBit(x, shift, i);
        XorShiftBit(y, shift, i);
        XorShiftBit(y, shift, i + shift);
        SmallBit(y, bits, i + shift + shift);
      }
      SameBits(XorShift(x, shift), y);
    } else {
      var z := Low(y, bits - shift);
      ShrinkLow(y, bits, shift, w);
      UnXorShiftLeft(z, bits - shift, shift, w);
      var u := UnXorShift(x, bits, shift, w);
      forall i: nat ensures Bit(u, i) == Bit(y, i) {
        UnXorShiftBit(x, bits, shift, w, i);
        XorShiftBit(y, shift, i);
        XorShiftBit(y, shift, i + shift);
        if i >= bits - 2 * shift { SmallBit(y, bits, i + shift + shift); }
        LowBit(y, bits - shift, i);
      }
      SameBits(u, y);
    }
  }

  // The narrower problem of the recursion is the same problem on the low bits of y.
  lemma ShrinkLow(y: nat, bits: nat, shift: nat, w: nat)
    requires 0 < shift && 2 * shift < bits <= w && y < Pow2(bits)
    ensures XorShift(y, shift) < Pow2(bits)
    ensures Bottom(XorShift(y, shift), bits, shift, w) == XorShift(Low(y, bits - shift), shift)
    ensures Low(y, bits - shift) < Pow2(bits - shift)
  {
    XorShiftSize(y, shift, bits);
    var x, z := XorShift(y, shift), Low(y, bits - shift);
    forall i: nat ensures Bit(Bottom(x, bits, shift, w), i) == Bit(XorShift(z, shift), i) {
      BottomBit(x, bits, shift, w, i);
      XorShiftBit(y, shift, i);
      XorShiftBit(y, shift, i + shift);
      XorShiftBit(z, shift, i);
      LowBit(y, bits - shift, i);
      LowBit(y, bits - shift, i + shift);
      if i >= bits - 2 * shift { SmallBit(y, bits, i + shift + shift); }
    }
    SameBits(Bottom(x, bits, shift, w), XorShift(z, shift));
    forall i: nat | i >= bits - shift ensures !Bit(z, i) { LowBit(y, bits - shift, i); }
    BelowPow2(z, bits - shift);
  }

  lemma {:induction false} UnXorShiftSize(x: nat, bits: nat, shift: nat, w: nat)
    requires 0 < shift && bits <= w && x < Pow2(bits)
    ensures UnXorShift(x, bits, shift, w) < Pow2(bits)
    decreases bits
  {
    if 2 * shift >= bits { XorShiftSize(x, shift, bits); }
    else {
      forall i: nat | i >= bits ensures !Bit(UnXorShift(x, bits, shift, w), i) {
        UnXorShiftBit(x, bits, shift, w, i);
        SmallBit(x, bits, i);
        SmallBit(x, bits, i + shift);
      }
      BelowPow2(UnXorShift(x, bits, shift, w), bits);
    }
  }

  // ... and the other way round: every value is the xorshift of its unxorshift.
  lemma {:induction false} UnXorShiftRight(x: nat, bits: nat, shift: nat, w: nat)
    requires 0 < shift && bits <= w && x < Pow2(bits)
    ensures XorShift(UnXorShift(x, bits, shift, w), shift) == x
    decreases bits
  {
    var u := UnXorShift(x, bits, shift, w);
    if 2 * shift >= bits {
      forall i: nat ensures Bit(XorShift(u, shift), i) == Bit(x, i) {
        XorShiftBit(u, shift, i);
        XorShiftBit(x, shift, i);
        XorShiftBit(x, shift, i + shift);
        SmallBit(x, bits, i + shift + shift);
      }
    } else {
      var z := Bottom(x, bits, shift, w);
      BottomSize(x, bits, shift, w);
      var r := UnXorShift(z, bits - shift, shift, w);
      UnXorShiftRight(z, bits - shift, shift, w);
      UnXorShiftSize(z, bits - shift, shift, w);
      forall i: nat ensures Bit(XorShift(u, shift), i) == Bit(x, i) {
        XorShiftBit(u, shift, i);
        UnXorShiftBit(x, bits, shift, w, i);
        UnXorShiftBit(x, bits, shift, w, i + shift);
        if i >= bits - 2 * shift {
          SmallBit(x, bits, i + shift + shift);
        } else {
          XorShiftBit(r, shift, i);
          BottomBit(x, bits, shift, w, i);
          if i + shift >= bits - 2 * shift {
            XorShiftBit(r, shift, i + shift);
            SmallBit(r, bits - shift, i + shift + shift);
            BottomBit(x, bits, shift, w, i + shift);
          }
        }
      }
    }
    SameBits(XorShift(u, shift), x);
  }

  // ----- RXS M XS with equal state and result types -----

  // Number of state bits that choose the shift.
  function OpBits(bits: nat): nat {
    if bits >= 128 then 6 else if bits >= 64 then 5 else if bits >= 32 then 4
    else if bits >= 16 then 3 else 2
  }

  function RandomShift(x: nat, bits: nat): nat
    requires bits >= 8
  {
    OpBits(bits) + And(Shr(x, bits - OpBits(bits)), Ones(OpBits(bits)))
  }

  function FixedShift(bits: nat): nat {
    (2 * bits + 2) / 3
  }

  // Multiplication in an unsigned type of n bits.
  function MulMod(x: nat, y: nat, n: nat): (r: nat)
    ensures r < Pow2(n)
  {
    x * y % Pow2(n)
  }

  function Output(x: nat, mult: nat, bits: nat): nat
    requires bits >= 8
  {
    XorShift(MulMod(XorShift(x, RandomShift(x, bits)), mult, bits), FixedShift(bits))
  }

  function UnOutput(x: nat, unmult: nat, bits: nat): nat
    requires bits >= 8
  {
    var y := MulMod(UnXorShift(x, bits, FixedShift(bits), bits), unmult, bits);
    UnXorShift(y, bits, RandomShift(y, bits), bits)
  }

  // The shift is chosen by bits that the xorshift leaves alone.
  lemma ShiftSurvives(x: nat, s: nat, bits: nat)
    requires bits >= 8 && x < Pow2(bits) && s >= OpBits(bits)
    ensures RandomShift(XorShift(x, s), bits) == RandomShift(x, bits)
  {
    hide Bit, And, Shr, Ones, Pow2, XorShift;
    var k, m := bits - OpBits(bits), Ones(OpBits(bits));
    var y := XorShift(x, s);
    forall i: nat ensures Bit(And(Shr(y, k), m), i) == Bit(And(Shr(x, k), m), i) {
      AndBit(Shr(y, k), m, i);
      AndBit(Shr(x, k), m, i);
      ShrBit(y, k, i);
      ShrBit(x, k, i);
      XorShiftBit(x, s, i + k);
      SmallBit(x, bits, i + k + s);
    }
    SameBits(And(Shr(y, k), m), And(Shr(x, k), m));
  }

  lemma Unmultiply(x: nat, p: nat, q: nat, n: nat)
    requires x < Pow2(n) && MulMod(p, q, n) == 1
    ensures MulMod(MulMod(x, p, n), q, n) == x
  {
    var m := Pow2(n);
    hide Pow2, Rem;
    RemIs(x * p, m);
    RemIs(MulMod(x, p, n) * q, m);
    RemIs(p * q, m);
    hide MulMod;
    RemRem(x * p, m);
    RemMul(Rem(x * p, m), q, x * p, q, m);
    assert x * p * q == x * (p * q);
    RemRem(p * q, m);
    RemMul(x, p * q, x, 1, m);
    RemSmall(x, m);
  }

  lemma RemIs(x: int, m: nat)
    requires m > 0
    ensures Rem(x, m) == x % m
  {
  }

  // The inverse multiplier makes unoutput and output mutually inverse.
  lemma OutputInvertible(x: nat, mult: nat, unmult: nat, bits: nat)
    requires bits >= 8 && x < Pow2(bits)
    requires MulMod(mult, unmult, bits) == 1
    ensures UnOutput(Output(x, mult, bits), unmult, bits) == x
    ensures Output(UnOutput(x, unmult, bits), mult, bits) == x
  {
    hide Output, UnOutput, MulMod;
    UnOutputOutput(x, mult, unmult, bits);
    OutputUnOutput(x, mult, unmult, bits);
  }

  lemma MulModComm(x: nat, y: nat, n: nat)
    ensures MulMod(x, y, n) == MulMod(y, x, n)
  {
    assert x * y == y * x;
  }

  lemma UnOutputOutput(x: nat, mult: nat, unmult: nat, bits: nat)
    requires bits >= 8 && x < Pow2(bits)
    requires MulMod(mult, unmult, bits) == 1
    ensures UnOutput(Output(x, mult, bits), unmult, bits) == x
  {
    hide XorShift, UnXorShift, Pow2, MulMod;
    var s := RandomShift(x, bits);
    hide RandomShift;
    var a := XorShift(x, s);
    XorShiftSize(x, s, bits);
    UnXorShiftLeft(MulMod(a, mult, bits), bits, FixedShift(bits), bits);
    Unmultiply(a, mult, unmult, bits);
    ShiftSurvives(x, s, bits);
    UnXorShiftLeft(x, bits, s, bits);
  }

  lemma OutputUnOutput(x: nat, mult: nat, unmult: nat, bits: nat)
    requires bits >= 8 && x < Pow2(bits)
    requires MulMod(mult, unmult, bits) == 1
    ensures Output(UnOutput(x, unmult, bits), mult, bits) == x
  {
    hide XorShift, UnXorShift, Pow2, MulMod;
    var f := FixedShift(bits);
    var b := UnXorShift(x, bits, f, bits);
    UnXorShiftSize(x, bits, f, bits);
    var y := MulMod(b, unmult, bits);
    var s := RandomShift(y, bits);
    hide RandomShift;
    var z := UnXorShift(y, bits, s, bits);
    UnXorShiftSize(y, bits, s, bits);
    UnXorShiftRight(y, bits, s, bits);
    ShiftSurvives(z, s, bits);
    assert RandomShift(z, bits) == s;
    MulModComm(mult, unmult, bits);
    Unmultiply(b, unmult, mult, bits);
    UnXorShiftRight(x, bits, f, bits);
  }

  // The multipliers of the five state types and their inverses.
  predicate McgPair(mult: nat, unmult: nat, bits: nat) {
    || (bits == 8 && mult == 217 && unmult == 105)
    || (bits == 16 && mult == 62169 && unmult == 28009)
    || (bits == 32 && mult == 277803737 && unmult == 2897767785)
    || (bits == 64 && mult == 12605985483714917081 && unmult == 15009553638781119849)
    || (bits == 128
        && mult == 17766728186571221404 * 0x1_0000_0000_0000_0000 + 12605985483714917081
        && unmult == 14422606686972528997 * 0x1_0000_0000_0000_0000 + 15009553638781119849)
  }

  lemma InverseBy(mult: nat, unmult: nat, n: nat, q: nat)
    requires n > 0 && mult * unmult == q * Pow2(n) + 1
    ensures MulMod(mult, unmult, n) == 1
  {
    ModUnique(mult * unmult, q, 1, Pow2(n));
  }

  lemma WordSizes()
    ensures Pow2(8) == 0x100 && Pow2(16) == 0x10000 && Pow2(32) == 0x1_0000_0000
    ensures Pow2(64) == 0x1_0000_0000_0000_0000
    ensures Pow2(128) == 0x1_0000_0000_0000_0000_0000_0000_0000_0000
  {
    assert Pow2(8) == 0x100;
    Pow2Add(8, 8);
    Pow2Add(16, 16);
    Pow2Add(32, 32);
    Pow2Add(64, 64);
  }

  lemma McgInverse(mult: nat, unmult: nat, bits: nat)
    requires McgPair(mult, unmult, bits)
    ensures MulMod(mult, unmult, bits) == 1
  {
    hide MulMod, Pow2;
    WordSizes();
    InverseBy(mult, unmult, bits,
      if bits == 8 then 89
      else if bits == 16 then 26570
      else if bits == 32 then 187431164
      else if bits == 64 then 10257106323558699623
      else 256242532749265411604086694698165912274);
  }

  // unoutput(output(x)) == x, and back, for every instance of the mixin whose
  // state and result types agree.
  lemma RxsMXsInvertible(x: nat, mult: nat, unmult: nat, bits: nat)
    requires McgPair(mult, unmult, bits) && x < Pow2(bits)
    ensures UnOutput(Output(x, mult, bits), unmult, bits) == x
    ensures Output(UnOutput(x, unmult, bits), mult, bits) == x
  {
    hide Output, UnOutput, MulMod;
    McgInverse(mult, unmult, bits);
    OutputInvertible(x, mult, unmult, bits);
  }

  // The output for 32 bits: the top four bits choose a shift from 4 to 19, the last shift is 22.
  lemma Output32(x: nat)
    requires x < Pow2(32)
    ensures var y := Xor(x, Shr(x, 4 + Shr(x, 28)));
      var z := y * 277803737 % 0x1_0000_0000;
      Output(x, 277803737, 32) == Xor(z, Shr(z, 22))
  {
    hide Xor, Shr, And, Ones, Pow2;
    WordSizes();
    TopBits(x, 28, 4);
  }

  // And for 64 bits: the top five, from 5 to 36, and 43.
  lemma Output64(x: nat)
    requires x < Pow2(64)
    ensures var y := Xor(x, Shr(x, 5 + Shr(x, 59)));
      var z := y * 12605985483714917081 % 0x1_0000_0000_0000_0000;
      Output(x, 12605985483714917081, 64) == Xor(z, Shr(z, 43))
  {
    hide Xor, Shr, And, Ones, Pow2;
    WordSizes();
    TopBits(x, 59, 5);
  }

  // The bits above n are all that a mask of k leaves of a word of n + k bits.
  lemma TopBits(x: nat, n: nat, k: nat)
    requires x < Pow2(n + k)
    ensures And(Shr(x, n), Ones(k)) == Shr(x, n)
  {
    hide And, Shr, Ones, Bit, Pow2;
    forall i: nat ensures Bit(And(Shr(x, n), Ones(k)), i) == Bit(Shr(x, n), i) {
      AndBit(Shr(x, n), Ones(k), i);
      OnesBit(k, i);
      ShrBit(x, n, i);
      if i >= k { SmallBit(x, n + k, n + i); }
    }
    SameBits(And(Shr(x, n), Ones(k)), Shr(x, n));
  }
}
