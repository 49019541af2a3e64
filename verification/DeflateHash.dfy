// The rolling hash of deflate (dep/zlib/deflate.c, UPDATE_HASH): three bytes determine it, and
// among strings with the same first two bytes it separates the third.
module DeflateHash {
  import opened ByteType
  import opened Bits

  // hash_bits and hash_shift as deflateInit2_ sets them: three shifts push a byte out.
  predicate HashSizes(bits: nat, shift: nat) {
    8 <= bits <= 16 && shift == (bits + 2) / 3
  }

  function Update(h: nat, c: Byte, bits: nat, shift: nat): nat {
    And(Xor(h * Pow2(shift), c), Ones(bits))
  }

  // The hash of three bytes.
  function Hash(a: Byte, b: Byte, c: Byte, bits: nat, shift: nat): nat {
    Update(Update(Update(0, a, bits, shift), b, bits, shift), c, bits, shift)
  }

  lemma {:induction false} ShlBit(x: nat, s: nat, i: nat)
    ensures Bit(x * Pow2(s), i) <==> i >= s && Bit(x, i - s)
    decreases s
  {
    if s == 0 { assert x * Pow2(0) == x; }
    else {
      var y := x * Pow2(s - 1);
      Twice(x, Pow2(s - 1));
      assert x * Pow2(s) == 2 * y;
      if i > 0 { ShlBit(x, s - 1, i - 1); }
    }
  }

  lemma Twice(x: nat, p: nat)
    ensures x * (2 * p) == 2 * (x * p)
  {
  }

  lemma UpdateBit(h: nat, c: Byte, bits: nat, shift: nat, i: nat)
    ensures Bit(Update(h, c, bits, shift), i) <==>
      i < bits && ((i >= shift && Bit(h, i - shift)) != Bit(c, i))
  {
    hide And, Xor, Bit, Ones, Pow2;
    AndBit(Xor(h * Pow2(shift), c), Ones(bits), i);
    OnesBit(bits, i);
    XorBit(h * Pow2(shift), c, i);
    ShlBit(h, shift, i);
  }

  // A hash stays below the table size.
  lemma UpdateSmall(h: nat, c: Byte, bits: nat, shift: nat)
    ensures Update(h, c, bits, shift) < Pow2(bits)
  {
    hide And, Xor, Bit, Ones, Update, Pow2;
    forall i: nat | i >= bits ensures !Bit(Update(h, c, bits, shift), i) { UpdateBit(h, c, bits, shift, i); }
    BelowPow2(Update(h, c, bits, shift), bits);
  }

  // What was in the hash before three updates no longer matters.
  lemma Forgets(g: nat, a: Byte, b: Byte, c: Byte, bits: nat, shift: nat)
    requires HashSizes(bits, shift)
    ensures Update(Update(Update(g, a, bits, shift), b, bits, shift), c, bits, shift) == Hash(a, b, c, bits, shift)
  {
    hide Update, Bit;
    var u1, v1 := Update(g, a, bits, shift), Update(0, a, bits, shift);
    var u2, v2 := Update(u1, b, bits, shift), Update(v1, b, bits, shift);
    var u3, v3 := Update(u2, c, bits, shift), Update(v2, c, bits, shift);
    forall i: nat ensures Bit(u3, i) == Bit(v3, i) {
      UpdateBit(u2, c, bits, shift, i);
      UpdateBit(v2, c, bits, shift, i);
      if shift <= i < bits {
        UpdateBit(u1, b, bits, shift, i - shift);
        UpdateBit(v1, b, bits, shift, i - shift);
        if 2 * shift <= i {
          UpdateBit(g, a, bits, shift, i - 2 * shift);
          UpdateBit(0, a, bits, shift, i - 2 * shift);
        }
      }
    }
    SameBits(u3, v3);
  }

  // Equal hashes and equal first two bytes: the third bytes are equal.
  lemma ThirdByte(a: Byte, b: Byte, c: Byte, d: Byte, bits: nat, shift: nat)
    requires HashSizes(bits, shift) && Hash(a, b, c, bits, shift) == Hash(a, b, d, bits, shift)
    ensures c == d
  {
    hide Update, Bit;
    var u := Update(Update(0, a, bits, shift), b, bits, shift);
    assert Pow2(8) == 256;
    forall i: nat ensures Bit(c, i) == Bit(d, i) {
      UpdateBit(u, c, bits, shift, i);
      UpdateBit(u, d, bits, shift, i);
      if i >= bits {
        Pow2Mono(8, bits);
        SmallBit(c, bits, i);
        SmallBit(d, bits, i);
      }
    }
    SameBits(c, d);
  }

  // h has taken in a and b: one more byte gives the hash of the three.
  ghost predicate Rolled(h: nat, a: Byte, b: Byte, bits: nat, shift: nat) {
    forall c: Byte :: Update(h, c, bits, shift) == Hash(a, b, c, bits, shift)
  }

  lemma RolledTwice(g: nat, a: Byte, b: Byte, bits: nat, shift: nat)
    requires HashSizes(bits, shift)
    ensures Rolled(Update(Update(g, a, bits, shift), b, bits, shift), a, b, bits, shift)
  {
    hide Update, Hash;
    forall c: Byte ensures Update(Update(Update(g, a, bits, shift), b, bits, shift), c, bits, shift)
      == Hash(a, b, c, bits, shift) {
      Forgets(g, a, b, c, bits, shift);
    }
  }

  // Starting from the first byte itself, as fill_window does.
  lemma RolledStart(a: Byte, b: Byte, bits: nat, shift: nat)
    requires HashSizes(bits, shift)
    ensures Rolled(Update(a, b, bits, shift), a, b, bits, shift)
  {
    hide Update, Rolled;
    StartIs(a, bits, shift);
    RolledTwice(0, a, b, bits, shift);
  }

  lemma StartIs(a: Byte, bits: nat, shift: nat)
    requires HashSizes(bits, shift)
    ensures Update(0, a, bits, shift) == a
  {
    hide Update, Bit;
    assert Pow2(8) == 256;
    forall i: nat ensures Bit(Update(0, a, bits, shift), i) == Bit(a, i) {
      UpdateBit(0, a, bits, shift, i);
      if i >= shift { ZeroBits(i - shift); }
      if i >= bits {
        Pow2Mono(8, bits);
        SmallBit(a, bits, i);
      }
    }
    SameBits(Update(0, a, bits, shift), a);
  }

  lemma RolledNext(h: nat, a: Byte, b: Byte, c: Byte, bits: nat, shift: nat)
    requires HashSizes(bits, shift) && Rolled(h, a, b, bits, shift)
    ensures Update(h, c, bits, shift) == Hash(a, b, c, bits, shift)
    ensures Rolled(Update(h, c, bits, shift), b, c, bits, shift)
  {
    hide Update;
    RolledTwice(Update(0, a, bits, shift), b, c, bits, shift);
  }
}
