// Bytes as table indices.
module ByteIndex {

  function Idx(b: bv8): (i: nat)
    ensures i < 256
  {
    b as int
  }

  lemma IdxInjective(a: bv8, b: bv8)
    requires Idx(a) == Idx(b)
    ensures a == b
  {
    assert (a as int) as bv8 == a;
    assert (b as int) as bv8 == b;
  }

  // The bytes up to b, for b counting up from 0 to 255.
  predicate UpTo(c: bv8, b: bv8) {
    c <= b
  }

  lemma UpToNext(c: bv8, b: bv8)
    requires b != 255
    ensures UpTo(c, b + 1) <==> UpTo(c, b) || c == b + 1
    ensures b < b + 1
  {
  }

  lemma UpToEnds(c: bv8)
    ensures UpTo(c, 0) <==> c == 0
    ensures UpTo(c, 255)
  {
  }
}
