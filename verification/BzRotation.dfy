// The cyclic rotations of a block and their lexicographic order, the order the
// Burrows-Wheeler stage of bzip2 sorts by.
module BzRotation {
  import opened ByteType

  // Byte k of the rotation that starts at i.
  function At(b: seq<Byte>, i: int, k: nat): Byte
    requires b != []
  {
    b[(i + k) % |b|]
  }

  // Rotations i and j agree on their first h bytes.
  predicate EqUpTo(b: seq<Byte>, i: int, j: int, h: nat)
    requires b != []
  {
    h == 0 || (EqUpTo(b, i, j, h - 1) && At(b, i, h - 1) == At(b, j, h - 1))
  }

  // Rotation i precedes rotation j within their first h bytes.
  predicate LessUpTo(b: seq<Byte>, i: int, j: int, h: nat)
    requires b != []
  {
    h > 0 && (LessUpTo(b, i, j, h - 1)
              || (EqUpTo(b, i, j, h - 1) && At(b, i, h - 1) < At(b, j, h - 1)))
  }

  // The rotations are the same string; rotation i does not come after rotation j.
  predicate Same(b: seq<Byte>, i: int, j: int)
    requires b != []
  {
    EqUpTo(b, i, j, |b|)
  }

  predicate Leq(b: seq<Byte>, i: int, j: int)
    requires b != []
  {
    !LessUpTo(b, j, i, |b|)
  }

  // ----- The order on the first h bytes -----

  lemma {:induction false} EqAt(b: seq<Byte>, i: int, j: int, h: nat, k: nat)
    requires b != [] && EqUpTo(b, i, j, h) && k < h
    ensures At(b, i, k) == At(b, j, k)
  {
    if k < h - 1 { EqAt(b, i, j, h - 1, k); }
  }

  lemma {:induction false} EqFromAt(b: seq<Byte>, i: int, j: int, h: nat)
    requires b != [] && forall k: nat :: k < h ==> At(b, i, k) == At(b, j, k)
    ensures EqUpTo(b, i, j, h)
  {
    if h > 0 { EqFromAt(b, i, j, h - 1); }
  }

  lemma {:induction false} EqShorter(b: seq<Byte>, i: int, j: int, g: nat, h: nat)
    requires b != [] && g <= h && EqUpTo(b, i, j, h)
    ensures EqUpTo(b, i, j, g)
  {
    if g < h { EqShorter(b, i, j, g, h - 1); }
  }

  lemma {:induction false} EqRefl(b: seq<Byte>, i: int, h: nat)
    requires b != []
    ensures EqUpTo(b, i, i, h)
  {
    if h > 0 { EqRefl(b, i, h - 1); }
  }

  lemma {:induction false} EqSym(b: seq<Byte>, i: int, j: int, h: nat)
    requires b != [] && EqUpTo(b, i, j, h)
    ensures EqUpTo(b, j, i, h)
  {
    if h > 0 { EqSym(b, i, j, h - 1); }
  }

  lemma {:induction false} EqTrans(b: seq<Byte>, i: int, j: int, k: int, h: nat)
    requires b != [] && EqUpTo(b, i, j, h) && EqUpTo(b, j, k, h)
    ensures EqUpTo(b, i, k, h)
  {
    if h > 0 { EqTrans(b, i, j, k, h - 1); }
  }

  // Exactly one of less, equal and greater holds.
  lemma {:induction false} Trichotomy(b: seq<Byte>, i: int, j: int, h: nat)
    requires b != []
    ensures LessUpTo(b, i, j, h) || EqUpTo(b, i, j, h) || LessUpTo(b, j, i, h)
    ensures !(LessUpTo(b, i, j, h) && EqUpTo(b, i, j, h))
    ensures !(LessUpTo(b, j, i, h) && EqUpTo(b, i, j, h))
    ensures !(LessUpTo(b, i, j, h) && LessUpTo(b, j, i, h))
    ensures EqUpTo(b, i, j, h) == EqUpTo(b, j, i, h)
  {
    hide At;
    if h > 0 { Trichotomy(b, i, j, h - 1); }
  }

  // Replacing a rotation by an equal one changes no comparison.
  lemma {:induction false} LessEqLess(b: seq<Byte>, i: int, j: int, k: int, h: nat)
    requires b != []
    requires (LessUpTo(b, i, j, h) && EqUpTo(b, j, k, h)) || (EqUpTo(b, i, j, h) && LessUpTo(b, j, k, h))
    ensures LessUpTo(b, i, k, h)
  {
    if LessUpTo(b, i, j, h) && EqUpTo(b, j, k, h) {
      if LessUpTo(b, i, j, h - 1) { LessEqLess(b, i, j, k, h - 1); }
      else { EqTrans(b, i, j, k, h - 1); }
    } else {
      if LessUpTo(b, j, k, h - 1) { LessEqLess(b, i, j, k, h - 1); }
      else { EqTrans(b, i, j, k, h - 1); }
    }
  }

  lemma {:induction false} LessTrans(b: seq<Byte>, i: int, j: int, k: int, h: nat)
    requires b != [] && LessUpTo(b, i, j, h) && LessUpTo(b, j, k, h)
    ensures LessUpTo(b, i, k, h)
  {
    if LessUpTo(b, i, j, h - 1) {
      if LessUpTo(b, j, k, h - 1) { LessTrans(b, i, j, k, h - 1); }
      else { LessEqLess(b, i, j, k, h - 1); }
    } else if LessUpTo(b, j, k, h - 1) {
      LessEqLess(b, i, j, k, h - 1);
    } else {
      EqTrans(b, i, j, k, h - 1);
    }
  }

  lemma LeqTrans(b: seq<Byte>, i: int, j: int, k: int)
    requires b != [] && Leq(b, i, j) && Leq(b, j, k)
    ensures Leq(b, i, k)
  {
    hide EqUpTo, LessUpTo;
    var n := |b|;
    Trichotomy(b, i, j, n);
    Trichotomy(b, j, k, n);
    Trichotomy(b, i, k, n);
    if LessUpTo(b, k, i, n) {
      if LessUpTo(b, i, j, n) { LessTrans(b, k, i, j, n); }
      else { LessEqLess(b, k, i, j, n); }
    }
  }

  lemma LeqBoth(b: seq<Byte>, i: int, j: int)
    requires b != []
    ensures Leq(b, i, j) && Leq(b, j, i) <==> Same(b, i, j)
    ensures Leq(b, i, j) || Leq(b, j, i)
  {
    hide EqUpTo, LessUpTo;
    Trichotomy(b, i, j, |b|);
  }

  // ----- Prefixes of the same rotation -----

  // Comparing 2h bytes is comparing h bytes and then the h bytes that follow.
  lemma {:induction false} EqSplit(b: seq<Byte>, i: int, j: int, g: nat, h: nat)
    requires b != []
    ensures EqUpTo(b, i, j, g + h) <==> EqUpTo(b, i, j, g) && EqUpTo(b, i + g, j + g, h)
  {
    if h > 0 {
      EqSplit(b, i, j, g, h - 1);
      AtShift(b, i, g, h - 1);
      AtShift(b, j, g, h - 1);
    }
  }

  lemma {:induction false} LessSplit(b: seq<Byte>, i: int, j: int, g: nat, h: nat)
    requires b != []
    ensures LessUpTo(b, i, j, g + h) <==>
      LessUpTo(b, i, j, g) || (EqUpTo(b, i, j, g) && LessUpTo(b, i + g, j + g, h))
  {
    if h > 0 {
      LessSplit(b, i, j, g, h - 1);
      EqSplit(b, i, j, g, h - 1);
      AtShift(b, i, g, h - 1);
      AtShift(b, j, g, h - 1);
    }
  }

  lemma AtShift(b: seq<Byte>, i: int, g: nat, k: nat)
    requires b != []
    ensures At(b, i + g, k) == At(b, i, g + k)
  {
    assert i + g + k == i + (g + k);
  }

  // Start positions matter only modulo the block size.
  lemma AtWrap(b: seq<Byte>, i: int, k: nat)
    requires b != []
    ensures At(b, i + |b|, k) == At(b, i, k)
  {
    ModWrap(i + k, |b|);
  }

  lemma ModWrap(x: int, n: int)
    requires n > 0
    ensures (x + n) % n == x % n
  {
    var q, r := x / n, x % n;
    assert x + n == (q + 1) * n + r;
    Unique(x + n, q + 1, r, n);
  }

  lemma Unique(x: int, q: int, r: int, n: int)
    requires n > 0 && x == q * n + r && 0 <= r < n
    ensures x % n == r
  {
    var p, s := x / n, x % n;
    assert (p - q) * n == r - s;
    Small(p - q, n);
  }

  lemma Small(d: int, n: int)
    requires n > 0
    ensures d >= 1 ==> d * n >= n
    ensures d <= -1 ==> d * n <= -n
  {
  }

  lemma {:induction false} EqWrap(b: seq<Byte>, i: int, j: int, h: nat)
    requires b != []
    ensures EqUpTo(b, i + |b|, j, h) == EqUpTo(b, i, j, h) == EqUpTo(b, i, j + |b|, h)
  {
    hide At;
    if h > 0 {
      EqWrap(b, i, j, h - 1);
      AtWrap(b, i, h - 1);
      AtWrap(b, j, h - 1);
    }
  }

  lemma {:induction false} LessWrap(b: seq<Byte>, i: int, j: int, h: nat)
    requires b != []
    ensures LessUpTo(b, i + |b|, j, h) == LessUpTo(b, i, j, h) == LessUpTo(b, i, j + |b|, h)
  {
    hide At, EqUpTo;
    if h > 0 {
      LessWrap(b, i, j, h - 1);
      EqWrap(b, i, j, h - 1);
      AtWrap(b, i, h - 1);
      AtWrap(b, j, h - 1);
    }
  }

  // Rotations equal over a whole turn are equal for ever.
  lemma {:induction false} EqForever(b: seq<Byte>, i: int, j: int, h: nat)
    requires b != [] && Same(b, i, j)
    ensures EqUpTo(b, i, j, h)
  {
    if h <= |b| { EqShorter(b, i, j, h, |b|); }
    else {
      EqForever(b, i, j, h - 1);
      var k: nat := h - 1 - |b|;
      AtOnceMore(b, i, k);
      AtOnceMore(b, j, k);
      EqAt(b, i, j, h - 1, k);
    }
  }

  lemma AtOnceMore(b: seq<Byte>, i: int, k: nat)
    requires b != []
    ensures At(b, i, k + |b|) == At(b, i, k)
  {
    ModWrap(i + k, |b|);
    assert i + (k + |b|) == i + k + |b|;
  }

  // From a whole turn on, looking at more bytes never changes the outcome.
  lemma {:induction false} LessForever(b: seq<Byte>, i: int, j: int, h: nat)
    requires b != [] && h >= |b|
    ensures LessUpTo(b, i, j, h) == LessUpTo(b, i, j, |b|)
  {
    if h > |b| {
      LessForever(b, i, j, h - 1);
      if EqUpTo(b, i, j, h - 1) {
        EqShorter(b, i, j, |b|, h - 1);
        EqForever(b, i, j, h);
      }
    }
  }

  lemma {:induction false} LessLonger(b: seq<Byte>, i: int, j: int, g: nat, h: nat)
    requires b != [] && g <= h && LessUpTo(b, i, j, g)
    ensures LessUpTo(b, i, j, h)
  {
    if g < h { LessLonger(b, i, j, g, h - 1); }
  }

  // Equal rotations stay equal when both start later or earlier.
  lemma SameShift(b: seq<Byte>, i: int, j: int, d: nat)
    requires b != [] && Same(b, i, j)
    ensures Same(b, i + d, j + d)
  {
    EqForever(b, i, j, d + |b|);
    EqSplit(b, i, j, d, |b|);
  }

  // ----- Sorted orders -----

  ghost predicate IsPermutation(p: seq<int>, n: nat) {
    && |p| == n
    && (forall x :: 0 <= x < n ==> 0 <= p[x] < n)
    && (forall x, y :: 0 <= x < y < n ==> p[x] != p[y])
  }

  ghost predicate SortedRotations(b: seq<Byte>, p: seq<int>)
    requires b != []
  {
    IsPermutation(p, |b|) && forall x, y :: 0 <= x < y < |b| ==> Leq(b, p[x], p[y])
  }
}
