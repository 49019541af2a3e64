// fallbackSort (dep/bzip2/blocksort.c): an exponential radix sort of the rotations of
// a block. Each pass doubles the number of bytes by which they are sorted; a table
// of header bits marks where the classes of equal rotations begin.
module BzFallbackSort {
  import opened ByteType
  import opened BzRotation
  import opened BzQSort3
  import opened Rearranging
  import opened BzInverseBwt

  // ----- What holds after every pass -----

  // fm lists the rotations sorted by their first h bytes, and bit k is set exactly
  // when the rotation at k differs from the one before it within those bytes.
  ghost predicate Refined(b: seq<Byte>, fm: seq<int>, bits: seq<bool>, h: nat)
    requires b != []
  {
    && IsPermutation(fm, |b|) && |bits| >= |b|
    && (forall p, q :: 0 <= p < q < |b| ==> !LessUpTo(b, fm[q], fm[p], h))
    && bits[0]
    && (forall k :: 0 < k < |b| ==> (bits[k] <==> !EqUpTo(b, fm[k - 1], fm[k], h)))
  }

  // Separated by a header bit means strictly ordered.
  lemma {:induction false} StrictAcross(b: seq<Byte>, fm: seq<int>, bits: seq<bool>, h: nat, p: int, q: int, k: int)
    requires b != [] && Refined(b, fm, bits, h)
    requires 0 <= p < k <= q < |b| && bits[k]
    ensures LessUpTo(b, fm[p], fm[q], h)
  {
    hide LessUpTo, EqUpTo;
    Trichotomy(b, fm[k - 1], fm[k], h);
    if p < k - 1 {
      Trichotomy(b, fm[p], fm[k - 1], h);
      if LessUpTo(b, fm[p], fm[k - 1], h) { LessTrans(b, fm[p], fm[k - 1], fm[k], h); }
      else { LessEqLess(b, fm[p], fm[k - 1], fm[k], h); }
    }
    if k < q {
      Trichotomy(b, fm[k], fm[q], h);
      if LessUpTo(b, fm[k], fm[q], h) { LessTrans(b, fm[p], fm[k], fm[q], h); }
      else { LessEqLess(b, fm[p], fm[k], fm[q], h); }
    }
  }

  // No header bit between means equal.
  lemma {:induction false} EqualWithin(b: seq<Byte>, fm: seq<int>, bits: seq<bool>, h: nat, p: int, q: int)
    requires b != [] && Refined(b, fm, bits, h)
    requires 0 <= p <= q < |b| && forall k :: p < k <= q ==> !bits[k]
    ensures EqUpTo(b, fm[p], fm[q], h)
    decreases q - p
  {
    hide LessUpTo, EqUpTo;
    if p == q { EqRefl(b, fm[p], h); }
    else {
      EqualWithin(b, fm, bits, h, p, q - 1);
      EqTrans(b, fm[p], fm[q - 1], fm[q], h);
    }
  }

  // ----- Equivalence classes -----

  // ec ranks every rotation by the h bytes that come h places after its start.
  ghost predicate Ranks(b: seq<Byte>, ec: seq<int>, h: nat)
    requires b != []
  {
    |ec| >= |b| && (forall x :: 0 <= x < |b| ==> ec[x] >= 0) && forall x, y :: 0 <= x < |b| && 0 <= y < |b| ==>
      (ec[x] < ec[y] <==> LessUpTo(b, x + h, y + h, h))
  }

  lemma RanksEqual(b: seq<Byte>, ec: seq<int>, h: nat, x: int, y: int)
    requires b != [] && Ranks(b, ec, h) && 0 <= x < |b| && 0 <= y < |b|
    ensures ec[x] == ec[y] <==> EqUpTo(b, x + h, y + h, h)
  {
    Trichotomy(b, x + h, y + h, h);
  }

  // Equal on h bytes: the class of the next h bytes decides on 2h bytes.
  lemma DoubledBy(b: seq<Byte>, ec: seq<int>, h: nat, x: int, y: int)
    requires b != [] && Ranks(b, ec, h) && 0 <= x < |b| && 0 <= y < |b| && EqUpTo(b, x, y, h)
    ensures LessUpTo(b, x, y, 2 * h) <==> ec[x] < ec[y]
    ensures EqUpTo(b, x, y, 2 * h) <==> ec[x] == ec[y]
  {
    hide LessUpTo, EqUpTo;
    LessSplit(b, x, y, h, h);
    EqSplit(b, x, y, h, h);
    Trichotomy(b, x, y, h);
    RanksEqual(b, ec, h, x, y);
  }

  // The last header bit at or before i.
  function Start(bits: seq<bool>, i: nat): (j: nat)
    requires i < |bits| && bits[0]
    ensures j <= i && bits[j] && forall k :: j < k <= i ==> !bits[k]
  {
    if bits[i] then i else Start(bits, i - 1)
  }

  lemma {:induction false} StartsCompare(b: seq<Byte>, fm: seq<int>, bits: seq<bool>, h: nat, p: nat, q: nat)
    requires b != [] && Refined(b, fm, bits, h) && p < |b| && q < |b|
    ensures Start(bits, p) < Start(bits, q) <==> LessUpTo(b, fm[p], fm[q], h)
  {
    hide LessUpTo, EqUpTo;
    Trichotomy(b, fm[p], fm[q], h);
    if Start(bits, p) < Start(bits, q) {
      StrictAcross(b, fm, bits, h, p, q, Start(bits, q));
    } else if Start(bits, p) == Start(bits, q) {
      EqualWithin(b, fm, bits, h, Start(bits, p), p);
      EqualWithin(b, fm, bits, h, Start(bits, p), q);
      EqSym(b, fm[Start(bits, p)], fm[p], h);
      EqTrans(b, fm[p], fm[Start(bits, p)], fm[q], h);
    } else {
      StrictAcross(b, fm, bits, h, q, p, Start(bits, p));
      Trichotomy(b, fm[q], fm[p], h);
    }
  }

  // The rotation h bytes before x, as a position in the block.
  function Back(x: int, h: int, n: int): int {
    if x - h < 0 then x - h + n else x - h
  }

  lemma BackAhead(b: seq<Byte>, x: int, y: int, h: nat, g: nat)
    requires b != [] && 0 <= x < |b| && 0 <= y < |b| && h <= |b|
    ensures 0 <= Back(x, h, |b|) < |b| && 0 <= Back(y, h, |b|) < |b|
    ensures LessUpTo(b, Back(x, h, |b|) + h, Back(y, h, |b|) + h, g) == LessUpTo(b, x, y, g)
  {
    LessWrap(b, x, y, g);
    LessWrap(b, x, y + |b|, g);
  }

  // Every position is h bytes before some listed rotation.
  lemma BackOnto(b: seq<Byte>, fm: seq<int>, x: int, h: nat) returns (i: int)
    requires b != [] && IsPermutation(fm, |b|) && 0 <= x < |b| && h <= |b|
    ensures 0 <= i < |b| && Back(fm[i], h, |b|) == x
  {
    var y := if x + h < |b| then x + h else x + h - |b|;
    Pigeonhole(fm, |b|, y);
    i :| 0 <= i < |b| && fm[i] == y;
  }

  lemma ClassesRank(b: seq<Byte>, fm: seq<int>, bits: seq<bool>, ec: seq<int>, h: nat)
    requires b != [] && Refined(b, fm, bits, h) && h <= |b| && |ec| >= |b|
    requires forall i :: 0 <= i < |b| ==> 0 <= Back(fm[i], h, |b|) < |b| && ec[Back(fm[i], h, |b|)] == Start(bits, i)
    ensures Ranks(b, ec, h)
  {
    hide LessUpTo, EqUpTo, Back;
    forall x | 0 <= x < |b| ensures ec[x] >= 0 { var i := BackOnto(b, fm, x, h); }
    forall x, y | 0 <= x < |b| && 0 <= y < |b| ensures ec[x] < ec[y] <==> LessUpTo(b, x + h, y + h, h) {
      var i := BackOnto(b, fm, x, h);
      var k := BackOnto(b, fm, y, h);
      StartsCompare(b, fm, bits, h, i, k);
      BackAhead(b, fm[i], fm[k], h, h);
    }
  }

  // ----- A pass, bucket by bucket -----

  // Positions up to r are refined to 2h bytes, the later ones still only to h.
  ghost predicate HalfPass(b: seq<Byte>, fm: seq<int>, bits: seq<bool>, h: nat, r: int)
    requires b != []
  {
    && IsPermutation(fm, |b|) && |bits| >= |b| && -1 <= r < |b|
    && (forall p, q :: 0 <= p < q < |b| ==> !LessUpTo(b, fm[q], fm[p], h))
    && (forall p, q :: 0 <= p < q <= r ==> !LessUpTo(b, fm[q], fm[p], 2 * h))
    && bits[0]
    && (forall k :: 0 < k <= r ==> (bits[k] <==> !EqUpTo(b, fm[k - 1], fm[k], 2 * h)))
    && (forall k :: r < k < |b| && 0 < k ==> (bits[k] <==> !EqUpTo(b, fm[k - 1], fm[k], h)))
    && (r + 1 < |b| ==> bits[r + 1])
  }

  // Across a class boundary the first h bytes already decide.
  lemma Boundary(b: seq<Byte>, fm: seq<int>, h: nat, p: int, k: int, q: int)
    requires b != [] && IsPermutation(fm, |b|) && 0 <= p < k <= q < |b|
    requires forall p, q :: 0 <= p < q < |b| ==> !LessUpTo(b, fm[q], fm[p], h)
    requires !EqUpTo(b, fm[k - 1], fm[k], h)
    ensures LessUpTo(b, fm[p], fm[q], h)
    ensures !LessUpTo(b, fm[q], fm[p], 2 * h) && !EqUpTo(b, fm[p], fm[q], 2 * h)
  {
    hide LessUpTo, EqUpTo;
    Trichotomy(b, fm[k - 1], fm[k], h);
    if p < k - 1 {
      Trichotomy(b, fm[p], fm[k - 1], h);
      if LessUpTo(b, fm[p], fm[k - 1], h) { LessTrans(b, fm[p], fm[k - 1], fm[k], h); }
      else { LessEqLess(b, fm[p], fm[k - 1], fm[k], h); }
    }
    if k < q {
      Trichotomy(b, fm[k], fm[q], h);
      if LessUpTo(b, fm[k], fm[q], h) { LessTrans(b, fm[p], fm[k], fm[q], h); }
      else { LessEqLess(b, fm[p], fm[k], fm[q], h); }
    }
    LessLonger(b, fm[p], fm[q], h, 2 * h);
    Trichotomy(b, fm[p], fm[q], 2 * h);
  }

  // Classes of one rotation need no work: r moves past consecutive header bits.
  lemma {:induction false} SkipSingles(b: seq<Byte>, fm: seq<int>, bits: seq<bool>, h: nat, r: int, l: int)
    requires b != [] && HalfPass(b, fm, bits, h, r) && r <= l < |b|
    requires forall k :: r < k <= l + 1 && k < |b| ==> bits[k]
    ensures HalfPass(b, fm, bits, h, l)
    decreases l - r
  {
    hide LessUpTo, EqUpTo;
    if r < l {
      var k := r + 1;
      forall p | 0 <= p < k
        ensures !LessUpTo(b, fm[k], fm[p], 2 * h)
      {
        Boundary(b, fm, h, p, k, k);
      }
      if k > 0 { Boundary(b, fm, h, k - 1, k, k); }
      SkipSingles(b, fm, bits, h, k, l);
    }
  }

  // The class [l..r]: one header bit and then none.
  ghost predicate Bucket(bits: seq<bool>, n: nat, l: int, r: int) {
    && 0 <= l < r < n <= |bits| && bits[l]
    && (forall k :: l < k <= r ==> !bits[k])
    && (r + 1 < n ==> bits[r + 1])
  }

  lemma {:induction false} BucketEqual(b: seq<Byte>, fm: seq<int>, bits: seq<bool>, h: nat, l: int, r: int, p: int,
                                       q: int)
    requires b != [] && HalfPass(b, fm, bits, h, l - 1) && Bucket(bits, |b|, l, r) && l <= p <= q <= r
    ensures EqUpTo(b, fm[p], fm[q], h) && EqUpTo(b, fm[q], fm[p], h)
    decreases q - p
  {
    hide LessUpTo, EqUpTo;
    if p == q { EqRefl(b, fm[p], h); }
    else {
      BucketEqual(b, fm, bits, h, l, r, p, q - 1);
      EqTrans(b, fm[p], fm[q - 1], fm[q], h);
      EqSym(b, fm[p], fm[q], h);
    }
  }

  // Rearranging a class keeps the list a permutation.
  lemma StillPermutation(fm: seq<int>, gm: seq<int>, n: nat, l: int, r: int)
    requires IsPermutation(fm, n) && PermRange(fm, gm, l, r)
    ensures IsPermutation(gm, n)
  {
    forall x | 0 <= x < n ensures 0 <= gm[x] < n {
      assert gm[x] in multiset(gm);
      assert gm[x] in fm;
    }
    forall x, y | 0 <= x < y < n ensures gm[x] != gm[y] {
      if gm[x] == gm[y] {
        TwiceIn(gm, x, y);
        OnceIn(fm, gm[x]);
      }
    }
  }

  // ----- One class sorted -----

  // The class [l..r] reordered by ec, with header bits where ec changes.
  ghost predicate ClassDone(fm: seq<int>, gm: seq<int>, bits: seq<bool>, cits: seq<bool>, ec: seq<int>, n: nat, l: int,
                            r: int)
  {
    && PermRange(fm, gm, l, r) && |bits| == |cits| && 0 <= l < r < n <= |bits| && n == |fm|
    && (forall k :: l <= k <= r ==> 0 <= gm[k] < |ec|)
    && (forall p, q :: l <= p < q <= r ==> ec[gm[p]] <= ec[gm[q]])
    && (forall k :: 0 <= k < |bits| && !(l < k <= r) ==> cits[k] == bits[k])
    && (forall k :: l < k <= r ==> (cits[k] <==> ec[gm[k]] != ec[gm[k - 1]]))
  }

  // Where the entry now at p was before.
  lemma SourceOf(fm: seq<int>, gm: seq<int>, l: int, r: int, p: int) returns (s: int)
    requires PermRange(fm, gm, l, r) && 0 <= p < |fm|
    ensures 0 <= s < |fm| && fm[s] == gm[p]
    ensures if l <= p <= r then l <= s <= r else s == p
  {
    if l <= p <= r { s := PermSource(fm, gm, l, r, p); } else { s := p; }
  }

  // Two entries of the class.
  lemma OrderInside(b: seq<Byte>, fm: seq<int>, gm: seq<int>, bits: seq<bool>, ec: seq<int>, h: nat,
                    l: int, r: int, p: int, q: int)
    requires b != [] && HalfPass(b, fm, bits, h, l - 1) && Bucket(bits, |b|, l, r) && Ranks(b, ec, h)
    requires PermRange(fm, gm, l, r) && IsPermutation(gm, |b|) && l <= p < q <= r && ec[gm[p]] <= ec[gm[q]]
    ensures !LessUpTo(b, gm[q], gm[p], h) && !LessUpTo(b, gm[q], gm[p], 2 * h)
    ensures EqUpTo(b, gm[p], gm[q], 2 * h) <==> ec[gm[p]] == ec[gm[q]]
  {
    var p' := SourceOf(fm, gm, l, r, p);
    var q' := SourceOf(fm, gm, l, r, q);
    hide LessUpTo, EqUpTo, PermRange, Ranks;
    BucketEqual(b, fm, bits, h, l, r, if p' < q' then p' else q', if p' < q' then q' else p');
    hide HalfPass;
    Trichotomy(b, gm[p], gm[q], h);
    DoubledBy(b, ec, h, gm[p], gm[q]);
    DoubledBy(b, ec, h, gm[q], gm[p]);
  }

  // Two entries not both in the class: the header bit between them decides.
  lemma OrderAcross(b: seq<Byte>, fm: seq<int>, gm: seq<int>, bits: seq<bool>, h: nat, l: int, r: int, p: int, q: int)
    requires b != [] && HalfPass(b, fm, bits, h, l - 1) && Bucket(bits, |b|, l, r)
    requires PermRange(fm, gm, l, r) && IsPermutation(gm, |b|) && 0 <= p < q < |b| && !(l <= p && q <= r)
    ensures !LessUpTo(b, gm[q], gm[p], h)
    ensures q <= r ==> !LessUpTo(b, gm[q], gm[p], 2 * h)
    ensures q == r + 1 ==> !EqUpTo(b, gm[p], gm[q], h)
    ensures p < l <= q ==> !EqUpTo(b, gm[p], gm[q], 2 * h)
  {
    hide LessUpTo, EqUpTo, PermRange, HalfPass, Bucket, IsPermutation;
    HalfBounds(b, fm, bits, h, l, r);
    assert |gm| == |fm| by { SameLength(fm, gm, l, r); }
    var p' := SourceOf(fm, gm, l, r, p);
    var q' := SourceOf(fm, gm, l, r, q);
    assert p' < q';
    HalfAcross(b, fm, bits, h, l, r, p', q');
  }

  lemma HalfBounds(b: seq<Byte>, fm: seq<int>, bits: seq<bool>, h: nat, l: int, r: int)
    requires b != [] && HalfPass(b, fm, bits, h, l - 1) && Bucket(bits, |b|, l, r)
    ensures |fm| == |b| && 0 <= l < r < |b|
  {
    hide LessUpTo, EqUpTo;
  }

  // Before the class is sorted, what the header bits around it say.
  lemma HalfAcross(b: seq<Byte>, fm: seq<int>, bits: seq<bool>, h: nat, l: int, r: int, p: int, q: int)
    requires b != [] && HalfPass(b, fm, bits, h, l - 1) && Bucket(bits, |b|, l, r) && 0 <= p < q < |b|
    ensures |fm| == |b| && !LessUpTo(b, fm[q], fm[p], h)
    ensures q < l || p < l <= q ==> !LessUpTo(b, fm[q], fm[p], 2 * h)
    ensures p < l <= q ==> !EqUpTo(b, fm[p], fm[q], 2 * h)
    ensures p <= r && q == r + 1 ==> !EqUpTo(b, fm[p], fm[q], h)
  {
    hide LessUpTo, EqUpTo;
    if p < l <= q { Boundary(b, fm, h, p, l, q); }
    if p <= r && q == r + 1 {
      Boundary(b, fm, h, p, q, q);
      Trichotomy(b, fm[p], fm[q], h);
    }
  }

  lemma BucketDone(b: seq<Byte>, fm: seq<int>, gm: seq<int>, bits: seq<bool>, cits: seq<bool>, ec: seq<int>, h: nat,
                   l: int, r: int)
    requires b != [] && HalfPass(b, fm, bits, h, l - 1) && Bucket(bits, |b|, l, r) && Ranks(b, ec, h)
    requires ClassDone(fm, gm, bits, cits, ec, |b|, l, r)
    ensures HalfPass(b, gm, cits, h, r)
  {
    hide LessUpTo, EqUpTo, Ranks, PermRange;
    StillPermutation(fm, gm, |b|, l, r);
    forall p, q | 0 <= p < q < |b|
      ensures !LessUpTo(b, gm[q], gm[p], h) && (q <= r ==> !LessUpTo(b, gm[q], gm[p], 2 * h))
    {
      if l <= p && q <= r { OrderInside(b, fm, gm, bits, ec, h, l, r, p, q); }
      else { OrderAcross(b, fm, gm, bits, h, l, r, p, q); }
    }
    forall k | 0 < k <= r ensures cits[k] <==> !EqUpTo(b, gm[k - 1], gm[k], 2 * h) {
      if l < k { OrderInside(b, fm, gm, bits, ec, h, l, r, k - 1, k); }
      else { OrderAcross(b, fm, gm, bits, h, l, r, k - 1, k); Untouched(fm, gm, l, r, k); }
    }
    forall k | r < k < |b| ensures cits[k] <==> !EqUpTo(b, gm[k - 1], gm[k], h) {
      OrderAcross(b, fm, gm, bits, h, l, r, k - 1, k);
      if k > r + 1 { Untouched(fm, gm, l, r, k - 1); Untouched(fm, gm, l, r, k); }
    }
  }

  lemma Untouched(fm: seq<int>, gm: seq<int>, l: int, r: int, k: int)
    requires PermRange(fm, gm, l, r) && 0 <= k < |fm|
    ensures |gm| == |fm| && (k < l || k > r ==> gm[k] == fm[k])
    ensures 0 < k < l ==> gm[k - 1] == fm[k - 1]
  {
  }

  // ----- Scanning the header bits -----

  // Alternating bits after the block stop every scan.
  ghost predicate Sentinels(bits: seq<bool>, n: nat) {
    |bits| >= n + 64 && forall i :: 0 <= i < 32 ==> bits[n + 2 * i] && !bits[n + 2 * i + 1]
  }

  lemma FirstSentinels(bits: seq<bool>, n: nat)
    requires Sentinels(bits, n)
    ensures |bits| >= n + 64 && bits[n] && !bits[n + 1]
  {
    assert bits[n + 2 * 0] && !bits[n + 2 * 0 + 1];
  }

  // To the next clear bit, a word at a time where possible.
  method SkipSet(bh: array<bool>, start: nat, n: nat) returns (k: nat)
    requires Sentinels(bh[..], n) && start <= n + 1
    ensures start <= k <= n + 1 && !bh[k] && forall i :: start <= i < k ==> bh[i]
  {
    FirstSentinels(bh[..], n);
    k := start;
    while bh[k] && k % 32 != 0
      invariant start <= k <= n + 1 && forall i :: start <= i < k ==> bh[i]
      decreases n + 1 - k
    {
      k := k + 1;
    }
    if bh[k] {
      while forall d :: k <= d < k + 32 ==> bh[d]
        invariant start <= k <= n + 1 && forall i :: start <= i < k ==> bh[i]
        decreases n + 1 - k
      {
        k := k + 32;
      }
      while bh[k]
        invariant start <= k <= n + 1 && forall i :: start <= i < k ==> bh[i]
        decreases n + 1 - k
      {
        k := k + 1;
      }
    }
  }

  // To the next set bit.
  method SkipClear(bh: array<bool>, start: nat, n: nat) returns (k: nat)
    requires Sentinels(bh[..], n) && start <= n
    ensures start <= k <= n && bh[k] && forall i :: start <= i < k ==> !bh[i]
  {
    FirstSentinels(bh[..], n);
    k := start;
    while !bh[k] && k % 32 != 0
      invariant start <= k <= n && forall i :: start <= i < k ==> !bh[i]
      decreases n - k
    {
      k := k + 1;
    }
    if !bh[k] {
      while forall d :: k <= d < k + 32 ==> !bh[d]
        invariant start <= k <= n && forall i :: start <= i < k ==> !bh[i]
        decreases n - k
      {
        k := k + 32;
      }
      while !bh[k]
        invariant start <= k <= n && forall i :: start <= i < k ==> !bh[i]
        decreases n - k
      {
        k := k + 1;
      }
    }
  }

  // ----- One pass -----

  // The first i listed rotations have told the rotation h bytes earlier their class.
  ghost predicate Classed(fm: seq<int>, bits: seq<bool>, ec: seq<int>, n: nat, h: nat, i: nat) {
    && i <= n <= |fm| && n <= |bits| && n <= |ec| && n > 0 && bits[0]
    && (forall x :: 0 <= x < n ==> 0 <= Back(fm[x], h, n) < n)
    && (forall x :: 0 <= x < i ==> ec[Back(fm[x], h, n)] == Start(bits, x))
  }

  lemma ClassedStart(b: seq<Byte>, fm: seq<int>, bits: seq<bool>, ec: seq<int>, h: nat)
    requires b != [] && Refined(b, fm, bits, h) && 1 <= h <= |b| <= |ec|
    ensures Classed(fm, bits, ec, |b|, h, 0)
  {
    hide LessUpTo, EqUpTo;
  }

  lemma ClassedStep(b: seq<Byte>, fm: seq<int>, bits: seq<bool>, ec: seq<int>, n: nat, h: nat, i: nat, k: int)
    requires Classed(fm, bits, ec, n, h, i) && i < n && IsPermutation(fm, n) && k == Back(fm[i], h, n)
    ensures 0 <= k < n && Classed(fm, bits, ec[k := Start(bits, i)], n, h, i + 1)
  {
    hide Start;
    forall x | 0 <= x < i ensures Back(fm[x], h, n) != k { BackDistinct(fm[x], fm[i], h, n); }
  }

  // eclass of each rotation: the class of the rotation h bytes further on.
  method FillClasses(fmap: array<int>, eclass: array<int>, bh: array<bool>, n: nat, h: nat, ghost b: seq<Byte>)
    requires fmap != eclass && n == |b| > 0 && 1 <= h <= n && fmap.Length == n && eclass.Length >= n
    requires Refined(b, fmap[..], bh[..], h)
    modifies eclass
    ensures Ranks(b, eclass[..], h)
  {
    var j := 0;
    var i := 0;
    ghost var fm, bits := fmap[..], bh[..];
    assert IsPermutation(fm, n) && |bits| >= n && bits[0];
    ClassedStart(b, fm, bits, eclass[..], h);
    hide LessUpTo, EqUpTo, Refined, Classed, IsPermutation, Ranks;
    while i < n
      invariant 0 <= i <= n && fmap[..] == fm
      invariant if i == 0 then j == 0 else j == Start(bits, i - 1)
      invariant Classed(fm, bits, eclass[..], n, h, i)
    {
      if bh[i] { j := i; }
      var k := fmap[i] - h;
      if k < 0 { k := k + n; }
      ClassedStep(b, fm, bits, eclass[..], n, h, i, k);
      eclass[k] := j;
      i := i + 1;
    }
    ClassedAll(b, fm, bits, eclass[..], h);
  }

  lemma ClassedAll(b: seq<Byte>, fm: seq<int>, bits: seq<bool>, ec: seq<int>, h: nat)
    requires b != [] && Refined(b, fm, bits, h) && h <= |b| && Classed(fm, bits, ec, |b|, h, |b|)
    ensures Ranks(b, ec, h)
  {
    hide LessUpTo, EqUpTo, Ranks;
    ClassesRank(b, fm, bits, ec, h);
  }

  lemma BackDistinct(x: int, y: int, h: int, n: int)
    requires 0 <= x < n && 0 <= y < n && x != y
    ensures Back(x, h, n) != Back(y, h, n)
  {
  }

  // Header bits where the class of the next h bytes changes within [l..r].
  method MarkChanges(fmap: array<int>, eclass: array<int>, bh: array<bool>, n: nat, l: int, r: int)
    requires Bucket(bh[..], n, l, r) && fmap.Length == n
    requires forall k :: l <= k <= r ==> 0 <= fmap[k] < eclass.Length && eclass[fmap[k]] >= 0
    modifies bh
    ensures forall k :: 0 <= k < bh.Length && !(l < k <= r) ==> bh[k] == old(bh[k])
    ensures forall k :: l < k <= r ==> (bh[k] <==> eclass[fmap[k]] != eclass[fmap[k - 1]])
  {
    var cc := -1;
    var i := l;
    while i <= r
      invariant l <= i <= r + 1
      invariant cc == if i == l then -1 else eclass[fmap[i - 1]]
      invariant forall k :: 0 <= k < bh.Length && !(l < k < i) ==> bh[k] == old(bh[k])
      invariant forall k :: l < k < i ==> (bh[k] <==> eclass[fmap[k]] != eclass[fmap[k - 1]])
    {
      var cc1 := eclass[fmap[i]];
      if cc != cc1 {
        bh[i] := true;
        cc := cc1;
      }
      i := i + 1;
    }
  }

  // Sort the class [l..r] and mark where the next h bytes change.
  method RefineClass(fmap: array<int>, eclass: array<int>, bh: array<bool>, n: nat, h: nat, l: int, r: int,
                     ghost b: seq<Byte>)
    requires fmap != eclass && n == |b| > 0 && fmap.Length == n && n < 0x8000_0000
    requires HalfPass(b, fmap[..], bh[..], h, l - 1) && Bucket(bh[..], n, l, r) && Ranks(b, eclass[..], h)
    requires Sentinels(bh[..], n)
    modifies fmap, bh
    ensures HalfPass(b, fmap[..], bh[..], h, r) && Sentinels(bh[..], n)
  {
    ghost var fm, bits, ec := fmap[..], bh[..], eclass[..];
    ReadyToSort(b, fm, bits, ec, h, l, r);
    hide LessUpTo, EqUpTo, Ranks, HalfPass, PermRange, Keyed, Sentinels, Bucket, ClassDone, IsPermutation;
    QSort3(fmap, eclass, l, r);
    ghost var gm := fmap[..];
    SortedStill(b, fm, gm, bits, ec, h, l, r);
    MarkChanges(fmap, eclass, bh, n, l, r);
    ClassIsDone(b, fm, gm, bits, bh[..], ec, h, l, r);
    BucketDone(b, fm, gm, bits, bh[..], ec, h, l, r);
  }

  lemma ReadyToSort(b: seq<Byte>, fm: seq<int>, bits: seq<bool>, ec: seq<int>, h: nat, l: int, r: int)
    requires b != [] && HalfPass(b, fm, bits, h, l - 1) && Bucket(bits, |b|, l, r) && Ranks(b, ec, h)
    ensures Keyed(fm, ec, 0, l, r) && 0 <= l < r < |b| && |fm| == |b|
  {
    hide LessUpTo, EqUpTo;
  }

  lemma SortedStill(b: seq<Byte>, fm: seq<int>, gm: seq<int>, bits: seq<bool>, ec: seq<int>, h: nat, l: int, r: int)
    requires b != [] && HalfPass(b, fm, bits, h, l - 1) && Bucket(bits, |b|, l, r) && Ranks(b, ec, h)
    requires PermRange(fm, gm, l, r)
    ensures IsPermutation(gm, |b|) && forall k :: l <= k <= r ==> 0 <= gm[k] < |ec| && ec[gm[k]] >= 0
  {
    hide LessUpTo, EqUpTo, PermRange;
    StillPermutation(fm, gm, |b|, l, r);
  }

  lemma ClassIsDone(b: seq<Byte>, fm: seq<int>, gm: seq<int>, bits: seq<bool>, cits: seq<bool>, ec: seq<int>, h: nat,
                    l: int, r: int)
    requires b != [] && HalfPass(b, fm, bits, h, l - 1) && Bucket(bits, |b|, l, r) && |bits| == |cits|
    requires PermRange(fm, gm, l, r) && IsPermutation(gm, |b|) && |ec| >= |b|
    requires forall p, q :: l <= p < q <= r ==> ec[gm[p]] <= ec[gm[q]]
    requires forall k :: 0 <= k < |bits| && !(l < k <= r) ==> cits[k] == bits[k]
    requires forall k :: l < k <= r ==> (cits[k] <==> ec[gm[k]] != ec[gm[k - 1]])
    ensures ClassDone(fm, gm, bits, cits, ec, |b|, l, r)
    ensures Sentinels(bits, |b|) ==> Sentinels(cits, |b|)
  {
    hide LessUpTo, EqUpTo, PermRange;
  }

  // All classes, from left to right; counts the rotations that were not yet alone.
  method RefineAll(fmap: array<int>, eclass: array<int>, bh: array<bool>, n: nat, h: nat, ghost b: seq<Byte>)
    returns (nNotDone: int)
    requires fmap != eclass && n == |b| > 0 && fmap.Length == n && n < 0x8000_0000
    requires Refined(b, fmap[..], bh[..], h) && Ranks(b, eclass[..], h) && Sentinels(bh[..], n)
    modifies fmap, bh
    ensures Refined(b, fmap[..], bh[..], 2 * h) && Sentinels(bh[..], n)
    ensures nNotDone == 0 ==> fmap[..] == old(fmap[..]) && forall k :: 0 <= k < n ==> old(bh[..])[k]
  {
    hide LessUpTo, EqUpTo, Ranks, HalfPass, Refined, Sentinels, Bucket;
    nNotDone := 0;
    var r := -1;
    PassStarts(b, fmap[..], bh[..], h);
    FirstSentinels(bh[..], n);
    ghost var fm0, bits0, ec := fmap[..], bh[..], eclass[..];
    while true
      invariant eclass[..] == ec && -1 <= r < n && nNotDone >= 0
      invariant HalfPass(b, fmap[..], bh[..], h, r) && Sentinels(bh[..], n)
      invariant nNotDone == 0 ==> fmap[..] == fm0 && bh[..] == bits0
      invariant nNotDone == 0 ==> forall k :: 0 <= k <= r ==> bits0[k]
      decreases n - r
    {
      ghost var r0, bits := r, bh[..];
      HalfPassBit(b, fmap[..], bits, h, r);
      var k := SkipSet(bh, r + 1, n);
      var l := k - 1;
      if l >= n {
        SkipSingles(b, fmap[..], bits, h, r, n - 1);
        break;
      }
      k := SkipClear(bh, k, n);
      r := k - 1;
      if r >= n { break; }
      BucketFound(b, fmap[..], bits, h, r0, l, r);
      SkipSingles(b, fmap[..], bits, h, r0, l - 1);
      if r > l {
        nNotDone := nNotDone + (r - l + 1);
        RefineClass(fmap, eclass, bh, n, h, l, r, b);
      }
    }
    PassEnds(b, fmap[..], bh[..], h);
  }

  // The scan stops at a class of at least two.
  lemma BucketFound(b: seq<Byte>, fm: seq<int>, bits: seq<bool>, h: nat, r0: int, l: int, r: int)
    requires b != [] && HalfPass(b, fm, bits, h, r0) && |bits| > |b| && -1 <= r0 <= l < |b| && l <= r < |b|
    requires forall i :: r0 + 1 <= i < l + 1 ==> bits[i]
    requires forall i :: l + 1 <= i < r + 1 ==> !bits[i]
    requires !bits[l + 1] && bits[r + 1]
    ensures r0 < l < r && Bucket(bits, |b|, l, r)
  {
    hide LessUpTo, EqUpTo;
  }

  // The next class begins behind the ones done.
  lemma HalfPassBit(b: seq<Byte>, fm: seq<int>, bits: seq<bool>, h: nat, r: int)
    requires b != [] && HalfPass(b, fm, bits, h, r)
    ensures |bits| >= |b| && (r + 1 < |b| ==> bits[r + 1])
  {
  }

  lemma PassStarts(b: seq<Byte>, fm: seq<int>, bits: seq<bool>, h: nat)
    requires b != [] && Refined(b, fm, bits, h)
    ensures HalfPass(b, fm, bits, h, -1)
  {
    hide LessUpTo, EqUpTo;
  }

  lemma PassEnds(b: seq<Byte>, fm: seq<int>, bits: seq<bool>, h: nat)
    requires b != [] && HalfPass(b, fm, bits, h, |b| - 1)
    ensures Refined(b, fm, bits, 2 * h)
  {
    hide LessUpTo, EqUpTo;
  }

  // ----- The loop over depths -----

  // All rotations alone in their class, or sorted beyond a whole turn: done.
  lemma SingletonsSorted(b: seq<Byte>, fm: seq<int>, bits: seq<bool>, h: nat)
    requires b != [] && Refined(b, fm, bits, h) && h <= |b| && forall k :: 0 <= k < |b| ==> bits[k]
    ensures SortedRotations(b, fm)
  {
    hide LessUpTo, EqUpTo;
    forall p, q | 0 <= p < q < |b| ensures Leq(b, fm[p], fm[q]) {
      StrictAcross(b, fm, bits, h, p, q, q);
      LessLonger(b, fm[p], fm[q], h, |b|);
      Trichotomy(b, fm[p], fm[q], |b|);
    }
  }

  lemma WholeTurnSorted(b: seq<Byte>, fm: seq<int>, bits: seq<bool>, h: nat)
    requires b != [] && Refined(b, fm, bits, h) && h >= |b|
    ensures SortedRotations(b, fm)
  {
    hide LessUpTo, EqUpTo;
    forall p, q | 0 <= p < q < |b| ensures Leq(b, fm[p], fm[q]) {
      LessForever(b, fm[q], fm[p], h);
    }
  }

  method RefineDepths(fmap: array<int>, eclass: array<int>, bh: array<bool>, n: nat, ghost b: seq<Byte>)
    requires fmap != eclass && n == |b| > 0 && fmap.Length == n && eclass.Length >= n && n < 0x8000_0000
    requires Refined(b, fmap[..], bh[..], 1) && Sentinels(bh[..], n)
    modifies fmap, eclass, bh
    ensures SortedRotations(b, fmap[..])
  {
    hide LessUpTo, EqUpTo, Ranks, Refined, Leq;
    var h := 1;
    while true
      invariant 1 <= h <= n
      invariant Refined(b, fmap[..], bh[..], h) && Sentinels(bh[..], n)
      decreases n - h
    {
      ghost var fm, bits := fmap[..], bh[..];
      FillClasses(fmap, eclass, bh, n, h, b);
      var nNotDone := RefineAll(fmap, eclass, bh, n, h, b);
      if nNotDone == 0 { SingletonsSorted(b, fm, bits, h); }
      else if 2 * h > n { WholeTurnSorted(b, fmap[..], bh[..], 2 * h); }
      h := 2 * h;
      if h > n || nNotDone == 0 { break; }
    }
  }

  // ----- The first pass: one bucket per byte value -----

  // Where rotation x goes: buckets fill from the end.
  function Slot(b: seq<Byte>, x: nat): int
    requires x < |b|
  {
    Smaller(b, b[x] as int + 1) - 1 - Count(b[..x], b[x])
  }

  lemma SlotInBucket(b: seq<Byte>, x: nat)
    requires x < |b|
    ensures 0 <= Smaller(b, b[x]) <= Slot(b, x) < Smaller(b, b[x] as int + 1) <= |b|
  {
    hide Count, Smaller;
    CountMono(b, b[x], x, |b|);
    assert b[..|b|] == b;
    SmallerNext(b, b[x]);
    SmallerMono(b, b[x] as int + 1, 256);
  }

  lemma SlotsDiffer(b: seq<Byte>, x: nat, y: nat)
    requires x < y < |b|
    ensures Slot(b, x) != Slot(b, y)
  {
    if b[x] == b[y] { CountMono(b, b[x], x, y); }
    else {
      SlotInBucket(b, x);
      SlotInBucket(b, y);
      if b[x] < b[y] { SmallerMono(b, b[x] as int + 1, b[y]); } else { SmallerMono(b, b[y] as int + 1, b[x]); }
    }
  }

  // The first i rotations are in their slots and every bucket end has moved down.
  ghost predicate Placed(b: seq<Byte>, fm: seq<int>, ft: seq<int>, i: nat) {
    && i <= |b| == |fm| && |ft| == 257
    && (forall x :: 0 <= x < i ==> 0 <= Slot(b, x) < |b| && fm[Slot(b, x)] == x)
    && (forall c :: 0 <= c < 256 ==> ft[c] == Smaller(b, c + 1) - Count(b[..i], c))
  }

  lemma PlacedStep(b: seq<Byte>, fm: seq<int>, ft: seq<int>, i: nat)
    requires Placed(b, fm, ft, i) && i < |b|
    ensures var k := ft[b[i]] - 1; 0 <= k < |b| && Placed(b, fm[k := i], ft[b[i] := k], i + 1)
  {
    hide Slot, Smaller;
    SlotInBucket(b, i);
    assert ft[b[i]] - 1 == Slot(b, i) by { SlotIs(b, i); }
    forall x | 0 <= x < i ensures Slot(b, x) != Slot(b, i) { SlotsDiffer(b, x, i); }
    assert b[..i + 1][..i] == b[..i];
  }

  lemma SlotIs(b: seq<Byte>, x: nat)
    requires x < |b|
    ensures Slot(b, x) == Smaller(b, b[x] as int + 1) - 1 - Count(b[..x], b[x])
  {
  }

  // Entry k lies in the bucket of its byte.
  predicate InBucket(b: seq<Byte>, fm: seq<int>, k: int) {
    && 0 <= k < |fm| && 0 <= fm[k] < |b|
    && Smaller(b, b[fm[k]]) <= k < Smaller(b, b[fm[k]] as int + 1)
  }

  ghost predicate InBuckets(b: seq<Byte>, fm: seq<int>) {
    IsPermutation(fm, |b|) && forall k :: 0 <= k < |b| ==> InBucket(b, fm, k)
  }

  lemma SlotTaken(b: seq<Byte>, fm: seq<int>, ft: seq<int>, k: nat)
    requires Placed(b, fm, ft, |b|) && k < |b|
    ensures |fm| == |b| && 0 <= fm[k] < |b| && Slot(b, fm[k]) == k && InBucket(b, fm, k)
  {
    hide Slot, Smaller, Count;
    var slots := seq(|b|, x requires 0 <= x < |b| => Slot(b, x));
    forall x, y | 0 <= x < y < |b| ensures slots[x] != slots[y] { SlotsDiffer(b, x, y); }
    Pigeonhole(slots, |b|, k);
    var x :| 0 <= x < |b| && slots[x] == k;
    SlotInBucket(b, x);
  }

  // Filled: fm is a permutation, and each entry is in the bucket of its byte.
  lemma AllPlaced(b: seq<Byte>, fm: seq<int>, ft: seq<int>)
    requires Placed(b, fm, ft, |b|)
    ensures InBuckets(b, fm)
  {
    hide Slot, InBucket;
    assert |fm| == |b|;
    hide Placed;
    forall k | 0 <= k < |b| ensures 0 <= fm[k] < |b| && InBucket(b, fm, k) { SlotTaken(b, fm, ft, k); }
    forall x, y | 0 <= x < y < |b| ensures fm[x] != fm[y] {
      SlotTaken(b, fm, ft, x);
      SlotTaken(b, fm, ft, y);
    }
  }

  predicate IsStart(b: seq<Byte>, k: int, m: nat) {
    exists c :: 0 <= c < m && Smaller(b, c) == k
  }

  // Bucket starts are exactly the places where the first byte changes.
  ghost predicate BucketStarts(b: seq<Byte>, bits: seq<bool>) {
    |bits| >= |b| && forall k :: 0 <= k < |b| ==> (bits[k] <==> IsStart(b, k, 256))
  }

  lemma BucketsOrdered(b: seq<Byte>, fm: seq<int>, p: int, q: int)
    requires InBuckets(b, fm) && 0 <= p < q < |b|
    ensures b[fm[p]] <= b[fm[q]]
  {
    assert InBucket(b, fm, p) && InBucket(b, fm, q);
    if b[fm[q]] < b[fm[p]] { SmallerMono(b, b[fm[q]] as int + 1, b[fm[p]]); }
  }

  lemma StartsSplit(b: seq<Byte>, fm: seq<int>, k: int)
    requires InBuckets(b, fm) && 0 < k < |b|
    ensures IsStart(b, k, 256) <==> b[fm[k - 1]] != b[fm[k]]
  {
    hide Smaller;
    BucketsOrdered(b, fm, k - 1, k);
    assert InBucket(b, fm, k - 1) && InBucket(b, fm, k);
    if b[fm[k - 1]] != b[fm[k]] {
      SmallerMono(b, b[fm[k - 1]] as int + 1, b[fm[k]]);
    } else {
      InsideBucket(b, b[fm[k]], k);
    }
  }

  lemma InsideBucket(b: seq<Byte>, v: Byte, k: int)
    requires Smaller(b, v) < k < Smaller(b, v as int + 1)
    ensures !IsStart(b, k, 256)
  {
    hide Smaller;
    forall c | 0 <= c < 256 ensures Smaller(b, c) != k {
      if c <= v { SmallerMono(b, c, v); } else { SmallerMono(b, v as int + 1, c); }
    }
  }

  lemma FirstPass(b: seq<Byte>, fm: seq<int>, bits: seq<bool>)
    requires b != [] && InBuckets(b, fm) && BucketStarts(b, bits)
    ensures Refined(b, fm, bits, 1)
  {
    hide LessUpTo, EqUpTo, Smaller, IsStart;
    assert IsStart(b, 0, 256) by { StartsAtZero(b); }
    forall p, q | 0 <= p < q < |b| ensures !LessUpTo(b, fm[q], fm[p], 1) {
      BucketsOrdered(b, fm, p, q);
      OneByteOf(b, fm[q], fm[p]);
    }
    forall k | 0 < k < |b| ensures bits[k] <==> !EqUpTo(b, fm[k - 1], fm[k], 1) {
      StartsSplit(b, fm, k);
      OneByteOf(b, fm[k - 1], fm[k]);
    }
  }

  lemma StartsAtZero(b: seq<Byte>)
    ensures IsStart(b, 0, 256)
  {
    SmallerEnds(b);
  }

  lemma OneByteOf(b: seq<Byte>, x: int, y: int)
    requires b != [] && 0 <= x < |b| && 0 <= y < |b|
    ensures LessUpTo(b, x, y, 1) <==> b[x] < b[y]
    ensures EqUpTo(b, x, y, 1) <==> b[x] == b[y]
  {
    OneByte(b, x, y);
    FirstByte(b, x);
    FirstByte(b, y);
  }

  method CountBytes(block: array<Byte>, ftab: array<int>, ftabCopy: array<int>, n: nat)
    requires block.Length == n && ftab.Length == 257 && ftabCopy.Length == 256 && ftab != ftabCopy
    modifies ftab, ftabCopy
    ensures forall c :: 0 <= c < 256 ==> ftab[c] == ftabCopy[c] == Count(block[..], c)
    ensures ftab[256] == 0
  {
    ghost var b := block[..];
    for i := 0 to 257
      invariant forall c :: 0 <= c < i ==> ftab[c] == 0
    {
      ftab[i] := 0;
    }
    for i := 0 to n
      invariant ftab[256] == 0 && forall c :: 0 <= c < 256 ==> ftab[c] == Count(b[..i], c)
    {
      assert b[..i + 1][..i] == b[..i];
      ftab[block[i]] := ftab[block[i]] + 1;
    }
    assert b[..n] == b;
    for i := 0 to 256
      invariant ftab[256] == 0 && forall c :: 0 <= c < 256 ==> ftab[c] == Count(b, c)
      invariant forall c :: 0 <= c < i ==> ftabCopy[c] == Count(b, c)
    {
      ftabCopy[i] := ftab[i];
    }
  }

  method BucketEnds(ftab: array<int>, ghost b: seq<Byte>)
    requires ftab.Length == 257 && ftab[256] == 0 && forall c :: 0 <= c < 256 ==> ftab[c] == Count(b, c)
    modifies ftab
    ensures forall c :: 0 <= c < 256 ==> ftab[c] == Smaller(b, c + 1)
  {
    hide Smaller, Count;
    SmallerEnds(b);
    SmallerNext(b, 0);
    for i := 1 to 257
      invariant forall c :: 0 <= c < i && c < 256 ==> ftab[c] == Smaller(b, c + 1)
      invariant forall c :: i <= c < 256 ==> ftab[c] == Count(b, c)
    {
      SmallerNext(b, i);
      ftab[i] := ftab[i] + ftab[i - 1];
    }
  }

  method PlaceAll(block: array<Byte>, ftab: array<int>, fmap: array<int>, n: nat)
    requires block.Length == n == fmap.Length && ftab.Length == 257 && ftab != fmap
    requires forall c :: 0 <= c < 256 ==> ftab[c] == Smaller(block[..], c + 1)
    modifies ftab, fmap
    ensures InBuckets(block[..], fmap[..])
    ensures forall c :: 0 <= c < 256 ==> ftab[c] == Smaller(block[..], c)
  {
    ghost var b := block[..];
    assert Placed(b, fmap[..], ftab[..], 0);
    hide Placed, InBuckets, Smaller, Slot;
    var i := 0;
    while i < n
      invariant 0 <= i <= n && block[..] == b && Placed(b, fmap[..], ftab[..], i)
    {
      PlacedStep(b, fmap[..], ftab[..], i);
      var j := block[i];
      var k := ftab[j] - 1;
      ftab[j] := k;
      fmap[k] := i;
      i := i + 1;
    }
    AllInBuckets(b, fmap[..], ftab[..]);
  }

  lemma AllInBuckets(b: seq<Byte>, fm: seq<int>, ft: seq<int>)
    requires Placed(b, fm, ft, |b|)
    ensures InBuckets(b, fm) && |ft| == 257 && forall c :: 0 <= c < 256 ==> ft[c] == Smaller(b, c)
  {
    AllPlaced(b, fm, ft);
    assert b[..|b|] == b;
    forall c | 0 <= c < 256 ensures ft[c] == Smaller(b, c) { SmallerNext(b, c); }
  }

  ghost predicate StartsMarked(b: seq<Byte>, bits: seq<bool>, m: nat) {
    |bits| >= |b| && forall k :: 0 <= k < |b| ==> (bits[k] <==> IsStart(b, k, m))
  }

  lemma NoStarts(b: seq<Byte>, bits: seq<bool>)
    requires |bits| >= |b| && forall k :: 0 <= k < |b| ==> !bits[k]
    ensures StartsMarked(b, bits, 0)
  {
    hide Smaller;
    forall k | 0 <= k < |b| ensures !IsStart(b, k, 0) { }
  }

  lemma StartsStep(b: seq<Byte>, k: int, i: nat)
    ensures IsStart(b, k, i + 1) <==> IsStart(b, k, i) || Smaller(b, i) == k
  {
    hide Smaller;
  }

  lemma MarkStep(b: seq<Byte>, bits: seq<bool>, i: nat)
    requires StartsMarked(b, bits, i) && Smaller(b, i) < |bits|
    ensures StartsMarked(b, bits[Smaller(b, i) := true], i + 1)
  {
    hide IsStart, Smaller;
    var cits := bits[Smaller(b, i) := true];
    forall k | 0 <= k < |b| ensures cits[k] <==> IsStart(b, k, i + 1) {
      StartsStep(b, k, i);
      assert bits[k] <==> IsStart(b, k, i);
    }
  }

  lemma MarkedMeans(b: seq<Byte>, bits: seq<bool>)
    requires StartsMarked(b, bits, 256)
    ensures |bits| >= |b| && forall k :: 0 <= k < |b| ==> (bits[k] <==> IsStart(b, k, 256))
  {
  }

  // Clear the table, set a bit at every bucket start, then the sentinels.
  method MarkStarts(ftab: array<int>, bh: array<bool>, n: nat, ghost b: seq<Byte>)
    requires |b| == n > 0 && ftab.Length == 257 && bh.Length >= 32 * (3 + n / 32)
    requires forall c :: 0 <= c < 256 ==> ftab[c] == Smaller(b, c)
    modifies bh
    ensures BucketStarts(b, bh[..]) && Sentinels(bh[..], n)
  {
    hide Smaller, IsStart;
    forall c | 0 <= c < 256 ensures 0 <= Smaller(b, c) <= n { SmallerMono(b, c, c); }
    var cleared := 32 * (2 + n / 32);
    for i := 0 to cleared
      invariant forall k :: 0 <= k < i ==> !bh[k]
    {
      bh[i] := false;
    }
    NoStarts(b, bh[..]);
    hide StartsMarked;
    for i := 0 to 256
      invariant StartsMarked(b, bh[..], i)
    {
      MarkStep(b, bh[..], i);
      bh[ftab[i]] := true;
    }
    MarkedMeans(b, bh[..]);
    for i := 0 to 32
      invariant forall k :: 0 <= k < n ==> (bh[k] <==> IsStart(b, k, 256))
      invariant forall d :: 0 <= d < i ==> bh[n + 2 * d] && !bh[n + 2 * d + 1]
    {
      bh[n + 2 * i] := true;
      bh[n + 2 * i + 1] := false;
    }
  }

  // ----- Rebuilding the block -----

  // The bytes picked by distinct positions.
  function Picked(b: seq<Byte>, fm: seq<int>): (s: seq<Byte>)
    requires forall i :: 0 <= i < |fm| ==> 0 <= fm[i] < |b|
    ensures |s| == |fm|
  {
    seq(|fm|, i requires 0 <= i < |fm| => b[fm[i]])
  }

  function With(b: seq<Byte>, at: set<int>, c: int): set<int> {
    set x | x in at && 0 <= x < |b| && b[x] == c
  }

  lemma WithOneMore(b: seq<Byte>, at: set<int>, v: int, c: int)
    requires v !in at && 0 <= v < |b|
    ensures |With(b, at + {v}, c)| == |With(b, at, c)| + if b[v] == c then 1 else 0
  {
    assert With(b, at + {v}, c) == if b[v] == c then With(b, at, c) + {v} else With(b, at, c);
  }

  lemma {:induction false} CountPicked(b: seq<Byte>, fm: seq<int>, c: int)
    requires forall i :: 0 <= i < |fm| ==> 0 <= fm[i] < |b|
    requires forall i, j :: 0 <= i < j < |fm| ==> fm[i] != fm[j]
    ensures Count(Picked(b, fm), c) == |With(b, Elements(fm), c)|
  {
    if fm != [] {
      var m := |fm| - 1;
      var gm := fm[..m];
      CountPicked(b, gm, c);
      assert Picked(b, fm)[..m] == Picked(b, gm);
      assert Elements(fm) == Elements(gm) + {fm[m]};
      hide With;
      WithOneMore(b, Elements(gm), fm[m], c);
    }
  }

  // A permutation does not change how often a byte occurs.
  lemma PermutedCount(b: seq<Byte>, fm: seq<int>, c: int)
    requires IsPermutation(fm, |b|)
    ensures Count(Picked(b, fm), c) == Count(b, c)
  {
    var n := |b|;
    var id := seq(n, i => i);
    CountPicked(b, fm, c);
    CountPicked(b, id, c);
    assert Picked(b, id) == b;
    forall x | 0 <= x < n ensures x in fm && x in id {
      Pigeonhole(fm, n, x);
      assert id[x] == x;
    }
    assert Elements(fm) == Elements(id);
  }

  lemma {:induction false} CountFlat(s: seq<Byte>, i: nat, k: nat, c: int)
    requires i <= k <= |s| && forall x :: i <= x < k ==> s[x] > c
    ensures Count(s[..k], c) == Count(s[..i], c)
    decreases k
  {
    if i < k {
      CountFlat(s, i, k - 1, c);
      assert s[..k][..k - 1] == s[..k - 1];
    }
  }

  // Sorted rotations start with ascending bytes.
  lemma FirstBytesAscend(b: seq<Byte>, fm: seq<int>, p: int, q: int)
    requires b != [] && SortedRotations(b, fm) && 0 <= p < q < |b|
    ensures b[fm[p]] <= b[fm[q]]
  {
    hide LessUpTo, EqUpTo;
    OneByteOf(b, fm[q], fm[p]);
    assert Leq(b, fm[p], fm[q]);
    if b[fm[q]] < b[fm[p]] { LessLonger(b, fm[q], fm[p], 1, |b|); }
  }

  // The counts not yet used up once i bytes are out; s is the first column.
  ghost predicate Leftover(s: seq<Byte>, ft: seq<int>, i: nat) {
    i <= |s| && |ft| == 256 && forall c :: 0 <= c < 256 ==> ft[c] == Count(s, c) - Count(s[..i], c)
  }

  ghost predicate Ascending(s: seq<Byte>) {
    forall p, q :: 0 <= p < q < |s| ==> s[p] <= s[q]
  }

  lemma AscendingAt(s: seq<Byte>, i: nat)
    requires Ascending(s)
    ensures i + 1 < |s| ==> s[i] <= s[i + 1]
  {
  }

  lemma LeftoverAt(s: seq<Byte>, ft: seq<int>, i: nat, j: nat)
    requires Leftover(s, ft, i) && i < |s| && j <= s[i]
    requires Ascending(s)
    ensures |ft| == 256 && (ft[j] == 0 <==> j < s[i])
    ensures Leftover(s, ft[s[i] := ft[s[i]] - 1], i + 1)
  {
    assert s[..|s|] == s;
    if j < s[i] { CountFlat(s, i, |s|, j); } else { CountMono(s, s[i], i, |s|); }
    assert s[..i + 1][..i] == s[..i];
  }

  // The next byte value with some count left is the next byte of the first column.
  method NextByte(ftabCopy: array<int>, start: nat, ghost s: seq<Byte>, ghost i: nat) returns (j: nat)
    requires Leftover(s, ftabCopy[..], i) && i < |s| && start <= s[i]
    requires Ascending(s)
    ensures j == s[i]
  {
    hide Leftover, Count, Ascending;
    j := start;
    LeftoverAt(s, ftabCopy[..], i, j);
    while ftabCopy[j] == 0
      invariant 0 <= j <= s[i] < ftabCopy.Length && (ftabCopy[j] == 0 <==> j < s[i])
      decreases s[i] - j
    {
      j := j + 1;
      LeftoverAt(s, ftabCopy[..], i, j);
    }
  }

  // The bytes of the first i rows are back in their places.
  ghost predicate Restored(block: seq<Byte>, b: seq<Byte>, fm: seq<int>, i: nat) {
    && IsPermutation(fm, |b|) && |block| == |b| && i <= |b|
    && forall k :: 0 <= k < i ==> block[fm[k]] == b[fm[k]]
  }

  lemma RestoredNext(block: seq<Byte>, b: seq<Byte>, fm: seq<int>, i: nat)
    requires Restored(block, b, fm, i) && i < |b|
    ensures 0 <= fm[i] < |b| == |block| && Restored(block[fm[i] := b[fm[i]]], b, fm, i + 1)
  {
  }

  lemma NoneRestored(block: seq<Byte>, b: seq<Byte>, fm: seq<int>)
    requires b != [] && SortedRotations(b, fm) && |block| == |b|
    ensures Restored(block, b, fm, 0)
  {
  }

  lemma AllRestored(b: seq<Byte>, fm: seq<int>, block: seq<Byte>)
    requires Restored(block, b, fm, |b|)
    ensures block == b
  {
    forall x | 0 <= x < |b| ensures block[x] == b[x] {
      Pigeonhole(fm, |b|, x);
      var k :| 0 <= k < |b| && fm[k] == x;
    }
  }

  // The first column of the sorted rotations ascends and has the counts of the block.
  lemma FirstColumn(b: seq<Byte>, fm: seq<int>, ft: seq<int>)
    requires b != [] && SortedRotations(b, fm) && |ft| == 256 && forall c :: 0 <= c < 256 ==> ft[c] == Count(b, c)
    ensures |fm| == |b| && forall i :: 0 <= i < |fm| ==> 0 <= fm[i] < |b| && Picked(b, fm)[i] == b[fm[i]]
    ensures Ascending(Picked(b, fm)) && Leftover(Picked(b, fm), ft, 0)
  {
    hide Leq, Count;
    ghost var s := Picked(b, fm);
    forall c | 0 <= c < 256 ensures ft[c] == Count(s, c) - Count(s[..0], c) {
      PermutedCount(b, fm, c);
      CountNothing(c);
    }
    forall p, q | 0 <= p < q < |b| ensures s[p] <= s[q] { FirstBytesAscend(b, fm, p, q); }
  }

  lemma CountNothing(c: int)
    ensures Count([], c) == 0
  {
  }

  method Rebuild(fmap: array<int>, ftabCopy: array<int>, block: array<Byte>, n: nat, ghost b: seq<Byte>)
    requires fmap != ftabCopy && n == |b| > 0 && fmap.Length == n == block.Length && ftabCopy.Length == 256
    requires SortedRotations(b, fmap[..]) && forall c :: 0 <= c < 256 ==> ftabCopy[c] == Count(b, c)
    modifies ftabCopy, block
    ensures block[..] == b
  {
    hide Leftover, SortedRotations, Count, Picked, Ascending, Restored;
    ghost var fm := fmap[..];
    FirstColumn(b, fm, ftabCopy[..]);
    ghost var s := Picked(b, fm);
    NoneRestored(block[..], b, fm);
    var j := 0;
    var i := 0;
    while i < n
      invariant 0 <= i <= n && fmap[..] == fm && Restored(block[..], b, fm, i)
      invariant 0 <= j && (if i < n then j <= s[i] else j <= 255) && Leftover(s, ftabCopy[..], i)
    {
      ghost var ft, was := ftabCopy[..], block[..];
      j := NextByte(ftabCopy, j, s, i);
      LeftoverAt(s, ft, i, j);
      RestoredNext(was, b, fm, i);
      ftabCopy[j] := ftabCopy[j] - 1;
      assert ftabCopy[..] == ft[j := ft[j] - 1];
      block[fmap[i]] := j;
      assert block[..] == was[fm[i] := j];
      AscendingAt(s, i);
      i := i + 1;
    }
    assert j < 256;
    AllRestored(b, fm, block[..]);
  }

  // eclass shares its memory with the block: using it overwrites the bytes.
  method Overwrite(block: array<Byte>)
    modifies block
  {
    for i := 0 to block.Length {
      block[i] := *;
    }
  }

  // ----- The whole sort -----

  method FallbackSort(fmap: array<int>, eclass: array<int>, block: array<Byte>, bh: array<bool>, n: nat)
    requires fmap != eclass && n > 0 && fmap.Length == n == block.Length && eclass.Length >= n
    requires n < 0x8000_0000 && bh.Length >= 32 * (3 + n / 32)
    modifies fmap, eclass, block, bh
    ensures SortedRotations(block[..], fmap[..])
    ensures block[..] == old(block[..])
  {
    hide SortedRotations, Smaller, Count, Refined, InBuckets, BucketStarts, Sentinels;
    ghost var b := block[..];
    var ftab, ftabCopy := new int[257], new int[256];
    CountBytes(block, ftab, ftabCopy, n);
    BucketEnds(ftab, b);
    PlaceAll(block, ftab, fmap, n);
    MarkStarts(ftab, bh, n, b);
    FirstPass(b, fmap[..], bh[..]);
    Overwrite(block);
    RefineDepths(fmap, eclass, bh, n, b);
    Rebuild(fmap, ftabCopy, block, n, b);
  }

  // The row of the unrotated block; it always exists.
  method FindOrigin(ptr: array<int>, n: nat) returns (origPtr: int)
    requires n > 0 && ptr.Length == n && IsPermutation(ptr[..], n)
    ensures 0 <= origPtr < n && ptr[origPtr] == 0
  {
    origPtr := -1;
    var i := 0;
    while i < n
      invariant 0 <= i <= n && origPtr == -1 && forall k :: 0 <= k < i ==> ptr[k] != 0
    {
      if ptr[i] == 0 {
        origPtr := i;
        break;
      }
      i := i + 1;
    }
    Pigeonhole(ptr[..], n, 0);
    assert origPtr != -1;
  }
}
