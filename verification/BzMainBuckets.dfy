// The two-byte radix sort that opens the main sort (dep/bzip2/blocksort.c, mainSort), and
// what it means for the pointers to stand in their small buckets.
module BzMainBuckets {
  import opened ByteType
  import opened Bits
  import opened BzRotation
  import opened BzInverseBwt
  import opened BzTVector
  import opened Rearranging
  import opened BzQSort3
  import opened BzMainCompare
  import opened BzMainSimple

  // ----- The first two bytes of a rotation -----

  function Succ(i: int, n: int): int {
    if i + 1 == n then 0 else i + 1
  }

  function Pred(i: int, n: int): int {
    if i == 0 then n - 1 else i - 1
  }

  function Pair(b: seq<Byte>, i: int): (w: int)
    requires 0 <= i < |b|
    ensures 0 <= w < 65536
  {
    256 * (b[i] as int) + b[Succ(i, |b|)]
  }

  function Pairs(b: seq<Byte>): (l: seq<int>)
    ensures |l| == |b| && forall i :: 0 <= i < |b| ==> l[i] == Pair(b, i)
  {
    seq(|b|, i requires 0 <= i < |b| => Pair(b, i))
  }

  // Where the small bucket of the pair c begins.
  function From(b: seq<Byte>, c: int): nat {
    Smaller(Pairs(b), c)
  }

  lemma FromMono(b: seq<Byte>, c: int, d: int)
    requires c <= d
    ensures From(b, c) <= From(b, d) <= |b|
  {
    SmallerMono(Pairs(b), c, d);
  }

  lemma {:induction false} SmallerBounds(l: seq<int>, n: int)
    requires forall i :: 0 <= i < |l| ==> 0 <= l[i] < n
    ensures Smaller(l, 0) == 0 && Smaller(l, n) == |l|
  {
    if l != [] { SmallerBounds(l[..|l| - 1], n); }
  }

  lemma FromEnds(b: seq<Byte>)
    ensures From(b, 0) == 0 && From(b, 65536) == |b|
  {
    SmallerBounds(Pairs(b), 65536);
  }

  lemma PairParts(b: seq<Byte>, i: int)
    requires 0 <= i < |b|
    ensures Pair(b, i) / 256 == b[i] && Pair(b, i) % 256 == b[Succ(i, |b|)]
    ensures 0 <= Succ(i, |b|) < |b|
  {
  }

  lemma SecondByte(b: seq<Byte>, i: int)
    requires 0 <= i < |b|
    ensures At(b, i, 0) == b[i] && At(b, i, 1) == b[Succ(i, |b|)]
  {
    var n := |b|;
    ModUnique(i, 0, i, n);
    if i + 1 == n { ModUnique(n, 1, 0, n); } else { ModUnique(i + 1, 0, i + 1, n); }
  }

  lemma TwoBytes(b: seq<Byte>, x: int, y: int)
    requires 0 <= x < |b| && 0 <= y < |b|
    ensures Pair(b, x) == Pair(b, y) ==> EqUpTo(b, x, y, 2)
    ensures Pair(b, x) < Pair(b, y) ==> Leq(b, x, y)
  {
    hide At, Leq;
    SecondByte(b, x);
    SecondByte(b, y);
    assert EqUpTo(b, x, y, 1) <==> b[x] == b[y] by { assert EqUpTo(b, x, y, 0); }
    if Pair(b, x) < Pair(b, y) {
      if b[x] == b[y] { ByteDecides(b, x, y, 1); } else { assert EqUpTo(b, x, y, 0); ByteDecides(b, x, y, 0); }
    }
  }

  // ----- Pointers in their buckets -----

  ghost predicate Filed(b: seq<Byte>, s: seq<int>) {
    && IsPermutation(s, |b|)
    && forall k :: 0 <= k < |b| ==> From(b, Pair(b, s[k])) <= k < From(b, Pair(b, s[k]) + 1)
  }

  // A place in the bucket of c holds a rotation that begins with c.
  lemma BucketPair(b: seq<Byte>, s: seq<int>, c: int, k: int)
    requires Filed(b, s) && From(b, c) <= k < From(b, c + 1) && k < |b|
    ensures 0 <= s[k] < |b| && Pair(b, s[k]) == c
  {
    hide From;
    var w := Pair(b, s[k]);
    if w < c { FromMono(b, w + 1, c); }
    if w > c { FromMono(b, c + 1, w); }
  }

  lemma BucketAlike(b: seq<Byte>, s: seq<int>, c: int)
    requires b != [] && Filed(b, s)
    ensures Alike(b, s, From(b, c), From(b, c + 1) - 1, 2)
  {
    hide From, EqUpTo, Pair, Filed;
    FiledDistinct(b, s);
    FromMono(b, c + 1, c + 1);
    FiledLength(b, s);
    forall p, q | From(b, c) <= p <= From(b, c + 1) - 1 && From(b, c) <= q <= From(b, c + 1) - 1
      ensures Agree(b, s[p], s[q], 2)
    {
      BucketPair(b, s, c, p);
      BucketPair(b, s, c, q);
      TwoBytes(b, s[p], s[q]);
    }
  }

  lemma FiledDistinct(b: seq<Byte>, s: seq<int>)
    requires Filed(b, s)
    ensures |s| == |b| && forall p, q :: 0 <= p < q < |s| ==> s[p] != s[q]
  {
    hide From, Pair;
  }

  lemma FiledLength(b: seq<Byte>, s: seq<int>)
    requires Filed(b, s)
    ensures |s| == |b|
  {
  }

  ghost predicate BucketSorted(b: seq<Byte>, s: seq<int>, c: int)
    requires b != []
  {
    InOrder(s, Places(b), From(b, c), From(b, c + 1) - 1)
  }

  // All buckets in order: all rotations in order.
  lemma AllSorted(b: seq<Byte>, s: seq<int>)
    requires b != [] && Filed(b, s) && forall c :: 0 <= c < 65536 ==> BucketSorted(b, s, c)
    ensures SortedRotations(b, s)
  {
    hide Leq, From, Pair, Key, Places;
    forall p, q | 0 <= p < q < |b| ensures Leq(b, s[p], s[q]) {
      var c, e := Pair(b, s[p]), Pair(b, s[q]);
      TwoBytes(b, s[p], s[q]);
      PairRange(b, s[p]);
      if c == e {
        assert BucketSorted(b, s, c);
        KeysOrder(b, s[p], s[q]);
      } else if c > e {
        FromMono(b, e + 1, c);
      }
    }
  }

  lemma PairRange(b: seq<Byte>, i: int)
    requires 0 <= i < |b|
    ensures 0 <= Pair(b, i) < 65536
  {
  }

  lemma KeysOrder(b: seq<Byte>, x: int, y: int)
    requires 0 <= x < |b| && 0 <= y < |b|
    ensures Key(Places(b), 0, x) <= Key(Places(b), 0, y) <==> Leq(b, x, y)
  {
    hide Leq, Place;
    PlaceOrder(b, x, y);
  }

  // Rearranging one bucket keeps everything filed and every other bucket as it was.
  lemma BucketRearranged(b: seq<Byte>, s: seq<int>, t: seq<int>, c: int)
    requires Filed(b, s) && From(b, c) < From(b, c + 1) && PermRange(s, t, From(b, c), From(b, c + 1) - 1)
    ensures Filed(b, t)
  {
    hide From, Pair, PermRange;
    var lo, hi := From(b, c), From(b, c + 1) - 1;
    FromMono(b, c + 1, c + 1);
    SameLength(s, t, lo, hi);
    PermWider(s, t, lo, hi, 0, |b| - 1);
    PermDistinct(s, t, 0, |b| - 1);
    forall k | 0 <= k < |b| ensures 0 <= t[k] < |b| && From(b, Pair(b, t[k])) <= k < From(b, Pair(b, t[k]) + 1) {
      if lo <= k <= hi {
        var q := PermSource(s, t, lo, hi, k);
        BucketPair(b, s, c, q);
      } else {
        Outside(s, t, lo, hi, k);
      }
    }
  }

  lemma Outside(s: seq<int>, t: seq<int>, lo: int, hi: int, k: int)
    requires PermRange(s, t, lo, hi) && 0 <= k < |s| && !(lo <= k <= hi)
    ensures t[k] == s[k]
  {
  }

  lemma OthersSorted(b: seq<Byte>, s: seq<int>, t: seq<int>, c: int, e: int)
    requires b != [] && BucketSorted(b, s, e) && c != e
    requires PermRange(s, t, From(b, c), From(b, c + 1) - 1)
    ensures BucketSorted(b, t, e)
  {
    hide From, Key, Places, PermRange;
    SameLength(s, t, From(b, c), From(b, c + 1) - 1);
    if c < e { FromMono(b, c + 1, e); } else { FromMono(b, e + 1, c); }
    forall k | From(b, e) <= k < From(b, e + 1) ensures t[k] == s[k] {
      Outside(s, t, From(b, c), From(b, c + 1) - 1, k);
    }
  }

  // ----- The radix sort -----

  // The rolling pair: one byte shifted out, the next one in.
  lemma PairRolls(b: seq<Byte>, i: nat, w: nat)
    requires i < |b| && w / 256 == b[Succ(i, |b|)]
    ensures Or(w / 256, b[i] as int * 256) == Pair(b, i) && Pair(b, i) / 256 == b[i]
  {
    OrShifted(w / 256, b[i]);
  }

  lemma CountCut(l: seq<int>, i: nat, c: int)
    requires i < |l|
    ensures Count(l[..i + 1], c) == Count(l[..i], c) + if l[i] == c then 1 else 0
  {
    assert l[..i + 1][..i] == l[..i];
  }

  ghost predicate Counted(l: seq<int>, ft: seq<int>, i: nat) {
    && i <= |l| && |ft| == 65537 && ft[65536] == 0
    && forall c :: 0 <= c < 65536 ==> ft[c] == Count(l, c) - Count(l[..i], c)
  }

  lemma CountedStep(l: seq<int>, ft: seq<int>, i: nat)
    requires Counted(l, ft, i + 1) && i < |l| && 0 <= l[i] < 65536
    ensures |ft| == 65537 && Counted(l, ft[l[i] := ft[l[i]] + 1], i)
  {
    hide Count;
    forall c | 0 <= c < 65536
      ensures ft[l[i] := ft[l[i]] + 1][c] == Count(l, c) - Count(l[..i], c) { CountCut(l, i, c); }
  }

  lemma CountedEnds(l: seq<int>, ft: seq<int>)
    ensures |ft| == 65537 && (forall c :: 0 <= c <= 65536 ==> ft[c] == 0) ==> Counted(l, ft, |l|)
    ensures Counted(l, ft, 0) ==> |ft| == 65537 && ft[65536] == 0 && forall c :: 0 <= c < 65536 ==> ft[c] == Count(l, c)
  {
    assert l[..|l|] == l;
    forall c ensures Count(l[..0], c) == 0 {}
  }

  // Count the pairs from the end of the block, clear the ranks, repeat the first bytes.
  method CountPairs(block: array<Byte>, quadrant: array<int>, ftab: array<int>, nblock: nat)
    requires nblock > OVERSHOOT && block.Length == nblock + OVERSHOOT == quadrant.Length && ftab.Length == 65537
    requires quadrant != ftab
    modifies block, quadrant, ftab
    ensures block[..nblock] == old(block[..nblock]) && Ready(block[..nblock], block[..], quadrant[..])
    ensures ftab[65536] == 0 && forall c :: 0 <= c < 65536 ==> ftab[c] == Count(Pairs(block[..nblock]), c)
  {
    hide Count, Counted, Ready;
    ghost var b := block[..nblock];
    ghost var l := Pairs(b);
    for i := 0 to 65537
      invariant block[..nblock] == b && forall c :: 0 <= c < i ==> ftab[c] == 0
    {
      ftab[i] := 0;
    }
    CountedEnds(l, ftab[..]);
    var j: nat := block[0] as int * 256;
    assert b[0] == block[0];
    var i := nblock;
    while i > 0
      invariant block[..nblock] == b
      invariant 0 <= i <= nblock && Counted(l, ftab[..], i) && j / 256 == b[if i == nblock then 0 else i]
      invariant forall k :: i <= k < nblock ==> quadrant[k] == 0
    {
      i := i - 1;
      quadrant[i] := 0;
      assert block[i] == block[..nblock][i] == b[i];
      PairRolls(b, i, j);
      j := Or(j / 256, block[i] as int * 256);
      CountedStep(l, ftab[..], i);
      ghost var ft := ftab[..];
      ftab[j] := ftab[j] + 1;
      assert ftab[..] == ft[l[i] := ft[l[i]] + 1];
    }
    CountedEnds(l, ftab[..]);
    forall q | 0 <= q < nblock ensures block[q] == b[q] { assert block[q] == block[..nblock][q]; }
    for k := 0 to OVERSHOOT
      invariant ftab[65536] == 0 && forall c :: 0 <= c < 65536 ==> ftab[c] == Count(l, c)
      invariant forall q :: 0 <= q < nblock ==> block[q] == b[q] && quadrant[q] == 0
      invariant forall q :: nblock <= q < nblock + k ==> block[q] == b[q - nblock] && quadrant[q] == 0
    {
      block[nblock + k] := block[k];
      quadrant[nblock + k] := 0;
    }
    assert block[..nblock] == b;
    ReadyFirst(b, block[..], quadrant[..]);
  }

  lemma ReadyFirst(b: seq<Byte>, block: seq<Byte>, quad: seq<int>)
    requires |b| > OVERSHOOT && |block| == |b| + OVERSHOOT == |quad|
    requires forall i :: 0 <= i < |b| ==> block[i] == b[i] && quad[i] == 0
    requires forall i :: |b| <= i < |b| + OVERSHOOT ==> block[i] == b[i - |b|] && quad[i] == 0
    ensures Ready(b, block, quad)
  {
    hide Leq;
  }

  method Cumulate(ftab: array<int>, ghost b: seq<Byte>)
    requires ftab.Length == 65537 && ftab[65536] == 0
    requires forall c :: 0 <= c < 65536 ==> ftab[c] == Count(Pairs(b), c)
    modifies ftab
    ensures forall c :: 0 <= c < 65536 ==> ftab[c] == From(b, c + 1)
    ensures ftab[65536] == |b|
  {
    hide Smaller, Count;
    FromEnds(b);
    SmallerNext(Pairs(b), 0);
    for i := 1 to 65537
      invariant forall c :: 0 <= c < i && c < 65536 ==> ftab[c] == From(b, c + 1)
      invariant i == 65537 ==> ftab[65536] == |b|
      invariant forall c :: i <= c < 65536 ==> ftab[c] == Count(Pairs(b), c)
      invariant i <= 65536 ==> ftab[65536] == 0
    {
      SmallerNext(Pairs(b), i);
      ftab[i] := ftab[i] + ftab[i - 1];
    }
  }

  // The rotations from i on stand at their places.
  ghost predicate PlacedFrom(l: seq<int>, s: seq<int>, ft: seq<int>, i: nat) {
    && i <= |l| == |s| && |ft| == 65537 && ft[65536] == |l|
    && (forall c :: 0 <= c < 65536 ==> ft[c] == Smaller(l, c) + Count(l[..i], c))
    && (forall k :: i <= k < |l| ==> T(l, k) < |l| && s[T(l, k)] == k)
  }

  lemma PlacedStep(l: seq<int>, s: seq<int>, ft: seq<int>, i: nat)
    requires PlacedFrom(l, s, ft, i + 1) && i < |l| && 0 <= l[i] < 65536
    ensures |ft| == 65537 && 0 <= ft[l[i]] - 1 < |s|
    ensures PlacedFrom(l, s[ft[l[i]] - 1 := i], ft[l[i] := ft[l[i]] - 1], i)
  {
    hide Smaller, Count, T;
    CountCut(l, i, l[i]);
    TUnfold(l, i);
    TRange(l, i);
    var ft' := ft[l[i] := ft[l[i]] - 1];
    forall c | 0 <= c < 65536 ensures ft'[c] == Smaller(l, c) + Count(l[..i], c) { CountCut(l, i, c); }
    forall k | i + 1 <= k < |l| ensures T(l, k) != T(l, i) { TInjective(l, k, i); }
  }

  lemma PlacedEnds(b: seq<Byte>, s: seq<int>, ft: seq<int>)
    requires |s| == |b| && |ft| == 65537 && ft[65536] == |b|
    ensures (forall c :: 0 <= c < 65536 ==> ft[c] == From(b, c + 1)) ==> PlacedFrom(Pairs(b), s, ft, |b|)
    ensures PlacedFrom(Pairs(b), s, ft, 0) ==> Filed(b, s) && forall c :: 0 <= c <= 65536 ==> ft[c] == From(b, c)
  {
    hide Smaller, T;
    var l := Pairs(b);
    assert l[..|l|] == l;
    FromEnds(b);
    if forall c :: 0 <= c < 65536 ==> ft[c] == From(b, c + 1) {
      forall c | 0 <= c < 65536 ensures ft[c] == Smaller(l, c) + Count(l[..|b|], c) { SmallerNext(l, c); }
    }
    if PlacedFrom(l, s, ft, 0) {
      InverseFrom(s, l);
      InverseFiled(b, s);
      assert forall c :: Count(l[..0], c) == 0;
    }
  }

  lemma InverseFiled(b: seq<Byte>, s: seq<int>)
    requires Inverts(s, Pairs(b))
    ensures Filed(b, s)
  {
    hide Smaller, T;
    var l := Pairs(b);
    forall k | 0 <= k < |b| ensures From(b, Pair(b, s[k])) <= k < From(b, Pair(b, s[k]) + 1) { TInBucket(l, s[k]); }
  }

  // The pointers go to their small buckets, the last ones first.
  method PlacePairs(block: array<Byte>, ftab: array<int>, ptr: array<int>, nblock: nat, ghost b: seq<Byte>)
    requires ptr != ftab && ftab.Length == 65537 && 1 <= nblock == ptr.Length == |b| <= block.Length
      && block[..nblock] == b
    requires ftab[65536] == |b| && forall c :: 0 <= c < 65536 ==> ftab[c] == From(b, c + 1)
    modifies ptr, ftab
    ensures Filed(b, ptr[..]) && forall c :: 0 <= c <= 65536 ==> ftab[c] == From(b, c)
  {
    hide PlacedFrom, From, Filed;
    ghost var l := Pairs(b);
    PlacedEnds(b, ptr[..], ftab[..]);
    var s: nat := block[0] as int * 256;
    var i := nblock;
    while i > 0
      invariant ftab[65536] == |b|
      invariant 0 <= i <= nblock && PlacedFrom(l, ptr[..], ftab[..], i) && s / 256 == b[if i == nblock then 0 else i]
    {
      i := i - 1;
      assert block[i] == block[..nblock][i] == b[i];
      PairRolls(b, i, s);
      s := Or(s / 256, block[i] as int * 256);
      ghost var p, ft := ptr[..], ftab[..];
      PlacedStep(l, p, ft, i);
      var j := ftab[s] - 1;
      ftab[s] := j;
      ptr[j] := i;
      assert ptr[..] == p[ft[l[i]] - 1 := i] && ftab[..] == ft[l[i] := ft[l[i]] - 1];
    }
    PlacedEnds(b, ptr[..], ftab[..]);
  }
}
