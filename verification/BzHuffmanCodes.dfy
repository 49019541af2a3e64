// Canonical Huffman codes (dep/bzip2/huffman.c): assigning code words from lengths, the
// limit/base/perm tables, and the decode loop of GET_MTF_VAL (dep/bzip2/decompress.c).
module BzHuffmanCodes {
  import opened Bits
  import opened BzKraft
  import opened BzHuffmanLengths
  import opened BzBitStream

  const MAX_CODE_LEN := 23
  const LONGEST := 20

  // ----- Counting lengths -----

  function Equal(lens: seq<int>, n: int): nat {
    if lens == [] then 0 else Equal(lens[..|lens| - 1], n) + if lens[|lens| - 1] == n then 1 else 0
  }

  function Shorter(lens: seq<int>, n: int): nat {
    if lens == [] then 0 else Shorter(lens[..|lens| - 1], n) + if lens[|lens| - 1] < n then 1 else 0
  }

  lemma {:induction false} ShorterNext(lens: seq<int>, n: int)
    ensures Shorter(lens, n + 1) == Shorter(lens, n) + Equal(lens, n)
  {
    if lens != [] { ShorterNext(lens[..|lens| - 1], n); }
  }

  lemma {:induction false} ShorterAll(lens: seq<int>, n: int)
    ensures Shorter(lens, n) + Equal(lens, n) <= |lens|
  {
    if lens != [] { ShorterAll(lens[..|lens| - 1], n); }
  }

  lemma {:induction false} NoneShorter(lens: seq<int>, n: int)
    requires forall i :: 0 <= i < |lens| ==> lens[i] >= n
    ensures Shorter(lens, n) == 0
  {
    if lens != [] { NoneShorter(lens[..|lens| - 1], n); }
  }

  lemma {:induction false} NoneEqual(lens: seq<int>, n: int)
    requires forall i :: 0 <= i < |lens| ==> lens[i] != n
    ensures Equal(lens, n) == 0
  {
    if lens != [] { NoneEqual(lens[..|lens| - 1], n); }
  }

  lemma {:induction false} EqualMono(lens: seq<int>, n: int, i: int, k: int)
    requires 0 <= i <= k <= |lens|
    ensures Equal(lens[..i], n) <= Equal(lens[..k], n)
    ensures i < k && lens[i] == n ==> Equal(lens[..i], n) < Equal(lens[..k], n)
    decreases k - i
  {
    if i < k {
      EqualMono(lens, n, i, k - 1);
      assert lens[..k][..k - 1] == lens[..k - 1];
    }
  }

  // ----- The canonical code -----

  // The first code word of length n: one past the last of length n - 1, doubled.
  function First(lens: seq<int>, n: nat): nat {
    if n == 0 then 0 else 2 * (First(lens, n - 1) + Equal(lens, n - 1))
  }

  function Past(lens: seq<int>, n: nat): nat {
    First(lens, n) + Equal(lens, n)
  }

  function Code(lens: seq<int>, i: int): nat
    requires 0 <= i < |lens| && lens[i] >= 0
  {
    First(lens, lens[i]) + Equal(lens[..i], lens[i])
  }

  lemma {:induction false} FirstZero(lens: seq<int>, n: nat)
    requires forall i :: 0 <= i < |lens| ==> lens[i] >= n
    ensures First(lens, n) == 0
  {
    if n > 0 {
      FirstZero(lens, n - 1);
      NoneEqual(lens, n - 1);
    }
  }

  lemma CodeBelow(lens: seq<int>, i: int)
    requires 0 <= i < |lens| && lens[i] >= 0
    ensures First(lens, lens[i]) <= Code(lens, i) < Past(lens, lens[i])
  {
    hide First;
    EqualMono(lens, lens[i], i, |lens|);
    assert lens[..|lens|] == lens;
  }

  // Codes of one length differ.
  lemma CodesDiffer(lens: seq<int>, i: int, k: int)
    requires 0 <= i < k < |lens| && lens[i] == lens[k] >= 0
    ensures Code(lens, i) < Code(lens, k)
  {
    hide First;
    EqualMono(lens, lens[i], i, k);
  }

  // Cut to n bits, a longer code word lies past all code words of length n.
  lemma {:induction false} FirstPast(lens: seq<int>, n: nat, l: nat)
    requires n < l
    ensures First(lens, l) >= Past(lens, n) * Pow2(l - n)
    decreases l
  {
    if n == l - 1 {
      assert Pow2(1) == 2;
    } else {
      FirstPast(lens, n, l - 1);
      assert Pow2(l - n) == 2 * Pow2(l - 1 - n);
      DoubleProduct(Past(lens, n), Pow2(l - 1 - n), Pow2(l - n));
    }
  }

  lemma DoubleProduct(a: int, b: int, c: int)
    requires c == 2 * b
    ensures a * c == 2 * (a * b)
  {
  }

  lemma CutPast(lens: seq<int>, i: int, n: nat)
    requires 0 <= i < |lens| && n < lens[i]
    ensures Code(lens, i) / Pow2(lens[i] - n) >= Past(lens, n)
  {
    hide *;
    CodeBelow(lens, i);
    FirstPast(lens, n, lens[i]);
    QuotientAtLeast(Code(lens, i), Past(lens, n), Pow2(lens[i] - n));
  }

  lemma QuotientAtLeast(x: int, q: int, m: int)
    requires m > 0 && x >= q * m
    ensures x / m >= q
  {
    var r := x % m;
    assert x == (x / m) * m + r;
    if x / m < q { MulAtLeast(q - x / m, m); }
  }

  // No code word is the beginning of another.
  lemma PrefixFree(lens: seq<int>, i: int, k: int)
    requires 0 <= i < |lens| && 0 <= k < |lens| && i != k && 0 <= lens[i] <= lens[k]
    ensures Code(lens, k) / Pow2(lens[k] - lens[i]) != Code(lens, i)
  {
    hide Code, First, Equal;
    CodeBelow(lens, i);
    if lens[i] == lens[k] {
      if i < k { CodesDiffer(lens, i, k); } else { CodesDiffer(lens, k, i); }
    } else {
      CutPast(lens, k, lens[i]);
    }
  }

  // ----- Kraft: the codes fit their lengths -----

  // The share of the code words of length at most n.
  function KraftTo(lens: seq<int>, l: nat, n: int): nat {
    if lens == [] then 0
    else KraftTo(lens[..|lens| - 1], l, n) + if lens[|lens| - 1] <= n then Share(l, lens[|lens| - 1]) else 0
  }

  lemma {:induction false} KraftToNext(lens: seq<int>, l: nat, n: int)
    ensures KraftTo(lens, l, n + 1) == KraftTo(lens, l, n) + Equal(lens, n + 1) * Share(l, n + 1)
  {
    hide Share;
    if lens != [] {
      KraftToNext(lens[..|lens| - 1], l, n);
      Distribute(Equal(lens[..|lens| - 1], n + 1), if lens[|lens| - 1] == n + 1 then 1 else 0, Share(l, n + 1));
    }
  }

  lemma {:induction false} KraftToBelow(lens: seq<int>, l: nat, n: int)
    ensures KraftTo(lens, l, n) <= Kraft(lens, l)
  {
    if lens != [] { KraftToBelow(lens[..|lens| - 1], l, n); }
  }

  lemma {:induction false} KraftToNone(lens: seq<int>, l: nat, n: int)
    requires forall i :: 0 <= i < |lens| ==> lens[i] > n
    ensures KraftTo(lens, l, n) == 0
  {
    if lens != [] { KraftToNone(lens[..|lens| - 1], l, n); }
  }

  lemma {:induction false} PastIsKraft(lens: seq<int>, l: nat, n: nat)
    requires n <= l && forall i :: 0 <= i < |lens| ==> lens[i] >= 1
    ensures Past(lens, n) * Pow2(l - n) == KraftTo(lens, l, n)
  {
    hide Equal, Kraft, KraftTo;
    KraftToNext(lens, l, n - 1);
    if n == 0 {
      KraftToNone(lens, l, -1);
      NoneEqual(lens, 0);
      assert First(lens, 0) == 0;
    } else {
      PastIsKraft(lens, l, n - 1);
      assert Pow2(l - (n - 1)) == 2 * Pow2(l - n);
      PastStep(First(lens, n), Past(lens, n - 1), Equal(lens, n), Pow2(l - n));
    }
  }

  lemma PastStep(f: int, p: int, e: int, q: int)
    requires f == 2 * p
    ensures (f + e) * q == p * (2 * q) + e * q
  {
  }

  lemma PastFits(lens: seq<int>, l: nat, n: nat)
    requires n <= l && (forall i :: 0 <= i < |lens| ==> lens[i] >= 1) && Kraft(lens, l) <= Pow2(l)
    ensures Past(lens, n) <= Pow2(n)
  {
    hide *;
    PastIsKraft(lens, l, n);
    KraftToBelow(lens, l, n);
    Pow2Add(n, l - n);
    if Past(lens, n) > Pow2(n) {
      MulAtLeast(Past(lens, n) - Pow2(n), Pow2(l - n));
      Distribute(Past(lens, n) - Pow2(n), Pow2(n), Pow2(l - n));
    }
  }

  // BZ2_hbAssignCodes.
  method AssignCodes(code: array<int>, length: array<int>, minLen: int, maxLen: int, alphaSize: int)
    requires code != length && 0 <= alphaSize <= code.Length && alphaSize <= length.Length && minLen >= 0
    requires forall i :: 0 <= i < alphaSize ==> minLen <= length[i] <= maxLen
    modifies code
    ensures forall i :: 0 <= i < alphaSize ==> length[i] >= 0 && code[i] == Code(length[..alphaSize], i)
  {
    hide *;
    ghost var lens := length[..alphaSize];
    var vec := 0;
    FirstZero(lens, minLen);
    var n := minLen;
    while n <= maxLen
      invariant minLen <= n && (n <= maxLen + 1 || n == minLen) && vec == First(lens, n) && length[..alphaSize] == lens
      invariant forall k :: 0 <= k < alphaSize && lens[k] < n ==> code[k] == Code(lens, k)
    {
      var i := 0;
      EmptyCount(lens, n);
      while i < alphaSize
        invariant 0 <= i <= alphaSize && vec == First(lens, n) + Equal(lens[..i], n) && length[..alphaSize] == lens
        invariant forall k :: 0 <= k < alphaSize && (lens[k] < n || (lens[k] == n && k < i)) ==>
          code[k] == Code(lens, k)
      {
        CountStep(lens, n, i);
        if length[i] == n {
          code[i] := vec;
          vec := vec + 1;
        }
        i := i + 1;
      }
      CountEnd(lens, n);
      vec := vec * 2;
      n := n + 1;
    }
  }

  lemma EmptyCount(lens: seq<int>, n: int)
    ensures Equal(lens[..0], n) == 0
  {
  }

  lemma CountStep(lens: seq<int>, n: nat, i: int)
    requires 0 <= i < |lens|
    ensures Equal(lens[..i + 1], n) == Equal(lens[..i], n) + if lens[i] == n then 1 else 0
    ensures lens[i] == n ==> Code(lens, i) == First(lens, n) + Equal(lens[..i], n)
  {
    hide First;
    assert lens[..i + 1][..i] == lens[..i];
  }

  lemma CountEnd(lens: seq<int>, n: nat)
    ensures lens[..|lens|] == lens && First(lens, n + 1) == 2 * (First(lens, n) + Equal(lens, n))
  {
  }

  // ----- The decoding tables -----

  // Where symbol i stands when symbols are ordered by length, then by number.
  function Place(lens: seq<int>, i: int): nat
    requires 0 <= i < |lens|
  {
    Shorter(lens, lens[i]) + Equal(lens[..i], lens[i])
  }

  ghost predicate LimitOk(limit: seq<int>, lens: seq<int>, minLen: nat, maxLen: nat) {
    && |limit| >= MAX_CODE_LEN
    && (forall n :: minLen <= n <= maxLen && n < |limit| ==> limit[n] == Past(lens, n) - 1)
    && (forall n :: maxLen < n < MAX_CODE_LEN ==> limit[n] == 0)
  }

  ghost predicate BaseOk(base: seq<int>, lens: seq<int>, minLen: nat, maxLen: nat) {
    && |base| >= MAX_CODE_LEN
    && (forall n :: minLen <= n <= maxLen && n < |base| ==> base[n] == First(lens, n) - Shorter(lens, n))
  }

  ghost predicate PermOk(perm: seq<int>, lens: seq<int>) {
    |perm| >= |lens| && forall i :: 0 <= i < |lens| ==> Place(lens, i) < |lens| && perm[Place(lens, i)] == i
  }

  lemma PlaceInRange(lens: seq<int>, i: int)
    requires 0 <= i < |lens|
    ensures Place(lens, i) < |lens|
  {
    EqualMono(lens, lens[i], i, |lens|);
    assert lens[..|lens|] == lens;
    ShorterAll(lens, lens[i]);
  }

  lemma PlaceRange(lens: seq<int>, i: int)
    requires 0 <= i < |lens|
    ensures Shorter(lens, lens[i]) <= Place(lens, i) < Shorter(lens, lens[i] + 1)
  {
    EqualMono(lens, lens[i], i, |lens|);
    assert lens[..|lens|] == lens;
    ShorterNext(lens, lens[i]);
  }

  lemma {:induction false} ShorterMono(lens: seq<int>, m: int, n: int)
    requires m <= n
    ensures Shorter(lens, m) <= Shorter(lens, n)
  {
    if lens != [] { ShorterMono(lens[..|lens| - 1], m, n); }
  }

  lemma PlacesDiffer(lens: seq<int>, i: int, k: int)
    requires 0 <= i < |lens| && 0 <= k < |lens| && (lens[i] < lens[k] || (lens[i] == lens[k] && i < k))
    ensures Place(lens, i) < Place(lens, k)
  {
    if lens[i] == lens[k] { EqualMono(lens, lens[i], i, k); }
    else {
      PlaceRange(lens, i);
      ShorterMono(lens, lens[i] + 1, lens[k]);
    }
  }

  // The part of perm filled when length n has been scanned up to symbol i.
  ghost predicate PermTo(perm: seq<int>, lens: seq<int>, n: int, i: int) {
    |perm| >= |lens| && forall k :: 0 <= k < |lens| && (lens[k] < n || (lens[k] == n && k < i)) ==>
      Place(lens, k) < |lens| && perm[Place(lens, k)] == k
  }

  lemma PermStep(perm: seq<int>, lens: seq<int>, n: int, i: int)
    requires PermTo(perm, lens, n, i) && 0 <= i < |lens|
    ensures lens[i] == n ==> Place(lens, i) < |lens| && PermTo(perm[Place(lens, i) := i], lens, n, i + 1)
    ensures lens[i] != n ==> PermTo(perm, lens, n, i + 1)
  {
    hide Place;
    PlaceInRange(lens, i);
    if lens[i] == n {
      forall k | 0 <= k < |lens| && (lens[k] < n || (lens[k] == n && k < i)) ensures Place(lens, k) != Place(lens, i) {
        PlacesDiffer(lens, k, i);
      }
    }
  }

  lemma PermNext(perm: seq<int>, lens: seq<int>, n: int)
    requires PermTo(perm, lens, n, |lens|)
    ensures PermTo(perm, lens, n + 1, 0)
  {
    hide Place;
  }

  lemma PermEnd(perm: seq<int>, lens: seq<int>, n: int)
    requires PermTo(perm, lens, n, 0) && forall i :: 0 <= i < |lens| ==> lens[i] < n
    ensures PermOk(perm, lens)
  {
    hide Place;
  }

  lemma PermStart(perm: seq<int>, lens: seq<int>, n: int)
    requires |perm| >= |lens| && forall i :: 0 <= i < |lens| ==> lens[i] >= n
    ensures PermTo(perm, lens, n, 0) && Shorter(lens, n) == 0
  {
    hide Place;
    NoneShorter(lens, n);
  }

  lemma PlaceIs(lens: seq<int>, n: int, i: int)
    requires 0 <= i < |lens|
    ensures Equal(lens[..i + 1], n) == Equal(lens[..i], n) + if lens[i] == n then 1 else 0
    ensures lens[i] == n ==> Place(lens, i) == Shorter(lens, n) + Equal(lens[..i], n)
  {
    assert lens[..i + 1][..i] == lens[..i];
  }

  lemma PlacesEnd(lens: seq<int>, n: int)
    ensures Shorter(lens, n) + Equal(lens[..|lens|], n) == Shorter(lens, n + 1)
    ensures Shorter(lens, n) + Equal(lens[..0], n) == Shorter(lens, n)
  {
    assert lens[..|lens|] == lens;
    ShorterNext(lens, n);
  }

  method FillPerm(perm: array<int>, length: array<int>, minLen: int, maxLen: int, alphaSize: int)
    requires perm != length && 0 <= alphaSize <= perm.Length && alphaSize <= length.Length && minLen <= maxLen
    requires forall i :: 0 <= i < alphaSize ==> minLen <= length[i] <= maxLen
    modifies perm
    ensures PermOk(perm[..], length[..alphaSize])
  {
    hide *;
    ghost var lens := length[..alphaSize];
    var pp := 0;
    PermStart(perm[..], lens, minLen);
    var i := minLen;
    while i <= maxLen
      invariant minLen <= i <= maxLen + 1 && pp == Shorter(lens, i) && PermTo(perm[..], lens, i, 0)
      invariant length[..alphaSize] == lens
    {
      var j := 0;
      PlacesEnd(lens, i);
      while j < alphaSize
        invariant 0 <= j <= alphaSize && pp == Shorter(lens, i) + Equal(lens[..j], i) && PermTo(perm[..], lens, i, j)
        invariant length[..alphaSize] == lens
      {
        PermStep(perm[..], lens, i, j);
        PlaceIs(lens, i, j);
        if length[j] == i {
          perm[pp] := j;
          pp := pp + 1;
        }
        j := j + 1;
      }
      PermNext(perm[..], lens, i);
      i := i + 1;
    }
    PermEnd(perm[..], lens, i);
  }

  // Lengths just below n.
  function Under(lens: seq<int>, n: int): nat {
    Equal(lens, n - 1)
  }

  lemma UnderStep(lens: seq<int>, i: int, n: int)
    requires 0 <= i < |lens|
    ensures Under(lens[..i + 1], n) == Under(lens[..i], n) + if lens[i] + 1 == n then 1 else 0
  {
    PlaceIs(lens, n - 1, i);
  }

  lemma UnderEnds(lens: seq<int>, n: int)
    ensures Under(lens[..0], n) == 0 && Under(lens[..|lens|], n) == Under(lens, n)
    ensures Shorter(lens, n) == Shorter(lens, n - 1) + Under(lens, n)
  {
    assert lens[..|lens|] == lens;
    ShorterNext(lens, n - 1);
  }

  // base[i]: how many lengths are smaller than i.
  method CountShorter(base: array<int>, length: array<int>, alphaSize: int)
    requires base != length && base.Length >= MAX_CODE_LEN && 0 <= alphaSize <= length.Length
    requires forall i :: 0 <= i < alphaSize ==> 0 <= length[i] <= LONGEST
    modifies base
    ensures forall n :: 0 <= n < MAX_CODE_LEN ==> base[n] == Shorter(length[..alphaSize], n)
  {
    hide Under, Shorter, Equal;
    ghost var lens := length[..alphaSize];
    for i := 0 to MAX_CODE_LEN
      invariant forall n :: 0 <= n < i ==> base[n] == 0
    {
      base[i] := 0;
    }
    forall n | 0 <= n < MAX_CODE_LEN ensures Under(lens[..0], n) == 0 { UnderEnds(lens, n); }
    for i := 0 to alphaSize
      invariant length[..alphaSize] == lens
      invariant forall n :: 0 <= n < MAX_CODE_LEN ==> base[n] == Under(lens[..i], n)
    {
      forall n | 0 <= n < MAX_CODE_LEN
        ensures Under(lens[..i + 1], n) == Under(lens[..i], n) + if lens[i] + 1 == n then 1 else 0
      {
        UnderStep(lens, i, n);
      }
      base[length[i] + 1] := base[length[i] + 1] + 1;
    }
    forall n | 0 <= n < MAX_CODE_LEN ensures base[n] == Under(lens, n) { UnderEnds(lens, n); }
    NoneShorter(lens, -1);
    UnderEnds(lens, 0);
    for i := 1 to MAX_CODE_LEN
      invariant forall n :: 0 <= n < i ==> base[n] == Shorter(lens, n)
      invariant forall n :: i <= n < MAX_CODE_LEN ==> base[n] == Under(lens, n)
      invariant length[..alphaSize] == lens
    {
      UnderEnds(lens, i);
      base[i] := base[i] + base[i - 1];
    }
  }

  method FillLimit(limit: array<int>, base: array<int>, minLen: int, maxLen: int, ghost lens: seq<int>)
    requires limit != base && limit.Length >= MAX_CODE_LEN && base.Length >= MAX_CODE_LEN
    requires 0 <= minLen <= maxLen <= LONGEST && forall i :: 0 <= i < |lens| ==> lens[i] >= minLen
    requires forall n :: 0 <= n < MAX_CODE_LEN ==> base[n] == Shorter(lens, n)
    modifies limit
    ensures LimitOk(limit[..], lens, minLen, maxLen)
  {
    hide Past, First, Shorter, Equal;
    for i := 0 to MAX_CODE_LEN
      invariant forall n :: 0 <= n < i ==> limit[n] == 0
    {
      limit[i] := 0;
    }
    var vec := 0;
    FirstZero(lens, minLen);
    var i := minLen;
    while i <= maxLen
      invariant minLen <= i <= maxLen + 1 && vec == First(lens, i)
      invariant forall n :: minLen <= n < i ==> limit[n] == Past(lens, n) - 1
      invariant forall n :: maxLen < n < MAX_CODE_LEN ==> limit[n] == 0
    {
      ShorterNext(lens, i);
      PastIs(lens, i);
      vec := vec + (base[i + 1] - base[i]);
      limit[i] := vec - 1;
      vec := vec * 2;
      i := i + 1;
    }
  }

  lemma PastIs(lens: seq<int>, n: nat)
    ensures Past(lens, n) == First(lens, n) + Equal(lens, n) && First(lens, n + 1) == 2 * Past(lens, n)
  {
  }

  // BZ2_hbCreateDecodeTables.
  method CreateDecodeTables(limit: array<int>, base: array<int>, perm: array<int>, length: array<int>,
                            minLen: int, maxLen: int, alphaSize: int)
    requires limit != base && limit != perm && base != perm && limit != length && base != length && perm != length
    requires limit.Length >= MAX_CODE_LEN && base.Length >= MAX_CODE_LEN
    requires 0 <= alphaSize <= perm.Length && alphaSize <= length.Length && 0 <= minLen <= maxLen <= LONGEST
    requires forall i :: 0 <= i < alphaSize ==> minLen <= length[i] <= maxLen
    modifies limit, base, perm
    ensures PermOk(perm[..], length[..alphaSize])
    ensures LimitOk(limit[..], length[..alphaSize], minLen, maxLen)
    ensures BaseOk(base[..], length[..alphaSize], minLen, maxLen)
  {
    hide Past, First, Shorter, Equal, PermOk, Place;
    ghost var lens := length[..alphaSize];
    FillPerm(perm, length, minLen, maxLen, alphaSize);
    ghost var pm := perm[..];
    CountShorter(base, length, alphaSize);
    FillLimit(limit, base, minLen, maxLen, lens);
    ghost var lm := limit[..];
    FirstZero(lens, minLen);
    NoneShorter(lens, minLen);
    var i := minLen + 1;
    while i <= maxLen
      invariant minLen + 1 <= i <= maxLen + 1 && limit[..] == lm && perm[..] == pm && length[..alphaSize] == lens
      invariant forall n :: minLen <= n < i ==> base[n] == First(lens, n) - Shorter(lens, n)
      invariant forall n :: i <= n < MAX_CODE_LEN ==> base[n] == Shorter(lens, n)
    {
      PastIs(lens, i - 1);
      assert limit[i - 1] == lm[i - 1] == Past(lens, i - 1) - 1;
      base[i] := (limit[i - 1] + 1) * 2 - base[i];
      i := i + 1;
    }
    assert limit[..] == lm && perm[..] == pm;
  }

  // ----- Beginnings of code words -----

  lemma {:induction false} ValueCut(bits: seq<BitValue>, n: nat)
    requires n <= |bits|
    ensures Value(bits[..n]) == Value(bits) / Pow2(|bits| - n)
  {
    var l := |bits|;
    if n == l { assert bits[..n] == bits; }
    else {
      ValueCut(bits[..l - 1], n);
      assert bits[..l - 1][..n] == bits[..n];
      HalfQuotient(Value(bits[..l - 1]), bits[l - 1], Pow2(l - 1 - n));
    }
  }

  lemma HalfQuotient(v: nat, b: nat, p: nat)
    requires p > 0 && b < 2
    ensures (2 * v + b) / (2 * p) == v / p
  {
    var q, r := v / p, v % p;
    assert v == q * p + r;
    Regroup(v, b, q, p, r);
    ModUnique(2 * v + b, q, 2 * r + b, 2 * p);
    QuotientIs(2 * v + b, q, 2 * r + b, 2 * p);
  }

  lemma Regroup(v: int, b: int, q: int, p: int, r: int)
    requires v == q * p + r
    ensures 2 * v + b == q * (2 * p) + (2 * r + b)
  {
  }

  lemma QuotientIs(x: int, q: int, r: int, m: int)
    requires m > 0 && x == q * m + r && 0 <= r < m
    ensures x / m == q
  {
    var d := x / m - q;
    assert x == (x / m) * m + x % m;
    Distribute(x / m, -q, m);
    if d >= 1 { MulAtLeast(d, m); }
    if d <= -1 { MulAtLeast(-d, m); }
  }

  // ----- Decoding one symbol -----

  datatype Decoded = Symbol(sym: int) | BadCode | OutOfBits

  // The bits from pos on begin with the code word of symbol i.
  predicate Starts(bits: seq<BitValue>, pos: nat, lens: seq<int>, i: int) {
    0 <= i < |lens| && 0 <= lens[i] && pos + lens[i] <= |bits| && Read(bits, pos, lens[i]) == Code(lens, i)
  }

  // Their first n bits lie past all code words of length n.
  predicate Passed(bits: seq<BitValue>, pos: nat, lens: seq<int>, n: nat) {
    pos + n <= |bits| && Read(bits, pos, n) >= Past(lens, n)
  }

  lemma ReadNext(bits: seq<BitValue>, pos: nat, n: nat)
    requires pos + n < |bits|
    ensures Read(bits, pos, n + 1) == 2 * Read(bits, pos, n) + bits[pos + n]
  {
    assert bits[pos..pos + n + 1][..n] == bits[pos..pos + n];
  }

  lemma ReadCut(bits: seq<BitValue>, pos: nat, n: nat, l: nat)
    requires n <= l && pos + l <= |bits|
    ensures Read(bits, pos, n) == Read(bits, pos, l) / Pow2(l - n)
  {
    ValueCut(bits[pos..pos + l], n);
    assert bits[pos..pos + l][..n] == bits[pos..pos + n];
  }

  // Before its full length a code word is past, at its full length it is not.
  lemma StartsPast(bits: seq<BitValue>, pos: nat, lens: seq<int>, i: int, n: nat)
    requires Starts(bits, pos, lens, i) && n <= lens[i]
    ensures n < lens[i] ==> Read(bits, pos, n) >= Past(lens, n)
    ensures n == lens[i] ==> First(lens, n) <= Read(bits, pos, n) < Past(lens, n)
  {
    hide Read, Code, Past, First, Pow2;
    if n < lens[i] {
      ReadCut(bits, pos, n, lens[i]);
      CutPast(lens, i, n);
    } else {
      CodeBelow(lens, i);
    }
  }

  // Every rank below the count belongs to a symbol.
  lemma {:induction false} FindRank(lens: seq<int>, n: int, r: nat) returns (i: int)
    requires r < Equal(lens, n)
    ensures 0 <= i < |lens| && lens[i] == n && Equal(lens[..i], n) == r
  {
    var m := |lens| - 1;
    if r < Equal(lens[..m], n) {
      i := FindRank(lens[..m], n, r);
      assert lens[..m][..i] == lens[..i];
    } else {
      i := m;
    }
  }

  // State of the loop with zn bits read.
  ghost predicate Reading(bits: seq<BitValue>, pos: nat, lens: seq<int>, minLen: nat, maxLen: nat, zn: nat, zvec: nat) {
    && minLen <= zn <= LONGEST + 1 && pos + zn <= |bits| && zvec == Read(bits, pos, zn)
    && (zn <= maxLen ==> zvec >= First(lens, zn))
    && (zn > maxLen ==> zvec >= 1)
    && (forall n :: minLen <= n < zn && n <= maxLen ==> Passed(bits, pos, lens, n))
  }

  ghost predicate Lengths(lens: seq<int>, minLen: nat, maxLen: nat) {
    && |lens| > 0 && minLen <= maxLen <= LONGEST
    && (forall i :: 0 <= i < |lens| ==> minLen <= lens[i] <= maxLen)
  }

  lemma ReadingStart(bits: seq<BitValue>, pos: nat, lens: seq<int>, minLen: nat, maxLen: nat)
    requires Lengths(lens, minLen, maxLen) && pos + minLen <= |bits|
    ensures Reading(bits, pos, lens, minLen, maxLen, minLen, Read(bits, pos, minLen))
  {
    hide Read, Passed;
    FirstZero(lens, minLen);
  }

  lemma {:induction false} PastPositive(lens: seq<int>, minLen: nat, maxLen: nat)
    requires Lengths(lens, minLen, maxLen)
    ensures Past(lens, maxLen) >= 1
  {
    hide Equal, First;
    CodeBelow(lens, 0);
    if lens[0] < maxLen {
      FirstPast(lens, lens[0], maxLen);
      MulAtLeast(Past(lens, lens[0]), Pow2(maxLen - lens[0]));
    }
  }

  lemma ReadingStep(bits: seq<BitValue>, pos: nat, lens: seq<int>, minLen: nat, maxLen: nat, zn: nat, zvec: nat)
    requires Lengths(lens, minLen, maxLen) && Reading(bits, pos, lens, minLen, maxLen, zn, zvec)
    requires zn <= LONGEST && pos + zn < |bits|
    requires zn <= maxLen ==> zvec >= Past(lens, zn)
    ensures Reading(bits, pos, lens, minLen, maxLen, zn + 1, zvec * 2 + bits[pos + zn])
  {
    hide Read, Past, First;
    ReadNext(bits, pos, zn);
    PastIs(lens, zn);
    PastPositive(lens, minLen, maxLen);
  }

  // Stopped at zn: the tables name the one symbol whose code word was read.
  lemma Stopped(bits: seq<BitValue>, pos: nat, lens: seq<int>, minLen: nat, maxLen: nat, zn: nat, zvec: nat,
                perm: seq<int>) returns (i: int)
    requires Lengths(lens, minLen, maxLen) && Reading(bits, pos, lens, minLen, maxLen, zn, zvec) && PermOk(perm, lens)
    requires zn <= maxLen && zvec < Past(lens, zn)
    ensures 0 <= i < |lens| && lens[i] == zn && Starts(bits, pos, lens, i)
    ensures var k := zvec - (First(lens, zn) - Shorter(lens, zn)); 0 <= k < |lens| && k < |perm| && perm[k] == i
  {
    hide Read, First, Equal, Passed, Shorter;
    i := FindRank(lens, zn, zvec - First(lens, zn));
    assert Place(lens, i) < |lens|;
  }

  // A code word at pos cannot be missed.
  lemma NotMissed(bits: seq<BitValue>, pos: nat, lens: seq<int>, minLen: nat, maxLen: nat, zn: nat, zvec: nat, i: int)
    requires Lengths(lens, minLen, maxLen) && Reading(bits, pos, lens, minLen, maxLen, zn, zvec)
    requires Starts(bits, pos, lens, i)
    ensures zn <= lens[i]
    ensures zn == lens[i] ==> zvec < Past(lens, zn)
    ensures zn < lens[i] ==> zvec >= Past(lens, zn)
  {
    hide Read, First, Past, Equal, Code;
    if zn > lens[i] { assert Passed(bits, pos, lens, lens[i]); }
    StartsPast(bits, pos, lens, i, if zn <= lens[i] then zn else lens[i]);
  }

  lemma OneStart(bits: seq<BitValue>, pos: nat, lens: seq<int>, i: int, k: int)
    requires Starts(bits, pos, lens, i) && Starts(bits, pos, lens, k)
    ensures i == k
  {
    hide Read, Code;
    if i != k {
      var a, b := if lens[i] <= lens[k] then i else k, if lens[i] <= lens[k] then k else i;
      PrefixFree(lens, a, b);
      ReadCut(bits, pos, lens[a], lens[b]);
    }
  }

  // What decoding at pos must give.
  ghost predicate Correct(bits: seq<BitValue>, pos: nat, lens: seq<int>, r: Decoded, next: nat) {
    && (r.Symbol? ==> Starts(bits, pos, lens, r.sym) && next == pos + lens[r.sym])
    && (forall i :: Starts(bits, pos, lens, i) ==> r == Symbol(i))
  }

  lemma CorrectHit(bits: seq<BitValue>, pos: nat, lens: seq<int>, i: int)
    requires Starts(bits, pos, lens, i)
    ensures Correct(bits, pos, lens, Symbol(i), pos + lens[i])
  {
    hide Starts;
    forall k | Starts(bits, pos, lens, k) ensures k == i { OneStart(bits, pos, lens, i, k); }
  }

  // Out of bits or out of lengths: no code word starts here.
  lemma CorrectMiss(bits: seq<BitValue>, pos: nat, lens: seq<int>, minLen: nat, maxLen: nat, zn: nat, zvec: nat,
                    r: Decoded, next: nat)
    requires Lengths(lens, minLen, maxLen) && Reading(bits, pos, lens, minLen, maxLen, zn, zvec) && !r.Symbol?
    requires zn > LONGEST || (pos + zn >= |bits| && (zn <= maxLen ==> zvec >= Past(lens, zn)))
    ensures Correct(bits, pos, lens, r, next)
  {
    hide Reading, Past;
    forall i | Starts(bits, pos, lens, i) ensures false {
      NotMissed(bits, pos, lens, minLen, maxLen, zn, zvec, i);
    }
  }

  lemma TooShort(bits: seq<BitValue>, pos: nat, lens: seq<int>, minLen: nat, maxLen: nat)
    requires Lengths(lens, minLen, maxLen) && pos + minLen > |bits|
    ensures Correct(bits, pos, lens, OutOfBits, pos)
  {
  }

  lemma ReadingParts(bits: seq<BitValue>, pos: nat, lens: seq<int>, minLen: nat, maxLen: nat, zn: nat, zvec: nat)
    requires Reading(bits, pos, lens, minLen, maxLen, zn, zvec)
    ensures minLen <= zn <= LONGEST + 1 && pos + zn <= |bits| && (zn > maxLen ==> zvec >= 1)
  {
  }

  lemma LimitAt(limit: seq<int>, lens: seq<int>, minLen: nat, maxLen: nat, n: nat)
    requires LimitOk(limit, lens, minLen, maxLen) && minLen <= n < MAX_CODE_LEN
    ensures n < |limit| && limit[n] == if n <= maxLen then Past(lens, n) - 1 else 0
  {
  }

  lemma BaseAt(base: seq<int>, lens: seq<int>, minLen: nat, maxLen: nat, n: nat)
    requires BaseOk(base, lens, minLen, maxLen) && minLen <= n <= maxLen && n < MAX_CODE_LEN
    ensures n < |base| && base[n] == First(lens, n) - Shorter(lens, n)
  {
  }

  // GET_MTF_VAL within one group: reads exactly the code word that comes next, if any does.
  method DecodeSymbol(r: Reader, limit: array<int>, base: array<int>, perm: array<int>, minLen: nat,
                      ghost lens: seq<int>, ghost maxLen: nat)
    returns (d: Decoded)
    requires r.Valid() && |lens| <= MAX_ALPHA_SIZE && Lengths(lens, minLen, maxLen) && PermOk(perm[..], lens)
    requires LimitOk(limit[..], lens, minLen, maxLen) && BaseOk(base[..], lens, minLen, maxLen)
    modifies r`avail, r`later, r`next, r`bsBuff, r`bsLive, r`pos
    ensures r.Valid() && Correct(r.Bits(), old(r.pos), lens, d, r.pos)
  {
    hide Lengths, PermOk, LimitOk, BaseOk, Reading, Correct, Past, First, Shorter, Starts, Read, Value, Comes, BitsOf;
    ghost var bits, start := r.Bits(), r.pos;
    LengthsBound(lens, minLen, maxLen);
    var zn := minLen;
    var ok, zvec := r.GetBits(zn);
    if !ok {
      TooShort(bits, start, lens, minLen, maxLen);
      return OutOfBits;
    }
    ReadingStart(bits, start, lens, minLen, maxLen);
    while true
      invariant r.Valid() && minLen <= zn <= LONGEST + 1 && r.pos == start + zn && zvec >= 0
      invariant Reading(bits, start, lens, minLen, maxLen, zn, zvec)
      decreases LONGEST + 1 - zn
    {
      if zn > LONGEST {
        CorrectMiss(bits, start, lens, minLen, maxLen, zn, zvec, BadCode, r.pos);
        return BadCode;
      }
      LimitAt(limit[..], lens, minLen, maxLen, zn);
      if zvec <= limit[zn] { break; }
      var more, zj := r.GetBits(1);
      if !more {
        CorrectMiss(bits, start, lens, minLen, maxLen, zn, zvec, OutOfBits, r.pos);
        return OutOfBits;
      }
      OneBit(bits, start + zn);
      ReadingStep(bits, start, lens, minLen, maxLen, zn, zvec);
      zvec := zvec * 2 + zj;
      zn := zn + 1;
    }
    ReadingParts(bits, start, lens, minLen, maxLen, zn, zvec);
    LimitAt(limit[..], lens, minLen, maxLen, zn);
    BaseAt(base[..], lens, minLen, maxLen, zn);
    ghost var i := Stopped(bits, start, lens, minLen, maxLen, zn, zvec, perm[..]);
    CorrectHit(bits, start, lens, i);
    if zvec - base[zn] < 0 || zvec - base[zn] >= MAX_ALPHA_SIZE { return BadCode; }
    d := Symbol(perm[zvec - base[zn]]);
  }

  lemma OneBit(bits: seq<BitValue>, pos: nat)
    requires pos < |bits|
    ensures Read(bits, pos, 1) == bits[pos]
  {
    var w := bits[pos..pos + 1];
    assert |w| == 1 && w[..|w| - 1] == [];
    assert Value(w) == 2 * Value(w[..|w| - 1]) + w[0];
  }

  lemma LengthsBound(lens: seq<int>, minLen: nat, maxLen: nat)
    requires Lengths(lens, minLen, maxLen)
    ensures minLen <= maxLen <= LONGEST
  {
  }

  // Writing a code word anywhere makes it start there.
  lemma WordStarts(before: seq<BitValue>, after: seq<BitValue>, lens: seq<int>, l: nat, i: int)
    requires 0 <= i < |lens| && (forall k :: 0 <= k < |lens| ==> 1 <= lens[k] <= l) && Kraft(lens, l) <= Pow2(l)
    ensures Code(lens, i) < Pow2(lens[i])
    ensures Starts(before + Word(Code(lens, i), lens[i]) + after, |before|, lens, i)
  {
    hide Kraft, Code, Past;
    CodeBelow(lens, i);
    PastFits(lens, l, lens[i]);
    var w := Word(Code(lens, i), lens[i]);
    WordValue(Code(lens, i), lens[i]);
    assert (before + w + after)[|before|..|before| + lens[i]] == w;
  }
}
