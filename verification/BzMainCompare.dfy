// Comparing two rotations in the main sort (dep/bzip2/blocksort.c, mainGtU): twelve bytes, then
// bytes together with the cached ranks, for at least one whole turn.
module BzMainCompare {
  import opened ByteType
  import opened Bits
  import opened BzRotation

  // The bytes and ranks repeated after the end of the block.
  const OVERSHOOT := 34

  // ----- The order as a number -----

  // How many of the rotations below m come before rotation i.
  ghost function Before(b: seq<Byte>, i: int, m: nat): nat
    requires b != []
  {
    if m == 0 then 0 else Before(b, i, m - 1) + if LessUpTo(b, m - 1, i, |b|) then 1 else 0
  }

  ghost function Place(b: seq<Byte>, i: int): nat
    requires b != []
  {
    Before(b, i, |b|)
  }

  ghost function Places(b: seq<Byte>): (s: seq<int>)
    requires b != []
    ensures |s| == |b|
  {
    seq(|b|, i => Place(b, i))
  }

  lemma {:induction false} BeforeMono(b: seq<Byte>, i: int, j: int, m: nat)
    requires b != [] && Leq(b, i, j)
    ensures Before(b, i, m) <= Before(b, j, m)
    ensures 0 <= i < m && LessUpTo(b, i, j, |b|) ==> Before(b, i, m) < Before(b, j, m)
  {
    hide LessUpTo;
    if m > 0 {
      BeforeMono(b, i, j, m - 1);
      var n := |b|;
      Trichotomy(b, i, j, n);
      Trichotomy(b, i, i, n);
      if LessUpTo(b, m - 1, i, n) {
        if LessUpTo(b, i, j, n) { LessTrans(b, m - 1, i, j, n); } else { LessEqLess(b, m - 1, i, j, n); }
      }
    }
  }

  // The order of rotations is the order of their places.
  lemma PlaceOrder(b: seq<Byte>, i: int, j: int)
    requires b != [] && 0 <= i < |b| && 0 <= j < |b|
    ensures Leq(b, i, j) <==> Place(b, i) <= Place(b, j)
    ensures Places(b)[i] == Place(b, i) && Places(b)[j] == Place(b, j)
  {
    hide LessUpTo, Before;
    Trichotomy(b, i, j, |b|);
    if Leq(b, i, j) { BeforeMono(b, i, j, |b|); } else { BeforeMono(b, j, i, |b|); }
  }

  // ----- Positions modulo the block size -----

  lemma ModNext(x: int, y: int, n: nat)
    requires n > 0 && x % n == y % n
    ensures (x + 1) % n == (y + 1) % n
  {
    var k := x / n - y / n;
    assert x == y + k * n;
    assert x + 1 == (y + 1) + k * n;
    ModShift(y + 1, k, n);
  }

  lemma SameStart(b: seq<Byte>, x: int, y: int, k: nat)
    requires b != [] && x % |b| == y % |b|
    ensures At(b, x, k) == At(b, y, k)
    decreases k
  {
    ModPlus(x, y, k, |b|);
  }

  lemma {:induction false} ModPlus(x: int, y: int, k: nat, n: nat)
    requires n > 0 && x % n == y % n
    ensures (x + k) % n == (y + k) % n
  {
    if k > 0 {
      ModPlus(x, y, k - 1, n);
      ModNext(x + (k - 1), y + (k - 1), n);
      assert x + (k - 1) + 1 == x + k && y + (k - 1) + 1 == y + k;
    }
  }

  lemma {:induction false} StartsCompareSame(b: seq<Byte>, x: int, x': int, y: int, y': int, h: nat)
    requires b != [] && x % |b| == x' % |b| && y % |b| == y' % |b|
    ensures EqUpTo(b, x, y, h) == EqUpTo(b, x', y', h)
    ensures LessUpTo(b, x, y, h) == LessUpTo(b, x', y', h)
  {
    hide At;
    if h > 0 {
      StartsCompareSame(b, x, x', y, y', h - 1);
      SameStart(b, x, x', h - 1);
      SameStart(b, y, y', h - 1);
    }
  }

  // ----- Deciding a comparison after m equal bytes -----

  lemma EqLeq(b: seq<Byte>, x: int, y: int, h: nat)
    requires b != [] && h >= |b| && EqUpTo(b, x, y, h)
    ensures Leq(b, x, y) && Leq(b, y, x)
  {
    EqShorter(b, x, y, |b|, h);
    LeqBoth(b, x, y);
  }

  lemma ByteDecides(b: seq<Byte>, x: int, y: int, m: nat)
    requires b != [] && EqUpTo(b, x, y, m) && At(b, x, m) < At(b, y, m)
    ensures Leq(b, x, y)
  {
    hide EqUpTo, At;
    var n := |b|;
    assert LessUpTo(b, x, y, m + 1);
    var h: nat := if m + 1 > n then m + 1 else n;
    LessLonger(b, x, y, m + 1, h);
    LessForever(b, x, y, h);
    Trichotomy(b, x, y, n);
  }

  // What is known of the rest is known of the whole.
  lemma RestDecides(b: seq<Byte>, x: int, y: int, m: nat)
    requires b != [] && EqUpTo(b, x, y, m) && Leq(b, x + m, y + m)
    ensures Leq(b, x, y)
  {
    var n := |b|;
    LessSplit(b, y, x, m, n);
    LessForever(b, y, x, m + n);
    Trichotomy(b, x, y, m);
  }

  // ----- Cached ranks -----

  // A smaller rank never stands at a later rotation with the same first byte.
  ghost predicate Ranked(b: seq<Byte>, quad: seq<int>) {
    && |b| <= |quad|
    && forall x, y :: 0 <= x < |b| && 0 <= y < |b| && b[x] == b[y] && quad[x] < quad[y] ==> Leq(b, x, y)
  }

  // The two arrays during the sort: the start of the block repeated after its end.
  ghost predicate Ready(b: seq<Byte>, block: seq<Byte>, quad: seq<int>) {
    && |b| > OVERSHOOT && |block| == |b| + OVERSHOOT == |quad|
    && (forall i :: 0 <= i < |b| ==> block[i] == b[i])
    && (forall i :: |b| <= i < |b| + OVERSHOOT ==> block[i] == b[i - |b|] && quad[i] == quad[i - |b|])
    && Ranked(b, quad)
  }

  lemma ReadyLength(b: seq<Byte>, block: seq<Byte>, quad: seq<int>)
    requires Ready(b, block, quad)
    ensures |b| > OVERSHOOT && |block| == |b| + OVERSHOOT == |quad|
  {
  }

  function Wrapped(i: nat, n: nat): nat {
    if i < n then i else i - n
  }

  lemma WrappedMod(i: nat, n: nat)
    requires n > 0 && i < 2 * n
    ensures Wrapped(i, n) == i % n
  {
    if i >= n { ModUnique(i, 1, i - n, n); } else { ModUnique(i, 0, i, n); }
  }

  lemma ReadyAt(b: seq<Byte>, block: seq<Byte>, quad: seq<int>, i: nat)
    requires Ready(b, block, quad) && i < |b| + OVERSHOOT
    ensures block[i] == At(b, i, 0) && quad[i] == quad[Wrapped(i, |b|)]
    ensures Wrapped(i, |b|) < |b| && block[i] == b[Wrapped(i, |b|)]
  {
    WrappedMod(i, |b|);
  }

  // The cached rank m places on from x.
  ghost function RankOf(b: seq<Byte>, quad: seq<int>, x: int, m: int): int
    requires 0 < |b| <= |quad|
  {
    quad[(x + m) % |b|]
  }

  ghost predicate RanksAgree(b: seq<Byte>, quad: seq<int>, x: int, y: int, lo: int, hi: int)
    requires 0 < |b| <= |quad|
  {
    forall m :: lo <= m < hi ==> RankOf(b, quad, x, m) == RankOf(b, quad, y, m)
  }

  lemma RankAt(b: seq<Byte>, block: seq<Byte>, quad: seq<int>, x: int, m: nat, i: nat)
    requires Ready(b, block, quad) && i < |b| + OVERSHOOT && (x + m) % |b| == i % |b|
    ensures i < |quad| && 0 < |b| <= |quad| && RankOf(b, quad, x, m) == quad[i]
  {
    ReadyAt(b, block, quad, i);
    WrappedMod(i, |b|);
  }

  // i1 and i2 are m places on from x and y, and all bytes between agree.
  ghost predicate Along(b: seq<Byte>, x: int, y: int, m: nat, i1: nat, i2: nat)
    requires b != []
  {
    EqUpTo(b, x, y, m) && (x + m) % |b| == i1 % |b| && (y + m) % |b| == i2 % |b|
  }

  lemma AlongMod(b: seq<Byte>, x: int, y: int, m: nat, i1: nat, i2: nat)
    requires b != [] && Along(b, x, y, m, i1, i2)
    ensures (x + m) % |b| == i1 % |b| && (y + m) % |b| == i2 % |b| && EqUpTo(b, x, y, m)
  {
    hide EqUpTo;
  }

  lemma AlongStart(b: seq<Byte>, x: nat, y: nat)
    requires b != []
    ensures Along(b, x, y, 0, x, y)
  {
  }

  // One equal byte.
  lemma AlongNext(b: seq<Byte>, block: seq<Byte>, quad: seq<int>, x: int, y: int, m: nat, i1: nat, i2: nat)
    requires Ready(b, block, quad) && i1 < |b| + OVERSHOOT && i2 < |b| + OVERSHOOT
    requires Along(b, x, y, m, i1, i2) && block[i1] == block[i2]
    ensures Along(b, x, y, m + 1, i1 + 1, i2 + 1)
  {
    ReadyAt(b, block, quad, i1);
    ReadyAt(b, block, quad, i2);
    AtMod(b, x, m, i1);
    AtMod(b, y, m, i2);
    ModNext(x + m, i1, |b|);
    ModNext(y + m, i2, |b|);
    assert x + m + 1 == x + (m + 1) && y + m + 1 == y + (m + 1);
  }

  lemma AtMod(b: seq<Byte>, x: int, m: nat, i: nat)
    requires b != [] && (x + m) % |b| == i % |b|
    ensures At(b, x, m) == At(b, i, 0)
  {
  }

  // Different bytes decide.
  lemma AlongByte(b: seq<Byte>, block: seq<Byte>, quad: seq<int>, x: int, y: int, m: nat, i1: nat, i2: nat)
    requires Ready(b, block, quad) && i1 < |b| + OVERSHOOT && i2 < |b| + OVERSHOOT
    requires Along(b, x, y, m, i1, i2)
    ensures block[i1] < block[i2] ==> Leq(b, x, y)
    ensures block[i1] > block[i2] ==> Leq(b, y, x)
    ensures block[i1] != block[i2] ==> At(b, x, m) != At(b, y, m)
  {
    hide LessUpTo, EqUpTo, Leq, At;
    ReadyAt(b, block, quad, i1);
    ReadyAt(b, block, quad, i2);
    AtMod(b, x, m, i1);
    AtMod(b, y, m, i2);
    if block[i1] < block[i2] { ByteDecides(b, x, y, m); }
    if block[i1] > block[i2] { EqSym(b, x, y, m); ByteDecides(b, y, x, m); }
  }

  // So do different ranks at equal bytes.
  lemma AlongRank(b: seq<Byte>, block: seq<Byte>, quad: seq<int>, x: int, y: int, m: nat, i1: nat, i2: nat)
    requires Ready(b, block, quad) && i1 < |b| + OVERSHOOT && i2 < |b| + OVERSHOOT
    requires Along(b, x, y, m, i1, i2) && block[i1] == block[i2]
    ensures quad[i1] < quad[i2] ==> Leq(b, x, y)
    ensures quad[i1] > quad[i2] ==> Leq(b, y, x)
  {
    hide LessUpTo, EqUpTo, Leq;
    var n := |b|;
    ReadyAt(b, block, quad, i1);
    ReadyAt(b, block, quad, i2);
    var u, v := Wrapped(i1, n), Wrapped(i2, n);
    WrappedMod(i1, n);
    WrappedMod(i2, n);
    ModUnique(u, 0, u, n);
    ModUnique(v, 0, v, n);
    if quad[i1] < quad[i2] {
      assert Leq(b, u, v);
      LeqMod(b, u, x + m, v, y + m);
      RestDecides(b, x, y, m);
    }
    if quad[i1] > quad[i2] {
      assert Leq(b, v, u);
      LeqMod(b, v, y + m, u, x + m);
      EqSym(b, x, y, m);
      RestDecides(b, y, x, m);
    }
  }

  lemma LeqMod(b: seq<Byte>, x: int, x': int, y: int, y': int)
    requires b != [] && x % |b| == x' % |b| && y % |b| == y' % |b| && Leq(b, x, y)
    ensures Leq(b, x', y')
  {
    StartsCompareSame(b, y, y', x, x', |b|);
  }

  // Past the end of the block, start again from its beginning.
  lemma AlongWrap(b: seq<Byte>, x: int, y: int, m: nat, i1: nat, i2: nat)
    requires b != [] && Along(b, x, y, m, i1, i2) && i1 < 2 * |b| && i2 < 2 * |b|
    ensures Along(b, x, y, m, Wrapped(i1, |b|), Wrapped(i2, |b|))
  {
    hide EqUpTo;
    var n := |b|;
    WrappedMod(i1, n);
    WrappedMod(i2, n);
    ModUnique(Wrapped(i1, n), 0, Wrapped(i1, n), n);
    ModUnique(Wrapped(i2, n), 0, Wrapped(i2, n), n);
  }

  // A whole turn of equal bytes.
  lemma AlongEnd(b: seq<Byte>, x: int, y: int, m: nat, i1: nat, i2: nat)
    requires b != [] && Along(b, x, y, m, i1, i2) && m >= |b|
    ensures Leq(b, x, y) && Leq(b, y, x)
  {
    hide EqUpTo;
    EqLeq(b, x, y, m);
  }

  // ----- mainGtU -----

  // A yes says that rotation x does not come before rotation y, a no that it does not come
  // after it.
  ghost predicate Answers(b: seq<Byte>, x: int, y: int, gt: bool)
    requires b != []
  {
    (gt ==> Leq(b, y, x)) && (!gt ==> Leq(b, x, y))
  }

  datatype Verdict = Greater | NotGreater | Undecided

  ghost predicate Decides(b: seq<Byte>, x: int, y: int, v: Verdict)
    requires b != []
  {
    v == Undecided || Answers(b, x, y, v == Greater)
  }

  lemma NotEqual(b: seq<Byte>, x: int, y: int, m: nat, h: nat)
    requires b != [] && m < h && At(b, x, m) != At(b, y, m)
    ensures !EqUpTo(b, x, y, h)
  {
    hide At;
    if EqUpTo(b, x, y, h) { EqAt(b, x, y, h, m); }
  }

  // Bytes and ranks agree from m to h.
  ghost predicate Tied(b: seq<Byte>, quad: seq<int>, x: int, y: int, m: nat, h: nat)
    requires 0 < |b| <= |quad|
  {
    EqUpTo(b, x, y, h) && RanksAgree(b, quad, x, y, m, h)
  }

  lemma NotTied(b: seq<Byte>, quad: seq<int>, x: int, y: int, m: nat, k: nat, h: nat)
    requires 0 < |b| <= |quad| && m <= k < h && RankOf(b, quad, x, k) != RankOf(b, quad, y, k)
    ensures !Tied(b, quad, x, y, m, h)
  {
    hide RankOf, EqUpTo;
  }

  lemma NoRanks(b: seq<Byte>, quad: seq<int>, x: int, y: int, m: nat)
    requires 0 < |b| <= |quad|
    ensures RanksAgree(b, quad, x, y, m, m)
  {
  }

  lemma RanksMore(b: seq<Byte>, quad: seq<int>, x: int, y: int, m: nat, k: nat)
    requires 0 < |b| <= |quad| && RanksAgree(b, quad, x, y, m, k) && RankOf(b, quad, x, k) == RankOf(b, quad, y, k)
    ensures RanksAgree(b, quad, x, y, m, k + 1)
  {
    hide RankOf;
  }

  lemma RanksThere(b: seq<Byte>, block: seq<Byte>, quad: seq<int>, x: int, y: int, m: nat, i1: nat, i2: nat)
    requires Ready(b, block, quad) && i1 < |b| + OVERSHOOT && i2 < |b| + OVERSHOOT && Along(b, x, y, m, i1, i2)
    ensures 0 < |b| <= |quad| && i1 < |quad| && i2 < |quad|
    ensures RankOf(b, quad, x, m) == quad[i1] && RankOf(b, quad, y, m) == quad[i2]
  {
    hide Ready, RankOf;
    ReadyLength(b, block, quad);
    AlongMod(b, x, y, m, i1, i2);
    RankAt(b, block, quad, x, m, i1);
    RankAt(b, block, quad, y, m, i2);
  }

  // Bytes alone, k of them.
  method CompareBytes(i1: nat, i2: nat, k: nat, block: array<Byte>, ghost quad: seq<int>, ghost b: seq<Byte>,
                      ghost x: int, ghost y: int, ghost m: nat)
    returns (v: Verdict)
    requires Ready(b, block[..], quad) && i1 + k <= |b| + OVERSHOOT && i2 + k <= |b| + OVERSHOOT
    requires Along(b, x, y, m, i1, i2)
    ensures Decides(b, x, y, v) && (v == Undecided ==> Along(b, x, y, m + k, i1 + k, i2 + k))
    ensures v != Undecided ==> !EqUpTo(b, x, y, m + k)
  {
    hide Ready, Along, Leq, EqUpTo, At;
    assert |b| > OVERSHOOT && block.Length == |b| + OVERSHOOT by { ReadyLength(b, block[..], quad); }
    for t := 0 to k
      invariant Along(b, x, y, m + t, i1 + t, i2 + t)
    {
      var c1, c2 := block[i1 + t], block[i2 + t];
      if c1 != c2 {
        AlongByte(b, block[..], quad, x, y, m + t, i1 + t, i2 + t);
        NotEqual(b, x, y, m + t, m + k);
        return if c1 > c2 then Greater else NotGreater;
      }
      AlongNext(b, block[..], quad, x, y, m + t, i1 + t, i2 + t);
    }
    v := Undecided;
  }

  // Bytes and cached ranks, eight of them.
  method CompareRanks(i1: nat, i2: nat, block: array<Byte>, quadrant: array<int>, ghost b: seq<Byte>,
                      ghost x: int, ghost y: int, ghost m: nat)
    returns (v: Verdict)
    requires Ready(b, block[..], quadrant[..]) && i1 + 8 <= |b| + OVERSHOOT && i2 + 8 <= |b| + OVERSHOOT
    requires Along(b, x, y, m, i1, i2)
    ensures Decides(b, x, y, v) && (v == Undecided ==> Along(b, x, y, m + 8, i1 + 8, i2 + 8))
    ensures |b| <= |quadrant[..]|
    ensures if v == Undecided then RanksAgree(b, quadrant[..], x, y, m, m + 8)
      else !Tied(b, quadrant[..], x, y, m, m + 8)
  {
    hide Ready, Along, Leq, EqUpTo, At, RankOf, RanksAgree;
    ReadyLength(b, block[..], quadrant[..]);
    NoRanks(b, quadrant[..], x, y, m);
    for t := 0 to 8
      invariant Along(b, x, y, m + t, i1 + t, i2 + t) && RanksAgree(b, quadrant[..], x, y, m, m + t)
    {
      var c1, c2 := block[i1 + t], block[i2 + t];
      if c1 != c2 {
        AlongByte(b, block[..], quadrant[..], x, y, m + t, i1 + t, i2 + t);
        NotEqual(b, x, y, m + t, m + 8);
        return if c1 > c2 then Greater else NotGreater;
      }
      var s1, s2 := quadrant[i1 + t], quadrant[i2 + t];
      RanksThere(b, block[..], quadrant[..], x, y, m + t, i1 + t, i2 + t);
      if s1 != s2 {
        AlongRank(b, block[..], quadrant[..], x, y, m + t, i1 + t, i2 + t);
        NotTied(b, quadrant[..], x, y, m, m + t, m + 8);
        return if s1 > s2 then Greater else NotGreater;
      }
      AlongNext(b, block[..], quadrant[..], x, y, m + t, i1 + t, i2 + t);
      RanksMore(b, quadrant[..], x, y, m, m + t);
    }
    v := Undecided;
  }

  // Two different rotations agree on their first twenty bytes.
  ghost predicate Repetitive(b: seq<Byte>)
    requires b != []
  {
    exists x, y :: RepeatAt(b, x, y)
  }

  ghost predicate RepeatAt(b: seq<Byte>, x: int, y: int)
    requires b != []
  {
    0 <= x < |b| && 0 <= y < |b| && x != y && EqUpTo(b, x, y, 20)
  }

  // n units of the budget have been spent: after the first twelve bytes exactly n rounds of eight bytes
  // and ranks agree, or all that are made for a whole turn.
  ghost predicate Spent(b: seq<Byte>, quad: seq<int>, x: int, y: int, n: int)
    requires 0 < |b| <= |quad|
  {
    && Rounds(b, quad, x, y, n)
    && (n == |b| / 8 + 2 || !Tied(b, quad, x, y, 12 + 8 * n, 20 + 8 * n))
  }

  ghost predicate Rounds(b: seq<Byte>, quad: seq<int>, x: int, y: int, n: int)
    requires 0 < |b| <= |quad|
  {
    0 <= n <= |b| / 8 + 2 && (n > 0 ==> Tied(b, quad, x, y, 12, 12 + 8 * n))
  }

  lemma NoRound(b: seq<Byte>, quad: seq<int>, x: int, y: int)
    requires 0 < |b| <= |quad| && !EqUpTo(b, x, y, 12)
    ensures Spent(b, quad, x, y, 0)
  {
    hide RankOf, EqUpTo;
    if EqUpTo(b, x, y, 20) { EqShorter(b, x, y, 12, 20); }
  }

  lemma StartRounds(b: seq<Byte>, quad: seq<int>, x: int, y: int)
    requires 0 < |b| <= |quad|
    ensures Rounds(b, quad, x, y, 0)
  {
  }

  lemma RoundMore(b: seq<Byte>, quad: seq<int>, x: int, y: int, n: nat, m: nat, i1: nat, i2: nat)
    requires 0 < |b| <= |quad| && Rounds(b, quad, x, y, n) && n < |b| / 8 + 2 && m == 20 + 8 * n
    requires Along(b, x, y, m, i1, i2) && RanksAgree(b, quad, x, y, m - 8, m)
    ensures Rounds(b, quad, x, y, n + 1)
  {
    hide RankOf, EqUpTo, Along;
    AlongMod(b, x, y, m, i1, i2);
  }

  // Rotations that share d bytes and for which the budget was touched have twenty in common.
  lemma SpentRepeats(b: seq<Byte>, quad: seq<int>, x: int, y: int, d: nat, n: int)
    requires b != [] && 0 <= x < |b| && 0 <= y < |b| && x != y && EqUpTo(b, x, y, d)
    requires |b| <= |quad| && Spent(b, quad, x + d, y + d, n) && n > 0
    ensures Repetitive(b)
  {
    hide EqUpTo;
    EqSplit(b, x, y, d, 12 + 8 * n);
    EqShorter(b, x, y, 20, d + (12 + 8 * n));
    assert RepeatAt(b, x, y);
  }

  // Whatever the answer, it fits the order of the rotations, equal ones counting as in order
  // either way. Nothing past the repeated bytes is read. The budget pays for equal bytes only.
  method GtU(start1: nat, start2: nat, block: array<Byte>, quadrant: array<int>, budget0: int, ghost b: seq<Byte>)
    returns (gt: bool, budget: int)
    requires Ready(b, block[..], quadrant[..]) && start1 < |b| + 15 && start2 < |b| + 15
    ensures Answers(b, start1, start2, gt) && |b| <= quadrant.Length
    ensures Spent(b, quadrant[..], start1, start2, budget0 - budget)
  {
    hide Ready, Along, Leq, EqUpTo, RanksAgree, Tied, Rounds;
    ReadyLength(b, block[..], quadrant[..]);
    ghost var x, y, m := start1, start2, 12;
    budget := budget0;
    AlongStart(b, x, y);
    var v := CompareBytes(start1, start2, 12, block, quadrant[..], b, x, y, 0);
    if v != Undecided {
      NoRound(b, quadrant[..], x, y);
      return v == Greater, budget;
    }
    StartRounds(b, quadrant[..], x, y);
    var i1: nat, i2: nat, nblock := start1 + 12, start2 + 12, block.Length - OVERSHOOT;
    var k := nblock + 8;
    while true
      invariant i1 < |b| + 27 && i2 < |b| + 27 && Along(b, x, y, m, i1, i2)
      invariant k >= 0 && (nblock + 8 - k) % 8 == 0 && m == 12 + (nblock + 8 - k)
      invariant nblock + 8 - k == 8 * (budget0 - budget) && Rounds(b, quadrant[..], x, y, budget0 - budget)
      decreases k
    {
      v := CompareRanks(i1, i2, block, quadrant, b, x, y, m);
      if v != Undecided { return v == Greater, budget; }
      RoundMore(b, quadrant[..], x, y, budget0 - budget, m + 8, i1 + 8, i2 + 8);
      AlongWrap(b, x, y, m + 8, i1 + 8, i2 + 8);
      i1, i2, m := i1 + 8, i2 + 8, m + 8;
      if i1 >= nblock { i1 := i1 - nblock; }
      if i2 >= nblock { i2 := i2 - nblock; }
      k := k - 8;
      budget := budget - 1;
      if k < 0 { break; }
    }
    AlongEnd(b, x, y, m, i1, i2);
    gt := false;
  }
}
