// Undoing the Burrows-Wheeler transform (dep/bzip2/decompress.c): the T^(-1) vector
// built from the last column, its two memory layouts, and the walk along it.
module BzInverseBwt {
  import opened ByteType
  import opened BzRotation

  // ----- The last column and the counting sort of its entries -----

  function LastColumn(b: seq<Byte>, p: seq<int>): (l: seq<Byte>)
    requires b != [] && |p| == |b|
    ensures |l| == |b|
  {
    seq(|b|, i requires 0 <= i < |b| => b[(p[i] - 1) % |b|])
  }

  // Entries of l smaller than c; entries of the first k equal to c.
  function Smaller(l: seq<int>, c: int): nat {
    if l == [] then 0 else Smaller(l[..|l| - 1], c) + (if l[|l| - 1] < c then 1 else 0)
  }

  function Count(l: seq<int>, c: int): nat {
    if l == [] then 0 else Count(l[..|l| - 1], c) + (if l[|l| - 1] == c then 1 else 0)
  }

  // Where entry i of the last column lands when the column is sorted stably.
  function T(l: seq<int>, i: nat): nat
    requires i < |l|
  {
    Smaller(l, l[i]) + Count(l[..i], l[i])
  }

  lemma {:induction false} SmallerNext(l: seq<int>, c: int)
    ensures Smaller(l, c + 1) == Smaller(l, c) + Count(l, c)
  {
    if l != [] { SmallerNext(l[..|l| - 1], c); }
  }

  lemma {:induction false} SmallerMono(l: seq<int>, c: int, d: int)
    requires c <= d
    ensures Smaller(l, c) <= Smaller(l, d) <= |l|
  {
    if l != [] { SmallerMono(l[..|l| - 1], c, d); }
  }

  lemma {:induction false} SmallerEnds(l: seq<Byte>)
    ensures Smaller(l, 0) == 0 && Smaller(l, 256) == |l|
  {
    if l != [] { SmallerEnds(l[..|l| - 1]); }
  }

  lemma {:induction false} CountMono(l: seq<int>, c: int, i: nat, k: nat)
    requires i <= k <= |l|
    ensures Count(l[..i], c) <= Count(l[..k], c)
    ensures i < k && l[i] == c ==> Count(l[..i], c) < Count(l[..k], c)
    decreases k - i
  {
    if i < k {
      CountMono(l, c, i, k - 1);
      assert l[..k][..k - 1] == l[..k - 1];
    }
  }

  // Each entry falls into the range of its own value.
  lemma TInBucket(l: seq<int>, i: nat)
    requires i < |l|
    ensures Smaller(l, l[i]) <= T(l, i) < Smaller(l, l[i] + 1) <= |l|
  {
    CountMono(l, l[i], i, |l|);
    assert l[..|l|] == l;
    SmallerNext(l, l[i]);
    SmallerMono(l, l[i] + 1, l[i] + 1);
  }

  // The sort is by value, then by position.
  lemma TMonotone(l: seq<int>, i: nat, k: nat)
    requires i < |l| && k < |l|
    requires l[i] < l[k] || (l[i] == l[k] && i < k)
    ensures T(l, i) < T(l, k)
  {
    if l[i] < l[k] {
      TInBucket(l, i);
      TInBucket(l, k);
      SmallerMono(l, l[i] + 1, l[k]);
    } else {
      CountMono(l, l[i], i, k);
    }
  }

  lemma TInjective(l: seq<int>, i: nat, k: nat)
    requires i < |l| && k < |l| && i != k
    ensures T(l, i) != T(l, k)
  {
    if l[i] < l[k] || (l[i] == l[k] && i < k) { TMonotone(l, i, k); } else { TMonotone(l, k, i); }
  }

  // p undoes the sort: p[j] is the entry that landed at j.
  ghost predicate Inverts(p: seq<int>, l: seq<int>) {
    && |p| == |l|
    && (forall i :: 0 <= i < |l| ==> T(l, i) < |l| && p[T(l, i)] == i)
    && (forall j :: 0 <= j < |l| ==> 0 <= p[j] < |l| && T(l, p[j]) == j)
  }

  // ----- Counting arguments -----

  function Elements(s: seq<int>): set<int> {
    set x | x in s
  }

  lemma {:induction false} DistinctSize(s: seq<int>)
    requires forall i, j :: 0 <= i < j < |s| ==> s[i] != s[j]
    ensures |Elements(s)| == |s|
  {
    if s != [] {
      var t := s[..|s| - 1];
      DistinctSize(t);
      assert Elements(s) == Elements(t) + {s[|s| - 1]};
    }
  }

  lemma {:induction false} AtMostSize(s: seq<int>)
    ensures |Elements(s)| <= |s|
  {
    if s != [] {
      var t := s[..|s| - 1];
      AtMostSize(t);
      assert Elements(s) == Elements(t) + {s[|s| - 1]};
    }
  }

  lemma SubsetSize(x: set<int>, y: set<int>)
    requires x <= y
    ensures |x| <= |y|
  {
    assert y == x + (y - x);
  }

  function Range(n: nat): (r: set<int>)
    ensures forall x :: x in r <==> 0 <= x < n
  {
    if n == 0 then {} else Range(n - 1) + {n - 1}
  }

  lemma {:induction false} RangeSize(n: nat)
    ensures |Range(n)| == n
  {
    hide Range;
    RangeMore(n);
    if n > 0 {
      RangeSize(n - 1);
      OneMore(Range(n - 1), n - 1);
    }
  }

  lemma RangeMore(n: nat)
    ensures Range(0) == {} && (n > 0 ==> Range(n) == Range(n - 1) + {n - 1} && n - 1 !in Range(n - 1))
  {
  }

  lemma OneMore(s: set<int>, x: int)
    requires x !in s
    ensures |s + {x}| == |s| + 1
  {
  }

  // n distinct values below n are all the values below n.
  lemma ElementsIn(s: seq<int>, n: nat, v: int)
    requires (forall i :: 0 <= i < |s| ==> 0 <= s[i] < n) && 0 <= v < n && v !in s
    ensures v !in Elements(s) && Elements(s) + {v} <= Range(n)
  {
  }

  lemma Pigeonhole(s: seq<int>, n: nat, v: int)
    requires |s| == n && (forall i :: 0 <= i < n ==> 0 <= s[i] < n)
    requires forall i, j :: 0 <= i < j < n ==> s[i] != s[j]
    requires 0 <= v < n
    ensures v in s
  {
    hide Range, Elements;
    if v !in s {
      DistinctSize(s);
      RangeSize(n);
      ElementsIn(s, n, v);
      SubsetSize(Elements(s) + {v}, Range(n));
    }
  }

  // ----- Two sorted orders of the same rotations agree -----

  lemma NotGreater(b: seq<Byte>, a: seq<int>, q: seq<int>, j: nat)
    requires b != [] && SortedRotations(b, a) && SortedRotations(b, q) && j < |b|
    ensures Leq(b, q[j], a[j])
  {
    hide Leq;
    if !Leq(b, q[j], a[j]) {
      var n := |b|;
      forall x | x in a[..j + 1] ensures x in q[..j] {
        var i :| 0 <= i <= j && a[i] == x;
        LeqRefl(b, x);
        assert Leq(b, x, a[j]);
        Pigeonhole(q, n, x);
        var m :| 0 <= m < n && q[m] == x;
        if m >= j {
          LeqRefl(b, x);
          assert Leq(b, q[j], x);
          LeqTrans(b, q[j], x, a[j]);
        }
        assert m < j && q[..j][m] == x;
      }
      assert Elements(a[..j + 1]) <= Elements(q[..j]);
      SubsetSize(Elements(a[..j + 1]), Elements(q[..j]));
      DistinctSize(a[..j + 1]);
      AtMostSize(q[..j]);
    }
  }

  lemma LeqRefl(b: seq<Byte>, x: int)
    requires b != []
    ensures Leq(b, x, x)
  {
    Trichotomy(b, x, x, |b|);
  }

  lemma SortedAgree(b: seq<Byte>, a: seq<int>, q: seq<int>, j: nat)
    requires b != [] && SortedRotations(b, a) && SortedRotations(b, q) && j < |b|
    ensures Same(b, a[j], q[j])
  {
    hide Leq, Same;
    NotGreater(b, a, q, j);
    NotGreater(b, q, a, j);
    LeqBoth(b, a[j], q[j]);
  }

  // ----- What T^(-1) does to a sorted block -----

  // The rotations one byte to the left of those the T^(-1) vector leads to.
  function Lefts(b: seq<Byte>, p: seq<int>, inv: seq<int>): (q: seq<int>)
    requires b != [] && |p| == |b| == |inv|
    requires forall j :: 0 <= j < |b| ==> 0 <= inv[j] < |b|
    ensures |q| == |b|
  {
    seq(|b|, j requires 0 <= j < |b| => (p[inv[j]] - 1) % |b|)
  }

  lemma PredWrap(x: int, n: nat)
    requires 0 <= x < n
    ensures 0 <= (x - 1) % n < n
    ensures (x - 1) % n + 1 == x || ((x - 1) % n + 1 == n && x == 0)
    ensures (x - 1) % n == (x + (n - 1)) % n
  {
    if x == 0 {
      Unique(-1, -1, n - 1, n);
      Unique(n - 1, 0, n - 1, n);
    } else {
      Unique(x - 1, 0, x - 1, n);
      Unique(x + (n - 1), 1, x - 1, n);
    }
  }

  lemma StepLeft(b: seq<Byte>, x: int, y: int, h: nat)
    requires b != [] && 0 <= x < |b| && 0 <= y < |b|
    ensures var n := |b|;
      LessUpTo(b, (x - 1) % n + 1, (y - 1) % n + 1, h) == LessUpTo(b, x, y, h)
    ensures EqUpTo(b, (x - 1) % |b| + 1, y, h) == EqUpTo(b, x, y, h)
  {
    hide LessUpTo, EqUpTo;
    PredWrap(x, |b|);
    PredWrap(y, |b|);
    LessWrap(b, x, y, h);
    LessWrap(b, x, y + |b|, h);
    LessWrap(b, x + |b|, y, h);
    EqWrap(b, x, y, h);
  }

  // The left neighbours of sorted rotations, ordered by first byte and then by
  // rank, are sorted.
  lemma LeftsOrdered(b: seq<Byte>, p: seq<int>, i: nat, k: nat)
    requires b != [] && SortedRotations(b, p) && i < |b| && k < |b|
    requires var l := LastColumn(b, p); l[i] < l[k] || (l[i] == l[k] && i < k)
    ensures Leq(b, (p[i] - 1) % |b|, (p[k] - 1) % |b|)
  {
    var n := |b|;
    var x, y := (p[i] - 1) % n, (p[k] - 1) % n;
    PredWrap(p[i], n);
    PredWrap(p[k], n);
    FirstByte(b, x);
    FirstByte(b, y);
    assert i < k ==> Leq(b, p[i], p[k]);
    hide EqUpTo, At;
    if LessUpTo(b, y, x, n) {
      LessLonger(b, y, x, n, 1 + n);
      LessSplit(b, y, x, 1, n);
      OneByte(b, y, x);
      StepLeft(b, p[k], p[i], n);
    }
  }

  lemma FirstByte(b: seq<Byte>, x: int)
    requires b != [] && 0 <= x < |b|
    ensures At(b, x, 0) == b[x]
  {
    Unique(x, 0, x, |b|);
  }

  lemma OneByte(b: seq<Byte>, x: int, y: int)
    requires b != []
    ensures LessUpTo(b, x, y, 1) <==> At(b, x, 0) < At(b, y, 0)
    ensures EqUpTo(b, x, y, 1) <==> At(b, x, 0) == At(b, y, 0)
  {
  }

  lemma LeftsSorted(b: seq<Byte>, p: seq<int>, inv: seq<int>)
    requires b != [] && SortedRotations(b, p) && Inverts(inv, LastColumn(b, p))
    ensures SortedRotations(b, Lefts(b, p, inv))
  {
    hide Leq, T;
    var n, l, q := |b|, LastColumn(b, p), Lefts(b, p, inv);
    forall x | 0 <= x < n ensures 0 <= q[x] < n { PredWrap(p[inv[x]], n); }
    forall x, y | 0 <= x < y < n ensures q[x] != q[y] && Leq(b, q[x], q[y]) {
      var i, k := inv[x], inv[y];
      assert i != k by { assert T(l, i) == x && T(l, k) == y; }
      PredWrap(p[i], n);
      PredWrap(p[k], n);
      assert p[i] != p[k];
      if !(l[i] < l[k] || (l[i] == l[k] && i < k)) { TMonotone(l, k, i); }
      LeftsOrdered(b, p, i, k);
    }
  }

  // Following T^(-1) moves one byte to the right, up to equality of rotations: this
  // also holds for periodic blocks, whose equal rotations come in any order.
  lemma StepRight(b: seq<Byte>, p: seq<int>, inv: seq<int>, j: nat)
    requires b != [] && SortedRotations(b, p) && Inverts(inv, LastColumn(b, p)) && j < |b|
    ensures Same(b, p[j] + 1, p[inv[j]])
  {
    hide Leq, EqUpTo, T;
    var q := Lefts(b, p, inv);
    LeftsSorted(b, p, inv);
    SortedAgree(b, p, q, j);
    SameShift(b, p[j], q[j], 1);
    var x := p[inv[j]];
    PredWrap(x, |b|);
    EqWrap(b, x, p[j] + 1, |b|);
    EqSym(b, p[j] + 1, q[j] + 1, |b|);
    assert Same(b, x, p[j] + 1);
    EqSym(b, x, p[j] + 1, |b|);
  }

  // ----- The walk -----

  // The bytes met on k steps along inv from row pos.
  function Walk(l: seq<Byte>, inv: seq<int>, pos: int, k: nat): seq<Byte>
    requires |inv| == |l| && (forall j :: 0 <= j < |l| ==> 0 <= inv[j] < |l|)
    requires 0 <= pos < |l|
    decreases k
  {
    if k == 0 then [] else [l[inv[pos]]] + Walk(l, inv, inv[pos], k - 1)
  }

  lemma {:induction false} WalkFrom(b: seq<Byte>, p: seq<int>, inv: seq<int>, pos: nat, t: nat)
    requires b != [] && SortedRotations(b, p) && Inverts(inv, LastColumn(b, p))
    requires pos < |b| && t <= |b| && Same(b, p[pos], t)
    ensures Walk(LastColumn(b, p), inv, pos, |b| - t) == b[t..]
    decreases |b| - t
  {
    hide EqUpTo, T, Leq;
    var n, l := |b|, LastColumn(b, p);
    if t < n {
      var next := inv[pos];
      StepRight(b, p, inv, pos);
      SameShift(b, p[pos], t, 1);
      EqSym(b, p[pos] + 1, t + 1, n);
      EqTrans(b, t + 1, p[pos] + 1, p[next], n);
      EqSym(b, t + 1, p[next], n);
      LastByte(b, p, next, t);
      WalkFrom(b, p, inv, next, t + 1);
      assert b[t..] == [b[t]] + b[t + 1..];
    }
  }

  lemma LastByte(b: seq<Byte>, p: seq<int>, i: nat, t: nat)
    requires b != [] && |p| == |b| && i < |b| && 0 <= p[i] < |b| && t < |b|
    requires Same(b, p[i], t + 1)
    ensures LastColumn(b, p)[i] == b[t]
  {
    var n := |b|;
    EqAt(b, p[i], t + 1, n, n - 1);
    PredWrap(p[i], n);
    Unique(t + 1 + (n - 1), 1, t, n);
  }

  // The inverse transform: for every block and every sorted order of its
  // rotations, walking |b| steps from the row of rotation 0 spells the block.
  lemma InverseBwt(b: seq<Byte>, p: seq<int>, inv: seq<int>, orig: nat)
    requires b != [] && SortedRotations(b, p) && Inverts(inv, LastColumn(b, p))
    requires orig < |b| && p[orig] == 0
    ensures Walk(LastColumn(b, p), inv, orig, |b|) == b
  {
    EqRefl(b, 0, |b|);
    WalkFrom(b, p, inv, orig, 0);
  }
}
