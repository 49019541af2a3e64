// What the pointer scan of the main sort builds (dep/bzip2/blocksort.c, mainSort, step 2): the
// rotations one place before those of a sorted bucket, sorted again.
module BzMainScan {
  import opened ByteType
  import opened Bits
  import opened BzRotation
  import opened BzInverseBwt
  import opened BzMainCompare
  import opened BzMainBuckets

  // ----- Lists of rotations -----

  ghost predicate Rotations(b: seq<Byte>, q: seq<int>) {
    forall i :: 0 <= i < |q| ==> 0 <= q[i] < |b|
  }

  ghost predicate Distinct(q: seq<int>) {
    forall i, j :: 0 <= i < j < |q| ==> q[i] != q[j]
  }

  ghost predicate Ascending(b: seq<Byte>, q: seq<int>)
    requires b != []
  {
    forall i, j :: 0 <= i < j < |q| ==> Place(b, q[i]) <= Place(b, q[j])
  }

  lemma PredSucc(x: int, n: int)
    requires 0 <= x < n
    ensures 0 <= Pred(x, n) < n && Succ(Pred(x, n), n) == x
    ensures 0 <= Succ(x, n) < n && Pred(Succ(x, n), n) == x
  {
  }

  // One byte in front of both: the order stays.
  lemma PredOrder(b: seq<Byte>, x: int, y: int)
    requires 0 <= x < |b| && 0 <= y < |b| && b[x] == b[y]
    requires Place(b, Succ(x, |b|)) <= Place(b, Succ(y, |b|))
    ensures Place(b, x) <= Place(b, y)
  {
    hide Leq, Place, At;
    var n := |b|;
    PredSucc(x, n);
    PredSucc(y, n);
    PlaceOrder(b, Succ(x, n), Succ(y, n));
    SuccMod(x, n);
    SuccMod(y, n);
    LeqMod(b, Succ(x, n), x + 1, Succ(y, n), y + 1);
    SecondByte(b, x);
    SecondByte(b, y);
    assert EqUpTo(b, x, y, 1) by { assert EqUpTo(b, x, y, 0); }
    RestDecides(b, x, y, 1);
    PlaceOrder(b, x, y);
  }

  lemma SuccMod(x: int, n: nat)
    requires 0 <= x < n
    ensures Succ(x, n) % n == (x + 1) % n
  {
    if x + 1 == n {
      ModUnique(n, 1, 0, n);
      ModUnique(0, 0, 0, n);
    }
  }

  // ----- The rotations one place before -----

  // Of the rotations one place before those of q, in the same order, the ones that begin with t.
  function Preds(b: seq<Byte>, q: seq<int>, t: int): (m: seq<int>)
    requires Rotations(b, q)
  {
    if q == [] then []
    else
      var x := Pred(q[|q| - 1], |b|);
      Preds(b, q[..|q| - 1], t) + (if b[x] == t then [x] else [])
  }

  lemma PredsPush(b: seq<Byte>, q: seq<int>, y: int, t: int)
    requires Rotations(b, q) && 0 <= y < |b|
    ensures Rotations(b, q + [y])
    ensures Preds(b, q + [y], t) == Preds(b, q, t) + (if b[Pred(y, |b|)] == t then [Pred(y, |b|)] else [])
  {
    assert (q + [y])[..|q|] == q;
  }

  lemma {:induction false} PredsFront(b: seq<Byte>, y: int, q: seq<int>, t: int)
    requires Rotations(b, q) && 0 <= y < |b|
    ensures Rotations(b, [y] + q)
    ensures Preds(b, [y] + q, t) == (if b[Pred(y, |b|)] == t then [Pred(y, |b|)] else []) + Preds(b, q, t)
  {
    if q == [] {
      assert [y] + q == [] + [y];
      PredsPush(b, [], y, t);
    } else {
      var r, z := q[..|q| - 1], q[|q| - 1];
      PredsFront(b, y, r, t);
      assert [y] + q == ([y] + r) + [z];
      PredsPush(b, [y] + r, z, t);
      PredsPush(b, r, z, t);
      assert r + [z] == q;
    }
  }

  // Exactly those.
  lemma {:induction false} PredsMember(b: seq<Byte>, q: seq<int>, t: int, x: int)
    requires Rotations(b, q)
    ensures x in Preds(b, q, t) <==> 0 <= x < |b| && b[x] == t && Succ(x, |b|) in q
  {
    if q != [] {
      var r, z := q[..|q| - 1], q[|q| - 1];
      assert r + [z] == q;
      PredsMember(b, r, t, x);
      PredSucc(z, |b|);
      if 0 <= x < |b| { PredSucc(x, |b|); }
    }
  }

  lemma PredsRange(b: seq<Byte>, q: seq<int>, t: int)
    requires Rotations(b, q)
    ensures Rotations(b, Preds(b, q, t))
  {
    var m := Preds(b, q, t);
    forall i | 0 <= i < |m| ensures 0 <= m[i] < |b| { PredsMember(b, q, t, m[i]); }
  }

  lemma {:induction false} PredsDistinct(b: seq<Byte>, q: seq<int>, t: int)
    requires Rotations(b, q) && Distinct(q)
    ensures Distinct(Preds(b, q, t))
  {
    if q != [] {
      var r, z := q[..|q| - 1], q[|q| - 1];
      PredsDistinct(b, r, t);
      PredsFresh(b, r, z, t);
    }
  }

  // A rotation not in q: the one before it is not among those before q.
  lemma PredsFresh(b: seq<Byte>, q: seq<int>, y: int, t: int)
    requires Rotations(b, q) && 0 <= y < |b| && y !in q
    ensures Pred(y, |b|) !in Preds(b, q, t)
  {
    PredsMember(b, q, t, Pred(y, |b|));
    PredSucc(y, |b|);
  }

  // After all of q: the one before it is after all those before q. The other way round too.
  lemma PredsBeside(b: seq<Byte>, q: seq<int>, y: int, t: int, i: int)
    requires b != [] && Rotations(b, q) && 0 <= y < |b| && b[Pred(y, |b|)] == t && 0 <= i < |Preds(b, q, t)|
    ensures (forall k :: 0 <= k < |q| ==> Place(b, q[k]) <= Place(b, y)) ==>
      Place(b, Preds(b, q, t)[i]) <= Place(b, Pred(y, |b|))
    ensures (forall k :: 0 <= k < |q| ==> Place(b, y) <= Place(b, q[k])) ==>
      Place(b, Pred(y, |b|)) <= Place(b, Preds(b, q, t)[i])
  {
    hide Place;
    var x, w := Preds(b, q, t)[i], Pred(y, |b|);
    PredsMember(b, q, t, x);
    PredSucc(y, |b|);
    var k :| 0 <= k < |q| && q[k] == Succ(x, |b|);
    if Place(b, q[k]) <= Place(b, y) { PredOrder(b, x, w); }
    if Place(b, y) <= Place(b, q[k]) { PredOrder(b, w, x); }
  }

  lemma {:induction false} PredsAscending(b: seq<Byte>, q: seq<int>, t: int)
    requires b != [] && Rotations(b, q) && Ascending(b, q)
    ensures Ascending(b, Preds(b, q, t))
  {
    hide Place;
    if q != [] {
      var r, z := q[..|q| - 1], q[|q| - 1];
      PredsAscending(b, r, t);
      var m, x := Preds(b, r, t), Pred(z, |b|);
      if b[x] == t {
        forall i | 0 <= i < |m| ensures Place(b, m[i]) <= Place(b, x) { PredsBeside(b, r, z, t, i); }
      }
    }
  }

  // ----- Before or after the run of c -----

  // The byte after x leaves c, upwards or downwards.
  predicate Leaves(b: seq<Byte>, c: int, x: int, up: bool)
    requires 0 <= x < |b|
  {
    if up then b[Succ(x, |b|)] > c else b[Succ(x, |b|)] < c
  }

  // From x on: r more bytes c, and then one that leaves it.
  predicate Side(b: seq<Byte>, c: int, x: int, r: nat, up: bool)
    requires 0 <= x < |b|
    decreases r
  {
    b[x] == c && (Leaves(b, c, x, up) || (r > 0 && b[Succ(x, |b|)] == c && Side(b, c, Succ(x, |b|), r - 1, up)))
  }

  ghost predicate OnSide(b: seq<Byte>, c: int, x: int, up: bool) {
    0 <= x < |b| && exists r: nat :: Side(b, c, x, r, up)
  }

  lemma {:induction false} OneSide(b: seq<Byte>, c: int, x: int, r: nat, r': nat)
    requires 0 <= x < |b| && Side(b, c, x, r, true)
    ensures !Side(b, c, x, r', false)
    decreases r
  {
    PredSucc(x, |b|);
    if Side(b, c, x, r', false) {
      if b[Succ(x, |b|)] == c { OneSide(b, c, Succ(x, |b|), r - 1, r' - 1); }
    }
  }

  lemma NotBoth(b: seq<Byte>, c: int, x: int)
    requires OnSide(b, c, x, true)
    ensures !OnSide(b, c, x, false)
  {
    var r: nat :| Side(b, c, x, r, true);
    forall r': nat ensures !Side(b, c, x, r', false) { OneSide(b, c, x, r, r'); }
  }

  // One more c in front.
  lemma SideBefore(b: seq<Byte>, c: int, y: int, up: bool)
    requires OnSide(b, c, y, up) && b[Pred(y, |b|)] == c
    ensures OnSide(b, c, Pred(y, |b|), up)
  {
    var r: nat :| Side(b, c, y, r, up);
    PredSucc(y, |b|);
    assert Side(b, c, Pred(y, |b|), r + 1, up);
  }

  lemma SideFirst(b: seq<Byte>, c: int, x: int, up: bool)
    requires 0 <= x < |b| && b[x] == c && Leaves(b, c, x, up)
    ensures OnSide(b, c, x, up)
  {
    assert Side(b, c, x, 0, up);
  }

  function Distance(x: int, z: int, n: int): int {
    if x <= z then z - x else z - x + n
  }

  // Unless the whole block is c, every run of it ends.
  lemma {:induction false} SomeSide(b: seq<Byte>, c: int, x: int, z: int)
    requires 0 <= x < |b| && 0 <= z < |b| && b[x] == c && b[z] != c
    ensures OnSide(b, c, x, true) || OnSide(b, c, x, false)
    decreases Distance(x, z, |b|)
  {
    var y := Succ(x, |b|);
    PredSucc(x, |b|);
    if b[y] == c {
      SomeSide(b, c, y, z);
      if OnSide(b, c, y, true) { SideBefore(b, c, y, true); } else { SideBefore(b, c, y, false); }
    } else if b[y] > c {
      SideFirst(b, c, x, true);
    } else {
      SideFirst(b, c, x, false);
    }
  }

  // A list with the direct ones and closed under going one place back holds a whole side.
  lemma {:induction false} WholeSide(b: seq<Byte>, c: int, q: seq<int>, x: int, r: nat, up: bool)
    requires Rotations(b, q) && 0 <= x < |b| && Side(b, c, x, r, up)
    requires forall y :: 0 <= y < |b| && b[y] == c && Leaves(b, c, y, up) ==> y in q
    requires forall y :: y in Preds(b, q, c) ==> y in q
    ensures x in q
    decreases r
  {
    if !Leaves(b, c, x, up) {
      PredSucc(x, |b|);
      WholeSide(b, c, q, Succ(x, |b|), r - 1, up);
      PredsMember(b, q, c, x);
    }
  }

  // ----- The sorted part of the bucket that is being scanned -----

  ghost predicate Chain(b: seq<Byte>, c: int, q: seq<int>, up: bool)
    requires b != []
  {
    Rotations(b, q) && Distinct(q) && Ascending(b, q) && forall i :: 0 <= i < |q| ==> OnSide(b, c, q[i], up)
  }

  lemma PairsOrder(b: seq<Byte>, c: int, x: int, y: int, up: bool)
    requires 0 <= x < |b| && 0 <= y < |b| && b[x] == c == b[y] && Leaves(b, c, x, up) && b[Succ(y, |b|)] == c
    ensures x != y
    ensures if up then Place(b, y) <= Place(b, x) else Place(b, x) <= Place(b, y)
  {
    hide Place, Leq;
    if up { TwoBytes(b, y, x); } else { TwoBytes(b, x, y); }
    PlaceOrder(b, x, y);
    PlaceOrder(b, y, x);
  }

  // The scan upwards: the list is the direct ones and then those before the entries scanned.
  ghost predicate GrowsUp(b: seq<Byte>, c: int, p: seq<int>, q: seq<int>, i: nat)
    requires b != []
  {
    && Chain(b, c, q, false) && i <= |q| && q == p + Preds(b, q[..i], c)
    && forall k :: 0 <= k < |p| ==> 0 <= p[k] < |b| && b[p[k]] == c && Leaves(b, c, p[k], false)
  }

  lemma GrowUp(b: seq<Byte>, c: int, p: seq<int>, q: seq<int>, i: nat)
    requires b != [] && GrowsUp(b, c, p, q, i) && i < |q|
    ensures b[Pred(q[i], |b|)] == c ==> GrowsUp(b, c, p, q + [Pred(q[i], |b|)], i + 1)
    ensures b[Pred(q[i], |b|)] != c ==> GrowsUp(b, c, p, q, i + 1)
  {
    hide OnSide, Place, Preds;
    var y, x, s := q[i], Pred(q[i], |b|), q[..i];
    PredsPush(b, s, y, c);
    assert s + [y] == q[..i + 1];
    PredSucc(y, |b|);
    if b[x] == c {
      SideIs(b, c, y, false);
      SideBefore(b, c, y, false);
      forall k | 0 <= k < |q| ensures q[k] != x && Place(b, q[k]) <= Place(b, x) {
        if k < |p| { PairsOrder(b, c, p[k], x, false); }
        else {
          assert q[k] == Preds(b, s, c)[k - |p|];
          PredsBeside(b, s, y, c, k - |p|);
          PredsFresh(b, s, y, c);
          assert q[k] in Preds(b, s, c);
        }
      }
      assert (q + [x])[..i + 1] == q[..i + 1];
      assert q + [x] == p + (Preds(b, s, c) + [x]);
    }
  }

  lemma SideIs(b: seq<Byte>, c: int, x: int, up: bool)
    requires OnSide(b, c, x, up)
    ensures 0 <= x < |b| && b[x] == c
  {
  }

  // The scan downwards: those before the entries scanned and then the direct ones.
  ghost predicate GrowsDown(b: seq<Byte>, c: int, p: seq<int>, q: seq<int>, i: nat)
    requires b != []
  {
    && Chain(b, c, q, true) && i <= |q| && q == Preds(b, q[i..], c) + p
    && forall k :: 0 <= k < |p| ==> 0 <= p[k] < |b| && b[p[k]] == c && Leaves(b, c, p[k], true)
  }

  // What precedes an entry that is further right comes later.
  lemma BesideDown(b: seq<Byte>, c: int, q: seq<int>, i: nat, k: nat)
    requires b != [] && Chain(b, c, q, true) && 0 < i <= |q| && b[Pred(q[i - 1], |b|)] == c
    requires k < |Preds(b, q[i..], c)|
    ensures Preds(b, q[i..], c)[k] != Pred(q[i - 1], |b|)
    ensures Place(b, Pred(q[i - 1], |b|)) <= Place(b, Preds(b, q[i..], c)[k])
  {
    hide OnSide, Place, Preds;
    var y, s := q[i - 1], q[i..];
    PredsBeside(b, s, y, c, k);
    PredsFresh(b, s, y, c);
    assert Preds(b, s, c)[k] in Preds(b, s, c);
  }

  lemma GrowDown(b: seq<Byte>, c: int, p: seq<int>, q: seq<int>, i: nat)
    requires b != [] && GrowsDown(b, c, p, q, i) && 0 < i
    ensures b[Pred(q[i - 1], |b|)] == c ==> GrowsDown(b, c, p, [Pred(q[i - 1], |b|)] + q, i)
    ensures b[Pred(q[i - 1], |b|)] != c ==> GrowsDown(b, c, p, q, i - 1)
  {
    hide OnSide, Place, Preds;
    var y, x, s := q[i - 1], Pred(q[i - 1], |b|), q[i..];
    PredsFront(b, y, s, c);
    assert [y] + s == q[i - 1..];
    PredSucc(y, |b|);
    if b[x] == c {
      SideIs(b, c, y, true);
      SideBefore(b, c, y, true);
      var m := |Preds(b, s, c)|;
      forall k | 0 <= k < |q| ensures q[k] != x && Place(b, x) <= Place(b, q[k]) {
        if k >= m { PairsOrder(b, c, p[k - m], x, true); }
        else { BesideDown(b, c, q, i, k); }
      }
      assert ([x] + q)[i..] == q[i - 1..];
      assert [x] + q == ([x] + Preds(b, s, c)) + p;
    }
  }

  // ----- Room -----

  // Distinct rotations that begin with the pair w do not outnumber its bucket.
  lemma Room(b: seq<Byte>, s: seq<int>, w: int, q: seq<int>)
    requires Filed(b, s) && Rotations(b, q) && Distinct(q) && forall i :: 0 <= i < |q| ==> Pair(b, q[i]) == w
    ensures |q| <= From(b, w + 1) - From(b, w)
  {
    hide Pair, From;
    FromMono(b, w, w + 1);
    FromMono(b, w + 1, w + 1);
    FiledLength(b, s);
    var r := s[From(b, w)..From(b, w + 1)];
    forall x | x in Elements(q) ensures x in Elements(r) {
      var i :| 0 <= i < |q| && q[i] == x;
      var k := PlaceOf(b, s, x);
      assert r[k - From(b, w)] == x;
    }
    DistinctSize(q);
    AtMostSize(r);
    SubsetSize(Elements(q), Elements(r));
  }

  // Every rotation stands in its bucket.
  lemma PlaceOf(b: seq<Byte>, s: seq<int>, x: int) returns (k: int)
    requires Filed(b, s) && 0 <= x < |b|
    ensures 0 <= k < |b| == |s| && s[k] == x && From(b, Pair(b, x)) <= k < From(b, Pair(b, x) + 1)
  {
    hide Pair, From;
    Pigeonhole(s, |b|, x);
    k :| 0 <= k < |s| && s[k] == x;
  }

  // A distinct list, at least as long as a set of distinct rotations it must hold, has room for
  // all of them only if it is no shorter.
  lemma NoShorter(q: seq<int>, r: seq<int>)
    requires Distinct(r) && forall k :: 0 <= k < |r| ==> r[k] in q
    ensures |r| <= |q|
  {
    forall x | x in Elements(r) ensures x in Elements(q) {}
    DistinctSize(r);
    AtMostSize(q);
    SubsetSize(Elements(r), Elements(q));
  }
}
