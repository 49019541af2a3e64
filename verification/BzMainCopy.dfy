// The pointer scan of the main sort (dep/bzip2/blocksort.c, mainSort, step 2): from the sorted
// small buckets [c, j] of a big bucket the order of all small buckets [t, c], also of [c, c],
// which is read while it is being filled from both ends.
module BzMainCopy {
  import opened ByteType
  import opened BzRotation
  import opened BzInverseBwt
  import opened BzQSort3
  import opened BzMainCompare
  import opened BzMainBuckets
  import opened BzMainScan

  // ----- The small buckets [t, c] and the big bucket c -----

  function Start(b: seq<Byte>, t: int, c: int): nat {
    From(b, 256 * t + c)
  }

  function Stop(b: seq<Byte>, t: int, c: int): nat {
    From(b, 256 * t + c + 1)
  }

  function RowStart(b: seq<Byte>, c: int): nat {
    From(b, 256 * c)
  }

  function RowStop(b: seq<Byte>, c: int): nat {
    From(b, 256 * c + 256)
  }

  lemma RowBounds(b: seq<Byte>, c: int)
    requires 0 <= c < 256
    ensures RowStart(b, c) <= Start(b, c, c) <= Stop(b, c, c) <= RowStop(b, c) <= |b|
  {
    hide From;
    FromMono(b, 256 * c, 257 * c);
    FromMono(b, 257 * c, 257 * c + 1);
    FromMono(b, 257 * c + 1, 256 * c + 256);
  }

  lemma StartStop(b: seq<Byte>, t: int, c: int)
    ensures Start(b, t, c) <= Stop(b, t, c) <= |b|
  {
    hide From;
    FromMono(b, 256 * t + c, 256 * t + c + 1);
    FromMono(b, 256 * t + c + 1, 256 * t + c + 1);
  }

  lemma TargetsApart(b: seq<Byte>, t: int, u: int, c: int)
    requires t != u
    ensures Stop(b, t, c) <= Start(b, u, c) || Stop(b, u, c) <= Start(b, t, c)
  {
    hide From;
    if t < u { FromMono(b, 256 * t + c + 1, 256 * u + c); } else { FromMono(b, 256 * u + c + 1, 256 * t + c); }
  }

  lemma TargetOutsideRow(b: seq<Byte>, t: int, c: int)
    requires t != c && 0 <= c < 256
    ensures Stop(b, t, c) <= RowStart(b, c) || RowStop(b, c) <= Start(b, t, c)
  {
    hide From;
    if t < c { FromMono(b, 256 * t + c + 1, 256 * c); } else { FromMono(b, 256 * c + 256, 256 * t + c); }
  }

  // Rotation x is in a bucket that the scan fills.
  predicate Target(b: seq<Byte>, big: seq<bool>, c: int, x: int) {
    |big| == 256 && 0 <= x < |b| && b[Succ(x, |b|)] == c && !big[b[x]]
  }

  // Nothing else has changed.
  ghost predicate Kept(b: seq<Byte>, s0: seq<int>, s: seq<int>, big: seq<bool>, c: int) {
    |s| == |s0| == |b| && forall k :: 0 <= k < |b| && !Target(b, big, c, s0[k]) ==> s[k] == s0[k]
  }

  lemma InTarget(b: seq<Byte>, s0: seq<int>, big: seq<bool>, c: int, t: int, k: int)
    requires Filed(b, s0) && |big| == 256 && 0 <= t < 256 && !big[t] && 0 <= c < 256
    requires Start(b, t, c) <= k < Stop(b, t, c)
    ensures 0 <= k < |b| == |s0| && Target(b, big, c, s0[k])
  {
    hide From, Filed, Pair;
    StartStop(b, t, c);
    FiledLength(b, s0);
    BucketPair(b, s0, 256 * t + c, k);
    PairParts(b, s0[k]);
  }

  // ----- What has been filled -----

  ghost predicate LeftAt(b: seq<Byte>, s: seq<int>, c: int, t: int, k: int, q: seq<int>)
    requires Rotations(b, q)
  {
    Start(b, t, c) <= k <= Stop(b, t, c) <= |s| && s[Start(b, t, c)..k] == Preds(b, q, t)
  }

  ghost predicate RightAt(b: seq<Byte>, s: seq<int>, c: int, t: int, k: int, q: seq<int>)
    requires Rotations(b, q)
  {
    Start(b, t, c) <= k + 1 <= Stop(b, t, c) <= |s| && s[k + 1..Stop(b, t, c)] == Preds(b, q, t)
  }

  ghost predicate LeftOk(b: seq<Byte>, s: seq<int>, big: seq<bool>, c: int, cs: seq<int>, q: seq<int>) {
    && Rotations(b, q) && |big| == 256 == |cs|
    && forall t :: 0 <= t < 256 && !big[t] ==> LeftAt(b, s, c, t, cs[t], q)
  }

  ghost predicate RightOk(b: seq<Byte>, s: seq<int>, big: seq<bool>, c: int, ce: seq<int>, q: seq<int>) {
    && Rotations(b, q) && |big| == 256 == |ce|
    && forall t :: 0 <= t < 256 && !big[t] ==> RightAt(b, s, c, t, ce[t], q)
  }

  // The rotations before q that begin with t all belong to [t, c].
  lemma PredsPairs(b: seq<Byte>, q: seq<int>, c: int, t: int)
    requires Rotations(b, q) && forall i :: 0 <= i < |q| ==> b[q[i]] == c
    ensures Rotations(b, Preds(b, q, t))
    ensures forall i :: 0 <= i < |Preds(b, q, t)| ==> Pair(b, Preds(b, q, t)[i]) == 256 * t + c
  {
    hide Preds;
    PredsRange(b, q, t);
    var m := Preds(b, q, t);
    forall i | 0 <= i < |m| ensures Pair(b, m[i]) == 256 * t + c {
      PredsMember(b, q, t, m[i]);
      var k :| 0 <= k < |q| && q[k] == Succ(m[i], |b|);
    }
  }

  // The next one still has room.
  lemma LeftRoom(b: seq<Byte>, s0: seq<int>, s: seq<int>, c: int, t: int, k: int, q: seq<int>, y: int)
    requires Filed(b, s0) && Rotations(b, q) && Distinct(q) && (forall i :: 0 <= i < |q| ==> b[q[i]] == c)
    requires LeftAt(b, s, c, t, k, q) && 0 <= y < |b| && b[y] == c && y !in q && b[Pred(y, |b|)] == t
    ensures k < Stop(b, t, c)
  {
    hide From, Preds, Filed;
    var m, x := Preds(b, q, t), Pred(y, |b|);
    PredSucc(y, |b|);
    PredsPairs(b, q, c, t);
    PredsDistinct(b, q, t);
    PredsFresh(b, q, y, t);
    var r := m + [x];
    forall i | 0 <= i < |r| ensures 0 <= r[i] < |b| && Pair(b, r[i]) == 256 * t + c {}
    forall i | 0 <= i < |m| ensures m[i] != x { assert m[i] in m; }
    Room(b, s0, 256 * t + c, r);
  }

  lemma BothRoom(b: seq<Byte>, s0: seq<int>, s: seq<int>, c: int, t: int, k: int, l: int, q: seq<int>, u: seq<int>,
                 y: int)
    requires Filed(b, s0) && Chain2(b, c, q, u) && y !in q && y !in u
    requires LeftAt(b, s, c, t, k, q) && RightAt(b, s, c, t, l, u) && 0 <= y < |b| && b[y] == c && b[Pred(y, |b|)] == t
    ensures k <= l
  {
    hide From, Preds, Filed, Distinct;
    var m, r, x := Preds(b, q, t), Preds(b, u, t), Pred(y, |b|);
    PredSucc(y, |b|);
    PredsPairs(b, q, c, t);
    PredsPairs(b, u, c, t);
    PredsDistinct(b, q, t);
    PredsDistinct(b, u, t);
    PredsFresh(b, q, y, t);
    PredsFresh(b, u, y, t);
    forall i | 0 <= i < |m| ensures m[i] !in r {
      assert m[i] in m;
      PredsMember(b, q, t, m[i]);
      PredsMember(b, u, t, m[i]);
    }
    DistinctAround(m, x, r);
    var all := m + [x] + r;
    forall i | 0 <= i < |all| ensures 0 <= all[i] < |b| && Pair(b, all[i]) == 256 * t + c {
      if i > |m| { assert all[i] == r[i - |m| - 1]; }
    }
    Room(b, s0, 256 * t + c, all);
  }

  lemma DistinctAround(m: seq<int>, x: int, r: seq<int>)
    requires Distinct(m) && Distinct(r) && x !in m && x !in r && forall i :: 0 <= i < |m| ==> m[i] !in r
    ensures Distinct(m + [x] + r)
  {
    var all := m + [x] + r;
    forall i, j | 0 <= i < j < |all| ensures all[i] != all[j] {
      if j > |m| { assert all[j] == r[j - |m| - 1] && all[j] in r; }
      if i > |m| { assert all[i] == r[i - |m| - 1]; }
      if i < |m| { assert all[i] == m[i] && m[i] in m; }
    }
  }

  // Two distinct lists of rotations that begin with c, with nothing in common.
  ghost predicate Chain2(b: seq<Byte>, c: int, q: seq<int>, u: seq<int>) {
    && Rotations(b, q) && Distinct(q) && (forall i :: 0 <= i < |q| ==> b[q[i]] == c)
    && Rotations(b, u) && Distinct(u) && (forall i :: 0 <= i < |u| ==> b[u[i]] == c)
    && (forall i :: 0 <= i < |q| ==> q[i] !in u)
  }

  // ----- Upwards -----

  // The scan up to j: the part of the bucket already filled, and all targets.
  ghost predicate Fwd(b: seq<Byte>, s0: seq<int>, s: seq<int>, big: seq<bool>, c: int, cs: seq<int>, j: int)
    requires b != []
  {
    && 0 <= c < 256 && |s| == |s0| == |b| && |big| == 256 == |cs|
    && RowStart(b, c) <= Start(b, c, c) <= |b| && RowStart(b, c) <= j <= cs[c] <= |b|
    && GrowsUp(b, c, s0[RowStart(b, c)..Start(b, c, c)], s[RowStart(b, c)..cs[c]], j - RowStart(b, c))
    && LeftOk(b, s, big, c, cs, s[RowStart(b, c)..j])
    && Kept(b, s0, s, big, c)
    && (j == RowStart(b, c) ==> s == s0)
  }

  lemma ChainParts(b: seq<Byte>, c: int, q: seq<int>, up: bool)
    requires b != [] && Chain(b, c, q, up)
    ensures Rotations(b, q) && Distinct(q) && forall i :: 0 <= i < |q| ==>
      0 <= q[i] < |b| && b[q[i]] == c && OnSide(b, c, q[i], up)
  {
    hide OnSide, Place;
    forall i | 0 <= i < |q| ensures b[q[i]] == c { SideIs(b, c, q[i], up); }
  }

  // Where the next pointer goes.
  lemma FwdNext(b: seq<Byte>, s0: seq<int>, s: seq<int>, big: seq<bool>, c: int, cs: seq<int>, j: int)
    requires b != [] && Filed(b, s0) && Fwd(b, s0, s, big, c, cs, j) && j < cs[c]
    ensures 0 <= s[j] < |b| && b[s[j]] == c
    ensures var t := b[Pred(s[j], |b|)]; !big[t] ==> Start(b, t, c) <= cs[t] < Stop(b, t, c) <= |b|
  {
    hide From, Chain, Filed, Kept, Preds, Distinct;
    var lo := RowStart(b, c);
    var q := s[lo..cs[c]];
    ChainParts(b, c, q, false);
    assert q[j - lo] == s[j];
    PredSucc(s[j], |b|);
    var t := b[Pred(s[j], |b|)];
    if !big[t] {
      var r := s[lo..j];
      assert forall i :: 0 <= i < |r| ==> r[i] == q[i];
      NotEarlier(q, j - lo);
      assert q[..j - lo] == r;
      LeftRoom(b, s0, s, c, t, cs[t], r, s[j]);
      StartStop(b, t, c);
    }
  }

  lemma NotEarlier(q: seq<int>, i: nat)
    requires Distinct(q) && i < |q|
    ensures q[i] !in q[..i] && Distinct(q[..i])
  {
  }

  // A bucket is not touched by a write into another one.
  lemma LeftKeeps(b: seq<Byte>, s: seq<int>, c: int, t: int, u: int, k: int, at: int, x: int, q: seq<int>, y: int)
    requires Rotations(b, q) && LeftAt(b, s, c, u, k, q) && t != u && Start(b, t, c) <= at < Stop(b, t, c) <= |s|
    requires 0 <= y < |b| && b[Pred(y, |b|)] == t
    ensures Rotations(b, q + [y]) && LeftAt(b, s[at := x], c, u, k, q + [y])
  {
    hide From, Preds;
    TargetsApart(b, t, u, c);
    PredsPush(b, q, y, u);
    assert s[at := x][Start(b, u, c)..k] == s[Start(b, u, c)..k];
  }

  lemma LeftSame(b: seq<Byte>, s: seq<int>, c: int, u: int, k: int, q: seq<int>, y: int)
    requires Rotations(b, q) && LeftAt(b, s, c, u, k, q) && 0 <= y < |b| && b[Pred(y, |b|)] != u
    ensures Rotations(b, q + [y]) && LeftAt(b, s, c, u, k, q + [y])
  {
    hide From, Preds;
    PredsPush(b, q, y, u);
  }

  lemma LeftGrows(b: seq<Byte>, s: seq<int>, c: int, t: int, k: int, q: seq<int>, y: int)
    requires Rotations(b, q) && LeftAt(b, s, c, t, k, q) && k < Stop(b, t, c) && 0 <= y < |b| && b[Pred(y, |b|)] == t
    ensures Rotations(b, q + [y]) && LeftAt(b, s[k := Pred(y, |b|)], c, t, k + 1, q + [y])
  {
    hide From, Preds;
    PredsPush(b, q, y, t);
    var lo, x := Start(b, t, c), Pred(y, |b|);
    assert s[k := x][lo..k + 1] == s[lo..k] + [x];
  }

  lemma LeftOkStep(b: seq<Byte>, s: seq<int>, big: seq<bool>, c: int, cs: seq<int>, q: seq<int>, y: int)
    requires LeftOk(b, s, big, c, cs, q) && 0 <= y < |b|
    requires var t := b[Pred(y, |b|)]; !big[t] ==> Start(b, t, c) <= cs[t] < Stop(b, t, c) <= |s|
    ensures var x := Pred(y, |b|); var t := b[x];
      0 <= x < |b| && (if big[t] then LeftOk(b, s, big, c, cs, q + [y])
                       else LeftOk(b, s[cs[t] := x], big, c, cs[t := cs[t] + 1], q + [y]))
  {
    hide From, Preds, LeftAt;
    PredSucc(y, |b|);
    var x := Pred(y, |b|);
    var t := b[x];
    PredsPush(b, q, y, t);
    if big[t] {
      forall u | 0 <= u < 256 && !big[u] ensures
        LeftAt(b, s, c, u, cs[u], q + [y]) { LeftSame(b, s, c, u, cs[u], q, y); }
    } else {
      forall u | 0 <= u < 256 && !big[u] ensures LeftAt(b, s[cs[t] := x], c, u, cs[t := cs[t] + 1][u], q + [y]) {
        if u == t { LeftGrows(b, s, c, t, cs[t], q, y); }
        else { LeftKeeps(b, s, c, t, u, cs[u], cs[t], x, q, y); }
      }
    }
  }

  lemma KeptStep(b: seq<Byte>, s0: seq<int>, s: seq<int>, big: seq<bool>, c: int, t: int, at: int, x: int)
    requires Filed(b, s0) && Kept(b, s0, s, big, c) && |big| == 256 && 0 <= t < 256 && !big[t] && 0 <= c < 256
    requires Start(b, t, c) <= at < Stop(b, t, c)
    ensures 0 <= at < |s| && Kept(b, s0, s[at := x], big, c)
  {
    hide From, Filed, Target;
    InTarget(b, s0, big, c, t, at);
  }

  lemma FwdStep(b: seq<Byte>, s0: seq<int>, s: seq<int>, big: seq<bool>, c: int, cs: seq<int>, j: int)
    requires b != [] && Filed(b, s0) && Fwd(b, s0, s, big, c, cs, j) && j < cs[c] && !big[c]
    ensures 0 <= s[j] < |b| && 0 <= Pred(s[j], |b|) < |b|
    ensures var x := Pred(s[j], |b|); var t := b[x];
      if big[t] then Fwd(b, s0, s, big, c, cs, j + 1)
      else 0 <= cs[t] < |s| && Fwd(b, s0, s[cs[t] := x], big, c, cs[t := cs[t] + 1], j + 1)
  {
    hide From, GrowsUp, Filed, Kept, LeftOk;
    FwdNext(b, s0, s, big, c, cs, j);
    var lo, y := RowStart(b, c), s[j];
    PredSucc(y, |b|);
    var x := Pred(y, |b|);
    var t := b[x];
    var q, p := s[lo..cs[c]], s0[lo..Start(b, c, c)];
    assert q[j - lo] == y && s[lo..j] + [y] == s[lo..j + 1];
    GrowUp(b, c, p, q, j - lo);
    LeftOkStep(b, s, big, c, cs, s[lo..j], y);
    if !big[t] {
      var k := cs[t];
      KeptStep(b, s0, s, big, c, t, k, x);
      var s' := s[k := x];
      if t == c {
        assert s'[lo..k + 1] == q + [x];
      } else {
        TargetOutsideRow(b, t, c);
        InsideRow(b, s0, s, big, c, cs, j);
        assert s'[lo..cs[c]] == q;
      }
      assert s'[lo..j + 1] == s[lo..j + 1];
    }
  }

  lemma InsideRow(b: seq<Byte>, s0: seq<int>, s: seq<int>, big: seq<bool>, c: int, cs: seq<int>, j: int)
    requires b != [] && Fwd(b, s0, s, big, c, cs, j) && !big[c]
    ensures cs[c] <= RowStop(b, c)
  {
    hide From, GrowsUp, Kept;
    RowBounds(b, c);
    assert LeftAt(b, s, c, c, cs[c], s[RowStart(b, c)..j]);
  }

  // ----- Downwards -----

  // ql is what the scan upwards has read. The scan down to j has filled the targets from their
  // right ends.
  ghost predicate Bwd(b: seq<Byte>, s0: seq<int>, s: seq<int>, big: seq<bool>, c: int, cs: seq<int>, ce: seq<int>,
                      j: int,
                      ql: seq<int>)
    requires b != []
  {
    && 0 <= c < 256 && |s| == |s0| == |b| && |big| == 256 == |cs| == |ce|
    && 0 <= Stop(b, c, c) <= RowStop(b, c) <= |b| && 0 <= ce[c] + 1 <= j + 1 <= RowStop(b, c)
    && GrowsDown(b, c, s0[Stop(b, c, c)..RowStop(b, c)], s[ce[c] + 1..RowStop(b, c)], j - ce[c])
    && Rotations(b, ql) && LeftOk(b, s, big, c, cs, ql)
    && RightOk(b, s, big, c, ce, s[j + 1..RowStop(b, c)])
    && (forall t :: 0 <= t < 256 && !big[t] ==> cs[t] <= ce[t] + 1)
    && Kept(b, s0, s, big, c)
    && (j == RowStop(b, c) - 1 && ql == [] ==> s == s0)
  }

  // What lies on the lower side has nothing in common with what lies on the upper side.
  lemma SidesApart(b: seq<Byte>, c: int, q: seq<int>, u: seq<int>)
    requires b != [] && Chain(b, c, q, false) && Chain(b, c, u, true)
    ensures Chain2(b, c, q, u)
  {
    hide OnSide, Place;
    ChainParts(b, c, q, false);
    ChainParts(b, c, u, true);
    forall i | 0 <= i < |q| ensures q[i] !in u {
      if q[i] in u {
        var k :| 0 <= k < |u| && u[k] == q[i];
        NotBoth(b, c, q[i]);
      }
    }
  }

  lemma NotLater(q: seq<int>, i: nat)
    requires Distinct(q) && i < |q|
    ensures q[i] !in q[i + 1..] && Distinct(q[i + 1..])
  {
  }

  lemma Chain2Part(b: seq<Byte>, c: int, q: seq<int>, u: seq<int>, i: nat)
    requires Chain2(b, c, q, u) && i < |u|
    ensures Chain2(b, c, q, u[i + 1..]) && u[i] !in q && u[i] !in u[i + 1..] && 0 <= u[i] < |b| && b[u[i]] == c
  {
    NotLater(u, i);
    forall k | 0 <= k < |q| ensures q[k] !in u[i + 1..] && q[k] != u[i] { assert q[k] !in u && u[i] in u; }
  }

  lemma BwdNext(b: seq<Byte>, s0: seq<int>, s: seq<int>, big: seq<bool>, c: int, cs: seq<int>, ce: seq<int>, j: int,
                ql: seq<int>)
    requires b != [] && Filed(b, s0) && Chain(b, c, ql, false) && Bwd(b, s0, s, big, c, cs, ce, j, ql) && j > ce[c]
    ensures 0 <= s[j] < |b| && b[s[j]] == c
    ensures var t := b[Pred(s[j], |b|)]; !big[t] ==> Start(b, t, c) <= cs[t] <= ce[t] < Stop(b, t, c) <= |b|
  {
    hide From, Chain, Filed, Kept, Preds, Chain2;
    var hi := RowStop(b, c);
    var u := s[ce[c] + 1..hi];
    var i := j - ce[c] - 1;
    SidesApart(b, c, ql, u);
    assert u[i] == s[j] && u[i + 1..] == s[j + 1..hi];
    Chain2Part(b, c, ql, u, i);
    PredSucc(s[j], |b|);
    var t := b[Pred(s[j], |b|)];
    if !big[t] {
      BothRoom(b, s0, s, c, t, cs[t], ce[t], ql, s[j + 1..hi], s[j]);
      StartStop(b, t, c);
    }
  }

  lemma RightKeeps(b: seq<Byte>, s: seq<int>, c: int, t: int, u: int, k: int, at: int, x: int, q: seq<int>, y: int)
    requires Rotations(b, q) && RightAt(b, s, c, u, k, q) && t != u && Start(b, t, c) <= at < Stop(b, t, c) <= |s|
    requires 0 <= y < |b| && b[Pred(y, |b|)] == t
    ensures Rotations(b, [y] + q) && RightAt(b, s[at := x], c, u, k, [y] + q)
  {
    hide From, Preds;
    TargetsApart(b, t, u, c);
    PredsFront(b, y, q, u);
    assert s[at := x][k + 1..Stop(b, u, c)] == s[k + 1..Stop(b, u, c)];
  }

  lemma RightSame(b: seq<Byte>, s: seq<int>, c: int, u: int, k: int, q: seq<int>, y: int)
    requires Rotations(b, q) && RightAt(b, s, c, u, k, q) && 0 <= y < |b| && b[Pred(y, |b|)] != u
    ensures Rotations(b, [y] + q) && RightAt(b, s, c, u, k, [y] + q)
  {
    hide From, Preds;
    PredsFront(b, y, q, u);
  }

  lemma RightGrows(b: seq<Byte>, s: seq<int>, c: int, t: int, k: int, q: seq<int>, y: int)
    requires Rotations(b, q) && RightAt(b, s, c, t, k, q) && Start(b, t, c) <= k && 0 <= y < |b| && b[Pred(y, |b|)] == t
    ensures Rotations(b, [y] + q) && RightAt(b, s[k := Pred(y, |b|)], c, t, k - 1, [y] + q)
  {
    hide From, Preds;
    PredsFront(b, y, q, t);
    var hi, x := Stop(b, t, c), Pred(y, |b|);
    assert s[k := x][k..hi] == [x] + s[k + 1..hi];
  }

  lemma RightOkStep(b: seq<Byte>, s: seq<int>, big: seq<bool>, c: int, ce: seq<int>, q: seq<int>, y: int)
    requires RightOk(b, s, big, c, ce, q) && 0 <= y < |b|
    requires var t := b[Pred(y, |b|)]; !big[t] ==> Start(b, t, c) <= ce[t] < Stop(b, t, c) <= |s|
    ensures var x := Pred(y, |b|); var t := b[x];
      0 <= x < |b| && (if big[t] then RightOk(b, s, big, c, ce, [y] + q)
                       else RightOk(b, s[ce[t] := x], big, c, ce[t := ce[t] - 1], [y] + q))
  {
    hide From, Preds, RightAt;
    PredSucc(y, |b|);
    var x := Pred(y, |b|);
    var t := b[x];
    PredsFront(b, y, q, t);
    if big[t] {
      forall u | 0 <= u < 256 && !big[u] ensures
        RightAt(b, s, c, u, ce[u], [y] + q) { RightSame(b, s, c, u, ce[u], q, y); }
    } else {
      forall u | 0 <= u < 256 && !big[u] ensures RightAt(b, s[ce[t] := x], c, u, ce[t := ce[t] - 1][u], [y] + q) {
        if u == t { RightGrows(b, s, c, t, ce[t], q, y); }
        else { RightKeeps(b, s, c, t, u, ce[u], ce[t], x, q, y); }
      }
    }
  }

  // The parts filled from the left stay.
  lemma LeftStays(b: seq<Byte>, s: seq<int>, big: seq<bool>, c: int, cs: seq<int>, ql: seq<int>, t: int, at: int,
                  x: int)
    requires LeftOk(b, s, big, c, cs, ql) && 0 <= t < 256 && !big[t] && cs[t] <= at < Stop(b, t, c) <= |s|
      && Start(b, t, c) <= at
    ensures LeftOk(b, s[at := x], big, c, cs, ql)
  {
    hide From, Preds;
    forall u | 0 <= u < 256 && !big[u] ensures LeftAt(b, s[at := x], c, u, cs[u], ql) {
      assert LeftAt(b, s, c, u, cs[u], ql);
      if u != t { TargetsApart(b, t, u, c); }
      assert s[at := x][Start(b, u, c)..cs[u]] == s[Start(b, u, c)..cs[u]];
    }
  }

  lemma BwdStep(b: seq<Byte>, s0: seq<int>, s: seq<int>, big: seq<bool>, c: int, cs: seq<int>, ce: seq<int>, j: int,
                ql: seq<int>)
    requires b != [] && Filed(b, s0) && Chain(b, c, ql, false) && Bwd(b, s0, s, big, c, cs, ce, j, ql)
      && j > ce[c] && !big[c]
    ensures 0 <= s[j] < |b| && 0 <= Pred(s[j], |b|) < |b|
    ensures var x := Pred(s[j], |b|); var t := b[x];
      if big[t] then Bwd(b, s0, s, big, c, cs, ce, j - 1, ql)
      else 0 <= ce[t] < |s| && Bwd(b, s0, s[ce[t] := x], big, c, cs, ce[t := ce[t] - 1], j - 1, ql)
  {
    hide From, GrowsDown, Filed, Kept, LeftOk, RightOk, Chain;
    BwdNext(b, s0, s, big, c, cs, ce, j, ql);
    var hi, y := RowStop(b, c), s[j];
    PredSucc(y, |b|);
    var x := Pred(y, |b|);
    var t := b[x];
    var q, p, i := s[ce[c] + 1..hi], s0[Stop(b, c, c)..hi], j - ce[c];
    assert q[i - 1] == y && [y] + s[j + 1..hi] == s[j..hi];
    GrowDown(b, c, p, q, i);
    RightOkStep(b, s, big, c, ce, s[j + 1..hi], y);
    if !big[t] {
      var k := ce[t];
      KeptStep(b, s0, s, big, c, t, k, x);
      LeftStays(b, s, big, c, cs, ql, t, k, x);
      var s' := s[k := x];
      if t == c {
        assert s'[k..hi] == [x] + q;
      } else {
        TargetOutsideRow(b, t, c);
        InsideRowDown(b, s0, s, big, c, cs, ce, j, ql);
        assert s'[ce[c] + 1..hi] == q;
      }
      assert s'[j..hi] == s[j..hi];
    }
  }

  lemma InsideRowDown(b: seq<Byte>, s0: seq<int>, s: seq<int>, big: seq<bool>, c: int, cs: seq<int>, ce: seq<int>,
                      j: int, ql: seq<int>)
    requires b != [] && Bwd(b, s0, s, big, c, cs, ce, j, ql) && !big[c]
    ensures RowStart(b, c) <= ce[c] + 1
  {
    hide From, GrowsDown, Kept, LeftOk;
    RowBounds(b, c);
    assert RightAt(b, s, c, c, ce[c], s[j + 1..RowStop(b, c)]);
  }

  // ----- The two ends of the big bucket, sorted before the scan -----

  // Step 1 has sorted the small buckets [c, j] for all j but c.
  ghost predicate RowSorted(b: seq<Byte>, s: seq<int>, c: int)
    requires b != []
  {
    Filed(b, s) && 0 <= c < 256 && forall j :: 0 <= j < 256 && j != c ==> SmallSorted(b, s, c, j)
  }

  ghost predicate SmallSorted(b: seq<Byte>, s: seq<int>, t: int, j: int)
    requires b != []
  {
    BucketSorted(b, s, 256 * t + j)
  }

  lemma RowEntry(b: seq<Byte>, s: seq<int>, c: int, k: int)
    requires Filed(b, s) && 0 <= c < 256 && RowStart(b, c) <= k < RowStop(b, c)
    ensures 0 <= k < |b| == |s| && 0 <= s[k] < |b| && b[s[k]] == c
    ensures k < Start(b, c, c) ==> b[Succ(s[k], |b|)] < c
    ensures k >= Stop(b, c, c) ==> b[Succ(s[k], |b|)] > c
  {
    hide From;
    RowBounds(b, c);
    var w := Pair(b, s[k]);
    PairParts(b, s[k]);
    if w < 256 * c { FromMono(b, w + 1, 256 * c); }
    if w >= 256 * c + 256 { FromMono(b, 256 * c + 256, w); }
    if k < Start(b, c, c) && w >= 257 * c { FromMono(b, 257 * c, w); }
    if k >= Stop(b, c, c) && w <= 257 * c { FromMono(b, w + 1, 257 * c + 1); }
  }

  lemma RowOrder(b: seq<Byte>, s: seq<int>, c: int, p: int, q: int)
    requires b != [] && RowSorted(b, s, c) && RowStart(b, c) <= p < q < RowStop(b, c)
    requires q < Start(b, c, c) || p >= Stop(b, c, c)
    ensures 0 <= p < q < |s| && Place(b, s[p]) <= Place(b, s[q]) && s[p] != s[q]
  {
    hide From, Place, Leq;
    RowEntry(b, s, c, p);
    RowEntry(b, s, c, q);
    var v, w := Pair(b, s[p]), Pair(b, s[q]);
    PairParts(b, s[p]);
    PairParts(b, s[q]);
    if v == w {
      assert SmallSorted(b, s, c, b[Succ(s[p], |b|)]);
      assert BucketSorted(b, s, v);
      KeyPlace(b, s[p]);
      KeyPlace(b, s[q]);
    } else if v < w {
      TwoBytes(b, s[p], s[q]);
      PlaceOrder(b, s[p], s[q]);
    } else {
      FromMono(b, w + 1, v);
    }
  }

  lemma KeyPlace(b: seq<Byte>, x: int)
    requires 0 <= x < |b|
    ensures Key(Places(b), 0, x) == Place(b, x)
  {
    PlaceOrder(b, x, x);
  }

  lemma RowPart(b: seq<Byte>, s: seq<int>, c: int, lo: int, hi: int, up: bool)
    requires b != [] && RowSorted(b, s, c) && 0 <= lo <= hi <= |s|
    requires RowStart(b, c) <= lo && hi <= RowStop(b, c) && (if up then lo >= Stop(b, c, c) else hi <= Start(b, c, c))
    ensures Chain(b, c, s[lo..hi], up)
    ensures forall k :: 0 <= k < hi - lo ==>
      0 <= s[lo..hi][k] < |b| && b[s[lo..hi][k]] == c && Leaves(b, c, s[lo..hi][k], up)
  {
    hide From, Place, OnSide, RowSorted, Leaves;
    var q := s[lo..hi];
    assert Filed(b, s) && 0 <= c < 256 by { RowSortedFiled(b, s, c); }
    forall k | 0 <= k < |q|
      ensures 0 <= q[k] < |b| && b[q[k]] == c && Leaves(b, c, q[k], up) && OnSide(b, c, q[k], up) {
      RowEntry(b, s, c, lo + k);
      LeavesIs(b, c, q[k], up);
      SideFirst(b, c, q[k], up);
    }
    forall i, j | 0 <= i < j < |q| ensures q[i] != q[j] && Place(b, q[i]) <= Place(b, q[j]) {
      RowOrder(b, s, c, lo + i, lo + j);
    }
  }

  lemma RowSortedFiled(b: seq<Byte>, s: seq<int>, c: int)
    requires b != [] && RowSorted(b, s, c)
    ensures Filed(b, s) && 0 <= c < 256
  {
  }

  lemma LeavesIs(b: seq<Byte>, c: int, x: int, up: bool)
    requires 0 <= x < |b|
    ensures Leaves(b, c, x, up) <==> if up then b[Succ(x, |b|)] > c else b[Succ(x, |b|)] < c
  {
  }

  ghost predicate StartsAt(b: seq<Byte>, c: int, cs: seq<int>, ce: seq<int>) {
    |cs| == 256 == |ce| && forall t :: 0 <= t < 256 ==> cs[t] == Start(b, t, c) && ce[t] == Stop(b, t, c) - 1
  }

  lemma FwdStart(b: seq<Byte>, s: seq<int>, big: seq<bool>, c: int, cs: seq<int>, ce: seq<int>)
    requires b != [] && RowSorted(b, s, c) && StartsAt(b, c, cs, ce) && |big| == 256
    ensures Fwd(b, s, s, big, c, cs, RowStart(b, c))
  {
    hide From, Place, OnSide, RowSorted, Leaves, Target, Chain;
    RowSortedFiled(b, s, c);
    FiledLength(b, s);
    RowBounds(b, c);
    RowPart(b, s, c, RowStart(b, c), Start(b, c, c), false);
    forall t | 0 <= t < 256 && !big[t] ensures LeftAt(b, s, c, t, cs[t], []) { StartStop(b, t, c); }
    assert s[RowStart(b, c)..RowStart(b, c)] == [];
    NoPreds(b, c);
  }

  lemma NoPreds(b: seq<Byte>, t: int)
    ensures Rotations(b, []) && Preds(b, [], t) == []
  {
  }

  // ----- Between the two scans -----

  lemma BwdStart(b: seq<Byte>, s0: seq<int>, s: seq<int>, big: seq<bool>, c: int, cs: seq<int>, ce: seq<int>)
    requires b != [] && RowSorted(b, s0, c) && |cs| == 256 == |ce| && 0 <= c < 256 && Fwd(b, s0, s, big, c, cs, cs[c])
    requires forall t :: 0 <= t < 256 ==> ce[t] == Stop(b, t, c) - 1
    ensures RowStart(b, c) <= cs[c] <= |s|
    ensures Bwd(b, s0, s, big, c, cs, ce, RowStop(b, c) - 1, s[RowStart(b, c)..cs[c]])
  {
    hide From, Place, OnSide, RowSorted, Leaves, GrowsUp, GrowsDown, Kept, Chain, LeftOk, RightOk;
    RowSortedFiled(b, s0, c);
    RowBounds(b, c);
    var l, hi := Stop(b, c, c), RowStop(b, c);
    DownStart(b, s0, c);
    EndUntouched(b, s0, s, big, c);
    NothingRight(b, s, big, c, cs, ce, s[RowStart(b, c)..cs[c]]);
    assert s[ce[c] + 1..hi] == s0[l..hi] && s[hi..hi] == [];
  }

  // Of the part that grows down, only the direct ones are there.
  lemma DownStart(b: seq<Byte>, s0: seq<int>, c: int)
    requires b != [] && RowSorted(b, s0, c)
    ensures 0 <= c < 256 && 0 <= Stop(b, c, c) <= RowStop(b, c) <= |s0|
    ensures var p := s0[Stop(b, c, c)..RowStop(b, c)]; GrowsDown(b, c, p, p, |p|)
  {
    hide From, Place, OnSide, RowSorted, Leaves, Chain;
    RowSortedFiled(b, s0, c);
    FiledLength(b, s0);
    RowBounds(b, c);
    var p := s0[Stop(b, c, c)..RowStop(b, c)];
    RowPart(b, s0, c, Stop(b, c, c), RowStop(b, c), true);
    NoPreds(b, c);
    assert p[|p|..] == [];
    assert Preds(b, p[|p|..], c) + p == p;
  }

  // The right parts are empty, and the left ones end before them.
  lemma NothingRight(b: seq<Byte>, s: seq<int>, big: seq<bool>, c: int, cs: seq<int>, ce: seq<int>, q: seq<int>)
    requires LeftOk(b, s, big, c, cs, q) && |s| == |b| && |ce| == 256
    requires forall t :: 0 <= t < 256 ==> ce[t] == Stop(b, t, c) - 1
    ensures Rotations(b, q) && RightOk(b, s, big, c, ce, [])
    ensures forall t :: 0 <= t < 256 && !big[t] ==> cs[t] <= ce[t] + 1
  {
    hide From, Preds;
    NoPreds(b, c);
    forall t | 0 <= t < 256 && !big[t] ensures RightAt(b, s, c, t, ce[t], []) && cs[t] <= ce[t] + 1 {
      StartStop(b, t, c);
      NoPreds(b, t);
      assert LeftAt(b, s, c, t, cs[t], q);
    }
  }

  lemma EndUntouched(b: seq<Byte>, s0: seq<int>, s: seq<int>, big: seq<bool>, c: int)
    requires Filed(b, s0) && Kept(b, s0, s, big, c) && 0 <= c < 256
    ensures Stop(b, c, c) <= RowStop(b, c) <= |s| == |s0|
    ensures s[Stop(b, c, c)..RowStop(b, c)] == s0[Stop(b, c, c)..RowStop(b, c)]
  {
    hide From;
    RowBounds(b, c);
    forall k | Stop(b, c, c) <= k < RowStop(b, c) ensures s[k] == s0[k] {
      RowEntry(b, s0, c, k);
      assert !Target(b, big, c, s0[k]);
    }
  }

  // ----- Nothing is missed -----

  // Every direct one stands at its end of the big bucket.
  lemma DirectOnes(b: seq<Byte>, s: seq<int>, c: int, y: int, up: bool)
    requires b != [] && Filed(b, s) && 0 <= c < 256 && 0 <= y < |b| && b[y] == c && Leaves(b, c, y, up)
    ensures RowStart(b, c) <= Start(b, c, c) <= Stop(b, c, c) <= RowStop(b, c) <= |s|
    ensures y in if up then s[Stop(b, c, c)..RowStop(b, c)] else s[RowStart(b, c)..Start(b, c, c)]
  {
    hide From, Filed;
    RowBounds(b, c);
    FiledLength(b, s);
    PairParts(b, y);
    LeavesIs(b, c, y, up);
    var w := Pair(b, y);
    var k := PlaceOf(b, s, y);
    if up {
      FromMono(b, 257 * c + 1, w);
      FromMono(b, w + 1, 256 * c + 256);
      assert s[Stop(b, c, c)..RowStop(b, c)][k - Stop(b, c, c)] == y;
    } else {
      FromMono(b, 256 * c, w);
      FromMono(b, w + 1, 257 * c);
      assert s[RowStart(b, c)..Start(b, c, c)][k - RowStart(b, c)] == y;
    }
  }

  // The finished list holds its whole side.
  ghost predicate Complete(b: seq<Byte>, c: int, q: seq<int>, up: bool) {
    forall x :: OnSide(b, c, x, up) ==> x in q
  }

  lemma UpComplete(b: seq<Byte>, s0: seq<int>, c: int, q: seq<int>)
    requires b != [] && Filed(b, s0) && 0 <= c < 256 && RowStart(b, c) <= Start(b, c, c) <= |s0|
    requires GrowsUp(b, c, s0[RowStart(b, c)..Start(b, c, c)], q, |q|)
    ensures Chain(b, c, q, false) && Complete(b, c, q, false)
  {
    hide From, Place, Filed, Leaves, Ascending;
    var p := s0[RowStart(b, c)..Start(b, c, c)];
    assert q[..|q|] == q;
    forall x | OnSide(b, c, x, false) ensures x in q {
      var r: nat :| Side(b, c, x, r, false);
      forall y | 0 <= y < |b| && b[y] == c && Leaves(b, c, y, false) ensures y in q {
        DirectOnes(b, s0, c, y, false);
        assert y in p;
      }
      WholeSide(b, c, q, x, r, false);
    }
  }

  lemma DownComplete(b: seq<Byte>, s0: seq<int>, c: int, q: seq<int>)
    requires b != [] && Filed(b, s0) && 0 <= c < 256 && Stop(b, c, c) <= RowStop(b, c) <= |s0|
    requires GrowsDown(b, c, s0[Stop(b, c, c)..RowStop(b, c)], q, 0)
    ensures Chain(b, c, q, true) && Complete(b, c, q, true)
  {
    hide From, Place, Filed, Leaves, Ascending;
    var p := s0[Stop(b, c, c)..RowStop(b, c)];
    assert q[0..] == q;
    forall x | OnSide(b, c, x, true) ensures x in q {
      var r: nat :| Side(b, c, x, r, true);
      forall y | 0 <= y < |b| && b[y] == c && Leaves(b, c, y, true) ensures y in q {
        DirectOnes(b, s0, c, y, true);
        assert y in p;
      }
      WholeSide(b, c, q, x, r, true);
    }
  }

  // ----- A filled bucket -----

  // Bucket w holds distinct rotations that begin with w.
  ghost predicate Filled(b: seq<Byte>, s: seq<int>, w: int) {
    && From(b, w + 1) <= |s|
    && (forall k :: From(b, w) <= k < From(b, w + 1) ==> 0 <= s[k] < |b| && Pair(b, s[k]) == w)
    && (forall p, q :: From(b, w) <= p < q < From(b, w + 1) ==> s[p] != s[q])
  }

  lemma FiledFilled(b: seq<Byte>, s: seq<int>, w: int)
    requires Filed(b, s)
    ensures Filled(b, s, w)
  {
    hide From, Pair, Filed;
    FiledLength(b, s);
    FromMono(b, w + 1, w + 1);
    forall k | From(b, w) <= k < From(b, w + 1) ensures 0 <= s[k] < |b| && Pair(b, s[k]) == w
      { BucketPair(b, s, w, k); }
    forall p, q | From(b, w) <= p < q < From(b, w + 1) ensures s[p] != s[q] { FiledDistinct(b, s); }
  }

  // Which bucket a place belongs to.
  lemma {:induction false} BucketOf(b: seq<Byte>, k: int, w: int) returns (v: int)
    requires 0 <= w && From(b, 0) <= k < From(b, w)
    ensures 0 <= v < w && From(b, v) <= k < From(b, v + 1)
  {
    hide From;
    if w == 0 { v := 0; }
    else if From(b, w - 1) <= k { v := w - 1; }
    else { v := BucketOf(b, k, w - 1); }
  }

  lemma FilledFiled(b: seq<Byte>, s: seq<int>)
    requires |s| == |b| && forall w :: 0 <= w < 65536 ==> Filled(b, s, w)
    ensures Filed(b, s)
  {
    hide From, Pair;
    FromEnds(b);
    forall k | 0 <= k < |b| ensures 0 <= s[k] < |b| && From(b, Pair(b, s[k])) <= k < From(b, Pair(b, s[k]) + 1) {
      var w := BucketOf(b, k, 65536);
      assert Filled(b, s, w);
    }
    forall p, q | 0 <= p < q < |b| ensures s[p] != s[q] {
      var v := BucketOf(b, p, 65536);
      var w := BucketOf(b, q, 65536);
      assert Filled(b, s, v) && Filled(b, s, w);
      if v == w { assert s[p] != s[q]; }
    }
  }

  // The members of a bucket are as many as it has places.
  lemma MembersFit(b: seq<Byte>, s: seq<int>, w: int, q: seq<int>)
    requires Filed(b, s) && forall x :: 0 <= x < |b| && Pair(b, x) == w ==> x in q
    ensures From(b, w + 1) - From(b, w) <= |q|
  {
    hide From, Pair;
    FiledFilled(b, s, w);
    FromMono(b, w, w + 1);
    var r := s[From(b, w)..From(b, w + 1)];
    forall k | 0 <= k < |r| ensures r[k] in q {}
    NoShorter(q, r);
  }

  lemma PredsJoin(b: seq<Byte>, c: int, t: int, q: seq<int>, u: seq<int>, z: int, x: int)
    requires Rotations(b, q) && Rotations(b, u) && Complete(b, c, q, false) && Complete(b, c, u, true)
    requires 0 <= z < |b| && b[z] != c && 0 <= x < |b| && Pair(b, x) == 256 * t + c && 0 <= t < 256 && 0 <= c < 256
    ensures x in Preds(b, q, t) + Preds(b, u, t)
  {
    hide Preds, OnSide, From;
    PairParts(b, x);
    SomeSide(b, c, Succ(x, |b|), z);
    PredsMember(b, q, t, x);
    PredsMember(b, u, t, x);
  }

  // The two parts meet.
  lemma PartsMeet(b: seq<Byte>, s0: seq<int>, s: seq<int>, c: int, t: int, k: int, l: int, q: seq<int>, u: seq<int>,
                  z: int)
    requires b != [] && Filed(b, s0) && Chain(b, c, q, false) && Chain(b, c, u, true)
    requires Complete(b, c, q, false) && Complete(b, c, u, true) && 0 <= z < |b| && b[z] != c && 0 <= t < 256
      && 0 <= c < 256
    requires LeftAt(b, s, c, t, k, q) && RightAt(b, s, c, t, l, u) && k <= l + 1
    ensures k == l + 1 && s[Start(b, t, c)..Stop(b, t, c)] == Preds(b, q, t) + Preds(b, u, t)
  {
    hide From, Preds, OnSide, Filed, Pair, Ascending, Distinct, Complete;
    var m, r := Preds(b, q, t), Preds(b, u, t);
    forall x | 0 <= x < |b| && Pair(b, x) == 256 * t + c ensures x in m + r { PredsJoin(b, c, t, q, u, z, x); }
    MembersFit(b, s0, 256 * t + c, m + r);
    StartStop(b, t, c);
    var lo, hi := Start(b, t, c), Stop(b, t, c);
    assert |m| == k - lo && |r| == hi - (l + 1);
    assert s[lo..hi] == s[lo..k] + s[k..hi];
  }

  // Together they are the bucket, in order.
  lemma JoinedFilled(b: seq<Byte>, s: seq<int>, c: int, t: int, q: seq<int>, u: seq<int>)
    requires b != [] && Chain(b, c, q, false) && Chain(b, c, u, true) && Start(b, t, c) <= Stop(b, t, c) <= |s|
    requires s[Start(b, t, c)..Stop(b, t, c)] == Preds(b, q, t) + Preds(b, u, t)
    ensures Filled(b, s, 256 * t + c) && BucketSorted(b, s, 256 * t + c)
  {
    hide From, Preds, OnSide, Pair, Ascending, Place, Distinct, Places, Key;
    ChainParts(b, c, q, false);
    ChainParts(b, c, u, true);
    var m, r, w, lo := Preds(b, q, t), Preds(b, u, t), 256 * t + c, Start(b, t, c);
    var all := m + r;
    PredsPairs(b, q, c, t);
    PredsPairs(b, u, c, t);
    forall i | 0 <= i < |all| ensures all[i] == s[lo + i] && 0 <= all[i] < |b| && Pair(b, all[i]) == w {
      assert all[i] == s[lo..Stop(b, t, c)][i];
    }
    forall i, j | 0 <= i < j < |all| ensures all[i] != all[j] && Place(b, all[i]) <= Place(b, all[j]) {
      JoinedOrder(b, c, t, q, u, i, j);
    }
    forall p, o | From(b, w) <= p < o < From(b, w + 1) ensures s[p] != s[o] && Place(b, s[p]) <= Place(b, s[o]) {
      assert all[p - lo] == s[p] && all[o - lo] == s[o];
    }
    forall k | From(b, w) <= k < From(b, w + 1)
      ensures 0 <= s[k] < |b| && Pair(b, s[k]) == w && Key(Places(b), 0, s[k]) == Place(b, s[k]) {
      assert all[k - lo] == s[k];
      KeyPlace(b, s[k]);
    }
    KeyedIn(b, s, From(b, w), From(b, w + 1) - 1);
  }

  lemma KeyedIn(b: seq<Byte>, s: seq<int>, lo: int, hi: int)
    requires b != [] && 0 <= lo && hi < |s| && forall k :: lo <= k <= hi ==> 0 <= s[k] < |b|
    ensures Keyed(s, Places(b), 0, lo, hi)
  {
  }

  lemma JoinedOrder(b: seq<Byte>, c: int, t: int, q: seq<int>, u: seq<int>, i: int, j: int)
    requires b != [] && Chain(b, c, q, false) && Chain(b, c, u, true)
    requires 0 <= i < j < |Preds(b, q, t) + Preds(b, u, t)|
    ensures var all := Preds(b, q, t) + Preds(b, u, t);
      0 <= all[i] < |b| && 0 <= all[j] < |b| && all[i] != all[j] && Place(b, all[i]) <= Place(b, all[j])
  {
    hide Preds, OnSide, Place;
    var m, r := Preds(b, q, t), Preds(b, u, t);
    PredsRange(b, q, t);
    PredsRange(b, u, t);
    if j < |m| {
      PredsDistinct(b, q, t);
      PredsAscending(b, q, t);
    } else if i >= |m| {
      PredsDistinct(b, u, t);
      PredsAscending(b, u, t);
      assert r[i - |m|] != r[j - |m|];
    } else {
      SidesOrder(b, c, t, q, u, m[i], r[j - |m|]);
    }
  }

  // One place before the lower side is one place before the upper side.
  lemma SidesOrder(b: seq<Byte>, c: int, t: int, q: seq<int>, u: seq<int>, x: int, y: int)
    requires b != [] && Chain(b, c, q, false) && Chain(b, c, u, true)
    requires x in Preds(b, q, t) && y in Preds(b, u, t)
    ensures 0 <= x < |b| && 0 <= y < |b| && x != y && Place(b, x) <= Place(b, y)
  {
    hide Preds, OnSide, Place, Distinct, Ascending;
    PredsMember(b, q, t, x);
    PredsMember(b, u, t, y);
    var n := |b|;
    var i :| 0 <= i < |q| && q[i] == Succ(x, n);
    var k :| 0 <= k < |u| && u[k] == Succ(y, n);
    NotBoth(b, c, Succ(y, n));
    LowFirst(b, c, Succ(x, n), Succ(y, n));
    PredOrder(b, x, y);
  }

  // The lower side comes before the upper side.
  lemma LowFirst(b: seq<Byte>, c: int, x: int, y: int)
    requires b != [] && OnSide(b, c, x, false) && OnSide(b, c, y, true)
    ensures Place(b, x) <= Place(b, y)
  {
    var r: nat :| Side(b, c, x, r, false);
    var r': nat :| Side(b, c, y, r', true);
    LowFirstBy(b, c, x, y, r, r');
  }

  lemma {:induction false} LowFirstBy(b: seq<Byte>, c: int, x: int, y: int, r: nat, r': nat)
    requires b != [] && 0 <= x < |b| && 0 <= y < |b| && Side(b, c, x, r, false) && Side(b, c, y, r', true)
    ensures Place(b, x) <= Place(b, y)
    decreases r
  {
    hide Place, Leq;
    var n := |b|;
    PredSucc(x, n);
    PredSucc(y, n);
    if b[Succ(x, n)] == c == b[Succ(y, n)] {
      LowFirstBy(b, c, Succ(x, n), Succ(y, n), r - 1, r' - 1);
      PredOrder(b, x, y);
    } else {
      TwoBytes(b, x, y);
      PlaceOrder(b, x, y);
    }
  }

  // ----- After both scans -----

  // Everything is filed again, the filled buckets are in order, the others as they were.
  ghost predicate Copied(b: seq<Byte>, s0: seq<int>, s: seq<int>, big: seq<bool>, c: int)
    requires b != []
  {
    && Filed(b, s) && |big| == 256
    && (forall t :: 0 <= t < 256 && !big[t] ==> SmallSorted(b, s, t, c))
    && (forall w :: 0 <= w < 65536 && !Fills(big, c, w) && BucketSorted(b, s0, w) ==> BucketSorted(b, s, w))
  }

  predicate Fills(big: seq<bool>, c: int, w: int) {
    |big| == 256 && 0 <= w < 65536 && w % 256 == c && !big[w / 256]
  }

  // A bucket that is not filled is as before.
  lemma OtherBucket(b: seq<Byte>, s0: seq<int>, s: seq<int>, big: seq<bool>, c: int, w: int)
    requires b != [] && Filed(b, s0) && Kept(b, s0, s, big, c) && |big| == 256 && 0 <= w < 65536 && !Fills(big, c, w)
    ensures Filled(b, s, w) && (BucketSorted(b, s0, w) ==> BucketSorted(b, s, w))
  {
    hide From, Pair, Places, Key, Filed;
    FiledFilled(b, s0, w);
    FromMono(b, w + 1, w + 1);
    forall k | From(b, w) <= k < From(b, w + 1) ensures s[k] == s0[k] {
      PairParts(b, s0[k]);
      assert !Target(b, big, c, s0[k]);
    }
  }

  lemma FillsParts(big: seq<bool>, c: int, w: int)
    requires Fills(big, c, w)
    ensures 0 <= w / 256 < 256 && w == 256 * (w / 256) + c && !big[w / 256]
  {
  }

  // One filled bucket at the end.
  lemma FilledAtEnd(b: seq<Byte>, s0: seq<int>, s: seq<int>, big: seq<bool>, c: int, cs: seq<int>, ce: seq<int>,
                    ql: seq<int>,
                    z: int, t: int)
    requires b != [] && Filed(b, s0) && Chain(b, c, ql, false) && Complete(b, c, ql, false) && 0 <= z < |b| && b[z] != c
    requires |cs| == 256 == |ce| && 0 <= c < 256 && Bwd(b, s0, s, big, c, cs, ce, ce[c], ql) && 0 <= t < 256 && !big[t]
    ensures cs[t] == ce[t] + 1 && Filled(b, s, 256 * t + c) && SmallSorted(b, s, t, c)
  {
    hide From, Preds, OnSide, Filed, Ascending, Distinct, Complete, Kept, LeftAt, RightAt, GrowsDown, BucketSorted,
      Filled;
    var hi := RowStop(b, c);
    var qr := s[ce[c] + 1..hi];
    FiledLength(b, s0);
    DownComplete(b, s0, c, qr);
    PartsMeet(b, s0, s, c, t, cs[t], ce[t], ql, qr, z);
    StartStop(b, t, c);
    JoinedFilled(b, s, c, t, ql, qr);
  }

  lemma MixedDone(b: seq<Byte>, s0: seq<int>, s: seq<int>, big: seq<bool>, c: int, cs: seq<int>, ce: seq<int>,
                  ql: seq<int>, z: int)
    requires b != [] && Filed(b, s0) && Chain(b, c, ql, false) && Complete(b, c, ql, false) && 0 <= z < |b| && b[z] != c
    requires |cs| == 256 == |ce| && 0 <= c < 256 && Bwd(b, s0, s, big, c, cs, ce, ce[c], ql)
    ensures Copied(b, s0, s, big, c) && (!big[c] ==> cs[c] - 1 == ce[c])
  {
    hide Filed, Chain, Complete, GrowsDown, LeftOk, RightOk, BucketSorted, Filled, Fills, Rotations, From;
    assert Kept(b, s0, s, big, c) && |big| == 256;
    forall t | 0 <= t < 256 && !big[t] ensures SmallSorted(b, s, t, c) && cs[t] == ce[t] + 1 {
      FilledAtEnd(b, s0, s, big, c, cs, ce, ql, z, t);
    }
    forall w | 0 <= w < 65536
      ensures Filled(b, s, w) && (!Fills(big, c, w) && BucketSorted(b, s0, w) ==> BucketSorted(b, s, w)) {
      if Fills(big, c, w) {
        FillsParts(big, c, w);
        FilledAtEnd(b, s0, s, big, c, cs, ce, ql, z, w / 256);
      } else {
        OtherBucket(b, s0, s, big, c, w);
      }
    }
    FilledFiled(b, s);
  }

  // ----- A block of one byte value -----

  lemma {:induction false} NothingSmaller(l: seq<int>, w: int)
    ensures (forall i :: 0 <= i < |l| ==> l[i] >= w) ==> Smaller(l, w) == 0
    ensures (forall i :: 0 <= i < |l| ==> l[i] < w) ==> Smaller(l, w) == |l|
  {
    if l != [] { NothingSmaller(l[..|l| - 1], w); }
  }

  lemma UniformRow(b: seq<Byte>, c: int)
    requires forall i :: 0 <= i < |b| ==> b[i] == c
    ensures RowStart(b, c) == 0 && RowStop(b, c) == |b|
  {
    hide Smaller;
    var l := Pairs(b);
    forall i | 0 <= i < |l| ensures 256 * c <= l[i] < 256 * c + 256 { PairParts(b, i); }
    NothingSmaller(l, 256 * c);
    NothingSmaller(l, 256 * c + 256);
  }

  lemma UniformChain(b: seq<Byte>, c: int, q: seq<int>, up: bool)
    requires b != [] && Chain(b, c, q, up) && forall i :: 0 <= i < |b| ==> b[i] == c
    ensures q == []
  {
    hide Place;
    if q != [] {
      var r: nat :| Side(b, c, q[0], r, up);
      UniformSide(b, c, q[0], r, up);
    }
  }

  lemma {:induction false} UniformSide(b: seq<Byte>, c: int, x: int, r: nat, up: bool)
    requires 0 <= x < |b| && forall i :: 0 <= i < |b| ==> b[i] == c
    ensures !Side(b, c, x, r, up)
    decreases r
  {
    PredSucc(x, |b|);
    if r > 0 { UniformSide(b, c, Succ(x, |b|), r - 1, up); }
  }

  lemma UniformPlaces(b: seq<Byte>, c: int, x: int, y: int)
    requires (forall i :: 0 <= i < |b| ==> b[i] == c) && 0 <= x < |b| && 0 <= y < |b|
    ensures Place(b, x) == Place(b, y)
  {
    hide Place;
    forall k: nat | k < |b| ensures At(b, x, k) == At(b, y, k) {}
    EqFromAt(b, x, y, |b|);
    LeqBoth(b, x, y);
    PlaceOrder(b, x, y);
    PlaceOrder(b, y, x);
  }

  lemma UniformSorted(b: seq<Byte>, s: seq<int>, c: int, w: int)
    requires b != [] && Filed(b, s) && forall i :: 0 <= i < |b| ==> b[i] == c
    ensures BucketSorted(b, s, w)
  {
    hide From, Place, Places, Key, Pair;
    FiledFilled(b, s, w);
    FiledLength(b, s);
    KeyedIn(b, s, From(b, w), From(b, w + 1) - 1);
    forall p, q | From(b, w) <= p < q <= From(b, w + 1) - 1 ensures Key(Places(b), 0, s[p]) <= Key(Places(b), 0, s[q]) {
      UniformPlaces(b, c, s[p], s[q]);
      KeyPlace(b, s[p]);
      KeyPlace(b, s[q]);
    }
  }

  lemma UniformDone(b: seq<Byte>, s0: seq<int>, s: seq<int>, big: seq<bool>, c: int, cs: seq<int>, ce: seq<int>,
                    ql: seq<int>)
    requires b != [] && Filed(b, s0) && Chain(b, c, ql, false) && forall i :: 0 <= i < |b| ==> b[i] == c
    requires |cs| == 256 == |ce| && 0 <= c < 256 && Bwd(b, s0, s, big, c, cs, ce, ce[c], ql)
    requires RowStart(b, c) <= cs[c] <= |s| && |ql| == cs[c] - RowStart(b, c)
    ensures Copied(b, s0, s, big, c) && cs[c] == 0 && ce[c] == |b| - 1
  {
    hide From, Filed, Chain, LeftOk, RightOk, Kept, BucketSorted;
    UniformRow(b, c);
    UniformChain(b, c, ql, false);
    UniformChain(b, c, s[ce[c] + 1..RowStop(b, c)], true);
    assert s == s0;
    forall w ensures BucketSorted(b, s, w) { UniformSorted(b, s, c, w); }
  }

  // ----- The scans -----

  lemma FwdBounds(b: seq<Byte>, s0: seq<int>, s: seq<int>, big: seq<bool>, c: int, cs: seq<int>, j: int)
    requires b != [] && Fwd(b, s0, s, big, c, cs, j)
    ensures |s| == |b| && |big| == 256 == |cs| && 0 <= RowStart(b, c) <= j <= cs[c] <= |b|
  {
    hide From;
  }

  method CopyUp(ptr: array<int>, block: array<Byte>, bigDone: array<bool>, copyStart: array<int>, from: int, ss: int,
                nblock: nat, ghost b: seq<Byte>, ghost s0: seq<int>)
    requires ptr != copyStart && bigDone.Length == 256 == copyStart.Length && 0 <= ss < 256
    requires b != [] && nblock == |b| == ptr.Length <= block.Length && block[..nblock] == b && Filed(b, s0)
    requires from == RowStart(b, ss) && !bigDone[ss] && Fwd(b, s0, ptr[..], bigDone[..], ss, copyStart[..], from)
    modifies ptr, copyStart
    ensures copyStart[ss] >= 0 && Fwd(b, s0, ptr[..], bigDone[..], ss, copyStart[..], copyStart[ss])
  {
    hide Fwd, Filed, From;
    ghost var big := bigDone[..];
    var j := from;
    FwdBounds(b, s0, ptr[..], big, ss, copyStart[..], j);
    while j < copyStart[ss]
      invariant 0 <= j <= copyStart[ss] <= |b| && Fwd(b, s0, ptr[..], big, ss, copyStart[..], j)
      decreases |b| - j
    {
      ghost var p, cs := ptr[..], copyStart[..];
      FwdStep(b, s0, p, big, ss, cs, j);
      var k := ptr[j] - 1;
      if k < 0 { k := k + nblock; }
      var c1 := block[k];
      assert c1 == block[..nblock][k] == b[k];
      if !bigDone[c1] {
        ptr[copyStart[c1]] := k;
        copyStart[c1] := copyStart[c1] + 1;
        assert ptr[..] == p[cs[c1] := k] && copyStart[..] == cs[c1 := cs[c1] + 1];
      }
      j := j + 1;
      FwdBounds(b, s0, ptr[..], big, ss, copyStart[..], j);
    }
  }

  lemma BwdBounds(b: seq<Byte>, s0: seq<int>, s: seq<int>, big: seq<bool>, c: int, cs: seq<int>, ce: seq<int>, j: int,
                  ql: seq<int>)
    requires b != [] && Bwd(b, s0, s, big, c, cs, ce, j, ql)
    ensures |s| == |b| && |big| == 256 == |cs| == |ce| && 0 <= c < 256 && -1 <= ce[c] <= j < RowStop(b, c) <= |b|
  {
    hide From;
  }

  method CopyDown(ptr: array<int>, block: array<Byte>, bigDone: array<bool>, copyEnd: array<int>, from: int, ss: int,
                  nblock: nat, ghost b: seq<Byte>, ghost s0: seq<int>, ghost cs: seq<int>, ghost ql: seq<int>)
    requires ptr != copyEnd && bigDone.Length == 256 == copyEnd.Length && 0 <= ss < 256
    requires b != [] && nblock == |b| == ptr.Length <= block.Length && block[..nblock] == b && Filed(b, s0)
    requires !bigDone[ss] && Chain(b, ss, ql, false) && Bwd(b, s0, ptr[..], bigDone[..], ss, cs, copyEnd[..], from, ql)
    modifies ptr, copyEnd
    ensures Bwd(b, s0, ptr[..], bigDone[..], ss, cs, copyEnd[..], copyEnd[ss], ql)
  {
    hide Bwd, Filed, From, Chain;
    ghost var big := bigDone[..];
    var j := from;
    BwdBounds(b, s0, ptr[..], big, ss, cs, copyEnd[..], j, ql);
    while j > copyEnd[ss]
      invariant -1 <= copyEnd[ss] <= j < |b| && Bwd(b, s0, ptr[..], big, ss, cs, copyEnd[..], j, ql)
      decreases j
    {
      ghost var p, ce := ptr[..], copyEnd[..];
      BwdStep(b, s0, p, big, ss, cs, ce, j, ql);
      var k := ptr[j] - 1;
      if k < 0 { k := k + nblock; }
      var c1 := block[k];
      assert c1 == block[..nblock][k] == b[k];
      if !bigDone[c1] {
        ptr[copyEnd[c1]] := k;
        copyEnd[c1] := copyEnd[c1] - 1;
        assert ptr[..] == p[ce[c1] := k] && copyEnd[..] == ce[c1 := ce[c1] - 1];
      }
      j := j - 1;
      BwdBounds(b, s0, ptr[..], big, ss, cs, copyEnd[..], j, ql);
    }
  }
}
