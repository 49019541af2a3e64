// Why Huffman's lengths are the best (dep/bzip2/huffman.c): always joining the two lightest trees
// gives the leaves lengths that no other lengths with room for one another undercut.
module BzHuffmanOptimal {
  import opened Bits
  import opened BzKraft

  // ----- The forest after every step -----

  // Node j is a root of the forest that has the nodes up to k.
  predicate RootAt(p: seq<int>, k: int, j: int) {
    1 <= j <= k && j < |p| && (p[j] == -1 || p[j] > k)
  }

  // Node k joins two roots, the lightest and the lightest of the others, and weighs what they weigh.
  ghost predicate JoinsLightest(v: seq<int>, p: seq<int>, c: (int, int), k: int) {
    && |v| == |p| && 1 <= k < |p| && RootAt(p, k - 1, c.0) && RootAt(p, k - 1, c.1) && c.0 != c.1
    && v[k] == v[c.0] + v[c.1]
    && (forall j :: RootAt(p, k - 1, j) ==> v[c.0] <= v[j])
    && (forall j :: RootAt(p, k - 1, j) && j != c.0 ==> v[c.1] <= v[j])
  }

  ghost predicate Greedy(v: seq<int>, p: seq<int>, kids: seq<(int, int)>, alpha: int, m: int) {
    && 0 <= alpha <= m < |p| == |v| && |kids| == m - alpha
    && forall k :: alpha < k <= m ==> JoinedAt(v, p, kids, alpha, k)
  }

  ghost predicate JoinedAt(v: seq<int>, p: seq<int>, kids: seq<(int, int)>, alpha: int, k: int) {
    alpha < k <= alpha + |kids| && JoinsLightest(v, p, kids[k - alpha - 1], k)
  }

  // Exactly the two children of a node above alpha have it for a parent, and a root it is until it gets one.
  ghost predicate Wired(p: seq<int>, kids: seq<(int, int)>, alpha: int, m: int) {
    && 1 <= alpha <= m < |p| && |kids| == m - alpha && p[m] == -1
    && (forall j :: 1 <= j < m ==> j < p[j] <= m && alpha < p[j])
    && (forall k :: alpha < k <= m ==> CoupledAt(p, kids, alpha, k))
    && (forall j :: 1 <= j < m ==> IsKid(p, kids, alpha, j))
  }

  predicate CoupledAt(p: seq<int>, kids: seq<(int, int)>, alpha: int, k: int) {
    && alpha < k <= alpha + |kids| && k < |p|
    && var c := kids[k - alpha - 1];
      1 <= c.0 < k && 1 <= c.1 < k && c.0 != c.1 && p[c.0] == k && p[c.1] == k
  }

  predicate IsKid(p: seq<int>, kids: seq<(int, int)>, alpha: int, j: int) {
    && 0 <= j < |p| && alpha < p[j] <= alpha + |kids|
    && (j == kids[p[j] - alpha - 1].0 || j == kids[p[j] - alpha - 1].1)
  }

  // The roots after step k have lengths, and no other nodes.
  ghost predicate There(lens: seq<int>, p: seq<int>, k: int) {
    |lens| == |p| && forall j :: 0 <= j < |lens| ==> (lens[j] >= 0 <==> RootAt(p, k, j))
  }

  // The roots change by one step: two go and the new node comes.
  lemma RootsNext(p: seq<int>, kids: seq<(int, int)>, alpha: int, m: int, k: int, j: int)
    requires Wired(p, kids, alpha, m) && alpha < k <= m < |p| && 0 <= j < |p|
    ensures var c := kids[k - alpha - 1];
      RootAt(p, k, j) <==> if j == k then true else RootAt(p, k - 1, j) && j != c.0 && j != c.1
    ensures var c := kids[k - alpha - 1];
      1 <= c.0 < k && 1 <= c.1 < k && c.0 != c.1 && RootAt(p, k - 1, c.0) && RootAt(p, k - 1, c.1)
    ensures !RootAt(p, k - 1, k)
  {
    assert CoupledAt(p, kids, alpha, k);
    if 1 <= j < m && p[j] == k { assert IsKid(p, kids, alpha, j); }
  }

  // The weights of the nodes after k.
  function Inner(v: seq<int>, k: int, m: int): int
    requires 0 <= k && m < |v|
    decreases m - k
  {
    if k >= m then 0 else v[k + 1] + Inner(v, k + 1, m)
  }

  // ----- No lengths are better -----

  // One step: lengths for the roots before give lengths for the roots after that cost less by the weight
  // of the new node.
  lemma StepDown(v: seq<int>, p: seq<int>, kids: seq<(int, int)>, alpha: int, m: int, k: int, lens: seq<int>, l: nat)
    returns (lens': seq<int>, l': nat)
    requires Greedy(v, p, kids, alpha, m) && Wired(p, kids, alpha, m) && alpha < k <= m
    requires There(lens, p, k - 1) && Fit(lens, l) && forall i :: 0 <= i < |v| ==> v[i] >= 0
    ensures There(lens', p, k) && Fit(lens', l') && Cost(v, lens') <= Cost(v, lens) - v[k]
  {
    hide Kraft, Cost, Share, Wired, Fit, RootAt;
    var c := kids[k - alpha - 1];
    assert JoinedAt(v, p, kids, alpha, k);
    RootsNext(p, kids, alpha, m, k, k);
    LightestHere(v, p, c, k, lens);
    var s, x, y;
    s, l', x, y := TwoDeepest(v, lens, l, c.0, c.1);
    LightestSame(v, lens, s, c.0, c.1);
    var t := LightestDeepest(v, s, l', c.0, c.1, x, y);
    MergeFits(v, t, l', c.0, c.1, k);
    lens' := t[c.0 := -1][c.1 := -1][k := l' - 1];
    forall j | 0 <= j < |lens'| ensures lens'[j] >= 0 <==> RootAt(p, k, j) {
      RootsNext(p, kids, alpha, m, k, j);
    }
  }

  lemma LightestHere(v: seq<int>, p: seq<int>, c: (int, int), k: int, lens: seq<int>)
    requires JoinsLightest(v, p, c, k) && There(lens, p, k - 1) && 1 <= c.0 < k && 1 <= c.1 < k
    ensures LightestTwo(v, lens, c.0, c.1)
  {
    hide RootAt;
  }

  lemma {:induction false} NoneBetter(v: seq<int>, p: seq<int>, kids: seq<(int, int)>, alpha: int, m: int, k: int,
                                      lens: seq<int>, l: nat)
    requires Greedy(v, p, kids, alpha, m) && Wired(p, kids, alpha, m) && alpha <= k <= m
    requires There(lens, p, k) && Fit(lens, l) && forall i :: 0 <= i < |v| ==> v[i] >= 0
    ensures Cost(v, lens) >= Inner(v, k, m)
    decreases m - k
  {
    hide Kraft, Cost, Share, Wired, Fit, RootAt, Greedy, There;
    if k == m {
      GreedySizes(v, p, kids, alpha, m);
      ThereSize(lens, p, k);
      CostNat(v, lens);
    } else {
      GreedySizes(v, p, kids, alpha, m);
      var lens', l' := StepDown(v, p, kids, alpha, m, k + 1, lens, l);
      NoneBetter(v, p, kids, alpha, m, k + 1, lens', l');
    }
  }

  lemma GreedySizes(v: seq<int>, p: seq<int>, kids: seq<(int, int)>, alpha: int, m: int)
    requires Greedy(v, p, kids, alpha, m)
    ensures 0 <= alpha <= m < |p| == |v|
  {
  }

  lemma ThereSize(lens: seq<int>, p: seq<int>, k: int)
    requires There(lens, p, k)
    ensures |lens| == |p|
  {
  }

  lemma {:induction false} CostNat(v: seq<int>, lens: seq<int>)
    requires |v| == |lens| && forall i :: 0 <= i < |v| ==> v[i] >= 0
    ensures Cost(v, lens) >= 0
  {
    if lens != [] { CostNat(v[..|v| - 1], lens[..|lens| - 1]); }
  }

  // ----- What the tree itself costs -----

  // Depths from the root m down.
  ghost predicate Depths(dep: seq<int>, kids: seq<(int, int)>, alpha: int, m: int) {
    && 0 <= alpha <= m < |dep| && |kids| == m - alpha && dep[m] == 0
    && (forall j :: 0 <= j < |dep| ==> dep[j] >= 0)
    && forall k :: alpha < k <= m ==> OneDeeper(dep, kids, alpha, k)
  }

  predicate OneDeeper(dep: seq<int>, kids: seq<(int, int)>, alpha: int, k: int) {
    && alpha < k <= alpha + |kids| && 0 <= k < |dep|
    && var c := kids[k - alpha - 1];
      0 <= c.0 < |dep| && 0 <= c.1 < |dep| && dep[c.0] == dep[k] + 1 == dep[c.1]
  }

  function DepthsAt(p: seq<int>, dep: seq<int>, k: int): (s: seq<int>)
    requires |dep| == |p|
    ensures |s| == |p|
  {
    seq(|p|, j requires 0 <= j < |p| => if RootAt(p, k, j) then dep[j] else -1)
  }

  lemma {:induction false} TreeCost(v: seq<int>, p: seq<int>, kids: seq<(int, int)>, alpha: int, m: int, dep: seq<int>,
                                    k: int)
    requires Greedy(v, p, kids, alpha, m) && Wired(p, kids, alpha, m) && alpha <= k <= m
    requires Depths(dep, kids, alpha, m) && |dep| == |p|
    ensures Cost(v, DepthsAt(p, dep, k)) == Inner(v, k, m)
    decreases m - k
  {
    hide Cost, Wired, RootAt;
    if k == m {
      RootOnly(p, kids, alpha, m, dep);
      CostZero(v, DepthsAt(p, dep, m));
    } else {
      TreeCost(v, p, kids, alpha, m, dep, k + 1);
      var c := kids[k - alpha];
      assert JoinedAt(v, p, kids, alpha, k + 1) && OneDeeper(dep, kids, alpha, k + 1);
      var s := DepthsAt(p, dep, k + 1);
      var d := dep[k + 1];
      RootsNext(p, kids, alpha, m, k + 1, k + 1);
      RootsNext(p, kids, alpha, m, k + 1, c.0);
      RootsNext(p, kids, alpha, m, k + 1, c.1);
      forall j | 0 <= j < |p|
        ensures DepthsAt(p, dep, k)[j] == s[k + 1 := -1][c.0 := d + 1][c.1 := d + 1][j]
      {
        RootsNext(p, kids, alpha, m, k + 1, j);
      }
      assert DepthsAt(p, dep, k) == s[k + 1 := -1][c.0 := d + 1][c.1 := d + 1];
      CostUpdate(v, s, k + 1, -1);
      CostUpdate(v, s[k + 1 := -1], c.0, d + 1);
      CostUpdate(v, s[k + 1 := -1][c.0 := d + 1], c.1, d + 1);
      OneMore(v[c.0], v[c.1], d);
    }
  }

  lemma OneMore(a: int, b: int, d: int)
    ensures a * (d + 1) + b * (d + 1) == (a + b) * d + (a + b)
  {
  }

  // After the last step only the root is left.
  lemma RootOnly(p: seq<int>, kids: seq<(int, int)>, alpha: int, m: int, dep: seq<int>)
    requires Wired(p, kids, alpha, m) && |dep| == |p| && dep[m] == 0
    ensures forall j :: 0 <= j < |p| ==> DepthsAt(p, dep, m)[j] <= 0
  {
  }

  lemma {:induction false} CostZero(v: seq<int>, lens: seq<int>)
    requires |v| == |lens| && forall i :: 0 <= i < |lens| ==> lens[i] <= 0
    ensures Cost(v, lens) == 0
  {
    if lens != [] { CostZero(v[..|v| - 1], lens[..|lens| - 1]); }
  }

  // ----- The leaves -----

  // Lengths for the leaves alone.
  function Widened(t: seq<int>, n: nat): (s: seq<int>)
    requires |t| < n
    ensures |s| == n
  {
    [-1] + t + seq(n - 1 - |t|, _ => -1)
  }

  lemma {:induction false} KraftJoin(a: seq<int>, b: seq<int>, l: nat)
    ensures Kraft(a + b, l) == Kraft(a, l) + Kraft(b, l)
  {
    hide Share;
    if b == [] { assert a + b == a; }
    else {
      KraftJoin(a, b[..|b| - 1], l);
      assert (a + b)[..|a + b| - 1] == a + b[..|b| - 1];
    }
  }

  lemma {:induction false} KraftNone(a: seq<int>, l: nat)
    requires forall i :: 0 <= i < |a| ==> a[i] < 0
    ensures Kraft(a, l) == 0
  {
    if a != [] { KraftNone(a[..|a| - 1], l); }
  }

  lemma {:induction false} CostJoin(v: seq<int>, w: seq<int>, a: seq<int>, b: seq<int>)
    requires |v| == |a| && |w| == |b|
    ensures Cost(v + w, a + b) == Cost(v, a) + Cost(w, b)
  {
    if b == [] { assert a + b == a && v + w == v; }
    else {
      CostJoin(v, w[..|w| - 1], a, b[..|b| - 1]);
      assert (a + b)[..|a + b| - 1] == a + b[..|b| - 1];
      assert (v + w)[..|v + w| - 1] == v + w[..|w| - 1];
    }
  }

  lemma WidenedFacts(v: seq<int>, t: seq<int>, l: nat)
    requires |t| < |v|
    ensures Cost(v, Widened(t, |v|)) == Cost(v[1..|t| + 1], t) && Kraft(Widened(t, |v|), l) == Kraft(t, l)
  {
    hide Kraft, Cost;
    var tail := seq(|v| - 1 - |t|, _ => -1);
    KraftJoin([-1] + t, tail, l);
    KraftJoin([-1], t, l);
    KraftNone([-1], l);
    KraftNone(tail, l);
    assert v == v[..1] + v[1..|t| + 1] + v[|t| + 1..];
    CostJoin(v[..1] + v[1..|t| + 1], v[|t| + 1..], [-1] + t, tail);
    CostJoin(v[..1], v[1..|t| + 1], [-1], t);
    CostZero(v[..1], [-1]);
    CostZero(v[|t| + 1..], tail);
  }

  // No lengths with room for one another have a smaller weighted sum.
  ghost predicate Optimal(v: seq<int>, lens: seq<int>) {
    && |v| == |lens|
    && forall t: seq<int>, l: nat :: |t| == |v| && (forall i :: 0 <= i < |t| ==> t[i] >= 0) && Fit(t, l) ==>
      Cost(v, lens) <= Cost(v, t)
  }

  // The depths of the leaves of the tree are optimal lengths for their weights.
  lemma LeavesOptimal(v: seq<int>, p: seq<int>, kids: seq<(int, int)>, alpha: int, m: int, dep: seq<int>,
                      lens: seq<int>)
    requires Greedy(v, p, kids, alpha, m) && Wired(p, kids, alpha, m) && Depths(dep, kids, alpha, m) && |dep| == |p|
    requires |lens| == alpha < |v| && (forall i :: 0 <= i < |v| ==> v[i] >= 0)
    requires forall i :: 0 <= i < alpha ==> lens[i] == dep[i + 1]
    ensures Optimal(v[1..alpha + 1], lens)
  {
    hide Cost, Kraft, Share, Greedy, Depths, Fit;
    TreeCost(v, p, kids, alpha, m, dep, alpha);
    LeavesAt(p, kids, alpha, m);
    assert DepthsAt(p, dep, alpha) == Widened(lens, |v|) by {
      assert |v| == |p| by { GreedySizes(v, p, kids, alpha, m); }
    }
    WidenedFacts(v, lens, 0);
    forall t: seq<int>, l: nat | |t| == alpha && (forall i :: 0 <= i < |t| ==> t[i] >= 0) && Fit(t, l)
      ensures Cost(v[1..alpha + 1], lens) <= Cost(v[1..alpha + 1], t)
    {
      WidenedFacts(v, t, l);
      WidenedFit(v, t, l);
      assert There(Widened(t, |v|), p, alpha) by { GreedySizes(v, p, kids, alpha, m); }
      NoneBetter(v, p, kids, alpha, m, alpha, Widened(t, |v|), l);
    }
  }

  lemma WidenedFit(v: seq<int>, t: seq<int>, l: nat)
    requires |t| < |v| && Fit(t, l) && Kraft(Widened(t, |v|), l) == Kraft(t, l)
    ensures Fit(Widened(t, |v|), l)
  {
    hide Kraft;
  }

  // At first the roots are the leaves.
  lemma LeavesAt(p: seq<int>, kids: seq<(int, int)>, alpha: int, m: int)
    requires Wired(p, kids, alpha, m)
    ensures forall j :: 0 <= j < |p| ==> (RootAt(p, alpha, j) <==> 1 <= j <= alpha)
  {
  }
}
