// Choosing Huffman code lengths (dep/bzip2/huffman.c): a heap of weights with the depth
// packed in the low byte, a parent array, and retries with halved weights until
// no code is longer than the limit.
module BzHuffmanLengths {
  import opened Bits
  import opened Rearranging
  import opened BzKraft
  import opened BzHuffmanOptimal

  const MAX_ALPHA_SIZE := 258

  // ----- Packed words: weight above, depth in the low byte -----

  function Weight(p: int): int {
    p / 256
  }

  function Depth(p: int): int {
    p % 256
  }

  function Max(a: int, b: int): int {
    if a > b then a else b
  }

  function AddWeights(a: nat, b: nat): nat {
    Or(1 + Max(Depth(a), Depth(b)), (Weight(a) + Weight(b)) * 256)
  }

  // The byte does not spill into the weight as long as it stays below 256.
  lemma AddWeightsIs(a: nat, b: nat)
    requires Depth(a) < 255 && Depth(b) < 255
    ensures Weight(AddWeights(a, b)) == Weight(a) + Weight(b)
    ensures Depth(AddWeights(a, b)) == 1 + Max(Depth(a), Depth(b))
  {
    OrShifted(1 + Max(Depth(a), Depth(b)), Weight(a) + Weight(b));
  }

  // ----- Fibonacci numbers bound the weight of a deep tree -----

  function Fib(n: nat): (r: nat)
    ensures n >= 1 ==> r >= 1
  {
    if n < 2 then n else Fib(n - 1) + Fib(n - 2)
  }

  lemma {:induction false} FibMono(m: nat, n: nat)
    requires m <= n
    ensures Fib(m) <= Fib(n)
  {
    if m < n { FibMono(m, n - 1); }
  }

  lemma FibValues()
    ensures Fib(15) == 610 && Fib(35) == 9227465
  {
    hide Fib;
    FibTo18();
    FibTo27();
    FibThree(27);
    FibThree(30);
    FibThree(33);
  }

  lemma FibTo18()
    ensures Fib(15) == 610 && Fib(17) == 1597 && Fib(18) == 2584
  {
    assert Fib(2) == 1 && Fib(3) == 2 && Fib(4) == 3 && Fib(5) == 5 && Fib(6) == 8 && Fib(7) == 13;
    assert Fib(8) == 21 && Fib(9) == 34 && Fib(10) == 55 && Fib(11) == 89 && Fib(12) == 144 && Fib(13) == 233;
    assert Fib(14) == 377 && Fib(15) == 610 && Fib(16) == 987;
  }

  lemma FibTo27()
    ensures Fib(26) == 121393 && Fib(27) == 196418
  {
    hide Fib;
    FibTo18();
    FibThree(18);
    FibThree(21);
    FibThree(24);
  }

  // Three steps on.
  lemma FibThree(n: nat)
    requires n >= 1
    ensures Fib(n + 1) == Fib(n) + Fib(n - 1)
    ensures Fib(n + 2) == 2 * Fib(n) + Fib(n - 1) && Fib(n + 3) == 3 * Fib(n) + 2 * Fib(n - 1)
  {
  }

  // ----- The heap -----

  ghost predicate Indexed(h: seq<int>, w: seq<int>, n: int) {
    0 <= n < |h| && forall z :: 0 <= z <= n ==> 0 <= h[z] < |w| && w[h[z]] >= 0
  }

  ghost predicate Descends(h: seq<int>, w: seq<int>, n: int)
    requires Indexed(h, w, n)
  {
    forall z :: 2 <= z <= n ==> w[h[z / 2]] <= w[h[z]]
  }

  ghost predicate HeapOrder(h: seq<int>, w: seq<int>, n: int) {
    Indexed(h, w, n) && Descends(h, w, n)
  }

  lemma {:induction false} RootMin(h: seq<int>, w: seq<int>, n: int, z: int)
    requires HeapOrder(h, w, n) && 1 <= z <= n
    ensures w[h[1]] <= w[h[z]]
    decreases z
  {
    if z > 1 { RootMin(h, w, n, z / 2); }
  }

  // Ordered except that the entry at zz may be too light for its place.
  ghost predicate MayRise(v: seq<int>, w: seq<int>, n: int, zz: int) {
    && Indexed(v, w, n) && 1 <= zz <= n
    && (forall z :: 2 <= z <= n && z != zz ==> w[v[z / 2]] <= w[v[z]])
    && (forall c :: 2 <= c <= n && c / 2 == zz && zz >= 2 ==> w[v[zz / 2]] <= w[v[c]])
  }

  lemma RiseStep(v: seq<int>, w: seq<int>, n: int, zz: int)
    requires MayRise(v, w, n, zz) && zz >= 2 && w[v[zz]] < w[v[zz / 2]]
    ensures MayRise(v[zz := v[zz / 2]][zz / 2 := v[zz]], w, n, zz / 2)
  {
  }

  lemma RiseEnd(v: seq<int>, w: seq<int>, n: int, zz: int)
    requires MayRise(v, w, n, zz) && (zz >= 2 ==> w[v[zz / 2]] <= w[v[zz]])
    ensures HeapOrder(v, w, n)
  {
  }

  // Ordered except that the entry at zz may be too heavy for its place.
  ghost predicate MaySink(v: seq<int>, w: seq<int>, n: int, zz: int) {
    && Indexed(v, w, n) && 1 <= zz < |v| && (n >= 1 ==> zz <= n)
    && (forall z :: 2 <= z <= n && z / 2 != zz ==> w[v[z / 2]] <= w[v[z]])
    && (forall c :: 2 <= c <= n && c / 2 == zz && zz >= 2 ==> w[v[zz / 2]] <= w[v[c]])
  }

  lemma SinkStep(v: seq<int>, w: seq<int>, n: int, zz: int, yy: int)
    requires MaySink(v, w, n, zz) && (yy == 2 * zz || yy == 2 * zz + 1) && yy <= n
    requires w[v[yy]] <= w[v[zz]]
    requires 2 * zz <= n ==> w[v[yy]] <= w[v[2 * zz]]
    requires 2 * zz + 1 <= n ==> w[v[yy]] <= w[v[2 * zz + 1]]
    ensures MaySink(v[zz := v[yy]][yy := v[zz]], w, n, yy)
  {
    forall z | 2 <= z <= n && z / 2 == zz ensures z == 2 * zz || z == 2 * zz + 1 { }
  }

  lemma SinkEnd(v: seq<int>, w: seq<int>, n: int, zz: int)
    requires MaySink(v, w, n, zz)
    requires 2 * zz <= n ==> w[v[zz]] <= w[v[2 * zz]]
    requires 2 * zz + 1 <= n ==> w[v[zz]] <= w[v[2 * zz + 1]]
    ensures HeapOrder(v, w, n)
  {
    forall z | 2 <= z <= n && z / 2 == zz ensures z == 2 * zz || z == 2 * zz + 1 { }
  }

  // h has a hole at zz: with tmp in it, it rearranges s and only tmp may have to rise.
  ghost predicate Rising(s: seq<int>, h: seq<int>, w: seq<int>, n: int, zz: int, tmp: int) {
    1 <= zz <= n < |h| && MayRise(h[zz := tmp], w, n, zz) && PermRange(s, h[zz := tmp], 1, n)
  }

  lemma RisingFacts(s: seq<int>, h: seq<int>, w: seq<int>, n: int, zz: int, tmp: int)
    requires Rising(s, h, w, n, zz, tmp)
    ensures 1 <= zz <= n < |h| && 0 <= tmp < |w| && 0 <= h[zz / 2] < |w| && w[tmp] >= 0
    ensures h[0] == 0 && w[0] == 0 && w[tmp] < w[h[zz / 2]] ==> zz >= 2
    ensures !(w[tmp] < w[h[zz / 2]]) ==> HeapOrder(h[zz := tmp], w, n) && PermRange(s, h[zz := tmp], 1, n)
  {
    hide PermRange;
    var v := h[zz := tmp];
    assert v[zz] == tmp && v[zz / 2] == h[zz / 2];
    if !(w[tmp] < w[h[zz / 2]]) { RiseEnd(v, w, n, zz); }
  }

  lemma Risen(s: seq<int>, h: seq<int>, w: seq<int>, n: int, zz: int, tmp: int)
    requires Rising(s, h, w, n, zz, tmp) && zz >= 2 && 0 <= tmp < |w| && 0 <= h[zz / 2] < |w| && w[tmp] < w[h[zz / 2]]
    ensures Rising(s, h[zz := h[zz / 2]], w, n, zz / 2, tmp)
  {
    hide PermRange, MayRise;
    var v := h[zz := tmp];
    var g := v[zz := v[zz / 2]][zz / 2 := v[zz]];
    assert g == h[zz := h[zz / 2]][zz / 2 := tmp];
    RiseStep(v, w, n, zz);
    SwapPerm(v, zz, zz / 2, 1, n);
    PermTrans(s, v, g, 1, n);
  }

  lemma RisingStart(h: seq<int>, w: seq<int>, n: int)
    requires 1 <= n < |h| && Indexed(h, w, n) && HeapOrder(h, w, n - 1)
    ensures Rising(h, h, w, n, n, h[n])
  {
    assert h[n := h[n]] == h;
    PermRefl(h, 1, n);
  }

  // UPHEAP: the last entry rises to its place; entry 0 is a sentinel of weight 0.
  method UpHeap(heap: array<int>, weight: array<int>, n: int)
    requires heap != weight && 1 <= n < heap.Length && Indexed(heap[..], weight[..], n)
    requires HeapOrder(heap[..], weight[..], n - 1) && heap[0] == 0 && weight.Length > 0 && weight[0] == 0
    modifies heap
    ensures HeapOrder(heap[..], weight[..], n) && PermRange(old(heap[..]), heap[..], 1, n)
  {
    ghost var s, w := heap[..], weight[..];
    RisingStart(s, w, n);
    hide PermRange, HeapOrder, Rising, Indexed;
    var zz := n;
    var tmp := heap[zz];
    RisingFacts(s, s, w, n, zz, tmp);
    while weight[tmp] < weight[heap[zz / 2]]
      invariant Rising(s, heap[..], w, n, zz, tmp) && weight[..] == w && heap[0] == 0
      invariant 1 <= zz <= n && 0 <= tmp < weight.Length && 0 <= heap[zz / 2] < weight.Length
      decreases zz
    {
      ghost var h := heap[..];
      RisingFacts(s, h, w, n, zz, tmp);
      Risen(s, h, w, n, zz, tmp);
      heap[zz] := heap[zz / 2];
      assert heap[..] == h[zz := h[zz / 2]];
      zz := zz / 2;
      RisingFacts(s, heap[..], w, n, zz, tmp);
    }
    RisingFacts(s, heap[..], w, n, zz, tmp);
    ghost var h := heap[..];
    heap[zz] := tmp;
    assert heap[..] == h[zz := tmp];
  }

  // The same for an entry that may have to sink.
  ghost predicate Sinking(s: seq<int>, h: seq<int>, w: seq<int>, n: int, zz: int, tmp: int) {
    && 1 <= zz < |h| && 0 <= n < |h| && (n >= 1 ==> zz <= n)
    && MaySink(h[zz := tmp], w, n, zz) && PermRange(s, h[zz := tmp], 1, n)
  }

  lemma SinkingFacts(s: seq<int>, h: seq<int>, w: seq<int>, n: int, zz: int, tmp: int)
    requires Sinking(s, h, w, n, zz, tmp) && 0 <= tmp < |w|
    ensures 1 <= zz < |h| && 0 <= n < |h| && (n >= 1 ==> zz <= n)
    ensures 2 * zz <= n ==> 0 <= h[2 * zz] < |w|
    ensures 2 * zz + 1 <= n ==> 0 <= h[2 * zz + 1] < |w|
  {
    hide PermRange;
    var v := h[zz := tmp];
    if 2 * zz <= n { assert v[2 * zz] == h[2 * zz]; }
    if 2 * zz + 1 <= n { assert v[2 * zz + 1] == h[2 * zz + 1]; }
  }

  // A child, no heavier than its sibling.
  ghost predicate LighterChild(h: seq<int>, w: seq<int>, n: int, zz: int, yy: int) {
    && 1 <= zz && (yy == 2 * zz || yy == 2 * zz + 1) && yy <= n < |h| && 0 <= h[yy] < |w|
    && 0 <= h[2 * zz] < |w| && w[h[yy]] <= w[h[2 * zz]]
    && (2 * zz + 1 <= n ==> 0 <= h[2 * zz + 1] < |w| && w[h[yy]] <= w[h[2 * zz + 1]])
  }

  lemma Sunk(s: seq<int>, h: seq<int>, w: seq<int>, n: int, zz: int, yy: int, tmp: int)
    requires Sinking(s, h, w, n, zz, tmp) && 0 <= tmp < |w| && LighterChild(h, w, n, zz, yy)
    ensures !(w[tmp] < w[h[yy]]) ==> Sinking(s, h[zz := h[yy]], w, n, yy, tmp)
    ensures w[tmp] < w[h[yy]] ==> HeapOrder(h[zz := tmp], w, n) && PermRange(s, h[zz := tmp], 1, n)
  {
    hide PermRange, MaySink;
    var v := h[zz := tmp];
    assert v[zz] == tmp && v[yy] == h[yy] && v[2 * zz] == h[2 * zz];
    assert 2 * zz + 1 <= n ==> v[2 * zz + 1] == h[2 * zz + 1];
    if w[tmp] < w[h[yy]] { SinkEnd(v, w, n, zz); }
    else {
      var g := v[zz := v[yy]][yy := v[zz]];
      assert g == h[zz := h[yy]][yy := tmp];
      SinkStep(v, w, n, zz, yy);
      SwapPerm(v, zz, yy, 1, n);
      PermTrans(s, v, g, 1, n);
    }
  }

  lemma SunkDeep(s: seq<int>, h: seq<int>, w: seq<int>, n: int, zz: int, tmp: int)
    requires Sinking(s, h, w, n, zz, tmp) && 2 * zz > n
    ensures HeapOrder(h[zz := tmp], w, n) && PermRange(s, h[zz := tmp], 1, n)
  {
    hide PermRange;
    SinkEnd(h[zz := tmp], w, n, zz);
  }

  lemma SinkingStart(h: seq<int>, w: seq<int>, n: int)
    requires 0 <= n < |h| - 1 && MaySink(h, w, n, 1)
    ensures Sinking(h, h, w, n, 1, h[1])
  {
    assert h[1 := h[1]] == h;
    PermRefl(h, 1, n);
  }

  // The child to compare with.
  method Lighter(heap: array<int>, weight: array<int>, n: int, zz: int) returns (yy: int)
    requires 1 <= zz && 2 * zz <= n < heap.Length && 0 <= heap[2 * zz] < weight.Length
    requires 2 * zz + 1 <= n ==> 0 <= heap[2 * zz + 1] < weight.Length
    ensures LighterChild(heap[..], weight[..], n, zz, yy)
  {
    yy := 2 * zz;
    if yy < n && weight[heap[yy + 1]] < weight[heap[yy]] { yy := yy + 1; }
  }

  lemma ChildIndex(h: seq<int>, w: seq<int>, n: int, zz: int, yy: int)
    requires LighterChild(h, w, n, zz, yy)
    ensures zz < yy <= n < |h| && 0 <= h[yy] < |w|
  {
  }

  // DOWNHEAP(1): the first entry sinks to its place.
  method DownHeap(heap: array<int>, weight: array<int>, n: int)
    requires heap != weight && 0 <= n < heap.Length - 1 && MaySink(heap[..], weight[..], n, 1)
    requires 0 <= heap[1] < weight.Length
    modifies heap
    ensures HeapOrder(heap[..], weight[..], n) && PermRange(old(heap[..]), heap[..], 1, n)
  {
    ghost var s, w := heap[..], weight[..];
    SinkingStart(s, w, n);
    hide PermRange, HeapOrder, Sinking, MaySink, LighterChild;
    var zz := 1;
    var tmp := heap[zz];
    while true
      invariant Sinking(s, heap[..], w, n, zz, tmp) && weight[..] == w
      invariant 1 <= zz < heap.Length && 0 <= tmp < weight.Length
      decreases n - zz
    {
      ghost var h := heap[..];
      SinkingFacts(s, h, w, n, zz, tmp);
      var yy := 2 * zz;
      if yy > n {
        SunkDeep(s, h, w, n, zz, tmp);
        break;
      }
      yy := Lighter(heap, weight, n, zz);
      ChildIndex(h, w, n, zz, yy);
      Sunk(s, h, w, n, zz, yy, tmp);
      if weight[tmp] < weight[heap[yy]] { break; }
      heap[zz] := heap[yy];
      assert heap[..] == h[zz := h[yy]];
      zz := yy;
    }
    ghost var h := heap[..];
    heap[zz] := tmp;
    assert heap[..] == h[zz := tmp];
  }

  // Setting an entry outside the range, to the same value on both sides.
  lemma PermOutside(t: seq<int>, u: seq<int>, lo: int, n: int, x: int)
    requires PermRange(t, u, lo, n - 1) && lo <= n < |t|
    ensures PermRange(t[n := x], u[n := x], lo, n)
  {
  }

  // Removes the lightest entry: the last one takes its place and sinks.
  method PopMin(heap: array<int>, weight: array<int>, n: int) returns (x: int)
    requires heap != weight && 1 <= n < heap.Length - 1 && HeapOrder(heap[..], weight[..], n)
    modifies heap
    ensures x == old(heap[1]) && HeapOrder(heap[..], weight[..], n - 1)
    ensures PermRange(old(heap[..]), heap[..][n := x], 1, n)
  {
    ghost var s, w := heap[..], weight[..];
    x := heap[1];
    heap[1] := heap[n];
    ghost var t := heap[..];
    assert MaySink(t, w, n - 1, 1);
    hide PermRange, HeapOrder, MaySink;
    DownHeap(heap, weight, n - 1);
    PermOutside(t, heap[..], 1, n, x);
    SwapPerm(s, 1, n, 1, n);
    assert t[n := x] == s[1 := s[n]][n := s[1]];
    PermTrans(s, t[n := x], heap[..][n := x], 1, n);
  }

  ghost predicate Held(h: seq<int>, n: int, x: int)
    requires 0 <= n < |h|
  {
    exists z :: 1 <= z <= n && h[z] == x
  }

  ghost predicate OneToOne(h: seq<int>, n: int, nodes: set<int>)
    requires 0 <= n < |h|
  {
    && (forall z :: 1 <= z <= n ==> h[z] in nodes)
    && (forall x :: x in nodes ==> Held(h, n, x))
    && (forall y, z :: 1 <= y < z <= n ==> h[y] != h[z])
  }

  // The heap holds exactly the nodes of the set, each once.
  ghost predicate Lists(h: seq<int>, n: int, nodes: set<int>) {
    0 <= n < |h| && h[0] == 0 && OneToOne(h, n, nodes)
  }

  lemma ListsPerm(h: seq<int>, g: seq<int>, n: int, nodes: set<int>)
    requires Lists(h, n, nodes) && PermRange(h, g, 1, n) && n >= 1
    ensures Lists(g, n, nodes)
  {
    assert |g| == |h| && g[0] == h[0];
    PermSym(h, g, 1, n);
    PermDistinct(h, g, 1, n);
    hide PermRange;
    forall z | 1 <= z <= n ensures g[z] in nodes { var q := PermSource(h, g, 1, n, z); }
    forall x | x in nodes ensures Held(g, n, x) {
      assert Held(h, n, x);
      var z :| 1 <= z <= n && h[z] == x;
      var q := PermSource(g, h, 1, n, z);
    }
  }

  lemma ListsPop(h: seq<int>, g: seq<int>, n: int, nodes: set<int>, x: int)
    requires Lists(h, n, nodes) && 1 <= n < |g| && PermRange(h, g[n := x], 1, n)
    ensures x in nodes && Lists(g, n - 1, nodes - {x})
  {
    ListsPerm(h, g[n := x], n, nodes);
    hide PermRange;
    var v := g[n := x];
    assert v[n] == x && forall z :: 0 <= z < n ==> v[z] == g[z];
    forall y | y in nodes - {x} ensures Held(g, n - 1, y) {
      assert Held(v, n, y);
      var z :| 1 <= z <= n && v[z] == y;
    }
  }

  lemma ListsPush(h: seq<int>, n: int, nodes: set<int>, x: int)
    requires Lists(h, n, nodes) && n + 1 < |h| && x !in nodes
    ensures Lists(h[n + 1 := x], n + 1, nodes + {x})
  {
    var g := h[n + 1 := x];
    forall y | y in nodes + {x} ensures Held(g, n + 1, y) {
      if y == x { assert g[n + 1] == x; }
      else {
        assert Held(h, n, y);
        var z :| 1 <= z <= n && h[z] == y;
        assert g[z] == y;
      }
    }
  }

  // The first entry of the heap is the lightest node.
  lemma ListsMin(h: seq<int>, w: seq<int>, n: int, nodes: set<int>)
    requires Lists(h, n, nodes) && HeapOrder(h, w, n) && n >= 1
    ensures h[1] in nodes && forall x :: x in nodes ==> 0 <= x < |w| && 0 <= h[1] < |w| && w[h[1]] <= w[x]
  {
    forall x | x in nodes ensures 0 <= x < |w| && w[h[1]] <= w[x] {
      assert Held(h, n, x);
      var z :| 1 <= z <= n && h[z] == x;
      RootMin(h, w, n, z);
    }
  }

  // ----- The forest -----

  // As heavy as a tree of its depth has to be; big is the heaviest weight merged so far.
  predicate Heavy(x: int, big: int) {
    x >= 0 && Weight(x) >= Fib(Depth(x) + 2) && (Depth(x) >= 1 ==> big >= Fib(Depth(x) + 1))
  }

  // j has a parent further on, of larger depth.
  predicate Below(w: seq<int>, p: seq<int>, m: int, j: int)
    requires 0 <= m < |w| == |p|
  {
    0 <= j < |w| && j < p[j] <= m && Depth(w[p[j]]) >= Depth(w[j]) + 1
  }

  // Nodes without a parent are the roots.
  ghost predicate Grown(w: seq<int>, p: seq<int>, roots: set<int>, m: int, big: int) {
    && 0 <= m < |w| && |p| == |w| && w[0] == 0 && big >= 1
    && (forall j :: j in roots <==> 1 <= j <= m && p[j] == -1)
    && (forall j :: 1 <= j <= m ==> Heavy(w[j], big))
    && (forall j :: j in roots ==> Weight(w[j]) >= big)
    && (forall j :: 1 <= j <= m ==> p[j] == -1 || Below(w, p, m, j))
  }

  // Every node above alpha has exactly its two children below it.
  ghost predicate Siblings(p: seq<int>, kids: seq<(int, int)>, alpha: int, m: int) {
    && 0 <= alpha <= m < |p| && |kids| == m - alpha
    && (forall k :: alpha < k <= m ==> Parent(p, kids, alpha, k))
    && (forall j :: 1 <= j <= m ==> p[j] == -1 || Child(p, kids, alpha, m, j))
  }

  predicate Parent(p: seq<int>, kids: seq<(int, int)>, alpha: int, k: int) {
    alpha < k <= alpha + |kids| && Couple(p, kids[k - alpha - 1], k)
  }

  predicate Child(p: seq<int>, kids: seq<(int, int)>, alpha: int, m: int, j: int)
    requires |kids| == m - alpha
  {
    0 <= j < |p| && alpha < p[j] <= m && j < p[j] && Among(j, kids[p[j] - alpha - 1])
  }

  predicate Couple(p: seq<int>, c: (int, int), k: int) {
    && 1 <= c.0 < k && 1 <= c.1 < k && c.0 != c.1 && k < |p| && p[c.0] == k && p[c.1] == k
  }

  predicate Among(j: int, c: (int, int)) {
    j == c.0 || j == c.1
  }

  // Sum of the weights of the roots.
  function RootSum(w: seq<int>, p: seq<int>, m: nat): int
    requires m < |w| && |p| == |w|
  {
    if m == 0 then 0 else RootSum(w, p, m - 1) + if p[m] == -1 then Weight(w[m]) else 0
  }

  lemma {:induction false} RootSumMark(w: seq<int>, p: seq<int>, m: nat, x: int, v: int)
    requires m < |w| && |p| == |w| && 1 <= x < |w| && p[x] == -1 && v != -1
    ensures RootSum(w, p[x := v], m) == RootSum(w, p, m) - if x <= m then Weight(w[x]) else 0
  {
    if m > 0 { RootSumMark(w, p, m - 1, x, v); }
  }

  lemma {:induction false} RootSumSame(w: seq<int>, p: seq<int>, w': seq<int>, p': seq<int>, m: nat)
    requires m < |w| && |p| == |w| && |w'| == |w| && |p'| == |p|
    requires forall j :: 1 <= j <= m ==> w'[j] == w[j] && p'[j] == p[j]
    ensures RootSum(w', p', m) == RootSum(w, p, m)
  {
    if m > 0 { RootSumSame(w, p, w', p', m - 1); }
  }

  lemma {:induction false} RootSumBounds(w: seq<int>, p: seq<int>, m: nat, x: int)
    requires m < |w| && |p| == |w| && 1 <= x <= m && p[x] == -1
    requires forall j :: 1 <= j <= m ==> w[j] >= 0
    ensures Weight(w[x]) <= RootSum(w, p, m)
  {
    if x < m { RootSumBounds(w, p, m - 1, x); } else { RootSumNat(w, p, m - 1); }
  }

  lemma {:induction false} RootSumNat(w: seq<int>, p: seq<int>, m: nat)
    requires m < |w| && |p| == |w| && forall j :: 1 <= j <= m ==> w[j] >= 0
    ensures RootSum(w, p, m) >= 0
  {
    if m > 0 { RootSumNat(w, p, m - 1); }
  }

  // A root is only as deep as its weight allows.
  lemma DepthBound(w: seq<int>, p: seq<int>, roots: set<int>, m: int, big: int, x: int)
    requires Grown(w, p, roots, m, big) && x in roots && RootSum(w, p, m) < 0x80_0000
    ensures Fib(Depth(w[x]) + 2) <= RootSum(w, p, m) && Depth(w[x]) <= 32
  {
    hide Fib, Weight, Depth, RootSum, Below;
    assert forall j :: 1 <= j <= m ==> Heavy(w[j], big);
    RootSumBounds(w, p, m, x);
    DepthNat(w[x]);
    FibBound(Depth(w[x]) + 2);
  }

  lemma FibBound(n: nat)
    requires Fib(n) < 0x80_0000
    ensures n <= 34
  {
    hide Fib;
    FibValues();
    if n > 34 { FibMono(35, n); }
  }

  // Merging the two lightest roots.
  lemma MergeGrown(w: seq<int>, p: seq<int>, roots: set<int>, m: int, big: int, n1: int, n2: int)
    requires Grown(w, p, roots, m, big) && m + 1 < |w| && RootSum(w, p, m) < 0x80_0000
    requires n1 in roots && n2 in roots && n1 != n2 && w[n1] <= w[n2]
    requires forall x :: x in roots && x != n1 ==> w[n2] <= w[x]
    ensures Grown(w[m + 1 := AddWeights(w[n1], w[n2])], p[n1 := m + 1][n2 := m + 1][m + 1 := -1],
                  roots - {n1, n2} + {m + 1}, m + 1, Weight(w[n2]))
  {
    hide AddWeights, Fib, RootSum, Heavy, Below, Weight, Depth;
    assert Heavy(w[n1], big) && Heavy(w[n2], big);
    DepthBound(w, p, roots, m, big, n1);
    DepthBound(w, p, roots, m, big, n2);
    HeavyNat(w[n1], big);
    HeavyNat(w[n2], big);
    MergeWeight(w[n1], w[n2], big);
    var x := AddWeights(w[n1], w[n2]);
    var w', p' := w[m + 1 := x], p[n1 := m + 1][n2 := m + 1][m + 1 := -1];
    forall j | 1 <= j <= m ensures Heavy(w[j], Weight(w[n2])) { HeavyMore(w[j], big, Weight(w[n2])); }
    forall j | j in roots && j != n1 ensures Weight(w[n2]) <= Weight(w[j]) { WeightMono(w[n2], w[j]); }
    forall j | 1 <= j <= m + 1 ensures p'[j] == -1 || Below(w', p', m + 1, j) {
      MergedBelow(w, p, w', p', m, n1, n2, j);
    }
  }

  lemma HeavyNat(x: int, big: int)
    requires Heavy(x, big)
    ensures x >= 0
  {
  }

  lemma MergedBelow(w: seq<int>, p: seq<int>, w': seq<int>, p': seq<int>, m: int, n1: int, n2: int, j: int)
    requires 0 <= m < |w| - 1 && |p| == |w| && 1 <= n1 <= m && 1 <= n2 <= m && 1 <= j <= m + 1
    requires |w'| == |w| && w' == w[m + 1 := w'[m + 1]] && p' == p[n1 := m + 1][n2 := m + 1][m + 1 := -1]
    requires Depth(w'[m + 1]) > Depth(w[n1]) && Depth(w'[m + 1]) > Depth(w[n2])
    requires j <= m ==> p[j] == -1 || Below(w, p, m, j)
    ensures p'[j] == -1 || Below(w', p', m + 1, j)
  {
    hide Depth;
  }

  lemma HeavyMore(x: int, big: int, big': int)
    requires Heavy(x, big) && big <= big'
    ensures Heavy(x, big')
  {
  }

  lemma WeightMono(x: int, y: int)
    requires x <= y
    ensures Weight(x) <= Weight(y)
  {
  }

  // The tree one deeper than x and y is heavy enough: two Fibonacci steps.
  lemma MergeWeight(x: int, y: int, big: int)
    requires 0 <= x <= y && big >= 1 && Heavy(x, big) && Heavy(y, big) && Weight(x) >= big && Weight(y) >= big
    requires Depth(x) <= 32 && Depth(y) <= 32
    ensures Heavy(AddWeights(x, y), Weight(y)) && big <= Weight(y) <= Weight(AddWeights(x, y))
    ensures Weight(AddWeights(x, y)) == Weight(x) + Weight(y)
    ensures Depth(AddWeights(x, y)) > Depth(x) && Depth(AddWeights(x, y)) > Depth(y)
  {
    hide AddWeights, Fib, Weight, Depth;
    AddWeightsIs(x, y);
    WeightMono(x, y);
    DepthNat(x);
    DepthNat(y);
    FibStep(Depth(x), Weight(x), Depth(y), Weight(y), big);
  }

  lemma DepthNat(x: int)
    ensures 0 <= Depth(x) < 256
  {
  }

  lemma FibStep(d1: nat, w1: int, d2: nat, w2: int, big: int)
    requires big <= w1 <= w2 && big >= 1 && w1 >= Fib(d1 + 2) && w2 >= Fib(d2 + 2)
    requires (d1 >= 1 ==> big >= Fib(d1 + 1)) && (d2 >= 1 ==> big >= Fib(d2 + 1))
    ensures w1 + w2 >= Fib(1 + Max(d1, d2) + 2) && w2 >= Fib(1 + Max(d1, d2) + 1)
  {
    hide Fib;
    FibNext(d1);
    FibNext(d2);
  }

  lemma FibNext(d: nat)
    ensures Fib(d + 3) == Fib(d + 2) + Fib(d + 1) && Fib(1) == 1
  {
  }

  lemma MergeSiblings(p: seq<int>, kids: seq<(int, int)>, alpha: int, m: int, n1: int, n2: int)
    requires Siblings(p, kids, alpha, m) && m + 1 < |p| && n1 != n2
    requires 1 <= n1 <= m && 1 <= n2 <= m && p[n1] == -1 && p[n2] == -1
    ensures Siblings(p[n1 := m + 1][n2 := m + 1][m + 1 := -1], kids + [(n1, n2)], alpha, m + 1)
  {
    var p', kids' := p[n1 := m + 1][n2 := m + 1][m + 1 := -1], kids + [(n1, n2)];
    forall k | alpha < k <= m + 1 ensures Parent(p', kids', alpha, k) {
      if k <= m {
        assert Parent(p, kids, alpha, k);
        assert kids'[k - alpha - 1] == kids[k - alpha - 1];
      }
    }
    forall j | 1 <= j <= m + 1 ensures p'[j] == -1 || Child(p', kids', alpha, m + 1, j) {
      if j != n1 && j != n2 && j <= m && p[j] != -1 {
        assert Child(p, kids, alpha, m, j);
        assert kids'[p[j] - alpha - 1] == kids[p[j] - alpha - 1];
      }
    }
  }

  lemma MergeSum(w: seq<int>, p: seq<int>, m: nat, n1: int, n2: int, x: int)
    requires m + 1 < |w| && |p| == |w| && 1 <= n1 <= m && 1 <= n2 <= m && n1 != n2 && p[n1] == -1 && p[n2] == -1
    requires Weight(x) == Weight(w[n1]) + Weight(w[n2])
    ensures RootSum(w[m + 1 := x], p[n1 := m + 1][n2 := m + 1][m + 1 := -1], m + 1) == RootSum(w, p, m)
  {
    var q := p[n1 := m + 1][n2 := m + 1];
    RootSumMark(w, p, m, n1, m + 1);
    RootSumMark(w, p[n1 := m + 1], m, n2, m + 1);
    RootSumSame(w, q, w[m + 1 := x], q[m + 1 := -1], m);
  }

  function Weights(w: seq<int>): (v: seq<int>)
    ensures |v| == |w| && forall j :: 0 <= j < |w| ==> v[j] == Weight(w[j])
  {
    seq(|w|, j requires 0 <= j < |w| => Weight(w[j]))
  }

  // Joining the two lightest roots is the next greedy step, and the earlier ones stay what they were.
  lemma MergeGreedy(w: seq<int>, p: seq<int>, kids: seq<(int, int)>, roots: set<int>, alpha: int, m: int, big: int,
                    n1: int, n2: int, w': seq<int>, p': seq<int>)
    requires Grown(w, p, roots, m, big) && Greedy(Weights(w), p, kids, alpha, m) && m + 1 < |w| && alpha >= 0
    requires TwoLightest(w, n1, n2, roots) && |w'| == |w| && w' == w[m + 1 := w'[m + 1]]
    requires Weight(w'[m + 1]) == Weight(w[n1]) + Weight(w[n2])
    requires p' == p[n1 := m + 1][n2 := m + 1][m + 1 := -1]
    ensures Greedy(Weights(w'), p', kids + [(n1, n2)], alpha, m + 1)
  {
    hide Heavy, Weight, Depth, JoinedAt, JoinsLightest;
    var v', kids' := Weights(w'), kids + [(n1, n2)];
    assert 1 <= n1 <= m && 1 <= n2 <= m && p[n1] == -1 && p[n2] == -1;
    forall k | alpha < k <= m ensures JoinedAt(v', p', kids', alpha, k) {
      JoinedStays(Weights(w), p, v', p', kids, kids', alpha, m, k);
    }
    NewestJoined(w, p, roots, m, big, n1, n2, w', p');
    JoinedLast(v', p', kids, alpha, m, (n1, n2));
  }

  lemma JoinedStays(v: seq<int>, p: seq<int>, v': seq<int>, p': seq<int>, kids: seq<(int, int)>,
                    kids': seq<(int, int)>, alpha: int, m: int, k: int)
    requires JoinedAt(v, p, kids, alpha, k) && kids <= kids' && k <= m < |p| == |p'| == |v'|
    requires forall j :: 1 <= j <= m ==> v'[j] == v[j] && (p'[j] == p[j] || (p[j] == -1 && p'[j] > m))
    ensures JoinedAt(v', p', kids', alpha, k)
  {
    var e := k - 1;
    forall j | RootAt(p', e, j) ensures RootAt(p, e, j) {}
    assert kids'[k - alpha - 1] == kids[k - alpha - 1];
  }

  lemma JoinedLast(v: seq<int>, p: seq<int>, kids: seq<(int, int)>, alpha: int, m: int, c: (int, int))
    requires JoinsLightest(v, p, c, m + 1) && |kids| == m - alpha
    ensures JoinedAt(v, p, kids + [c], alpha, m + 1)
  {
    assert (kids + [c])[m + 1 - alpha - 1] == c;
  }

  lemma NewestJoined(w: seq<int>, p: seq<int>, roots: set<int>, m: int, big: int, n1: int, n2: int, w': seq<int>,
                     p': seq<int>)
    requires Grown(w, p, roots, m, big) && m + 1 < |w|
    requires TwoLightest(w, n1, n2, roots) && |w'| == |w| && w' == w[m + 1 := w'[m + 1]]
    requires Weight(w'[m + 1]) == Weight(w[n1]) + Weight(w[n2])
    requires p' == p[n1 := m + 1][n2 := m + 1][m + 1 := -1]
    ensures JoinsLightest(Weights(w'), p', (n1, n2), m + 1)
  {
    hide Heavy, Weight, Depth, Lightest;
    TwoOfRoots(w, n1, n2, roots);
    assert RootAt(p', m, n1) && RootAt(p', m, n2);
    forall j | RootAt(p', m, j)
      ensures j in roots && Weight(w[n1]) <= Weight(w[j]) && (j != n1 ==> Weight(w[n2]) <= Weight(w[j]))
    {
      NoneAbove(w, p, roots, m, big, j);
      if j != n1 { WeightMono(w[n2], w[j]); }
      WeightMono(w[n1], w[j]);
    }
  }

  lemma NoneAbove(w: seq<int>, p: seq<int>, roots: set<int>, m: int, big: int, j: int)
    requires Grown(w, p, roots, m, big) && 1 <= j <= m
    ensures p[j] == -1 || p[j] <= m
  {
    hide Heavy, Depth;
    assert p[j] == -1 || Below(w, p, m, j);
  }

  // ----- Building the tree -----

  // Everything known between two merges.
  ghost predicate Growing(h: seq<int>, w: seq<int>, p: seq<int>, kids: seq<(int, int)>, roots: set<int>,
                          alpha: int, n: int, m: int, big: int, total: int) {
    && 1 <= alpha <= m && n + m == 2 * alpha && 1 <= n
    && Lists(h, n, roots) && HeapOrder(h, w, n)
    && Grown(w, p, roots, m, big) && Siblings(p, kids, alpha, m)
    && RootSum(w, p, m) == total < 0x80_0000 && Greedy(Weights(w), p, kids, alpha, m)
    && (m in roots || m == alpha)
  }

  // The tree is complete: one root, everything else below a parent.
  ghost predicate Tree(w: seq<int>, p: seq<int>, kids: seq<(int, int)>, alpha: int, m: int, total: int) {
    && 1 <= alpha <= m < |w| && |p| == |w| && Siblings(p, kids, alpha, m)
    && p[m] == -1
    && (forall j :: 1 <= j < m ==> Below(w, p, m, j))
    && w[m] >= 0 && Fib(Depth(w[m]) + 2) <= total && Depth(w[m]) <= 32
  }

  lemma TreeDone(h: seq<int>, w: seq<int>, p: seq<int>, kids: seq<(int, int)>, roots: set<int>,
                 alpha: int, n: int, m: int, big: int, total: int)
    requires Growing(h, w, p, kids, roots, alpha, n, m, big, total) && n == 1 && alpha >= 2
    ensures Tree(w, p, kids, alpha, m, total)
  {
    hide HeapOrder, Siblings, RootSum, Fib, Below, Depth, Greedy;
    DepthBound(w, p, roots, m, big, m);
    assert h[1] == m;
    forall j | 1 <= j < m ensures Below(w, p, m, j) { assert j !in roots; }
  }

  // An entry joins the heap at its end and rises to its place.
  method Push(heap: array<int>, weight: array<int>, n: int, x: int, ghost nodes: set<int>)
    requires heap != weight && 1 <= n < heap.Length && Lists(heap[..], n - 1, nodes)
    requires HeapOrder(heap[..], weight[..], n - 1) && x !in nodes
    requires 0 <= x < weight.Length && weight[x] >= 0 && weight[0] == 0
    modifies heap
    ensures Lists(heap[..], n, Plus(nodes, x)) && HeapOrder(heap[..], weight[..], n)
  {
    ghost var h, w := heap[..], weight[..];
    ListsPush(h, n - 1, nodes, x);
    heap[n] := x;
    assert heap[..] == h[n := x];
    PushOrder(h, w, n, x);
    assert heap[0] == 0 by { ListsZero(h, n - 1, nodes); }
    hide Lists, HeapOrder, PermRange, Indexed;
    ghost var g := heap[..];
    UpHeap(heap, weight, n);
    ListsPerm(g, heap[..], n, nodes + {x});
  }

  lemma ListsZero(h: seq<int>, n: int, nodes: set<int>)
    requires Lists(h, n, nodes)
    ensures h[0] == 0
  {
  }

  lemma PushOrder(h: seq<int>, w: seq<int>, n: int, x: int)
    requires 1 <= n < |h| && HeapOrder(h, w, n - 1) && 0 <= x < |w| && w[x] >= 0
    ensures HeapOrder(h[n := x], w, n - 1) && Indexed(h[n := x], w, n)
  {
  }

  ghost predicate Lightest(w: seq<int>, x: int, nodes: set<int>) {
    0 <= x < |w| && forall y :: y in nodes ==> 0 <= y < |w| && w[x] <= w[y]
  }

  // The lightest node leaves the heap; the last entry takes its place and sinks.
  method TakeMin(heap: array<int>, weight: array<int>, n: int, ghost nodes: set<int>) returns (x: int)
    requires heap != weight && 1 <= n < heap.Length - 1 && Lists(heap[..], n, nodes)
    requires HeapOrder(heap[..], weight[..], n)
    modifies heap
    ensures x in nodes && Lists(heap[..], n - 1, nodes - {x}) && HeapOrder(heap[..], weight[..], n - 1)
    ensures Lightest(weight[..], x, nodes)
  {
    ghost var h := heap[..];
    ListsMin(h, weight[..], n, nodes);
    hide Lists, HeapOrder, PermRange;
    x := PopMin(heap, weight, n);
    ListsPop(h, heap[..], n, nodes, x);
  }

  // A new weight no heap entry refers to does not disturb the heap.
  lemma OrderSame(h: seq<int>, w: seq<int>, n: int, nodes: set<int>, i: int, x: int)
    requires Lists(h, n, nodes) && HeapOrder(h, w, n) && i !in nodes && 0 < i < |w|
    ensures HeapOrder(h, w[i := x], n)
  {
  }

  ghost predicate TwoLightest(w: seq<int>, n1: int, n2: int, roots: set<int>) {
    n1 in roots && n2 in roots - {n1} && Lightest(w, n1, roots) && Lightest(w, n2, roots - {n1})
  }

  // The roots after a merge: the two are gone, node k is new.
  function Without(roots: set<int>, n1: int, n2: int): set<int> {
    roots - {n1} - {n2}
  }

  function Plus(roots: set<int>, k: int): set<int> {
    roots + {k}
  }

  // What the two lightest roots are like.
  lemma MergeReady(h: seq<int>, w: seq<int>, p: seq<int>, kids: seq<(int, int)>, roots: set<int>,
                   alpha: int, n: int, m: int, big: int, total: int, n1: int, n2: int)
    requires Growing(h, w, p, kids, roots, alpha, n, m, big, total) && TwoLightest(w, n1, n2, roots)
    ensures 1 <= n1 <= m < |w| && 1 <= n2 <= m && w[n1] >= 0 && w[n2] >= 0 && |p| == |w| && w[0] == 0
    ensures p[n1] == -1 && p[n2] == -1 && n1 != n2 && m + 1 !in Without(roots, n1, n2)
    ensures Weight(AddWeights(w[n1], w[n2])) == Weight(w[n1]) + Weight(w[n2]) && AddWeights(w[n1], w[n2]) >= 0
  {
    hide Below, Siblings, Lists, HeapOrder;
    assert Heavy(w[n1], big) && Heavy(w[n2], big);
    DepthBound(w, p, roots, m, big, n1);
    DepthBound(w, p, roots, m, big, n2);
    hide Grown, Heavy, Fib, RootSum;
    AddWeightsIs(w[n1], w[n2]);
  }

  lemma MergeStep(h: seq<int>, w: seq<int>, p: seq<int>, kids: seq<(int, int)>, roots: set<int>,
                  alpha: int, n: int, m: int, big: int, total: int, n1: int, n2: int,
                  w': seq<int>, p': seq<int>)
    requires Growing(h, w, p, kids, roots, alpha, n, m, big, total) && m + 1 < |w| && |p| == |w|
    requires TwoLightest(w, n1, n2, roots)
    requires 1 <= n1 <= m && 1 <= n2 <= m && w[n1] >= 0 && w[n2] >= 0
    requires w' == w[m + 1 := AddWeights(w[n1], w[n2])] && p' == p[n1 := m + 1][n2 := m + 1][m + 1 := -1]
    ensures Grown(w', p', Plus(Without(roots, n1, n2), m + 1), m + 1, Weight(w[n2]))
    ensures Siblings(p', kids + [(n1, n2)], alpha, m + 1)
    ensures RootSum(w', p', m + 1) == total && Greedy(Weights(w'), p', kids + [(n1, n2)], alpha, m + 1)
  {
    hide Grown, Siblings, Lists, HeapOrder, AddWeights, Weight, RootSum, Greedy, TwoLightest;
    MergeReady(h, w, p, kids, roots, alpha, n, m, big, total, n1, n2);
    MergeGreedy(w, p, kids, roots, alpha, m, big, n1, n2, w', p');
    TwoOfRoots(w, n1, n2, roots);
    MergeGrown(w, p, roots, m, big, n1, n2);
    assert roots - {n1, n2} + {m + 1} == Plus(Without(roots, n1, n2), m + 1);
    MergeSiblings(p, kids, alpha, m, n1, n2);
    MergeSum(w, p, m, n1, n2, AddWeights(w[n1], w[n2]));
  }

  lemma TwoOfRoots(w: seq<int>, n1: int, n2: int, roots: set<int>)
    requires TwoLightest(w, n1, n2, roots)
    ensures n1 in roots && n2 in roots && n1 != n2 && 0 <= n1 < |w| && 0 <= n2 < |w| && w[n1] <= w[n2]
    ensures forall x :: x in roots && x != n1 ==> 0 <= x < |w| && w[n2] <= w[x]
  {
  }

  function MergedWeights(w: seq<int>, n1: int, n2: int, k: int): seq<int>
    requires 0 <= k < |w| && 0 <= n1 < |w| && 0 <= n2 < |w| && w[n1] >= 0 && w[n2] >= 0
  {
    w[k := AddWeights(w[n1], w[n2])]
  }

  function MergedParents(p: seq<int>, n1: int, n2: int, k: int): seq<int>
    requires 0 <= k < |p| && 0 <= n1 < |p| && 0 <= n2 < |p|
  {
    p[n1 := k][n2 := k][k := -1]
  }

  // A new node over n1 and n2 carries their weight, one level deeper, and is a root.
  method Join(weight: array<int>, parent: array<int>, n1: int, n2: int, nNodes: int, ghost w: seq<int>,
              ghost p: seq<int>)
    requires weight != parent && weight.Length == parent.Length && 0 <= nNodes < weight.Length
    requires 0 <= n1 < nNodes && 0 <= n2 < nNodes && weight[n1] >= 0 && weight[n2] >= 0
    requires weight[..] == w && parent[..] == p
    modifies weight, parent
    ensures weight[..] == MergedWeights(w, n1, n2, nNodes) && parent[..] == MergedParents(p, n1, n2, nNodes)
  {
    hide AddWeights;
    parent[n1] := nNodes;
    parent[n2] := nNodes;
    weight[nNodes] := AddWeights(weight[n1], weight[n2]);
    parent[nNodes] := -1;
  }

  lemma GrowingHeap(h: seq<int>, w: seq<int>, p: seq<int>, kids: seq<(int, int)>, roots: set<int>,
                    alpha: int, n: int, m: int, big: int, total: int)
    requires Growing(h, w, p, kids, roots, alpha, n, m, big, total)
    ensures Lists(h, n, roots) && HeapOrder(h, w, n) && 1 <= alpha <= m && n + m == 2 * alpha && 0 < |w|
      && total < 0x80_0000
  {
  }

  method TakeTwo(heap: array<int>, weight: array<int>, n: int, ghost roots: set<int>, ghost w: seq<int>)
    returns (n1: int, n2: int)
    requires heap != weight && 2 <= n < heap.Length - 1 && Lists(heap[..], n, roots)
    requires weight[..] == w && HeapOrder(heap[..], w, n)
    modifies heap
    ensures TwoLightest(w, n1, n2, roots)
    ensures Lists(heap[..], n - 2, Without(roots, n1, n2)) && HeapOrder(heap[..], w, n - 2)
  {
    hide Lists, OneToOne, HeapOrder, Indexed, Descends, Lightest;
    n1 := TakeMin(heap, weight, n, roots);
    n2 := TakeMin(heap, weight, n - 1, roots - {n1});
  }

  lemma GrowingOf(h: seq<int>, w: seq<int>, p: seq<int>, kids: seq<(int, int)>, rest: set<int>,
                  alpha: int, n: int, m: int, big: int, total: int)
    requires 1 <= alpha < m && n + m == 2 * alpha && 1 <= n && total < 0x80_0000
    requires Lists(h, n, Plus(rest, m)) && HeapOrder(h, w, n)
    requires Grown(w, p, Plus(rest, m), m, big) && Siblings(p, kids, alpha, m) && RootSum(w, p, m) == total
    requires Greedy(Weights(w), p, kids, alpha, m)
    ensures Growing(h, w, p, kids, Plus(rest, m), alpha, n, m, big, total)
  {
    hide Lists, HeapOrder, Grown, Siblings, RootSum, Greedy;
  }

  // Where joining the two leads: the new node only has to go back into the heap.
  lemma JoinReady(h: seq<int>, w: seq<int>, p: seq<int>, kids: seq<(int, int)>, roots: set<int>,
                  alpha: int, n: int, k: int, big: int, total: int, n1: int, n2: int, g: seq<int>)
    requires Growing(h, w, p, kids, roots, alpha, n + 1, k - 1, big, total) && 1 <= n < |g| && k < |w|
    requires TwoLightest(w, n1, n2, roots)
    requires Lists(g, n - 1, Without(roots, n1, n2)) && HeapOrder(g, w, n - 1)
    ensures 0 <= n1 < k < |w| && 0 <= n2 < k && w[n1] >= 0 && w[n2] >= 0 && |p| == |w|
    ensures var w', rest := MergedWeights(w, n1, n2, k), Without(roots, n1, n2);
      && HeapOrder(g, w', n - 1) && k !in rest && |w'| == |w| && w'[k] >= 0 && w'[0] == 0
      && w'[..k] == w[..k]
      && forall h' :: Lists(h', n, Plus(rest, k)) && HeapOrder(h', w', n) ==>
           Growing(h', w', MergedParents(p, n1, n2, k), kids + [(n1, n2)], Plus(rest, k), alpha, n, k,
             Weight(w[n2]), total)
  {
    hide Lists, OneToOne, HeapOrder, Indexed, Descends, Grown, Siblings, RootSum, AddWeights, Weight, TwoLightest,
      Without, Plus, Growing, Lightest, Greedy;
    MergeReady(h, w, p, kids, roots, alpha, n + 1, k - 1, big, total, n1, n2);
    GrowingHeap(h, w, p, kids, roots, alpha, n + 1, k - 1, big, total);
    var w', p', rest := MergedWeights(w, n1, n2, k), MergedParents(p, n1, n2, k), Without(roots, n1, n2);
    OrderSame(g, w, n - 1, rest, k, AddWeights(w[n1], w[n2]));
    MergeStep(h, w, p, kids, roots, alpha, n + 1, k - 1, big, total, n1, n2, w', p');
    forall h' | Lists(h', n, Plus(rest, k)) && HeapOrder(h', w', n)
      ensures Growing(h', w', p', kids + [(n1, n2)], Plus(rest, k), alpha, n, k, Weight(w[n2]), total)
    {
      GrowingOf(h', w', p', kids + [(n1, n2)], rest, alpha, n, k, Weight(w[n2]), total);
    }
  }

  // One merge of the two lightest roots.
  method Merge(heap: array<int>, weight: array<int>, parent: array<int>, n: int, m: int, ghost w: seq<int>,
               ghost p: seq<int>,
               ghost kids: seq<(int, int)>, ghost roots: set<int>, ghost alpha: int, ghost big: int, ghost total: int)
    returns (ghost w': seq<int>, ghost p': seq<int>, ghost kids': seq<(int, int)>, ghost roots': set<int>,
      ghost big': int)
    requires heap != weight && heap != parent && weight != parent
    requires 2 <= n < heap.Length - 1 && m + 1 < weight.Length == parent.Length
    requires weight[..] == w && parent[..] == p && Growing(heap[..], w, p, kids, roots, alpha, n, m, big, total)
    modifies heap, weight, parent
    ensures weight[..] == w' && parent[..] == p' && w'[..m + 1] == w[..m + 1]
    ensures Growing(heap[..], w', p', kids', roots', alpha, n - 1, m + 1, big', total)
  {
    hide Lists, OneToOne, HeapOrder, Indexed, Descends, AddWeights, Weight, Growing, Grown, Siblings, RootSum,
      Lightest, TwoLightest, Without, Plus, MergedWeights, MergedParents, Greedy;
    ghost var h := heap[..];
    GrowingHeap(h, w, p, kids, roots, alpha, n, m, big, total);
    var n1, n2 := TakeTwo(heap, weight, n, roots, w);
    ghost var g := heap[..];
    JoinReady(h, w, p, kids, roots, alpha, n - 1, m + 1, big, total, n1, n2, g);
    assert parent[..] == p;
    Join(weight, parent, n1, n2, m + 1, w, p);
    ghost var rest := Without(roots, n1, n2);
    w', p' := MergedWeights(w, n1, n2, m + 1), MergedParents(p, n1, n2, m + 1);
    kids', big', roots' := kids + [(n1, n2)], Weight(w[n2]), Plus(rest, m + 1);
    assert weight[..] == w' && heap[..] == g;
    Push(heap, weight, n - 1, m + 1, rest);
    assert weight[..] == w';
  }

  // ----- From frequencies to lengths -----

  // Leaf weights: the depth byte is zero and no weight is zero.
  ghost predicate Leaves(w: seq<int>, alpha: int) {
    0 <= alpha < |w| && w[0] == 0 && forall i :: 1 <= i <= alpha ==> LeafWord(w[i])
  }

  predicate LeafWord(x: int) {
    x >= 256 && Depth(x) == 0
  }

  function LeafSum(w: seq<int>, n: nat): int
    requires n < |w|
  {
    if n == 0 then 0 else LeafSum(w, n - 1) + Weight(w[n])
  }

  lemma {:induction false} LeafSumRoots(w: seq<int>, p: seq<int>, n: nat)
    requires n < |w| && |p| == |w| && forall i :: 1 <= i <= n ==> p[i] == -1
    ensures RootSum(w, p, n) == LeafSum(w, n)
  {
    if n > 0 { LeafSumRoots(w, p, n - 1); }
  }

  lemma LeafHeavy(x: int)
    requires LeafWord(x)
    ensures Heavy(x, 1) && Weight(x) >= 1 && x >= 0
  {
  }

  // The leaves alone are a forest.
  lemma Planted(h: seq<int>, w: seq<int>, p: seq<int>, roots: set<int>, alpha: int)
    requires Leaves(w, alpha) && alpha >= 1 && |p| == |w| && forall i :: 1 <= i <= alpha ==> p[i] == -1
    requires forall j :: j in roots <==> 1 <= j <= alpha
    requires Lists(h, alpha, roots) && HeapOrder(h, w, alpha) && LeafSum(w, alpha) < 0x80_0000
    ensures Growing(h, w, p, [], roots, alpha, alpha, alpha, 1, LeafSum(w, alpha))
  {
    hide LeafWord, Heavy, Weight, Depth, Below, RootSum, LeafSum, Fib, HeapOrder, OneToOne;
    forall j | 1 <= j <= alpha ensures Heavy(w[j], 1) && Weight(w[j]) >= 1 { LeafHeavy(w[j]); }
    LeafSumRoots(w, p, alpha);
  }

  // One heap entry for every leaf.
  method Plant(heap: array<int>, weight: array<int>, parent: array<int>, alphaSize: int) returns (ghost roots: set<int>)
    requires heap != weight && heap != parent && weight != parent && 1 <= alphaSize < heap.Length
    requires Leaves(weight[..], alphaSize) && weight.Length == parent.Length
    modifies heap, parent
    ensures forall i :: 1 <= i <= alphaSize ==> parent[i] == -1
    ensures forall j :: j in roots <==> 1 <= j <= alphaSize
    ensures Lists(heap[..], alphaSize, roots) && HeapOrder(heap[..], weight[..], alphaSize)
  {
    hide HeapOrder, Indexed, Descends, Lists, OneToOne, LeafWord, Depth, Plus;
    ghost var w := weight[..];
    heap[0] := 0;
    parent[0] := -2;
    roots := {};
    EmptyHeap(heap[..], w);
    var nHeap := 0;
    var i := 1;
    while i <= alphaSize
      invariant 1 <= i <= alphaSize + 1 && nHeap == i - 1 && weight[..] == w
      invariant forall k :: 1 <= k < i ==> parent[k] == -1
      invariant forall j :: j in roots <==> 1 <= j < i
      invariant Lists(heap[..], i - 1, roots) && HeapOrder(heap[..], w, i - 1)
    {
      parent[i] := -1;
      nHeap := nHeap + 1;
      assert LeafWord(w[i]);
      LeafHeavy(w[i]);
      Push(heap, weight, nHeap, i, roots);
      PlusIs(roots, i);
      roots := Plus(roots, i);
      i := i + 1;
    }
  }

  lemma EmptyHeap(h: seq<int>, w: seq<int>)
    requires |h| > 0 && h[0] == 0 && |w| > 0 && w[0] == 0
    ensures Lists(h, 0, {}) && HeapOrder(h, w, 0)
  {
  }

  lemma PlusIs(roots: set<int>, k: int)
    ensures forall j :: j in Plus(roots, k) <==> j in roots || j == k
  {
  }

  // The whole tree for the weights at hand.
  method Build(heap: array<int>, weight: array<int>, parent: array<int>, alphaSize: int)
    returns (nNodes: int, ghost kids: seq<(int, int)>)
    requires heap != weight && heap != parent && weight != parent
    requires 2 <= alphaSize <= MAX_ALPHA_SIZE && heap.Length == MAX_ALPHA_SIZE + 2
    requires weight.Length == parent.Length == 2 * MAX_ALPHA_SIZE
    requires Leaves(weight[..], alphaSize) && LeafSum(weight[..], alphaSize) < 0x80_0000
    modifies heap, weight, parent
    ensures nNodes == 2 * alphaSize - 1
    ensures weight[..][..alphaSize + 1] == old(weight[..])[..alphaSize + 1]
    ensures Tree(weight[..], parent[..], kids, alphaSize, nNodes, LeafSum(old(weight[..]), alphaSize))
    ensures Greedy(Weights(weight[..]), parent[..], kids, alphaSize, nNodes)
    ensures forall j :: 0 <= j <= nNodes ==> weight[j] >= 0
  {
    hide *;
    ghost var w := weight[..];
    ghost var roots, big, total := {}, 1, LeafSum(w, alphaSize);
    kids := [];
    nNodes := alphaSize;
    roots := Plant(heap, weight, parent, alphaSize);
    var nHeap := alphaSize;
    assert nHeap < MAX_ALPHA_SIZE + 2;
    ghost var p := parent[..];
    Planted(heap[..], w, p, roots, alphaSize);
    ghost var w0 := w;
    while nHeap > 1
      invariant 1 <= nHeap <= alphaSize && nNodes == 2 * alphaSize - nHeap
      invariant weight[..] == w && parent[..] == p && w[..alphaSize + 1] == w0[..alphaSize + 1]
      invariant Growing(heap[..], w, p, kids, roots, alphaSize, nHeap, nNodes, big, total)
      decreases nHeap
    {
      ghost var v := w;
      w, p, kids, roots, big := Merge(heap, weight, parent, nHeap, nNodes, w, p, kids, roots, alphaSize, big, total);
      SamePrefix(w, v, nNodes + 1, alphaSize + 1);
      nHeap := nHeap - 1;
      nNodes := nNodes + 1;
    }
    assert nNodes < 2 * MAX_ALPHA_SIZE;
    TreeDone(heap[..], w, p, kids, roots, alphaSize, nHeap, nNodes, big, total);
    GrowingGreedy(heap[..], w, p, kids, roots, alphaSize, nHeap, nNodes, big, total);
  }

  lemma GrowingGreedy(h: seq<int>, w: seq<int>, p: seq<int>, kids: seq<(int, int)>, roots: set<int>,
                      alpha: int, n: int, m: int, big: int, total: int)
    requires Growing(h, w, p, kids, roots, alpha, n, m, big, total)
    ensures Greedy(Weights(w), p, kids, alpha, m) && m < |w| && forall j :: 0 <= j <= m ==> w[j] >= 0
  {
    hide HeapOrder, Siblings, RootSum, Fib, Below, Depth, Greedy, Weight;
    forall j | 1 <= j <= m ensures w[j] >= 0 { HeavyNat(w[j], big); }
  }

  lemma SamePrefix(s: seq<int>, t: seq<int>, m: int, k: int)
    requires 0 <= k <= m <= |s| && m <= |t| && s[..m] == t[..m]
    ensures s[..k] == t[..k]
  {
    assert s[..k] == s[..m][..k] && t[..k] == t[..m][..k];
  }

  // ----- Depths -----

  // Steps from node k up to the root m.
  function Steps(p: seq<int>, m: int, k: int): nat
    requires 0 <= m < |p|
    decreases m - k
  {
    if 0 <= k < m && k < p[k] <= m then 1 + Steps(p, m, p[k]) else 0
  }

  lemma {:induction false} StepsSmall(p: seq<int>, m: int, k: int)
    requires 0 <= m < |p| && k <= m
    ensures Steps(p, m, k) <= m - k
    decreases m - k
  {
    if 0 <= k < m && k < p[k] <= m { StepsSmall(p, m, p[k]); }
  }

  // The depth byte of the root bounds every path.
  lemma {:induction false} StepsBound(w: seq<int>, p: seq<int>, m: int, k: int)
    requires 1 <= k <= m < |w| == |p| && forall j :: 1 <= j < m ==> Below(w, p, m, j)
    ensures Steps(p, m, k) + Depth(w[k]) <= Depth(w[m])
    decreases m - k
  {
    if k < m {
      assert Below(w, p, m, k);
      StepsBound(w, p, m, p[k]);
    }
  }

  lemma StepUp(w: seq<int>, p: seq<int>, kids: seq<(int, int)>, alpha: int, m: int, total: int, k: int)
    requires Tree(w, p, kids, alpha, m, total) && 1 <= k <= m
    ensures m < |p| && (p[k] >= 0 <==> k < m)
    ensures k < m ==> k < p[k] <= m && Steps(p, m, k) == 1 + Steps(p, m, p[k])
    ensures k == m ==> Steps(p, m, k) == 0
  {
    hide Depth, Siblings, Fib;
    if k < m { assert Below(w, p, m, k); }
  }

  // Climb from one leaf to the root.
  method Climb(parent: array<int>, i: int, ghost w: seq<int>, ghost kids: seq<(int, int)>, ghost alpha: int,
               ghost m: int,
               ghost total: int)
    returns (j: int)
    requires Tree(w, parent[..], kids, alpha, m, total) && 1 <= i <= m
    ensures m < parent.Length && j == Steps(parent[..], m, i)
  {
    hide *;
    j := 0;
    var k := i;
    ghost var p := parent[..];
    StepUp(w, p, kids, alpha, m, total, k);
    while parent[k] >= 0
      invariant 1 <= k <= m < parent.Length && j + Steps(p, m, k) == Steps(p, m, i)
      decreases m - k
    {
      StepUp(w, p, kids, alpha, m, total, k);
      k := parent[k];
      j := j + 1;
      StepUp(w, p, kids, alpha, m, total, k);
    }
    StepUp(w, p, kids, alpha, m, total, k);
  }

  lemma TreeSteps(w: seq<int>, p: seq<int>, kids: seq<(int, int)>, alpha: int, m: int, total: int, i: int)
    requires Tree(w, p, kids, alpha, m, total) && 1 <= i <= m
    ensures 1 <= alpha <= m < |p| && Steps(p, m, i) <= 32 && Fib(Steps(p, m, i) + 2) <= total
    ensures i < m ==> Steps(p, m, i) >= 1
  {
    hide Depth, Siblings, Fib, Below;
    StepsBound(w, p, m, i);
    DepthNat(w[i]);
    FibMono(Steps(p, m, i) + 2, Depth(w[m]) + 2);
    StepUp(w, p, kids, alpha, m, total, i);
  }

  // The lengths of all leaves.
  method Lengths(len: array<int>, parent: array<int>, alphaSize: int, maxLen: int, ghost w: seq<int>,
                 ghost kids: seq<(int, int)>, ghost m: int, ghost total: int)
    returns (tooLong: bool)
    requires len != parent && len.Length >= alphaSize >= 2 && Tree(w, parent[..], kids, alphaSize, m, total)
    requires m > alphaSize
    modifies len
    ensures m < parent.Length
    ensures forall k :: 0 <= k < alphaSize ==> len[k] == Steps(parent[..], m, k + 1) && 1 <= len[k] <= 32
    ensures tooLong <==> exists k :: 0 <= k < alphaSize && len[k] > maxLen
  {
    hide *;
    tooLong := false;
    ghost var p := parent[..];
    TreeSteps(w, p, kids, alphaSize, m, total, 1);
    var i := 1;
    while i <= alphaSize
      invariant 1 <= i <= alphaSize + 1 && parent[..] == p
      invariant forall k :: 0 <= k < i - 1 ==> len[k] == Steps(p, m, k + 1) && 1 <= len[k] <= 32
      invariant tooLong <==> exists k :: 0 <= k < i - 1 && len[k] > maxLen
    {
      var j := Climb(parent, i, w, kids, alphaSize, m, total);
      TreeSteps(w, p, kids, alphaSize, m, total, i);
      len[i - 1] := j;
      if j > maxLen { tooLong := true; }
      i := i + 1;
    }
  }

  // ----- The Kraft sum -----

  lemma {:induction false} TotalUpdate(s: seq<nat>, i: int, v: nat)
    requires 0 <= i < |s|
    ensures Total(s[i := v]) == Total(s) - s[i] + v
  {
    var t := s[..|s| - 1];
    if i < |s| - 1 {
      TotalUpdate(t, i, v);
      assert s[i := v][..|s| - 1] == t[i := v];
    } else {
      assert s[i := v][..|s| - 1] == t;
    }
  }

  lemma {:induction false} TotalZero(s: seq<nat>)
    requires forall i :: 0 <= i < |s| ==> s[i] == 0
    ensures Total(s) == 0
  {
    if s != [] { TotalZero(s[..|s| - 1]); }
  }

  // The share of node j in the cut just below node k: the nodes up to k whose parent is above k.
  function CutShare(p: seq<int>, m: int, l: nat, k: int, j: int): nat
    requires 0 <= m < |p|
  {
    if 1 <= j <= k && j <= m && (p[j] == -1 || p[j] > k) then Share(l, Steps(p, m, j)) else 0
  }

  function Cut(p: seq<int>, m: int, l: nat, k: int): (s: seq<nat>)
    requires 0 <= m < |p|
    ensures |s| == m + 1
  {
    seq(m + 1, j => CutShare(p, m, l, k, j))
  }

  // Replacing a node by its two children keeps the total.
  lemma CutStep(w: seq<int>, p: seq<int>, kids: seq<(int, int)>, alpha: int, m: int, total: int, l: nat, k: int)
    requires Tree(w, p, kids, alpha, m, total) && alpha < k <= m <= l
    ensures Total(Cut(p, m, l, k - 1)) == Total(Cut(p, m, l, k))
  {
    hide Depth, Fib, Steps, Share, Total, Below;
    assert Parent(p, kids, alpha, k);
    var a, b := kids[k - alpha - 1].0, kids[k - alpha - 1].1;
    var s: seq<nat> := Cut(p, m, l, k);
    var x: nat := Share(l, Steps(p, m, k) + 1);
    StepUp(w, p, kids, alpha, m, total, a);
    StepUp(w, p, kids, alpha, m, total, b);
    StepUp(w, p, kids, alpha, m, total, k);
    forall j | 0 <= j <= m
      ensures CutShare(p, m, l, k - 1, j) == if j == a || j == b then x else if j == k then 0
        else CutShare(p, m, l, k, j)
    {
      if 1 <= j < k && j != a && j != b && p[j] != -1 { assert Child(p, kids, alpha, m, j); }
    }
    assert Cut(p, m, l, k - 1) == s[k := 0][a := x][b := x];
    StepsSmall(p, m, k);
    ShareHalves(l, Steps(p, m, k));
    assert s[k] == Share(l, Steps(p, m, k)) && s[a] == 0 && s[b] == 0;
    TotalUpdate(s, k, 0);
    TotalUpdate(s[k := 0], a, x);
    TotalUpdate(s[k := 0][a := x], b, x);
  }

  lemma ShareHalves(l: nat, d: nat)
    requires d < l
    ensures Share(l, d) == 2 * Share(l, d + 1)
  {
  }

  lemma CutTop(w: seq<int>, p: seq<int>, kids: seq<(int, int)>, alpha: int, m: int, total: int, l: nat)
    requires Tree(w, p, kids, alpha, m, total)
    ensures m < |p| && Total(Cut(p, m, l, m)) == Pow2(l)
  {
    hide Depth, Fib, Steps, Siblings, Total, Below;
    var s: seq<nat> := Cut(p, m, l, m);
    forall j | 1 <= j <= m ensures p[j] <= m && (p[j] == -1 <==> j == m) { StepUp(w, p, kids, alpha, m, total, j); }
    StepUp(w, p, kids, alpha, m, total, m);
    var zero: seq<nat> := s[m := 0];
    TotalZero(zero);
    TotalUpdate(zero, m, Pow2(l));
    assert s == zero[m := Pow2(l)];
  }

  lemma {:induction false} CutDown(w: seq<int>, p: seq<int>, kids: seq<(int, int)>, alpha: int, m: int, total: int,
                                   l: nat, k: int)
    requires Tree(w, p, kids, alpha, m, total) && alpha <= k <= m <= l
    ensures m < |p| && Total(Cut(p, m, l, k)) == Pow2(l)
    decreases m - k
  {
    hide Total, Cut, Siblings, Below, Depth, Fib;
    if k == m { CutTop(w, p, kids, alpha, m, total, l); }
    else {
      CutDown(w, p, kids, alpha, m, total, l, k + 1);
      CutStep(w, p, kids, alpha, m, total, l, k + 1);
    }
  }

  // The cut below the last leaf is the leaves.
  lemma {:induction false} CutLeaves(p: seq<int>, m: int, l: nat, alpha: int, lens: seq<int>, i: int)
    requires 0 <= i <= |lens| == alpha <= m < |p|
    requires forall k :: 0 <= k < alpha ==> lens[k] == Steps(p, m, k + 1)
    requires forall j :: 1 <= j <= alpha ==> p[j] == -1 || p[j] > alpha
    ensures Total(Cut(p, m, l, alpha)[..i + 1]) == Kraft(lens[..i], l)
  {
    hide Steps, Share;
    var s := Cut(p, m, l, alpha);
    if i == 0 { TotalZero(s[..1]); }
    else {
      CutLeaves(p, m, l, alpha, lens, i - 1);
      assert s[..i + 1][..i] == s[..i] && lens[..i][..i - 1] == lens[..i - 1];
      assert lens[i - 1] == Steps(p, m, i - 1 + 1);
    }
  }

  lemma {:induction false} TotalTail(s: seq<nat>, k: int)
    requires 0 <= k <= |s| && forall i :: k <= i < |s| ==> s[i] == 0
    ensures Total(s) == Total(s[..k])
  {
    if k < |s| {
      TotalTail(s[..|s| - 1], k);
      assert s[..|s| - 1][..k] == s[..k];
    } else {
      assert s[..k] == s;
    }
  }

  lemma {:induction false} KraftScale(lens: seq<int>, l: nat, e: nat)
    requires forall i :: 0 <= i < |lens| ==> 0 <= lens[i] <= l
    ensures Kraft(lens, l + e) == Kraft(lens, l) * Pow2(e)
  {
    if lens != [] {
      var d := lens[|lens| - 1];
      KraftScale(lens[..|lens| - 1], l, e);
      Pow2Add(l - d, e);
      Distribute(Kraft(lens[..|lens| - 1], l), Pow2(l - d), Pow2(e));
    }
  }

  lemma Distribute(a: int, b: int, c: int)
    ensures (a + b) * c == a * c + b * c
  {
  }

  lemma Cancel(a: int, b: int, c: int)
    requires a * c == b * c && c > 0
    ensures a == b
  {
    Distribute(a - b, b, c);
    if a > b { Grows(a - b, c); }
    if a < b { Distribute(b - a, a, c); Grows(b - a, c); }
  }

  lemma Grows(a: int, c: int)
    requires a >= 1 && c > 0
    ensures a * c > 0
  {
  }

  // The lengths of the leaves of any finished tree use up the code space exactly.
  lemma TreeKraft(w: seq<int>, p: seq<int>, kids: seq<(int, int)>, alpha: int, m: int, total: int, lens: seq<int>,
                  l: nat)
    requires Tree(w, p, kids, alpha, m, total) && |lens| == alpha && m > alpha
    requires forall k :: 0 <= k < alpha ==> lens[k] == Steps(p, m, k + 1) && 0 <= lens[k] <= l
    ensures Kraft(lens, l) == Pow2(l)
  {
    hide *;
    TreeSteps(w, p, kids, alpha, m, total, 1);
    CutDown(w, p, kids, alpha, m, total, l + m, alpha);
    LeavesBelow(w, p, kids, alpha, m, total);
    CutLeaves(p, m, l + m, alpha, lens, alpha);
    var s := Cut(p, m, l + m, alpha);
    CutZero(p, m, l + m, alpha);
    TotalTail(s, alpha + 1);
    assert lens[..alpha] == lens;
    KraftScale(lens, l, m);
    Pow2Add(l, m);
    Cancel(Kraft(lens, l), Pow2(l), Pow2(m));
  }

  lemma LeavesBelow(w: seq<int>, p: seq<int>, kids: seq<(int, int)>, alpha: int, m: int, total: int)
    requires Tree(w, p, kids, alpha, m, total)
    ensures 0 <= alpha <= m < |p| && forall j :: 1 <= j <= alpha ==> p[j] == -1 || p[j] > alpha
  {
    hide Depth, Fib, Below, Among;
    forall j | 1 <= j <= alpha ensures p[j] == -1 || p[j] > alpha {
      assert p[j] == -1 || Child(p, kids, alpha, m, j);
    }
  }

  lemma CutZero(p: seq<int>, m: int, l: nat, k: int)
    requires 0 <= k <= m < |p|
    ensures forall j :: k + 1 <= j < m + 1 ==> Cut(p, m, l, k)[j] == 0
  {
    hide Steps, Share;
  }

  // ----- Optimality -----

  // The weights of the leaves.
  function LeafWeights(w: seq<int>, n: nat): (v: seq<int>)
    requires n < |w|
    ensures |v| == n
  {
    seq(n, i requires 0 <= i < n => Weight(w[i + 1]))
  }

  lemma TreeWired(w: seq<int>, p: seq<int>, kids: seq<(int, int)>, alpha: int, m: int, total: int)
    requires Tree(w, p, kids, alpha, m, total)
    ensures Wired(p[..m + 1], kids, alpha, m)
  {
    hide Depth, Fib;
    var q := p[..m + 1];
    forall k | alpha < k <= m ensures CoupledAt(q, kids, alpha, k) { assert Parent(p, kids, alpha, k); }
    forall j | 1 <= j < m ensures IsKid(q, kids, alpha, j) && j < q[j] <= m && alpha < q[j] {
      assert Below(w, p, m, j) && (p[j] == -1 || Child(p, kids, alpha, m, j));
    }
  }

  function AllSteps(p: seq<int>, m: int): (dep: seq<int>)
    requires 0 <= m < |p|
    ensures |dep| == m + 1
  {
    seq(m + 1, j => Steps(p, m, j))
  }

  lemma TreeDepths(w: seq<int>, p: seq<int>, kids: seq<(int, int)>, alpha: int, m: int, total: int)
    requires Tree(w, p, kids, alpha, m, total)
    ensures m < |p| && Depths(AllSteps(p, m), kids, alpha, m)
  {
    hide Depth, Fib, Below, Steps;
    var dep := AllSteps(p, m);
    forall k | alpha < k <= m ensures OneDeeper(dep, kids, alpha, k) {
      assert Parent(p, kids, alpha, k);
      var c := kids[k - alpha - 1];
      StepUp(w, p, kids, alpha, m, total, c.0);
      StepUp(w, p, kids, alpha, m, total, c.1);
    }
    StepUp(w, p, kids, alpha, m, total, m);
  }

  lemma GreedyPrefix(v: seq<int>, p: seq<int>, kids: seq<(int, int)>, alpha: int, m: int)
    requires Greedy(v, p, kids, alpha, m)
    ensures Greedy(v[..m + 1], p[..m + 1], kids, alpha, m)
  {
    var u, q := v[..m + 1], p[..m + 1];
    forall k | alpha < k <= m ensures JoinedAt(u, q, kids, alpha, k) {
      assert JoinedAt(v, p, kids, alpha, k);
      var e := k - 1;
      forall j | RootAt(q, e, j) ensures RootAt(p, e, j) {}
    }
  }

  // The depths of the leaves are optimal for their weights.
  lemma TreeOptimal(w: seq<int>, p: seq<int>, kids: seq<(int, int)>, alpha: int, m: int, total: int, lens: seq<int>)
    requires Tree(w, p, kids, alpha, m, total) && Greedy(Weights(w), p, kids, alpha, m) && |lens| == alpha <= m
    requires forall j :: 0 <= j <= m ==> w[j] >= 0
    requires forall k :: 0 <= k < alpha ==> lens[k] == Steps(p, m, k + 1)
    ensures alpha < |w| && Optimal(LeafWeights(w, alpha), lens)
  {
    hide Tree, Greedy, Depths, Wired, Optimal, Steps, Weight;
    TreeSizes(w, p, kids, alpha, m, total);
    var v, q := Weights(w)[..m + 1], p[..m + 1];
    TreeWired(w, p, kids, alpha, m, total);
    TreeDepths(w, p, kids, alpha, m, total);
    GreedyPrefix(Weights(w), p, kids, alpha, m);
    forall j | 0 <= j < |v| ensures v[j] >= 0 { WeightNat(w[j]); }
    LeavesOptimal(v, q, kids, alpha, m, AllSteps(p, m), lens);
    assert v[1..alpha + 1] == LeafWeights(w, alpha);
  }

  lemma TreeSizes(w: seq<int>, p: seq<int>, kids: seq<(int, int)>, alpha: int, m: int, total: int)
    requires Tree(w, p, kids, alpha, m, total)
    ensures 1 <= alpha <= m < |w| == |p|
  {
  }

  lemma WeightNat(x: int)
    requires x >= 0
    ensures Weight(x) >= 0
  {
  }

  // ----- Retrying with smaller weights -----

  // One scaling: halve and add one.
  function Scaled(x: int): int {
    (1 + Weight(x) / 2) * 256
  }

  lemma ScaledLeaf(x: int)
    requires LeafWord(x)
    ensures LeafWord(Scaled(x)) && 1 <= Weight(Scaled(x)) <= Weight(x)
    ensures Weight(Scaled(x)) == Weight(x) ==> Weight(x) <= 2
  {
  }

  // Scaling makes the sum smaller unless all weights are at most 2.
  lemma {:induction false} ScaledSum(w: seq<int>, v: seq<int>, n: nat)
    requires n < |w| == |v| && forall i :: 1 <= i <= n ==> LeafWord(w[i]) && v[i] == Scaled(w[i])
    ensures LeafSum(v, n) <= LeafSum(w, n)
    ensures LeafSum(v, n) == LeafSum(w, n) ==> LeafSum(w, n) <= 2 * n
    ensures LeafSum(v, n) >= 0
  {
    hide LeafWord, Scaled, Weight;
    if n > 0 {
      ScaledSum(w, v, n - 1);
      ScaledLeaf(w[n]);
    }
  }

  // A code longer than 12 needs more weight than two per symbol.
  lemma TooLongIsHeavy(w: seq<int>, p: seq<int>, kids: seq<(int, int)>, alpha: int, m: int, total: int, i: int)
    requires Tree(w, p, kids, alpha, m, total) && 1 <= i <= m < |p| && Steps(p, m, i) > 12 && alpha <= MAX_ALPHA_SIZE
    ensures total > 2 * alpha
  {
    hide Tree, Steps, Fib;
    TreeSteps(w, p, kids, alpha, m, total, i);
    FibValues();
    FibMono(15, Steps(p, m, i) + 2);
  }

  method Scale(weight: array<int>, alphaSize: int)
    requires 0 <= alphaSize < weight.Length && Leaves(weight[..], alphaSize)
    modifies weight
    ensures Leaves(weight[..], alphaSize)
    ensures forall k :: 1 <= k <= alphaSize ==> weight[k] == Scaled(old(weight[..])[k])
  {
    hide LeafWord, Weight, Depth;
    ghost var w := weight[..];
    var i := 1;
    while i <= alphaSize
      invariant 1 <= i <= alphaSize + 1 && weight[0] == 0
      invariant forall k :: 1 <= k < i ==> weight[k] == Scaled(w[k]) && LeafWord(weight[k])
      invariant forall k :: i <= k <= alphaSize ==> weight[k] == w[k] && LeafWord(w[k])
    {
      ScaledLeaf(w[i]);
      var j := Weight(weight[i]);
      j := 1 + j / 2;
      weight[i] := j * 256;
      i := i + 1;
    }
  }

  // The weights the search starts from: every symbol counts at least once.
  function Demand(freq: seq<int>, n: nat): int
    requires n <= |freq|
  {
    if n == 0 then 0 else Demand(freq, n - 1) + if freq[n - 1] == 0 then 1 else freq[n - 1]
  }

  method InitialWeights(weight: array<int>, freq: array<int>, alphaSize: int)
    requires weight != freq && 0 <= alphaSize < weight.Length && alphaSize <= freq.Length
    requires forall i :: 0 <= i < alphaSize ==> freq[i] >= 0
    modifies weight
    ensures Leaves(weight[..], alphaSize) && LeafSum(weight[..], alphaSize) == Demand(freq[..], alphaSize)
    ensures LeafWeights(weight[..], alphaSize) == Counted(freq[..], alphaSize)
  {
    hide LeafSum, Demand;
    ghost var f := freq[..];
    weight[0] := 0;
    var i := 0;
    while i < alphaSize
      invariant 0 <= i <= alphaSize && weight[0] == 0 && freq[..] == f
      invariant forall k :: 1 <= k <= i ==> weight[k] == LeafOf(f[k - 1])
    {
      weight[i + 1] := (if freq[i] == 0 then 1 else freq[i]) * 256;
      i := i + 1;
    }
    DemandIs(weight[..], f, alphaSize);
  }

  function LeafOf(f: int): int {
    (if f == 0 then 1 else f) * 256
  }

  lemma {:induction false} DemandIs(w: seq<int>, f: seq<int>, n: nat)
    requires n < |w| && n <= |f| && forall k :: 1 <= k <= n ==> w[k] == LeafOf(f[k - 1])
    ensures LeafSum(w, n) == Demand(f, n)
  {
    if n > 0 { DemandIs(w, f, n - 1); }
  }

  lemma {:induction false} LeafSumPrefix(w: seq<int>, v: seq<int>, n: nat)
    requires n < |w| && n < |v| && w[..n + 1] == v[..n + 1]
    ensures LeafSum(w, n) == LeafSum(v, n)
  {
    assert w[..n + 1][n] == v[..n + 1][n];
    if n > 0 {
      SamePrefix(w, v, n + 1, n);
      LeafSumPrefix(w, v, n - 1);
    }
  }

  lemma LeavesPrefix(w: seq<int>, v: seq<int>, n: int)
    requires Leaves(w, n) && n < |v| && w[..n + 1] == v[..n + 1]
    ensures Leaves(v, n) && LeafSum(w, n) == LeafSum(v, n) && LeafWeights(w, n) == LeafWeights(v, n)
  {
    hide LeafWord, LeafSum, Weight;
    LeafSumPrefix(w, v, n);
    forall i | 0 <= i <= n ensures v[i] == w[i] { assert w[..n + 1][i] == v[..n + 1][i]; }
  }

  // Heap, tree and lengths for the current weights.
  method Attempt(len: array<int>, heap: array<int>, weight: array<int>, parent: array<int>, alphaSize: int, maxLen: int)
    returns (tooLong: bool)
    requires heap != weight && heap != parent && weight != parent && len != heap && len != weight && len != parent
    requires 2 <= alphaSize <= MAX_ALPHA_SIZE && heap.Length == MAX_ALPHA_SIZE + 2
    requires weight.Length == parent.Length == 2 * MAX_ALPHA_SIZE && len.Length >= alphaSize && maxLen >= 12
    requires Leaves(weight[..], alphaSize) && LeafSum(weight[..], alphaSize) < 0x80_0000
    modifies len, heap, weight, parent
    ensures Leaves(weight[..], alphaSize) && LeafSum(weight[..], alphaSize) == LeafSum(old(weight[..]), alphaSize)
    ensures tooLong ==> LeafSum(weight[..], alphaSize) > 2 * alphaSize
    ensures !tooLong ==> (forall k :: 0 <= k < alphaSize ==> 1 <= len[k] <= maxLen)
    ensures !tooLong ==> Kraft(len[..alphaSize], maxLen) == Pow2(maxLen)
    ensures tooLong <==> exists k :: 0 <= k < alphaSize && len[k] > maxLen
    ensures LeafWeights(weight[..], alphaSize) == LeafWeights(old(weight[..]), alphaSize)
    ensures Optimal(LeafWeights(weight[..], alphaSize), len[..alphaSize])
  {
    hide *;
    ghost var v := weight[..];
    ghost var total := LeafSum(v, alphaSize);
    var nNodes, kids := Build(heap, weight, parent, alphaSize);
    ghost var w, p := weight[..], parent[..];
    LeavesPrefix(v, w, alphaSize);
    tooLong := Lengths(len, parent, alphaSize, maxLen, w, kids, nNodes, total);
    TreeOptimal(w, p, kids, alphaSize, nNodes, total, len[..alphaSize]);
    if tooLong {
      ghost var k :| 0 <= k < alphaSize && len[k] > maxLen;
      TooLongIsHeavy(w, p, kids, alphaSize, nNodes, total, k + 1);
    } else {
      TreeKraft(w, p, kids, alphaSize, nNodes, total, len[..alphaSize], maxLen);
    }
  }

  // What the first attempt weighs: every symbol counts at least once.
  function Counted(freq: seq<int>, n: nat): (v: seq<int>)
    requires n <= |freq|
    ensures |v| == n
  {
    seq(n, i requires 0 <= i < n => if freq[i] == 0 then 1 else freq[i])
  }

  // What attempt k weighs: the weights halved, and one more, k times.
  function Reweighed(v: seq<int>, k: nat): (u: seq<int>)
    ensures |u| == |v|
  {
    if k == 0 then v else seq(|v|, i requires 0 <= i < |v| => 1 + Reweighed(v, k - 1)[i] / 2)
  }

  // Optimal lengths for these weights, with one over the limit.
  ghost predicate OverLimit(v: seq<int>, lens: seq<int>, maxLen: int) {
    Optimal(v, lens) && exists i :: 0 <= i < |lens| && lens[i] > maxLen
  }

  // What making the lengths for these frequencies comes to; tried is what was given up before.
  ghost predicate Made(freq: seq<int>, n: nat, tried: seq<seq<int>>, lens: seq<int>, maxLen: int)
    requires n <= |freq|
  {
    && Optimal(Reweighed(Counted(freq, n), |tried|), lens)
    && forall j :: 0 <= j < |tried| ==> OverLimit(Reweighed(Counted(freq, n), j), tried[j], maxLen)
  }

  // BZ2_hbMakeCodeLengths: always ends, with lengths in range that form a complete code. They are
  // optimal for the weights of the last attempt; the ones before had optimal lengths over the limit.
  method MakeCodeLengths(len: array<int>, freq: array<int>, alphaSize: int, maxLen: int)
    returns (ghost tried: seq<seq<int>>)
    requires 2 <= alphaSize <= MAX_ALPHA_SIZE && len.Length >= alphaSize && freq.Length >= alphaSize && maxLen >= 12
    requires forall i :: 0 <= i < alphaSize ==> freq[i] >= 0
    requires Demand(freq[..], alphaSize) < 0x80_0000
    modifies len
    ensures forall k :: 0 <= k < alphaSize ==> 1 <= len[k] <= maxLen
    ensures Kraft(len[..alphaSize], maxLen) == Pow2(maxLen)
    ensures Made(old(freq[..]), alphaSize, tried, len[..alphaSize], maxLen)
  {
    hide *;
    var heap := new int[MAX_ALPHA_SIZE + 2];
    var weight := new int[2 * MAX_ALPHA_SIZE];
    var parent := new int[2 * MAX_ALPHA_SIZE];
    ghost var first := Counted(freq[..], alphaSize);
    InitialWeights(weight, freq, alphaSize);
    tried := [];
    NotReweighed(first);
    while true
      invariant Leaves(weight[..], alphaSize) && LeafSum(weight[..], alphaSize) < 0x80_0000
      invariant LeafWeights(weight[..], alphaSize) == Reweighed(first, |tried|)
      invariant forall j :: 0 <= j < |tried| ==> OverLimit(Reweighed(first, j), tried[j], maxLen)
      decreases LeafSum(weight[..], alphaSize)
    {
      var tooLong := Attempt(len, heap, weight, parent, alphaSize, maxLen);
      if !tooLong { break; }
      TooLong(Reweighed(first, |tried|), len[..alphaSize], maxLen);
      tried := tried + [len[..alphaSize]];
      ghost var w := weight[..];
      LeavesWords(w, alphaSize);
      Scale(weight, alphaSize);
      ScaledSum(w, weight[..], alphaSize);
      ScaledWeights(w, weight[..], alphaSize, first, |tried|);
    }
    MadeIs(old(freq[..]), alphaSize, tried, len[..alphaSize], maxLen);
  }

  lemma MadeIs(freq: seq<int>, n: nat, tried: seq<seq<int>>, lens: seq<int>, maxLen: int)
    requires n <= |freq| && Optimal(Reweighed(Counted(freq, n), |tried|), lens)
    requires forall j :: 0 <= j < |tried| ==> OverLimit(Reweighed(Counted(freq, n), j), tried[j], maxLen)
    ensures Made(freq, n, tried, lens, maxLen)
  {
  }

  lemma NotReweighed(v: seq<int>)
    ensures Reweighed(v, 0) == v
  {
  }

  lemma TooLong(v: seq<int>, lens: seq<int>, maxLen: int)
    requires Optimal(v, lens) && exists k :: 0 <= k < |lens| && lens[k] > maxLen
    ensures OverLimit(v, lens, maxLen)
  {
    hide Optimal;
  }

  lemma ScaledWeights(w: seq<int>, v: seq<int>, n: nat, first: seq<int>, k: nat)
    requires n < |w| == |v| && k > 0 && LeafWeights(w, n) == Reweighed(first, k - 1)
    requires forall i :: 1 <= i <= n ==> v[i] == Scaled(w[i])
    ensures LeafWeights(v, n) == Reweighed(first, k)
  {
    forall i | 0 <= i < n ensures LeafWeights(v, n)[i] == Reweighed(first, k)[i] {
      assert LeafWeights(w, n)[i] == Weight(w[i + 1]);
    }
  }

  lemma LeavesWords(w: seq<int>, n: int)
    requires Leaves(w, n)
    ensures 0 <= n < |w| && forall i :: 1 <= i <= n ==> LeafWord(w[i])
  {
  }
}
