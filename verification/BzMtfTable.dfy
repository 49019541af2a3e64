// The decoder's move-to-front table (dep/bzip2/decompress.c): 256 entries in sixteen
// segments that float downwards in 4096 cells, moved back up when the lowest
// one reaches the bottom. It always holds the plain list.
module BzMtfTable {
  import opened BzMtf

  const MTFA_SIZE := 4096
  const MTFL_SIZE := 16
  const SEGMENTS := 16

  // ----- Segments as a list -----

  function Flat(segs: seq<seq<int>>): seq<int> {
    if segs == [] then [] else Flat(segs[..|segs| - 1]) + segs[|segs| - 1]
  }

  lemma {:induction false} FlatAppend(a: seq<seq<int>>, b: seq<seq<int>>)
    ensures Flat(a + b) == Flat(a) + Flat(b)
  {
    if b == [] { assert a + b == a; }
    else {
      FlatAppend(a, b[..|b| - 1]);
      assert (a + b)[..|a + b| - 1] == a + b[..|b| - 1];
    }
  }

  lemma FlatTwo(p: seq<seq<int>>, u: seq<int>, v: seq<int>, r: seq<seq<int>>)
    ensures Flat(p + [u, v] + r) == Flat(p) + (u + v) + Flat(r)
  {
    hide Flat;
    FlatAppend(p + [u, v], r);
    FlatAppend(p, [u, v]);
    assert [u, v] == [u] + [v];
    FlatAppend([u], [v]);
    FlatOne(u);
    FlatOne(v);
  }

  lemma FlatAt(segs: seq<seq<int>>, k: nat)
    requires k < |segs|
    ensures Flat(segs) == Flat(segs[..k]) + segs[k] + Flat(segs[k + 1..])
  {
    hide Flat;
    var p, q, r := segs[..k], [segs[k]], segs[k + 1..];
    assert segs == p + q + r;
    FlatAppend(p + q, r);
    FlatAppend(p, q);
    FlatOne(segs[k]);
  }

  lemma FlatOne(s: seq<int>)
    ensures Flat([s]) == s
  {
    assert [s][..0] == [];
  }

  lemma FlatSet(segs: seq<seq<int>>, k: nat, t: seq<int>)
    requires k < |segs|
    ensures Flat(segs[k := t]) == Flat(segs[..k]) + t + Flat(segs[k + 1..])
  {
    hide Flat;
    var s := segs[k := t];
    FlatAt(s, k);
    assert s[..k] == segs[..k] && s[k + 1..] == segs[k + 1..];
  }

  ghost predicate Full(segs: seq<seq<int>>) {
    |segs| == SEGMENTS && forall k :: 0 <= k < SEGMENTS ==> |segs[k]| == MTFL_SIZE
  }

  lemma {:induction false} FlatLength(segs: seq<seq<int>>)
    requires forall k :: 0 <= k < |segs| ==> |segs[k]| == MTFL_SIZE
    ensures |Flat(segs)| == MTFL_SIZE * |segs|
  {
    if segs != [] { FlatLength(segs[..|segs| - 1]); }
  }

  // Entry off of segment k is entry 16k + off of the list.
  lemma FlatIndex(segs: seq<seq<int>>, k: nat, off: nat)
    requires Full(segs) && k < SEGMENTS && off < MTFL_SIZE
    ensures |Flat(segs)| == 256 && Flat(segs)[MTFL_SIZE * k + off] == segs[k][off]
  {
    hide Flat;
    FlatAt(segs, k);
    FlatLength(segs);
    FlatLength(segs[..k]);
  }

  // Taking an entry out of its segment takes it out of the list.
  lemma FlatRemove(segs: seq<seq<int>>, k: nat, off: nat)
    requires Full(segs) && k < SEGMENTS && off < MTFL_SIZE
    ensures var i, l := MTFL_SIZE * k + off, Flat(segs);
      i < |l| && Flat(segs[k := Without(segs[k], off)]) == Without(l, i)
  {
    hide Flat;
    FlatAt(segs, k);
    FlatSet(segs, k, Without(segs[k], off));
    FlatLength(segs[..k]);
    FlatLength(segs);
    var a, b, c := Flat(segs[..k]), segs[k], Flat(segs[k + 1..]);
    RemoveMiddle(a, b, c, off);
  }

  function Without(s: seq<int>, i: nat): seq<int>
    requires i < |s|
  {
    s[..i] + s[i + 1..]
  }

  lemma RemoveMiddle(a: seq<int>, b: seq<int>, c: seq<int>, off: nat)
    requires off < |b|
    ensures a + Without(b, off) + c == Without(a + b + c, |a| + off)
  {
  }

  // The last entry of one segment may as well be the first of the next.
  lemma FlatMove(segs: seq<seq<int>>, k: nat)
    requires 1 <= k < |segs| && segs[k - 1] != []
    ensures Flat(Moved(segs, k)) == Flat(segs)
  {
    hide Flat, Moved;
    var s := segs[k - 1];
    var p, r := segs[..k - 1], segs[k + 1..];
    MovedShape(segs, k);
    FlatTwo(p, s, segs[k], r);
    FlatTwo(p, s[..|s| - 1], [s[|s| - 1]] + segs[k], r);
    LastMoves(s, segs[k]);
  }

  lemma LastMoves(s: seq<int>, t: seq<int>)
    requires s != []
    ensures s[..|s| - 1] + ([s[|s| - 1]] + t) == s + t
  {
  }

  lemma MovedShape(segs: seq<seq<int>>, k: nat)
    requires 1 <= k < |segs| && segs[k - 1] != []
    ensures segs == segs[..k - 1] + [segs[k - 1], segs[k]] + segs[k + 1..]
    ensures var s := segs[k - 1];
      Moved(segs, k) == segs[..k - 1] + [s[..|s| - 1], [s[|s| - 1]] + segs[k]] + segs[k + 1..]
  {
  }

  lemma FlatEmpty()
    ensures Flat([]) == []
  {
  }

  function Moved(segs: seq<seq<int>>, k: nat): (r: seq<seq<int>>)
    requires 1 <= k < |segs| && segs[k - 1] != []
    ensures |r| == |segs|
  {
    var s := segs[k - 1];
    segs[k - 1 := s[..|s| - 1]][k := [s[|s| - 1]] + segs[k]]
  }

  // ----- Segments in the cells -----

  ghost predicate At(a: seq<int>, base: seq<int>, segs: seq<seq<int>>, k: int)
    requires |a| == MTFA_SIZE && |base| == SEGMENTS == |segs| && 0 <= k < SEGMENTS
  {
    0 <= base[k] && base[k] + |segs[k]| <= MTFA_SIZE && a[base[k]..base[k] + |segs[k]|] == segs[k]
  }

  // Segment k starts at base[k]; segments are in order and do not overlap.
  ghost predicate View(a: seq<int>, base: seq<int>, segs: seq<seq<int>>) {
    && |a| == MTFA_SIZE && |base| == SEGMENTS == |segs|
    && (forall k :: 0 <= k < SEGMENTS ==> At(a, base, segs, k))
    && (forall i, k :: 0 <= i < k < SEGMENTS ==> base[i] + |segs[i]| <= base[k])
  }

  // Reading an entry.
  lemma ViewAt(a: seq<int>, base: seq<int>, segs: seq<seq<int>>, k: int, off: int)
    requires View(a, base, segs) && 0 <= k < SEGMENTS && 0 <= off < |segs[k]|
    ensures |a| == MTFA_SIZE && |base| == SEGMENTS == |segs| && 0 <= base[k] && base[k] + |segs[k]| <= MTFA_SIZE
    ensures a[base[k] + off] == segs[k][off]
  {
    assert At(a, base, segs, k);
    assert a[base[k]..base[k] + |segs[k]|][off] == segs[k][off];
  }

  // The last entry moves from segment k - 1 to the front of segment k, one cell down.
  lemma ViewMove(a: seq<int>, base: seq<int>, segs: seq<seq<int>>, k: int)
    requires View(a, base, segs) && 1 <= k < SEGMENTS && segs[k - 1] != []
    ensures 0 <= base[k] - 1 < MTFA_SIZE
    ensures View(a[base[k] - 1 := segs[k - 1][|segs[k - 1]| - 1]], base[k := base[k] - 1], Moved(segs, k))
  {
    assert At(a, base, segs, k) && At(a, base, segs, k - 1);
    var c, b, r := a[base[k] - 1 := segs[k - 1][|segs[k - 1]| - 1]], base[k := base[k] - 1], Moved(segs, k);
    forall i | 0 <= i < SEGMENTS ensures At(c, b, r, i) { MovedAt(a, base, segs, k, i); }
  }

  lemma MovedAt(a: seq<int>, base: seq<int>, segs: seq<seq<int>>, k: int, i: int)
    requires View(a, base, segs) && 1 <= k < SEGMENTS && segs[k - 1] != [] && 0 <= i < SEGMENTS
    ensures 0 <= base[k] - 1 < MTFA_SIZE
    ensures At(a[base[k] - 1 := segs[k - 1][|segs[k - 1]| - 1]], base[k := base[k] - 1], Moved(segs, k), i)
  {
    var s := segs[k - 1];
    var x, r := s[|s| - 1], Moved(segs, k);
    assert At(a, base, segs, k) && At(a, base, segs, k - 1) && At(a, base, segs, i);
    var b := base[k := base[k] - 1];
    assert i < k ==> base[i] + |segs[i]| <= base[k];
    if i < k - 1 { assert base[i] + |segs[i]| <= base[k - 1]; }
    if i > k { assert base[k] + |segs[k]| <= base[i]; }
    if i == k - 1 { assert a[base[i]..base[i] + |s|][..|s| - 1] == a[base[i]..base[i] + |s| - 1]; }
    MovedSlice(a, base[k] - 1, x, b[i], |r[i]|);
  }

  // A slice after one cell has changed.
  lemma MovedSlice(a: seq<int>, at: int, x: int, lo: int, n: int)
    requires 0 <= at < |a| && 0 <= lo && 0 <= n && lo + n <= |a|
    ensures !(lo <= at < lo + n) ==> a[at := x][lo..lo + n] == a[lo..lo + n]
    ensures lo == at && n >= 1 ==> a[at := x][lo..lo + n] == [x] + a[lo + 1..lo + n]
  {
  }

  // An entry more at the front of the first segment.
  lemma ViewFront(a: seq<int>, base: seq<int>, segs: seq<seq<int>>, x: int)
    requires View(a, base, segs) && |base| > 0 && 1 <= base[0] <= |a|
    requires |segs| > 0
    ensures View(a[base[0] - 1 := x], base[0 := base[0] - 1], segs[0 := [x] + segs[0]])
  {
    var b, c, r := base[0 := base[0] - 1], a[base[0] - 1 := x], segs[0 := [x] + segs[0]];
    assert At(a, base, segs, 0);
    forall i | 0 <= i < SEGMENTS ensures At(c, b, r, i) {
      assert At(a, base, segs, i);
      if i > 0 { assert base[0] + |segs[0]| <= base[i]; }
      MovedSlice(a, base[0] - 1, x, b[i], |r[i]|);
    }
  }

  // Shifting the first off entries of segment k up by one closes the gap at off.
  lemma ViewRemove(a: seq<int>, base: seq<int>, segs: seq<seq<int>>, k: int, off: int, c: seq<int>)
    requires View(a, base, segs) && 0 <= k < SEGMENTS && 0 <= off < |segs[k]| && |c| == |a|
    requires forall i :: 0 <= i < |a| && !(base[k] < i <= base[k] + off) ==> c[i] == a[i]
    requires forall i :: base[k] < i <= base[k] + off && 0 < i < |a| ==> c[i] == a[i - 1]
    ensures View(c, base[k := base[k] + 1], segs[k := Without(segs[k], off)])
  {
    var b, r := base[k := base[k] + 1], segs[k := Without(segs[k], off)];
    assert At(a, base, segs, k);
    forall i | 0 <= i < SEGMENTS ensures At(c, b, r, i) {
      assert At(a, base, segs, i);
      if i < k { assert base[i] + |segs[i]| <= base[k]; }
      if i > k { assert base[k] + |segs[k]| <= base[i]; }
      if i == k { GapClosed(a, c, base[k], |segs[k]|, off); }
      else { assert c[b[i]..b[i] + |r[i]|] == a[base[i]..base[i] + |segs[i]|]; }
    }
  }

  lemma GapClosed(a: seq<int>, c: seq<int>, lo: int, n: int, off: int)
    requires 0 <= lo && 0 <= off < n && lo + n <= |a| == |c|
    requires forall i :: 0 <= i < |a| && !(lo < i <= lo + off) ==> c[i] == a[i]
    requires forall i :: lo < i <= lo + off && 0 < i < |a| ==> c[i] == a[i - 1]
    ensures c[lo + 1..lo + n] == Without(a[lo..lo + n], off)
  {
    var t, s := c[lo + 1..lo + n], a[lo..lo + n];
    forall i | 0 <= i < n - 1 ensures t[i] == Without(s, off)[i] {
      var from := if i < off then i else i + 1;
      assert t[i] == c[lo + 1 + i] && Without(s, off)[i] == s[from] == a[lo + from];
    }
  }

  // ----- The table -----

  // Sixteen full segments, with a free cell below the first.
  ghost predicate Holds16(a: seq<int>, base: seq<int>, segs: seq<seq<int>>) {
    Full(segs) && View(a, base, segs) && base[0] >= 1
  }

  // The table holds the list.
  ghost predicate Table(a: seq<int>, base: seq<int>, list: seq<int>) {
    exists segs :: Holds16(a, base, segs) && Flat(segs) == list
  }

  lemma TableIs(a: seq<int>, base: seq<int>, segs: seq<seq<int>>)
    requires Holds16(a, base, segs)
    ensures Table(a, base, Flat(segs)) && |Flat(segs)| == 256 && |a| == MTFA_SIZE && |base| == SEGMENTS
  {
    FlatLength(segs);
  }

  // The cells between lo and hi hold what was one cell below.
  ghost predicate Shifted(a: seq<int>, c: seq<int>, lo: int, mid: int, hi: int) {
    && |c| == |a| && 0 <= lo <= mid <= hi < |a|
    && (forall i :: 0 <= i < |a| && !(mid < i <= hi) ==> c[i] == a[i])
    && (forall i :: mid < i <= hi && i > 0 ==> c[i] == a[i - 1])
  }

  lemma ShiftStep(a: seq<int>, c: seq<int>, lo: int, mid: int, hi: int)
    requires Shifted(a, c, lo, mid, hi) && lo < mid
    ensures Shifted(a, c[mid := c[mid - 1]], lo, mid - 1, hi)
  {
  }

  // One entry moves up by a cell.
  method ShiftOne(mtfa: array<int>, z: int, ghost a: seq<int>, ghost lo: int, ghost hi: int)
    requires 0 < z < mtfa.Length && Shifted(a, mtfa[..], lo, z, hi) && lo < z
    modifies mtfa
    ensures Shifted(a, mtfa[..], lo, z - 1, hi)
  {
    hide Shifted;
    ghost var c := mtfa[..];
    ShiftStep(a, c, lo, z, hi);
    mtfa[z] := mtfa[z - 1];
    assert mtfa[..] == c[z := c[z - 1]];
  }

  // Position nn of the first segment: four cells at a time, then singly.
  method FirstSegment(mtfa: array<int>, mtfbase: array<int>, nn0: nat, ghost segs: seq<seq<int>>)
    returns (uc: int, ghost segs': seq<seq<int>>)
    requires mtfa != mtfbase && nn0 < MTFL_SIZE && Holds16(mtfa[..], mtfbase[..], segs)
    modifies mtfa
    ensures Holds16(mtfa[..], mtfbase[..], segs') && nn0 < |Flat(segs)|
    ensures uc == Flat(segs)[nn0] && Flat(segs') == ToFront(Flat(segs), nn0)
  {
    hide Holds16, Shifted, Flat, View, Full, ToFront;
    ghost var a, base := mtfa[..], mtfbase[..];
    Entry(a, base, segs, 0, nn0);
    var nn := nn0;
    var pp := mtfbase[0];
    uc := mtfa[pp + nn];
    NotShifted(a, pp, pp + nn0);
    while nn > 3
      invariant 0 <= nn <= nn0 && Shifted(a, mtfa[..], pp, pp + nn, pp + nn0) && mtfbase[..] == base
      decreases nn
    {
      var z := pp + nn;
      ShiftOne(mtfa, z, a, pp, pp + nn0);
      ShiftOne(mtfa, z - 1, a, pp, pp + nn0);
      ShiftOne(mtfa, z - 2, a, pp, pp + nn0);
      ShiftOne(mtfa, z - 3, a, pp, pp + nn0);
      nn := nn - 4;
    }
    while nn > 0
      invariant 0 <= nn <= nn0 && Shifted(a, mtfa[..], pp, pp + nn, pp + nn0) && mtfbase[..] == base
      decreases nn
    {
      ShiftOne(mtfa, pp + nn, a, pp, pp + nn0);
      nn := nn - 1;
    }
    ghost var c := mtfa[..];
    mtfa[pp] := uc;
    assert mtfa[..] == c[pp := uc];
    segs' := FirstDone(a, base, c, segs, nn0);
  }

  lemma NotShifted(a: seq<int>, lo: int, hi: int)
    requires 0 <= lo <= hi < |a|
    ensures Shifted(a, a, lo, hi, hi)
  {
  }

  // Where an entry lies.
  lemma Entry(a: seq<int>, base: seq<int>, segs: seq<seq<int>>, k: nat, off: nat)
    requires Holds16(a, base, segs) && k < SEGMENTS && off < MTFL_SIZE
    ensures |a| == MTFA_SIZE && |base| == SEGMENTS == |segs| && 0 <= base[k] && base[k] + MTFL_SIZE <= MTFA_SIZE
      && base[0] >= 1
    ensures MTFL_SIZE * k + off < |Flat(segs)| && a[base[k] + off] == Flat(segs)[MTFL_SIZE * k + off]
  {
    hide Flat, View;
    ViewAt(a, base, segs, k, off);
    FlatIndex(segs, k, off);
  }

  lemma FirstDone(a: seq<int>, base: seq<int>, c: seq<int>, segs: seq<seq<int>>, nn: nat) returns (r: seq<seq<int>>)
    requires Holds16(a, base, segs) && nn < MTFL_SIZE && |base| > 0 && Shifted(a, c, base[0], base[0], base[0] + nn)
    requires nn < |Flat(segs)|
    ensures 0 <= base[0] < |c| && Holds16(c[base[0] := Flat(segs)[nn]], base, r) && Flat(r) == ToFront(Flat(segs), nn)
  {
    hide Flat, ToFront;
    FlatIndex(segs, 0, nn);
    var x := segs[0][nn];
    r := segs[0 := [x] + Without(segs[0], nn)];
    ViewRemove(a, base, segs, 0, nn, c);
    var b := base[0 := base[0] + 1];
    ViewFront(c, b, segs[0 := Without(segs[0], nn)], x);
    assert b[0 := b[0] - 1] == base;
    assert segs[0 := Without(segs[0], nn)][0 := [x] + segs[0 := Without(segs[0], nn)][0]] == r;
    FlatRemove(segs, 0, nn);
    FlatFront(segs[0 := Without(segs[0], nn)], x);
    FrontIs(Flat(segs), nn);
  }

  lemma FrontIs(list: seq<int>, i: nat)
    requires i < |list|
    ensures [list[i]] + Without(list, i) == ToFront(list, i)
  {
  }

  lemma FlatFront(segs: seq<seq<int>>, x: int)
    requires segs != []
    ensures Flat(segs[0 := [x] + segs[0]]) == [x] + Flat(segs)
  {
    hide Flat;
    FlatAt(segs, 0);
    FlatSet(segs, 0, [x] + segs[0]);
    FlatEmpty();
    assert segs[..0] == [];
    assert [] + ([x] + segs[0]) + Flat(segs[1..]) == [x] + ([] + segs[0] + Flat(segs[1..]));
  }

  // ----- An entry of a later segment -----

  // One entry is out: segment k is one short, the others are full.
  ghost predicate OneShort(a: seq<int>, base: seq<int>, segs: seq<seq<int>>, k: int) {
    && |segs| == SEGMENTS && 0 <= k < SEGMENTS && View(a, base, segs) && base[0] >= 1
    && |segs[k]| == MTFL_SIZE - 1 && (forall i :: 0 <= i < SEGMENTS && i != k ==> |segs[i]| == MTFL_SIZE)
  }

  lemma TakeOut(a: seq<int>, base: seq<int>, segs: seq<seq<int>>, k: nat, off: nat, c: seq<int>)
    returns (r: seq<seq<int>>)
    requires Holds16(a, base, segs) && 1 <= k < SEGMENTS && off < MTFL_SIZE && |base| == SEGMENTS
    requires Shifted(a, c, base[k], base[k], base[k] + off)
    ensures OneShort(c, base[k := base[k] + 1], r, k)
    ensures MTFL_SIZE * k + off < |Flat(segs)| && Flat(r) == Without(Flat(segs), MTFL_SIZE * k + off)
  {
    hide Flat;
    FlatRemove(segs, k, off);
    ViewRemove(a, base, segs, k, off, c);
    r := segs[k := Without(segs[k], off)];
  }

  lemma MoveDown(a: seq<int>, base: seq<int>, segs: seq<seq<int>>, k: int) returns (r: seq<seq<int>>)
    requires OneShort(a, base, segs, k) && 1 <= k
    ensures |a| == MTFA_SIZE && |base| == SEGMENTS && 0 <= base[k] - 1 < MTFA_SIZE
      && 0 <= base[k - 1] && base[k - 1] + MTFL_SIZE <= MTFA_SIZE
    ensures OneShort(a[base[k] - 1 := a[base[k - 1] + MTFL_SIZE - 1]], base[k := base[k] - 1], r, k - 1)
    ensures Flat(r) == Flat(segs)
  {
    hide Flat, View;
    ViewAt(a, base, segs, k - 1, MTFL_SIZE - 1);
    ViewMove(a, base, segs, k);
    FlatMove(segs, k);
    r := Moved(segs, k);
  }

  lemma PutFront(a: seq<int>, base: seq<int>, segs: seq<seq<int>>, x: int) returns (r: seq<seq<int>>)
    requires OneShort(a, base, segs, 0)
    ensures |a| == MTFA_SIZE && |base| == SEGMENTS && 1 <= base[0] <= MTFA_SIZE
    ensures Full(r) && View(a[base[0] - 1 := x], base[0 := base[0] - 1], r) && Flat(r) == [x] + Flat(segs)
  {
    hide Flat;
    assert At(a, base, segs, 0);
    ViewFront(a, base, segs, x);
    FlatFront(segs, x);
    r := segs[0 := [x] + segs[0]];
  }

  // Close the gap the entry leaves in its segment.
  method Extract(mtfa: array<int>, mtfbase: array<int>, lno: nat, off: nat, ghost segs: seq<seq<int>>)
    returns (uc: int, ghost r: seq<seq<int>>)
    requires mtfa != mtfbase && 1 <= lno < SEGMENTS && off < MTFL_SIZE && Holds16(mtfa[..], mtfbase[..], segs)
    modifies mtfa, mtfbase
    ensures OneShort(mtfa[..], mtfbase[..], r, lno)
    ensures var i := MTFL_SIZE * lno + off; i < |Flat(segs)| && uc == Flat(segs)[i] && Flat(r) == Without(Flat(segs), i)
  {
    hide Holds16, Shifted, Flat, View, Full, OneShort, Without;
    ghost var a, base := mtfa[..], mtfbase[..];
    Entry(a, base, segs, lno, off);
    var pp := mtfbase[lno] + off;
    uc := mtfa[pp];
    NotShifted(a, base[lno], pp);
    while pp > mtfbase[lno]
      invariant base[lno] <= pp <= base[lno] + off && mtfbase[..] == base
      invariant Shifted(a, mtfa[..], base[lno], pp, base[lno] + off)
      decreases pp
    {
      ShiftOne(mtfa, pp, a, base[lno], base[lno] + off);
      pp := pp - 1;
    }
    r := TakeOut(a, base, segs, lno, off, mtfa[..]);
    mtfbase[lno] := mtfbase[lno] + 1;
    assert mtfbase[..] == base[lno := base[lno] + 1];
  }

  // Hand one entry down from each segment to the next, and put x in front.
  method Cascade(mtfa: array<int>, mtfbase: array<int>, lno0: nat, x: int, ghost segs: seq<seq<int>>)
    returns (ghost r: seq<seq<int>>)
    requires mtfa != mtfbase && lno0 < SEGMENTS && OneShort(mtfa[..], mtfbase[..], segs, lno0)
    modifies mtfa, mtfbase
    ensures Full(r) && View(mtfa[..], mtfbase[..], r) && Flat(r) == [x] + Flat(segs)
  {
    hide Flat, View, Full, OneShort;
    var lno := lno0;
    r := segs;
    while lno > 0
      invariant 0 <= lno < SEGMENTS && OneShort(mtfa[..], mtfbase[..], r, lno) && Flat(r) == Flat(segs)
      decreases lno
    {
      ghost var a, base := mtfa[..], mtfbase[..];
      r := MoveDown(a, base, r, lno);
      mtfbase[lno] := mtfbase[lno] - 1;
      assert mtfbase[..] == base[lno := base[lno] - 1];
      mtfa[mtfbase[lno]] := mtfa[mtfbase[lno - 1] + MTFL_SIZE - 1];
      assert mtfa[..] == a[base[lno] - 1 := a[base[lno - 1] + MTFL_SIZE - 1]];
      lno := lno - 1;
    }
    ghost var a, base := mtfa[..], mtfbase[..];
    r := PutFront(a, base, r, x);
    mtfbase[0] := mtfbase[0] - 1;
    assert mtfbase[..] == base[0 := base[0] - 1];
    mtfa[mtfbase[0]] := x;
    assert mtfa[..] == a[base[0] - 1 := x];
  }

  // ----- Moving everything back to the top -----

  const TOP := MTFA_SIZE - SEGMENTS * MTFL_SIZE

  // Segments above ii, and in ii the entries above jj, are at the top; the rest is still where it was.
  ghost predicate Lifting(a: seq<int>, base: seq<int>, segs: seq<seq<int>>, ii: int, jj: int) {
    && |a| == MTFA_SIZE && |base| == SEGMENTS && Full(segs)
    && (forall k :: 0 <= k < SEGMENTS ==> 0 <= base[k] <= TOP + MTFL_SIZE * k)
    && (forall i, k :: 0 <= i < k < SEGMENTS ==> base[i] + MTFL_SIZE <= base[k])
    && (forall k, j :: 0 <= k < SEGMENTS && 0 <= j < MTFL_SIZE ==>
          segs[k][j] == a[if k > ii || (k == ii && j > jj) then TOP + MTFL_SIZE * k + j else base[k] + j])
  }

  lemma {:induction false} BaseLow(a: seq<int>, base: seq<int>, segs: seq<seq<int>>, k: int)
    requires Full(segs) && View(a, base, segs) && 0 <= k < SEGMENTS
    ensures 0 <= base[k] <= TOP + MTFL_SIZE * k
    decreases SEGMENTS - k
  {
    assert At(a, base, segs, k);
    if k < SEGMENTS - 1 { BaseLow(a, base, segs, k + 1); }
  }

  lemma LiftStart(a: seq<int>, base: seq<int>, segs: seq<seq<int>>)
    requires Full(segs) && View(a, base, segs)
    ensures Lifting(a, base, segs, SEGMENTS - 1, MTFL_SIZE - 1)
  {
    forall k | 0 <= k < SEGMENTS ensures 0 <= base[k] <= TOP + MTFL_SIZE * k { BaseLow(a, base, segs, k); }
    forall k, j | 0 <= k < SEGMENTS && 0 <= j < MTFL_SIZE
      ensures segs[k][j] == a[base[k] + j] { ViewAt(a, base, segs, k, j); }
  }

  lemma LiftStep(a: seq<int>, base: seq<int>, segs: seq<seq<int>>, ii: int, jj: int)
    requires Lifting(a, base, segs, ii, jj) && 0 <= ii < SEGMENTS && 0 <= jj < MTFL_SIZE
    ensures 0 <= base[ii] + jj <= TOP + MTFL_SIZE * ii + jj < MTFA_SIZE == |a|
    ensures Lifting(a[TOP + MTFL_SIZE * ii + jj := a[base[ii] + jj]], base, segs, ii, jj - 1)
  {
    var c := a[TOP + MTFL_SIZE * ii + jj := a[base[ii] + jj]];
    forall k, j | 0 <= k < SEGMENTS && 0 <= j < MTFL_SIZE
      ensures segs[k][j] == c[if k > ii || (k == ii && j > jj - 1) then TOP + MTFL_SIZE * k + j else base[k] + j]
    {
      if k < ii { assert base[k] + MTFL_SIZE <= base[ii]; }
    }
  }

  lemma LiftRow(a: seq<int>, base: seq<int>, segs: seq<seq<int>>, ii: int)
    requires Lifting(a, base, segs, ii, -1)
    ensures Lifting(a, base, segs, ii - 1, MTFL_SIZE - 1)
  {
  }

  lemma LiftEnd(a: seq<int>, was: seq<int>, base: seq<int>, segs: seq<seq<int>>)
    requires Lifting(a, was, segs, -1, MTFL_SIZE - 1) && |base| == SEGMENTS
    requires forall k :: 0 <= k < SEGMENTS ==> base[k] == TOP + MTFL_SIZE * k
    ensures Holds16(a, base, segs)
  {
    forall k | 0 <= k < SEGMENTS ensures At(a, base, segs, k) {
      forall j | 0 <= j < MTFL_SIZE ensures a[base[k] + j] == segs[k][j] { }
      assert a[base[k]..base[k] + MTFL_SIZE] == segs[k];
    }
  }

  lemma LiftSizes(a: seq<int>, base: seq<int>, segs: seq<seq<int>>, ii: int, jj: int)
    requires Lifting(a, base, segs, ii, jj)
    ensures |a| == MTFA_SIZE && |base| == SEGMENTS
  {
  }

  // The copy overlaps its source but never overwrites an entry still to be copied.
  method Rebuild(mtfa: array<int>, mtfbase: array<int>, ghost segs: seq<seq<int>>)
    requires mtfa != mtfbase && Full(segs) && View(mtfa[..], mtfbase[..], segs)
    modifies mtfa, mtfbase
    ensures Holds16(mtfa[..], mtfbase[..], segs)
  {
    hide Full, View, Holds16, Lifting;
    ghost var base := mtfbase[..];
    LiftStart(mtfa[..], base, segs);
    LiftSizes(mtfa[..], base, segs, SEGMENTS - 1, MTFL_SIZE - 1);
    var kk := MTFA_SIZE - 1;
    var ii := SEGMENTS - 1;
    while ii >= 0
      invariant -1 <= ii < SEGMENTS && kk == TOP + MTFL_SIZE * ii + MTFL_SIZE - 1
      invariant Lifting(mtfa[..], base, segs, ii, MTFL_SIZE - 1)
      invariant forall k :: 0 <= k <= ii ==> mtfbase[k] == base[k]
      invariant forall k :: ii < k < SEGMENTS ==> mtfbase[k] == TOP + MTFL_SIZE * k
      decreases ii
    {
      var jj := MTFL_SIZE - 1;
      while jj >= 0
        invariant -1 <= jj < MTFL_SIZE && kk == TOP + MTFL_SIZE * ii + jj
        invariant Lifting(mtfa[..], base, segs, ii, jj)
        invariant forall k :: 0 <= k <= ii ==> mtfbase[k] == base[k]
        invariant forall k :: ii < k < SEGMENTS ==> mtfbase[k] == TOP + MTFL_SIZE * k
        decreases jj
      {
        ghost var a := mtfa[..];
        LiftStep(a, base, segs, ii, jj);
        mtfa[kk] := mtfa[mtfbase[ii] + jj];
        assert mtfa[..] == a[kk := a[base[ii] + jj]];
        kk := kk - 1;
        jj := jj - 1;
      }
      LiftRow(mtfa[..], base, segs, ii);
      mtfbase[ii] := kk + 1;
      ii := ii - 1;
    }
    LiftEnd(mtfa[..], base, mtfbase[..], segs);
  }

  // ----- Start, lookup, move to front -----

  function StartSegments(): (s: seq<seq<int>>)
    ensures |s| == SEGMENTS
    ensures forall k :: 0 <= k < SEGMENTS ==>
      |s[k]| == MTFL_SIZE && forall j :: 0 <= j < MTFL_SIZE ==> s[k][j] == MTFL_SIZE * k + j
  {
    seq(SEGMENTS, k => seq(MTFL_SIZE, j => MTFL_SIZE * k + j))
  }

  lemma StartList()
    ensures Full(StartSegments()) && Flat(StartSegments()) == Identity(256)
  {
    hide Flat;
    FlatLength(StartSegments());
    forall i | 0 <= i < 256 ensures Flat(StartSegments())[i] == i {
      FlatIndex(StartSegments(), i / MTFL_SIZE, i % MTFL_SIZE);
    }
  }

  // The table starts as 0, 1, ..., 255 at the top of the cells.
  method InitTable(mtfa: array<int>, mtfbase: array<int>)
    requires mtfa != mtfbase && mtfa.Length == MTFA_SIZE && mtfbase.Length == SEGMENTS
    modifies mtfa, mtfbase
    ensures Table(mtfa[..], mtfbase[..], Identity(256))
  {
    hide Full, View, Flat, Identity;
    var kk := MTFA_SIZE - 1;
    var ii := SEGMENTS - 1;
    while ii >= 0
      invariant -1 <= ii < SEGMENTS && kk == TOP + MTFL_SIZE * ii + MTFL_SIZE - 1
      invariant forall k :: ii < k < SEGMENTS ==> mtfbase[k] == TOP + MTFL_SIZE * k
      invariant forall c :: kk < c < MTFA_SIZE ==> mtfa[c] == c - TOP
      decreases ii
    {
      var jj := MTFL_SIZE - 1;
      while jj >= 0
        invariant -1 <= jj < MTFL_SIZE && kk == TOP + MTFL_SIZE * ii + jj
        invariant forall k :: ii < k < SEGMENTS ==> mtfbase[k] == TOP + MTFL_SIZE * k
        invariant forall c :: kk < c < MTFA_SIZE ==> mtfa[c] == c - TOP
        decreases jj
      {
        mtfa[kk] := ii * MTFL_SIZE + jj;
        kk := kk - 1;
        jj := jj - 1;
      }
      mtfbase[ii] := kk + 1;
      ii := ii - 1;
    }
    StartList();
    StartHolds(mtfa[..], mtfbase[..]);
  }

  lemma StartHolds(a: seq<int>, base: seq<int>)
    requires |a| == MTFA_SIZE && |base| == SEGMENTS
    requires forall k :: 0 <= k < SEGMENTS ==> base[k] == TOP + MTFL_SIZE * k
    requires forall c :: TOP <= c < MTFA_SIZE ==> a[c] == c - TOP
    ensures Holds16(a, base, StartSegments())
  {
    var s := StartSegments();
    forall k | 0 <= k < SEGMENTS ensures At(a, base, s, k) {
      forall j | 0 <= j < MTFL_SIZE ensures a[base[k] + j] == s[k][j] { }
      assert a[base[k]..base[k] + MTFL_SIZE] == s[k];
    }
  }

  // The entry in front.
  method Front(mtfa: array<int>, mtfbase: array<int>, ghost list: seq<int>) returns (uc: int)
    requires Table(mtfa[..], mtfbase[..], list)
    ensures |list| == 256 && uc == list[0]
  {
    hide Holds16, Flat;
    ghost var segs :| Holds16(mtfa[..], mtfbase[..], segs) && Flat(segs) == list;
    TableIs(mtfa[..], mtfbase[..], segs);
    Entry(mtfa[..], mtfbase[..], segs, 0, 0);
    uc := mtfa[mtfbase[0]];
  }

  // The value at place nn: the table does to its cells what moving to the front does to the list.
  method MoveToFront(mtfa: array<int>, mtfbase: array<int>, nn: nat, ghost list: seq<int>) returns (uc: int)
    requires mtfa != mtfbase && Table(mtfa[..], mtfbase[..], list) && nn < 256
    modifies mtfa, mtfbase
    ensures |list| == 256 && uc == list[nn] && Table(mtfa[..], mtfbase[..], ToFront(list, nn))
  {
    hide Holds16, Flat, View, Full, OneShort, ToFront, Without;
    ghost var segs :| Holds16(mtfa[..], mtfbase[..], segs) && Flat(segs) == list;
    TableIs(mtfa[..], mtfbase[..], segs);
    if nn < MTFL_SIZE {
      uc, segs := FirstSegment(mtfa, mtfbase, nn, segs);
    } else {
      var lno, off := nn / MTFL_SIZE, nn % MTFL_SIZE;
      uc, segs := Extract(mtfa, mtfbase, lno, off, segs);
      segs := Cascade(mtfa, mtfbase, lno, uc, segs);
      FrontIs(list, nn);
      ViewSizes(mtfa[..], mtfbase[..], segs);
      if mtfbase[0] == 0 {
        Rebuild(mtfa, mtfbase, segs);
      } else {
        assert Holds16(mtfa[..], mtfbase[..], segs) by { Holds16Is(mtfa[..], mtfbase[..], segs); }
      }
    }
  }

  lemma ViewSizes(a: seq<int>, base: seq<int>, segs: seq<seq<int>>)
    requires Full(segs) && View(a, base, segs)
    ensures |base| == SEGMENTS && base[0] >= 0
  {
    assert At(a, base, segs, 0);
  }

  lemma Holds16Is(a: seq<int>, base: seq<int>, segs: seq<seq<int>>)
    requires Full(segs) && View(a, base, segs) && base[0] >= 1
    ensures Holds16(a, base, segs)
  {
  }
}
