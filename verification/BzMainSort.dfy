// The main sort (dep/bzip2/blocksort.c, mainSort): big buckets from the smallest to the largest,
// each finished by quicksorting what is left of it, used to fill other buckets by scanning,
// and cached as ranks for later comparisons.
module BzMainSort {
  import opened ByteType
  import opened Bits
  import opened BzRotation
  import opened BzInverseBwt
  import opened Rearranging
  import opened BzQSort3
  import opened BzMainCompare
  import opened BzMainSimple
  import BzMainQSort3
  import opened BzMainBuckets
  import opened BzMainScan
  import opened BzMainCopy

  // ----- The bucket table and its marks -----

  const SETMASK := 0x20_0000

  // The mark in the top bit of an entry: asked for, taken off and set, on values below 2 * SETMASK.
  predicate IsSet(x: int) {
    x >= SETMASK
  }

  function Cleared(x: int): int {
    if x >= SETMASK then x - SETMASK else x
  }

  function WithSet(x: int): int {
    if x >= SETMASK then x else x + SETMASK
  }

  ghost predicate Table(b: seq<Byte>, ft: seq<int>, done: seq<bool>) {
    && |b| < SETMASK && |ft| == 65537 == |done| && !done[65536]
    && forall w :: 0 <= w <= 65536 ==> TableAt(b, ft, done, w)
  }

  ghost predicate TableAt(b: seq<Byte>, ft: seq<int>, done: seq<bool>, w: int)
    requires |ft| == 65537 == |done| && 0 <= w <= 65536
  {
    From(b, w) < SETMASK && ft[w] == From(b, w) + if done[w] then SETMASK else 0
  }

  lemma TableIs(b: seq<Byte>, ft: seq<int>, done: seq<bool>, w: int)
    requires Table(b, ft, done) && 0 <= w <= 65536
    ensures |ft| == 65537 == |done| && Cleared(ft[w]) == From(b, w) && (IsSet(ft[w]) <==> done[w])
  {
    hide From;
    assert TableAt(b, ft, done, w);
  }

  lemma TableMark(b: seq<Byte>, ft: seq<int>, done: seq<bool>, w: int)
    requires Table(b, ft, done) && 0 <= w < 65536
    ensures |ft| == 65537 == |done| && Table(b, ft[w := WithSet(ft[w])], done[w := true])
  {
    hide From;
    var ft', done' := ft[w := WithSet(ft[w])], done[w := true];
    forall v | 0 <= v <= 65536 ensures TableAt(b, ft', done', v) { assert TableAt(b, ft, done, v); }
  }

  lemma TableStart(b: seq<Byte>, ft: seq<int>, done: seq<bool>)
    requires |b| < SETMASK && |ft| == 65537 && forall c :: 0 <= c <= 65536 ==> ft[c] == From(b, c)
    requires |done| == 65537 && forall w :: 0 <= w <= 65536 ==> !done[w]
    ensures Table(b, ft, done)
  {
    hide From;
    forall w | 0 <= w <= 65536 ensures TableAt(b, ft, done, w) { FromMono(b, w, w); }
  }

  // Small bucket [t, j] has been finished.
  predicate DoneAt(done: seq<bool>, t: int, j: int) {
    0 <= 256 * t + j < |done| && done[256 * t + j]
  }

  // What is finished is in order; a finished big bucket has finished small ones in its row and
  // its column.
  ghost predicate Progress(b: seq<Byte>, s: seq<int>, ft: seq<int>, done: seq<bool>, big: seq<bool>)
    requires b != []
  {
    && Filed(b, s) && Table(b, ft, done) && |big| == 256
    && (forall w :: 0 <= w < 65536 && done[w] ==> BucketSorted(b, s, w))
    && (forall t, j :: 0 <= t < 256 && 0 <= j < 256 && big[t] ==> DoneAt(done, t, j) && DoneAt(done, j, t))
  }

  // ----- The running order -----

  function BigFreqs(ft: seq<int>): (f: seq<int>)
    requires |ft| == 65537
    ensures |f| == 256 && forall t :: 0 <= t < 256 ==> f[t] == ft[256 * t + 256] - ft[256 * t]
  {
    seq(256, t requires 0 <= t < 256 => ft[256 * t + 256] - ft[256 * t])
  }

  lemma OrderKeyed(s: seq<int>, ec: seq<int>, lo: int, hi: int, k: int)
    requires Keyed(s, ec, 0, lo, hi) && lo <= k <= hi
    ensures 0 <= k < |s| && 0 <= s[k] < |ec| && Key(ec, 0, s[k]) == ec[s[k]]
  {
  }

  lemma PassedStart(s: seq<int>, ec: seq<int>, lo: int, hi: int, i: int)
    requires Keyed(s, ec, 0, lo, hi) && lo <= i <= hi
    ensures 0 <= i < |s| && Passed(s, ec, i, i, s[i])
  {
  }

  // One bucket moves left in steps of h past the larger ones.
  method InsertOrder(runningOrder: array<int>, ftab: array<int>, i: int, h: int)
    requires runningOrder != ftab && ftab.Length == 65537 && runningOrder.Length == 256 && 0 < h <= i < 256
    requires Keyed(runningOrder[..], BigFreqs(ftab[..]), 0, 0, 255)
    modifies runningOrder
    ensures PermRange(old(runningOrder[..]), runningOrder[..], 0, i)
    ensures h == 1 && InOrder(old(runningOrder[..]), BigFreqs(ftab[..]), 0, i - 1) ==>
      InOrder(runningOrder[..], BigFreqs(ftab[..]), 0, i)
  {
    hide PermRange, Key, Gap, Passed, InOrder, Keyed;
    ghost var s, ec := runningOrder[..], BigFreqs(ftab[..]);
    var vv := runningOrder[i];
    var j := i;
    GapStart(s, 0, i, h);
    OrderKeyed(s, ec, 0, 255, i);
    PassedStart(s, ec, 0, 255, i);
    var freq := ftab[256 * vv + 256] - ftab[256 * vv];
    while true
      invariant 0 <= j - h && j <= i && Gap(s, runningOrder[..], 0, i, j, h, vv)
      invariant h == 1 ==> Passed(s, ec, j, i, vv)
      decreases j
    {
      GapStep(s, runningOrder[..], 0, i, j, h, vv);
      OrderKeyed(s, ec, 0, 255, j - h);
      var before := runningOrder[j - h];
      if !(ftab[256 * before + 256] - ftab[256 * before] > freq) { break; }
      if h == 1 { PassedMore(s, ec, j, i, vv); }
      ghost var f := runningOrder[..];
      runningOrder[j] := runningOrder[j - h];
      assert runningOrder[..] == f[j := f[j - h]];
      j := j - h;
      if j <= h - 1 { break; }
    }
    if h == 1 && InOrder(s, ec, 0, i - 1) { GapOrder(s, runningOrder[..], ec, 0, i, j, vv); }
    GapPerm(s, runningOrder[..], 0, i, j, h, vv);
    ghost var f := runningOrder[..];
    runningOrder[j] := vv;
    assert runningOrder[..] == f[j := vv];
  }

  // All big buckets, from the least full to the fullest.
  method RunningOrder(ftab: array<int>) returns (runningOrder: array<int>)
    requires ftab.Length == 65537
    ensures fresh(runningOrder) && runningOrder.Length == 256 && IsPermutation(runningOrder[..], 256)
    ensures InOrder(runningOrder[..], BigFreqs(ftab[..]), 0, 255)
  {
    hide PermRange, InOrder, Key, IsPermutation;
    runningOrder := new int[256](i => i);
    ghost var s, ec := runningOrder[..], BigFreqs(ftab[..]);
    PermRefl(s, 0, 255);
    OrderStart(s, ec);
    var h := 4;
    while h <= 256
      invariant h == 4 || h == 13 || h == 40 || h == 121 || h == 364
      decreases 400 - h
    {
      h := 3 * h + 1;
    }
    while true
      invariant h == 364 || h == 121 || h == 40 || h == 13 || h == 4
      invariant PermRange(s, runningOrder[..], 0, 255) && Keyed(runningOrder[..], ec, 0, 0, 255)
      decreases h
    {
      h := h / 3;
      OneEntry(runningOrder[..], ec);
      var i := h;
      while i <= 255
        invariant h <= i <= 256
        invariant PermRange(s, runningOrder[..], 0, 255) && Keyed(runningOrder[..], ec, 0, 0, 255)
        invariant h == 1 ==> InOrder(runningOrder[..], ec, 0, i - 1)
      {
        ghost var t := runningOrder[..];
        InsertOrder(runningOrder, ftab, i, h);
        PermWider(t, runningOrder[..], 0, i, 0, 255);
        PermTrans(s, t, runningOrder[..], 0, 255);
        KeyedPerm(t, runningOrder[..], ec, 0, 0, 255);
        i := i + 1;
      }
      if h == 1 { break; }
    }
    OrderEnd(s, runningOrder[..]);
  }

  lemma OrderStart(s: seq<int>, ec: seq<int>)
    requires |s| == 256 == |ec| && forall i :: 0 <= i < 256 ==> s[i] == i
    ensures Keyed(s, ec, 0, 0, 255)
  {
  }

  lemma OneEntry(s: seq<int>, ec: seq<int>)
    requires Keyed(s, ec, 0, 0, 255)
    ensures InOrder(s, ec, 0, 0)
  {
  }

  lemma OrderEnd(s: seq<int>, t: seq<int>)
    requires |s| == 256 && (forall i :: 0 <= i < 256 ==> s[i] == i) && PermRange(s, t, 0, 255)
    ensures IsPermutation(t, 256)
  {
    PermDistinct(s, t, 0, 255);
    forall x | 0 <= x < 256 ensures 0 <= t[x] < 256 { var q := PermSource(s, t, 0, 255, x); }
  }

  // ----- Step 1 -----

  lemma TinySorted(b: seq<Byte>, s: seq<int>, w: int)
    requires b != [] && Filed(b, s) && From(b, w + 1) - 1 <= From(b, w)
    ensures BucketSorted(b, s, w)
  {
    hide From, Place, EqUpTo;
    BucketAlike(b, s, w);
    ShortOrder(b, s, From(b, w), From(b, w + 1) - 1, 2);
  }

  // One bucket more is in order.
  lemma ProgressSort(b: seq<Byte>, s: seq<int>, t: seq<int>, ft: seq<int>, done: seq<bool>, big: seq<bool>, w: int)
    requires b != [] && Progress(b, s, ft, done, big) && 0 <= w < 65536 && From(b, w) < From(b, w + 1)
    requires PermRange(s, t, From(b, w), From(b, w + 1) - 1) && !done[w]
    ensures Progress(b, t, ft, done, big)
  {
    hide From, PermRange, BucketSorted, Filed, Table, DoneAt;
    BucketRearranged(b, s, t, w);
    TableIs(b, ft, done, w);
    forall v | 0 <= v < 65536 && done[v] ensures BucketSorted(b, t, v) { OthersSorted(b, s, t, w, v); }
  }

  lemma ProgressMark(b: seq<Byte>, s: seq<int>, ft: seq<int>, done: seq<bool>, big: seq<bool>, w: int)
    requires b != [] && Progress(b, s, ft, done, big) && 0 <= w < 65536 && BucketSorted(b, s, w)
    ensures |ft| == 65537 == |done| && Progress(b, s, ft[w := WithSet(ft[w])], done[w := true], big)
  {
    hide From, BucketSorted, Filed, Table, DoneAt;
    TableMark(b, ft, done, w);
    var done' := done[w := true];
    forall t, j | 0 <= t < 256 && 0 <= j < 256 && big[t] ensures DoneAt(done', t, j) && DoneAt(done', j, t) {
      DoneMore(done, w, t, j);
      DoneMore(done, w, j, t);
    }
  }

  lemma DoneMore(done: seq<bool>, w: int, t: int, j: int)
    requires 0 <= w < |done|
    ensures DoneAt(done, t, j) || w == 256 * t + j ==> DoneAt(done[w := true], t, j)
  {
  }

  lemma ProgressParts(b: seq<Byte>, s: seq<int>, ft: seq<int>, done: seq<bool>, big: seq<bool>, w: int)
    requires b != [] && Progress(b, s, ft, done, big) && 0 <= w <= 65536
    ensures Filed(b, s) && |s| == |b| < SETMASK && |ft| == 65537 == |done| && |big| == 256
    ensures Cleared(ft[w]) == From(b, w) <= |b| && (IsSet(ft[w]) <==> done[w])
    ensures w < 65536 && done[w] ==> BucketSorted(b, s, w)
  {
    hide From, BucketSorted;
    TableIs(b, ft, done, w);
    FromMono(b, w, w);
  }

  // One small bucket, sorted and marked unless it has been.
  method SortSmall(ptr: array<int>, block: array<Byte>, quadrant: array<int>, ftab: array<int>, sb: int, budget0: int,
                   ghost b: seq<Byte>, ghost done0: seq<bool>, ghost big: seq<bool>)
    returns (budget: int, ghost done: seq<bool>)
    requires ptr != quadrant && ptr != ftab && quadrant != ftab && 0 <= sb < 65536
    requires Ready(b, block[..], quadrant[..]) && Progress(b, ptr[..], ftab[..], done0, big) && |done0| == 65537
    requires budget0 >= 0
    modifies ptr, ftab
    ensures Thrifty(b, budget0, budget)
    ensures budget >= 0 ==> (Progress(b, ptr[..], ftab[..], done, big) && done == done0[sb := true])
  {
    hide Ready, Progress, From, PermRange, InOrder, BucketSorted, Filed, Repetitive;
    budget, done := budget0, done0;
    ReadyLength(b, block[..], quadrant[..]);
    ProgressParts(b, ptr[..], ftab[..], done, big, sb);
    ProgressParts(b, ptr[..], ftab[..], done, big, sb + 1);
    if !IsSet(ftab[sb]) {
      var lo := Cleared(ftab[sb]);
      var hi := Cleared(ftab[sb + 1]) - 1;
      if hi > lo {
        ghost var s := ptr[..];
        BucketAlike(b, s, sb);
        budget := BzMainQSort3.QSort3(ptr, block, quadrant, lo, hi, 2, budget, b);
        if budget < 0 { return; }
        ProgressSort(b, s, ptr[..], ftab[..], done, big, sb);
        InOrderSorted(b, ptr[..], sb);
      } else {
        TinySorted(b, ptr[..], sb);
      }
    }
    ghost var ft := ftab[..];
    ProgressMark(b, ptr[..], ft, done, big, sb);
    ftab[sb] := WithSet(ftab[sb]);
    assert ftab[..] == ft[sb := WithSet(ft[sb])];
    done := done[sb := true];
  }

  lemma InOrderSorted(b: seq<Byte>, s: seq<int>, w: int)
    requires b != [] && InOrder(s, Places(b), From(b, w), From(b, w + 1) - 1)
    ensures BucketSorted(b, s, w)
  {
  }

  // The small buckets [ss, j] for all j but ss.
  method SortRow(ptr: array<int>, block: array<Byte>, quadrant: array<int>, ftab: array<int>, ss: int, budget0: int,
                 ghost b: seq<Byte>, ghost done0: seq<bool>, ghost big: seq<bool>)
    returns (budget: int, ghost done: seq<bool>)
    requires ptr != quadrant && ptr != ftab && quadrant != ftab && 0 <= ss < 256
    requires Ready(b, block[..], quadrant[..]) && Progress(b, ptr[..], ftab[..], done0, big) && |done0| == 65537
    requires budget0 >= 0
    modifies ptr, ftab
    ensures Thrifty(b, budget0, budget)
    ensures budget >= 0 ==> (Progress(b, ptr[..], ftab[..], done, big) && |done| == 65537
      && forall j :: 0 <= j < 256 && j != ss ==> DoneAt(done, ss, j))
  {
    hide Ready, Progress, DoneAt, Repetitive;
    ReadyLength(b, block[..], quadrant[..]);
    budget, done := budget0, done0;
    for j := 0 to 256
      invariant 0 <= budget && Thrifty(b, budget0, budget) && |done| == 65537
      invariant Ready(b, block[..], quadrant[..]) && Progress(b, ptr[..], ftab[..], done, big)
      invariant forall k :: 0 <= k < j && k != ss ==> DoneAt(done, ss, k)
    {
      if j != ss {
        ghost var before := done;
        budget, done := SortSmall(ptr, block, quadrant, ftab, 256 * ss + j, budget, b, done, big);
        if budget < 0 { return; }
        forall k | 0 <= k <= j && k != ss ensures DoneAt(done, ss, k) { DoneMore(before, 256 * ss + j, ss, k); }
      }
    }
  }

  // ----- Step 2 -----

  lemma ProgressRow(b: seq<Byte>, s: seq<int>, ft: seq<int>, done: seq<bool>, big: seq<bool>, ss: int)
    requires b != [] && Progress(b, s, ft, done, big) && 0 <= ss < 256
    requires forall j :: 0 <= j < 256 && j != ss ==> DoneAt(done, ss, j)
    ensures RowSorted(b, s, ss)
  {
    hide From, BucketSorted, Filed;
    TableIs(b, ft, done, 0);
    forall j | 0 <= j < 256 && j != ss ensures SmallSorted(b, s, ss, j) {
      assert DoneAt(done, ss, j);
      assert BucketSorted(b, s, 256 * ss + j);
      SmallIs(b, s, ss, j);
    }
  }

  lemma SmallIs(b: seq<Byte>, s: seq<int>, t: int, j: int)
    requires b != []
    ensures SmallSorted(b, s, t, j) <==> BucketSorted(b, s, 256 * t + j)
  {
  }

  // After the scan all that was finished still is, and so are all small buckets [t, ss].
  lemma ProgressCopied(b: seq<Byte>, s0: seq<int>, s: seq<int>, ft: seq<int>, done: seq<bool>, big: seq<bool>, ss: int)
    requires b != [] && Progress(b, s0, ft, done, big) && Copied(b, s0, s, big, ss) && 0 <= ss < 256
    ensures Progress(b, s, ft, done, big) && forall t :: 0 <= t < 256 ==> SmallSorted(b, s, t, ss)
  {
    hide From, BucketSorted, Filed, SmallSorted;
    TableIs(b, ft, done, 0);
    forall w | 0 <= w < 65536 && done[w] ensures BucketSorted(b, s, w) {
      if Fills(big, ss, w) {
        FillsParts(big, ss, w);
        SmallIs(b, s, w / 256, ss);
      }
    }
    forall t | 0 <= t < 256 ensures SmallSorted(b, s, t, ss) {
      SmallIs(b, s, t, ss);
      if big[t] { assert DoneAt(done, t, ss); }
    }
  }

  method InitCopies(ftab: array<int>, copyStart: array<int>, copyEnd: array<int>, ss: int, ghost b: seq<Byte>,
                    ghost done: seq<bool>)
    requires copyStart != copyEnd && copyStart != ftab && copyEnd != ftab && copyStart.Length == 256 == copyEnd.Length
    requires Table(b, ftab[..], done) && 0 <= ss < 256
    modifies copyStart, copyEnd
    ensures StartsAt(b, ss, copyStart[..], copyEnd[..])
  {
    hide Table, From;
    ghost var ft := ftab[..];
    TableIs(b, ft, done, 0);
    for j := 0 to 256
      invariant ftab[..] == ft
      invariant forall t :: 0 <= t < j ==> copyStart[t] == Start(b, t, ss) && copyEnd[t] == Stop(b, t, ss) - 1
    {
      TableIs(b, ft, done, 256 * j + ss);
      TableIs(b, ft, done, 256 * j + ss + 1);
      copyStart[j] := Cleared(ftab[256 * j + ss]);
      copyEnd[j] := Cleared(ftab[256 * j + ss + 1]) - 1;
    }
  }

  // The two ends have met, unless the block is one byte value throughout.
  lemma ScanDone(b: seq<Byte>, s0: seq<int>, s: seq<int>, big: seq<bool>, c: int, cs: seq<int>, ce: seq<int>,
                 ql: seq<int>)
    requires b != [] && Filed(b, s0) && Chain(b, c, ql, false) && Complete(b, c, ql, false)
    requires |cs| == 256 == |ce| && 0 <= c < 256 && Bwd(b, s0, s, big, c, cs, ce, ce[c], ql) && !big[c]
    requires RowStart(b, c) <= cs[c] <= |s| && |ql| == cs[c] - RowStart(b, c)
    ensures Copied(b, s0, s, big, c)
    ensures cs[c] - 1 == ce[c] || (cs[c] == 0 && ce[c] == |b| - 1)
  {
    hide Bwd, Copied, Chain, Complete, Filed, From;
    if z :| 0 <= z < |b| && b[z] != c {
      MixedDone(b, s0, s, big, c, cs, ce, ql, z);
    } else {
      UniformDone(b, s0, s, big, c, cs, ce, ql);
    }
  }

  lemma FwdComplete(b: seq<Byte>, s0: seq<int>, s: seq<int>, big: seq<bool>, c: int, cs: seq<int>)
    requires b != [] && Filed(b, s0) && |cs| == 256 && 0 <= c < 256 && Fwd(b, s0, s, big, c, cs, cs[c])
    ensures RowStart(b, c) <= cs[c] <= |s|
    ensures Chain(b, c, s[RowStart(b, c)..cs[c]], false) && Complete(b, c, s[RowStart(b, c)..cs[c]], false)
  {
    hide Chain, Complete, Filed, From, GrowsUp, LeftOk, Kept;
    UpComplete(b, s0, c, s[RowStart(b, c)..cs[c]]);
  }

  method CopyRow(ptr: array<int>, block: array<Byte>, bigDone: array<bool>, ftab: array<int>, ss: int, nblock: nat,
                 ghost b: seq<Byte>, ghost done0: seq<bool>)
    returns (ghost done: seq<bool>)
    requires ptr != ftab && bigDone.Length == 256 && 0 <= ss < 256 && !bigDone[ss]
    requires b != [] && nblock == |b| == ptr.Length <= block.Length && block[..nblock] == b
    requires Progress(b, ptr[..], ftab[..], done0, bigDone[..]) && |done0| == 65537
    requires forall j :: 0 <= j < 256 && j != ss ==> DoneAt(done0, ss, j)
    modifies ptr, ftab
    ensures |done| == 65537 && Progress(b, ptr[..], ftab[..], done, bigDone[..])
    ensures forall j :: 0 <= j < 256 ==> DoneAt(done, ss, j) && DoneAt(done, j, ss)
  {
    hide Progress, Fwd, Bwd, Copied, Chain, Complete, Filed, From, DoneAt, SmallSorted, RowSorted, Table, StartsAt;
    ghost var big, s0, ft := bigDone[..], ptr[..], ftab[..];
    var copyStart, copyEnd := new int[256], new int[256];
    ProgressParts(b, s0, ft, done0, big, 256 * ss);
    ProgressParts(b, s0, ft, done0, big, 256 * ss + 256);
    ProgressTable(b, s0, ft, done0, big);
    ProgressRow(b, s0, ft, done0, big, ss);
    InitCopies(ftab, copyStart, copyEnd, ss, b, done0);
    FwdStart(b, s0, big, ss, copyStart[..], copyEnd[..]);
    StartsEnd(b, ss, copyStart[..], copyEnd[..]);
    var first, last := Cleared(ftab[256 * ss]), Cleared(ftab[256 * ss + 256]) - 1;
    CopyUp(ptr, block, bigDone, copyStart, first, ss, nblock, b, s0);
    ghost var cs := copyStart[..];
    FwdComplete(b, s0, ptr[..], big, ss, cs);
    ghost var ql := ptr[first..copyStart[ss]];
    BwdStart(b, s0, ptr[..], big, ss, cs, copyEnd[..]);
    CopyDown(ptr, block, bigDone, copyEnd, last, ss, nblock, b, s0, cs, ql);
    ScanDone(b, s0, ptr[..], big, ss, cs, copyEnd[..], ql);
    assert copyStart[ss] - 1 == copyEnd[ss] || (copyStart[ss] == 0 && copyEnd[ss] == nblock - 1);
    ProgressCopied(b, s0, ptr[..], ft, done0, big, ss);
    done := MarkColumn(ftab, ss, b, ptr[..], done0, big);
  }

  lemma ProgressTable(b: seq<Byte>, s: seq<int>, ft: seq<int>, done: seq<bool>, big: seq<bool>)
    requires b != [] && Progress(b, s, ft, done, big)
    ensures Table(b, ft, done)
  {
    hide Table, Filed, BucketSorted;
  }

  lemma StartsEnd(b: seq<Byte>, c: int, cs: seq<int>, ce: seq<int>)
    requires StartsAt(b, c, cs, ce)
    ensures |cs| == 256 == |ce| && forall t :: 0 <= t < 256 ==> ce[t] == Stop(b, t, c) - 1
  {
    hide From;
  }

  // The small buckets [j, ss] are done, for all j.
  method MarkColumn(ftab: array<int>, ss: int, ghost b: seq<Byte>, ghost s: seq<int>, ghost done0: seq<bool>,
                    ghost big: seq<bool>)
    returns (ghost done: seq<bool>)
    requires 0 <= ss < 256 && b != [] && Progress(b, s, ftab[..], done0, big) && |done0| == 65537
    requires forall t :: 0 <= t < 256 ==> SmallSorted(b, s, t, ss)
    requires forall j :: 0 <= j < 256 && j != ss ==> DoneAt(done0, ss, j)
    modifies ftab
    ensures |done| == 65537 && Progress(b, s, ftab[..], done, big)
    ensures forall j :: 0 <= j < 256 ==> DoneAt(done, ss, j) && DoneAt(done, j, ss)
  {
    hide Progress, DoneAt, SmallSorted, BucketSorted;
    done := done0;
    for j := 0 to 256
      invariant |done| == 65537 && Progress(b, s, ftab[..], done, big)
      invariant forall k :: 0 <= k < j ==> DoneAt(done, k, ss)
      invariant forall k :: 0 <= k < 256 && k != ss ==> DoneAt(done, ss, k)
    {
      ghost var ft, before, w := ftab[..], done, 256 * j + ss;
      SmallIs(b, s, j, ss);
      ProgressMark(b, s, ft, done, big, w);
      ftab[256 * j + ss] := WithSet(ftab[256 * j + ss]);
      assert ftab[..] == ft[w := WithSet(ft[w])];
      done := done[w := true];
      forall k | 0 <= k < 256 && k != ss ensures DoneAt(done, ss, k) { DoneMore(before, w, ss, k); }
      forall k | 0 <= k <= j ensures DoneAt(done, k, ss) { DoneMore(before, w, k, ss); }
    }
  }

  // ----- Step 3 -----

  // A finished big bucket is in order throughout.
  lemma RowInOrder(b: seq<Byte>, s: seq<int>, c: int, p: int, q: int)
    requires b != [] && Filed(b, s) && 0 <= c < 256 && (forall j :: 0 <= j < 256 ==> SmallSorted(b, s, c, j))
    requires RowStart(b, c) <= p < q < RowStop(b, c)
    ensures 0 <= p < q < |s| && 0 <= s[p] < |b| && 0 <= s[q] < |b| && Leq(b, s[p], s[q])
  {
    hide From, Place, Leq;
    RowEntry(b, s, c, p);
    RowEntry(b, s, c, q);
    var v, w := Pair(b, s[p]), Pair(b, s[q]);
    PairParts(b, s[p]);
    PairParts(b, s[q]);
    TwoBytes(b, s[p], s[q]);
    if v == w {
      assert SmallSorted(b, s, c, b[Succ(s[p], |b|)]);
      assert BucketSorted(b, s, v);
      KeysOrder(b, s[p], s[q]);
    } else if v > w {
      FromMono(b, w + 1, v);
    }
  }

  lemma {:induction false} ShrMono(x: nat, y: nat, n: nat)
    requires x <= y
    ensures Shr(x, n) <= Shr(y, n)
    decreases n
  {
    if n > 0 { ShrMono(x / 2, y / 2, n - 1); }
  }

  function RankOf(b: seq<Byte>, c: int, k: int, shifts: nat): int
    requires k >= RowStart(b, c)
  {
    Shr(k - RowStart(b, c), shifts)
  }

  // The ranks of the entries from j on have been written, here and behind the block.
  ghost predicate RanksFrom(b: seq<Byte>, s: seq<int>, quad0: seq<int>, quad: seq<int>, c: int, j: int, shifts: nat) {
    && |s| == |b| && |quad0| == |quad| == |b| + OVERSHOOT && |b| > OVERSHOOT
    && RowStart(b, c) + j <= RowStop(b, c) <= |b| && 0 <= j
    && (forall k :: RowStart(b, c) + j <= k < RowStop(b, c) ==>
      0 <= s[k] < |b| && quad[s[k]] == RankOf(b, c, k, shifts))
    && (forall x :: 0 <= x < |b| && b[x] != c ==> quad[x] == quad0[x])
    && (forall x :: |b| <= x < |b| + OVERSHOOT ==> quad[x] == quad[x - |b|])
  }

  lemma RanksStep(b: seq<Byte>, s: seq<int>, quad0: seq<int>, quad: seq<int>, c: int, j: int, shifts: nat)
    requires RanksFrom(b, s, quad0, quad, c, j + 1, shifts) && j >= 0 && Filed(b, s) && 0 <= c < 256
    ensures 0 <= RowStart(b, c) + j < |s| && 0 <= s[RowStart(b, c) + j] < |b|
    ensures var x, r := s[RowStart(b, c) + j], Shr(j, shifts);
      RanksFrom(b, s, quad0, if x < OVERSHOOT then quad[x := r][x + |b| := r] else quad[x := r], c, j, shifts)
  {
    hide From, Filed, Shr;
    var at := RowStart(b, c) + j;
    RowEntry(b, s, c, at);
    var x := s[at];
    forall k | at < k < RowStop(b, c) ensures s[k] != x { FiledDistinct(b, s); }
  }

  lemma RanksStart(b: seq<Byte>, s: seq<int>, block: seq<Byte>, quad: seq<int>, c: int, shifts: nat)
    requires Ready(b, block, quad) && Filed(b, s) && 0 <= c < 256
    ensures RowStart(b, c) <= RowStop(b, c) <= |b| &&
      RanksFrom(b, s, quad, quad, c, RowStop(b, c) - RowStart(b, c), shifts)
  {
    hide From, Filed, Leq;
    RowBounds(b, c);
    FiledLength(b, s);
  }

  // The new ranks fit the order, so comparisons may use them.
  lemma RanksReady(b: seq<Byte>, s: seq<int>, block: seq<Byte>, quad0: seq<int>, quad: seq<int>, c: int, shifts: nat)
    requires Ready(b, block, quad0) && RanksFrom(b, s, quad0, quad, c, 0, shifts) && Filed(b, s) && 0 <= c < 256
    requires forall j :: 0 <= j < 256 ==> SmallSorted(b, s, c, j)
    ensures Ready(b, block, quad)
  {
    hide From, Filed, Leq, SmallSorted, RankOf;
    forall x, y | 0 <= x < |b| && 0 <= y < |b| && b[x] == b[y] && quad[x] < quad[y] ensures Leq(b, x, y) {
      if b[x] == c {
        var k := RowPlace(b, s, c, x);
        var l := RowPlace(b, s, c, y);
        RankOrder(b, c, k, l, shifts);
        RowInOrder(b, s, c, k, l);
      } else {
        assert quad0[x] < quad0[y];
      }
    }
  }

  lemma RankOrder(b: seq<Byte>, c: int, k: int, l: int, shifts: nat)
    requires RowStart(b, c) <= k && RowStart(b, c) <= l && RankOf(b, c, k, shifts) < RankOf(b, c, l, shifts)
    ensures k < l
  {
    hide From, Shr;
    if l <= k { ShrMono(l - RowStart(b, c), k - RowStart(b, c), shifts); }
  }

  // Every rotation that begins with c stands in the row of c.
  lemma RowPlace(b: seq<Byte>, s: seq<int>, c: int, x: int) returns (k: int)
    requires Filed(b, s) && 0 <= x < |b| && b[x] == c
    ensures RowStart(b, c) <= k < RowStop(b, c) && k < |s| && s[k] == x
  {
    hide From, Filed;
    PairParts(b, x);
    var w := Pair(b, x);
    k := PlaceOf(b, s, x);
    FromMono(b, 256 * c, w);
    FromMono(b, w + 1, 256 * c + 256);
  }

  // The ranks of a finished big bucket, in steps that fit sixteen bits.
  method UpdateRanks(ptr: array<int>, quadrant: array<int>, bbStart: int, bbSize: int, ss: int, nblock: nat,
                     ghost b: seq<Byte>, ghost block: seq<Byte>)
    requires ptr != quadrant && nblock == |b| == ptr.Length && quadrant.Length == nblock + OVERSHOOT && 0 <= ss < 256
    requires Ready(b, block, quadrant[..]) && Filed(b, ptr[..]) && bbStart == RowStart(b, ss)
    requires bbSize == RowStop(b, ss) - RowStart(b, ss) && forall j :: 0 <= j < 256 ==> SmallSorted(b, ptr[..], ss, j)
    modifies quadrant
    ensures Ready(b, block, quadrant[..])
  {
    hide Ready, Filed, From, SmallSorted, RanksFrom, Shr;
    ghost var s, quad0 := ptr[..], quadrant[..];
    RowBounds(b, ss);
    var shifts: nat := 0;
    ShrZero(bbSize);
    while Shr(bbSize, shifts) > 65534
      invariant quadrant[..] == quad0
      decreases Shr(bbSize, shifts)
    {
      ShrMore(bbSize, shifts);
      shifts := shifts + 1;
    }
    RanksStart(b, s, block, quad0, ss, shifts);
    var j := bbSize - 1;
    while j >= 0
      invariant -1 <= j < bbSize && ptr[..] == s && RanksFrom(b, s, quad0, quadrant[..], ss, j + 1, shifts)
    {
      ghost var quad := quadrant[..];
      RanksStep(b, s, quad0, quad, ss, j, shifts);
      var a2update := ptr[bbStart + j];
      ShrMono(j, bbSize, shifts);
      var qVal := Shr(j, shifts);
      assert qVal <= 65535;
      quadrant[a2update] := qVal;
      if a2update < OVERSHOOT { quadrant[a2update + nblock] := qVal; }
      assert quadrant[..] ==
        if a2update < OVERSHOOT then quad[a2update := qVal][a2update + |b| := qVal] else quad[a2update := qVal];
      j := j - 1;
    }
    RanksReady(b, s, block, quad0, quadrant[..], ss, shifts);
  }

  lemma ShrZero(x: nat)
    ensures Shr(x, 0) == x
  {
  }

  lemma {:induction false} ShrMore(x: nat, n: nat)
    ensures Shr(x, n) > 0 ==> Shr(x, n + 1) < Shr(x, n)
    decreases n
  {
    if n > 0 { ShrMore(x / 2, n - 1); } else { assert Shr(x, 1) == Shr(x / 2, 0) == x / 2; }
  }

  // ----- The whole sort -----

  lemma BigMore(b: seq<Byte>, s: seq<int>, ft: seq<int>, done: seq<bool>, big: seq<bool>, ss: int)
    requires b != [] && Progress(b, s, ft, done, big) && 0 <= ss < 256
    requires forall j :: 0 <= j < 256 ==> DoneAt(done, ss, j) && DoneAt(done, j, ss)
    ensures |big| == 256 && Progress(b, s, ft, done, big[ss := true])
    ensures forall j :: 0 <= j < 256 ==> SmallSorted(b, s, ss, j)
  {
    hide Filed, Table, BucketSorted, DoneAt;
    var big' := big[ss := true];
    forall t, j | 0 <= t < 256 && 0 <= j < 256 && big'[t] ensures DoneAt(done, t, j) && DoneAt(done, j, t) {
      if t != ss { assert big[t]; }
    }
    forall j | 0 <= j < 256 ensures SmallSorted(b, s, ss, j) {
      assert DoneAt(done, ss, j);
      DoneIs(done, ss, j);
      TableIs(b, ft, done, 256 * ss + j);
      SmallIs(b, s, ss, j);
    }
  }

  lemma DoneIs(done: seq<bool>, t: int, j: int)
    requires DoneAt(done, t, j)
    ensures 0 <= 256 * t + j < |done| && done[256 * t + j]
  {
  }

  // With all big buckets done the rotations are in order.
  lemma EverythingDone(b: seq<Byte>, s: seq<int>, ft: seq<int>, done: seq<bool>, big: seq<bool>)
    requires b != [] && Progress(b, s, ft, done, big) && |big| == 256 && forall t :: 0 <= t < 256 ==> big[t]
    ensures SortedRotations(b, s)
  {
    hide Filed, Table, BucketSorted, DoneAt, SortedRotations;
    TableIs(b, ft, done, 0);
    forall w | 0 <= w < 65536 ensures BucketSorted(b, s, w) {
      assert DoneAt(done, w / 256, w % 256);
      DoneIs(done, w / 256, w % 256);
      assert 256 * (w / 256) + w % 256 == w;
    }
    AllSorted(b, s);
  }

  lemma ProgressStart(b: seq<Byte>, s: seq<int>, ft: seq<int>, done: seq<bool>, big: seq<bool>)
    requires b != [] && Filed(b, s) && |b| < SETMASK && |ft| == 65537
      && forall c :: 0 <= c <= 65536 ==> ft[c] == From(b, c)
    requires |done| == 65537 && (forall w :: 0 <= w <= 65536 ==> !done[w]) && |big| == 256
      && forall t :: 0 <= t < 256 ==> !big[t]
    ensures Progress(b, s, ft, done, big)
  {
    hide Filed, Table, BucketSorted, From;
    TableStart(b, ft, done);
  }

  // The first i big buckets in the running order are finished, and no others.
  ghost predicate Ran(order: seq<int>, big: seq<bool>, i: nat) {
    && IsPermutation(order, 256) && |big| == 256 && i <= 256
    && (forall k :: 0 <= k < i ==> big[order[k]]) && (forall k :: i <= k < 256 ==> !big[order[k]])
  }

  lemma RanNext(order: seq<int>, big: seq<bool>, i: nat)
    requires Ran(order, big, i) && i < 256
    ensures |order| == 256 == |big| && 0 <= order[i] < 256 && !big[order[i]] && Ran(order, big[order[i] := true], i + 1)
  {
  }

  lemma RanAll(order: seq<int>, big: seq<bool>)
    requires Ran(order, big, 256)
    ensures |big| == 256 && forall t :: 0 <= t < 256 ==> big[t]
  {
    forall t | 0 <= t < 256 ensures big[t] {
      Pigeonhole(order, 256, t);
      var k :| 0 <= k < 256 && order[k] == t;
    }
  }

  // One big bucket: steps 1 to 3.
  method BigBucket(ptr: array<int>, block: array<Byte>, quadrant: array<int>, ftab: array<int>, bigDone: array<bool>,
                   ss: int, final: bool, nblock: nat, budget0: int, ghost b: seq<Byte>, ghost done0: seq<bool>)
    returns (budget: int, ghost done: seq<bool>)
    requires ptr != quadrant && ptr != ftab && quadrant != ftab && bigDone.Length == 256 && 0 <= ss < 256
      && !bigDone[ss]
    requires nblock == |b| == ptr.Length && block.Length == nblock + OVERSHOOT && block[..nblock] == b && b != []
    requires Ready(b, block[..], quadrant[..]) && Progress(b, ptr[..], ftab[..], done0, bigDone[..]) && |done0| == 65537
    requires budget0 >= 0
    modifies ptr, ftab, quadrant, bigDone
    ensures Thrifty(b, budget0, budget)
    ensures budget >= 0 ==> (bigDone[..] == old(bigDone[..])[ss := true] && |done| == 65537
      && Ready(b, block[..], quadrant[..]) && Progress(b, ptr[..], ftab[..], done, bigDone[..]))
  {
    hide Ready, Progress, DoneAt, SmallSorted, From, Filed, Repetitive;
    ghost var big := bigDone[..];
    ReadyLength(b, block[..], quadrant[..]);
    budget, done := SortRow(ptr, block, quadrant, ftab, ss, budget0, b, done0, big);
    if budget < 0 { return; }
    assert !bigDone[ss];
    done := CopyRow(ptr, block, bigDone, ftab, ss, nblock, b, done);
    BigMore(b, ptr[..], ftab[..], done, big, ss);
    bigDone[ss] := true;
    assert bigDone[..] == big[ss := true];
    if !final {
      ProgressParts(b, ptr[..], ftab[..], done, bigDone[..], 256 * ss);
      ProgressParts(b, ptr[..], ftab[..], done, bigDone[..], 256 * ss + 256);
      var bbStart := Cleared(ftab[256 * ss]);
      var bbSize := Cleared(ftab[256 * ss + 256]) - bbStart;
      UpdateRanks(ptr, quadrant, bbStart, bbSize, ss, nblock, b, block[..]);
    }
  }

  // If the budget lasts, ptr ends as the rotations in order. The block itself is not changed.
  method MainSort(ptr: array<int>, block: array<Byte>, quadrant: array<int>, ftab: array<int>, nblock: nat,
                  budget0: int)
    returns (budget: int)
    requires ptr != quadrant && ptr != ftab && quadrant != ftab && OVERSHOOT < nblock < SETMASK && budget0 >= 0
    requires ptr.Length == nblock && block.Length == nblock + OVERSHOOT == quadrant.Length && ftab.Length == 65537
    modifies ptr, block, quadrant, ftab
    ensures block[..nblock] == old(block[..nblock]) && Thrifty(block[..nblock], budget0, budget)
    ensures budget >= 0 ==> SortedRotations(block[..nblock], ptr[..])
  {
    hide Ready, Progress, SortedRotations, IsPermutation, Ran, From, Filed, InOrder, Repetitive;
    ghost var b := block[..nblock];
    CountPairs(block, quadrant, ftab, nblock);
    Cumulate(ftab, b);
    PlacePairs(block, ftab, ptr, nblock, b);
    var runningOrder := RunningOrder(ftab);
    var bigDone := new bool[256](i => false);
    ghost var order, done := runningOrder[..], seq(65537, i => false);
    ProgressStart(b, ptr[..], ftab[..], done, bigDone[..]);
    RanStart(order, bigDone[..]);
    budget := budget0;
    for i := 0 to 256
      invariant 0 <= budget && Thrifty(b, budget0, budget) && block[..nblock] == b && runningOrder[..] == order
        && |done| == 65537
      invariant Ready(b, block[..], quadrant[..]) && Progress(b, ptr[..], ftab[..], done, bigDone[..])
      invariant Ran(order, bigDone[..], i)
    {
      RanNext(order, bigDone[..], i);
      var ss := runningOrder[i];
      budget, done := BigBucket(ptr, block, quadrant, ftab, bigDone, ss, i == 255, nblock, budget, b, done);
      if budget < 0 { return; }
    }
    RanAll(order, bigDone[..]);
    EverythingDone(b, ptr[..], ftab[..], done, bigDone[..]);
  }

  lemma RanStart(order: seq<int>, big: seq<bool>)
    requires IsPermutation(order, 256) && |big| == 256 && forall t :: 0 <= t < 256 ==> !big[t]
    ensures Ran(order, big, 0)
  {
  }
}
