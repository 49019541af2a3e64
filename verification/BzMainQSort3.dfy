// The three-way string quicksort of the main sort (dep/bzip2/blocksort.c, mainQSort3): each
// range on the stack holds rotations that agree on their first d bytes.
module BzMainQSort3 {
  import opened ByteType
  import opened Bits
  import opened BzRotation
  import opened Rearranging
  import opened BzQSort3
  import opened BzMainCompare
  import opened BzMainSimple

  const SMALL_THRESH := 20
  const DEPTH_THRESH := 14
  const MAIN_STACK_SIZE := 100

  // ----- Partition by the byte d places on -----

  method Med3(a0: Byte, b0: Byte, c0: Byte) returns (m: Byte)
    ensures m == a0 || m == b0 || m == c0
    ensures (m >= a0 || m >= b0) && (m >= a0 || m >= c0) && (m >= b0 || m >= c0)
    ensures (m <= a0 || m <= b0) && (m <= a0 || m <= c0) && (m <= b0 || m <= c0)
  {
    var a, b, c := a0, b0, c0;
    if a > b { a, b := b, a; }
    if b > c {
      b := c;
      if a > b { b := a; }
    }
    m := b;
  }

  // Upwards over smaller bytes, collecting equal ones at the left end.
  method ScanBytesUp(ptr: array<int>, block: array<Byte>, d: nat, med: int,
                     lo: int, lt: int, un: int, unHi: int, ghost gtHi: int, ghost hi: int)
                       returns (ltLo: int, unLo: int)
    requires Parted(ptr[..], block[..], d, med, lo, lt, un, unHi, gtHi, hi)
    modifies ptr
    ensures Parted(ptr[..], block[..], d, med, lo, ltLo, unLo, unHi, gtHi, hi) && unLo >= un
    ensures unLo <= unHi ==> KeyAbove(ptr[..], block[..], d, med, unLo)
    ensures PermRange(old(ptr[..]), ptr[..], lo, hi)
  {
    hide PermRange, Key, Parted;
    ltLo, unLo := lt, un;
    ghost var s, bytes := ptr[..], block[..];
    PartedBounds(s, bytes, d, med, lo, lt, un, unHi, gtHi, hi);
    while true
      invariant Parted(ptr[..], bytes, d, med, lo, ltLo, unLo, unHi, gtHi, hi) && unLo >= un
      invariant PermRange(s, ptr[..], lo, hi)
      decreases unHi - unLo
    {
      if unLo > unHi { break; }
      UpStep(ptr[..], bytes, d, med, lo, ltLo, unLo, unHi, gtHi, hi);
      KeyIs(bytes, d, ptr[unLo]);
      var n := block[ptr[unLo] + d] - med;
      if n == 0 {
        ghost var t := ptr[..];
        Swap(ptr, unLo, ltLo, lo, hi);
        PermTrans(s, t, ptr[..], lo, hi);
        ltLo := ltLo + 1;
        unLo := unLo + 1;
        continue;
      }
      if n > 0 { break; }
      unLo := unLo + 1;
    }
  }

  // Downwards over larger bytes, collecting equal ones at the right end.
  method ScanBytesDown(ptr: array<int>, block: array<Byte>, d: nat, med: int,
                       ghost lo: int, ghost ltLo: int, unLo: int, un: int, gt: int, hi: int)
                         returns (unHi: int, gtHi: int)
    requires Parted(ptr[..], block[..], d, med, lo, ltLo, unLo, un, gt, hi)
    modifies ptr
    ensures Parted(ptr[..], block[..], d, med, lo, ltLo, unLo, unHi, gtHi, hi) && unHi <= un
    ensures unLo <= unHi ==> KeyBelow(ptr[..], block[..], d, med, unHi)
    ensures unLo <= unHi ==> ptr[unLo] == old(ptr[unLo])
    ensures PermRange(old(ptr[..]), ptr[..], lo, hi)
  {
    hide PermRange, Key, Parted;
    unHi, gtHi := un, gt;
    ghost var s, bytes := ptr[..], block[..];
    PartedBounds(s, bytes, d, med, lo, ltLo, unLo, un, gt, hi);
    while true
      invariant Parted(ptr[..], bytes, d, med, lo, ltLo, unLo, unHi, gtHi, hi) && unHi <= un
      invariant PermRange(s, ptr[..], lo, hi)
      invariant unLo <= unHi ==> 0 <= unLo < ptr.Length && ptr[unLo] == s[unLo]
      decreases unHi - unLo
    {
      if unLo > unHi { break; }
      DownStep(ptr[..], bytes, d, med, lo, ltLo, unLo, unHi, gtHi, hi);
      KeyIs(bytes, d, ptr[unHi]);
      var n := block[ptr[unHi] + d] - med;
      if n == 0 {
        ghost var t := ptr[..];
        Swap(ptr, unHi, gtHi, lo, hi);
        PermTrans(s, t, ptr[..], lo, hi);
        gtHi := gtHi - 1;
        unHi := unHi - 1;
        continue;
      }
      if n < 0 { break; }
      unHi := unHi - 1;
    }
  }

  // The two nested scans, until nothing is unseen.
  method PartitionBytes(ptr: array<int>, block: array<Byte>, d: nat, med: int, lo: int, hi: int)
    returns (ltLo: int, unLo: int, gtHi: int)
    requires Keyed(ptr[..], block[..], d, lo, hi) && lo <= hi
    modifies ptr
    ensures Parted(ptr[..], block[..], d, med, lo, ltLo, unLo, unLo - 1, gtHi, hi)
    ensures PermRange(old(ptr[..]), ptr[..], lo, hi)
  {
    hide PermRange, Key, Parted, Keyed;
    var unHi := hi;
    ltLo, unLo, gtHi := lo, lo, hi;
    ghost var s, bytes := ptr[..], block[..];
    PartedStart(s, bytes, d, med, lo, hi);
    PartedBounds(s, bytes, d, med, lo, lo, lo, hi, hi, hi);
    while true
      invariant Parted(ptr[..], bytes, d, med, lo, ltLo, unLo, unHi, gtHi, hi)
      invariant PermRange(s, ptr[..], lo, hi)
      decreases unHi - unLo
    {
      ghost var t := ptr[..];
      ltLo, unLo := ScanBytesUp(ptr, block, d, med, lo, ltLo, unLo, unHi, gtHi, hi);
      ghost var u := ptr[..];
      unHi, gtHi := ScanBytesDown(ptr, block, d, med, lo, ltLo, unLo, unHi, gtHi, hi);
      ghost var v := ptr[..];
      PermTrans(s, t, u, lo, hi);
      PermTrans(s, u, v, lo, hi);
      if unLo > unHi { break; }
      CrossStep(v, bytes, d, med, lo, ltLo, unLo, unHi, gtHi, hi);
      Swap(ptr, unLo, unHi, lo, hi);
      PermTrans(s, v, ptr[..], lo, hi);
      unLo := unLo + 1;
      unHi := unHi - 1;
    }
    PartedEnds(ptr[..], bytes, d, med, lo, ltLo, unLo, unHi, gtHi, hi);
  }

  // ----- Ranges and what is known of them -----

  datatype Job = Job(lo: int, hi: int, d: int)

  function Spans(jobs: seq<Job>): (s: seq<Span>)
    ensures |s| == |jobs| && forall k :: 0 <= k < |jobs| ==> s[k] == Span(jobs[k].lo, jobs[k].hi)
  {
    seq(|jobs|, k requires 0 <= k < |jobs| => Span(jobs[k].lo, jobs[k].hi))
  }

  ghost predicate JobOk(b: seq<Byte>, s: seq<int>, j: Job)
    requires b != []
  {
    0 <= j.d <= DEPTH_THRESH + 1 && Alike(b, s, j.lo, j.hi, j.d)
  }

  // Any two entries are in order or in one range; each range agrees on its first bytes.
  ghost predicate Sorting(b: seq<Byte>, s: seq<int>, lo: int, hi: int, jobs: seq<Job>)
    requires b != []
  {
    && WellStacked(Spans(jobs), lo, hi) && Ordered(s, Places(b), 0, lo, hi, Spans(jobs))
    && forall k :: 0 <= k < |jobs| ==> JobOk(b, s, jobs[k])
  }

  // Ranges that may replace the range top: inside it and apart from each other, each agreeing on
  // its first bytes, with all other pairs in order.
  ghost predicate Fits(top: Job, subs: seq<Job>) {
    && (forall k :: 0 <= k < |subs| ==> top.lo <= subs[k].lo <= subs[k].hi + 1 <= top.hi + 1)
    && (forall k, l :: 0 <= k < l < |subs| ==> Apart(Spans(subs)[k], Spans(subs)[l]))
  }

  ghost predicate AllOk(b: seq<Byte>, s: seq<int>, subs: seq<Job>)
    requires b != []
  {
    forall k :: 0 <= k < |subs| ==> JobOk(b, s, subs[k])
  }

  ghost predicate Settled(b: seq<Byte>, s: seq<int>, top: Job, spans: seq<Span>)
    requires b != []
  {
    && Keyed(s, Places(b), 0, top.lo, top.hi)
    && forall p, q :: top.lo <= p < q <= top.hi ==>
      Key(Places(b), 0, s[p]) <= Key(Places(b), 0, s[q]) || Covered(spans, p, q)
  }

  ghost predicate Replaces(b: seq<Byte>, s: seq<int>, top: Job, subs: seq<Job>)
    requires b != []
  {
    Fits(top, subs) && AllOk(b, s, subs) && Settled(b, s, top, Spans(subs))
  }

  lemma SpansAppend(a: seq<Job>, b: seq<Job>)
    ensures Spans(a + b) == Spans(a) + Spans(b)
  {
  }

  // The top range has been rearranged and is replaced.
  lemma Replaced(b: seq<Byte>, s: seq<int>, t: seq<int>, lo: int, hi: int, rest: seq<Job>, top: Job, subs: seq<Job>)
    requires b != [] && Sorting(b, s, lo, hi, rest + [top]) && PermRange(s, t, top.lo, top.hi)
    requires Replaces(b, t, top, subs)
    ensures Sorting(b, t, lo, hi, rest + subs)
  {
    hide PermRange, Key, Alike, Ordered, Places, WellStacked, Apart;
    var all := rest + [top];
    assert all[|rest|] == top;
    SpansAppend(rest, [top]);
    SpansAppend(rest, subs);
    assert Spans([top]) == [Span(top.lo, top.hi)];
    var sp, sr := Span(top.lo, top.hi), Spans(rest);
    StackBounds(sr, sp, lo, hi);
    KeyedOf(s, Places(b), 0, lo, hi, sr + [sp]);
    KeyedWhole(s, t, Places(b), 0, lo, hi, sp);
    Rearranged(s, t, Places(b), 0, lo, hi, sr, sp, Spans(subs));
    SubstackedBy(sr, sp, Spans(subs), lo, hi);
    forall k | 0 <= k < |rest + subs| ensures JobOk(b, t, (rest + subs)[k]) {
      if k < |rest| {
        assert all[k] == rest[k] && Spans(all)[k] == sr[k];
        StackApart(sr, sp, lo, hi, k);
        AlikeUntouched(b, s, t, rest[k].lo, rest[k].hi, rest[k].d, top.lo, top.hi);
      } else {
        assert (rest + subs)[k] == subs[k - |rest|];
      }
    }
  }

  lemma StackBounds(spans: seq<Span>, top: Span, lo: int, hi: int)
    requires WellStacked(spans + [top], lo, hi)
    ensures lo <= top.lo <= top.hi + 1 <= hi + 1
  {
    assert (spans + [top])[|spans|] == top;
  }

  lemma StackApart(spans: seq<Span>, top: Span, lo: int, hi: int, k: nat)
    requires WellStacked(spans + [top], lo, hi) && k < |spans|
    ensures Apart(spans[k], top)
  {
    var all := spans + [top];
    assert all[k] == spans[k] && all[|spans|] == top;
    assert Apart(all[k], all[|spans|]);
  }

  lemma AlikeUntouched(b: seq<Byte>, s: seq<int>, t: seq<int>, lo: int, hi: int, d: nat, l: int, r: int)
    requires b != [] && Alike(b, s, lo, hi, d) && PermRange(s, t, l, r) && (hi < l || r < lo)
    ensures Alike(b, t, lo, hi, d)
  {
    hide Agree;
    forall p, q | lo <= p <= hi && lo <= q <= hi ensures Agree(b, t[p], t[q], d) {
      assert t[p] == s[p] && t[q] == s[q];
    }
  }

  lemma SubstackedBy(spans: seq<Span>, top: Span, subs: seq<Span>, lo: int, hi: int)
    requires WellStacked(spans + [top], lo, hi)
    requires forall k :: 0 <= k < |subs| ==> top.lo <= subs[k].lo <= subs[k].hi + 1 <= top.hi + 1
    requires forall k, l :: 0 <= k < l < |subs| ==> Apart(subs[k], subs[l])
    ensures WellStacked(spans + subs, lo, hi)
  {
    var all, next := spans + [top], spans + subs;
    assert all[|spans|] == top;
    forall k | 0 <= k < |spans| ensures Apart(spans[k], top) && lo <= spans[k].lo <= spans[k].hi + 1 <= hi + 1 {
      assert all[k] == spans[k];
    }
    forall k, l | 0 <= k < l < |next| ensures Apart(next[k], next[l]) {
      if l < |spans| { assert all[k] == spans[k] && all[l] == spans[l]; }
    }
  }

  // ----- The measure and the height of the stack -----

  function JobSize(j: Job): int {
    j.hi - j.lo + 1
  }

  // Three times the entries for every byte still to be looked at, and one for each range.
  function Effort(jobs: seq<Job>): int {
    if jobs == [] then 0
    else Effort(jobs[..|jobs| - 1]) + EffortOf(jobs[|jobs| - 1])
  }

  function EffortOf(j: Job): int {
    1 + 3 * (JobSize(j) * (DEPTH_THRESH + 2 - j.d))
  }

  ghost predicate Sound(jobs: seq<Job>) {
    forall k :: 0 <= k < |jobs| ==> jobs[k].lo <= jobs[k].hi + 1 && 0 <= jobs[k].d <= DEPTH_THRESH + 1
  }

  lemma EffortOfNat(j: Job)
    requires JobSize(j) >= 0 && j.d <= DEPTH_THRESH + 1
    ensures EffortOf(j) >= 1
  {
    MulNat(JobSize(j), DEPTH_THRESH + 2 - j.d);
  }

  lemma MulNat(x: int, y: int)
    requires x >= 0 && y >= 0
    ensures x * y >= 0
  {
  }

  lemma {:induction false} EffortNat(jobs: seq<Job>)
    requires Sound(jobs)
    ensures Effort(jobs) >= 0
  {
    if jobs != [] {
      EffortNat(jobs[..|jobs| - 1]);
      EffortOfNat(jobs[|jobs| - 1]);
    }
  }

  lemma EffortPush(jobs: seq<Job>, j: Job)
    ensures Effort(jobs + [j]) == Effort(jobs) + EffortOf(j)
  {
    assert (jobs + [j])[..|jobs|] == jobs;
  }

  // Entry k of the stack holds at most n / 2^((k + 1) / 2) entries, because of the three parts
  // the second largest is at most a half and the smallest too; what was split had over twenty.
  ghost predicate Stacked(jobs: seq<Job>, n: nat) {
    && (forall k :: 0 <= k < |jobs| ==> JobSize(jobs[k]) * Pow2((k + 1) / 2) <= n)
    && |jobs| <= 60
  }

  // Entry number depth may be this large.
  ghost predicate JobAtDepth(j: Job, depth: nat, n: nat) {
    JobSize(j) * Pow2((depth + 1) / 2) <= n
  }

  lemma StackedPop(rest: seq<Job>, top: Job, n: nat)
    requires Stacked(rest + [top], n)
    ensures Stacked(rest, n) && JobAtDepth(top, |rest|, n) && |rest| < 60
  {
    hide Pow2, JobSize;
    var all := rest + [top];
    assert all[|rest|] == top;
    forall k | 0 <= k < |rest| ensures JobSize(rest[k]) * Pow2((k + 1) / 2) <= n { assert all[k] == rest[k]; }
  }

  // The same range pushed again.
  lemma StackedAgain(rest: seq<Job>, top: Job, again: Job, n: nat)
    requires Stacked(rest, n) && JobAtDepth(top, |rest|, n) && |rest| < 60 && JobSize(again) == JobSize(top)
    ensures Stacked(rest + [again], n)
  {
    hide Pow2, JobSize;
    var all := rest + [again];
    forall k | 0 <= k < |all| ensures JobSize(all[k]) * Pow2((k + 1) / 2) <= n {
      if k < |rest| { assert all[k] == rest[k]; } else { assert all[k] == again; }
    }
  }

  lemma BigSplit(x: nat, e: nat, n: nat)
    requires x >= 21 && x * Pow2(e) <= n < 0x8000_0000
    ensures e <= 27
  {
    if e > 27 {
      Pow2Mono(28, e);
      Pow2Add(14, 14);
      assert Pow2(14) == 0x4000;
      BzQSort3.MulLeq(21, x, Pow2(e));
    }
  }

  lemma StackedPush(rest: seq<Job>, top: Job, x: Job, y: Job, z: Job, n: nat)
    requires Stacked(rest, n) && JobAtDepth(top, |rest|, n) && n < 0x8000_0000 && JobSize(top) >= 21
    requires 0 <= JobSize(z) <= JobSize(y) <= JobSize(x) && JobSize(x) + JobSize(y) + JobSize(z) == JobSize(top)
    ensures Stacked(rest + [x, y, z], n)
  {
    var e, s := (|rest| + 1) / 2, JobSize(top);
    var m := Pow2(e);
    var sx, sy, sz := JobSize(x), JobSize(y), JobSize(z);
    BigSplit(s, e, n);
    assert Pow2(e + 1) == 2 * m;
    hide Pow2, JobSize;
    BzQSort3.MulLeq(sx, s, m);
    BzQSort3.MulLeq(2 * sy, s, m);
    BzQSort3.MulLeq(2 * sz, s, m);
    BzQSort3.MulLeq(sy, 2 * sy, m);
    BzQSort3.Twice(sy, m);
    BzQSort3.Twice(sz, m);
    var all := rest + [x, y, z];
    var r := |rest|;
    assert all[r] == x && all[r + 1] == y && all[r + 2] == z;
    assert (r + 2) / 2 == e || (r + 2) / 2 == e + 1;
    assert (r + 3) / 2 == e + 1;
    forall k | 0 <= k < |all| ensures JobSize(all[k]) * Pow2((k + 1) / 2) <= n {
      if k < r { assert all[k] == rest[k]; }
      else if k == r { assert (k + 1) / 2 == e; }
      else if k == r + 1 { assert (k + 1) / 2 == (r + 2) / 2; }
      else { assert k == r + 2 && (k + 1) / 2 == e + 1; }
    }
  }

  // ----- One range -----

  // ----- The three parts, in any order of pushing -----

  ghost predicate Reordered<T(!new)>(u: seq<T>, v: seq<T>) {
    |u| == 3 && (v == [u[1], u[0], u[2]] || v == [u[0], u[2], u[1]])
  }

  lemma FitsReordered(top: Job, u: seq<Job>, v: seq<Job>)
    requires Fits(top, u) && Reordered(u, v)
    ensures Fits(top, v)
  {
    hide Spans, Apart;
    ThreeApart(u);
    ThreeApart(v);
    ApartBothWays(Spans(u)[0], Spans(u)[1]);
    ApartBothWays(Spans(u)[1], Spans(u)[2]);
  }

  lemma ApartBothWays(a: Span, b: Span)
    ensures Apart(a, b) == Apart(b, a)
  {
  }

  lemma ThreeApart(u: seq<Job>)
    requires |u| == 3
    ensures (forall k, l :: 0 <= k < l < |u| ==> Apart(Spans(u)[k], Spans(u)[l])) <==>
      Apart(Spans(u)[0], Spans(u)[1]) && Apart(Spans(u)[0], Spans(u)[2]) && Apart(Spans(u)[1], Spans(u)[2])
    ensures forall k :: 0 <= k < 3 ==> Spans(u)[k] == Span(u[k].lo, u[k].hi)
  {
    hide Apart;
    forall k, l | 0 <= k < l < |u| && Apart(Spans(u)[0], Spans(u)[1]) && Apart(Spans(u)[0], Spans(u)[2])
        && Apart(Spans(u)[1], Spans(u)[2])
      ensures Apart(Spans(u)[k], Spans(u)[l])
    {
      if k == 0 { assert l == 1 || l == 2; } else { assert k == 1 && l == 2; }
    }
  }

  lemma CoveredReordered(u: seq<Span>, v: seq<Span>, p: int, q: int)
    requires Reordered(u, v) && Covered(u, p, q)
    ensures Covered(v, p, q)
  {
    var k :| 0 <= k < 3 && u[k].lo <= p && q <= u[k].hi;
    var l := if v == [u[1], u[0], u[2]] then (if k == 0 then 1 else if k == 1 then 0 else 2)
             else (if k == 0 then 0 else if k == 1 then 2 else 1);
    assert v[l] == u[k];
  }

  lemma SettledReordered(b: seq<Byte>, s: seq<int>, top: Job, u: seq<Span>, v: seq<Span>)
    requires b != [] && Settled(b, s, top, u) && Reordered(u, v)
    ensures Settled(b, s, top, v)
  {
    hide Key, Covered, Places, Reordered;
    forall p, q | top.lo <= p < q <= top.hi
      ensures Key(Places(b), 0, s[p]) <= Key(Places(b), 0, s[q]) || Covered(v, p, q)
    {
      if Covered(u, p, q) { CoveredReordered(u, v, p, q); }
    }
  }

  lemma SpansReordered(u: seq<Job>, v: seq<Job>)
    requires Reordered(u, v)
    ensures Reordered(Spans(u), Spans(v))
  {
  }

  lemma AllOkReordered(b: seq<Byte>, s: seq<int>, u: seq<Job>, v: seq<Job>)
    requires b != [] && AllOk(b, s, u) && Reordered(u, v)
    ensures AllOk(b, s, v)
  {
    hide JobOk;
  }

  lemma ReplacesReordered(b: seq<Byte>, s: seq<int>, top: Job, u: seq<Job>, v: seq<Job>)
    requires b != [] && Replaces(b, s, top, u) && Reordered(u, v)
    ensures Replaces(b, s, top, v)
  {
    hide Fits, AllOk, Settled, Reordered, Spans;
    FitsReordered(top, u, v);
    AllOkReordered(b, s, u, v);
    SpansReordered(u, v);
    SettledReordered(b, s, top, Spans(u), Spans(v));
  }

  lemma SwapFirst(b: seq<Byte>, s: seq<int>, top: Job, x: Job, y: Job, z: Job)
    requires b != [] && Replaces(b, s, top, [x, y, z])
    ensures Replaces(b, s, top, [y, x, z])
  {
    hide Fits, AllOk, Settled, Spans, Replaces;
    ReplacesReordered(b, s, top, [x, y, z], [y, x, z]);
  }

  lemma SwapLast(b: seq<Byte>, s: seq<int>, top: Job, x: Job, y: Job, z: Job)
    requires b != [] && Replaces(b, s, top, [x, y, z])
    ensures Replaces(b, s, top, [x, z, y])
  {
    hide Fits, AllOk, Settled, Spans, Replaces;
    ReplacesReordered(b, s, top, [x, y, z], [x, z, y]);
  }

  // ----- One range -----

  // The byte at offset d of a rotation that stands in the array.
  lemma BlockByte(b: seq<Byte>, block: seq<Byte>, quad: seq<int>, x: int, d: nat)
    requires Ready(b, block, quad) && 0 <= x < |b| && d <= 15
    ensures x + d < |block| && block[x + d] == At(b, x, d) && Key(block, d, x) == At(b, x, d)
  {
    ReadyAt(b, block, quad, x + d);
    AtShift(b, x, d, 0);
  }

  lemma AlikeBytes(b: seq<Byte>, block: seq<Byte>, quad: seq<int>, s: seq<int>, lo: int, hi: int, d: nat)
    requires Ready(b, block, quad) && Alike(b, s, lo, hi, d) && d <= 15
    ensures Keyed(s, block, d, lo, hi)
  {
    hide EqUpTo, Ready;
    forall i | lo <= i <= hi ensures 0 <= s[i] && s[i] + d < |block| {
      AlikeAt(b, s, lo, hi, d, i, i);
      BlockByte(b, block, quad, s[i], d);
    }
  }

  // Two rotations that agree on d bytes and then differ or agree once more.
  lemma NextByte(b: seq<Byte>, block: seq<Byte>, quad: seq<int>, x: int, y: int, d: nat)
    requires Ready(b, block, quad) && Agree(b, x, y, d) && d <= 15
    ensures x + d < |block| && y + d < |block|
    ensures Key(block, d, x) == Key(block, d, y) ==> Agree(b, x, y, d + 1)
    ensures Key(block, d, x) < Key(block, d, y) ==> Key(Places(b), 0, x) <= Key(Places(b), 0, y)
  {
    hide Ready, At, LessUpTo, Leq, Place;
    BlockByte(b, block, quad, x, d);
    BlockByte(b, block, quad, y, d);
    if Key(block, d, x) < Key(block, d, y) {
      ByteDecides(b, x, y, d);
      PlaceOrder(b, x, y);
    }
  }

  // Equal bytes: the whole range agrees on one more.
  lemma AlikeMore(b: seq<Byte>, block: seq<Byte>, quad: seq<int>, s: seq<int>, lo: int, hi: int, d: nat, med: int)
    requires Ready(b, block, quad) && Alike(b, s, lo, hi, d) && d <= 15 && Keyed(s, block, d, lo, hi)
    requires forall k :: lo <= k <= hi ==> Key(block, d, s[k]) == med
    ensures Alike(b, s, lo, hi, d + 1)
  {
    hide Ready, Agree, Places, Key;
    ReadyLength(b, block, quad);
    forall p, q | lo <= p <= hi && lo <= q <= hi ensures Agree(b, s[p], s[q], d + 1) {
      AlikeAt(b, s, lo, hi, d, p, q);
      NextByte(b, block, quad, s[p], s[q], d);
    }
  }

  lemma AlikeSub(b: seq<Byte>, s: seq<int>, lo: int, hi: int, d: nat, l: int, r: int)
    requires b != [] && Alike(b, s, lo, hi, d) && lo <= l && r <= hi
    ensures Alike(b, s, l, r, d)
  {
    hide Agree;
  }

  // The three parts of a divided range may replace it.
  lemma PartsReplace(b: seq<Byte>, block: seq<Byte>, quad: seq<int>, s: seq<int>, lo: int, hi: int, d: nat, med: int,
                     n: int, m: int)
    requires Ready(b, block, quad) && Alike(b, s, lo, hi, d) && d <= DEPTH_THRESH
    requires Divided(s, block, d, med, lo, n, m, hi)
    ensures Replaces(b, s, Job(lo, hi, d), [Job(lo, n, d), Job(m, hi, d), Job(n + 1, m - 1, d + 1)])
  {
    hide Ready, Agree, Places, Key;
    ReadyLength(b, block, quad);
    var top, subs := Job(lo, hi, d), [Job(lo, n, d), Job(m, hi, d), Job(n + 1, m - 1, d + 1)];
    AlikeSub(b, s, lo, hi, d, lo, n);
    AlikeSub(b, s, lo, hi, d, m, hi);
    AlikeSub(b, s, lo, hi, d, n + 1, m - 1);
    AlikeMore(b, block, quad, s, n + 1, m - 1, d, med);
    AlikeKeyed(b, s, lo, hi, d);
    PartsSettled(b, block, quad, s, lo, hi, d, med, n, m);
  }

  lemma PartsSettled(b: seq<Byte>, block: seq<Byte>, quad: seq<int>, s: seq<int>, lo: int, hi: int, d: nat, med: int,
                     n: int, m: int)
    requires Ready(b, block, quad) && Alike(b, s, lo, hi, d) && d <= DEPTH_THRESH
    requires Divided(s, block, d, med, lo, n, m, hi)
    ensures Settled(b, s, Job(lo, hi, d), Spans([Job(lo, n, d), Job(m, hi, d), Job(n + 1, m - 1, d + 1)]))
  {
    hide Ready, Agree, Places, Key, Covered, Alike;
    ReadyLength(b, block, quad);
    var spans := Spans([Job(lo, n, d), Job(m, hi, d), Job(n + 1, m - 1, d + 1)]);
    AlikeKeyed(b, s, lo, hi, d);
    forall p, q | lo <= p < q <= hi
      ensures Key(Places(b), 0, s[p]) <= Key(Places(b), 0, s[q]) || Covered(spans, p, q)
    {
      if q <= n { CoveredAt(spans, 0, p, q); }
      else if m <= p { CoveredAt(spans, 1, p, q); }
      else if n < p && q < m { CoveredAt(spans, 2, p, q); }
      else {
        AlikeAt(b, s, lo, hi, d, p, q);
        NextByte(b, block, quad, s[p], s[q], d);
        assert Key(block, d, s[p]) < Key(block, d, s[q]);
      }
    }
  }

  lemma CoveredAt(spans: seq<Span>, k: nat, p: int, q: int)
    requires k < |spans| && spans[k].lo <= p && q <= spans[k].hi
    ensures Covered(spans, p, q)
  {
  }

  // A range whose next bytes are all equal goes one byte deeper.
  lemma DeeperReplaces(b: seq<Byte>, s: seq<int>, lo: int, hi: int, d: nat)
    requires b != [] && Alike(b, s, lo, hi, d + 1) && d <= DEPTH_THRESH && lo <= hi + 1
    ensures Replaces(b, s, Job(lo, hi, d), [Job(lo, hi, d + 1)])
  {
    hide Agree, Places, Key;
    AlikeKeyed(b, s, lo, hi, d + 1);
    var spans := Spans([Job(lo, hi, d + 1)]);
    forall p, q | lo <= p < q <= hi ensures Covered(spans, p, q) { CoveredAt(spans, 0, p, q); }
  }

  // A sorted range needs nothing more.
  lemma SortedReplaces(b: seq<Byte>, s: seq<int>, top: Job)
    requires b != [] && InOrder(s, Places(b), top.lo, top.hi)
    ensures Replaces(b, s, top, [])
  {
    hide Places, Key;
  }

  lemma AllMed(t: seq<int>, ec: seq<int>, d: nat, med: int, lo: int, ltLo: int, unLo: int, gtHi: int, hi: int)
    requires Parted(t, ec, d, med, lo, ltLo, unLo, unLo - 1, gtHi, hi) && gtHi < ltLo
    ensures Keyed(t, ec, d, lo, hi) && forall k :: lo <= k <= hi ==> Key(ec, d, t[k]) == med
  {
    hide Key;
  }

  // A range of more than twenty: all of it equal at offset d, or divided around a pivot byte.
  method DivideJob(ptr: array<int>, block: array<Byte>, lo: int, hi: int, d: nat, ghost quad: seq<int>,
                   ghost b: seq<Byte>)
    returns (split: bool, n: int, m: int)
    requires Ready(b, block[..], quad) && Alike(b, ptr[..], lo, hi, d) && d <= DEPTH_THRESH && hi - lo >= SMALL_THRESH
    modifies ptr
    ensures PermRange(old(ptr[..]), ptr[..], lo, hi)
    ensures !split ==> Replaces(b, ptr[..], Job(lo, hi, d), [Job(lo, hi, d + 1)])
    ensures split ==> (lo <= n + 1 < m <= hi + 1
      && Replaces(b, ptr[..], Job(lo, hi, d), [Job(lo, n, d), Job(m, hi, d), Job(n + 1, m - 1, d + 1)]))
  {
    hide PermRange, Key, Parted, Keyed, Divided, Ready, Alike, Replaces;
    split, n, m := false, lo, hi;
    ReadyLength(b, block[..], quad);
    ghost var s, bytes := ptr[..], block[..];
    AlikeBytes(b, bytes, quad, s, lo, hi, d);
    KeyedAt(s, bytes, d, lo, hi, lo);
    KeyedAt(s, bytes, d, lo, hi, hi);
    KeyedAt(s, bytes, d, lo, hi, (lo + hi) / 2);
    var k1, k2, k3 := block[ptr[lo] + d], block[ptr[hi] + d], block[ptr[(lo + hi) / 2] + d];
    var med := Med3(k1, k2, k3);
    ghost var at := if med == k1 then lo else if med == k2 then hi else (lo + hi) / 2;
    KeyIs(bytes, d, s[at]);
    var ltLo, unLo, gtHi := PartitionBytes(ptr, block, d, med, lo, hi);
    ghost var t := ptr[..];
    AlikePerm(b, s, t, lo, hi, d);
    if gtHi < ltLo {
      AllMed(t, bytes, d, med, lo, ltLo, unLo, gtHi, hi);
      AlikeMore(b, bytes, quad, t, lo, hi, d, med);
      DeeperReplaces(b, t, lo, hi, d);
      return;
    }
    EndNotEmpty(s, t, bytes, d, med, lo, hi, at, ltLo, unLo, gtHi);
    n, m := Gather(ptr, bytes, d, med, lo, ltLo, unLo, gtHi, hi);
    PermTrans(s, t, ptr[..], lo, hi);
    AlikePerm(b, t, ptr[..], lo, hi, d);
    DividedBounds(ptr[..], bytes, d, med, lo, n, m, hi);
    PartsReplace(b, bytes, quad, ptr[..], lo, hi, d, med, n, m);
    split := true;
  }

  lemma DividedBounds(s: seq<int>, ec: seq<int>, d: nat, med: int, lo: int, n: int, m: int, hi: int)
    requires Divided(s, ec, d, med, lo, n, m, hi)
    ensures lo <= n + 1 < m <= hi + 1
  {
  }

  // The parts by size, the largest first.
  method BySize(x0: Job, y0: Job, z0: Job, ghost b: seq<Byte>, ghost s: seq<int>, ghost top: Job)
    returns (x: Job, y: Job, z: Job)
    requires b != [] && Replaces(b, s, top, [x0, y0, z0])
    ensures Replaces(b, s, top, [x, y, z]) && JobSize(x) >= JobSize(y) >= JobSize(z)
    ensures JobSize(x) + JobSize(y) + JobSize(z) == JobSize(x0) + JobSize(y0) + JobSize(z0)
    ensures EffortOf(x) + EffortOf(y) + EffortOf(z) == EffortOf(x0) + EffortOf(y0) + EffortOf(z0)
  {
    hide Replaces, EffortOf;
    x, y, z := x0, y0, z0;
    if JobSize(x) < JobSize(y) {
      SwapFirst(b, s, top, x, y, z);
      x, y := y, x;
    }
    if JobSize(y) < JobSize(z) {
      SwapLast(b, s, top, x, y, z);
      y, z := z, y;
    }
    if JobSize(x) < JobSize(y) {
      SwapFirst(b, s, top, x, y, z);
      x, y := y, x;
    }
  }

  // Dividing is progress: the equal part has one byte less to go.
  lemma PartsEffort(lo: int, hi: int, d: int, n: int, m: int)
    requires lo <= n + 1 < m <= hi + 1
    ensures EffortOf(Job(lo, n, d)) + EffortOf(Job(m, hi, d))
      + EffortOf(Job(n + 1, m - 1, d + 1)) < EffortOf(Job(lo, hi, d))
    ensures JobSize(Job(lo, n, d)) + JobSize(Job(m, hi, d)) + JobSize(Job(n + 1, m - 1, d + 1))
      == JobSize(Job(lo, hi, d))
  {
    var w, x, y, z := DEPTH_THRESH + 2 - d, n - lo + 1, hi - m + 1, m - n - 1;
    ThreeParts(x, y, z, w);
  }

  lemma ThreeParts(x: int, y: int, z: int, w: int)
    ensures x * w + y * w + z * (w - 1) == (x + y + z) * w - z
  {
  }

  lemma DeeperEffort(lo: int, hi: int, d: int)
    requires lo <= hi
    ensures EffortOf(Job(lo, hi, d + 1)) < EffortOf(Job(lo, hi, d))
  {
    ThreeParts(0, 0, hi - lo + 1, DEPTH_THRESH + 2 - d);
  }

  // ----- The sort -----

  // The state of the loop, apart from the measure.
  ghost predicate Going(b: seq<Byte>, s: seq<int>, t: seq<int>, lo: int, hi: int, jobs: seq<Job>, n: nat)
    requires b != []
  {
    Sorting(b, t, lo, hi, jobs) && Stacked(jobs, n) && Sound(jobs) && PermRange(s, t, lo, hi)
  }

  lemma GoingStart(b: seq<Byte>, s: seq<int>, lo: int, hi: int, d: nat)
    requires b != [] && Alike(b, s, lo, hi, d) && lo <= hi && d <= DEPTH_THRESH + 1
    ensures Going(b, s, s, lo, hi, [Job(lo, hi, d)], hi - lo + 1)
  {
    hide Agree, Places, Key;
    var jobs := [Job(lo, hi, d)];
    AlikeKeyed(b, s, lo, hi, d);
    StartStack(s, Places(b), 0, lo, hi);
    assert Spans(jobs) == [Span(lo, hi)];
    assert jobs[0] == Job(lo, hi, d) && JobSize(jobs[0]) * Pow2(0) == hi - lo + 1;
  }

  lemma GoingPop(b: seq<Byte>, s: seq<int>, t: seq<int>, lo: int, hi: int, rest: seq<Job>, top: Job, n: nat)
    requires b != [] && Going(b, s, t, lo, hi, rest + [top], n)
    ensures lo <= top.lo <= top.hi + 1 <= hi + 1 && 0 <= top.d <= DEPTH_THRESH + 1 && Alike(b, t, top.lo, top.hi, top.d)
    ensures |rest| < 60 && Stacked(rest, n) && JobAtDepth(top, |rest|, n) && Sound(rest)
    ensures 0 <= Effort(rest) < Effort(rest + [top]) && Effort(rest + [top]) == Effort(rest) + EffortOf(top)
  {
    hide Alike, Ordered, PermRange, Places, Stacked, EffortOf, Apart;
    var all := rest + [top];
    assert all[|rest|] == top;
    assert JobOk(b, t, all[|rest|]);
    SpansAppend(rest, [top]);
    assert Spans([top]) == [Span(top.lo, top.hi)];
    StackBounds(Spans(rest), Span(top.lo, top.hi), lo, hi);
    StackedPop(rest, top, n);
    forall k | 0 <= k < |rest| ensures rest[k].lo <= rest[k].hi + 1 && 0 <= rest[k].d <= DEPTH_THRESH + 1 {
      assert all[k] == rest[k];
    }
    EffortPush(rest, top);
    EffortOfNat(top);
    EffortNat(rest);
  }

  lemma GoingOn(b: seq<Byte>, s: seq<int>, t: seq<int>, u: seq<int>, lo: int, hi: int, rest: seq<Job>, top: Job,
                subs: seq<Job>, n: nat)
    requires b != [] && Going(b, s, t, lo, hi, rest + [top], n) && PermRange(t, u, top.lo, top.hi)
    requires lo <= top.lo <= top.hi + 1 <= hi + 1 && Replaces(b, u, top, subs) && Stacked(rest + subs, n)
    ensures Going(b, s, u, lo, hi, rest + subs, n)
  {
    hide Sorting, PermRange, Stacked, Alike, Settled, Effort;
    Replaced(b, t, u, lo, hi, rest, top, subs);
    assert 0 <= lo && hi < |t| && |s| == |t| by { SameRange(s, t, lo, hi); }
    PermWider(t, u, top.lo, top.hi, lo, hi);
    PermTrans(s, t, u, lo, hi);
    var all, next := rest + [top], rest + subs;
    forall k | 0 <= k < |next| ensures next[k].lo <= next[k].hi + 1 && 0 <= next[k].d <= DEPTH_THRESH + 1 {
      if k < |rest| { assert all[k] == rest[k]; } else { assert JobOk(b, u, subs[k - |rest|]); }
    }
  }

  lemma SameRange(s: seq<int>, t: seq<int>, lo: int, hi: int)
    requires PermRange(s, t, lo, hi)
    ensures 0 <= lo && hi < |t| && |s| == |t|
  {
  }

  lemma GoingEnd(b: seq<Byte>, s: seq<int>, t: seq<int>, lo: int, hi: int, n: nat)
    requires b != [] && Going(b, s, t, lo, hi, [], n)
    ensures PermRange(s, t, lo, hi) && InOrder(t, Places(b), lo, hi)
  {
    hide PermRange, Places, Key;
    forall p, q | lo <= p < q <= hi ensures !Covered(Spans([]), p, q) {}
  }

  lemma GoingPerm(b: seq<Byte>, s: seq<int>, t: seq<int>, lo: int, hi: int, jobs: seq<Job>, n: nat)
    requires b != [] && Going(b, s, t, lo, hi, jobs, n)
    ensures PermRange(s, t, lo, hi) && |jobs| <= 60
  {
    hide PermRange;
  }

  // The three arrays hold the stack.
  ghost predicate JobsOnStack(stackLo: seq<int>, stackHi: seq<int>, stackD: seq<int>, jobs: seq<Job>) {
    && |stackLo| == |stackHi| == |stackD| == MAIN_STACK_SIZE
    && forall k :: 0 <= k < |jobs| && k < MAIN_STACK_SIZE ==>
      stackLo[k] == jobs[k].lo && stackHi[k] == jobs[k].hi && stackD[k] == jobs[k].d
  }

  lemma EmptyJobs(stackLo: seq<int>, stackHi: seq<int>, stackD: seq<int>)
    requires |stackLo| == |stackHi| == |stackD| == MAIN_STACK_SIZE
    ensures JobsOnStack(stackLo, stackHi, stackD, [])
  {
  }

  // mpush.
  method PushJob(stackLo: array<int>, stackHi: array<int>, stackD: array<int>, sp: nat, j: Job, ghost rest: seq<Job>)
    requires stackLo != stackHi && stackLo != stackD && stackHi != stackD && |rest| == sp < MAIN_STACK_SIZE
    requires JobsOnStack(stackLo[..], stackHi[..], stackD[..], rest)
    modifies stackLo, stackHi, stackD
    ensures JobsOnStack(stackLo[..], stackHi[..], stackD[..], rest + [j])
  {
    stackLo[sp], stackHi[sp], stackD[sp] := j.lo, j.hi, j.d;
  }

  // mpop.
  method PopJob(stackLo: array<int>, stackHi: array<int>, stackD: array<int>, sp: nat, ghost rest: seq<Job>,
                ghost top: Job)
    returns (lo: int, hi: int, d: int)
    requires JobsOnStack(stackLo[..], stackHi[..], stackD[..], rest + [top]) && |rest| == sp < MAIN_STACK_SIZE
    ensures top == Job(lo, hi, d) && JobsOnStack(stackLo[..], stackHi[..], stackD[..], rest)
  {
    assert (rest + [top])[sp] == top;
    lo, hi, d := stackLo[sp], stackHi[sp], stackD[sp];
    assert forall k :: 0 <= k < |rest| ==> (rest + [top])[k] == rest[k];
  }

  // A range handed to the simple sort: done with if the budget lasts.
  method SortJob(ptr: array<int>, block: array<Byte>, quadrant: array<int>, budget0: int, ghost s: seq<int>,
                 ghost loSt: int, ghost hiSt: int, ghost rest: seq<Job>, top: Job, ghost n: nat, ghost b: seq<Byte>)
    returns (budget: int)
    requires ptr != quadrant && Ready(b, block[..], quadrant[..]) && hiSt - loSt < 2391484
    requires Going(b, s, ptr[..], loSt, hiSt, rest + [top], n)
    modifies ptr
    ensures PermRange(s, ptr[..], loSt, hiSt) && Thrifty(b, budget0, budget)
    ensures budget >= 0 ==> Going(b, s, ptr[..], loSt, hiSt, rest, n)
  {
    hide PermRange, Ready, Alike, Places, InOrder, Going, Replaces, Effort, EffortOf, Stacked, Sound, JobAtDepth,
      Repetitive;
    ReadyLength(b, block[..], quadrant[..]);
    ghost var before := ptr[..];
    GoingPop(b, s, before, loSt, hiSt, rest, top, n);
    GoingPerm(b, s, before, loSt, hiSt, rest + [top], n);
    budget := BzMainSimple.SimpleSort(ptr, block, quadrant, top.lo, top.hi, top.d, budget0, b);
    PermStep(s, before, ptr[..], loSt, hiSt, top.lo, top.hi);
    if budget >= 0 {
      SortedReplaces(b, ptr[..], top);
      assert rest + [] == rest;
      GoingOn(b, s, before, ptr[..], loSt, hiSt, rest, top, [], n);
    }
  }

  // mainQSort3: if the budget lasts, the range ends in order.
  method QSort3(ptr: array<int>, block: array<Byte>, quadrant: array<int>, loSt: int, hiSt: int, dSt: nat, budget0: int,
                ghost b: seq<Byte>)
    returns (budget: int)
    requires ptr != quadrant && Ready(b, block[..], quadrant[..]) && Alike(b, ptr[..], loSt, hiSt, dSt)
    requires loSt <= hiSt && hiSt - loSt < 2391484 && dSt <= DEPTH_THRESH + 1
    modifies ptr
    ensures PermRange(old(ptr[..]), ptr[..], loSt, hiSt) && Thrifty(b, budget0, budget)
    ensures budget >= 0 ==> InOrder(ptr[..], Places(b), loSt, hiSt)
  {
    hide PermRange, Ready, Alike, Places, InOrder, Going, Replaces, Effort, EffortOf, Stacked, Sound, JobsOnStack,
      JobAtDepth, JobSize, Repetitive;
    ReadyLength(b, block[..], quadrant[..]);
    var stackLo, stackHi, stackD := new int[MAIN_STACK_SIZE], new int[MAIN_STACK_SIZE], new int[MAIN_STACK_SIZE];
    ghost var s, n: nat, jobs := ptr[..], hiSt - loSt + 1, [Job(loSt, hiSt, dSt)];
    EmptyJobs(stackLo[..], stackHi[..], stackD[..]);
    PushJob(stackLo, stackHi, stackD, 0, Job(loSt, hiSt, dSt), []);
    assert [] + jobs == jobs;
    var sp := 1;
    budget := budget0;
    GoingStart(b, s, loSt, hiSt, dSt);
    while sp > 0
      invariant sp == |jobs| && Going(b, s, ptr[..], loSt, hiSt, jobs, n) && Thrifty(b, budget0, budget)
      invariant JobsOnStack(stackLo[..], stackHi[..], stackD[..], jobs)
      decreases Effort(jobs)
    {
      GoingPerm(b, s, ptr[..], loSt, hiSt, jobs, n);
      sp := sp - 1;
      ghost var top, rest, before := jobs[sp], jobs[..sp], ptr[..];
      assert jobs == rest + [top];
      var lo, hi, d := PopJob(stackLo, stackHi, stackD, sp, rest, top);
      GoingPop(b, s, before, loSt, hiSt, rest, top, n);
      if hi - lo < SMALL_THRESH || d > DEPTH_THRESH {
        budget := SortJob(ptr, block, quadrant, budget, s, loSt, hiSt, rest, Job(lo, hi, d), n, b);
        if budget < 0 { return; }
        jobs := rest;
        continue;
      }
      var split, a, c := DivideJob(ptr, block, lo, hi, d, quadrant[..], b);
      if !split {
        ghost var again := Job(lo, hi, d + 1);
        OnceMore(b, s, before, ptr[..], loSt, hiSt, rest, top, n);
        PushJob(stackLo, stackHi, stackD, sp, Job(lo, hi, d + 1), rest);
        sp := sp + 1;
        jobs := rest + [again];
        continue;
      }
      var x, y, z := BySize(Job(lo, a, d), Job(c, hi, d), Job(a + 1, c - 1, d + 1), b, ptr[..], top);
      Parts(b, s, before, ptr[..], loSt, hiSt, rest, top, a, c, x, y, z, n);
      PushJob(stackLo, stackHi, stackD, sp, x, rest);
      PushJob(stackLo, stackHi, stackD, sp + 1, y, rest + [x]);
      PushJob(stackLo, stackHi, stackD, sp + 2, z, rest + [x] + [y]);
      sp := sp + 3;
      jobs := rest + [x] + [y] + [z];
    }
    assert jobs == [];
    GoingEnd(b, s, ptr[..], loSt, hiSt, n);
  }

  // All of it equal: the same range one byte deeper.
  lemma OnceMore(b: seq<Byte>, s: seq<int>, t: seq<int>, u: seq<int>, lo: int, hi: int, rest: seq<Job>, top: Job,
                 n: nat)
    requires b != [] && Going(b, s, t, lo, hi, rest + [top], n) && PermRange(t, u, top.lo, top.hi) && top.lo <= top.hi
    requires Replaces(b, u, top, [Job(top.lo, top.hi, top.d + 1)])
    ensures var jobs := rest + [Job(top.lo, top.hi, top.d + 1)];
      Going(b, s, u, lo, hi, jobs, n) && 0 <= Effort(jobs) < Effort(rest + [top])
  {
    hide PermRange, Going, Replaces, Effort, EffortOf, Stacked, Sound, JobAtDepth;
    var again := Job(top.lo, top.hi, top.d + 1);
    GoingPop(b, s, t, lo, hi, rest, top, n);
    StackedAgain(rest, top, again, n);
    GoingOn(b, s, t, u, lo, hi, rest, top, [again], n);
    DeeperEffort(top.lo, top.hi, top.d);
    EffortPush(rest, again);
    GoingEffort(b, s, u, lo, hi, rest + [again], n);
  }

  // Divided: the three parts by size.
  lemma Parts(b: seq<Byte>, s: seq<int>, t: seq<int>, u: seq<int>, lo: int, hi: int, rest: seq<Job>, top: Job,
              a: int, c: int, x: Job, y: Job, z: Job, n: nat)
    requires b != [] && Going(b, s, t, lo, hi, rest + [top], n) && n < 0x8000_0000
    requires PermRange(t, u, top.lo, top.hi) && top.hi - top.lo >= SMALL_THRESH && top.lo <= a + 1 < c <= top.hi + 1
    requires Replaces(b, u, top, [x, y, z]) && JobSize(x) >= JobSize(y) >= JobSize(z)
    requires var p, q, r := Job(top.lo, a, top.d), Job(c, top.hi, top.d), Job(a + 1, c - 1, top.d + 1);
      && JobSize(x) + JobSize(y) + JobSize(z) == JobSize(p) + JobSize(q) + JobSize(r)
      && EffortOf(x) + EffortOf(y) + EffortOf(z) == EffortOf(p) + EffortOf(q) + EffortOf(r)
    ensures var jobs := rest + [x] + [y] + [z];
      Going(b, s, u, lo, hi, jobs, n) && 0 <= Effort(jobs) < Effort(rest + [top])
  {
    hide PermRange, Going, Replaces, Effort, EffortOf, Stacked, Sound, JobAtDepth;
    GoingPop(b, s, t, lo, hi, rest, top, n);
    PartsEffort(top.lo, top.hi, top.d, a, c);
    SmallestSize(b, u, top, x, y, z);
    StackedPush(rest, top, x, y, z, n);
    GoingOn(b, s, t, u, lo, hi, rest, top, [x, y, z], n);
    EffortThree(rest, x, y, z);
    GoingEffort(b, s, u, lo, hi, rest + [x, y, z], n);
    assert rest + [x] + [y] + [z] == rest + [x, y, z];
  }

  lemma PermStep(s: seq<int>, t: seq<int>, u: seq<int>, lo: int, hi: int, l: int, r: int)
    requires PermRange(s, t, lo, hi) && PermRange(t, u, l, r) && lo <= l && r <= hi
    ensures PermRange(s, u, lo, hi)
  {
    PermWider(t, u, l, r, lo, hi);
    PermTrans(s, t, u, lo, hi);
  }

  lemma GoingEffort(b: seq<Byte>, s: seq<int>, t: seq<int>, lo: int, hi: int, jobs: seq<Job>, n: nat)
    requires b != [] && Going(b, s, t, lo, hi, jobs, n)
    ensures Effort(jobs) >= 0
  {
    hide PermRange, Effort;
    EffortNat(jobs);
  }

  lemma SmallestSize(b: seq<Byte>, s: seq<int>, top: Job, x: Job, y: Job, z: Job)
    requires b != [] && Replaces(b, s, top, [x, y, z])
    ensures JobSize(z) >= 0
  {
    hide AllOk, Settled;
    assert [x, y, z][2] == z;
  }

  lemma EffortThree(rest: seq<Job>, x: Job, y: Job, z: Job)
    ensures Effort(rest + [x, y, z]) == Effort(rest) + EffortOf(x) + EffortOf(y) + EffortOf(z)
  {
    hide EffortOf;
    EffortPush(rest, x);
    EffortPush(rest + [x], y);
    EffortPush(rest + [x] + [y], z);
    assert rest + [x] + [y] + [z] == rest + [x, y, z];
  }
}
