// Sorting a stretch of fmap by equivalence class (dep/bzip2/blocksort.c): a gapped
// insertion sort for short ranges and a three-way quicksort with an explicit stack.
module BzQSort3 {
  import opened Bits
  import opened Rearranging

  // The entries of [lo..hi] index into ec.
  ghost predicate InRange(s: seq<int>, lo: int, hi: int, n: nat) {
    0 <= lo && hi < |s| && forall i :: lo <= i <= hi ==> 0 <= s[i] < n
  }

  lemma InRangePerm(s: seq<int>, t: seq<int>, lo: int, hi: int, n: nat)
    requires PermRange(s, t, lo, hi) && InRange(s, lo, hi, n)
    ensures InRange(t, lo, hi, n)
  {
    forall p | lo <= p <= hi ensures 0 <= t[p] < n { var q := PermSource(s, t, lo, hi, p); }
  }

  ghost predicate SortedBy(s: seq<int>, ec: seq<int>, lo: int, hi: int)
    requires InRange(s, lo, hi, |ec|)
  {
    forall i, j :: lo <= i < j <= hi ==> ec[s[i]] <= ec[s[j]]
  }

  // ----- fallbackSimpleSort -----

  // f is s with a hole at j - gap: filling it with tmp rearranges [i..hi].
  ghost predicate Hole(s: seq<int>, f: seq<int>, i: int, hi: int, j: int, gap: int, tmp: int) {
    && |f| == |s| && 0 <= i && 0 < gap && i + gap <= j <= hi + gap && hi < |s|
    && PermRange(s, f[j - gap := tmp], i, hi)
    && (forall k :: j <= k <= hi ==> f[k] == s[k])
    && (gap == 1 ==> forall k :: i <= k < j - 1 ==> f[k] == s[k + 1])
  }

  lemma HoleStep(s: seq<int>, f: seq<int>, i: int, hi: int, j: int, gap: int, tmp: int)
    requires Hole(s, f, i, hi, j, gap, tmp) && j <= hi
    ensures Hole(s, f[j - gap := f[j]], i, hi, j + gap, gap, tmp)
  {
    hide PermRange;
    var t, g := f[j - gap := tmp], f[j - gap := f[j]];
    SwapPerm(t, j - gap, j, i, hi);
    assert g[j := tmp] == t[j - gap := t[j]][j := t[j - gap]];
    PermTrans(s, t, g[j := tmp], i, hi);
  }

  lemma HoleStart(s: seq<int>, i: int, hi: int, gap: int)
    requires 0 <= i && 0 < gap && i + gap <= hi < |s|
    ensures Hole(s, s, i, hi, i + gap, gap, s[i])
  {
    hide PermRange;
    assert s[i := s[i]] == s;
    PermRefl(s, i, hi);
  }

  lemma HoleBounds(s: seq<int>, f: seq<int>, i: int, hi: int, j: int, gap: int, tmp: int)
    requires Hole(s, f, i, hi, j, gap, tmp)
    ensures |f| == |s| && 0 <= i < i + gap <= j <= hi + gap && (j <= hi ==> f[j] == s[j])
    ensures PermRange(s, f[j - gap := tmp], i, hi)
  {
    hide PermRange;
  }

  // A single-step insertion into a sorted tail leaves it sorted.
  lemma HoleSorted(s: seq<int>, f: seq<int>, ec: seq<int>, i: int, hi: int, j: int, tmp: int)
    requires Hole(s, f, i, hi, j, 1, tmp) && InRange(s, i, hi, |ec|) && 0 <= tmp < |ec|
    requires SortedBy(s, ec, i + 1, hi)
    requires forall k :: i < k < j ==> ec[s[k]] < ec[tmp]
    requires j <= hi ==> ec[tmp] <= ec[s[j]]
    ensures InRange(f[j - 1 := tmp], i, hi, |ec|) && SortedBy(f[j - 1 := tmp], ec, i, hi)
  {
    var t := f[j - 1 := tmp];
    forall k | i <= k <= hi ensures t[k] == (if k < j - 1 then s[k + 1] else if k == j - 1 then tmp else s[k]) {}
  }

  // Moves fmap[i] right in steps of gap past the smaller classes.
  method Insert(fmap: array<int>, eclass: array<int>, i: int, hi: int, gap: int)
    requires fmap != eclass && 0 < gap && 0 <= i && i + gap <= hi < fmap.Length
    requires InRange(fmap[..], i, hi, eclass.Length)
    modifies fmap
    ensures PermRange(old(fmap[..]), fmap[..], i, hi) && InRange(fmap[..], i, hi, eclass.Length)
    ensures gap == 1 && SortedBy(old(fmap[..]), eclass[..], i + 1, hi) ==> SortedBy(fmap[..], eclass[..], i, hi)
  {
    hide PermRange, Hole;
    var tmp := fmap[i];
    var ecTmp := eclass[tmp];
    var j := i + gap;
    ghost var s, ec := fmap[..], eclass[..];
    HoleStart(s, i, hi, gap);
    HoleBounds(s, s, i, hi, j, gap, tmp);
    while j <= hi && ecTmp > eclass[fmap[j]]
      invariant eclass[..] == ec
      invariant Hole(s, fmap[..], i, hi, j, gap, tmp) && i + gap <= j <= hi + gap
      invariant j <= hi ==> fmap[j] == s[j]
      invariant gap == 1 ==> forall k :: i < k < j ==> ec[s[k]] < ecTmp
    {
      HoleStep(s, fmap[..], i, hi, j, gap, tmp);
      ghost var f := fmap[..];
      fmap[j - gap] := fmap[j];
      assert fmap[..] == f[j - gap := f[j]];
      j := j + gap;
      HoleBounds(s, fmap[..], i, hi, j, gap, tmp);
    }
    if gap == 1 && SortedBy(s, ec, i + 1, hi) {
      HoleSorted(s, fmap[..], ec, i, hi, j, tmp);
    }
    ghost var f := fmap[..];
    HoleBounds(s, f, i, hi, j, gap, tmp);
    fmap[j - gap] := tmp;
    assert fmap[..] == f[j - gap := tmp];
    InRangePerm(s, fmap[..], i, hi, eclass.Length);
  }

  method SimpleSort(fmap: array<int>, eclass: array<int>, lo: int, hi: int)
    requires fmap != eclass && InRange(fmap[..], lo, hi, eclass.Length)
    modifies fmap
    ensures PermRange(old(fmap[..]), fmap[..], lo, hi) && InRange(fmap[..], lo, hi, eclass.Length)
    ensures SortedBy(fmap[..], eclass[..], lo, hi)
  {
    if lo == hi { return; }
    ghost var s := fmap[..];
    if hi - lo > 3 {
      var i := hi - 4;
      while i >= lo
        invariant lo - 1 <= i <= hi - 4
        invariant PermRange(s, fmap[..], lo, hi) && InRange(fmap[..], lo, hi, eclass.Length)
      {
        ghost var t := fmap[..];
        Insert(fmap, eclass, i, hi, 4);
        PermWider(t, fmap[..], i, hi, lo, hi);
        PermTrans(s, t, fmap[..], lo, hi);
        InRangePerm(s, fmap[..], lo, hi, eclass.Length);
        i := i - 1;
      }
    }
    var i := hi - 1;
    while i >= lo
      invariant i < hi && (lo <= hi ==> lo - 1 <= i)
      invariant PermRange(s, fmap[..], lo, hi) && InRange(fmap[..], lo, hi, eclass.Length)
      invariant lo <= hi ==> SortedBy(fmap[..], eclass[..], i + 1, hi)
    {
      ghost var t := fmap[..];
      Insert(fmap, eclass, i, hi, 1);
      PermWider(t, fmap[..], i, hi, lo, hi);
      PermTrans(s, t, fmap[..], lo, hi);
      InRangePerm(s, fmap[..], lo, hi, eclass.Length);
      i := i - 1;
    }
  }

  // ----- Three-way partition by the class d places on -----

  function Key(ec: seq<int>, d: nat, v: int): int
    requires 0 <= v + d < |ec|
  {
    ec[v + d]
  }

  // All entries of [lo..hi] have a key.
  ghost predicate Keyed(s: seq<int>, ec: seq<int>, d: nat, lo: int, hi: int) {
    0 <= lo && hi < |s| && forall i :: lo <= i <= hi ==> 0 <= s[i] && s[i] + d < |ec|
  }

  lemma KeyedPerm(s: seq<int>, t: seq<int>, ec: seq<int>, d: nat, lo: int, hi: int)
    requires PermRange(s, t, lo, hi) && Keyed(s, ec, d, lo, hi)
    ensures Keyed(t, ec, d, lo, hi)
  {
    hide PermRange;
    assert |t| == |s| by { SameLength(s, t, lo, hi); }
    forall p | lo <= p <= hi ensures 0 <= t[p] && t[p] + d < |ec| { var q := PermSource(s, t, lo, hi, p); }
  }

  // Equal keys at both ends, smaller ones and then unseen ones and then larger ones between.
  ghost predicate Parted(s: seq<int>, ec: seq<int>, d: nat, med: int,
                         lo: int, ltLo: int, unLo: int, unHi: int, gtHi: int, hi: int) {
    && Keyed(s, ec, d, lo, hi)
    && lo <= ltLo <= unLo <= unHi + 1 <= gtHi + 1 <= hi + 1
    && (forall k :: lo <= k < ltLo ==> Key(ec, d, s[k]) == med)
    && (forall k :: ltLo <= k < unLo ==> Key(ec, d, s[k]) < med)
    && (forall k :: unHi < k <= gtHi ==> Key(ec, d, s[k]) > med)
    && (forall k :: gtHi < k <= hi ==> Key(ec, d, s[k]) == med)
  }

  method Swap(fmap: array<int>, i: int, j: int, ghost lo: int, ghost hi: int)
    requires 0 <= lo <= i <= hi < fmap.Length && lo <= j <= hi
    modifies fmap
    ensures fmap[..] == old(fmap[..])[i := old(fmap[j])][j := old(fmap[i])]
    ensures PermRange(old(fmap[..]), fmap[..], lo, hi)
  {
    SwapPerm(fmap[..], i, j, lo, hi);
    fmap[i], fmap[j] := fmap[j], fmap[i];
  }

  // The moves of the two scans, one entry at a time.
  lemma UpStep(s: seq<int>, ec: seq<int>, d: nat, med: int, lo: int, ltLo: int, unLo: int, unHi: int, gtHi: int,
               hi: int)
    requires Parted(s, ec, d, med, lo, ltLo, unLo, unHi, gtHi, hi) && unLo <= unHi
    ensures 0 <= lo <= ltLo <= unLo <= hi < |s| && 0 <= s[unLo] && s[unLo] + d < |ec|
    ensures Key(ec, d, s[unLo]) == med ==>
      Parted(s[unLo := s[ltLo]][ltLo := s[unLo]], ec, d, med, lo, ltLo + 1, unLo + 1, unHi, gtHi, hi)
    ensures Key(ec, d, s[unLo]) < med ==> Parted(s, ec, d, med, lo, ltLo, unLo + 1, unHi, gtHi, hi)
  {
    hide Key;
  }

  lemma DownStep(s: seq<int>, ec: seq<int>, d: nat, med: int, lo: int, ltLo: int, unLo: int, unHi: int, gtHi: int,
                 hi: int)
    requires Parted(s, ec, d, med, lo, ltLo, unLo, unHi, gtHi, hi) && unLo <= unHi
    ensures 0 <= lo <= unHi <= gtHi <= hi < |s| && 0 <= s[unHi] && s[unHi] + d < |ec|
    ensures Key(ec, d, s[unHi]) == med ==>
      Parted(s[unHi := s[gtHi]][gtHi := s[unHi]], ec, d, med, lo, ltLo, unLo, unHi - 1, gtHi - 1, hi)
    ensures Key(ec, d, s[unHi]) > med ==> Parted(s, ec, d, med, lo, ltLo, unLo, unHi - 1, gtHi, hi)
  {
    hide Key;
  }

  lemma CrossStep(s: seq<int>, ec: seq<int>, d: nat, med: int, lo: int, ltLo: int, unLo: int, unHi: int, gtHi: int,
                  hi: int)
    requires Parted(s, ec, d, med, lo, ltLo, unLo, unHi, gtHi, hi) && unLo <= unHi
    requires KeyAbove(s, ec, d, med, unLo) && KeyBelow(s, ec, d, med, unHi)
    ensures 0 <= lo <= unLo <= unHi <= hi < |s|
    ensures Parted(s[unLo := s[unHi]][unHi := s[unLo]], ec, d, med, lo, ltLo, unLo + 1, unHi - 1, gtHi, hi)
  {
    hide Key;
  }

  ghost predicate KeyAbove(s: seq<int>, ec: seq<int>, d: nat, med: int, i: int) {
    0 <= i < |s| && 0 <= s[i] && s[i] + d < |ec| && Key(ec, d, s[i]) > med
  }

  ghost predicate KeyBelow(s: seq<int>, ec: seq<int>, d: nat, med: int, i: int) {
    0 <= i < |s| && 0 <= s[i] && s[i] + d < |ec| && Key(ec, d, s[i]) < med
  }

  lemma PartedStart(s: seq<int>, ec: seq<int>, d: nat, med: int, lo: int, hi: int)
    requires Keyed(s, ec, d, lo, hi) && lo <= hi
    ensures Parted(s, ec, d, med, lo, lo, lo, hi, hi, hi)
  {
  }

  lemma PartedBounds(s: seq<int>, ec: seq<int>, d: nat, med: int, lo: int, ltLo: int, unLo: int, unHi: int, gtHi: int,
                     hi: int)
    requires Parted(s, ec, d, med, lo, ltLo, unLo, unHi, gtHi, hi)
    ensures 0 <= lo <= ltLo <= unLo <= unHi + 1 <= gtHi + 1 <= hi + 1 <= |s| && PermRange(s, s, lo, hi)
  {
  }

  // Upwards over smaller keys, collecting equal ones at the left end.
  method ScanUp(fmap: array<int>, keys: array<int>, d: nat, med: int,
                lo: int, lt: int, un: int, unHi: int, ghost gtHi: int, ghost hi: int) returns (ltLo: int, unLo: int)
    requires fmap != keys && Parted(fmap[..], keys[..], d, med, lo, lt, un, unHi, gtHi, hi)
    modifies fmap
    ensures Parted(fmap[..], keys[..], d, med, lo, ltLo, unLo, unHi, gtHi, hi) && unLo >= un
    ensures unLo <= unHi ==> KeyAbove(fmap[..], keys[..], d, med, unLo)
    ensures PermRange(old(fmap[..]), fmap[..], lo, hi)
  {
    hide PermRange, Key, Parted;
    ltLo, unLo := lt, un;
    ghost var s, ec := fmap[..], keys[..];
    PartedBounds(s, ec, d, med, lo, lt, un, unHi, gtHi, hi);
    while true
      invariant Parted(fmap[..], ec, d, med, lo, ltLo, unLo, unHi, gtHi, hi) && unLo >= un
      invariant PermRange(s, fmap[..], lo, hi)
      decreases unHi - unLo
    {
      if unLo > unHi { break; }
      UpStep(fmap[..], ec, d, med, lo, ltLo, unLo, unHi, gtHi, hi);
      KeyIs(ec, d, fmap[unLo]);
      var n := keys[fmap[unLo] + d] - med;
      if n == 0 {
        ghost var t := fmap[..];
        Swap(fmap, unLo, ltLo, lo, hi);
        PermTrans(s, t, fmap[..], lo, hi);
        ltLo := ltLo + 1;
        unLo := unLo + 1;
        continue;
      }
      if n > 0 { break; }
      unLo := unLo + 1;
    }
  }

  // If any is left, the first unseen entry has not been touched.
  ghost predicate FirstKept(s: seq<int>, t: seq<int>, unLo: int, unHi: int) {
    unLo <= unHi ==> 0 <= unLo < |s| == |t| && t[unLo] == s[unLo]
  }

  lemma FirstKeptStart(s: seq<int>, unLo: int, unHi: int)
    requires unLo <= unHi ==> 0 <= unLo < |s|
    ensures FirstKept(s, s, unLo, unHi)
  {
  }

  lemma FirstKeptSwap(s: seq<int>, t: seq<int>, unLo: int, unHi: int, gtHi: int)
    requires FirstKept(s, t, unLo, unHi) && unLo <= unHi <= gtHi < |t|
    ensures FirstKept(s, t[unHi := t[gtHi]][gtHi := t[unHi]], unLo, unHi - 1) && FirstKept(s, t, unLo, unHi - 1)
  {
  }

  // Downwards over larger keys, collecting equal ones at the right end.
  method ScanDown(fmap: array<int>, keys: array<int>, d: nat, med: int,
                  ghost lo: int, ghost ltLo: int, unLo: int, un: int, gt: int, hi: int) returns (unHi: int, gtHi: int)
    requires fmap != keys && Parted(fmap[..], keys[..], d, med, lo, ltLo, unLo, un, gt, hi)
    modifies fmap
    ensures Parted(fmap[..], keys[..], d, med, lo, ltLo, unLo, unHi, gtHi, hi) && unHi <= un
    ensures unLo <= unHi ==> KeyBelow(fmap[..], keys[..], d, med, unHi)
    ensures FirstKept(old(fmap[..]), fmap[..], unLo, unHi)
    ensures PermRange(old(fmap[..]), fmap[..], lo, hi)
  {
    hide PermRange, Key, Parted, FirstKept;
    unHi, gtHi := un, gt;
    ghost var s, ec := fmap[..], keys[..];
    PartedBounds(s, ec, d, med, lo, ltLo, unLo, un, gt, hi);
    FirstKeptStart(s, unLo, un);
    while true
      invariant Parted(fmap[..], ec, d, med, lo, ltLo, unLo, unHi, gtHi, hi) && unHi <= un
      invariant PermRange(s, fmap[..], lo, hi)
      invariant FirstKept(s, fmap[..], unLo, unHi)
      decreases unHi - unLo
    {
      if unLo > unHi { break; }
      DownStep(fmap[..], ec, d, med, lo, ltLo, unLo, unHi, gtHi, hi);
      KeyIs(ec, d, fmap[unHi]);
      FirstKeptSwap(s, fmap[..], unLo, unHi, gtHi);
      var n := keys[fmap[unHi] + d] - med;
      if n == 0 {
        ghost var t := fmap[..];
        Swap(fmap, unHi, gtHi, lo, hi);
        PermTrans(s, t, fmap[..], lo, hi);
        gtHi := gtHi - 1;
        unHi := unHi - 1;
        continue;
      }
      if n < 0 { break; }
      unHi := unHi - 1;
    }
  }

  // The two nested scans, until nothing is unseen.
  method Partition(fmap: array<int>, keys: array<int>, d: nat, med: int, lo: int, hi: int)
    returns (ltLo: int, unLo: int, gtHi: int)
    requires fmap != keys && Keyed(fmap[..], keys[..], d, lo, hi) && lo <= hi
    modifies fmap
    ensures Parted(fmap[..], keys[..], d, med, lo, ltLo, unLo, unLo - 1, gtHi, hi)
    ensures PermRange(old(fmap[..]), fmap[..], lo, hi)
  {
    hide PermRange, Key, Parted, Keyed;
    var unHi := hi;
    ltLo, unLo, gtHi := lo, lo, hi;
    ghost var s, ec := fmap[..], keys[..];
    PartedStart(s, ec, d, med, lo, hi);
    PartedBounds(s, ec, d, med, lo, lo, lo, hi, hi, hi);
    while true
      invariant Parted(fmap[..], ec, d, med, lo, ltLo, unLo, unHi, gtHi, hi)
      invariant PermRange(s, fmap[..], lo, hi)
      decreases unHi - unLo
    {
      ghost var t := fmap[..];
      ltLo, unLo := ScanUp(fmap, keys, d, med, lo, ltLo, unLo, unHi, gtHi, hi);
      ghost var u := fmap[..];
      unHi, gtHi := ScanDown(fmap, keys, d, med, lo, ltLo, unLo, unHi, gtHi, hi);
      ghost var v := fmap[..];
      PermTrans(s, t, u, lo, hi);
      PermTrans(s, u, v, lo, hi);
      if unLo > unHi { break; }
      CrossStep(v, ec, d, med, lo, ltLo, unLo, unHi, gtHi, hi);
      Swap(fmap, unLo, unHi, lo, hi);
      PermTrans(s, v, fmap[..], lo, hi);
      unLo := unLo + 1;
      unHi := unHi - 1;
    }
    PartedEnds(fmap[..], ec, d, med, lo, ltLo, unLo, unHi, gtHi, hi);
  }

  lemma KeyIs(ec: seq<int>, d: nat, v: int)
    requires 0 <= v + d < |ec|
    ensures Key(ec, d, v) == ec[v + d]
  {
  }

  lemma PartedEnds(s: seq<int>, ec: seq<int>, d: nat, med: int, lo: int, ltLo: int, unLo: int, unHi: int, gtHi: int,
                   hi: int)
    requires Parted(s, ec, d, med, lo, ltLo, unLo, unHi, gtHi, hi) && unLo > unHi
    ensures unHi == unLo - 1
  {
  }

  // t is s with the first n entries from p1 and from p2 exchanged.
  ghost predicate Exchanged(s: seq<int>, t: seq<int>, p1: int, p2: int, n: int) {
    && |s| == |t| && 0 <= p1 && 0 <= n && p1 + n <= p2 && p2 + n <= |s|
    && (forall k :: p1 <= k < p1 + n ==> t[k] == s[k - p1 + p2])
    && (forall k :: p2 <= k < p2 + n ==> t[k] == s[k - p2 + p1])
    && (forall k :: 0 <= k < |s| && !(p1 <= k < p1 + n) && !(p2 <= k < p2 + n) ==> t[k] == s[k])
  }

  lemma ExchangeStep(s: seq<int>, t: seq<int>, p1: int, p2: int, n: int)
    requires Exchanged(s, t, p1, p2, n) && p1 + n < p2 && p2 + n < |s|
    ensures Exchanged(s, t[p1 + n := t[p2 + n]][p2 + n := t[p1 + n]], p1, p2, n + 1)
  {
  }

  lemma ExchangeNone(s: seq<int>, p1: int, p2: int)
    requires 0 <= p1 <= p2 <= |s|
    ensures Exchanged(s, s, p1, p2, 0)
  {
  }

  // Exchanges two blocks of n entries.
  method BlockSwap(fmap: array<int>, p1: int, p2: int, n: int, ghost lo: int, ghost hi: int)
    requires 0 <= lo <= p1 && 0 <= n && p1 + n <= p2 && p2 + n <= hi + 1 <= fmap.Length
    modifies fmap
    ensures PermRange(old(fmap[..]), fmap[..], lo, hi)
    ensures Exchanged(old(fmap[..]), fmap[..], p1, p2, n)
  {
    hide PermRange, Exchanged;
    ghost var s := fmap[..];
    PermRefl(s, lo, hi);
    ExchangeNone(s, p1, p2);
    var i := 0;
    while n - i > 0
      invariant 0 <= i <= n
      invariant PermRange(s, fmap[..], lo, hi)
      invariant Exchanged(s, fmap[..], p1, p2, i)
    {
      ghost var t := fmap[..];
      ExchangeStep(s, t, p1, p2, i);
      Swap(fmap, p1 + i, p2 + i, lo, hi);
      PermTrans(s, t, fmap[..], lo, hi);
      i := i + 1;
    }
  }

  // Smaller keys in [lo..n], equal ones in [n+1..m-1], larger ones in [m..hi].
  ghost predicate Divided(s: seq<int>, ec: seq<int>, d: nat, med: int, lo: int, n: int, m: int, hi: int) {
    && Keyed(s, ec, d, lo, hi)
    && lo <= n + 1 < m <= hi + 1
    && (forall k :: lo <= k <= n ==> Key(ec, d, s[k]) < med)
    && (forall k :: n < k < m ==> Key(ec, d, s[k]) == med)
    && (forall k :: m <= k <= hi ==> Key(ec, d, s[k]) > med)
  }

  // Moves the equal keys from both ends to the middle.
  method Gather(fmap: array<int>, ghost ec: seq<int>, ghost d: nat, ghost med: int, lo: int, ltLo: int, unLo: int,
                gtHi: int,
                hi: int)
    returns (n: int, m: int)
    requires Parted(fmap[..], ec, d, med, lo, ltLo, unLo, unLo - 1, gtHi, hi)
    requires ltLo > lo || gtHi < hi
    modifies fmap
    ensures Divided(fmap[..], ec, d, med, lo, n, m, hi)
    ensures PermRange(old(fmap[..]), fmap[..], lo, hi)
  {
    hide PermRange, Key, Divided, Exchanged;
    ghost var s := fmap[..];
    var unHi := unLo - 1;
    n := if ltLo - lo < unLo - ltLo then ltLo - lo else unLo - ltLo;
    BlockSwap(fmap, lo, unLo - n, n, lo, hi);
    ghost var t := fmap[..];
    KeyedPerm(s, t, ec, d, lo, hi);
    LeftGathered(s, t, ec, d, med, lo, ltLo, unLo, gtHi, hi, n);
    m := if hi - gtHi < gtHi - unHi then hi - gtHi else gtHi - unHi;
    BlockSwap(fmap, unLo, hi - m + 1, m, lo, hi);
    KeyedPerm(t, fmap[..], ec, d, lo, hi);
    PermTrans(s, t, fmap[..], lo, hi);
    RightGathered(t, fmap[..], ec, d, med, lo, ltLo, unLo, gtHi, hi, m);
    n := lo + unLo - ltLo - 1;
    m := hi - (gtHi - unHi) + 1;
  }

  ghost predicate LeftDone(t: seq<int>, ec: seq<int>, d: nat, med: int, lo: int, ltLo: int, unLo: int, gtHi: int,
                           hi: int) {
    && Keyed(t, ec, d, lo, hi)
    && lo <= ltLo <= unLo <= gtHi + 1 <= hi + 1
    && (forall k :: lo <= k < lo + unLo - ltLo ==> Key(ec, d, t[k]) < med)
    && (forall k :: lo + unLo - ltLo <= k < unLo ==> Key(ec, d, t[k]) == med)
    && (forall k :: unLo <= k <= gtHi ==> Key(ec, d, t[k]) > med)
    && (forall k :: gtHi < k <= hi ==> Key(ec, d, t[k]) == med)
  }

  lemma LeftGathered(s: seq<int>, t: seq<int>, ec: seq<int>, d: nat, med: int,
                     lo: int, ltLo: int, unLo: int, gtHi: int, hi: int, n: int)
    requires Parted(s, ec, d, med, lo, ltLo, unLo, unLo - 1, gtHi, hi) && Keyed(t, ec, d, lo, hi)
    requires n == if ltLo - lo < unLo - ltLo then ltLo - lo else unLo - ltLo
    requires Exchanged(s, t, lo, unLo - n, n)
    ensures LeftDone(t, ec, d, med, lo, ltLo, unLo, gtHi, hi)
  {
    hide Key;
  }

  lemma RightGathered(s: seq<int>, t: seq<int>, ec: seq<int>, d: nat, med: int,
                      lo: int, ltLo: int, unLo: int, gtHi: int, hi: int, m: int)
    requires LeftDone(s, ec, d, med, lo, ltLo, unLo, gtHi, hi) && Keyed(t, ec, d, lo, hi)
    requires ltLo > lo || gtHi < hi
    requires m == if hi - gtHi < gtHi - (unLo - 1) then hi - gtHi else gtHi - (unLo - 1)
    requires Exchanged(s, t, unLo, hi - m + 1, m)
    ensures Divided(t, ec, d, med, lo, lo + unLo - ltLo - 1, hi - (gtHi - (unLo - 1)) + 1, hi)
  {
    hide Key;
  }

  // ----- The stack of ranges still to sort -----

  datatype Span = Span(lo: int, hi: int)

  // Some range on the stack holds both positions.
  ghost predicate Covered(spans: seq<Span>, p: int, q: int) {
    exists k :: 0 <= k < |spans| && spans[k].lo <= p && q <= spans[k].hi
  }

  // Any two positions are in order unless one range still holds both.
  ghost predicate Ordered(s: seq<int>, ec: seq<int>, d: nat, lo: int, hi: int, spans: seq<Span>) {
    && Keyed(s, ec, d, lo, hi)
    && forall p, q :: lo <= p < q <= hi ==> Key(ec, d, s[p]) <= Key(ec, d, s[q]) || Covered(spans, p, q)
  }

  ghost predicate Apart(a: Span, b: Span) {
    a.hi < b.lo || b.hi < a.lo
  }

  ghost predicate WellStacked(spans: seq<Span>, lo: int, hi: int) {
    && (forall k :: 0 <= k < |spans| ==> lo <= spans[k].lo <= spans[k].hi + 1 <= hi + 1)
    && (forall k, l :: 0 <= k < l < |spans| ==> Apart(spans[k], spans[l]))
  }

  lemma CoveredAppend(a: seq<Span>, b: seq<Span>, p: int, q: int)
    ensures Covered(a + b, p, q) <==> Covered(a, p, q) || Covered(b, p, q)
  {
    if Covered(a, p, q) {
      var k :| 0 <= k < |a| && a[k].lo <= p && q <= a[k].hi;
      assert (a + b)[k] == a[k];
    }
    if Covered(b, p, q) {
      var k :| 0 <= k < |b| && b[k].lo <= p && q <= b[k].hi;
      assert (a + b)[|a| + k] == b[k];
    }
  }

  // A position outside the top range shares no range below it with one inside.
  lemma NotCovered(spans: seq<Span>, top: Span, lo: int, hi: int, p: int, q: int)
    requires WellStacked(spans + [top], lo, hi) && p < q
    requires top.lo <= p <= top.hi < q || p < top.lo <= q <= top.hi
    ensures !Covered(spans + [top], p, q)
  {
    var all := spans + [top];
    forall k | 0 <= k < |all| ensures !(all[k].lo <= p && q <= all[k].hi) {
      assert k < |spans| ==> Apart(all[k], all[|spans|]);
    }
  }

  // Rearranging the top range and replacing it by ranges that cover its disorder.
  lemma Rearranged(s: seq<int>, t: seq<int>, ec: seq<int>, d: nat, lo: int, hi: int,
                   spans: seq<Span>, top: Span, subs: seq<Span>)
    requires WellStacked(spans + [top], lo, hi) && Ordered(s, ec, d, lo, hi, spans + [top])
    requires PermRange(s, t, top.lo, top.hi) && Keyed(t, ec, d, lo, hi) && lo <= top.lo && top.hi <= hi
    requires forall p, q :: top.lo <= p < q <= top.hi ==> Key(ec, d, t[p]) <= Key(ec, d, t[q]) || Covered(subs, p, q)
    ensures Ordered(t, ec, d, lo, hi, spans + subs)
  {
    hide Key;
    SameLength(s, t, top.lo, top.hi);
    forall p, q | lo <= p < q <= hi
      ensures Key(ec, d, t[p]) <= Key(ec, d, t[q]) || Covered(spans + subs, p, q)
    {
      CoveredAppend(spans, subs, p, q);
      var inP, inQ := top.lo <= p <= top.hi, top.lo <= q <= top.hi;
      if !(inP && inQ) {
        RearrangedPair(s, t, ec, d, lo, hi, spans, top, p, q);
      }
    }
  }

  lemma RearrangedPair(s: seq<int>, t: seq<int>, ec: seq<int>, d: nat, lo: int, hi: int,
                       spans: seq<Span>, top: Span, p: int, q: int)
    requires WellStacked(spans + [top], lo, hi) && Ordered(s, ec, d, lo, hi, spans + [top])
    requires PermRange(s, t, top.lo, top.hi) && Keyed(t, ec, d, lo, hi) && lo <= top.lo && top.hi <= hi
    requires lo <= p < q <= hi && !(top.lo <= p && q <= top.hi)
    ensures Key(ec, d, t[p]) <= Key(ec, d, t[q]) || Covered(spans, p, q)
  {
    hide Key;
    var p', q' := p, q;
    if top.lo <= p <= top.hi { p' := PermSource(s, t, top.lo, top.hi, p); }
    if top.lo <= q <= top.hi { q' := PermSource(s, t, top.lo, top.hi, q); }
    assert s[p'] == t[p] && s[q'] == t[q] && p' < q';
    if p' != p || q' != q || top.lo <= p <= top.hi || top.lo <= q <= top.hi {
      NotCovered(spans, top, lo, hi, p', q');
    } else {
      CoveredAppend(spans, [top], p, q);
    }
    assert Key(ec, d, s[p']) <= Key(ec, d, s[q']) || Covered(spans + [top], p', q');
  }

  lemma Substacked(spans: seq<Span>, top: Span, a: Span, b: Span, lo: int, hi: int)
    requires WellStacked(spans + [top], lo, hi)
    requires top.lo <= a.lo <= a.hi + 1 <= top.hi + 1 && top.lo <= b.lo <= b.hi + 1 <= top.hi + 1 && Apart(a, b)
    ensures WellStacked(spans, lo, hi) && WellStacked(spans + [a, b], lo, hi)
  {
    var all, next := spans + [top], spans + [a, b];
    forall k | 0 <= k < |spans| ensures Apart(spans[k], top) && lo <= spans[k].lo <= spans[k].hi + 1 <= hi + 1 {
      assert all[k] == spans[k] && all[|spans|] == top;
    }
    assert all[|spans|] == top;
    forall k, l | 0 <= k < l < |spans| ensures Apart(spans[k], spans[l]) {
      assert all[k] == spans[k] && all[l] == spans[l];
    }
  }

  // Twice the entries plus one for each range: shrinks with every round.
  function Work(spans: seq<Span>): int {
    if spans == [] then 0
    else Work(spans[..|spans| - 1]) + 2 * (spans[|spans| - 1].hi - spans[|spans| - 1].lo + 1) + 1
  }

  lemma {:induction false} WorkNat(spans: seq<Span>)
    requires forall k :: 0 <= k < |spans| ==> spans[k].lo <= spans[k].hi + 1
    ensures Work(spans) >= 0
  {
    if spans != [] { WorkNat(spans[..|spans| - 1]); }
  }

  lemma WorkPush(spans: seq<Span>, a: Span)
    ensures Work(spans + [a]) == Work(spans) + 2 * (a.hi - a.lo + 1) + 1
  {
    assert (spans + [a])[..|spans|] == spans;
  }

  function Size(a: Span): int {
    a.hi - a.lo + 1
  }

  // Entry k of the stack holds at most n / 2^k positions, because the smaller half
  // goes on top; an entry above the first came from a range of more than ten.
  ghost predicate Halving(spans: seq<Span>, n: nat) {
    && (forall k :: 0 <= k < |spans| ==> Size(spans[k]) * Pow2(k) <= n)
    && (|spans| >= 2 ==> 11 * Pow2(|spans| - 2) <= n)
  }

  // Entry number depth may be this large.
  ghost predicate AtDepth(top: Span, depth: nat, n: nat) {
    Size(top) * Pow2(depth) <= n
  }

  lemma HalvingPop(spans: seq<Span>, top: Span, n: nat)
    requires Halving(spans + [top], n)
    ensures Halving(spans, n) && AtDepth(top, |spans|, n)
  {
    var all := spans + [top];
    forall k | 0 <= k < |spans| ensures Size(spans[k]) * Pow2(k) <= n { assert all[k] == spans[k]; }
    assert all[|spans|] == top;
    if |spans| >= 2 { assert Pow2(|all| - 2) == 2 * Pow2(|spans| - 2); }
  }

  lemma HalvingPush(spans: seq<Span>, top: Span, a: Span, b: Span, n: nat)
    requires Halving(spans, n) && AtDepth(top, |spans|, n) && Size(top) >= 11
    requires 0 <= Size(b) <= Size(a) && Size(a) + Size(b) < Size(top)
    ensures Halving(spans + [a, b], n)
  {
    var m, x, y, z := Pow2(|spans|), Size(top), Size(a), Size(b);
    assert Pow2(|spans| + 1) == 2 * m;
    hide Pow2, Size;
    MulLeq(y, x, m);
    MulLeq(2 * z, x, m);
    MulLeq(11, x, m);
    Twice(z, m);
    var next := spans + [a, b];
    forall k | 0 <= k < |next| ensures Size(next[k]) * Pow2(k) <= n {
      assert k == |spans| ==> next[k] == a;
      assert k == |spans| + 1 ==> next[k] == b;
    }
  }

  lemma Twice(z: int, m: int)
    ensures z * (2 * m) == 2 * z * m
  {
  }

  lemma MulLeq(x: int, y: int, m: nat)
    requires x <= y
    ensures x * m <= y * m
  {
  }

  // 32-bit sizes keep the stack far below its capacity.
  lemma StackFits(spans: seq<Span>, n: nat)
    requires Halving(spans, n) && n < 0x8000_0000
    ensures |spans| < 30
  {
    Pow2Add(14, 14);
    assert Pow2(14) == 0x4000;
    if |spans| >= 30 { Pow2Mono(28, |spans| - 2); }
  }

  const STACK_SIZE := 100

  ghost predicate Ascend(s: seq<int>, ec: seq<int>, d: nat, lo: int, hi: int) {
    Keyed(s, ec, d, lo, hi) && forall p, q :: lo <= p < q <= hi ==> Key(ec, d, s[p]) <= Key(ec, d, s[q])
  }

  // One popped range: sorted outright, or split around a pivot.
  method SortSpan(fmap: array<int>, eclass: array<int>, lo: int, hi: int, r3: nat)
    returns (split: bool, a: int, b: int, ghost med: int)
    requires fmap != eclass && Keyed(fmap[..], eclass[..], 0, lo, hi)
    modifies fmap
    ensures PermRange(old(fmap[..]), fmap[..], lo, hi) && Keyed(fmap[..], eclass[..], 0, lo, hi)
    ensures !split ==> Ascend(fmap[..], eclass[..], 0, lo, hi)
    ensures split ==> hi - lo >= 10 && Divided(fmap[..], eclass[..], 0, med, lo, a, b, hi)
  {
    hide PermRange, Parted, Divided;
    split, a, b, med := false, lo, hi, 0;
    ghost var before, ec := fmap[..], eclass[..];
    if hi - lo < 10 {
      SimpleSort(fmap, eclass, lo, hi);
      return;
    }
    var at := if r3 == 0 then lo else if r3 == 1 then (lo + hi) / 2 else hi;
    var pivot := eclass[fmap[at]];
    med := pivot;
    var ltLo, unLo, gtHi := Partition(fmap, eclass, 0, pivot, lo, hi);
    ghost var t := fmap[..];
    KeyedPerm(before, t, ec, 0, lo, hi);
    if gtHi < ltLo {
      AllEqual(t, ec, 0, pivot, lo, ltLo, unLo, gtHi, hi);
      return;
    }
    EndNotEmpty(before, t, ec, 0, pivot, lo, hi, at, ltLo, unLo, gtHi);
    a, b := Gather(fmap, ec, 0, pivot, lo, ltLo, unLo, gtHi, hi);
    PermTrans(before, t, fmap[..], lo, hi);
    KeyedPerm(t, fmap[..], ec, 0, lo, hi);
    split := true;
  }

  // The two arrays hold the stack.
  ghost predicate OnStack(stackLo: seq<int>, stackHi: seq<int>, spans: seq<Span>) {
    && |stackLo| == |stackHi| == STACK_SIZE
    && forall k :: 0 <= k < |spans| && k < STACK_SIZE ==> stackLo[k] == spans[k].lo && stackHi[k] == spans[k].hi
  }

  // fpush.
  method Push(stackLo: array<int>, stackHi: array<int>, sp: nat, lo: int, hi: int, ghost rest: seq<Span>)
    requires stackLo != stackHi && OnStack(stackLo[..], stackHi[..], rest) && |rest| == sp < STACK_SIZE
    modifies stackLo, stackHi
    ensures OnStack(stackLo[..], stackHi[..], rest + [Span(lo, hi)])
  {
    stackLo[sp], stackHi[sp] := lo, hi;
  }

  // fpop.
  method Pop(stackLo: array<int>, stackHi: array<int>, sp: nat, ghost rest: seq<Span>, ghost top: Span)
    returns (lo: int, hi: int)
    requires OnStack(stackLo[..], stackHi[..], rest + [top]) && |rest| == sp < STACK_SIZE
    ensures top == Span(lo, hi) && OnStack(stackLo[..], stackHi[..], rest)
  {
    assert (rest + [top])[sp] == top;
    lo, hi := stackLo[sp], stackHi[sp];
    assert forall k :: 0 <= k < |rest| ==> (rest + [top])[k] == rest[k];
  }

  // fallbackQSort3: sorts fmap[loSt..hiSt] by class.
  method QSort3(fmap: array<int>, eclass: array<int>, loSt: int, hiSt: int)
    requires fmap != eclass && Keyed(fmap[..], eclass[..], 0, loSt, hiSt) && loSt <= hiSt
    requires hiSt - loSt < 0x7fff_ffff
    modifies fmap
    ensures PermRange(old(fmap[..]), fmap[..], loSt, hiSt) && Keyed(fmap[..], eclass[..], 0, loSt, hiSt)
    ensures forall p, q :: loSt <= p < q <= hiSt ==> eclass[fmap[p]] <= eclass[fmap[q]]
  {
    hide PermRange, Key, Keyed, Ordered, WellStacked, Halving, Work, Divided, OnStack, AtDepth, Ascend, Size;
    var stackLo, stackHi := new int[STACK_SIZE], new int[STACK_SIZE];
    ghost var s, ec, n := fmap[..], eclass[..], hiSt - loSt + 1;
    ghost var spans := [Span(loSt, hiSt)];
    StartStack(s, ec, 0, loSt, hiSt);
    EmptyStack(stackLo[..], stackHi[..]);
    Push(stackLo, stackHi, 0, loSt, hiSt, []);
    assert [] + spans == spans;
    var r, sp := 0, 1;
    while sp > 0
      invariant sp == |spans| && eclass[..] == ec && OnStack(stackLo[..], stackHi[..], spans)
      invariant Halving(spans, n) && WellStacked(spans, loSt, hiSt)
      invariant PermRange(s, fmap[..], loSt, hiSt) && Ordered(fmap[..], ec, 0, loSt, hiSt, spans)
      decreases Work(spans)
    {
      StackFits(spans, n);
      sp := sp - 1;
      ghost var top, rest, before := spans[sp], spans[..sp], fmap[..];
      assert spans == rest + [top];
      var lo, hi := Pop(stackLo, stackHi, sp, rest, top);
      PopFacts(before, ec, 0, loSt, hiSt, rest, top, n);
      r := (r * 7621 + 1) % 32768;
      var split, a, b, med := SortSpan(fmap, eclass, lo, hi, r % 3);
      if !split {
        SpanDone(s, before, fmap[..], ec, 0, loSt, hiSt, rest, top);
        spans := rest;
        continue;
      }
      if a - lo > hi - b {
        DividedDone(s, before, fmap[..], ec, 0, med, loSt, hiSt, rest, top, a, b, Span(lo, a), Span(b, hi), n);
        Push(stackLo, stackHi, sp, lo, a, rest);
        Push(stackLo, stackHi, sp + 1, b, hi, rest + [Span(lo, a)]);
        spans := rest + [Span(lo, a)] + [Span(b, hi)];
      } else {
        DividedDone(s, before, fmap[..], ec, 0, med, loSt, hiSt, rest, top, a, b, Span(b, hi), Span(lo, a), n);
        Push(stackLo, stackHi, sp, b, hi, rest);
        Push(stackLo, stackHi, sp + 1, lo, a, rest + [Span(b, hi)]);
        spans := rest + [Span(b, hi)] + [Span(lo, a)];
      }
      sp := sp + 2;
    }
    assert spans == [];
    AllOrdered(fmap[..], ec, loSt, hiSt);
  }

  lemma EmptyStack(stackLo: seq<int>, stackHi: seq<int>)
    requires |stackLo| == |stackHi| == STACK_SIZE
    ensures OnStack(stackLo, stackHi, [])
  {
  }

  lemma StartStack(s: seq<int>, ec: seq<int>, d: nat, lo: int, hi: int)
    requires Keyed(s, ec, d, lo, hi) && lo <= hi
    ensures Halving([Span(lo, hi)], hi - lo + 1) && WellStacked([Span(lo, hi)], lo, hi)
    ensures PermRange(s, s, lo, hi) && Ordered(s, ec, d, lo, hi, [Span(lo, hi)])
  {
    var spans := [Span(lo, hi)];
    assert spans[0] == Span(lo, hi);
    assert Size(spans[0]) * Pow2(0) == hi - lo + 1;
  }

  lemma PopFacts(s: seq<int>, ec: seq<int>, d: nat, lo: int, hi: int, rest: seq<Span>, top: Span, n: nat)
    requires Halving(rest + [top], n) && WellStacked(rest + [top], lo, hi) && Ordered(s, ec, d, lo, hi, rest + [top])
    ensures Halving(rest, n) && AtDepth(top, |rest|, n)
    ensures lo <= top.lo <= top.hi + 1 <= hi + 1 && Keyed(s, ec, d, lo, hi) && Keyed(s, ec, d, top.lo, top.hi)
    ensures WellStacked(rest, lo, hi) && Work(rest) < Work(rest + [top]) && Work(rest) >= 0
  {
    HalvingPop(rest, top, n);
    assert (rest + [top])[|rest|] == top;
    Substacked(rest, top, Span(top.lo, top.lo - 1), Span(top.lo, top.hi), lo, hi);
    WorkPush(rest, top);
    WorkNat(rest);
  }

  lemma KeyedAt(s: seq<int>, ec: seq<int>, d: nat, lo: int, hi: int, k: int)
    requires Keyed(s, ec, d, lo, hi) && lo <= k <= hi
    ensures 0 <= k < |s| && 0 <= s[k] && s[k] + d < |ec|
  {
  }

  lemma KeyedWhole(s: seq<int>, t: seq<int>, ec: seq<int>, d: nat, lo: int, hi: int, top: Span)
    requires Keyed(s, ec, d, lo, hi) && PermRange(s, t, top.lo, top.hi) && lo <= top.lo && top.hi <= hi
    ensures Keyed(t, ec, d, lo, hi) && PermRange(s, t, lo, hi)
  {
    PermWider(s, t, top.lo, top.hi, lo, hi);
    KeyedPerm(s, t, ec, d, lo, hi);
  }

  lemma SpanDone(s: seq<int>, before: seq<int>, t: seq<int>, ec: seq<int>, d: nat, lo: int, hi: int,
                 rest: seq<Span>, top: Span)
    requires WellStacked(rest + [top], lo, hi) && Ordered(before, ec, d, lo, hi, rest + [top])
    requires PermRange(s, before, lo, hi) && PermRange(before, t, top.lo, top.hi)
    requires Keyed(t, ec, d, top.lo, top.hi) && lo <= top.lo && top.hi <= hi
    requires Ascend(t, ec, d, top.lo, top.hi)
    ensures PermRange(s, t, lo, hi) && Ordered(t, ec, d, lo, hi, rest)
  {
    hide Key;
    KeyedWhole(before, t, ec, d, lo, hi, top);
    PermTrans(s, before, t, lo, hi);
    Rearranged(before, t, ec, d, lo, hi, rest, top, []);
    assert rest + [] == rest;
  }

  lemma AllEqual(t: seq<int>, ec: seq<int>, d: nat, med: int, lo: int, ltLo: int, unLo: int, gtHi: int, hi: int)
    requires Parted(t, ec, d, med, lo, ltLo, unLo, unLo - 1, gtHi, hi) && gtHi < ltLo
    ensures forall p, q :: lo <= p < q <= hi ==> Key(ec, d, t[p]) <= Key(ec, d, t[q])
  {
    hide Key;
  }

  // The pivot is one of the keys, so some end is not empty.
  lemma EndNotEmpty(before: seq<int>, t: seq<int>, ec: seq<int>, d: nat, med: int, lo: int, hi: int, at: int,
                    ltLo: int, unLo: int, gtHi: int)
    requires PermRange(before, t, lo, hi) && Keyed(before, ec, d, lo, hi) && lo <= at <= hi
    requires Key(ec, d, before[at]) == med
    requires Parted(t, ec, d, med, lo, ltLo, unLo, unLo - 1, gtHi, hi)
    ensures ltLo > lo || gtHi < hi
  {
    hide Key;
    var q := PermSource(t, before, lo, hi, at) by { PermSym(before, t, lo, hi); }
  }

  // Divided: the parts x and y take the place of the range, the larger one below.
  lemma DividedDone(s: seq<int>, before: seq<int>, u: seq<int>, ec: seq<int>, d: nat, med: int, lo: int, hi: int,
                    rest: seq<Span>, top: Span, a: int, b: int, x: Span, y: Span, n: nat)
    requires WellStacked(rest + [top], lo, hi) && Ordered(before, ec, d, lo, hi, rest + [top])
    requires PermRange(s, before, lo, hi) && PermRange(before, u, top.lo, top.hi)
    requires Divided(u, ec, d, med, top.lo, a, b, top.hi)
    requires (x, y) == (Span(top.lo, a), Span(b, top.hi)) || (y, x) == (Span(top.lo, a), Span(b, top.hi))
    requires y.hi - y.lo <= x.hi - x.lo && lo <= top.lo && 10 <= top.hi - top.lo && top.hi <= hi
    requires Halving(rest, n) && AtDepth(top, |rest|, n)
    ensures PermRange(s, u, lo, hi) && Ordered(u, ec, d, lo, hi, rest + [x] + [y])
      && WellStacked(rest + [x] + [y], lo, hi)
    ensures 0 <= Work(rest + [x] + [y]) < Work(rest + [top]) && Halving(rest + [x] + [y], n)
  {
    hide Key, Ordered, WellStacked, Halving, AtDepth, Work;
    KeyedOf(before, ec, d, lo, hi, rest + [top]);
    KeyedWhole(before, u, ec, d, lo, hi, top);
    PermTrans(s, before, u, lo, hi);
    forall p, q | top.lo <= p < q <= top.hi
      ensures Key(ec, d, u[p]) <= Key(ec, d, u[q]) || Covered([x, y], p, q)
    {
      CoveredPair(x, y, p, q);
    }
    Rearranged(before, u, ec, d, lo, hi, rest, top, [x, y]);
    Substacked(rest, top, x, y, lo, hi);
    WorkPair(rest, top, x, y);
    HalvingPush(rest, top, x, y, n);
    WorkNatOf(rest + [x, y], lo, hi);
    assert rest + [x] + [y] == rest + [x, y];
  }

  lemma WorkNatOf(spans: seq<Span>, lo: int, hi: int)
    requires WellStacked(spans, lo, hi)
    ensures Work(spans) >= 0
  {
    WorkNat(spans);
  }

  lemma KeyedOf(s: seq<int>, ec: seq<int>, d: nat, lo: int, hi: int, spans: seq<Span>)
    requires Ordered(s, ec, d, lo, hi, spans)
    ensures Keyed(s, ec, d, lo, hi)
  {
  }

  lemma CoveredPair(x: Span, y: Span, p: int, q: int)
    ensures (x.lo <= p && q <= x.hi) || (y.lo <= p && q <= y.hi) ==> Covered([x, y], p, q) && Covered([y, x], p, q)
  {
    var a, b := [x, y], [y, x];
    assert a[0] == x && a[1] == y && b[0] == y && b[1] == x;
  }

  lemma WorkPair(rest: seq<Span>, top: Span, x: Span, y: Span)
    requires Size(x) + Size(y) < Size(top)
    ensures Work(rest + [x, y]) < Work(rest + [top])
  {
    WorkPush(rest, top);
    WorkPush(rest, x);
    WorkPush(rest + [x], y);
    assert rest + [x] + [y] == rest + [x, y];
  }

  lemma AllOrdered(s: seq<int>, ec: seq<int>, lo: int, hi: int)
    requires Ordered(s, ec, 0, lo, hi, [])
    ensures Keyed(s, ec, 0, lo, hi)
    ensures forall p, q :: lo <= p < q <= hi ==> ec[s[p]] <= ec[s[q]]
  {
    forall p, q | lo <= p < q <= hi ensures ec[s[p]] <= ec[s[q]] {
      assert !Covered([], p, q);
    }
  }
}
