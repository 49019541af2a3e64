// generateMTFValues (dep/bzip2/compress.c): the move-to-front values of the last column,
// written as 16-bit words over the sorted order they are computed from.
module BzMtfEncode {
  import opened ByteType
  import opened BzRotation
  import opened BzInverseBwt
  import opened BzMtf

  const MAX_ALPHA := 258

  // ----- Which bytes occur -----

  // How many of the byte values below i occur.
  function Rank(used: seq<bool>, i: nat): (r: nat)
    requires i <= |used|
    ensures r <= i
  {
    if i == 0 then 0 else Rank(used, i - 1) + if used[i - 1] then 1 else 0
  }

  lemma {:induction false} RankMono(used: seq<bool>, i: nat, k: nat)
    requires i <= k <= |used|
    ensures Rank(used, i) <= Rank(used, k)
    ensures i < k && used[i] ==> Rank(used, i) < Rank(used, k)
    decreases k
  {
    if i < k { RankMono(used, i, k - 1); }
  }

  lemma RankStep(used: seq<bool>, i: nat)
    requires i < |used|
    ensures Rank(used, 0) == 0 && Rank(used, i + 1) == Rank(used, i) + if used[i] then 1 else 0
  {
  }

  method MakeMapsE(inUse: array<bool>, unseqToSeq: array<int>) returns (nInUse: nat)
    requires inUse.Length == 256 == unseqToSeq.Length
    modifies unseqToSeq
    ensures nInUse == Rank(inUse[..], 256)
    ensures forall i :: 0 <= i < 256 && inUse[i] ==> unseqToSeq[i] == Rank(inUse[..], i)
  {
    hide Rank;
    ghost var used := inUse[..];
    RankStep(used, 0);
    nInUse := 0;
    for i := 0 to 256
      invariant nInUse == Rank(used, i)
      invariant forall k :: 0 <= k < i && used[k] ==> unseqToSeq[k] == Rank(used, k)
    {
      RankStep(used, i);
      if inUse[i] {
        unseqToSeq[i] := nInUse;
        nInUse := nInUse + 1;
      }
    }
  }

  // to lists, by rank, the bytes that occur.
  ghost predicate Unmaps(to: seq<int>, used: seq<bool>, n: nat)
    requires n <= |used|
  {
    && Rank(used, n) <= |to|
    && (forall k :: 0 <= k < n && used[k] ==> Rank(used, k) < Rank(used, n) && to[Rank(used, k)] == k)
    && (forall r :: 0 <= r < Rank(used, n) ==> 0 <= to[r] < |used|)
  }

  lemma UnmapsStep(to: seq<int>, used: seq<bool>, i: nat)
    requires i < |used| && Unmaps(to, used, i) && Rank(used, i) < |to|
    ensures used[i] ==> Unmaps(to[Rank(used, i) := i], used, i + 1)
    ensures !used[i] ==> Unmaps(to, used, i + 1)
  {
    hide Rank;
    RankStep(used, i);
  }

  // The decoder's table is the inverse of the encoder's.
  method MakeMapsD(inUse: array<bool>, seqToUnseq: array<int>) returns (nInUse: nat)
    requires inUse.Length == 256 == seqToUnseq.Length
    modifies seqToUnseq
    ensures nInUse == Rank(inUse[..], 256)
    ensures Unmaps(seqToUnseq[..], inUse[..], 256)
    ensures forall r :: nInUse <= r < 256 ==> seqToUnseq[r] == old(seqToUnseq[r])
  {
    hide Rank, Unmaps;
    ghost var used := inUse[..];
    UnmapsStart(seqToUnseq[..], used);
    nInUse := 0;
    for i := 0 to 256
      invariant nInUse == Rank(used, i) && Unmaps(seqToUnseq[..], used, i)
      invariant forall r :: nInUse <= r < 256 ==> seqToUnseq[r] == old(seqToUnseq[r])
    {
      RankStep(used, i);
      UnmapsStep(seqToUnseq[..], used, i);
      if inUse[i] {
        ghost var to := seqToUnseq[..];
        seqToUnseq[nInUse] := i;
        assert seqToUnseq[..] == to[nInUse := i];
        nInUse := nInUse + 1;
      }
    }
  }

  lemma UnmapsStart(to: seq<int>, used: seq<bool>)
    requires |used| >= 1
    ensures Rank(used, 0) == 0 && Unmaps(to, used, 0)
  {
  }

  // ----- The shared memory: 16-bit values over 32-bit pointers -----

  // The pointer in halfwords 2i and 2i + 1, low half first.
  function PtrAt(cells: seq<int>, i: nat): int
    requires 2 * i + 1 < |cells|
  {
    cells[2 * i] + 65536 * cells[2 * i + 1]
  }

  function Ptrs(cells: seq<int>, n: nat): (p: seq<int>)
    requires 2 * n <= |cells|
    ensures |p| == n && forall i :: 0 <= i < n ==> p[i] == PtrAt(cells, i)
  {
    seq(n, i requires 0 <= i < n => PtrAt(cells, i))
  }

  function Occurs(s: seq<int>, v: int): nat {
    if s == [] then 0 else Occurs(s[..|s| - 1], v) + if s[|s| - 1] == v then 1 else 0
  }

  ghost predicate Tally(freq: seq<int>, s: seq<int>) {
    |freq| >= MAX_ALPHA && forall v :: 0 <= v < MAX_ALPHA ==> freq[v] == Occurs(s, v)
  }

  lemma TallyNext(freq: seq<int>, s: seq<int>, x: int)
    requires Tally(freq, s) && 0 <= x < MAX_ALPHA
    ensures Tally(freq[x := freq[x] + 1], s + [x])
  {
    assert (s + [x])[..|s|] == s;
  }

  // One more value, written and counted.
  method Put(cells: array<int>, freq: array<int>, wr: nat, x: int)
    requires cells != freq && wr < cells.Length && 0 <= x < MAX_ALPHA && Tally(freq[..], cells[..wr])
    modifies cells, freq
    ensures cells[..wr + 1] == old(cells[..wr]) + [x] && Tally(freq[..], cells[..wr + 1])
    ensures forall k :: wr < k < cells.Length ==> cells[k] == old(cells[k])
  {
    hide Tally, Occurs;
    ghost var s, f := cells[..wr], freq[..];
    TallyNext(f, s, x);
    TallySize(f, s);
    cells[wr] := x;
    assert cells[..wr + 1] == s + [x];
    freq[x] := freq[x] + 1;
    assert freq[..] == f[x := f[x] + 1];
  }

  lemma TallySize(freq: seq<int>, s: seq<int>)
    requires Tally(freq, s)
    ensures |freq| >= MAX_ALPHA
  {
  }

  // out has been written, and with the digits of z more it is all.
  ghost predicate Flushing(written: seq<int>, z: nat, all: seq<int>) {
    written + Run(z) == all
  }

  lemma FlushStep(written: seq<int>, z: nat, all: seq<int>)
    requires Flushing(written, z + 1, all)
    ensures Flushing(written + [z % 2], z / 2, all)
    ensures z < 2 ==> written + [z % 2] == all
    ensures |written| < |all|
  {
    assert Run(z + 1) == [z % 2] + Run(z / 2);
    assert written + ([z % 2] + Run(z / 2)) == written + [z % 2] + Run(z / 2);
    assert z < 2 ==> Run(z / 2) == [];
  }

  lemma FlushEnds(written: seq<int>, z: nat)
    ensures Flushing(written, z, written + Run(z)) && |written + Run(z)| <= |written| + z
    ensures z == 0 ==> written + Run(z) == written
  {
  }

  // The digits of a pending run of zeros.
  method FlushRun(cells: array<int>, freq: array<int>, start: nat, pending: nat) returns (wr: nat)
    requires cells != freq && start + pending <= cells.Length && Tally(freq[..], cells[..start])
    modifies cells, freq
    ensures start <= wr <= start + pending
    ensures cells[..wr] == old(cells[..start]) + Run(pending) && Tally(freq[..], cells[..wr])
    ensures forall k :: wr <= k < cells.Length ==> cells[k] == old(cells[k])
  {
    hide Tally, Run, Flushing;
    wr := start;
    ghost var all := cells[..start] + Run(pending);
    FlushEnds(cells[..start], pending);
    if pending > 0 {
      var zPend := pending - 1;
      while true
        invariant zPend >= 0 && start <= wr <= |all| && Flushing(cells[..wr], zPend + 1, all)
        invariant Tally(freq[..], cells[..wr])
        invariant forall k :: wr <= k < cells.Length ==> cells[k] == old(cells[k])
        decreases zPend
      {
        FlushStep(cells[..wr], zPend, all);
        if zPend % 2 == 1 { Put(cells, freq, wr, RUNB); } else { Put(cells, freq, wr, RUNA); }
        wr := wr + 1;
        if zPend < 2 { break; }
        zPend := (zPend - 2) / 2;
      }
    }
  }

  // ----- Searching and shifting in one pass -----

  // x, which is not first, moves to the front of yy.
  method Promote(yy: array<int>, x: int, m: nat) returns (j: nat)
    requires 2 <= m <= yy.Length && x in yy[..m] && yy[0] != x
    modifies yy
    ensures 1 <= j < m && j == Find(old(yy[..m]), x) && yy[..m] == ToFront(old(yy[..m]), j)
  {
    ghost var s := yy[..m];
    var rtmp := yy[1];
    yy[1] := yy[0];
    j := 1;
    while x != rtmp
      invariant 1 <= j < m && rtmp == s[j] && yy[0] == s[0] != x
      invariant forall k :: 1 <= k <= j ==> yy[k] == s[k - 1]
      invariant forall k :: j < k < m ==> yy[k] == s[k]
      invariant forall k :: 0 <= k < j ==> s[k] != x
      decreases m - j
    {
      j := j + 1;
      assert j < m by { NotLast(s, x, j); }
      var rtmp2 := rtmp;
      rtmp := yy[j];
      yy[j] := rtmp2;
    }
    yy[0] := rtmp;
    FindUnique(s, x, j);
    ShiftIs(s, yy[..m], j);
  }

  // ----- The scan -----

  // The ranks of the last column's bytes.
  function LastRanks(b: seq<Byte>, p: seq<int>, used: seq<bool>): (s: seq<int>)
    requires b != [] && |p| == |b| && |used| == 256
    ensures |s| == |b|
  {
    var l := LastColumn(b, p);
    seq(|b|, i requires 0 <= i < |b| => Rank(used, l[i]))
  }

  lemma RanksListed(b: seq<Byte>, p: seq<int>, used: seq<bool>)
    requires b != [] && |p| == |b| && |used| == 256 && forall i :: 0 <= i < |b| ==> used[b[i]]
    ensures Rank(used, 256) >= 1 && Ranks(LastRanks(b, p, used), Identity(Rank(used, 256)))
  {
    hide LastColumn;
    var m := Rank(used, 256);
    forall i | 0 <= i < |b| ensures LastRanks(b, p, used)[i] < m && LastRanks(b, p, used)[i] in Identity(m) {
      LastUsed(b, p, used, i);
      RankMono(used, LastColumn(b, p)[i], 256);
      assert Identity(m)[LastRanks(b, p, used)[i]] == LastRanks(b, p, used)[i];
    }
    assert LastRanks(b, p, used)[0] < m;
  }

  lemma LastUsed(b: seq<Byte>, p: seq<int>, used: seq<bool>, i: nat)
    requires b != [] && |p| == |b| && |used| == 256 && i < |b| && forall i :: 0 <= i < |b| ==> used[b[i]]
    ensures used[LastColumn(b, p)[i]]
  {
  }

  lemma LastAt(b: seq<Byte>, p: seq<int>, i: nat)
    requires b != [] && |p| == |b| && i < |b| && 0 <= p[i] < |b|
    ensures LastColumn(b, p)[i] == b[if p[i] - 1 < 0 then p[i] - 1 + |b| else p[i] - 1]
  {
    PredWrap(p[i], |b|);
  }

  // The arrays hold the state of the scan.
  ghost predicate Holding(cells: seq<int>, freq: seq<int>, yy: seq<int>, m: nat, wr: nat, zPend: nat, c: Coder) {
    && wr <= |cells| && m <= |yy| && cells[..wr] == c.out && yy[..m] == c.list && zPend == c.zeros
    && Tally(freq, c.out)
  }

  // The body of the loop: one more rank.
  method OneValue(cells: array<int>, freq: array<int>, yy: array<int>, m: nat, wr0: nat, zPend0: nat, ll: int, i: nat,
                  ghost c: Coder)
    returns (wr: nat, zPend: nat, ghost d: Coder)
    requires cells != freq && cells != yy && freq != yy && i < cells.Length && wr0 + zPend0 <= i
    requires 1 <= m <= yy.Length && m < MAX_ALPHA && Holding(cells[..], freq[..], yy[..], m, wr0, zPend0, c)
    requires c.list != [] && ll in c.list
    modifies cells, freq, yy
    ensures d == if c.list[0] == ll then Coder(c.list, c.zeros + 1, c.out)
      else Coder(ToFront(c.list, Find(c.list, ll)), 0, c.out + Run(c.zeros) + [Find(c.list, ll) + 1])
    ensures Holding(cells[..], freq[..], yy[..], m, wr, zPend, d) && wr + zPend <= i + 1
    ensures forall k :: i < k < cells.Length ==> cells[k] == old(cells[k])
  {
    hide Tally, Run, ToFront, Find;
    wr, zPend := wr0, zPend0;
    assert yy[0] == yy[..m][0] == c.list[0] && cells[..wr] == c.out && yy[..m] == c.list && c.zeros == zPend;
    if yy[0] == ll {
      zPend := zPend + 1;
      d := Coder(c.list, c.zeros + 1, c.out);
    } else {
      wr := FlushRun(cells, freq, wr, zPend);
      FlushEnds(c.out, 0);
      FlushEnds(c.out, c.zeros);
      zPend := 0;
      assert yy[..m] == c.list;
      AtLeastTwo(c.list, ll);
      var j := Promote(yy, ll, m);
      Put(cells, freq, wr, j + 1);
      wr := wr + 1;
      d := Coder(ToFront(c.list, j), 0, c.out + Run(c.zeros) + [j + 1]);
    }
  }

  lemma AtLeastTwo(s: seq<int>, x: int)
    requires s != [] && x in s && s[0] != x
    ensures |s| >= 2
  {
  }

  // The rank of the byte one place before entry i, around the block.
  method LastRank(cells: array<int>, block: array<Byte>, unseqToSeq: array<int>, i: nat, n: nat,
                  ghost b: seq<Byte>, ghost p: seq<int>, ghost used: seq<bool>) returns (ll: int)
    requires |used| == 256 == unseqToSeq.Length && n == |b| > 0 && block.Length >= n && block[..n] == b
    requires i < n && 2 * i + 1 < cells.Length && |p| == n && PtrAt(cells[..], i) == p[i] && 0 <= p[i] < n
    requires forall k :: 0 <= k < n ==> used[b[k]]
    requires forall k :: 0 <= k < 256 && used[k] ==> unseqToSeq[k] == Rank(used, k)
    ensures ll == LastRanks(b, p, used)[i]
  {
    hide Rank, LastColumn;
    var j := cells[2 * i] + 65536 * cells[2 * i + 1] - 1;
    if j < 0 { j := j + n; }
    LastAt(b, p, i);
    assert block[j] == block[..n][j] == b[j];
    ll := unseqToSeq[block[j]];
  }

  // generateMTFValues: nMTF values in the first halfwords, none written over a pointer
  // that is still to be read.
  method GenerateMtfValues(cells: array<int>, block: array<Byte>, inUse: array<bool>, freq: array<int>, n: nat)
    returns (nMTF: nat, nInUse: nat)
    requires cells != freq && n > 0 && cells.Length >= 2 * n && block.Length >= n && inUse.Length == 256
    requires freq.Length >= MAX_ALPHA && forall k :: 0 <= k < n ==> inUse[block[k]]
    requires IsPermutation(Ptrs(cells[..], n), n)
    modifies cells, freq
    ensures 1 <= nInUse == Rank(inUse[..], 256) <= 256
    ensures Ranks(LastRanks(block[..n], old(Ptrs(cells[..], n)), inUse[..]), Identity(Rank(inUse[..], 256)))
    ensures 1 <= nMTF <= n + 1 && cells[..nMTF] == Encode(Identity(Rank(inUse[..], 256)),
      LastRanks(block[..n], old(Ptrs(cells[..], n)), inUse[..]), Rank(inUse[..], 256) + 1)
    ensures Tally(freq[..], cells[..nMTF])
  {
    hide Rank, Tally, Run, ToFront, Find, Scan, ScanTo, Ranks, RanksPart, Holding, LastRanks, LastColumn, PtrAt,
      IsPermutation;
    ghost var b, used, p, start := block[..n], inUse[..], Ptrs(cells[..], n), cells[..];
    ghost var ranks := LastRanks(b, p, used);
    RanksListed(b, p, used);
    var unseqToSeq := new int[256];
    var m := MakeMapsE(inUse, unseqToSeq);
    RankSmall(used, 256);
    var eob := m + 1;
    var yy := new int[256];
    Ascending(yy, m);
    ClearFreq(freq);
    ghost var list := Identity(m);
    ghost var c := Coder(list, 0, []);
    assert yy[..m] == list && ranks[..0] == [];
    RanksStart(list, ranks);
    HoldingStart(cells[..], freq[..], yy[..], m, c);
    var wr: nat, zPend: nat, i: nat := 0, 0, 0;
    while i < n
      invariant 0 <= i <= n && wr + zPend <= i && RanksPart(list, ranks, i) && c == ScanTo(list, ranks, i)
      invariant Holding(cells[..], freq[..], yy[..], m, wr, zPend, c)
      invariant block[..n] == b && inUse[..] == used
      invariant forall k :: 2 * i <= k < 2 * n ==> cells[k] == start[k]
      invariant forall k :: 0 <= k < 256 && used[k] ==> unseqToSeq[k] == Rank(used, k)
    {
      SamePtr(start, cells[..], n, i);
      var ll := LastRank(cells, block, unseqToSeq, i, n, b, p, used);
      ScanMore(list, ranks, i);
      wr, zPend, c := OneValue(cells, freq, yy, m, wr, zPend, ll, i, c);
      i := i + 1;
    }
    ScanAll(list, ranks);
    nMTF := EndValues(cells, freq, yy[..], m, wr, zPend, eob, c);
    nInUse := m;
  }

  // The last pending run and the end mark.
  method EndValues(cells: array<int>, freq: array<int>, ghost yy: seq<int>, ghost m: nat, start: nat, zPend: nat,
                   eob: int, ghost c: Coder)
    returns (nMTF: nat)
    requires cells != freq && start + zPend < cells.Length && 0 <= eob < MAX_ALPHA
    requires Holding(cells[..], freq[..], yy, m, start, zPend, c)
    modifies cells, freq
    ensures 1 <= nMTF <= start + zPend + 1 <= cells.Length
    ensures cells[..nMTF] == c.out + Run(c.zeros) + [eob] && Tally(freq[..], cells[..nMTF])
  {
    hide Tally, Run, Holding;
    HoldingParts(cells[..], freq[..], yy, m, start, zPend, c);
    var wr := FlushRun(cells, freq, start, zPend);
    Put(cells, freq, wr, eob);
    nMTF := wr + 1;
  }

  ghost predicate RanksPart(list: seq<int>, s: seq<int>, i: nat) {
    list != [] && i <= |s| && Ranks(s, list) && Ranks(s[..i], list)
  }

  function ScanTo(list: seq<int>, s: seq<int>, i: nat): Coder
    requires RanksPart(list, s, i)
  {
    Scan(list, s[..i])
  }

  lemma RanksStart(list: seq<int>, s: seq<int>)
    requires list != [] && Ranks(s, list)
    ensures RanksPart(list, s, 0) && ScanTo(list, s, 0) == Coder(list, 0, [])
  {
  }

  lemma ScanAll(list: seq<int>, s: seq<int>)
    requires RanksPart(list, s, |s|)
    ensures list != [] && Ranks(s, list) && ScanTo(list, s, |s|) == Scan(list, s)
  {
    assert s[..|s|] == s;
  }

  lemma RankSmall(used: seq<bool>, n: nat)
    requires n <= |used|
    ensures Rank(used, n) <= n
  {
  }

  // Pointer i is still what it was, and in range.
  lemma SamePtr(start: seq<int>, cells: seq<int>, n: nat, i: nat)
    requires 2 * n <= |start| == |cells| && i < n && IsPermutation(Ptrs(start, n), n)
    requires forall k :: 2 * i <= k < 2 * n ==> cells[k] == start[k]
    ensures PtrAt(cells, i) == Ptrs(start, n)[i] && 0 <= Ptrs(start, n)[i] < n
  {
  }

  method Ascending(yy: array<int>, m: nat)
    requires m <= yy.Length
    modifies yy
    ensures yy[..m] == Identity(m)
  {
    for i := 0 to m
      invariant forall k :: 0 <= k < i ==> yy[k] == k
    {
      yy[i] := i;
    }
  }

  method ClearFreq(freq: array<int>)
    requires freq.Length >= MAX_ALPHA
    modifies freq
    ensures Tally(freq[..], [])
  {
    for i := 0 to MAX_ALPHA
      invariant forall v :: 0 <= v < i ==> freq[v] == 0
    {
      freq[i] := 0;
    }
  }

  lemma HoldingStart(cells: seq<int>, freq: seq<int>, yy: seq<int>, m: nat, c: Coder)
    requires m <= |yy| && c == Coder(yy[..m], 0, []) && Tally(freq, [])
    ensures Holding(cells, freq, yy, m, 0, 0, c)
  {
    assert cells[..0] == [];
  }

  lemma HoldingParts(cells: seq<int>, freq: seq<int>, yy: seq<int>, m: nat, wr: nat, zPend: nat, c: Coder)
    requires Holding(cells, freq, yy, m, wr, zPend, c)
    ensures wr <= |cells| && cells[..wr] == c.out && zPend == c.zeros && Tally(freq, cells[..wr])
  {
  }

  lemma ScanMore(list: seq<int>, s: seq<int>, i: nat)
    requires RanksPart(list, s, i) && i < |s|
    ensures RanksPart(list, s, i + 1)
    ensures var c := ScanTo(list, s, i);
      c.list != [] && s[i] in c.list && |c.list| == |list|
      && ScanTo(list, s, i + 1) == if c.list[0] == s[i] then Coder(c.list, c.zeros + 1, c.out)
        else Coder(ToFront(c.list, Find(c.list, s[i])), 0, c.out + Run(c.zeros) + [Find(c.list, s[i]) + 1])
  {
    ScanNext(list, s, i + 1);
    RanksPrefix(list, s, i + 1);
  }
}
