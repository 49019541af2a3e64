// Choosing the coding tables of a block (dep/bzip2/compress.c, sendMTFValues): the initial tables,
// and for every group of fifty values the table that codes it in the fewest bits. The cost of a full
// group under six tables is summed in three packed words.
module BzChoose {
  import Bits
  import opened BzHuffmanLengths
  import opened BzFormat
  import opened BzSend

  const LESSER_ICOST := 0
  const GREATER_ICOST := 15
  const N_ITERS := 4

  // ----- What a group costs -----

  // Prices low enough for fifty of them to fit sixteen bits.
  ghost predicate Priced(lens: seq<int>, alphaSize: nat) {
    |lens| == alphaSize && forall v :: 0 <= v < alphaSize ==> 0 <= lens[v] <= 20
  }

  ghost predicate AllPriced(tables: seq<seq<int>>, alphaSize: nat) {
    forall t :: 0 <= t < |tables| ==> Priced(tables[t], alphaSize)
  }

  function Cost(lens: seq<int>, group: seq<int>): int
    requires InRange(group, |lens|)
  {
    if group == [] then 0 else Cost(lens, group[..|group| - 1]) + lens[group[|group| - 1]]
  }

  lemma {:induction false} CostBounds(lens: seq<int>, group: seq<int>, alphaSize: nat)
    requires Priced(lens, alphaSize) && InRange(group, alphaSize)
    ensures 0 <= Cost(lens, group) <= 20 * |group|
  {
    if group != [] { CostBounds(lens, group[..|group| - 1], alphaSize); }
  }

  lemma CostNext(lens: seq<int>, group: seq<int>, i: nat, alphaSize: nat)
    requires Priced(lens, alphaSize) && InRange(group, alphaSize) && i < |group|
    ensures InRange(group[..i], alphaSize) && InRange(group[..i + 1], alphaSize) && 0 <= group[i] < alphaSize
    ensures Cost(lens, group[..i + 1]) == Cost(lens, group[..i]) + lens[group[i]] && 0 <= lens[group[i]] <= 20
    ensures 0 <= Cost(lens, group[..i]) <= 20 * i
  {
    assert group[..i + 1][..i] == group[..i];
    CostBounds(lens, group[..i], alphaSize);
  }

  lemma CostStart(lens: seq<int>, group: seq<int>)
    ensures InRange(group[..0], |lens|) && Cost(lens, group[..0]) == 0
  {
  }

  // The costs of the first i values under the first k tables, and of one value more.
  ghost predicate Summed(cost: seq<int>, tables: seq<seq<int>>, group: seq<int>, i: nat, k: nat, alphaSize: nat) {
    && AllPriced(tables, alphaSize) && InRange(group, alphaSize) && |cost| >= |tables| && k <= |tables|
    && i + (if k > 0 then 1 else 0) <= |group|
    && forall t :: 0 <= t < |tables| ==>
      InRange(group[..if t < k then i + 1 else i], alphaSize)
      && cost[t] == Cost(tables[t], group[..if t < k then i + 1 else i])
  }

  lemma SummedNext(cost: seq<int>, tables: seq<seq<int>>, group: seq<int>, i: nat, k: nat, alphaSize: nat)
    requires Summed(cost, tables, group, i, k, alphaSize) && k < |tables| && i < |group| <= G_SIZE
    ensures 0 <= group[i] < alphaSize == |tables[k]| && k < |cost|
    ensures Summed(cost[k := (cost[k] + tables[k][group[i]]) % 0x1_0000], tables, group, i, k + 1, alphaSize)
  {
    hide Cost, InRange;
    assert Priced(tables[k], alphaSize);
    CostNext(tables[k], group, i, alphaSize);
  }

  lemma SummedRow(cost: seq<int>, tables: seq<seq<int>>, group: seq<int>, i: nat, alphaSize: nat)
    requires Summed(cost, tables, group, i, |tables|, alphaSize) && i < |group|
    ensures Summed(cost, tables, group, i + 1, 0, alphaSize)
  {
    hide Cost, InRange;
    InRangePrefix(group, alphaSize, i + 1);
    forall t | 0 <= t < |tables|
      ensures InRange(group[..i + 1], |tables[t]|) && cost[t] == Cost(tables[t], group[..i + 1])
    {
      var j := if t < |tables| then i + 1 else i;
      assert Priced(tables[t], alphaSize) && cost[t] == Cost(tables[t], group[..j]);
    }
  }

  lemma InRangePrefix(s: seq<int>, n: int, i: nat)
    requires InRange(s, n) && i <= |s|
    ensures InRange(s[..i], n)
  {
  }

  // Value by value and table by table, in sixteen bits.
  method SlowCosts(group: seq<int>, tables: seq<seq<int>>, cost: array<int>, alphaSize: nat)
    requires AllPriced(tables, alphaSize) && InRange(group, alphaSize) && |group| <= G_SIZE
    requires |tables| <= cost.Length && forall t :: 0 <= t < |tables| ==> cost[t] == 0
    modifies cost
    ensures forall t :: 0 <= t < |tables| ==> Priced(tables[t], alphaSize) && cost[t] == Cost(tables[t], group)
  {
    hide Cost, InRange, Summed, Priced;
    SummedStart(cost[..], tables, group, alphaSize);
    for i := 0 to |group|
      invariant Summed(cost[..], tables, group, i, 0, alphaSize)
    {
      for t := 0 to |tables|
        invariant Summed(cost[..], tables, group, i, t, alphaSize)
      {
        ghost var before := cost[..];
        SummedNext(before, tables, group, i, t, alphaSize);
        cost[t] := (cost[t] + tables[t][group[i]]) % 0x1_0000;
        assert cost[..] == before[t := cost[t]];
      }
      SummedRow(cost[..], tables, group, i, alphaSize);
    }
    SummedEnd(cost[..], tables, group, alphaSize);
  }

  lemma SummedStart(cost: seq<int>, tables: seq<seq<int>>, group: seq<int>, alphaSize: nat)
    requires AllPriced(tables, alphaSize) && InRange(group, alphaSize) && |cost| >= |tables|
    requires forall t :: 0 <= t < |tables| ==> cost[t] == 0
    ensures Summed(cost, tables, group, 0, 0, alphaSize)
  {
    forall t | 0 <= t < |tables| ensures Cost(tables[t], group[..0]) == 0 { CostStart(tables[t], group); }
  }

  lemma SummedEnd(cost: seq<int>, tables: seq<seq<int>>, group: seq<int>, alphaSize: nat)
    requires Summed(cost, tables, group, |group|, 0, alphaSize)
    ensures InRange(group, alphaSize) && |cost| >= |tables|
    ensures forall t :: 0 <= t < |tables| ==> Priced(tables[t], alphaSize) && cost[t] == Cost(tables[t], group)
  {
    hide Cost, InRange;
    assert group[..|group|] == group;
  }

  // ----- Two sums in one word -----

  // Two prices of one value, packed.
  function Pack(lo: nat, hi: nat): nat {
    Bits.Or(lo, hi * 0x1_0000)
  }

  lemma PackIs(lo: nat, hi: nat)
    requires lo < 0x1_0000
    ensures Pack(lo, hi) == lo + hi * 0x1_0000
  {
    hide Bits.Or;
    Sixteen();
    Bits.OrHalf(lo, hi, 16);
  }

  lemma Sixteen()
    ensures Bits.Pow2(16) == 0x1_0000
  {
    Bits.Pow2Add(8, 8);
    assert Bits.Pow2(8) == 256;
  }

  // The packed sums of the first i values: no carry leaves the lower half.
  ghost predicate PackedSum(word: int, a: seq<int>, b: seq<int>, group: seq<int>, i: nat, alphaSize: nat) {
    && Priced(a, alphaSize) && Priced(b, alphaSize) && InRange(group, alphaSize) && i <= |group| <= G_SIZE
    && InRange(group[..i], alphaSize) && word == Cost(a, group[..i]) + 0x1_0000 * Cost(b, group[..i])
  }

  lemma PackedNext(word: int, a: seq<int>, b: seq<int>, group: seq<int>, i: nat, alphaSize: nat)
    requires PackedSum(word, a, b, group, i, alphaSize) && i < |group|
    ensures 0 <= group[i] < alphaSize == |a| == |b| && a[group[i]] >= 0 && b[group[i]] >= 0
    ensures PackedSum((word + Pack(a[group[i]], b[group[i]])) % 0x1_0000_0000, a, b, group, i + 1, alphaSize)
  {
    hide Cost, InRange, Pack;
    CostNext(a, group, i, alphaSize);
    CostNext(b, group, i, alphaSize);
    PackIs(a[group[i]], b[group[i]]);
  }

  lemma PackedEnd(word: int, a: seq<int>, b: seq<int>, group: seq<int>, alphaSize: nat)
    requires PackedSum(word, a, b, group, |group|, alphaSize)
    ensures InRange(group, alphaSize) && |a| == alphaSize == |b|
    ensures word % 0x1_0000 == Cost(a, group) && word / 0x1_0000 == Cost(b, group)
  {
    hide Cost, InRange;
    assert group[..|group|] == group;
    CostBounds(a, group, alphaSize);
    CostBounds(b, group, alphaSize);
  }

  // A full group under six tables; the source writes the loop out.
  method FastCosts(group: seq<int>, tables: seq<seq<int>>, cost: array<int>, alphaSize: nat)
    requires AllPriced(tables, alphaSize) && InRange(group, alphaSize) && |group| == G_SIZE && |tables| == 6
    requires 6 <= cost.Length
    modifies cost
    ensures forall t :: 0 <= t < |tables| ==> Priced(tables[t], alphaSize) && cost[t] == Cost(tables[t], group)
  {
    hide Cost, InRange, Pack, PackedSum, Priced;
    var cost01, cost23, cost45 := 0, 0, 0;
    assert Priced(tables[0], alphaSize) && Priced(tables[1], alphaSize) && Priced(tables[2], alphaSize);
    assert Priced(tables[3], alphaSize) && Priced(tables[4], alphaSize) && Priced(tables[5], alphaSize);
    PackedStart(tables[0], tables[1], group, alphaSize);
    PackedStart(tables[2], tables[3], group, alphaSize);
    PackedStart(tables[4], tables[5], group, alphaSize);
    for nn := 0 to G_SIZE
      invariant PackedSum(cost01, tables[0], tables[1], group, nn, alphaSize)
      invariant PackedSum(cost23, tables[2], tables[3], group, nn, alphaSize)
      invariant PackedSum(cost45, tables[4], tables[5], group, nn, alphaSize)
    {
      PackedNext(cost01, tables[0], tables[1], group, nn, alphaSize);
      PackedNext(cost23, tables[2], tables[3], group, nn, alphaSize);
      PackedNext(cost45, tables[4], tables[5], group, nn, alphaSize);
      var icv := group[nn];
      cost01 := (cost01 + Pack(tables[0][icv], tables[1][icv])) % 0x1_0000_0000;
      cost23 := (cost23 + Pack(tables[2][icv], tables[3][icv])) % 0x1_0000_0000;
      cost45 := (cost45 + Pack(tables[4][icv], tables[5][icv])) % 0x1_0000_0000;
    }
    PackedEnd(cost01, tables[0], tables[1], group, alphaSize);
    PackedEnd(cost23, tables[2], tables[3], group, alphaSize);
    PackedEnd(cost45, tables[4], tables[5], group, alphaSize);
    cost[0], cost[1] := cost01 % 0x1_0000, cost01 / 0x1_0000;
    cost[2], cost[3] := cost23 % 0x1_0000, cost23 / 0x1_0000;
    cost[4], cost[5] := cost45 % 0x1_0000, cost45 / 0x1_0000;
  }

  lemma PackedStart(a: seq<int>, b: seq<int>, group: seq<int>, alphaSize: nat)
    requires Priced(a, alphaSize) && Priced(b, alphaSize) && InRange(group, alphaSize) && |group| <= G_SIZE
    ensures PackedSum(0, a, b, group, 0, alphaSize)
  {
    CostStart(a, group);
    CostStart(b, group);
  }

  // ----- The cheapest table -----

  // No table is cheaper for the group, and none before it is as cheap.
  ghost predicate Cheapest(tables: seq<seq<int>>, group: seq<int>, bt: int, alphaSize: nat) {
    && AllPriced(tables, alphaSize) && InRange(group, alphaSize) && 0 <= bt < |tables|
    && (forall t :: 0 <= t < |tables| ==> Cost(tables[bt], group) <= Cost(tables[t], group))
    && (forall t :: 0 <= t < bt ==> Cost(tables[bt], group) < Cost(tables[t], group))
  }

  method BestOf(cost: array<int>, nGroups: nat) returns (bt: int)
    requires 1 <= nGroups <= cost.Length && forall t :: 0 <= t < nGroups ==> cost[t] < 999999999
    ensures 0 <= bt < nGroups
    ensures forall t :: 0 <= t < nGroups ==> cost[bt] <= cost[t]
    ensures forall t :: 0 <= t < bt ==> cost[bt] < cost[t]
  {
    var bc := 999999999;
    bt := -1;
    for t := 0 to nGroups
      invariant bt < t && (t == 0 ==> bt == -1 && bc == 999999999) && (t > 0 ==> 0 <= bt && bc == cost[bt])
      invariant forall k :: 0 <= k < t ==> bc <= cost[k]
      invariant forall k :: 0 <= k < bt ==> bc < cost[k]
    {
      if cost[t] < bc { bc, bt := cost[t], t; }
    }
  }

  method BestTable(group: seq<int>, tables: seq<seq<int>>, alphaSize: nat) returns (bt: int)
    requires AllPriced(tables, alphaSize) && InRange(group, alphaSize) && |group| <= G_SIZE
    requires 1 <= |tables| <= N_GROUPS
    ensures Cheapest(tables, group, bt, alphaSize)
  {
    hide Cost, InRange, Priced, Cheapest;
    var cost := new int[N_GROUPS](_ => 0);
    if |tables| == 6 && G_SIZE == |group| {
      FastCosts(group, tables, cost, alphaSize);
    } else {
      SlowCosts(group, tables, cost, alphaSize);
    }
    forall t | 0 <= t < |tables| ensures cost[t] < 999999999 { CostBounds(tables[t], group, alphaSize); }
    bt := BestOf(cost, |tables|);
    CheapestIs(cost[..], tables, group, bt, alphaSize);
  }

  lemma CheapestIs(cost: seq<int>, tables: seq<seq<int>>, group: seq<int>, bt: int, alphaSize: nat)
    requires AllPriced(tables, alphaSize) && InRange(group, alphaSize) && 0 <= bt < |tables| <= |cost|
    requires forall t :: 0 <= t < |tables| ==> Priced(tables[t], alphaSize) && cost[t] == Cost(tables[t], group)
    requires forall t :: 0 <= t < |tables| ==> cost[bt] <= cost[t]
    requires forall t :: 0 <= t < bt ==> cost[bt] < cost[t]
    ensures Cheapest(tables, group, bt, alphaSize)
  {
    hide Cost, InRange;
  }

  // Values 50 g and following.
  function Group(mtfv: seq<int>, g: nat): seq<int>
    requires G_SIZE * g <= |mtfv|
  {
    if |mtfv| < G_SIZE * g + G_SIZE then mtfv[G_SIZE * g..] else mtfv[G_SIZE * g..G_SIZE * g + G_SIZE]
  }

  // Every group has its cheapest table.
  ghost predicate BestSelectors(sel: seq<int>, tables: seq<seq<int>>, mtfv: seq<int>, alphaSize: nat) {
    && |sel| == (|mtfv| + (G_SIZE - 1)) / G_SIZE
    && forall g :: 0 <= g < |sel| ==> G_SIZE * g <= |mtfv| && Cheapest(tables, Group(mtfv, g), sel[g], alphaSize)
  }

  // One pass over the groups.
  method ChooseSelectors(mtfv: seq<int>, tables: seq<seq<int>>, alphaSize: nat) returns (sel: seq<int>)
    requires AllPriced(tables, alphaSize) && InRange(mtfv, alphaSize) && 1 <= |tables| <= N_GROUPS
    ensures BestSelectors(sel, tables, mtfv, alphaSize) && InRange(sel, |tables|)
  {
    hide Cost, InRange, Priced, Cheapest;
    sel := [];
    var gs: nat := 0;
    SelectorsNone(|tables|);
    while gs < |mtfv|
      invariant InRange(sel, |tables|) && gs == G_SIZE * |sel| && gs < |mtfv| + G_SIZE
      invariant forall g :: 0 <= g < |sel| ==>
        G_SIZE * g <= |mtfv| && Cheapest(tables, Group(mtfv, g), sel[g], alphaSize)
      decreases |mtfv| + G_SIZE - gs
    {
      var ge := gs + G_SIZE - 1;
      if ge >= |mtfv| { ge := |mtfv| - 1; }
      var group := mtfv[gs..ge + 1];
      assert group == Group(mtfv, |sel|);
      GroupInRange(mtfv, alphaSize, gs, ge + 1);
      var bt := BestTable(group, tables, alphaSize);
      SelectorsMore(sel, |tables|, bt, tables, group, alphaSize);
      sel := sel + [bt];
      gs := gs + G_SIZE;
    }
  }

  lemma SelectorsNone(n: int)
    ensures InRange([], n)
  {
  }

  lemma GroupInRange(s: seq<int>, n: int, lo: nat, hi: nat)
    requires InRange(s, n) && lo <= hi <= |s|
    ensures InRange(s[lo..hi], n)
  {
  }

  lemma SelectorsMore(sel: seq<int>, n: int, bt: int, tables: seq<seq<int>>, group: seq<int>, alphaSize: nat)
    requires InRange(sel, n) && n == |tables| && Cheapest(tables, group, bt, alphaSize)
    ensures InRange(sel + [bt], n)
  {
  }

  // ----- The initial tables -----

  // Cheap from lo up to hi, dear elsewhere.
  function Stretch(lo: int, hi: int, alphaSize: nat): (lens: seq<int>)
    ensures |lens| == alphaSize
  {
    seq(alphaSize, v requires 0 <= v < alphaSize => if lo <= v < hi then LESSER_ICOST else GREATER_ICOST)
  }

  function SumOf(f: seq<int>, lo: int, hi: int): int
    requires 0 <= lo && hi <= |f|
    decreases hi
  {
    if hi <= lo then 0 else SumOf(f, lo, hi - 1) + f[hi - 1]
  }

  // The share of the frequencies left that a stretch aims at, truncated.
  function Aim(remF: int, nPart: nat): int
    requires nPart >= 1
  {
    if remF >= 0 then remF / nPart else -(-remF / nPart)
  }

  // From gs on, top is the first symbol with which the stretch has its share, or the last one there is.
  ghost predicate Reached(f: seq<int>, gs: int, top: int, aim: int, alphaSize: nat) {
    && 0 <= gs && gs - 1 <= top < alphaSize <= |f|
    && (forall e :: gs <= e <= top ==> SumOf(f, gs, e) < aim)
    && (SumOf(f, gs, top + 1) >= aim || top == alphaSize - 1)
  }

  // Every second stretch, but for the first and the last, leaves its top symbol to the next.
  predicate LeavesTop(gs: int, top: int, nGroups: nat, nPart: nat) {
    top > gs && nPart != nGroups && nPart != 1 && (nGroups - nPart) % 2 == 1
  }

  ghost predicate StretchBy(f: seq<int>, nGroups: nat, nPart: nat, gs: int, hi: int, remF: int, alphaSize: nat,
                            top: int)
    requires nPart >= 1
  {
    && Reached(f, gs, top, Aim(remF, nPart), alphaSize)
    && hi == if LeavesTop(gs, top, nGroups, nPart) then top else top + 1
  }

  // Table n - 1 - i is cheap on the stretch from bounds[i] on; the stretches follow one another, each as
  // far as its share of what is left.
  ghost predicate Divided(tables: seq<seq<int>>, bounds: seq<int>, tops: seq<int>, f: seq<int>, nMTF: int, n: nat,
                          done: nat, alphaSize: nat)
  {
    && |tables| == n && |bounds| == done + 1 && |tops| == done <= n && bounds[0] == 0 && alphaSize <= |f|
    && forall i :: 0 <= i < done ==> StretchAt(tables, bounds, tops, f, nMTF, n, i, alphaSize)
  }

  ghost predicate StretchAt(tables: seq<seq<int>>, bounds: seq<int>, tops: seq<int>, f: seq<int>, nMTF: int, n: nat,
                            i: nat, alphaSize: nat)
  {
    && i < n <= |tables| && i + 1 < |bounds| && i < |tops| && 0 <= bounds[i] <= bounds[i + 1] <= alphaSize <= |f|
    && tables[n - 1 - i] == Stretch(bounds[i], bounds[i + 1], alphaSize)
    && StretchBy(f, n, n - i, bounds[i], bounds[i + 1], nMTF - SumOf(f, 0, bounds[i]), alphaSize, tops[i])
  }

  lemma DividedNext(tables: seq<seq<int>>, bounds: seq<int>, tops: seq<int>, f: seq<int>, nMTF: int, n: nat, done: nat,
                    alphaSize: nat, hi: int, top: int)
    requires Divided(tables, bounds, tops, f, nMTF, n, done, alphaSize) && done < n
    requires 0 <= bounds[done] <= hi <= alphaSize
    requires StretchBy(f, n, n - done, bounds[done], hi, nMTF - SumOf(f, 0, bounds[done]), alphaSize, top)
    ensures Divided(tables[n - 1 - done := Stretch(bounds[done], hi, alphaSize)], bounds + [hi], tops + [top], f, nMTF,
      n,
      done + 1, alphaSize)
  {
    hide Stretch, StretchBy, SumOf;
    var next, more, last := tables[n - 1 - done := Stretch(bounds[done], hi, alphaSize)], bounds + [hi], tops + [top];
    forall i | 0 <= i < done + 1 ensures StretchAt(next, more, last, f, nMTF, n, i, alphaSize) {
      if i < done { assert StretchAt(tables, bounds, tops, f, nMTF, n, i, alphaSize); }
    }
  }

  lemma DividedAt(tables: seq<seq<int>>, bounds: seq<int>, tops: seq<int>, f: seq<int>, nMTF: int, n: nat, done: nat,
                  alphaSize: nat)
    requires Divided(tables, bounds, tops, f, nMTF, n, done, alphaSize)
    ensures |tables| == n && |bounds| == done + 1 && alphaSize <= |f|
  {
  }

  lemma {:induction false} SumSplit(f: seq<int>, mid: int, hi: int)
    requires 0 <= mid <= hi <= |f|
    ensures SumOf(f, 0, hi) == SumOf(f, 0, mid) + SumOf(f, mid, hi)
    decreases hi
  {
    if mid < hi { SumSplit(f, mid, hi - 1); }
  }

  // Where the next stretch ends.
  method NextStretch(freq: array<int>, nGroups: nat, nPart: nat, gs: nat, remF: int, alphaSize: nat)
    returns (ge: int, aFreq: int, ghost top: int)
    requires 1 <= nPart <= nGroups && gs <= alphaSize <= freq.Length
    ensures gs - 1 <= ge < alphaSize && aFreq == SumOf(freq[..], gs, ge + 1)
    ensures StretchBy(freq[..], nGroups, nPart, gs, ge + 1, remF, alphaSize, top)
  {
    ghost var f := freq[..];
    var tFreq := Aim(remF, nPart);
    ge, aFreq := gs - 1, 0;
    while aFreq < tFreq && ge < alphaSize - 1
      invariant gs - 1 <= ge < alphaSize && aFreq == SumOf(f, gs, ge + 1)
      invariant forall e :: gs <= e <= ge ==> SumOf(f, gs, e) < tFreq
      decreases alphaSize - ge
    {
      ge := ge + 1;
      aFreq := aFreq + freq[ge];
    }
    top := ge;
    if ge > gs && nPart != nGroups && nPart != 1 && (nGroups - nPart) % 2 == 1 {
      aFreq := aFreq - freq[ge];
      ge := ge - 1;
    }
  }

  method InitialTables(freq: array<int>, nMTF: nat, nGroups: nat, alphaSize: nat)
    returns (tables: seq<seq<int>>, ghost bounds: seq<int>, ghost tops: seq<int>)
    requires alphaSize <= freq.Length && nGroups >= 1
    ensures Divided(tables, bounds, tops, freq[..], nMTF, nGroups, nGroups, alphaSize) && AllPriced(tables, alphaSize)
  {
    hide Stretch, Priced, Divided, StretchBy, SumOf;
    ghost var f := freq[..];
    tables := seq(nGroups, _ => Stretch(0, 0, alphaSize));
    var nPart, remF, gs: nat := nGroups, nMTF, 0;
    bounds, tops := [0], [];
    forall t | 0 <= t < nGroups ensures Priced(tables[t], alphaSize) { StretchPriced(0, 0, alphaSize); }
    DividedStart(tables, f, nMTF, alphaSize);
    while nPart > 0
      invariant nPart <= nGroups && gs <= alphaSize && AllPriced(tables, alphaSize)
      invariant Divided(tables, bounds, tops, f, nMTF, nGroups, nGroups - nPart, alphaSize)
      invariant |bounds| == nGroups - nPart + 1 && bounds[nGroups - nPart] == gs && remF == nMTF - SumOf(f, 0, gs)
    {
      DividedAt(tables, bounds, tops, f, nMTF, nGroups, nGroups - nPart, alphaSize);
      var ge, aFreq;
      ghost var top;
      ge, aFreq, top := NextStretch(freq, nGroups, nPart, gs, remF, alphaSize);
      SumSplit(f, gs, ge + 1);
      StretchPriced(gs, ge + 1, alphaSize);
      DividedNext(tables, bounds, tops, f, nMTF, nGroups, nGroups - nPart, alphaSize, ge + 1, top);
      tables := tables[nPart - 1 := Stretch(gs, ge + 1, alphaSize)];
      bounds, tops := bounds + [ge + 1], tops + [top];
      nPart := nPart - 1;
      gs := ge + 1;
      remF := remF - aFreq;
    }
  }

  lemma DividedStart(tables: seq<seq<int>>, f: seq<int>, nMTF: int, alphaSize: nat)
    requires alphaSize <= |f|
    ensures Divided(tables, [0], [], f, nMTF, |tables|, 0, alphaSize) && SumOf(f, 0, 0) == 0
  {
  }

  lemma StretchPriced(lo: int, hi: int, alphaSize: nat)
    ensures Priced(Stretch(lo, hi, alphaSize), alphaSize)
  {
  }

  // ----- The passes -----

  lemma SendablePriced(tables: seq<seq<int>>, alphaSize: nat)
    requires AllSendable(tables, alphaSize)
    ensures AllPriced(tables, alphaSize)
  {
  }

  // The initial tables of a block.
  ghost predicate Initial(tables: seq<seq<int>>, f: seq<int>, nMTF: int, alphaSize: nat) {
    exists bounds: seq<int>, tops: seq<int> :: Divided(tables, bounds, tops, f, nMTF, |tables|, |tables|, alphaSize)
  }

  // Pass i: the selectors are the cheapest for the tables before, and new tables are made for them.
  ghost predicate Pass(hist: seq<seq<seq<int>>>, sels: seq<seq<int>>, mtfv: seq<int>, alphaSize: nat, i: nat) {
    && i < |sels| && i + 1 < |hist| && |hist[i]| == |hist[i + 1]|
    && BestSelectors(sels[i], hist[i], mtfv, alphaSize) && AllMade(hist[i + 1], mtfv, sels[i], alphaSize)
  }

  ghost predicate Passes(hist: seq<seq<seq<int>>>, sels: seq<seq<int>>, mtfv: seq<int>, f: seq<int>, n: nat,
                         alphaSize: nat)
  {
    && |hist| == |sels| + 1 && |hist[0]| == n && Initial(hist[0], f, |mtfv|, alphaSize)
    && forall i :: 0 <= i < |sels| ==> Pass(hist, sels, mtfv, alphaSize, i)
  }

  lemma PassesMore(hist: seq<seq<seq<int>>>, sels: seq<seq<int>>, mtfv: seq<int>, f: seq<int>, n: nat, alphaSize: nat,
                   tables: seq<seq<int>>, sel: seq<int>)
    requires Passes(hist, sels, mtfv, f, n, alphaSize) && |tables| == |hist[|sels|]|
    requires BestSelectors(sel, hist[|sels|], mtfv, alphaSize) && AllMade(tables, mtfv, sel, alphaSize)
    ensures Passes(hist + [tables], sels + [sel], mtfv, f, n, alphaSize)
  {
    hide Initial, BestSelectors, AllMade;
    var h, s := hist + [tables], sels + [sel];
    forall i | 0 <= i < |s| ensures Pass(h, s, mtfv, alphaSize, i) {
      if i < |sels| { assert Pass(hist, sels, mtfv, alphaSize, i); }
    }
  }

  lemma PassesStart(tables: seq<seq<int>>, bounds: seq<int>, tops: seq<int>, mtfv: seq<int>, f: seq<int>,
                    alphaSize: nat)
    requires Divided(tables, bounds, tops, f, |mtfv|, |tables|, |tables|, alphaSize)
    ensures Passes([tables], [], mtfv, f, |tables|, alphaSize)
  {
    hide Divided;
  }

  // Four passes. hist holds the tables before each of them and at the end, sels the selectors of each.
  method Improve(mtfv: seq<int>, mtfFreq: array<int>, nGroups: nat, alphaSize: nat)
    returns (sel: seq<int>, tables: seq<seq<int>>, ghost hist: seq<seq<seq<int>>>, ghost sels: seq<seq<int>>)
    requires 2 <= alphaSize <= mtfFreq.Length && 1 <= nGroups <= N_GROUPS
    requires alphaSize <= MAX_ALPHA_SIZE && InRange(mtfv, alphaSize) && |mtfv| <= 900001
    ensures Passes(hist, sels, mtfv, mtfFreq[..], nGroups, alphaSize) && |sels| == 4
    ensures sel == sels[3] && tables == hist[4] && |tables| == nGroups
    ensures |sel| == (|mtfv| + (G_SIZE - 1)) / G_SIZE && InRange(sel, nGroups) && AllSendable(tables, alphaSize)
  {
    hide InRange, Cheapest, Priced, Sendable, MadeFor, Divided, Passes;
    ghost var bounds, tops, f := [], [], mtfFreq[..];
    sel, sels := [], [];
    tables, bounds, tops := InitialTables(mtfFreq, |mtfv|, nGroups, alphaSize);
    DividedAt(tables, bounds, tops, f, |mtfv|, nGroups, nGroups, alphaSize);
    hist := [tables];
    PassesStart(tables, bounds, tops, mtfv, f, alphaSize);
    for iter := 0 to N_ITERS
      invariant |tables| == nGroups && AllPriced(tables, alphaSize)
      invariant |sels| == iter && |hist| == iter + 1 && hist[iter] == tables
      invariant Passes(hist, sels, mtfv, f, nGroups, alphaSize)
      invariant iter > 0 ==> sels[iter - 1] == sel && |sel| == (|mtfv| + (G_SIZE - 1)) / G_SIZE
      invariant iter > 0 ==> InRange(sel, nGroups) && AllSendable(tables, alphaSize)
    {
      sel := ChooseSelectors(mtfv, tables, alphaSize);
      tables := MakeTables(mtfv, sel, nGroups, alphaSize);
      SendablePriced(tables, alphaSize);
      PassesMore(hist, sels, mtfv, f, nGroups, alphaSize, tables, sel);
      hist, sels := hist + [tables], sels + [sel];
    }
  }
}
