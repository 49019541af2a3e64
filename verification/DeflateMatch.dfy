// Strings in the sliding window of deflate (dep/zlib/deflate.c): how far two of them agree, what a
// match in the window means for the data, and when none on a chain is longer.
module DeflateMatch {
  import opened ByteType
  import opened Bits
  import opened DeflateHash
  import opened DeflateTokens
  import opened DeflateChains

  // Table entries are 16 bits wide.
  type Pos = x: int | 0 <= x < 0x1_0000

  const NIL := 0
  const TOO_FAR := 4096
  const WIN_INIT := MAX_MATCH

  // The window holds the data from base on.
  ghost predicate WindowOk(win: seq<Byte>, data: seq<Byte>, base: nat) {
    base <= |data| <= base + |win| && forall i :: 0 <= i < |data| - base ==> win[i] == data[base + i]
  }

  // A match of len bytes at window index s, found at m.
  ghost predicate MatchAt(data: seq<Byte>, base: nat, s: int, m: int, len: int, maxDist: int) {
    && MIN_MATCH <= len <= MAX_MATCH && 0 <= base + s && s - m <= maxDist
    && Repeats(data, base + s, len, s - m)
  }

  // ----- Comparing two strings in the window -----

  // Bytes lo to hi of the strings at s and at m are the same.
  ghost predicate SameRun(win: seq<Byte>, s: int, m: int, lo: int, hi: int) {
    0 <= m < s && 0 <= lo && s + hi <= |win| && forall i :: s + lo <= i < s + hi ==> win[i] == win[i - s + m]
  }

  lemma SameRunNext(win: seq<Byte>, s: int, m: int, lo: int, hi: int)
    requires SameRun(win, s, m, lo, hi) && lo <= hi && s + hi < |win| && win[s + hi] == win[m + hi]
    ensures SameRun(win, s, m, lo, hi + 1)
  {
  }

  // Up to eight more bytes; stops at the first difference.
  method Eight(win: array<Byte>, s: nat, m: nat, k0: nat) returns (k: nat, stop: bool)
    requires s + k0 + 8 < win.Length && SameRun(win[..], s, m, 0, k0 + 1)
    ensures k0 < k <= k0 + 8 && (!stop ==> k == k0 + 8)
    ensures if stop then SameRun(win[..], s, m, 0, k) && win[s + k] != win[m + k] else SameRun(win[..], s, m, 0, k + 1)
  {
    hide SameRun;
    k := k0;
    assert m < s by { SameRunBounds(win[..], s, m, 0, k0 + 1); }
    for n := 0 to 8
      invariant k == k0 + n && SameRun(win[..], s, m, 0, k + 1)
    {
      k := k + 1;
      if win[s + k] != win[m + k] { return k, true; }
      SameRunNext(win[..], s, m, 0, k);
    }
    stop := false;
  }

  lemma SameRunBounds(win: seq<Byte>, s: int, m: int, lo: int, hi: int)
    requires SameRun(win, s, m, lo, hi)
    ensures 0 <= m < s && s + hi <= |win|
  {
  }

  // How far the strings at s and m agree, up to MAX_MATCH; the first three bytes are known to.
  method CompareStrings(win: array<Byte>, s: nat, m: nat) returns (len: nat)
    requires s + MAX_MATCH < win.Length && SameRun(win[..], s, m, 0, 3)
    ensures 3 <= len <= MAX_MATCH && SameRun(win[..], s, m, 0, len)
    ensures len < MAX_MATCH ==> m < s && win[s + len] != win[m + len]
  {
    hide SameRun;
    len := 2;
    var stop := false;
    SameRunBounds(win[..], s, m, 0, 3);
    while !stop && len < MAX_MATCH
      invariant 2 <= len <= MAX_MATCH && (!stop ==> len % 8 == 2)
      invariant if stop then len >= 3 && SameRun(win[..], s, m, 0, len) && win[s + len] != win[m + len]
        else SameRun(win[..], s, m, 0, len + 1)
      decreases MAX_MATCH - len, !stop
    {
      len, stop := Eight(win, s, m, len);
    }
    SameRunLess(win[..], s, m, len);
  }

  lemma SameRunLess(win: seq<Byte>, s: int, m: int, hi: int)
    ensures SameRun(win, s, m, 0, hi + 1) ==> SameRun(win, s, m, 0, hi)
  {
  }

  function Larger(x: int, y: int): int {
    if x < y then y else x
  }

  function Smaller(x: int, y: int): int {
    if x < y then x else y
  }

  lemma RunStarts(win: seq<Byte>, s: nat)
    requires s > 0 && s + 2 < |win| && win[s - 1] == win[s] == win[s + 1] == win[s + 2]
    ensures SameRun(win, s, s - 1, 0, 3)
  {
  }

  lemma RunMatches(win: seq<Byte>, data: seq<Byte>, base: nat, s: nat, best: nat, len: nat, maxDist: int)
    requires WindowOk(win, data, base) && s > 0 && SameRun(win, s, s - 1, 0, best)
      && MIN_MATCH <= len <= best <= MAX_MATCH
    requires base + s + len <= |data| && maxDist >= 1
    ensures MatchAt(data, base, s, s - 1, len, maxDist)
  {
    hide WindowOk;
    FoundMatch(win, data, base, s, s - 1, best, 0, len, maxDist);
  }

  lemma NoRun(win: seq<Byte>, s: nat)
    requires s > 0 && s + 2 < |win| && !(win[s - 1] == win[s] == win[s + 1] == win[s + 2])
    ensures !SameRun(win, s, s - 1, 0, MIN_MATCH)
  {
    if SameRun(win, s, s - 1, 0, MIN_MATCH) {
      SameAt(win, s, s - 1, MIN_MATCH, 0);
      SameAt(win, s, s - 1, MIN_MATCH, 1);
      SameAt(win, s, s - 1, MIN_MATCH, 2);
    }
  }

  // A repetition in the data is one in the window.
  lemma RepeatsRun(win: seq<Byte>, data: seq<Byte>, base: nat, s: nat, b: int, n: nat)
    requires WindowOk(win, data, base) && base <= b < base + s && Repeats(data, base + s, n, base + s - b)
    ensures SameRun(win, s, b - base, 0, n)
  {
    forall i | s <= i < s + n ensures win[i] == win[i - s + (b - base)] {
      assert data[base + i] == data[base + i - (base + s - b)];
      WindowAt(win, data, base, i);
      WindowAt(win, data, base, i - s + (b - base));
    }
  }

  lemma RunRepeats(data: seq<Byte>, base: nat, s: nat, len: nat, maxDist: int)
    requires MatchAt(data, base, s, s - 1, len, maxDist)
    ensures Repeats(data, base + s, len, 1)
    ensures len >= MIN_MATCH && Repeats(data, base + s, MIN_MATCH, 1)
  {
  }

  lemma NoRepeat(win: seq<Byte>, data: seq<Byte>, base: nat, s: nat)
    requires WindowOk(win, data, base) && (s == 0 ==> base == 0)
    requires s == 0 || !SameRun(win, s, s - 1, 0, MIN_MATCH)
    ensures !Repeats(data, base + s, MIN_MATCH, 1)
  {
    if s > 0 && Repeats(data, base + s, MIN_MATCH, 1) { RepeatsRun(win, data, base, s, base + s - 1, MIN_MATCH); }
  }

  // A run ends where a byte differs.
  lemma RunEnds(win: seq<Byte>, data: seq<Byte>, base: nat, s: nat, len: nat)
    requires WindowOk(win, data, base) && s > 0 && s + len < |win|
    requires len == MAX_MATCH || win[s + len] != win[s - 1 + len]
    ensures len == MAX_MATCH || !Repeats(data, base + s, len + 1, 1)
  {
    hide WindowOk;
    if len != MAX_MATCH && Repeats(data, base + s, len + 1, 1) {
      RepeatsRun(win, data, base, s, base + s - 1, len + 1);
      SameAt(win, s, s - 1, len + 1, len);
    }
  }

  lemma StreamGrows(d: seq<Byte>, d1: seq<Byte>, d2: seq<Byte>)
    requires d <= d1
    ensures d1 <= d2 ==> d <= d2
  {
  }

  lemma MatchBounds(data: seq<Byte>, base: nat, s: int, m: int, len: int, maxDist: int)
    requires MatchAt(data, base, s, m, len, maxDist)
    ensures MIN_MATCH <= len <= MAX_MATCH && 0 <= base + s && base + s + len <= |data| && 1 <= s - m <= maxDist
  {
  }

  lemma MatchMoved(d: seq<Byte>, b: int, s: int, m: int, d': seq<Byte>, b': int, s': int, m': int, len: int,
                   maxDist: int)
    requires b >= 0 && b' >= 0 && MatchAt(d, b, s, m, len, maxDist) && d <= d' && b' + s' == b + s && b' + m' == b + m
    ensures MatchAt(d', b', s', m', len, maxDist)
  {
  }

  lemma PrefixTrans(a: seq<Byte>, b: seq<Byte>, c: seq<Byte>)
    requires a <= b && b <= c
    ensures a <= c
  {
  }

  lemma SlidWindow(win: seq<Byte>, win': seq<Byte>, data: seq<Byte>, base: nat, w: nat, n: int)
    requires WindowOk(win, data, base) && |win'| == |win| && 0 <= n && n + w <= |win| && |data| - base == w + n
    requires forall i :: 0 <= i < n ==> win'[i] == win[i + w]
    ensures WindowOk(win', data, base + w)
  {
    forall i | 0 <= i < n ensures win'[i] == data[base + w + i] { assert win[i + w] == data[base + (i + w)]; }
  }

  lemma SlidByIs(x: Index, y: Index)
    requires y == x.(base := x.base + x.w, head := y.head, prev := y.prev) && |y.head| == |x.head|
      && |y.prev| == |x.prev|
    requires forall h :: 0 <= h < |x.head| ==> y.head[h] == Less(x.head[h], x.w)
    requires forall j :: 0 <= j < |x.prev| ==> y.prev[j] == Less(x.prev[j], x.w)
    ensures SlidBy(x, y)
  {
  }

  lemma ReadWindow(win: seq<Byte>, win': seq<Byte>, data: seq<Byte>, base: nat, bytes: seq<Byte>)
    requires WindowOk(win, data, base) && |win'| == |win| && |data| - base + |bytes| <= |win|
    requires forall i :: 0 <= i < |data| - base ==> win'[i] == win[i]
    requires forall i :: |data| - base <= i < |data| - base + |bytes| ==> win'[i] == bytes[i - (|data| - base)]
    ensures WindowOk(win', data + bytes, base)
  {
  }

  lemma SameWindow(win: seq<Byte>, win': seq<Byte>, data: seq<Byte>, base: nat, n: int)
    requires WindowOk(win, data, base) && |win'| == |win| && n == |data| - base
    requires forall i :: 0 <= i < n ==> win'[i] == win[i]
    ensures WindowOk(win', data, base)
  {
  }

  lemma LeadsBounds(x: Index, m: int, s: int)
    requires Leads(x, x.base + m, x.base + s) && Chains(x) && x.last == x.base + s
    ensures m < s && Known(x, x.base + m)
  {
  }

  lemma WindowAt(win: seq<Byte>, data: seq<Byte>, base: nat, i: int)
    requires WindowOk(win, data, base) && 0 <= i < |data| - base
    ensures i < |win| && win[i] == data[base + i]
  {
  }

  // Both hashes and the first two bytes agree, so the third does.
  lemma FirstThree(x: Index, win: seq<Byte>, m: int, s: int)
    requires Chains(x) && WindowOk(win, x.data, x.base) && 0 <= m < s && Leads(x, x.base + m, x.base + s)
    requires s + 1 < |win| && win[m] == win[s] && win[m + 1] == win[s + 1]
    ensures SameRun(win, s, m, 0, 3)
  {
    hide Chains, WindowOk, Known, Slot, HashAt;
    ChainsSizes(x);
    assert x.base + s + 2 < |x.data|;
    WindowAt(win, x.data, x.base, m);
    WindowAt(win, x.data, x.base, m + 1);
    WindowAt(win, x.data, x.base, m + 2);
    WindowAt(win, x.data, x.base, s);
    WindowAt(win, x.data, x.base, s + 1);
    WindowAt(win, x.data, x.base, s + 2);
    ThirdEqual(x, x.base + m, x.base + s);
  }

  // The link of a position on the chain of s: nothing, or an earlier position on it.
  lemma StepOnChain(x: Index, m: int, s: int)
    requires Chains(x) && x.last == x.base + s && 0 <= m && s - m < x.w && Leads(x, x.base + m, x.base + s)
    ensures 0 < x.w == |x.prev|
    ensures var v := x.prev[Slot(m, x.w)]; 0 <= v && (v != 0 ==> v < m && Leads(x, x.base + v, x.base + s))
  {
    hide Known, HashAt, SlotOk, HeadOk;
    LeadsBounds(x, m, s);
    Follow(x, m, x.base + s);
    var v := x.prev[Slot(m, x.w)];
    if v != 0 { LeadsTrans(x, x.base + v, x.base + m, x.base + s); }
  }

  // best is more than before only with a string that agrees so far.
  ghost predicate Better(win: seq<Byte>, s: int, m: int, best: int, before: int, maxDist: int) {
    best > before ==> 3 <= best && SameRun(win, s, m, 0, best) && s - m <= maxDist
  }

  lemma NotBetter(win: seq<Byte>, s: int, m: int, best: int, maxDist: int)
    ensures Better(win, s, m, best, best, maxDist)
  {
  }

  lemma BetterNow(win: seq<Byte>, s: int, m: int, best: int, before: int, maxDist: int)
    requires 3 <= best && SameRun(win, s, m, 0, best) && s - m <= maxDist
    ensures Better(win, s, m, best, before, maxDist)
  {
  }

  lemma FoundMatch(win: seq<Byte>, data: seq<Byte>, base: nat, s: nat, m: int, best: nat, before: int, len: nat,
                   maxDist: int)
    requires WindowOk(win, data, base) && Better(win, s, m, best, before, maxDist) && before < len <= best <= MAX_MATCH
    requires (len == best || len >= MIN_MATCH) && base + s + len <= |data|
    ensures MatchAt(data, base, s, m, len, maxDist)
  {
    forall i | base + s <= i < base + s + len ensures data[i] == data[i - (s - m)] {
      assert win[i - base] == win[i - base - s + m];
      assert win[i - base] == data[base + (i - base)];
      assert win[i - base - s + m] == data[base + (i - base - s + m)];
    }
  }

  // The strings at s and at m agree on no more than best bytes, or on as many as are ever compared.
  ghost predicate NotLonger(win: seq<Byte>, s: int, m: int, best: int) {
    best < MAX_MATCH ==> !SameRun(win, s, m, 0, best + 1)
  }

  // One difference among the first bytes is enough.
  lemma Differs(win: seq<Byte>, s: int, m: int, best: int, k: int)
    requires 0 <= m < s && s + MAX_MATCH < |win| && 0 <= k <= best && s + k < |win|
    requires best >= MAX_MATCH || win[s + k] != win[m + k]
    ensures NotLonger(win, s, m, best)
  {
    if best < MAX_MATCH && SameRun(win, s, m, 0, best + 1) { SameAt(win, s, m, best + 1, k); }
  }

  lemma SameAt(win: seq<Byte>, s: int, m: int, hi: int, k: int)
    requires SameRun(win, s, m, 0, hi) && 0 <= k < hi
    ensures 0 <= m < s && s + k < |win| && win[s + k] == win[m + k]
  {
    assert win[s + k] == win[s + k - s + m];
  }

  // No position that the chain from m comes to with the links allowed has a longer string.
  ghost predicate NoneLonger(x: Index, win: seq<Byte>, s: int, m: int, links: nat, floor: nat, best: int) {
    && 0 < x.w == |x.prev|
    && forall b :: Reaches(x, m, b, links, floor) ==> NotLonger(win, s, b - x.base, best)
  }

  lemma KnownInside(x: Index, a: int)
    requires Known(x, a)
    ensures 0 <= a && a + 2 < |x.data|
  {
  }

  // Those that may have one are still to come from cur on, and all that come from there are on the chain.
  ghost predicate StillAhead(x: Index, win: seq<Byte>, s: int, m: int, links: nat, cur: int, left: nat, floor: nat,
                             best: int)
  {
    && 0 < x.w == |x.prev|
    && (forall b :: Reaches(x, m, b, links, floor) ==>
      NotLonger(win, s, b - x.base, best) || Reaches(x, cur, b, left, floor))
    && forall b :: Reaches(x, cur, b, left, floor) ==> Reaches(x, m, b, links, floor)
  }

  lemma AllAhead(x: Index, win: seq<Byte>, s: int, m: int, links: nat, floor: nat, best: int)
    requires 0 < x.w == |x.prev|
    ensures StillAhead(x, win, s, m, links, m, links, floor, best)
  {
  }

  lemma LongerBest(win: seq<Byte>, s: int, m: int, best: int, best': int)
    requires NotLonger(win, s, m, best) && best <= best'
    ensures NotLonger(win, s, m, best')
  {
  }

  // The string at cur has been looked at.
  lemma OneLess(x: Index, win: seq<Byte>, s: int, m: int, links: nat, cur: int, left: nat, floor: nat, best: int,
                best': int)
    requires StillAhead(x, win, s, m, links, cur, left, floor, best) && best <= best' && NotLonger(win, s, cur, best')
    ensures 0 < x.w == |x.prev|
    ensures var next := x.prev[Slot(cur, x.w)];
      && (next <= floor || left == 0 ==> NoneLonger(x, win, s, m, links, floor, best'))
      && (left > 0 && next > floor ==> StillAhead(x, win, s, m, links, next, left - 1, floor, best'))
  {
    hide NotLonger, Slot;
    var next := x.prev[Slot(cur, x.w)];
    forall b | Reaches(x, m, b, links, floor)
      ensures NotLonger(win, s, b - x.base, best')
        || (left > 0 && next > floor && Reaches(x, next, b, left - 1, floor))
    {
      if NotLonger(win, s, b - x.base, best) { LongerBest(win, s, b - x.base, best, best'); }
      else { assert Reaches(x, cur, b, left, floor); }
    }
  }

  // The position at is on the chain, agrees on no more than best bytes unless cut, and those nearer to s
  // on no more than prior.
  ghost predicate Nearest(x: Index, win: seq<Byte>, s: int, m: int, links: nat, floor: nat, at: int, best: int,
                          prior: int)
  {
    && 0 < x.w == |x.prev| && Reaches(x, m, x.base + at, links, floor) && NotLonger(win, s, at, best)
    && forall b :: Reaches(x, m, b, links, floor) && b > x.base + at ==> NotLonger(win, s, b - x.base, prior)
  }

  // If there is a best match it is the nearest of its length, and the best before it did not end the
  // search.
  ghost predicate Leading(x: Index, win: seq<Byte>, s: int, m: int, links: nat, floor: nat, at: int, best: int,
                          prior: int, before: int, nice: int)
  {
    best > before ==>
      at > 0 && before <= prior < best && (prior == before || prior < nice)
      && Nearest(x, win, s, m, links, floor, at, best, prior)
  }

  lemma NoneLeading(x: Index, win: seq<Byte>, s: int, m: int, links: nat, floor: nat, at: int, before: int, nice: int)
    ensures Leading(x, win, s, m, links, floor, at, before, before, before, nice)
  {
  }

  lemma LeadingNow(x: Index, win: seq<Byte>, s: int, m: int, links: nat, cur: int, left: nat, floor: nat, best: int,
                   best': int, before: int, nice: int)
    requires StillAhead(x, win, s, m, links, cur, left, floor, best) && NotLonger(win, s, cur, best')
    requires Chains(x) && x.last == x.base + s && cur > 0 && s - cur < x.w && s - x.w <= floor
    requires Leads(x, x.base + cur, x.base + s) && before <= best < best' && (best == before || best < nice)
    ensures Leading(x, win, s, m, links, floor, cur, best', best, before, nice)
  {
    hide StillAhead, NotLonger, Chains, Leads, Nearest;
    NearestNow(x, win, s, m, links, cur, left, floor, best, best');
  }

  // The string at cur is longer than all before it on the chain.
  lemma NearestNow(x: Index, win: seq<Byte>, s: int, m: int, links: nat, cur: int, left: nat, floor: nat, best: int,
                   best': int)
    requires StillAhead(x, win, s, m, links, cur, left, floor, best) && NotLonger(win, s, cur, best')
    requires Chains(x) && x.last == x.base + s && cur > 0 && s - cur < x.w && s - x.w <= floor
    requires Leads(x, x.base + cur, x.base + s)
    ensures Nearest(x, win, s, m, links, floor, cur, best', best)
  {
    hide NotLonger, Chains, Leads, Known, Slot, Hash, Reaches;
    LeadsParts(x, x.base + cur, x.base + s);
    AtOnce(x, cur, left, floor);
    forall b | Reaches(x, m, b, links, floor) && b > x.base + cur ensures NotLonger(win, s, b - x.base, best) {
      if Reaches(x, cur, b, left, floor) { ReachesDown(x, cur, b, left, floor); }
    }
  }

  lemma AtOnce(x: Index, m: int, k: nat, floor: nat)
    requires 0 < x.w == |x.prev|
    ensures Reaches(x, m, x.base + m, k, floor)
  {
  }

  // A chain leads to earlier positions only.
  lemma {:induction false} ReachesDown(x: Index, m: int, b: int, k: nat, floor: nat)
    requires Chains(x) && m > 0 && Known(x, x.base + m) && x.last - x.w < x.base + m && x.last - x.w <= x.base + floor
    requires 0 < x.w == |x.prev| && Reaches(x, m, b, k, floor)
    ensures b <= x.base + m
    decreases k
  {
    hide Chains, Known, Hash, Slot, NoneBetween;
    if x.base + m != b {
      var e := NextLink(x, m);
      LeadsParts(x, x.base + e, x.base + m);
      ReachesDown(x, e, b, k - 1, floor);
    }
  }

  // What the best match must be the first to exceed: the one waiting, or what would have ended the search.
  function Upto(len: int, before: int, nice: int): int {
    Smaller(len - 1, Larger(before, nice - 1))
  }

  // Cut to the bytes ahead, the match found is the nearest of its length, and nothing nearer would have
  // ended the search.
  ghost predicate FirstBest(x: Index, win: seq<Byte>, s: int, m: int, links: nat, floor: nat, at: int, len: int,
                            ahead: int, upto: int)
  {
    && 0 < x.w == |x.prev| && Reaches(x, m, x.base + at, links, floor)
    && (len == ahead || NotLonger(win, s, at, len))
    && forall b :: Reaches(x, m, b, links, floor) && b > x.base + at ==> NotLonger(win, s, b - x.base, upto)
  }

  lemma NearestIsFirst(x: Index, win: seq<Byte>, s: int, m: int, links: nat, floor: nat, at: int, best: int,
                       prior: int, before: int, nice: int, len: int, ahead: int)
    requires Leading(x, win, s, m, links, floor, at, best, prior, before, Smaller(nice, ahead))
    requires len == Smaller(best, ahead) && len > before
    ensures at > 0 && FirstBest(x, win, s, m, links, floor, at, len, ahead, Upto(len, before, nice))
  {
    hide NotLonger, Reaches;
    forall b | Reaches(x, m, b, links, floor) && b > x.base + at
      ensures NotLonger(win, s, b - x.base, Upto(len, before, nice))
    {
      LongerBest(win, s, b - x.base, prior, Upto(len, before, nice));
    }
  }

  lemma CountedDown(n: nat)
    ensures var r := CountDown(n); r > 0 ==> CountDown(r) == r - 1
  {
  }

  // --chain_length, an unsigned int.
  function CountDown(n: nat): (r: nat) {
    (n - 1) % 0x1_0000_0000
  }

  lemma EmptySlot(w: nat)
    requires w > 0
    ensures Slot(0, w) == 0
  {
  }

  lemma ChainsSizes(x: Index)
    requires Chains(x)
    ensures HashSizes(x.bits, x.shift) && 0 < x.w == |x.owner| == |x.prev|
      && |x.head| == Pow2(x.bits) && Slot(x.base, x.w) == 0
  {
  }

  // Taking in the third byte gives the hash of the string.
  lemma HashedAt(x: Index, win: seq<Byte>, h: nat, str: nat)
    requires HashSizes(x.bits, x.shift) && WindowOk(win, x.data, x.base) && x.base + str + 2 < |x.data|
    requires Rolled(h, x.data[x.base + str], x.data[x.base + str + 1], x.bits, x.shift)
    ensures str + 2 < |win| && var u := Update(h, win[str + 2], x.bits, x.shift);
      u == HashAt(x, x.base + str) && u < Pow2(x.bits)
      && Rolled(u, x.data[x.base + str + 1], x.data[x.base + str + 2], x.bits, x.shift)
  {
    hide Update, Hash, Rolled;
    assert win[str + 2] == x.data[x.base + (str + 2)];
    RolledNext(h, x.data[x.base + str], x.data[x.base + str + 1], x.data[x.base + str + 2], x.bits, x.shift);
    UpdateSmall(h, win[str + 2], x.bits, x.shift);
  }
}
