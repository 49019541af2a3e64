// What deflate_slow and deflate_fast (dep/zlib/deflate.c) tally, said of the data alone: which earlier
// positions a search takes into account, what it may leave undone, and when its result becomes a match,
// a literal, or is put off to the next position.
module DeflateChoice {
  import opened ByteType
  import opened DeflateTokens
  import opened DeflateChains
  import opened DeflateMatch

  // The sizes of the index and the parameters of the level.
  datatype Rules = Rules(maxDist: int, bits: nat, shift: nat, greedy: bool, lazy: nat, good: nat, nice: int,
                         chain: nat, filtered: bool)

  // More data, more ends of the input, and later positions in the index.
  ghost predicate Grows(t: Text, t': Text) {
    && t.data <= t'.data && t.ends <= t'.ends && t.known <= t'.known && t.last <= t'.last
    && forall a :: a in t'.known ==> a in t.known || a > t.last
  }

  // A search at pos with ahead bytes from there on, in a window that begins at low; before is the length
  // of the match waiting at the position before, or two. The best match is raw bytes long and begins at
  // at; len is what remains of it when short matches that are not worth while have been dropped.
  datatype Search = Search(pos: nat, low: nat, ahead: nat, before: nat, raw: nat, len: nat, at: int)

  function LinksOf(r: Rules, before: nat): nat {
    CountDown(if before >= r.good then r.chain / 4 else r.chain)
  }

  // Position b is in the index with the hash of the string at pos, not too far back nor at the start of
  // the window, and at most as many others of that hash lie between as there are links to follow. At the
  // greatest distance there may be none.
  ghost predicate Candidate(r: Rules, t: Text, q: Search, b: int) {
    && q.low < b < q.pos && q.pos - b <= r.maxDist && q.pos + 2 < |t.data|
    && var h := HashOf(t.data, q.pos, r.bits, r.shift);
      var n := Alike(t, r.bits, r.shift, h, b, q.pos);
      Hashed(t, r.bits, r.shift, b, h) && n <= LinksOf(r, q.before) && (q.pos - b == r.maxDist ==> n == 0)
  }

  // No candidate agrees with the string at pos on more than best bytes.
  ghost predicate Exhausted(r: Rules, t: Text, q: Search, best: int)
    requires best >= 0
  {
    forall b :: Candidate(r, t, q, b) ==> !Repeats(t.data, q.pos, best + 1, q.pos - b)
  }

  // The match found is all there is of it, the nearest of its length, and nothing nearer is better than
  // the one that waits and long enough to stop.
  ghost predicate First(r: Rules, t: Text, q: Search) {
    && Candidate(r, t, q, q.at)
    && (q.raw == MAX_MATCH || q.raw == q.ahead || !Repeats(t.data, q.pos, q.raw + 1, q.pos - q.at))
    && forall b :: Candidate(r, t, q, b) && b > q.at ==> !Agrees(t.data, q.pos, Upto(q.raw, q.before, r.nice) + 1, b)
  }

  // The strings at p and b agree on len bytes.
  ghost predicate Agrees(data: seq<Byte>, p: nat, len: int, b: int) {
    len >= 0 && Repeats(data, p, len, p - b)
  }

  // The match is dropped: too short for filtered data, or three bytes from too far away.
  predicate Dropped(r: Rules, q: Search) {
    !r.greedy && q.raw <= 5 && (r.filtered || (q.raw == MIN_MATCH && q.pos - q.at > TOO_FAR))
  }

  // The search was not cut short by what it found.
  predicate Thorough(r: Rules, q: Search) {
    && (r.greedy || q.before < r.lazy) && q.raw < q.ahead && q.raw < MAX_MATCH
    && (q.raw < r.nice || q.raw <= q.before)
  }

  // A search as the rules demand it: there are bytes enough ahead unless the input has ended; what is
  // found is the match that the rules choose, and nothing is longer but when it is long enough, or all
  // there is, or the match before was so long that nothing was sought.
  ghost predicate Sought(r: Rules, t: Text, q: Search) {
    && q.pos + q.ahead <= |t.data| && q.ahead >= 1 && (q.ahead >= MIN_LOOKAHEAD || q.pos + q.ahead in t.ends)
    && (q.ahead >= MIN_MATCH ==> q.pos <= t.last) && (q.low == 0 || q.low + r.maxDist <= q.pos)
    && 2 <= q.raw <= MAX_MATCH && q.len == (if Dropped(r, q) then 2 else q.raw)
    && (q.raw > q.before ==>
      MIN_MATCH <= q.raw <= q.ahead && MatchAt(t.data, 0, q.pos, q.at, q.raw, r.maxDist) && First(r, t, q))
    && (!r.greedy && q.before >= r.lazy ==> q.raw == 2)
    && (Thorough(r, q) ==> Exhausted(r, t, q, q.raw))
  }

  // The search at a position and the one at the next.
  datatype Choice = Choice(here: Search, next: Search)

  // A match is taken if there is one and, unless it is taken greedily, the next one is no longer.
  predicate Taken(r: Rules, c: Choice) {
    c.here.len >= MIN_MATCH && (r.greedy || c.next.len <= c.here.len)
  }

  // The token at position n, with a match of before bytes waiting from the position before.
  // A match that waits gives way only to a longer one.
  ghost predicate Chosen(r: Rules, t: Text, token: Token, n: nat, before: nat, c: Choice) {
    && n < |t.data| && c.here.pos == n && c.here.before == before && Sought(r, t, c.here)
    && (before >= MIN_MATCH ==> c.here.len > before)
    && (c.here.len >= MIN_MATCH && !r.greedy ==>
      c.next.pos == n + 1 && c.next.before == c.here.len && Sought(r, t, c.next))
    && token == if Taken(r, c) then Match(c.here.len, n - c.here.at) else Literal(t.data[n])
  }

  // What still waits after the tokens: the search behind a last literal.
  function Pending(r: Rules, toks: seq<Token>, log: seq<Choice>): nat
    requires |toks| == |log|
  {
    if toks == [] || r.greedy || toks[|toks| - 1].Match? then MIN_MATCH - 1 else log[|log| - 1].here.len
  }

  // Every token was chosen by the rules.
  ghost predicate Story(r: Rules, t: Text, toks: seq<Token>, log: seq<Choice>)
    decreases |toks|
  {
    && |toks| == |log|
    && (toks == [] ||
      var n := |toks| - 1;
      Story(r, t, toks[..n], log[..n])
      && Chosen(r, t, toks[n], TotalLength(toks[..n]), Pending(r, toks[..n], log[..n]), log[n]))
  }

  lemma StoryNext(r: Rules, t: Text, toks: seq<Token>, log: seq<Choice>, token: Token, c: Choice)
    requires Story(r, t, toks, log) && Chosen(r, t, token, TotalLength(toks), Pending(r, toks, log), c)
    ensures Story(r, t, toks + [token], log + [c])
  {
    hide Chosen, TotalLength;
    assert (toks + [token])[..|toks|] == toks && (log + [c])[..|log|] == log;
  }

  lemma StorySame(r: Rules, t: Text, toks: seq<Token>, log: seq<Choice>)
    requires Story(r, t, toks, log)
    ensures |toks| == |log|
  {
  }

  lemma {:induction false} StoryAt(r: Rules, t: Text, toks: seq<Token>, log: seq<Choice>, i: nat)
    requires Story(r, t, toks, log) && i < |toks|
    ensures |log| == |toks|
    ensures Chosen(r, t, toks[i], TotalLength(toks[..i]), Pending(r, toks[..i], log[..i]), log[i])
    decreases |toks|
  {
    hide Chosen, TotalLength, Pending;
    var n := |toks| - 1;
    if i < n {
      StoryAt(r, t, toks[..n], log[..n], i);
      assert toks[..n][..i] == toks[..i] && log[..n][..i] == log[..i];
    }
  }

  // ----- More data -----

  lemma {:induction false} AlikeGrows(r: Rules, t: Text, t': Text, h: nat, b: int, e: int)
    requires Grows(t, t') && 0 <= b < e <= t.last && e + 2 < |t.data|
    ensures Alike(t', r.bits, r.shift, h, b, e) == Alike(t, r.bits, r.shift, h, b, e)
    decreases e - b
  {
    if b + 1 < e { AlikeGrows(r, t, t', h, b, e - 1); }
  }

  lemma CandidateGrows(r: Rules, t: Text, t': Text, q: Search, b: int)
    requires Grows(t, t') && q.pos <= t.last && q.pos + 2 < |t.data|
    ensures Candidate(r, t', q, b) <==> Candidate(r, t, q, b)
  {
    hide Alike, LinksOf;
    if 0 <= b < q.pos { AlikeGrows(r, t, t', HashOf(t.data, q.pos, r.bits, r.shift), b, q.pos); }
  }

  lemma ExhaustedGrows(r: Rules, t: Text, t': Text, q: Search, best: nat)
    requires Exhausted(r, t, q, best) && Grows(t, t') && q.pos <= t.last && q.pos + 2 < |t.data|
    requires q.pos + best < |t.data|
    ensures Exhausted(r, t', q, best)
  {
    hide Candidate, Grows, Repeats;
    assert t.data <= t'.data by { DataGrows(t, t'); }
    forall b | Candidate(r, t', q, b) ensures !Repeats(t'.data, q.pos, best + 1, q.pos - b) {
      CandidateGrows(r, t, t', q, b);
      if Repeats(t'.data, q.pos, best + 1, q.pos - b) { LessRepeats(t.data, t'.data, q.pos, best + 1, q.pos - b); }
    }
  }

  lemma FirstGrows(r: Rules, t: Text, t': Text, q: Search)
    requires First(r, t, q) && Grows(t, t') && q.pos <= t.last && q.pos + 2 < |t.data|
    requires 0 <= q.raw <= q.ahead && q.pos + q.ahead <= |t.data|
    ensures First(r, t', q)
  {
    hide Candidate, Grows, Repeats;
    assert t.data <= t'.data by { DataGrows(t, t'); }
    CandidateGrows(r, t, t', q, q.at);
    if q.raw < q.ahead && Repeats(t'.data, q.pos, q.raw + 1, q.pos - q.at) {
      LessRepeats(t.data, t'.data, q.pos, q.raw + 1, q.pos - q.at);
    }
    var n := Upto(q.raw, q.before, r.nice) + 1;
    forall b | Candidate(r, t', q, b) && b > q.at ensures !Agrees(t'.data, q.pos, n, b) {
      CandidateGrows(r, t, t', q, b);
      if Agrees(t'.data, q.pos, n, b) { LessRepeats(t.data, t'.data, q.pos, n, q.pos - b); }
    }
  }

  lemma DataGrows(t: Text, t': Text)
    requires Grows(t, t')
    ensures t.data <= t'.data && t.ends <= t'.ends && t.last <= t'.last
  {
  }

  lemma LessRepeats(d: seq<Byte>, d': seq<Byte>, n: nat, len: nat, dist: int)
    requires Repeats(d', n, len, dist) && d <= d' && n + len <= |d|
    ensures Repeats(d, n, len, dist)
  {
    forall i | n <= i < n + len ensures d[i] == d[i - dist] { assert d'[i] == d'[i - dist]; }
  }

  lemma SoughtGrows(r: Rules, t: Text, t': Text, q: Search)
    requires Sought(r, t, q) && Grows(t, t')
    ensures Sought(r, t', q)
  {
    hide Exhausted, First, MatchAt, LinksOf, Grows;
    DataGrows(t, t');
    if q.raw > q.before {
      MatchMoved(t.data, 0, q.pos, q.at, t'.data, 0, q.pos, q.at, q.raw, r.maxDist);
      FirstGrows(r, t, t', q);
    }
    if Thorough(r, q) { ExhaustedGrows(r, t, t', q, q.raw); }
  }

  lemma {:induction false} StoryGrows(r: Rules, t: Text, t': Text, toks: seq<Token>, log: seq<Choice>)
    requires Story(r, t, toks, log) && Grows(t, t')
    ensures Story(r, t', toks, log)
    decreases |toks|
  {
    hide Sought, TotalLength, Pending;
    if toks != [] {
      var n := |toks| - 1;
      StoryGrows(r, t, t', toks[..n], log[..n]);
      SoughtGrows(r, t, t', log[n].here);
      if log[n].here.len >= MIN_MATCH && !r.greedy { SoughtGrows(r, t, t', log[n].next); }
    }
  }

  // What is dropped of a match changes nothing of the search.
  lemma KeptSame(r: Rules, t: Text, q: Search, len: nat)
    ensures First(r, t, q.(len := len)) <==> First(r, t, q)
    ensures Exhausted(r, t, q.(len := len), q.raw) <==> Exhausted(r, t, q, q.raw)
    ensures Thorough(r, q.(len := len)) == Thorough(r, q) && Dropped(r, q.(len := len)) == Dropped(r, q)
  {
    hide Alike, LinksOf, HashOf, Repeats, Agrees;
    forall b ensures Candidate(r, t, q.(len := len), b) <==> Candidate(r, t, q, b) {}
  }

  // ----- From the index to the data -----

  // The rules and the window that a search in the index stands for.
  ghost predicate Stands(r: Rules, t: Text, x: Index, s: nat, floor: nat, q: Search) {
    && TextOf(x, t) && x.last == x.base + s == q.pos && Known(x, x.base + s) && q.low == x.base
    && r.bits == x.bits && r.shift == x.shift && 0 < r.maxDist < x.w == |x.prev|
    && floor == (if s > r.maxDist then s - r.maxDist else 0) && (x.base > 0 ==> s >= r.maxDist)
  }

  // What the chain comes to are the candidates.
  lemma ChainIsCandidates(r: Rules, t: Text, x: Index, s: nat, floor: nat, q: Search, b: int)
    requires Chains(x) && Stands(r, t, x, s, floor, q) && s > 0 && b > x.base
    ensures 0 < x.w == |x.prev| && var e := x.prev[Slot(s, x.w)];
      (e > 0 && e >= floor && Reaches(x, e, b, LinksOf(r, q.before), floor)) <==> Candidate(r, t, q, b)
  {
    hide Chains, Known, Exactly, LinksOf, Alike, Reaches, Slot;
    KnownInside(x, x.base + s);
    LinkExactly(x, t, s, b, LinksOf(r, q.before), floor);
  }

  // What longest_match finds out about the chain holds of all candidates.
  lemma NothingLonger(r: Rules, t: Text, x: Index, win: seq<Byte>, s: nat, floor: nat, q: Search, best: nat)
    requires Chains(x) && WindowOk(win, x.data, x.base) && Stands(r, t, x, s, floor, q) && best < MAX_MATCH
    requires 0 < x.w == |x.prev| && var e := x.prev[Slot(s, x.w)];
      e > 0 && e >= floor ==> NoneLonger(x, win, s, e, LinksOf(r, q.before), floor, best)
    ensures Exhausted(r, t, q, best)
  {
    hide Chains, WindowOk, Known, LinksOf, Slot, SameRun, Repeats, Reaches, Candidate;
    forall b | Candidate(r, t, q, b) ensures !Repeats(t.data, q.pos, best + 1, q.pos - b) {
      CandidateBounds(r, t, q, b);
      ChainIsCandidates(r, t, x, s, floor, q, b);
      if Repeats(t.data, q.pos, best + 1, q.pos - b) { RepeatsRun(win, x.data, x.base, s, b, best + 1); }
    }
  }

  lemma CandidateBounds(r: Rules, t: Text, q: Search, b: int)
    requires Candidate(r, t, q, b)
    ensures q.low < b < q.pos
  {
  }

  // The match found on the chain is the one that the rules choose.
  lemma FirstFound(r: Rules, t: Text, x: Index, win: seq<Byte>, s: nat, floor: nat, q: Search, at: int)
    requires Chains(x) && WindowOk(win, x.data, x.base) && Stands(r, t, x, s, floor, q) && q.at == x.base + at
    requires 0 < at && 0 < s && 3 <= q.raw <= MAX_MATCH
    requires 0 < x.w == |x.prev| && var e := x.prev[Slot(s, x.w)];
      e > 0 && e >= floor
      && FirstBest(x, win, s, e, LinksOf(r, q.before), floor, at, q.raw, q.ahead, Upto(q.raw, q.before, r.nice))
    ensures First(r, t, q)
  {
    hide Chains, WindowOk, Known, LinksOf, Slot, SameRun, Repeats, Reaches, Candidate;
    ChainIsCandidates(r, t, x, s, floor, q, q.at);
    CandidateBounds(r, t, q, q.at);
    if q.raw < MAX_MATCH && q.raw != q.ahead && Repeats(t.data, q.pos, q.raw + 1, q.pos - q.at) {
      RepeatsRun(win, x.data, x.base, s, q.at, q.raw + 1);
    }
    var n := Upto(q.raw, q.before, r.nice) + 1;
    forall b | Candidate(r, t, q, b) && b > q.at ensures !Agrees(t.data, q.pos, n, b) {
      CandidateBounds(r, t, q, b);
      ChainIsCandidates(r, t, x, s, floor, q, b);
      if Agrees(t.data, q.pos, n, b) { RepeatsRun(win, x.data, x.base, s, b, n); }
    }
  }

  // ----- What is in the index -----

  // Position a lies inside a match too long for its strings to be inserted, or with too little behind it.
  predicate Inside(r: Rules, q: Search, a: int) {
    && r.greedy && MIN_MATCH <= q.len && q.pos < a < q.pos + q.len
    && (q.len > r.lazy || q.ahead < q.len + MIN_MATCH)
  }

  ghost predicate LeftOut(r: Rules, log: seq<Choice>, a: int) {
    exists i :: 0 <= i < |log| && Inside(r, log[i].here, a)
  }

  // The last two positions before an end of the input wait for bytes.
  predicate Late(ends: set<int>, a: int) {
    a + 1 in ends || a + 2 in ends
  }

  // Before end all positions are in the index that are not left out, and no others, late ones excepted.
  ghost predicate Covered(r: Rules, t: Text, log: seq<Choice>, end: int) {
    && (forall a :: 0 <= a < end && !Late(t.ends, a) ==> (a in t.known <==> !LeftOut(r, log, a)))
    && forall a :: LeftOut(r, log, a) ==> a < end
  }

  ghost predicate LateOnes(ends: set<int>, lo: int, hi: int) {
    forall a :: lo <= a < hi ==> Late(ends, a)
  }

  // From lo to hi everything has been inserted, as far as there are three bytes in n.
  ghost predicate Filled(known: set<int>, known': set<int>, lo: int, hi: int, n: int) {
    forall a :: a in known' <==> a in known || (lo <= a < hi && a + 2 < n)
  }

  lemma NothingFilled(known: set<int>, lo: int, n: int)
    ensures Filled(known, known, lo, lo, n)
  {
  }

  lemma FilledOn(a: set<int>, b: set<int>, c: set<int>, lo: int, mid: int, hi: int, n: int)
    requires Filled(a, b, lo, mid, n) && Filled(b, c, mid, hi, n) && lo <= mid <= hi
    ensures Filled(a, c, lo, hi, n)
  {
  }

  // Some of the positions from lo to hi have been inserted.
  ghost predicate Added(known: set<int>, known': set<int>, lo: int, hi: int) {
    known <= known' && forall a :: a in known' ==> a in known || lo <= a < hi
  }

  lemma AddedGrows(t: Text, t': Text, lo: int, hi: int)
    requires t.data <= t'.data && t.ends <= t'.ends && t.last <= t'.last && t.last < lo
    requires Added(t.known, t'.known, lo, hi)
    ensures Grows(t, t')
  {
  }

  lemma FilledGrows(t: Text, t': Text, lo: int, hi: int)
    requires t.data == t'.data && t.ends == t'.ends && t.last <= t'.last && t.last < lo
    requires Filled(t.known, t'.known, lo, hi, |t.data|)
    ensures Grows(t, t')
  {
    assert forall a :: a in t.known ==> a in t'.known;
  }

  lemma LateMore(ends: set<int>, ends': set<int>, lo: int, hi: int)
    requires LateOnes(ends, lo, hi) && ends <= ends'
    ensures LateOnes(ends', lo, hi)
  {
    forall a | lo <= a < hi ensures Late(ends', a) { assert Late(ends, a); }
  }

  // Late positions may come in later.
  lemma CoveredLate(r: Rules, t: Text, t': Text, log: seq<Choice>, lo: int, end: int)
    requires Covered(r, t, log, end) && t.ends <= t'.ends
    requires Added(t.known, t'.known, lo, end) && LateOnes(t.ends, lo, end)
    ensures Covered(r, t', log, end)
  {
    hide LeftOut;
    forall a | 0 <= a < end && !Late(t'.ends, a) ensures a in t'.known <==> !LeftOut(r, log, a) {
      assert !Late(t.ends, a);
    }
  }

  // A lazy search leaves nothing out, whatever it has chosen.
  lemma CoveredLazily(r: Rules, t: Text, log: seq<Choice>, log': seq<Choice>, end: int)
    requires !r.greedy && Covered(r, t, log, end)
    ensures Covered(r, t, log', end)
  {
    forall a ensures !LeftOut(r, log, a) && !LeftOut(r, log', a) {}
  }

  // Nor does a search that finds no match, or one whose strings are all inserted.
  lemma CoveredAll(r: Rules, t: Text, log: seq<Choice>, q: Search, end: int)
    requires Covered(r, t, log, end)
    requires forall a :: !Inside(r, q, a)
    ensures Covered(r, t, log + [Choice(q, q)], end)
  {
    hide LeftOut, Inside;
    var log' := log + [Choice(q, q)];
    forall a ensures LeftOut(r, log', a) <==> LeftOut(r, log, a) { LeftOutMore(r, log, Choice(q, q), a); }
  }

  // From lo to hi everything is inserted, as far as there are three bytes.
  lemma CoveredOn(r: Rules, t: Text, t': Text, log: seq<Choice>, lo: nat, hi: nat)
    requires Covered(r, t, log, lo) && lo <= hi <= |t'.data| && t'.ends == t.ends
    requires |t'.data| in t'.ends || hi + 2 <= |t'.data|
    requires Filled(t.known, t'.known, lo, hi, |t'.data|)
    ensures Covered(r, t', log, hi)
  {
    hide LeftOut;
    forall a | 0 <= a < hi && !Late(t'.ends, a) ensures a in t'.known <==> !LeftOut(r, log, a) {
      if a < lo { assert !Late(t.ends, a); }
    }
  }

  // Nothing is: the positions lie inside the match just chosen.
  lemma CoveredBut(r: Rules, t: Text, log: seq<Choice>, q: Search, lo: nat, hi: nat)
    requires Covered(r, t, log, lo) && lo <= hi
    requires forall a :: a in t.known ==> a < lo
    requires forall a :: Inside(r, q, a) <==> lo <= a < hi
    ensures Covered(r, t, log + [Choice(q, q)], hi)
  {
    hide LeftOut, Inside;
    var log' := log + [Choice(q, q)];
    forall a ensures LeftOut(r, log', a) <==> LeftOut(r, log, a) || Inside(r, q, a) {
      LeftOutMore(r, log, Choice(q, q), a);
    }
  }

  lemma LeftOutMore(r: Rules, log: seq<Choice>, c: Choice, a: int)
    ensures LeftOut(r, log + [c], a) <==> LeftOut(r, log, a) || Inside(r, c.here, a)
  {
    hide Inside;
    var log' := log + [c];
    if LeftOut(r, log, a) {
      var i :| 0 <= i < |log| && Inside(r, log[i].here, a);
      assert log'[i] == log[i];
    }
    if Inside(r, c.here, a) { assert log'[|log|] == c; }
  }

  // ----- Runs -----

  // The token at n when only runs are looked for: the whole run, or all of it that is there when
  // everything must come out.
  ghost predicate RunToken(data: seq<Byte>, ends: set<int>, n: nat, t: Token) {
    match t
    case Literal(c) =>
      && n < |data| && c == data[n]
      && (n + 1 in ends || n + 2 in ends || (n + 2 < |data| && !Repeats(data, n, MIN_MATCH, 1)))
    case Match(len, dist) =>
      && MIN_MATCH <= len <= MAX_MATCH && dist == 1 && Repeats(data, n, len, 1)
      && (len == MAX_MATCH || n + len in ends || (n + len < |data| && !Repeats(data, n, len + 1, 1)))
  }

  ghost predicate RunStory(data: seq<Byte>, ends: set<int>, toks: seq<Token>)
    decreases |toks|
  {
    toks == [] ||
    var k := |toks| - 1;
    RunStory(data, ends, toks[..k]) && RunToken(data, ends, TotalLength(toks[..k]), toks[k])
  }

  lemma RunStoryNext(data: seq<Byte>, ends: set<int>, toks: seq<Token>, t: Token)
    requires RunStory(data, ends, toks) && RunToken(data, ends, TotalLength(toks), t)
    ensures RunStory(data, ends, toks + [t])
  {
    hide RunToken, TotalLength;
    assert (toks + [t])[..|toks|] == toks;
  }

  lemma {:induction false} RunStoryAt(data: seq<Byte>, ends: set<int>, toks: seq<Token>, i: nat)
    requires RunStory(data, ends, toks) && i < |toks|
    ensures RunToken(data, ends, TotalLength(toks[..i]), toks[i])
    decreases |toks|
  {
    hide RunToken, TotalLength;
    var k := |toks| - 1;
    if i < k {
      RunStoryAt(data, ends, toks[..k], i);
      assert toks[..k][..i] == toks[..i];
    }
  }

  lemma {:induction false} RunStoryGrows(data: seq<Byte>, data': seq<Byte>, ends: set<int>, ends': set<int>,
                                         toks: seq<Token>)
    requires RunStory(data, ends, toks) && data <= data' && ends <= ends'
    ensures RunStory(data', ends', toks)
    decreases |toks|
  {
    hide TotalLength, RunToken;
    if toks != [] {
      var k := |toks| - 1;
      RunStoryGrows(data, data', ends, ends', toks[..k]);
      RunTokenGrows(data, data', ends, ends', TotalLength(toks[..k]), toks[k]);
    }
  }

  lemma RunTokenGrows(data: seq<Byte>, data': seq<Byte>, ends: set<int>, ends': set<int>, n: nat, t: Token)
    requires RunToken(data, ends, n, t) && data <= data' && ends <= ends'
    ensures RunToken(data', ends', n, t)
  {
    var len := if t.Match? then t.len + 1 else MIN_MATCH;
    if n + len <= |data| && Repeats(data', n, len, 1) { LessRepeats(data, data', n, len, 1); }
  }

  // ----- What a token means -----

  // A position of the index near enough that agrees on three bytes is a candidate: it has the same hash.
  lemma AgreeingIsCandidate(r: Rules, t: Text, q: Search, b: int)
    requires q.low < b < q.pos && q.pos - b < r.maxDist && q.pos + 2 < |t.data| && b in t.known
    requires Alike(t, r.bits, r.shift, HashOf(t.data, q.pos, r.bits, r.shift), b, q.pos) <= LinksOf(r, q.before)
    requires Repeats(t.data, q.pos, MIN_MATCH, q.pos - b)
    ensures Candidate(r, t, q, b)
  {
    hide Alike, LinksOf;
    var p := q.pos;
    assert t.data[p] == t.data[p - (p - b)] && t.data[p + 1] == t.data[p + 1 - (p - b)];
    assert t.data[p + 2] == t.data[p + 2 - (p - b)];
  }

  // There is a longer match a byte further on.
  ghost predicate Bettered(r: Rules, t: Text, c: Choice) {
    && c.here.len >= MIN_MATCH && !r.greedy && Sought(r, t, c.next) && c.next.pos == c.here.pos + 1
    && c.next.len > c.here.len && MatchAt(t.data, 0, c.next.pos, c.next.at, c.next.len, r.maxDist)
  }

  // A literal where matches are sought: if any candidate agrees on three bytes, what was found was three
  // bytes from too far away, or there is a longer match a byte further on.
  lemma LiteralMeans(r: Rules, t: Text, toks: seq<Token>, log: seq<Choice>, i: nat, b: int)
    requires Story(r, t, toks, log) && i < |toks| && toks[i].Literal?
    ensures |log| == |toks|
    ensures log[i].here.pos == TotalLength(toks[..i]) < |t.data|
    ensures var q := log[i].here;
      (r.greedy || q.before < r.lazy) && !r.filtered && r.nice > 2 && q.ahead >= MIN_MATCH && Candidate(r, t, q, b)
      && Repeats(t.data, q.pos, MIN_MATCH, q.pos - b) ==>
        Bettered(r, t, log[i]) || (!r.greedy && q.raw == MIN_MATCH && q.pos - q.at > TOO_FAR)
  {
    hide Story, TotalLength, Pending, Candidate, MatchAt, Repeats, First;
    StoryAt(r, t, toks, log, i);
  }

  // A match: it is one; nothing at its place is longer unless it is long enough or reaches to the end
  // of the input, and nothing at the next place is, if anything was sought there.
  lemma MatchMeans(r: Rules, t: Text, toks: seq<Token>, log: seq<Choice>, i: nat)
    requires Story(r, t, toks, log) && i < |toks| && toks[i].Match?
    ensures |log| == |toks|
    ensures var n, len, q := TotalLength(toks[..i]), toks[i].len, log[i].here;
      && q.pos == n && MatchAt(t.data, 0, n, n - toks[i].dist, len, r.maxDist) && First(r, t, q)
      && (len < r.nice && len < MAX_MATCH && len < q.ahead && (r.greedy || q.before < r.lazy) ==>
        Exhausted(r, t, q, len))
    ensures var n, len, after := TotalLength(toks[..i]), toks[i].len, log[i].next;
      !r.greedy && !r.filtered && len < r.lazy && len < MAX_MATCH && len < after.ahead ==>
        after.pos == n + 1 && Sought(r, t, after) && len >= 0 && Exhausted(r, t, after, len)
  {
    hide Story, TotalLength, MatchAt, Exhausted, LinksOf, First;
    StoryAt(r, t, toks, log, i);
    var n, len, after := TotalLength(toks[..i]), toks[i].len, log[i].next;
    if !r.greedy && !r.filtered && len < r.lazy && len < MAX_MATCH && len < after.ahead {
      ExhaustedMore(r, t, after, after.raw, len);
    }
  }

  lemma ExhaustedMore(r: Rules, t: Text, q: Search, best: nat, best': nat)
    requires Exhausted(r, t, q, best) && best <= best'
    ensures Exhausted(r, t, q, best')
  {
    hide Candidate;
    forall b | Candidate(r, t, q, b) ensures !Repeats(t.data, q.pos, best' + 1, q.pos - b) {
      assert !Repeats(t.data, q.pos, best + 1, q.pos - b);
    }
  }
}
