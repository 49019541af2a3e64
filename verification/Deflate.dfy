// The LZ77 engine of deflate (dep/zlib/deflate.c): the sliding window, insertion and search of
// the hash chains, and the greedy, lazy and run-length strategies. The tokens tallied
// replay to the input; what a flushed block is turned into is left open.
module Deflate {
  import opened ByteType
  import opened Bits
  import opened DeflateHash
  import opened DeflateTokens
  import opened DeflateChains
  import opened DeflateMatch
  import opened DeflateChoice

  datatype Flush = NoFlush | PartialFlush | Finish
  datatype BlockState = NeedMore | BlockDone | FinishStarted | FinishDone

  datatype Strategy = Lazy | Greedy | Runs

  // One call of deflate: more input, output space for it, and how much must come out.
  datatype Call = Call(chunk: seq<Byte>, space: nat, flush: Flush)

  // A call that flushes has its input end at e, after n bytes that were there before.
  ghost predicate EndsCall(calls: seq<Call>, n: nat, e: int) {
    exists i :: 0 <= i < |calls| && FlushesAt(calls, n, i, e)
  }

  ghost predicate FlushesAt(calls: seq<Call>, n: nat, i: int, e: int)
    requires 0 <= i < |calls|
  {
    calls[i].flush != NoFlush && e == n + |AllChunks(calls[..i + 1])|
  }

  lemma EndOfCall(calls: seq<Call>, n: nat, i: nat)
    requires i < |calls| && calls[i].flush != NoFlush
    ensures EndsCall(calls, n, n + |AllChunks(calls[..i + 1])|)
  {
    assert FlushesAt(calls, n, i, n + |AllChunks(calls[..i + 1])|);
  }

  // What a call carries on: the input, and all that has been tallied, told and handed over.
  datatype Books = Books(data: seq<Byte>, input: seq<Byte>, ends: set<int>, toks: seq<Token>, log: seq<Choice>,
                         flushed: seq<Token>, blocks: seq<nat>)

  // The input moves on into the data, an end of the input is noted where all of it must come out, tokens
  // are added, and full blocks handed over.
  ghost predicate Steady(a: Books, b: Books, flush: Flush, size: nat) {
    && b.data + b.input == a.data + a.input && a.data <= b.data
    && a.ends <= b.ends <= a.ends + (if flush == NoFlush then {} else {|b.data + b.input|})
    && a.toks <= b.toks && a.log <= b.log && a.flushed <= b.flushed
    && a.blocks <= b.blocks && FullSince(b.blocks, |a.blocks|, size)
  }

  lemma SteadySame(a: Books, flush: Flush, size: nat)
    ensures Steady(a, a, flush, size)
  {
  }

  // A step adds tokens and hands over full blocks.
  lemma StepSteady(a: Books, b: Books, size: nat)
    requires b.data == a.data && b.input == a.input && b.ends == a.ends && a.toks <= b.toks && a.log <= b.log
    requires a.flushed <= b.flushed && a.blocks <= b.blocks && FullSince(b.blocks, |a.blocks|, size)
    ensures Steady(a, b, NoFlush, size)
  {
  }

  // Reading adds data.
  lemma ReadSteady(a: Books, b: Books, flush: Flush, size: nat)
    requires b == a.(data := b.data, input := b.input, ends := b.ends)
    requires b.data + b.input == a.data + a.input && a.data <= b.data
    requires a.ends <= b.ends <= a.ends + (if flush == NoFlush then {} else {|b.data + b.input|})
    ensures Steady(a, b, flush, size)
  {
  }

  lemma SteadyOn(a: Books, b: Books, c: Books, flush: Flush, size: nat)
    requires Steady(a, b, flush, size) && (Steady(b, c, flush, size) || Steady(b, c, NoFlush, size))
    ensures Steady(a, c, flush, size)
  {
    StreamGrows(a.data, b.data, c.data);
  }

  // The same, but the last block need not be full if everything had to come out.
  ghost predicate Carried(a: Books, b: Books, flush: Flush, size: nat) {
    && b.data + b.input == a.data + a.input && a.data <= b.data
    && a.ends <= b.ends <= a.ends + (if flush == NoFlush then {} else {|b.data + b.input|})
    && a.toks <= b.toks && a.log <= b.log && a.flushed <= b.flushed
    && FullButLast(a.blocks, b.blocks, size, flush != NoFlush)
  }

  lemma SteadyCarried(a: Books, b: Books, flush: Flush, size: nat)
    requires Steady(a, b, flush, size)
    ensures Carried(a, b, flush, size)
  {
  }

  // The end of a call may hand over one block more.
  ghost predicate Closes(b: Books, c: Books) {
    && c.data == b.data && c.input == b.input && c.ends == b.ends
    && b.toks <= c.toks && b.log <= c.log && b.flushed <= c.flushed && OneMore(b.blocks, c.blocks)
  }

  lemma EndCarried(a: Books, b: Books, c: Books, flush: Flush, size: nat)
    requires Steady(a, b, flush, size) && flush != NoFlush && Closes(b, c)
    ensures Carried(a, c, flush, size)
  {
    LastBlock(a.blocks, b.blocks, c.blocks, size);
  }

  // ----- Sizes of blocks -----

  function Sum(b: seq<nat>): nat {
    if b == [] then 0 else Sum(b[..|b| - 1]) + b[|b| - 1]
  }

  lemma SumMore(b: seq<nat>, n: nat)
    ensures Sum(b + [n]) == Sum(b) + n
  {
    assert (b + [n])[..|b|] == b;
  }

  ghost predicate FullSince(b: seq<nat>, from: nat, size: nat) {
    forall i :: from <= i < |b| ==> b[i] == size
  }

  // All blocks since a are full; the last one need not be if more is allowed.
  ghost predicate FullButLast(a: seq<nat>, b: seq<nat>, size: nat, more: bool) {
    && a <= b
    && (FullSince(b, |a|, size) || (more && |b| > |a| && FullSince(b[..|b| - 1], |a|, size)))
  }

  ghost predicate OneMore(a: seq<nat>, b: seq<nat>) {
    a <= b && |b| <= |a| + 1
  }

  lemma LastBlock(a: seq<nat>, b: seq<nat>, c: seq<nat>, size: nat)
    requires a <= b && FullSince(b, |a|, size) && OneMore(b, c)
    ensures FullButLast(a, c, size, true)
  {
    if |c| > |b| { assert c[..|c| - 1] == b; } else { assert c == b; }
  }

  // All the input of a list of calls.
  function AllChunks(calls: seq<Call>): seq<Byte> {
    if calls == [] then [] else calls[0].chunk + AllChunks(calls[1..])
  }

  class State {
    const wSize: nat
    const hashBits: nat
    const hashShift: nat
    const window: array<Byte>
    const head: array<Pos>
    const prev: array<Pos>
    const maxLazyMatch: nat
    const goodMatch: nat
    const niceMatch: int
    const maxChainLength: nat
    const filtered: bool
    const symEnd: nat
    var strstart: nat
    var lookahead: nat
    var insH: nat
    var matchLength: nat
    var matchStart: int
    var prevLength: nat
    var prevMatch: int
    var matchAvailable: bool
    var insert: nat
    var blockStart: int
    var highWater: nat
    var input: seq<Byte>
    var availOut: nat
    var syms: seq<Token>
    ghost var data: seq<Byte>
    ghost var base: nat
    ghost var owner: seq<int>
    ghost var last: int
    ghost var flushed: seq<Token>
    ghost var ends: set<int>  // where the input ended when a call asked for all of it to come out
    ghost var known: set<int>  // the positions in the index
    ghost var log: seq<Choice>  // how each token was chosen
    ghost var blocks: seq<nat>  // how many symbols each block handed over had
    ghost var pend: Search  // the search at the byte held back

    // deflateInit2_ and lm_init: an empty window, no chains, no symbols.
    constructor (w: nat, bits: nat, lazy: nat, good: nat, nice: int, chain: nat, onlyFiltered: bool, symbols: nat)
      requires 512 <= w <= 0x8000 && 8 <= bits <= 16 && symbols >= 1
      ensures SlowValid() && FastValid() && RleValid() && data == [] && flushed == [] && syms == [] && wSize == w
      ensures log == [] && ends == {}
      ensures fresh(window) && fresh(head) && fresh(prev)
    {
      hide Gives, SlowValid, FastValid, RleValid, Chains, Slot;
      wSize, hashBits, hashShift := w, bits, (bits + 2) / 3;
      window := new Byte[2 * w](_ => 0);
      head := new Pos[Pow2(bits)](_ => NIL);
      prev := new Pos[w];
      maxLazyMatch, goodMatch, niceMatch, maxChainLength, filtered, symEnd := lazy, good, nice, chain, onlyFiltered,
        symbols;
      strstart, lookahead, insH, insert, blockStart, highWater, availOut := 0, 0, 0, 0, 0, 0, 0;
      matchLength, prevLength, matchStart, prevMatch, matchAvailable := MIN_MATCH - 1, MIN_MATCH - 1, 0, 0, false;
      input, syms, data, flushed := [], [], [], [];
      base, owner, last, ends, known, log, blocks := 0, seq(w, _ => -1), -1, {}, {}, [], [];
      new;
      EmptySlot(w);
      ChainsStart(X());
      GivesNothing(data, 0, MaxDist());
      StartSlow();
      StartFast();
      StartRle();
    }

    // Nothing read, nothing tallied.
    ghost predicate Fresh()
      reads this, window, head, prev
    {
      && Aligned() && Chained() && insert == 0 && lookahead == 0 && base == strstart == blockStart == 0
      && !matchAvailable && matchLength == prevLength == MIN_MATCH - 1 && Gives([], data, 0, 0, MaxDist())
      && data == [] && flushed == syms == [] && log == [] && known == {} && blocks == []
    }

    lemma StartSlow()
      requires Fresh()
      ensures SlowValid()
    {
      hide Chained, Gives, WindowOk, HashSizes, Pow2;
      assert Covers(false, 0);
    }

    lemma StartFast()
      requires Fresh()
      ensures FastValid()
    {
      hide Chained, Gives, WindowOk, HashSizes, Pow2;
    }

    lemma StartRle()
      requires Fresh()
      ensures RleValid()
    {
      hide Chained, Gives, WindowOk, HashSizes, Pow2;
    }

    function WindowSize(): nat
    {
      2 * wSize
    }

    function MaxDist(): int
    {
      wSize - MIN_LOOKAHEAD
    }

    ghost function X(): Index
      reads this`data, this`base, this`owner, this`last, this`known, head, prev
    {
      Index(data, base, wSize, hashBits, hashShift, head[..], prev[..], owner, last)
    }

    // Sizes as deflateInit2_ chooses them.
    ghost predicate Sizes()
    {
      && 512 <= wSize <= 0x8000 && window.Length == WindowSize() && prev.Length == wSize
      && HashSizes(hashBits, hashShift) && head.Length == Pow2(hashBits) && head != prev && symEnd >= 1
    }

    lemma SizesParts()
      requires Sizes()
      ensures 512 <= wSize <= 0x8000 && window.Length == WindowSize() && prev.Length == wSize
      ensures head.Length > 0 && head != prev
    {
    }

    // Window, data and counters belong together.
    ghost predicate Aligned()
      reads this`data, this`base, this`strstart, this`lookahead, this`highWater, window
    {
      && Sizes() && WindowOk(window[..], data, base) && base + strstart + lookahead == |data|
      && strstart + lookahead <= WindowSize() && highWater <= WindowSize() && (base > 0 ==> strstart >= MaxDist())
    }

    // The chains are right and hold the known positions; those still to be inserted are late ones.
    ghost predicate Chained()
      reads this`data, this`base, this`owner, this`last, this`known, this`strstart, this`insert, this`ends,
        head, prev
    {
      && Sizes() && Chains(X()) && last < base + strstart - insert && insert <= strstart
      && (last == -1 || last + 2 < |data|) && Exactly(X(), known)
      && LateOnes(ends, base + strstart - insert, base + strstart)
    }

    // There is lookahead enough, unless the input has ended.
    ghost predicate Supplied()
      reads this`lookahead, this`data, this`ends
    {
      lookahead >= MIN_LOOKAHEAD || |data| in ends
    }

    // Positions are left to be inserted only for want of bytes.
    predicate Caught()
      reads this`insert, this`lookahead
    {
      insert > 0 ==> lookahead + insert < MIN_MATCH
    }

    // The rolling hash is ready for the string at position a, if there are three bytes.
    ghost predicate HashReady(a: int)
      reads this`data, this`insH
    {
      0 <= a && a + 2 < |data| ==> Rolled(insH, data[a], data[a + 1], hashBits, hashShift)
    }

    // A window of at most 64 KB: no position loses bits in the 16 of the tables.
    lemma FitsPos(str: nat)
      requires Sizes() && WindowOk(window[..], data, base) && base + str < |data|
      ensures str % 0x1_0000 == str
    {
    }

    // INSERT_STRING.
    method InsertString(str: nat) returns (hashHead: int)
      requires Sizes() && WindowOk(window[..], data, base) && Chains(X())
      requires last < base + str && base + str + 2 < |data| && HashReady(base + str)
      requires Exactly(X(), known)
      modifies this`insH, this`owner, this`last, this`known, head, prev
      ensures Chains(X()) && last == base + str && HashReady(base + str + 1)
      ensures hashHead >= 0 && (hashHead != NIL ==> Leads(X(), base + hashHead, base + str))
      ensures prev[Slot(str, wSize)] == hashHead && Known(X(), base + str)
      ensures Exactly(X(), known) && known == old(known) + {base + str}
    {
      hide Chains, WindowOk, Rolled, Leads, Known, Hash, Update, Slot, Exactly;
      ghost var x := X();
      FitsPos(str);
      HashedAt(x, window[..], insH, str);
      ChainsSizes(x);
      insH := Update(insH, window[str + 2], hashBits, hashShift);
      ghost var h := insH;
      InsertKeeps(x, str, h);
      InsertFinds(x, str, h);
      ExactlyInsert(x, str, h, known);
      InsertedKnown(x, str, h);
      hashHead := head[insH];
      prev[Slot(str, wSize)] := hashHead;
      head[insH] := str % 0x1_0000;
      owner := owner[Slot(base + str, wSize) := base + str];
      last := base + str;
      known := known + {base + str};
      assert X() == Inserted(x, str, h);
    }

    // The quick check of the last and first bytes, and the comparison if it passes; 0 if it does not.
    // Only strings that cannot be longer fail it.
    method TryAt(m: nat, bestLen: nat, scanEnd1: Byte, scanEnd: Byte) returns (l: nat)
      requires Aligned() && Chains(X()) && last == base + strstart && strstart <= WindowSize() - MIN_LOOKAHEAD
      requires 1 <= bestLen <= MAX_MATCH && Leads(X(), base + m, base + strstart)
      requires scanEnd1 == window[strstart + bestLen - 1] && scanEnd == window[strstart + bestLen]
      ensures l == 0 || (3 <= l <= MAX_MATCH && SameRun(window[..], strstart, m, 0, l))
      ensures NotLonger(window[..], strstart, m, Larger(l, bestLen))
    {
      hide Chains, WindowOk, Leads, Known, SameRun, Slot, HashAt, NotLonger;
      LeadsBounds(X(), m, strstart);
      l := 0;
      if window[m + bestLen] == scanEnd && window[m + bestLen - 1] == scanEnd1
         && window[m] == window[strstart] && window[m + 1] == window[strstart + 1] {
        FirstThree(X(), window[..], m, strstart);
        l := CompareStrings(window, strstart, m);
        Differs(window[..], strstart, m, Larger(l, bestLen), if l < MAX_MATCH then l else 0);
      } else {
        ghost var k := if window[m + bestLen] != scanEnd then bestLen else if window[m + bestLen - 1] != scanEnd1
          then bestLen - 1 else if window[m] != window[strstart] then 0 else 1;
        Differs(window[..], strstart, m, bestLen, k);
      }
    }

    // One candidate: matchStart moves to it if its string is longer than the best so far.
    method Look(cur: nat, best0: nat, scanEnd1: Byte, scanEnd: Byte, ghost before: nat, ghost x: Index,
                ghost win: seq<Byte>, ghost m: nat, ghost links: nat, ghost left: nat, ghost floor: nat,
                ghost prior0: nat, ghost nice: int)
      returns (best: nat, ghost prior: nat)
      requires Aligned() && x == X() && win == window[..] && Chains(x) && last == base + strstart
      requires strstart <= WindowSize() - MIN_LOOKAHEAD && 1 <= best0 <= MAX_MATCH && before <= best0
      requires Leads(x, base + cur, base + strstart) && strstart - cur <= MaxDist()
      requires scanEnd1 == window[strstart + best0 - 1] && scanEnd == window[strstart + best0]
      requires Better(win, strstart, matchStart, best0, before, MaxDist()) && cur > 0
      requires StillAhead(x, win, strstart, m, links, cur, left, floor, best0) && (best0 == before || best0 < nice)
      requires floor == Floor() && Leading(x, win, strstart, m, links, floor, matchStart, best0, prior0, before, nice)
      modifies this`matchStart
      ensures Aligned() && x == X() && win == window[..] && best0 <= best <= MAX_MATCH
      ensures Better(win, strstart, matchStart, best, before, MaxDist()) && NotLonger(win, strstart, cur, best)
      ensures Leading(x, win, strstart, m, links, floor, matchStart, best, prior, before, nice)
    {
      hide Chains, WindowOk, Leads, Known, SameRun, Better, NotLonger, StillAhead, Leading;
      prior := prior0;
      var l := TryAt(cur, best0, scanEnd1, scanEnd);
      best := best0;
      if l > best0 {
        matchStart := cur;
        best, prior := l, best0;
        BetterNow(win, strstart, cur, l, before, MaxDist());
        LeadingNow(x, win, strstart, m, links, cur, left, floor, best0, l, before, nice);
      }
    }

    // What longest_match needs of the sizes.
    lemma RoomToScan()
      requires Aligned() && strstart <= WindowSize() - MIN_LOOKAHEAD
      ensures strstart + MAX_MATCH < window.Length && prev.Length == wSize > MaxDist() > 0 && wSize > 0
      ensures WindowOk(window[..], data, base) && base + strstart + lookahead == |data|
    {
      hide WindowOk;
    }

    // longest_match: the best match on the hash chain from curMatch0 that is longer than
    // prevLength. The third byte is never compared: the hash chain makes it equal. Unless the result is
    // as long as can be wanted, no candidate that may be looked at is longer; what is found is the
    // nearest of its length, and the first that is long enough.
    method LongestMatch(curMatch0: nat) returns (len: nat)
      requires Aligned() && Chains(X()) && lookahead >= MIN_MATCH && last == base + strstart
      requires strstart <= WindowSize() - MIN_LOOKAHEAD && 1 <= prevLength <= MAX_MATCH
      requires curMatch0 != NIL && strstart - curMatch0 <= MaxDist() && Leads(X(), base + curMatch0, base + strstart)
      modifies this`matchStart
      ensures len <= lookahead && len <= MAX_MATCH && (len >= prevLength || len == lookahead)
      ensures len > prevLength ==> MatchAt(data, base, strstart, matchStart, len, MaxDist())
      ensures len < lookahead && (len < niceMatch || len <= prevLength) ==>
        NoneLonger(X(), window[..], strstart, curMatch0, Links(), Floor(), len)
      ensures len > prevLength ==>
        matchStart > 0 && FirstBest(X(), window[..], strstart, curMatch0, Links(), Floor(), matchStart, len, lookahead,
                                    Upto(len, prevLength, niceMatch))
    {
      hide Chains, WindowOk, Leads, Known, SameRun, MatchAt, Slot, HashAt, Better, CountDown, NoneLonger, Aligned,
        Leading, FirstBest;
      RoomToScan();
      ghost var x, win, s0 := X(), window[..], strstart;
      var chainLength := maxChainLength;
      var nice := niceMatch;
      var limit := if strstart > MaxDist() then strstart - MaxDist() else NIL;
      if prevLength >= goodMatch { chainLength := chainLength / 4; }
      if nice > lookahead { nice := lookahead; }
      var bestLen, prior := ScanChain(curMatch0, chainLength, limit, nice, x, win);
      len := if bestLen <= lookahead then bestLen else lookahead;
      if len > prevLength {
        FoundMatch(win, data, base, s0, matchStart, bestLen, prevLength, len, MaxDist());
        NearestIsFirst(x, win, s0, curMatch0, CountDown(chainLength), limit, matchStart, bestLen, prior, prevLength,
                       niceMatch, len, lookahead);
      }
    }

    // Its loop: from candidate to candidate, until one is nice enough, the links are used up or the chain
    // leaves the window.
    method ScanChain(curMatch0: nat, chainLength0: nat, limit: nat, nice: int, ghost x: Index, ghost win: seq<Byte>)
      returns (bestLen: nat, ghost prior: nat)
      requires Aligned() && x == X() && win == window[..] && Chains(x) && last == base + strstart && limit == Floor()
      requires strstart <= WindowSize() - MIN_LOOKAHEAD && 1 <= prevLength <= MAX_MATCH
      requires curMatch0 != NIL && strstart - curMatch0 <= MaxDist() && Leads(x, base + curMatch0, base + strstart)
      modifies this`matchStart
      ensures Aligned() && X() == x && window[..] == win && prevLength <= bestLen <= MAX_MATCH
      ensures Better(win, strstart, matchStart, bestLen, prevLength, MaxDist())
      ensures Leading(x, win, strstart, curMatch0, CountDown(chainLength0), limit, matchStart, bestLen, prior,
        prevLength,
                      nice)
      ensures bestLen < nice || bestLen == prevLength ==>
        NoneLonger(x, win, strstart, curMatch0, CountDown(chainLength0), limit, bestLen)
    {
      hide Chains, WindowOk, Leads, Known, SameRun, MatchAt, Slot, HashAt, Better, CountDown, NoneLonger, StillAhead,
        NotLonger, Aligned, Leading, Reaches;
      RoomToScan();
      ghost var s0, links := strstart, CountDown(chainLength0);
      var chainLength, curMatch := chainLength0, curMatch0;
      bestLen, prior := prevLength, prevLength;
      var scanEnd1, scanEnd := window[strstart + bestLen - 1], window[strstart + bestLen];
      NotBetter(win, s0, matchStart, prevLength, MaxDist());
      AllAhead(x, win, s0, curMatch0, links, limit, bestLen);
      NoneLeading(x, win, s0, curMatch0, links, limit, matchStart, bestLen, nice);
      while true
        invariant Aligned() && X() == x && window[..] == win
        invariant 0 < curMatch && s0 - curMatch <= MaxDist() && Leads(x, base + curMatch, base + s0)
        invariant prevLength <= bestLen <= MAX_MATCH && Better(win, s0, matchStart, bestLen, prevLength, MaxDist())
        invariant scanEnd1 == win[s0 + bestLen - 1] && scanEnd == win[s0 + bestLen]
        invariant StillAhead(x, win, s0, curMatch0, links, curMatch, CountDown(chainLength), limit, bestLen)
        invariant bestLen == prevLength || bestLen < nice
        invariant Leading(x, win, s0, curMatch0, links, limit, matchStart, bestLen, prior, prevLength, nice)
        decreases curMatch
      {
        var best0 := bestLen;
        bestLen, prior := Look(curMatch, bestLen, scanEnd1, scanEnd, prevLength, x, win, curMatch0, links,
          CountDown(chainLength), limit, prior, nice);
        if bestLen > best0 {
          if bestLen >= nice { break; }
          scanEnd1, scanEnd := window[strstart + bestLen - 1], window[strstart + bestLen];
        }
        StepOnChain(x, curMatch, s0);
        var next := prev[Slot(curMatch, wSize)];
        OneLess(x, win, s0, curMatch0, links, curMatch, CountDown(chainLength), limit, best0, bestLen);
        if next <= limit { break; }
        curMatch := next;
        CountedDown(chainLength);
        chainLength := CountDown(chainLength);
        if chainLength == 0 { break; }
      }
    }

    // How many links longest_match may follow, and the window index it stops at.
    function Links(): nat
      reads this`prevLength
    {
      CountDown(if prevLength >= goodMatch then maxChainLength / 4 else maxChainLength)
    }

    function Floor(): nat
      reads this`strstart
    {
      if strstart > MaxDist() then strstart - MaxDist() else NIL
    }

    // ----- fill_window -----

    // One of the two loops of slide_hash.
    method SlideTable(a: array<Pos>)
      requires a.Length > 0
      modifies a
      ensures forall i :: 0 <= i < a.Length ==> a[i] == Less(old(a[..])[i], wSize)
    {
      var n := a.Length;
      while true
        invariant 0 < n <= a.Length
        invariant forall i :: n <= i < a.Length ==> a[i] == Less(old(a[..])[i], wSize)
        invariant forall i :: 0 <= i < n ==> a[i] == old(a[..])[i]
        decreases n
      {
        n := n - 1;
        var m := a[n];
        a[n] := if m >= wSize then m - wSize else NIL;
        if n == 0 { break; }
      }
    }

    // Moves the upper half of the window to the lower one; all positions follow.
    method Slide(more: int)
      requires Aligned() && Chained() && strstart >= wSize + MaxDist() && more == WindowSize() - lookahead - strstart
      modifies this`matchStart, this`strstart, this`blockStart, this`insert, this`base, window, head, prev
      ensures Aligned() && Chained() && base == old(base) + wSize && strstart == old(strstart) - wSize
      ensures matchStart == old(matchStart) - wSize && blockStart == old(blockStart) - wSize && insert <= old(insert)
      ensures old(HashReady(base + strstart)) ==> HashReady(base + strstart)
    {
      hide Chains, WindowOk, Leads, Known, SlidBy, Rolled, Pow2, HashSizes, Sizes, Exactly;
      SizesParts();
      ghost var win := window[..];
      CopyDown(wSize - more);
      SlidWindow(win, window[..], data, base, wSize, wSize - more);
      matchStart := matchStart - wSize;
      strstart := strstart - wSize;
      blockStart := blockStart - wSize;
      if insert > strstart { insert := strstart; }
      SlideHash();
    }

    // slide_hash: both tables; the positions have moved already.
    method SlideHash()
      requires Sizes() && Chains(X()) && Exactly(X(), known)
      modifies this`base, head, prev
      ensures Chains(X()) && base == old(base) + wSize && Exactly(X(), known)
    {
      hide Chains, Leads, Known, SlidBy, Pow2, HashSizes, Sizes, Exactly;
      SizesParts();
      ghost var x := X();
      ChainsSizes(x);
      SlideTable(head);
      SlideTable(prev);
      base := base + wSize;
      SlidByIs(x, X());
      SlideKeeps(x, X());
      ExactlyMore(x, X(), known);
    }

    // n bytes of the upper half go to the lower one.
    method CopyDown(n: int)
      requires Sizes() && 0 <= n <= wSize
      modifies window
      ensures forall i :: 0 <= i < n ==> window[i] == old(window[..])[i + wSize]
    {
      for i := 0 to n
        invariant forall k :: 0 <= k < i ==> window[k] == old(window[..])[k + wSize]
        invariant forall k :: wSize <= k < window.Length ==> window[k] == old(window[..])[k]
      {
        window[i] := window[i + wSize];
      }
    }

    // read_buf, at the end of the data in the window.
    method ReadBuf(size: nat) returns (n: nat)
      requires Aligned() && Chained() && strstart + lookahead + size <= WindowSize()
      modifies this`input, this`data, this`lookahead, window
      ensures n == if |old(input)| < size then |old(input)| else size
      ensures input == old(input)[n..] && data == old(data) + old(input)[..n] && lookahead == old(lookahead) + n
      ensures Aligned() && Chained()
    {
      hide Chains, WindowOk, Exactly;
      n := |input|;
      if n > size { n := size; }
      ghost var win, x := window[..], X();
      CopyIn(strstart + lookahead, input[..n]);
      ReadWindow(win, window[..], data, base, input[..n]);
      GrowKeeps(x, input[..n]);
      data := data + input[..n];
      input := input[n..];
      lookahead := lookahead + n;
      assert X() == x.(data := data);
      ExactlyMore(x, X(), known);
    }

    method CopyIn(at: nat, bytes: seq<Byte>)
      requires at + |bytes| <= window.Length
      modifies window
      ensures forall i :: 0 <= i < at ==> window[i] == old(window[..])[i]
      ensures forall i :: at <= i < at + |bytes| ==> window[i] == bytes[i - at]
    {
      for k := 0 to |bytes|
        invariant forall i :: 0 <= i < at ==> window[i] == old(window[..])[i]
        invariant forall i :: at <= i < at + k ==> window[i] == bytes[i - at]
      {
        window[at + k] := bytes[k];
      }
    }

    // The rolling hash of the two bytes at str.
    method StartHash(str: nat)
      requires Sizes() && WindowOk(window[..], data, base) && base + str + 1 < |data|
      modifies this`insH
      ensures HashReady(base + str)
    {
      hide WindowOk, Rolled, Update;
      WindowAt(window[..], data, base, str);
      WindowAt(window[..], data, base, str + 1);
      insH := window[str];
      RolledStart(window[str], window[str + 1], hashBits, hashShift);
      insH := Update(insH, window[str + 1], hashBits, hashShift);
    }

    // Starts the rolling hash afresh and inserts the positions that were waiting for bytes.
    method InsertWaiting()
      requires Aligned() && Chained() && lookahead + insert >= MIN_MATCH
      modifies this`insH, this`insert, this`owner, this`last, this`known, head, prev
      ensures Aligned() && Chained() && Caught() && HashReady(base + strstart) && insert <= old(insert)
      ensures Added(old(known), known, base + strstart - old(insert), base + strstart) && last >= old(last)
    {
      hide Chains, WindowOk, HashReady, Leads, Known, HashSizes, Pow2, Exactly;
      var str: nat := strstart - insert;
      StartHash(str);
      while insert > 0
        invariant Aligned() && Chained() && str == strstart - insert && lookahead + insert >= MIN_MATCH
          && insert <= old(insert)
        invariant HashReady(base + str) && last >= old(last)
        invariant Added(old(known), known, base + strstart - old(insert), base + strstart)
        decreases insert
      {
        var hashHead := InsertString(str);
        str := str + 1;
        insert := insert - 1;
        if lookahead + insert < MIN_MATCH { break; }
      }
      if insert > 0 { NotReady(); }
    }

    // With fewer than three bytes ahead nothing is asked of the hash.
    lemma NotReady()
      requires Aligned() && lookahead < MIN_MATCH
      ensures HashReady(base + strstart)
    {
    }

    // Zeroes up to WIN_INIT bytes after the data that were never written.
    method ZeroAhead()
      requires Aligned()
      modifies this`highWater, window
      ensures Aligned() && highWater == Larger(old(highWater), Smaller(strstart + lookahead + WIN_INIT, WindowSize()))
      ensures forall i :: 0 <= i < window.Length ==>
        window[i] == if Larger(old(highWater), strstart + lookahead) <= i < highWater then 0 else old(window[..])[i]
    {
      hide WindowOk;
      if highWater < WindowSize() {
        var curr := strstart + lookahead;
        ghost var win := window[..];
        if highWater < curr {
          var init := WindowSize() - curr;
          if init > WIN_INIT { init := WIN_INIT; }
          ZeroFrom(curr, init);
          highWater := curr + init;
        } else if highWater < curr + WIN_INIT {
          var init := curr + WIN_INIT - highWater;
          if init > WindowSize() - highWater { init := WindowSize() - highWater; }
          ZeroFrom(highWater, init);
          highWater := highWater + init;
        }
        SameWindow(win, window[..], data, base, curr);
      }
    }

    method ZeroFrom(at: nat, n: nat)
      requires at + n <= window.Length
      modifies window
      ensures forall i :: 0 <= i < window.Length ==> window[i] == if at <= i < at + n then 0 else old(window[..])[i]
    {
      for k := 0 to n
        invariant forall i :: 0 <= i < window.Length ==> window[i] == if at <= i < at + k then 0 else old(window[..])[i]
      {
        window[at + k] := 0;
      }
    }

    // One round of fill_window: slide if needed, then read. There is always room for two bytes.
    method FillOnce() returns (stop: bool)
      requires Aligned() && Chained() && Caught() && lookahead < MIN_LOOKAHEAD
      modifies this`matchStart, this`strstart, this`blockStart, this`insert, this`base, this`input, this`data,
        this`lookahead,
        this`insH, this`owner, this`last, this`known, window, head, prev
      ensures Aligned() && Chained() && Caught() &&
        Moved(old(base + strstart), old(base + matchStart), old(base + blockStart), old(data + input))
      ensures strstart <= WindowSize() - MIN_LOOKAHEAD && old(data) <= data
        && |input| + lookahead == old(|input| + lookahead)
      ensures stop ==> input == []
      ensures !stop ==> |input| < |old(input)|
      ensures old(HashReady(base + strstart)) ==> HashReady(base + strstart)
      ensures insert <= old(insert) && last >= old(last)
      ensures Added(old(known), known, old(base + strstart - insert), base + strstart)
    {
      hide Chains, WindowOk, HashReady, Chained, Sizes, Pow2, HashSizes;
      SizesParts();
      var more := WindowSize() - lookahead - strstart;
      if strstart >= wSize + MaxDist() {
        Slide(more);
        more := more + wSize;
      }
      stop := |input| == 0;
      assert more >= 2;
      if !stop { ReadMore(more); }
    }

    // Reads into the room at the end of the window; strings that lacked bytes are inserted.
    method ReadMore(more: nat)
      requires Aligned() && Chained() && input != [] && more >= 2 && strstart + lookahead + more <= WindowSize()
      modifies this`insert, this`input, this`data, this`lookahead, this`insH, this`owner, this`last, this`known, window,
        head, prev
      ensures Aligned() && Chained() && Caught() && data + input == old(data + input) && old(data) <= data
      ensures |input| + lookahead == old(|input| + lookahead) && |input| < |old(input)| && insert <= old(insert)
      ensures old(HashReady(base + strstart)) ==> HashReady(base + strstart)
      ensures Added(old(known), known, base + strstart - old(insert), base + strstart) && last >= old(last)
    {
      hide Chains, WindowOk, HashReady, Chained, Sizes, Pow2, HashSizes;
      ghost var d, inp := data, input;
      var n := ReadBuf(more);
      assert d + inp == d + inp[..n] + inp[n..];
      if lookahead + insert >= MIN_MATCH { InsertWaiting(); } else { NotReady(); }
    }

    // The absolute positions and the whole stream are what they were.
    ghost predicate Moved(at: int, match0: int, block0: int, stream: seq<Byte>)
      reads this`base, this`strstart, this`matchStart, this`blockStart, this`data, this`input
    {
      base + strstart == at && base + matchStart == match0 && base + blockStart == block0 && data + input == stream
    }

    method FillWindow()
      requires Aligned() && Chained() && Caught() && lookahead < MIN_LOOKAHEAD
      modifies this`matchStart, this`strstart, this`blockStart, this`insert, this`base, this`input, this`data,
        this`lookahead,
        this`insH, this`owner, this`last, this`known, this`highWater, window, head, prev
      ensures Aligned() && Chained() && Caught() &&
        Moved(old(base + strstart), old(base + matchStart), old(base + blockStart), old(data + input))
      ensures strstart <= WindowSize() - MIN_LOOKAHEAD && old(data) <= data
        && |input| + lookahead == old(|input| + lookahead)
      ensures lookahead >= MIN_LOOKAHEAD || input == []
      ensures old(HashReady(base + strstart)) ==> HashReady(base + strstart)
      ensures insert <= old(insert) && last >= old(last)
      ensures Added(old(known), known, old(base + strstart - insert), base + strstart)
    {
      hide Chains, WindowOk, Rolled, HashReady, Sizes;
      ghost var at, m0, b0, stream, d, left, ready :=
        base + strstart, base + matchStart, base + blockStart, data + input, data, |input| + lookahead,
          HashReady(base + strstart);
      while true
        invariant Aligned() && Chained() && Caught() && lookahead < MIN_LOOKAHEAD
        invariant Moved(at, m0, b0, stream) && d <= data && |input| + lookahead == left
        invariant (ready ==> HashReady(base + strstart)) && insert <= old(insert) && last >= old(last)
        invariant Added(old(known), known, old(base + strstart - insert), base + strstart)
        decreases |input|
      {
        ghost var before := data;
        var stop := FillOnce();
        PrefixTrans(d, before, data);
        if stop || !(lookahead < MIN_LOOKAHEAD && |input| != 0) { break; }
      }
      ZeroAhead();
    }

    // ----- Tokens -----

    // The blocks flushed and the symbols tallied since give the data up to pos.
    ghost predicate Tallied(pos: int)
      reads this`flushed, this`blocks, this`syms, this`data, this`base, this`blockStart
    {
      && 0 <= base + blockStart && 0 <= pos && Sum(blocks) == |flushed|
      && Gives(flushed, data, 0, base + blockStart, MaxDist()) && Gives(syms, data, base + blockStart, pos, MaxDist())
    }

    // All tokens so far.
    ghost function Tokens(): seq<Token>
      reads this`flushed, this`syms
    {
      flushed + syms
    }

    ghost function Read(): Text
      reads this`data, this`ends, this`known, this`last
    {
      Text(data, ends, known, last)
    }

    ghost function Ways(greedy: bool): Rules
    {
      Rules(MaxDist(), hashBits, hashShift, greedy, maxLazyMatch, goodMatch, niceMatch, maxChainLength, filtered)
    }

    ghost function Ledger(): Books
      reads this`data, this`input, this`ends, this`flushed, this`syms, this`log, this`blocks
    {
      Books(data, input, ends, Tokens(), log, flushed, blocks)
    }

    // Every token was chosen by the rules.
    ghost predicate Told(greedy: bool)
      reads this`flushed, this`syms, this`data, this`ends, this`known, this`last, this`log
    {
      Story(Ways(greedy), Read(), Tokens(), log)
    }

    // The positions before end are in the index, but for those a greedy search leaves out.
    ghost predicate Covers(greedy: bool, end: int)
      reads this`data, this`ends, this`known, this`last, this`log
    {
      Covered(Ways(greedy), Read(), log, end)
    }

    // How the token just tallied was chosen.
    ghost method Tell(greedy: bool, was: seq<Token>, token: Token, c: Choice)
      requires Tokens() == was + [token] && Story(Ways(greedy), Read(), was, log)
      requires Chosen(Ways(greedy), Read(), token, TotalLength(was), Pending(Ways(greedy), was, log), c)
      modifies this`log
      ensures Told(greedy) && log == old(log) + [c]
    {
      hide Story, Chosen;
      StoryNext(Ways(greedy), Read(), was, log, token, c);
      log := log + [c];
    }

    // More is read or left out: what was told stays so.
    lemma TellsOn(greedy: bool, t: Text)
      requires Story(Ways(greedy), t, Tokens(), log) && Grows(t, Read())
      ensures Told(greedy)
    {
      hide Story, Grows;
      StoryGrows(Ways(greedy), t, Read(), Tokens(), log);
    }

    // The tokens stand for the bytes up to pos.
    lemma TalliedLength(pos: int)
      requires Tallied(pos)
      ensures TotalLength(Tokens()) == pos
    {
      hide Gives, TotalLength;
      GivesConcat(flushed, syms, data, 0, base + blockStart, pos, MaxDist());
      GivesLength(Tokens(), data, 0, pos, MaxDist());
    }

    // _tr_tally_lit.
    method TallyLit(c: Byte, ghost pos: nat) returns (bflush: bool)
      requires Tallied(pos) && pos < |data| && c == data[pos] && |syms| < symEnd
      modifies this`syms
      ensures Tallied(pos + 1) && |syms| <= symEnd && (bflush <==> |syms| == symEnd)
      ensures Tokens() == old(Tokens()) + [Literal(c)]
    {
      hide Gives;
      GivesLiteral(syms, data, base + blockStart, pos, MaxDist());
      syms := syms + [Literal(c)];
      bflush := |syms| == symEnd;
    }

    // _tr_tally_dist: the distance is kept in 16 bits, the length less three in 8.
    method TallyDist(dist: int, lc: int, ghost s: int, ghost m: int) returns (bflush: bool)
      requires Sizes() && Tallied(base + s) && MatchAt(data, base, s, m, lc + MIN_MATCH, MaxDist()) && dist == s - m
        && |syms| < symEnd
      modifies this`syms
      ensures Tallied(base + s + lc + MIN_MATCH) && |syms| <= symEnd && (bflush <==> |syms| == symEnd)
      ensures Tokens() == old(Tokens()) + [Match(lc + MIN_MATCH, dist)]
    {
      hide Gives;
      GivesMatch(syms, data, base + blockStart, base + s, MaxDist(), lc + MIN_MATCH, dist);
      syms := syms + [Match(lc % 0x100 + MIN_MATCH, dist % 0x1_0000)];
      bflush := |syms| == symEnd;
    }

    // FLUSH_BLOCK_ONLY: the block is handed over with its length; some output space remains.
    method FlushBlockOnly()
      requires Aligned() && Tallied(base + strstart)
      modifies this`syms, this`flushed, this`blocks, this`blockStart, this`availOut
      ensures Aligned() && Tallied(base + strstart) && syms == []
      ensures flushed == old(flushed) + old(syms) && Tokens() == old(Tokens())
      ensures TotalLength(old(syms)) == strstart - old(blockStart) && blocks == old(blocks) + [|old(syms)|]
    {
      hide Gives, WindowOk, TotalLength, Sizes;
      SumMore(blocks, |syms|);
      GivesLength(syms, data, base + blockStart, base + strstart, MaxDist());
      GivesConcat(flushed, syms, data, 0, base + blockStart, base + strstart, MaxDist());
      GivesNothing(data, base + strstart, MaxDist());
      flushed := flushed + syms;
      blocks := blocks + [|syms|];
      syms := [];
      blockStart := strstart;
      availOut := *;
    }

    // Only full blocks have been handed over since.
    twostate predicate FullBlocks()
      reads this`flushed, this`blocks
    {
      old(flushed) <= flushed && old(blocks) <= blocks && FullSince(blocks, |old(blocks)|, symEnd)
    }

    // FLUSH_BLOCK, if the symbols have filled their buffer; stop tells that no output space is left.
    method FlushBlock(bflush: bool) returns (stop: bool)
      requires Aligned() && Tallied(base + strstart) && |syms| <= symEnd && (bflush <==> |syms| == symEnd)
      modifies this`syms, this`flushed, this`blocks, this`blockStart, this`availOut
      ensures Aligned() && Tallied(base + strstart) && |syms| < symEnd && Tokens() == old(Tokens())
      ensures FullBlocks()
      ensures if bflush then syms == [] && (stop <==> availOut == 0)
        else !stop && syms == old(syms) && availOut == old(availOut)
    {
      hide WindowOk, Tallied;
      stop := false;
      if bflush {
        FlushBlockOnly();
        stop := availOut == 0;
      }
    }

    // Positions and data have moved on together: what was tallied stays so.
    lemma TalliedMoved(d: seq<Byte>, block: int, pos: int)
      requires 0 <= block && 0 <= pos && Gives(flushed, d, 0, block, MaxDist()) && Gives(syms, d, block, pos, MaxDist())
      requires d <= data && base + blockStart == block && Sum(blocks) == |flushed|
      ensures Tallied(pos)
    {
      hide Gives;
      assert data == d + data[|d|..];
      GivesMore(flushed, d, data[|d|..], 0, block, MaxDist());
      GivesMore(syms, d, data[|d|..], block, pos, MaxDist());
    }

    // ----- deflate_slow -----

    // A match found at the previous position waits for a better one at this one.
    ghost predicate Waiting()
      reads this`matchAvailable, this`matchLength, this`matchStart, this`strstart, this`base, this`data
    {
      && 2 <= matchLength <= MAX_MATCH && (matchAvailable ==> strstart >= 1)
        && (!matchAvailable ==> matchLength == MIN_MATCH - 1)
      && (matchLength >= MIN_MATCH ==> MatchAt(data, base, strstart - 1, matchStart, matchLength, MaxDist()))
    }

    // One byte is held back while a decision is pending.
    function Held(): int
      reads this`matchAvailable
    {
      if matchAvailable then 1 else 0
    }

    // What holds between steps of deflate_slow, and between calls.
    ghost predicate SlowValid()
      reads this, window, head, prev
    {
      && Aligned() && Chained() && Caught() && HashReady(base + strstart) && |syms| < symEnd
      && Waiting() && Tallied(base + strstart - Held()) && Told(false) && Pends() && Covers(false, base + strstart)
    }

    // The search at the byte held back found the match that waits.
    ghost predicate Holds(len: nat, at: int)
      reads this`flushed, this`syms, this`log, this`data, this`ends, this`known, this`last, this`pend, this`base,
        this`strstart
    {
      && |Tokens()| == |log| && Sought(Ways(false), Read(), pend) && pend.pos == base + strstart - 1
      && pend.before == Pending(Ways(false), Tokens(), log) && (pend.before >= MIN_MATCH ==> pend.len > pend.before)
      && pend.len == len && (len >= MIN_MATCH ==> pend.at == base + at)
    }

    ghost predicate Pends()
      reads this`flushed, this`syms, this`log, this`data, this`ends, this`known, this`last, this`pend, this`base,
        this`strstart,
        this`matchAvailable, this`matchLength, this`matchStart
    {
      && |Tokens()| == |log|
      && if matchAvailable then Holds(matchLength, matchStart)
         else Pending(Ways(false), Tokens(), log) == MIN_MATCH - 1
    }

    // The position strstart has been inserted, if it could be.
    ghost predicate Stepped()
      reads this`data, this`base, this`owner, this`last, this`known, this`strstart, this`insert, this`lookahead,
        this`insH,
        this`ends, head, prev
    {
      && Sizes() && Chains(X()) && last < base + strstart + 1 - insert && insert <= strstart
        && (last == -1 || last + 2 < |data|) && Exactly(X(), known)
      && LateOnes(ends, base + strstart + 1 - insert, base + strstart + 1)
      && Caught() && HashReady(base + strstart + 1)
    }

    // The string at strstart enters the index, if there are three bytes of it.
    method InsertHere() returns (hashHead: int)
      requires Aligned() && Chained() && Caught() && HashReady(base + strstart) && Supplied() && lookahead >= 1
      modifies this`insH, this`owner, this`last, this`known, head, prev
      ensures Aligned() && Stepped() && HeadHere(hashHead) && last >= old(last)
      ensures Filled(old(known), known, base + strstart, base + strstart + 1, |data|)
    {
      hide Chains, WindowOk, Rolled, Leads, Known, Exactly;
      hashHead := NIL;
      if lookahead >= MIN_MATCH {
        hashHead := InsertString(strstart);
      }
    }

    // So the index goes one position further, and what was told stays so.
    method EnterHere(ghost greedy: bool) returns (hashHead: int)
      requires Aligned() && Chained() && Caught() && HashReady(base + strstart) && Supplied() && lookahead >= 1
      requires Told(greedy) && Covers(greedy, base + strstart)
      modifies this`insH, this`owner, this`last, this`known, head, prev
      ensures Aligned() && Stepped() && HeadHere(hashHead)
      ensures Told(greedy) && Covers(greedy, base + strstart + 1) && Grows(old(Read()), Read())
    {
      hide Aligned, Chained, Caught, HashReady, Stepped, HeadHere, Story, Covered, Grows, Filled, X;
      ghost var t, p := Read(), base + strstart;
      AheadIs();
      WaitingLate();
      hashHead := InsertHere();
      FilledGrows(t, Read(), p, p + 1);
      TellsOn(greedy, t);
      CoveredOn(Ways(greedy), t, Read(), log, p, p + 1);
    }

    // What INSERT_STRING has found: the link of the position just inserted.
    ghost predicate HeadHere(hashHead: int)
      reads this`data, this`base, this`owner, this`last, this`known, this`strstart, this`lookahead, head, prev
    {
      && prev.Length == wSize > 0 && hashHead >= 0 && (lookahead < MIN_MATCH ==> hashHead == NIL)
      && (lookahead >= MIN_MATCH ==>
        last == base + strstart && hashHead == prev[Slot(strstart, wSize)] && Known(X(), base + strstart))
      && (hashHead != NIL ==> Leads(X(), base + hashHead, base + strstart))
    }

    // One byte on.
    method Advance()
      requires Aligned() && Stepped() && lookahead >= 1
      modifies this`strstart, this`lookahead
      ensures Aligned() && Chained() && Caught() && HashReady(base + strstart)
      ensures strstart == old(strstart) + 1 && lookahead == old(lookahead) - 1
    {
      hide Chains, WindowOk, Rolled, Exactly;
      strstart := strstart + 1;
      lookahead := lookahead - 1;
    }

    lemma WaitingLate()
      requires Chained()
      ensures LateOnes(ends, base + strstart - insert, base + strstart) && last < base + strstart - insert
    {
      hide Chains, Exactly, LateOnes;
    }

    // An end of the input is where a call that flushes has used all of it.
    ghost predicate EndsOf(before: set<int>, flush: Flush)
      reads this`ends, this`data, this`input
    {
      before <= ends <= before + (if flush == NoFlush then {} else {|data + input|})
    }

    ghost method SeeEnd(flush: Flush)
      requires Chained() && (lookahead >= MIN_LOOKAHEAD || input == [])
      modifies this`ends
      ensures Chained() && (flush != NoFlush ==> Supplied()) && EndsOf(old(ends), flush)
    {
      hide Chains, Exactly;
      if lookahead < MIN_LOOKAHEAD && flush != NoFlush {
        LateMore(ends, ends + {|data|}, base + strstart - insert, base + strstart);
        ends := ends + {|data|};
      }
    }

    // Fills the window; pending matches and tallied symbols keep their meaning.
    method Refill(ghost flush: Flush)
      requires SlowValid() && lookahead < MIN_LOOKAHEAD
      modifies this`matchStart, this`strstart, this`blockStart, this`insert, this`base, this`input, this`data,
        this`lookahead,
        this`insH, this`owner, this`last, this`known, this`highWater, this`ends, window, head, prev
      ensures SlowValid() && |input| + lookahead == old(|input| + lookahead)
      ensures Steady(old(Ledger()), Ledger(), flush, symEnd)
      ensures strstart <= WindowSize() - MIN_LOOKAHEAD && (lookahead >= MIN_LOOKAHEAD || input == [])
      ensures flush != NoFlush ==> Supplied()
    {
      hide Aligned, Chained, Caught, HashReady, Gives, MatchAt, Sought, Story, Pending, Covered, Grows, Steady;
      ghost var d, b, s, m, block, t := data, base, strstart, matchStart, base + blockStart, Read();
      FillTold(false, flush);
      if matchLength >= MIN_MATCH {
        MatchMoved(d, b, s - 1, m, data, base, strstart - 1, matchStart, matchLength, MaxDist());
      }
      TalliedMoved(d, block, base + strstart - Held());
      PastStart();
      if matchAvailable { SoughtGrows(Ways(false), t, Read(), pend); }
    }

    // Fills the window; what was told stays so.
    method FillTold(ghost greedy: bool, ghost flush: Flush)
      requires Aligned() && Chained() && Caught() && HashReady(base + strstart) && lookahead < MIN_LOOKAHEAD
      requires Told(greedy) && Covers(greedy, base + strstart)
      modifies this`matchStart, this`strstart, this`blockStart, this`insert, this`base, this`input, this`data,
        this`lookahead,
        this`insH, this`owner, this`last, this`known, this`highWater, this`ends, window, head, prev
      ensures Aligned() && Chained() && Caught() && HashReady(base + strstart) &&
        Moved(old(base + strstart), old(base + matchStart), old(base + blockStart), old(data + input))
      ensures Told(greedy) && Covers(greedy, base + strstart) && Grows(old(Read()), Read()) && old(data) <= data
      ensures Steady(old(Ledger()), Ledger(), flush, symEnd) && |input| + lookahead == old(|input| + lookahead)
      ensures strstart <= WindowSize() - MIN_LOOKAHEAD && (lookahead >= MIN_LOOKAHEAD || input == [])
      ensures flush != NoFlush ==> Supplied()
    {
      hide Aligned, Chained, Caught, HashReady, Story, Covered, Grows, Added, LateOnes, Steady;
      ghost var t, lo := Read(), base + strstart - insert;
      WaitingLate();
      FillWindow();
      SeeEnd(flush);
      ReadSteady(old(Ledger()), Ledger(), flush, symEnd);
      AddedGrows(t, Read(), lo, base + strstart);
      TellsOn(greedy, t);
      CoveredLate(Ways(greedy), t, Read(), log, lo, base + strstart);
    }

    // What a search at strstart found: raw bytes at matchStart, and len of them kept.
    ghost function Seek(before: nat, raw: nat, len: nat): Search
      requires base + strstart >= 0
      reads this`base, this`strstart, this`lookahead, this`matchStart
    {
      Search(base + strstart, base, lookahead, before, raw, len, base + matchStart)
    }

    // The search was worth making: a position in the index, not too far back, leads on.
    predicate Worth(hashHead: int)
      reads this`strstart
    {
      hashHead != NIL && strstart - hashHead <= MaxDist()
    }

    // The search in the index stands for one in the data.
    lemma StandsHere(greedy: bool, hashHead: int, q: Search)
      requires Aligned() && Stepped() && lookahead >= MIN_MATCH && HeadHere(hashHead)
      requires q.pos == base + strstart && q.low == base
      ensures Stands(Ways(greedy), Read(), X(), strstart, Floor(), q)
    {
      hide Chains, WindowOk, Rolled, Leads, Known, Exactly, Pow2, HashSizes;
    }

    // Without a search there is nothing to find.
    lemma NotWorth(greedy: bool, hashHead: int, q: Search)
      requires Aligned() && Stepped() && lookahead >= MIN_MATCH && HeadHere(hashHead) && !Worth(hashHead)
      requires q.pos == base + strstart && q.low == base
      ensures Exhausted(Ways(greedy), Read(), q, MIN_MATCH - 1)
    {
      hide Chains, WindowOk, Rolled, Leads, Known, Exactly, NoneLonger, Exhausted, LinksOf, Slot, Stands, Sizes;
      StandsHere(greedy, hashHead, q);
      NothingLonger(Ways(greedy), Read(), X(), window[..], strstart, Floor(), q, MIN_MATCH - 1);
    }

    // A search that is worth making. Unless it is cut short, no candidate is longer than its result, and
    // what is found is what the rules choose.
    method SearchChain(ghost greedy: bool, hashHead: int) returns (len: nat)
      requires Aligned() && Stepped() && strstart <= WindowSize() - MIN_LOOKAHEAD && HeadHere(hashHead)
      requires Worth(hashHead) && 2 <= prevLength <= MAX_MATCH
      modifies this`matchStart
      ensures 2 <= len <= MAX_MATCH && len <= lookahead && lookahead >= MIN_MATCH && last == base + strstart
      ensures len > prevLength ==> MatchAt(data, base, strstart, matchStart, len, MaxDist())
      ensures len > prevLength ==>
        MatchAt(data, 0, base + strstart, base + matchStart, len, MaxDist())
        && First(Ways(greedy), Read(), Seek(prevLength, len, len))
      ensures Thorough(Ways(greedy), Seek(prevLength, len, len)) ==>
        Exhausted(Ways(greedy), Read(), Seek(prevLength, len, len), len)
    {
      hide Chains, WindowOk, Rolled, Leads, Known, MatchAt, Exactly, Exhausted, NoneLonger, Slot, CountDown, LinksOf,
        First, FirstBest;
      len := LongestMatch(hashHead);
      SeekFound(greedy, hashHead, len);
    }

    // What longest_match has found, in terms of the data.
    lemma SeekFound(greedy: bool, hashHead: int, raw: nat)
      requires Aligned() && Stepped() && lookahead >= MIN_MATCH && HeadHere(hashHead) && Worth(hashHead)
      requires 2 <= raw <= MAX_MATCH && 2 <= prevLength
      requires raw > prevLength ==> MatchAt(data, base, strstart, matchStart, raw, MaxDist())
      requires raw < lookahead && (raw < niceMatch || raw <= prevLength) ==>
        NoneLonger(X(), window[..], strstart, hashHead, Links(), Floor(), raw)
      requires raw > prevLength ==>
        matchStart > 0 && FirstBest(X(), window[..], strstart, hashHead, Links(), Floor(), matchStart, raw, lookahead,
                                    Upto(raw, prevLength, niceMatch))
      ensures raw > prevLength ==>
        MatchAt(data, 0, base + strstart, base + matchStart, raw, MaxDist())
        && First(Ways(greedy), Read(), Seek(prevLength, raw, raw))
      ensures raw < lookahead && raw < MAX_MATCH && (raw < niceMatch || raw <= prevLength) ==>
        Exhausted(Ways(greedy), Read(), Seek(prevLength, raw, raw), raw)
    {
      hide Chains, WindowOk, Rolled, Leads, Known, MatchAt, Exactly, Exhausted, NoneLonger, CountDown, Stands, First,
        FirstBest, Slot, Sizes;
      ghost var q := Seek(prevLength, raw, raw);
      StandsHere(greedy, hashHead, q);
      if raw > prevLength {
        MatchMoved(data, base, strstart, matchStart, data, 0, base + strstart, base + matchStart, raw, MaxDist());
        MatchBounds(data, base, strstart, matchStart, raw, MaxDist());
        FirstFound(Ways(greedy), Read(), X(), window[..], strstart, Floor(), q, matchStart);
      }
      if raw < lookahead && raw < MAX_MATCH && (raw < niceMatch || raw <= prevLength) {
        NothingLonger(Ways(greedy), Read(), X(), window[..], strstart, Floor(), q, raw);
      }
    }

    // What has been found is what the rules demand.
    lemma SeekSought(greedy: bool, before: nat, raw: nat, len: nat)
      requires Supplied() && lookahead >= 1 && base + strstart + lookahead == |data| && 2 <= raw <= MAX_MATCH
      requires (lookahead >= MIN_MATCH ==> base + strstart <= last) && (base > 0 ==> strstart >= MaxDist())
        && before >= 2
      requires raw > before ==>
        raw <= lookahead && MatchAt(data, 0, base + strstart, base + matchStart, raw, MaxDist())
        && First(Ways(greedy), Read(), Seek(before, raw, raw))
      requires !greedy && before >= maxLazyMatch ==> raw == 2
      requires Thorough(Ways(greedy), Seek(before, raw, raw)) ==>
        Exhausted(Ways(greedy), Read(), Seek(before, raw, raw), raw)
      requires len == if Dropped(Ways(greedy), Seek(before, raw, raw)) then 2 else raw
      ensures Sought(Ways(greedy), Read(), Seek(before, raw, len))
    {
      hide Exhausted, MatchAt, First;
      KeptSame(Ways(greedy), Read(), Seek(before, raw, raw), len);
    }

    // Where nothing was sought, or nothing is there.
    lemma NothingSought(greedy: bool, hashHead: int)
      requires Aligned() && Stepped() && HeadHere(hashHead) && Supplied() && lookahead >= 1 && prevLength >= 2
      requires greedy || prevLength < maxLazyMatch ==> !Worth(hashHead)
      ensures Sought(Ways(greedy), Read(), Seek(prevLength, 2, 2))
    {
      hide Aligned, Stepped, HeadHere, Exhausted, First, MatchAt, Sought;
      AheadIs();
      HeadLast(hashHead);
      if lookahead >= MIN_MATCH && (greedy || prevLength < maxLazyMatch) {
        NotWorth(greedy, hashHead, Seek(prevLength, 2, 2));
      }
      SeekSought(greedy, prevLength, 2, 2);
    }

    // A lazy search drops what is not worth while.
    lemma LazilyDropped(raw: nat, len: nat)
      requires base + strstart >= 0
      requires len == if raw <= 5 && (filtered || (raw == MIN_MATCH && strstart - matchStart > TOO_FAR))
        then MIN_MATCH - 1 else raw
      ensures len == if Dropped(Ways(false), Seek(prevLength, raw, raw)) then 2 else raw
    {
    }

    lemma AheadIs()
      requires Aligned()
      ensures base + strstart + lookahead == |data| && (base > 0 ==> strstart >= MaxDist())
    {
      hide WindowOk;
    }

    lemma PastStart()
      requires Aligned()
      ensures base > 0 ==> strstart >= 1
    {
      hide WindowOk, HashSizes, Pow2;
    }

    lemma HeadLast(hashHead: int)
      requires HeadHere(hashHead)
      ensures lookahead >= MIN_MATCH ==> last == base + strstart
    {
    }

    // prev_length and prev_match take over the last match; a longer one is searched for.
    method SearchLazily(hashHead: int) returns (ghost q: Search)
      requires Aligned() && Stepped() && Waiting() && strstart <= WindowSize() - MIN_LOOKAHEAD && HeadHere(hashHead)
      requires lookahead >= 1 && Supplied()
      modifies this`prevLength, this`prevMatch, this`matchLength, this`matchStart
      ensures prevLength == old(matchLength) && prevMatch == old(matchStart) && 2 <= matchLength <= MAX_MATCH
      ensures matchLength > prevLength ==> MatchAt(data, base, strstart, matchStart, matchLength, MaxDist())
      ensures Sought(Ways(false), Read(), q) && q.pos == base + strstart && q.before == prevLength
      ensures q.len == matchLength && q.at == base + matchStart
    {
      hide Aligned, Stepped, HeadHere, MatchAt, Exhausted, Sought, Waiting, First, X, Supplied, Dropped, Thorough, Ways,
        Read;
      AheadIs();
      WaitingBounds();
      HeadLast(hashHead);
      prevLength, prevMatch := matchLength, matchStart;
      matchLength := MIN_MATCH - 1;
      if hashHead != NIL && prevLength < maxLazyMatch && strstart - hashHead <= MaxDist() {
        q := SearchWorthwhile(hashHead);
      } else {
        NothingSought(false, hashHead);
        q := Seek(prevLength, 2, 2);
      }
    }

    // The search itself; a match too short to be worth while is dropped.
    method SearchWorthwhile(hashHead: int) returns (ghost q: Search)
      requires Aligned() && Stepped() && strstart <= WindowSize() - MIN_LOOKAHEAD && HeadHere(hashHead)
      requires Worth(hashHead) && 2 <= prevLength <= MAX_MATCH && prevLength < maxLazyMatch
      requires lookahead >= 1 && Supplied()
      modifies this`matchLength, this`matchStart
      ensures 2 <= matchLength <= MAX_MATCH
      ensures matchLength > prevLength ==> MatchAt(data, base, strstart, matchStart, matchLength, MaxDist())
      ensures Sought(Ways(false), Read(), q) && q == Seek(prevLength, q.raw, matchLength)
    {
      hide Aligned, Stepped, HeadHere, MatchAt, Exhausted, Sought, First, X, Supplied, Dropped, Thorough, Ways, Read;
      AheadIs();
      matchLength := SearchChain(false, hashHead);
      ghost var raw := matchLength;
      if matchLength <= 5 && (filtered || (matchLength == MIN_MATCH && strstart - matchStart > TOO_FAR)) {
        matchLength := MIN_MATCH - 1;
      }
      LazilyDropped(raw, matchLength);
      SeekSought(false, prevLength, raw, matchLength);
      q := Seek(prevLength, raw, matchLength);
    }

    lemma WaitingBounds()
      requires Waiting()
      ensures 2 <= matchLength <= MAX_MATCH
    {
    }

    // One byte on; its string is inserted if there are three bytes of it.
    method InsertNext(maxInsert: int)
      requires Sizes() && WindowOk(window[..], data, base) && Stepped() && insert == 0 && base + strstart + 1 < |data|
      requires maxInsert == |data| - base - MIN_MATCH && (base > 0 ==> strstart >= MaxDist())
      modifies this`strstart, this`insH, this`owner, this`last, this`known, head, prev
      ensures Stepped() && strstart == old(strstart) + 1 && last >= old(last)
      ensures Filled(old(known), known, base + strstart, base + strstart + 1, |data|)
    {
      hide Chains, WindowOk, Rolled, Leads, Known, Exactly, Pow2, HashSizes;
      strstart := strstart + 1;
      if strstart <= maxInsert {
        var hashHead := InsertString(strstart);
      }
    }

    // The strings up to the end of the match, as far as there are bytes for them.
    method InsertMatched(maxInsert: int)
      requires Sizes() && WindowOk(window[..], data, base) && Stepped() && insert == 0 && prevLength >= 1
      requires maxInsert == |data| - base - MIN_MATCH && base + strstart + prevLength < |data|
        && (base > 0 ==> strstart >= MaxDist())
      modifies this`strstart, this`prevLength, this`insH, this`owner, this`last, this`known, head, prev
      ensures Stepped() && strstart == old(strstart) + old(prevLength) && last >= old(last)
      ensures Filled(old(known), known, base + old(strstart) + 1, base + strstart + 1, |data|)
    {
      hide Chains, WindowOk, Rolled, HashReady, Exactly, Filled;
      NothingFilled(known, base + strstart + 1, |data|);
      while true
        invariant Stepped() && prevLength >= 1 && strstart + prevLength == old(strstart) + old(prevLength)
        invariant Filled(old(known), known, base + old(strstart) + 1, base + strstart + 1, |data|) && last >= old(last)
        decreases prevLength
      {
        ghost var before := known;
        InsertNext(maxInsert);
        FilledOn(old(known), before, known, base + old(strstart) + 1, base + strstart, base + strstart + 1, |data|);
        prevLength := prevLength - 1;
        if prevLength == 0 { break; }
      }
    }

    // strstart - 1 has been reached by InsertMatched: step past the match.
    method Land()
      requires Sizes() && WindowOk(window[..], data, base) && Stepped() && base + strstart + 1 + lookahead == |data|
      requires highWater <= WindowSize() && |data| - base <= WindowSize() && (base > 0 ==> strstart >= MaxDist())
      modifies this`strstart, this`matchAvailable, this`matchLength
      ensures Aligned() && Chained() && Caught() && HashReady(base + strstart) && Waiting() && !matchAvailable
      ensures strstart == old(strstart) + 1
    {
      hide Chains, WindowOk, HashReady, MatchAt, Sizes, Pow2, HashSizes, Exactly;
      matchAvailable := false;
      matchLength := MIN_MATCH - 1;
      strstart := strstart + 1;
    }

    // The rest of the previous match, which ends inside the lookahead, is inserted and stepped over.
    method PassMatch()
      requires Aligned() && Stepped() && lookahead >= 1 && MIN_MATCH <= prevLength && strstart >= 1
      requires base + strstart - 1 + prevLength <= |data| && prevLength <= MAX_MATCH && Supplied()
      modifies this`lookahead, this`prevLength, this`strstart, this`matchAvailable, this`matchLength,
        this`insH, this`owner, this`last, this`known, head, prev
      ensures Aligned() && Chained() && Caught() && HashReady(base + strstart) && Waiting() && !matchAvailable
      ensures lookahead < old(lookahead) && strstart == old(strstart) - 1 + old(prevLength) && last >= old(last)
      ensures Filled(old(known), known, base + old(strstart) + 1, base + strstart, |data|)
    {
      hide Chains, WindowOk, HashReady, Pow2, HashSizes, Sizes, Waiting, Chained;
      var maxInsert := strstart + lookahead - MIN_MATCH;
      lookahead := lookahead - (prevLength - 1);
      prevLength := prevLength - 2;
      InsertMatched(maxInsert);
      Land();
    }

    // The search at strstart, and the one before if its byte is held back.
    ghost predicate Weighed(q: Search)
      reads this`flushed, this`syms, this`log, this`data, this`ends, this`known, this`last, this`pend, this`base,
        this`strstart,
        this`matchAvailable, this`matchLength, this`matchStart, this`prevLength, this`prevMatch
    {
      && |Tokens()| == |log| && Sought(Ways(false), Read(), q) && q.pos == base + strstart && q.before == prevLength
      && q.len == matchLength && q.at == base + matchStart
      && if matchAvailable then Holds(prevLength, prevMatch)
         else prevLength == Pending(Ways(false), Tokens(), log) == MIN_MATCH - 1
    }

    // The previous match is not bettered: tally it and move to its end.
    method EmitPrevious(ghost q: Search) returns (bflush: bool)
      requires Aligned() && Stepped() && |syms| < symEnd && matchAvailable && strstart >= 1 && lookahead >= 1
      requires Tallied(base + strstart - 1) && MIN_MATCH <= prevLength && Supplied()
      requires MatchAt(data, base, strstart - 1, prevMatch, prevLength, MaxDist())
      requires Told(false) && Weighed(q) && q.len <= prevLength && Covers(false, base + strstart + 1)
      modifies this`syms, this`lookahead, this`prevLength, this`strstart, this`matchAvailable, this`matchLength,
        this`insH, this`owner, this`last, this`known, this`log, head, prev
      ensures Aligned() && Chained() && Caught() && HashReady(base + strstart) && Waiting() && !matchAvailable
      ensures Tallied(base + strstart) && |syms| <= symEnd && (bflush <==> |syms| == symEnd)
      ensures lookahead < old(lookahead) && Told(false) && Pends() && Covers(false, base + strstart)
      ensures old(Tokens()) <= Tokens() && old(log) <= log
    {
      hide Chains, WindowOk, Tallied, MatchAt, HashReady, Pow2, HashSizes, Sizes, Waiting, Chained, Sought, Story,
        Exactly, Weighed, Covered, Filled, Grows, Pending;
      MatchBounds(data, base, strstart - 1, prevMatch, prevLength, MaxDist());
      ghost var at, len := strstart - 1, prevLength;
      bflush := TallyPrevious(q);
      ghost var t := Read();
      BeforeHere();
      PassMatch();
      assert strstart == at + len;
      FilledGrows(t, Read(), base + at + 2, base + strstart);
      TellsOn(false, t);
      AheadIs();
      CoveredOn(Ways(false), t, Read(), log, base + at + 2, base + strstart);
    }

    // What is in the index lies before the next position.
    lemma BeforeHere()
      requires Stepped()
      ensures last < base + strstart + 1 && forall a :: a in known ==> a <= last
    {
      hide Chains, Known;
      forall a | a in known ensures a <= last {
        assert Known(X(), a);
        KnownLive(X(), a);
      }
    }

    method TallyPrevious(ghost q: Search) returns (bflush: bool)
      requires Aligned() && |syms| < symEnd && matchAvailable && strstart >= 1
      requires Tallied(base + strstart - 1) && MIN_MATCH <= prevLength
      requires MatchAt(data, base, strstart - 1, prevMatch, prevLength, MaxDist())
      requires Told(false) && Weighed(q) && q.len <= prevLength && Covers(false, base + strstart + 1)
      modifies this`syms, this`log
      ensures Tallied(base + strstart - 1 + prevLength) && |syms| <= symEnd && (bflush <==> |syms| == symEnd)
      ensures Told(false) && Covers(false, base + strstart + 1) && old(Tokens()) <= Tokens() && old(log) <= log
      ensures |Tokens()| == |log| && Pending(Ways(false), Tokens(), log) == MIN_MATCH - 1
    {
      hide WindowOk, MatchAt, Sizes, Sought, Story, Covered, Gives, Tallied;
      MatchBounds(data, base, strstart - 1, prevMatch, prevLength, MaxDist());
      ghost var was, log0 := Tokens(), log;
      TalliedLength(base + strstart - 1);
      bflush := TallyDist(strstart - 1 - prevMatch, prevLength - MIN_MATCH, strstart - 1, prevMatch);
      Tell(false, was, Match(prevLength, strstart - 1 - prevMatch), Choice(pend, q));
      CoveredLazily(Ways(false), Read(), log0, log, base + strstart + 1);
    }

    // A literal for the byte held back: there is no match for it, or the next one, q, is longer.
    method EmitHeld(ghost len: nat, ghost at: int, ghost q: Search) returns (bflush: bool)
      requires Aligned() && matchAvailable && strstart >= 1 && Tallied(base + strstart - 1) && |syms| < symEnd
      requires Told(false) && Holds(len, at)
      requires len >= MIN_MATCH ==>
        q.pos == base + strstart && q.before == len < q.len && Sought(Ways(false), Read(), q)
      modifies this`syms, this`log
      ensures Tallied(base + strstart) && |syms| <= symEnd && (bflush <==> |syms| == symEnd)
      ensures Told(false) && |log| == |Tokens()| > 0 && Pending(Ways(false), Tokens(), log) == len
      ensures old(Tokens()) <= Tokens() && old(log) <= log
    {
      hide WindowOk, Gives, Sought, Story;
      ghost var was := Tokens();
      WindowAt(window[..], data, base, strstart - 1);
      TalliedLength(base + strstart - 1);
      bflush := TallyLit(window[strstart - 1], base + strstart - 1);
      Tell(false, was, Literal(window[strstart - 1]), Choice(pend, q));
    }

    // The same, and the block is handed over if the symbols have filled their buffer.
    method HeldOut(ghost len: nat, ghost at: int, ghost q: Search)
      requires Aligned() && matchAvailable && strstart >= 1 && Tallied(base + strstart - 1) && |syms| < symEnd
      requires Told(false) && Holds(len, at) && Covers(false, base + strstart + 1)
      requires len >= MIN_MATCH ==>
        q.pos == base + strstart && q.before == len < q.len && Sought(Ways(false), Read(), q)
      modifies this`syms, this`flushed, this`blocks, this`blockStart, this`availOut, this`log
      ensures Aligned() && Tallied(base + strstart) && |syms| < symEnd
      ensures Told(false) && |log| == |Tokens()| > 0 && Pending(Ways(false), Tokens(), log) == len
      ensures old(Tokens()) <= Tokens() && old(log) <= log && FullBlocks() && Covers(false, base + strstart + 1)
    {
      hide WindowOk, Tallied, Sought, Story, Pending, Holds, Covered;
      ghost var log0 := log;
      var bflush := EmitHeld(len, at, q);
      CoveredLazily(Ways(false), Read(), log0, log, base + strstart + 1);
      if bflush { FlushBlockOnly(); }
    }

    // After the search: the previous match and the one at this position, if they are matches.
    ghost predicate Searched()
      reads this, window, head, prev
    {
      && Aligned() && Stepped() && Supplied() && |syms| < symEnd && lookahead >= 1 && (matchAvailable ==> strstart >= 1)
      && Tallied(base + strstart - Held()) && 2 <= matchLength <= MAX_MATCH && 2 <= prevLength
      && (!matchAvailable ==> prevLength == MIN_MATCH - 1)
      && (prevLength >= MIN_MATCH ==> MatchAt(data, base, strstart - 1, prevMatch, prevLength, MaxDist()))
      && (matchLength > prevLength ==> MatchAt(data, base, strstart, matchStart, matchLength, MaxDist()))
      && Told(false) && Covers(false, base + strstart + 1)
    }

    // Everything tallied and told stays, and the input is used.
    twostate predicate Onward()
      reads this
    {
      && Steady(old(Ledger()), Ledger(), NoFlush, symEnd)
      && data == old(data) && input == old(input) && ends == old(ends) && lookahead < old(lookahead)
    }

    method PreviousWins(ghost q: Search) returns (stop: bool)
      requires Searched() && Weighed(q) && prevLength >= MIN_MATCH && matchLength <= prevLength
      modifies this, head, prev
      ensures SlowValid() && Onward() && (stop ==> availOut == 0)
    {
      hide Chains, WindowOk, HashReady, Gives, MatchAt, Pow2, HashSizes, Sizes, Sought, Story, Pending, Exactly,
        Covered, Steady;
      var bflush := EmitPrevious(q);
      stop := FlushBlock(bflush);
      StepSteady(old(Ledger()), Ledger(), symEnd);
    }

    // One byte on, which is held back with the search made at it.
    method HoldNext(ghost q: Search)
      requires Aligned() && Stepped() && Supplied() && lookahead >= 1 && |syms| < symEnd && matchAvailable
      requires Tallied(base + strstart) && Told(false) && Covers(false, base + strstart + 1)
      requires 2 <= matchLength <= MAX_MATCH
      requires matchLength >= MIN_MATCH ==> MatchAt(data, base, strstart, matchStart, matchLength, MaxDist())
      requires |Tokens()| == |log| && Sought(Ways(false), Read(), q) && q.pos == base + strstart
      requires q.before == Pending(Ways(false), Tokens(), log) && (q.before >= MIN_MATCH ==> q.len > q.before)
      requires q.len == matchLength && q.at == base + matchStart
      modifies this`pend, this`strstart, this`lookahead
      ensures SlowValid() && lookahead == old(lookahead) - 1
    {
      hide Aligned, Stepped, Chained, Caught, HashReady, Tallied, MatchAt, Sought, Story, Pending, Covered, Tokens;
      pend := q;
      Advance();
    }

    method HeldGoes(ghost q: Search) returns (stop: bool)
      requires Searched() && Weighed(q) && matchAvailable && !(prevLength >= MIN_MATCH && matchLength <= prevLength)
      modifies this, head, prev
      ensures SlowValid() && Onward() && (stop ==> availOut == 0)
    {
      hide Aligned, Stepped, Chained, Caught, HashReady, Tallied, MatchAt, Sought, Story, Pending, Covered, Steady,
        SlowValid;
      HeldOut(prevLength, prevMatch, q);
      HoldNext(q);
      StepSteady(old(Ledger()), Ledger(), symEnd);
      stop := availOut == 0;
    }

    method HoldBack(ghost q: Search)
      requires Searched() && Weighed(q) && !matchAvailable
      modifies this, head, prev
      ensures SlowValid() && Onward()
    {
      hide Aligned, Stepped, Chained, Caught, HashReady, Tallied, MatchAt, Sought, Story, Pending, Covered, Steady,
        SlowValid;
      matchAvailable := true;
      HoldNext(q);
      StepSteady(old(Ledger()), Ledger(), symEnd);
    }

    // The string at strstart enters the index, and a match longer than the one that waits is searched for.
    method FindLazily() returns (ghost q: Search)
      requires SlowValid() && lookahead >= 1 && strstart <= WindowSize() - MIN_LOOKAHEAD && Supplied()
      modifies this`prevLength, this`prevMatch, this`matchLength, this`matchStart, this`insH, this`owner, this`last,
        this`known,
        head, prev
      ensures Searched() && Weighed(q)
    {
      hide Chains, WindowOk, HashReady, Gives, MatchAt, Pow2, HashSizes, Leads, Sizes, Chained, Caught, Sought, Story,
        Pending, Exactly, HeadHere, Covered, Grows, Filled, Aligned, X, LateOnes, Stepped;
      ghost var t := Read();
      var hashHead := EnterHere(false);
      if matchAvailable { SoughtGrows(Ways(false), t, Read(), pend); }
      q := SearchLazily(hashHead);
    }

    // One step of deflate_slow; stop tells that the output space is used up.
    method SlowStep() returns (stop: bool)
      requires SlowValid() && lookahead >= 1 && strstart <= WindowSize() - MIN_LOOKAHEAD && Supplied()
      modifies this, head, prev
      ensures SlowValid() && Onward() && (stop ==> availOut == 0)
    {
      hide SlowValid, Searched, Weighed, Steady;
      stop := false;
      ghost var q := FindLazily();
      if prevLength >= MIN_MATCH && matchLength <= prevLength {
        stop := PreviousWins(q);
      } else if matchAvailable {
        stop := HeldGoes(q);
      } else {
        HoldBack(q);
      }
    }

    // Everything read has been emitted: the tokens flushed replay to the input.
    ghost predicate AllEmitted()
      reads this`input, this`syms, this`flushed, this`data
    {
      input == [] && syms == [] && Gives(flushed, data, 0, |data|, MaxDist())
    }

    // A finish has been started only when all is read and tallied and the last block handed over, for
    // want of output space; it is done or started only when asked for.
    predicate Ended(r: BlockState, flush: Flush)
      reads this`availOut, this`input, this`syms
    {
      && (r == FinishStarted ==> availOut == 0 && input == [] && syms == [])
      && (r == FinishStarted || r == FinishDone ==> flush == Finish)
      && (r == BlockDone ==> flush != Finish)
    }

    // With nothing ahead the last two positions are late ones.
    lemma LastLate(n: nat)
      requires Aligned() && lookahead == 0 && |data| in ends && n <= 2
      ensures LateOnes(ends, base + strstart - n, base + strstart)
    {
      hide WindowOk;
      assert base + strstart == |data|;
    }

    // The end of a call that has used up its input.
    method CloseBlocks(flush: Flush) returns (r: BlockState)
      requires Aligned() && Chained() && Caught() && lookahead == 0 && input == [] && Tallied(base + strstart)
      requires |data| in ends
      modifies this`insert, this`syms, this`flushed, this`blocks, this`blockStart, this`availOut
      ensures Aligned() && Chained() && Caught() && HashReady(base + strstart) && Tallied(base + strstart)
      ensures syms == [] && (r == BlockDone || r == FinishDone ==> AllEmitted())
      ensures (flush == Finish ==> r == FinishStarted || r == FinishDone) && (r == NeedMore ==> availOut == 0)
      ensures r == FinishStarted || r == FinishDone ==> flush == Finish
      ensures r == FinishStarted ==> availOut == 0
      ensures Tokens() == old(Tokens()) && old(flushed) <= flushed && (r == NeedMore ==> old(syms) != [])
      ensures OneMore(old(blocks), blocks)
    {
      hide Chains, WindowOk, Gives, Rolled, Exactly, Sizes, LateOnes;
      LastLate(if strstart < MIN_MATCH - 1 then strstart else MIN_MATCH - 1);
      insert := if strstart < MIN_MATCH - 1 then strstart else MIN_MATCH - 1;
      if flush == Finish {
        FlushBlockOnly();
        if availOut == 0 { return FinishStarted; }
        EmptySyms();
        return FinishDone;
      }
      if syms != [] {
        FlushBlockOnly();
        if availOut == 0 { return NeedMore; }
      }
      r := BlockDone;
      EmptySyms();
    }

    // No symbols pending: the flushed blocks give everything up to the current position.
    lemma EmptySyms()
      requires Aligned() && lookahead == 0 && Tallied(base + strstart) && syms == []
      ensures Gives(flushed, data, 0, |data|, MaxDist())
    {
      hide WindowOk;
      GivesLength(syms, data, base + blockStart, base + strstart, MaxDist());
    }

    // Something was done since: less of the input is left.
    twostate predicate Moving()
      reads this`input, this`lookahead
    {
      |input| + lookahead < old(|input| + lookahead)
    }

    // The call is left early only for want of input, or of output space; then it has got on.
    twostate predicate Waits(r: BlockState, flush: Flush)
      reads this`input, this`lookahead, this`availOut
    {
      r == NeedMore ==>
        || (flush == NoFlush && input == [] && lookahead < MIN_LOOKAHEAD)
        || (availOut == 0 && (Moving() || (input == [] && lookahead == 0)))
    }

    // deflate_slow, with lazy matching.
    method DeflateSlow(flush: Flush) returns (r: BlockState)
      requires SlowValid()
      modifies this, window, head, prev
      ensures SlowValid() && Carried(old(Ledger()), Ledger(), flush, symEnd) && Waits(r, flush) && Ended(r, flush)
      ensures r == BlockDone || r == FinishDone ==> AllEmitted()
    {
      hide SlowValid, AllEmitted, Steady, Carried, Closes, Ledger;
      ghost var start := Ledger();
      SteadySame(start, flush, symEnd);
      while true
        invariant SlowValid() && Steady(start, Ledger(), flush, symEnd)
        invariant |input| + lookahead <= old(|input| + lookahead)
        decreases |input| + lookahead
      {
        ghost var was := Ledger();
        if lookahead < MIN_LOOKAHEAD {
          Refill(flush);
          SteadyOn(start, was, Ledger(), flush, symEnd);
          SteadyCarried(start, Ledger(), flush, symEnd);
          if lookahead < MIN_LOOKAHEAD && flush == NoFlush { return NeedMore; }
          if lookahead == 0 { break; }
          was := Ledger();
        }
        RoomToSearch(Lazy);
        var stop := SlowStep();
        SteadyOn(start, was, Ledger(), flush, symEnd);
        SteadyCarried(start, Ledger(), flush, symEnd);
        if stop { return NeedMore; }
      }
      assert flush != NoFlush;
      ghost var before := Ledger();
      r := SlowEnd(flush);
      EndCarried(start, before, Ledger(), flush, symEnd);
    }

    lemma RoomToSearch(strategy: Strategy)
      requires Valid(strategy)
      ensures lookahead >= MIN_LOOKAHEAD ==> strstart <= WindowSize() - MIN_LOOKAHEAD
      ensures strstart + lookahead <= WindowSize()
    {
      hide WindowOk, Chained, Tallied, Story, RunStory, Sought, MatchAt, Covered;
    }

    // A byte still held back goes out as a literal.
    method LastHeld()
      requires SlowValid() && lookahead == 0 && input == []
      modifies this`syms, this`log, this`matchAvailable
      ensures Aligned() && Chained() && Caught() && HashReady(base + strstart) && Waiting() && !matchAvailable
      ensures Tallied(base + strstart) && Covers(false, base + strstart) && Told(false) && Pends()
      ensures old(Tokens()) <= Tokens() && old(log) <= log
    {
      hide Chains, WindowOk, Gives, Rolled, MatchAt, Pow2, HashSizes, Sought, Story, Exactly, Sizes, Covered;
      if matchLength >= MIN_MATCH { MatchBounds(data, base, strstart - 1, matchStart, matchLength, MaxDist()); }
      if matchAvailable {
        ghost var log0 := log;
        var bflush := EmitHeld(matchLength, matchStart, pend);
        CoveredLazily(Ways(false), Read(), log0, log, base + strstart);
        matchAvailable := false;
      }
    }

    method SlowEnd(flush: Flush) returns (r: BlockState)
      requires SlowValid() && lookahead == 0 && input == [] && |data| in ends
      modifies this`insert, this`syms, this`flushed, this`blocks, this`blockStart, this`availOut, this`log,
        this`matchAvailable
      ensures SlowValid() && (r == BlockDone || r == FinishDone ==> AllEmitted())
      ensures (r == NeedMore ==> availOut == 0) && Ended(r, flush) && Closes(old(Ledger()), Ledger())
    {
      hide Aligned, Chained, Caught, HashReady, MatchAt, Sought, Story, AllEmitted, Tallied, Covered;
      LastHeld();
      r := CloseBlocks(flush);
    }

    // ----- deflate_fast -----

    // What holds between steps of deflate_fast, and between calls.
    ghost predicate FastValid()
      reads this, window, head, prev
    {
      && Aligned() && Chained() && Caught() && HashReady(base + strstart) && |syms| < symEnd
      && !matchAvailable && matchLength < MIN_MATCH && prevLength == MIN_MATCH - 1 && Tallied(base + strstart)
      && Told(true) && Covers(true, base + strstart)
    }

    // A match too long to insert its strings: the hash starts afresh behind it.
    method RestartHash()
      requires Sizes() && WindowOk(window[..], data, base) && strstart + 1 < WindowSize()
      modifies this`insH
      ensures HashReady(base + strstart)
    {
      hide WindowOk, Rolled, Update;
      ghost var a := base + strstart;
      if a + 2 < |data| {
        WindowAt(window[..], data, base, strstart);
        WindowAt(window[..], data, base, strstart + 1);
      }
      insH := window[strstart];
      RolledStart(window[strstart], window[strstart + 1], hashBits, hashShift);
      insH := Update(insH, window[strstart + 1], hashBits, hashShift);
    }

    // One byte on; its string is inserted.
    method InsertNow()
      requires Sizes() && WindowOk(window[..], data, base) && Stepped() && insert == 0
      requires base + strstart + MIN_MATCH < |data|
      modifies this`strstart, this`insH, this`owner, this`last, this`known, head, prev
      ensures Stepped() && strstart == old(strstart) + 1 && last >= old(last)
      ensures Filled(old(known), known, base + strstart, base + strstart + 1, |data|)
    {
      hide Chains, WindowOk, Rolled, Leads, Known, Exactly, Pow2, HashSizes;
      strstart := strstart + 1;
      var hashHead := InsertString(strstart);
    }

    // The strings of a short match; there are always three bytes ahead of them.
    method InsertShort()
      requires Sizes() && WindowOk(window[..], data, base) && Stepped() && insert == 0 && last == base + strstart
      requires matchLength >= 1 && base + strstart + matchLength + MIN_MATCH <= |data|
      modifies this`strstart, this`matchLength, this`insH, this`owner, this`last, this`known, head, prev
      ensures Stepped() && strstart == old(strstart) + old(matchLength) && matchLength == 0 && last >= old(last)
      ensures Filled(old(known), known, base + old(strstart) + 1, base + strstart + 1, |data|)
    {
      hide Chains, WindowOk, Rolled, HashReady, Exactly, Filled;
      NothingFilled(known, base + strstart + 1, |data|);
      while true
        invariant Stepped() && matchLength >= 1 && strstart + matchLength == old(strstart) + old(matchLength)
        invariant Filled(old(known), known, base + old(strstart) + 1, base + strstart + 1, |data|) && last >= old(last)
        decreases matchLength
      {
        ghost var before := known;
        InsertNow();
        FilledOn(old(known), before, known, base + old(strstart) + 1, base + strstart, base + strstart + 1, |data|);
        matchLength := matchLength - 1;
        if matchLength == 0 { break; }
      }
    }

    // Past the match just tallied, with or without inserting its strings.
    method SkipMatch()
      requires Sizes() && WindowOk(window[..], data, base) && Stepped() && insert == 0 && last == base + strstart
      requires MIN_MATCH <= matchLength <= MAX_MATCH && base + strstart + matchLength + lookahead == |data|
      requires strstart <= WindowSize() - MIN_LOOKAHEAD && |data| - base <= WindowSize() && highWater <= WindowSize()
      requires base > 0 ==> strstart >= MaxDist()
      modifies this`strstart, this`matchLength, this`insH, this`owner, this`last, this`known, head, prev
      ensures Aligned() && Chained() && Caught() && HashReady(base + strstart) && matchLength == 0
      ensures strstart == old(strstart) + old(matchLength) && last >= old(last)
      ensures if old(matchLength) <= maxLazyMatch && lookahead >= MIN_MATCH
        then Filled(old(known), known, base + old(strstart) + 1, base + strstart, |data|) else known == old(known)
    {
      hide Chains, WindowOk, HashReady, Leads, Known, Pow2, HashSizes, Exactly, Filled;
      if matchLength <= maxLazyMatch && lookahead >= MIN_MATCH {
        matchLength := matchLength - 1;
        InsertShort();
        strstart := strstart + 1;
      } else {
        strstart := strstart + matchLength;
        matchLength := 0;
        RestartHash();
      }
    }

    // What a greedy search must have found.
    ghost predicate Greedily(q: Search)
      reads this`data, this`ends, this`known, this`last, this`base, this`strstart, this`lookahead, this`matchLength,
        this`matchStart
    {
      && Sought(Ways(true), Read(), q) && q.pos == base + strstart && q.before == MIN_MATCH - 1
      && q.ahead == lookahead && q.at == base + matchStart
      && q.len == if matchLength >= MIN_MATCH then matchLength else MIN_MATCH - 1
    }

    method TallyMatch(ghost q: Search) returns (bflush: bool)
      requires Aligned() && |syms| < symEnd && Tallied(base + strstart) && MIN_MATCH <= matchLength
      requires MatchAt(data, base, strstart, matchStart, matchLength, MaxDist()) && Told(true) && Greedily(q)
      modifies this`syms, this`log
      ensures Tallied(base + strstart + matchLength) && |syms| <= symEnd && (bflush <==> |syms| == symEnd)
      ensures Told(true) && log == old(log) + [Choice(q, q)] && old(Tokens()) <= Tokens()
    {
      hide WindowOk, Gives, MatchAt, Sizes, Sought, Story, Tallied;
      MatchBounds(data, base, strstart, matchStart, matchLength, MaxDist());
      ghost var was := Tokens();
      TalliedLength(base + strstart);
      bflush := TallyDist(strstart - matchStart, matchLength - MIN_MATCH, strstart, matchStart);
      TellGreedily(was, Match(matchLength, strstart - matchStart), q);
    }

    method EmitMatch(ghost q: Search) returns (bflush: bool)
      requires Aligned() && Stepped() && |syms| < symEnd && Tallied(base + strstart) && MIN_MATCH <= matchLength
      requires MatchAt(data, base, strstart, matchStart, matchLength, MaxDist()) && last == base + strstart
        && lookahead >= MIN_MATCH
      requires strstart <= WindowSize() - MIN_LOOKAHEAD
      requires Told(true) && Covers(true, base + strstart + 1) && Greedily(q)
      modifies this`syms, this`lookahead, this`strstart, this`matchLength, this`insH, this`owner, this`last, this`known,
        this`log, head, prev
      ensures Aligned() && Chained() && Caught() && HashReady(base + strstart) && matchLength == 0
      ensures Tallied(base + strstart) && |syms| <= symEnd && (bflush <==> |syms| == symEnd)
        && lookahead < old(lookahead)
      ensures Told(true) && Covers(true, base + strstart) && old(Tokens()) <= Tokens() && old(log) <= log
    {
      hide Chains, WindowOk, Tallied, MatchAt, HashReady, Pow2, HashSizes, Sizes, Chained, Sought, Story, Covered,
        Exactly, Inside, Filled, Grows;
      MatchBounds(data, base, strstart, matchStart, matchLength, MaxDist());
      ghost var at, len, log0 := strstart, matchLength, log;
      bflush := TallyMatch(q);
      BeforeHere();
      ghost var t := Read();
      lookahead := lookahead - matchLength;
      SkipMatch();
      assert strstart == at + len;
      SkipCovers(t, log0, q, len);
    }

    // What a match has inserted, or left out because it is too long or too little follows.
    lemma SkipCovers(t: Text, log0: seq<Choice>, q: Search, len: nat)
      requires Story(Ways(true), t, Tokens(), log) && Covered(Ways(true), t, log0, q.pos + 1)
      requires log == log0 + [Choice(q, q)] && q.len == len >= MIN_MATCH && base + strstart == q.pos + len <= |data|
      requires q.ahead == lookahead + len && base + strstart + lookahead == |data|
      requires t.data == data && t.ends == ends && t.last <= last && t.last < q.pos + 1
      requires forall a :: a in t.known ==> a <= t.last
      requires if len <= maxLazyMatch && lookahead >= MIN_MATCH
        then Filled(t.known, known, q.pos + 1, base + strstart, |data|) else known == t.known
      ensures Told(true) && Covers(true, base + strstart)
    {
      hide Story, Covered, Filled, Grows;
      ghost var r, lo, hi := Ways(true), q.pos + 1, base + strstart;
      if len <= maxLazyMatch && lookahead >= MIN_MATCH {
        FilledGrows(t, Read(), lo, hi);
        CoveredOn(r, t, Read(), log0, lo, hi);
        CoveredAll(r, Read(), log0, q, hi);
      } else {
        NothingFilled(known, lo, |data|);
        FilledGrows(t, Read(), lo, lo);
        CoveredOn(r, t, Read(), log0, lo, lo);
        CoveredBut(r, Read(), log0, q, lo, hi);
      }
      TellsOn(true, t);
    }

    ghost method TellGreedily(was: seq<Token>, token: Token, q: Search)
      requires Tokens() == was + [token] && Story(Ways(true), Read(), was, log) && TotalLength(was) == q.pos
      requires Sought(Ways(true), Read(), q) && q.before == MIN_MATCH - 1 && q.pos < |data|
      requires token == if q.len >= MIN_MATCH then Match(q.len, q.pos - q.at) else Literal(data[q.pos])
      modifies this`log
      ensures Told(true) && log == old(log) + [Choice(q, q)]
    {
      hide Story, Sought, TotalLength;
      assert |was| == |log| by { StorySame(Ways(true), Read(), was, log); }
      Tell(true, was, token, Choice(q, q));
    }

    method EmitLiteral(ghost q: Search) returns (bflush: bool)
      requires Aligned() && Stepped() && |syms| < symEnd && Tallied(base + strstart) && lookahead >= 1
      requires Told(true) && Covers(true, base + strstart + 1) && Greedily(q) && matchLength < MIN_MATCH && Supplied()
      modifies this`syms, this`lookahead, this`strstart, this`log
      ensures Aligned() && Chained() && Caught() && HashReady(base + strstart)
      ensures Tallied(base + strstart) && |syms| <= symEnd && (bflush <==> |syms| == symEnd)
        && lookahead < old(lookahead)
      ensures Told(true) && Covers(true, base + strstart) && old(Tokens()) <= Tokens() && old(log) <= log
    {
      hide Chains, WindowOk, Gives, HashReady, Pow2, HashSizes, Sizes, Chained, Caught, Sought, Story, Covered, Exactly;
      ghost var was, log0 := Tokens(), log;
      WindowAt(window[..], data, base, strstart);
      TalliedLength(base + strstart);
      bflush := TallyLit(window[strstart], base + strstart);
      TellGreedily(was, Literal(window[strstart]), q);
      CoveredAll(Ways(true), Read(), log0, q, base + strstart + 1);
      Advance();
    }

    // The greedy search.
    method SearchHere(hashHead: int) returns (ghost q: Search)
      requires Aligned() && Stepped() && matchLength < MIN_MATCH && prevLength == MIN_MATCH - 1
      requires strstart <= WindowSize() - MIN_LOOKAHEAD && HeadHere(hashHead) && lookahead >= 1 && Supplied()
      modifies this`matchLength, this`matchStart
      ensures matchLength >= MIN_MATCH ==> lookahead >= MIN_MATCH && last == base + strstart
      ensures matchLength >= MIN_MATCH ==> MatchAt(data, base, strstart, matchStart, matchLength, MaxDist())
      ensures Greedily(q)
    {
      hide Aligned, Stepped, HeadHere, MatchAt, Exhausted, Sought, First, X, Supplied, Thorough;
      AheadIs();
      HeadLast(hashHead);
      if hashHead != NIL && strstart - hashHead <= MaxDist() {
        matchLength := SearchChain(true, hashHead);
        SeekSought(true, prevLength, matchLength, matchLength);
        q := Seek(prevLength, matchLength, matchLength);
      } else {
        NothingSought(true, hashHead);
        q := Seek(prevLength, 2, 2);
      }
    }

    // The match just found, or a literal.
    method EmitFound(ghost q: Search) returns (bflush: bool)
      requires Aligned() && Stepped() && |syms| < symEnd && Tallied(base + strstart) && lookahead >= 1
      requires matchLength >= MIN_MATCH ==> lookahead >= MIN_MATCH && last == base + strstart
      requires matchLength >= MIN_MATCH ==> MatchAt(data, base, strstart, matchStart, matchLength, MaxDist())
      requires strstart <= WindowSize() - MIN_LOOKAHEAD
      requires Told(true) && Covers(true, base + strstart + 1) && Greedily(q) && Supplied()
      modifies this`syms, this`lookahead, this`strstart, this`matchLength, this`insH, this`owner, this`last, this`known,
        this`log, head, prev
      ensures Aligned() && Chained() && Caught() && HashReady(base + strstart) && matchLength < MIN_MATCH
      ensures Tallied(base + strstart) && |syms| <= symEnd && (bflush <==> |syms| == symEnd)
      ensures Told(true) && Covers(true, base + strstart) && old(Tokens()) <= Tokens() && old(log) <= log
      ensures lookahead < old(lookahead)
    {
      hide Aligned, Chained, Caught, Stepped, HashReady, MatchAt, Tallied, Sought, Story, Covered, Greedily, Sizes;
      if matchLength >= MIN_MATCH {
        bflush := EmitMatch(q);
      } else {
        bflush := EmitLiteral(q);
      }
    }

    method FindHere() returns (ghost q: Search)
      requires Aligned() && Chained() && Caught() && HashReady(base + strstart) && Supplied() && lookahead >= 1
      requires matchLength < MIN_MATCH && prevLength == MIN_MATCH - 1 && strstart <= WindowSize() - MIN_LOOKAHEAD
      requires Told(true) && Covers(true, base + strstart)
      modifies this`matchLength, this`matchStart, this`insH, this`owner, this`last, this`known, head, prev
      ensures Aligned() && Stepped() && Greedily(q) && Told(true) && Covers(true, base + strstart + 1)
      ensures matchLength >= MIN_MATCH ==> lookahead >= MIN_MATCH && last == base + strstart
      ensures matchLength >= MIN_MATCH ==> MatchAt(data, base, strstart, matchStart, matchLength, MaxDist())
    {
      hide Aligned, Chained, Caught, HashReady, Stepped, MatchAt, Sought, HeadHere, Story, Covered;
      var hashHead := EnterHere(true);
      q := SearchHere(hashHead);
    }

    // The same, and the block is handed over if the symbols have filled their buffer.
    method GiveOut(ghost q: Search) returns (stop: bool)
      requires Aligned() && Stepped() && |syms| < symEnd && Tallied(base + strstart) && lookahead >= 1
      requires matchLength >= MIN_MATCH ==> lookahead >= MIN_MATCH && last == base + strstart
      requires matchLength >= MIN_MATCH ==> MatchAt(data, base, strstart, matchStart, matchLength, MaxDist())
      requires strstart <= WindowSize() - MIN_LOOKAHEAD
      requires Told(true) && Covers(true, base + strstart + 1) && Greedily(q) && Supplied()
      modifies this`syms, this`lookahead, this`strstart, this`matchLength, this`insH, this`owner, this`last, this`known,
        this`log, this`flushed, this`blocks, this`blockStart, this`availOut, head, prev
      ensures Aligned() && Chained() && Caught() && HashReady(base + strstart) && matchLength < MIN_MATCH
      ensures Tallied(base + strstart) && |syms| < symEnd && lookahead < old(lookahead) && (stop ==> availOut == 0)
      ensures Told(true) && Covers(true, base + strstart) && old(Tokens()) <= Tokens() && old(log) <= log
      ensures FullBlocks()
    {
      hide Aligned, Chained, Caught, Stepped, HashReady, MatchAt, Tallied, Sought, Story, Covered, Greedily, Sizes;
      var bflush := EmitFound(q);
      stop := FlushBlock(bflush);
    }

    method FastStep() returns (stop: bool)
      requires FastValid() && lookahead >= 1 && strstart <= WindowSize() - MIN_LOOKAHEAD && Supplied()
      modifies this, head, prev
      ensures FastValid() && Onward() && (stop ==> availOut == 0)
    {
      hide Aligned, Chained, Caught, Stepped, HashReady, MatchAt, Tallied, Sought, Story, Covered, Greedily, Sizes,
        Steady;
      ghost var q := FindHere();
      stop := GiveOut(q);
      StepSteady(old(Ledger()), Ledger(), symEnd);
    }

    // Fills the window between steps of deflate_fast or deflate_rle.
    method RefillPlain(ghost flush: Flush)
      requires Aligned() && Chained() && Caught() && Tallied(base + strstart) && lookahead < MIN_LOOKAHEAD
      modifies this`matchStart, this`strstart, this`blockStart, this`insert, this`base, this`input, this`data,
        this`lookahead,
        this`insH, this`owner, this`last, this`known, this`highWater, this`ends, window, head, prev
      ensures Aligned() && Chained() && Caught() && Tallied(base + strstart)
        && (old(HashReady(base + strstart)) ==> HashReady(base + strstart))
      ensures data + input == old(data + input) && old(data) <= data && |input| + lookahead == old(|input| + lookahead)
      ensures base + strstart == old(base + strstart)
      ensures strstart <= WindowSize() - MIN_LOOKAHEAD && (lookahead >= MIN_LOOKAHEAD || input == [])
        && (old(insert) == 0 ==> insert == 0)
      ensures Added(old(known), known, old(base + strstart - insert), base + strstart) && last >= old(last)
      ensures (flush != NoFlush ==> Supplied()) && EndsOf(old(ends), flush)
    {
      hide Chains, WindowOk, HashReady, Gives, Steady;
      ghost var d, block := data, base + blockStart;
      FillWindow();
      SeeEnd(flush);
      TalliedMoved(d, block, base + strstart);
    }

    method RefillFast(ghost flush: Flush)
      requires FastValid() && lookahead < MIN_LOOKAHEAD
      modifies this`matchStart, this`strstart, this`blockStart, this`insert, this`base, this`input, this`data,
        this`lookahead,
        this`insH, this`owner, this`last, this`known, this`highWater, this`ends, window, head, prev
      ensures FastValid() && |input| + lookahead == old(|input| + lookahead)
      ensures Steady(old(Ledger()), Ledger(), flush, symEnd)
      ensures strstart <= WindowSize() - MIN_LOOKAHEAD && (lookahead >= MIN_LOOKAHEAD || input == [])
      ensures flush != NoFlush ==> Supplied()
    {
      hide Aligned, Chained, Caught, HashReady, Gives, Story, Covered, Steady;
      ghost var d, block := data, base + blockStart;
      FillTold(true, flush);
      TalliedMoved(d, block, base + strstart);
    }

    method FastEnd(flush: Flush) returns (r: BlockState)
      requires FastValid() && lookahead == 0 && input == [] && |data| in ends
      modifies this`insert, this`syms, this`flushed, this`blocks, this`blockStart, this`availOut
      ensures FastValid() && (r == BlockDone || r == FinishDone ==> AllEmitted())
      ensures (r == NeedMore ==> availOut == 0) && Ended(r, flush) && Closes(old(Ledger()), Ledger())
    {
      hide Aligned, Chained, HashReady, Tallied, Story, Covered, AllEmitted;
      r := CloseBlocks(flush);
    }

    // deflate_fast, without lazy matching.
    method DeflateFast(flush: Flush) returns (r: BlockState)
      requires FastValid()
      modifies this, window, head, prev
      ensures FastValid() && Carried(old(Ledger()), Ledger(), flush, symEnd) && Waits(r, flush) && Ended(r, flush)
      ensures r == BlockDone || r == FinishDone ==> AllEmitted()
    {
      hide FastValid, AllEmitted, Steady, Carried, Closes, Ledger;
      ghost var start := Ledger();
      SteadySame(start, flush, symEnd);
      while true
        invariant FastValid() && Steady(start, Ledger(), flush, symEnd)
        invariant |input| + lookahead <= old(|input| + lookahead)
        decreases |input| + lookahead
      {
        ghost var was := Ledger();
        if lookahead < MIN_LOOKAHEAD {
          RefillFast(flush);
          SteadyOn(start, was, Ledger(), flush, symEnd);
          SteadyCarried(start, Ledger(), flush, symEnd);
          if lookahead < MIN_LOOKAHEAD && flush == NoFlush { return NeedMore; }
          if lookahead == 0 { break; }
          was := Ledger();
        }
        RoomToSearch(Greedy);
        var stop := FastStep();
        SteadyOn(start, was, Ledger(), flush, symEnd);
        SteadyCarried(start, Ledger(), flush, symEnd);
        if stop { return NeedMore; }
      }
      ghost var before := Ledger();
      r := FastEnd(flush);
      EndCarried(start, before, Ledger(), flush, symEnd);
    }

    // ----- deflate_rle -----

    // What holds between steps of deflate_rle: no strings wait to be inserted, and the
    // rolling hash is not kept up.
    ghost predicate RleValid()
      reads this, window, head, prev
    {
      && Aligned() && Chained() && insert == 0 && |syms| < symEnd && Tallied(base + strstart)
      && RunStory(data, ends, Tokens())
    }

    // How often the byte before strstart repeats, up to MAX_MATCH; 0 if not at least three times.
    method RunHere() returns (len: nat)
      requires Sizes() && strstart + MAX_MATCH < WindowSize()
      ensures len == 0 ==> strstart == 0 || !SameRun(window[..], strstart, strstart - 1, 0, MIN_MATCH)
      ensures len > 0 ==>
        MIN_MATCH <= len <= MAX_MATCH && strstart > 0 && SameRun(window[..], strstart, strstart - 1, 0, len)
        && (len == MAX_MATCH || window[strstart + len] != window[strstart - 1 + len])
    {
      hide SameRun;
      len := 0;
      if strstart > 0 {
        var p := window[strstart - 1];
        // each further byte is compared with its predecessor, which already equals p
        if p == window[strstart] && p == window[strstart + 1] && p == window[strstart + 2] {
          RunStarts(window[..], strstart);
          len := CompareStrings(window, strstart, strstart - 1);
        } else {
          NoRun(window[..], strstart);
        }
      }
    }

    // match_length is the whole run, cut to the lookahead; zero if there is none of three bytes.
    ghost predicate Measured()
      reads this`data, this`base, this`strstart, this`lookahead, this`matchLength
    {
      && matchLength <= lookahead && base + strstart >= 0
      && (matchLength == 0 <==> lookahead < MIN_MATCH || !Repeats(data, base + strstart, MIN_MATCH, 1))
      && (matchLength > 0 ==> MatchAt(data, base, strstart, strstart - 1, matchLength, MaxDist()))
      && (matchLength > 0 && matchLength != MAX_MATCH && matchLength != lookahead ==>
        !Repeats(data, base + strstart, matchLength + 1, 1))
    }

    method MeasureRun()
      requires Aligned() && strstart + MAX_MATCH < WindowSize()
      modifies this`matchLength
      ensures Measured() && (matchLength == 0 || matchLength >= MIN_MATCH)
    {
      hide Chains, WindowOk, MatchAt, SameRun, Pow2, HashSizes, Sizes, Repeats;
      matchLength := 0;
      if lookahead >= MIN_MATCH {
        DistPositive();
        SizesParts();
        var len := RunHere();
        if len >= MIN_MATCH {
          matchLength := if len > lookahead then lookahead else len;
          RunMatches(window[..], data, base, strstart, len, matchLength, MaxDist());
          RunRepeats(data, base, strstart, matchLength, MaxDist());
          RunEnds(window[..], data, base, strstart, len);
        } else {
          NoRepeat(window[..], data, base, strstart);
        }
      }
    }

    lemma RunIsToken()
      requires Measured() && base + strstart + lookahead == |data| && lookahead >= 1
      requires lookahead > MAX_MATCH || |data| in ends
      ensures base + strstart < |data|
      ensures RunToken(data, ends, base + strstart,
                       if matchLength > 0 then Match(matchLength, 1) else Literal(data[base + strstart]))
    {
      hide Repeats;
      if matchLength > 0 { RunRepeats(data, base, strstart, matchLength, MaxDist()); }
    }

    // n bytes on, without inserting anything.
    method StepOver(n: nat)
      requires Aligned() && Chained() && insert == 0 && n <= lookahead
      modifies this`lookahead, this`strstart
      ensures Aligned() && Chained() && strstart == old(strstart) + n && lookahead == old(lookahead) - n
    {
      hide Chains, WindowOk, Exactly, Sizes;
      lookahead := lookahead - n;
      strstart := strstart + n;
    }

    method RleMatch() returns (bflush: bool)
      requires RleValid() && Measured() && matchLength > 0 && (lookahead > MAX_MATCH || |data| in ends)
      modifies this`matchLength, this`syms, this`lookahead, this`strstart
      ensures Aligned() && Chained() && insert == 0 && |syms| <= symEnd
        && Tallied(base + strstart) && lookahead < old(lookahead)
      ensures (bflush <==> |syms| == symEnd) && RunStory(data, ends, Tokens()) && old(Tokens()) <= Tokens()
    {
      hide Chains, WindowOk, Gives, MatchAt, Pow2, HashSizes, Sizes, Tallied, RunStory, Exactly, Repeats, RunToken;
      ghost var was, n := Tokens(), base + strstart;
      TalliedLength(n);
      RunIsToken();
      MatchBounds(data, base, strstart, strstart - 1, matchLength, MaxDist());
      bflush := TallyDist(1, matchLength - MIN_MATCH, strstart, strstart - 1);
      RunStoryNext(data, ends, was, Match(matchLength, 1));
      StepOver(matchLength);
      matchLength := 0;
    }

    method RleLiteral() returns (bflush: bool)
      requires RleValid() && Measured() && matchLength == 0 && lookahead >= 1
        && (lookahead > MAX_MATCH || |data| in ends)
      modifies this`syms, this`lookahead, this`strstart
      ensures Aligned() && Chained() && insert == 0 && |syms| <= symEnd
        && Tallied(base + strstart) && lookahead < old(lookahead)
      ensures (bflush <==> |syms| == symEnd) && RunStory(data, ends, Tokens()) && old(Tokens()) <= Tokens()
    {
      hide Chains, WindowOk, Gives, MatchAt, Pow2, HashSizes, Sizes, Tallied, RunStory, Exactly, Repeats, RunToken;
      ghost var was, n := Tokens(), base + strstart;
      TalliedLength(n);
      RunIsToken();
      WindowAt(window[..], data, base, strstart);
      bflush := TallyLit(window[strstart], n);
      RunStoryNext(data, ends, was, Literal(data[n]));
      StepOver(1);
    }

    method RleStep() returns (stop: bool)
      requires RleValid() && lookahead >= 1 && strstart + MAX_MATCH < WindowSize()
      requires lookahead > MAX_MATCH || |data| in ends
      modifies this, head, prev
      ensures RleValid() && Onward() && (stop ==> availOut == 0)
    {
      hide Chained, Aligned, Tallied, Sizes, RunStory, Measured, Steady;
      MeasureRun();
      var bflush;
      if matchLength >= MIN_MATCH {
        bflush := RleMatch();
      } else {
        bflush := RleLiteral();
      }
      stop := FlushBlock(bflush);
      StepSteady(old(Ledger()), Ledger(), symEnd);
    }

    lemma DistPositive()
      requires Sizes()
      ensures MaxDist() >= 1
    {
    }

    method RefillRle(ghost flush: Flush)
      requires RleValid() && lookahead < MIN_LOOKAHEAD
      modifies this`matchStart, this`strstart, this`blockStart, this`insert, this`base, this`input, this`data,
        this`lookahead,
        this`insH, this`owner, this`last, this`known, this`highWater, this`ends, window, head, prev
      ensures RleValid() && |input| + lookahead == old(|input| + lookahead)
      ensures Steady(old(Ledger()), Ledger(), flush, symEnd)
      ensures strstart <= WindowSize() - MIN_LOOKAHEAD && (lookahead >= MIN_LOOKAHEAD || input == [])
      ensures flush != NoFlush ==> Supplied()
    {
      hide Aligned, Chained, HashReady, Tallied, RunStory, Steady;
      ghost var d, e := data, ends;
      RefillPlain(flush);
      ReadSteady(old(Ledger()), Ledger(), flush, symEnd);
      RunStoryGrows(d, data, e, ends, Tokens());
    }

    // deflate_rle: only matches of distance one.
    method DeflateRle(flush: Flush) returns (r: BlockState)
      requires RleValid()
      modifies this, window, head, prev
      ensures RleValid() && Carried(old(Ledger()), Ledger(), flush, symEnd) && Waits(r, flush) && Ended(r, flush)
      ensures r == BlockDone || r == FinishDone ==> AllEmitted()
    {
      hide RleValid, AllEmitted, Steady, Carried, Closes, Ledger;
      ghost var start := Ledger();
      SteadySame(start, flush, symEnd);
      while true
        invariant RleValid() && Steady(start, Ledger(), flush, symEnd)
        invariant |input| + lookahead <= old(|input| + lookahead)
        decreases |input| + lookahead
      {
        ghost var was := Ledger();
        if lookahead <= MAX_MATCH {
          RefillRle(flush);
          SteadyOn(start, was, Ledger(), flush, symEnd);
          SteadyCarried(start, Ledger(), flush, symEnd);
          if lookahead <= MAX_MATCH && flush == NoFlush { return NeedMore; }
          if lookahead == 0 { break; }
          was := Ledger();
        }
        RoomToSearch(Runs);
        var stop := RleStep();
        SteadyOn(start, was, Ledger(), flush, symEnd);
        SteadyCarried(start, Ledger(), flush, symEnd);
        if stop { return NeedMore; }
      }
      ghost var before := Ledger();
      r := CloseRle(flush);
      EndCarried(start, before, Ledger(), flush, symEnd);
    }

    // As CloseBlocks, but nothing is left for the hash table.
    method CloseRle(flush: Flush) returns (r: BlockState)
      requires RleValid() && lookahead == 0 && input == []
      modifies this`insert, this`syms, this`flushed, this`blocks, this`blockStart, this`availOut
      ensures RleValid() && (r == BlockDone || r == FinishDone ==> AllEmitted()) && (r == NeedMore ==> availOut == 0)
      ensures Ended(r, flush) && Closes(old(Ledger()), Ledger())
    {
      hide Chains, WindowOk, Gives, Pow2, HashSizes, RunStory, Exactly, Sizes;
      insert := 0;
      if flush == Finish {
        FlushBlockOnly();
        if availOut == 0 { return FinishStarted; }
        EmptySyms();
        return FinishDone;
      }
      if syms != [] {
        FlushBlockOnly();
        if availOut == 0 { return NeedMore; }
      }
      r := BlockDone;
      EmptySyms();
    }

    // ----- Sequences of calls -----

    // The invariant of a strategy.
    ghost predicate Valid(strategy: Strategy)
      reads this, window, head, prev
    {
      match strategy
      case Lazy => SlowValid()
      case Greedy => FastValid()
      case Runs => RleValid()
    }

    // Between two calls the caller sets next_in, avail_in and avail_out.
    method Supply(strategy: Strategy, chunk: seq<Byte>, space: nat)
      requires Valid(strategy)
      modifies this`input, this`availOut
      ensures Valid(strategy) && data == old(data) && input == old(input) + chunk && availOut == space
    {
      hide Aligned, Chained, Caught, HashReady, Waiting, Tallied, Told, Pends, Covers, RunStory, Tokens;
      input := input + chunk;
      availOut := space;
    }

    // The choice deflate makes by strategy and level.
    method Compress(strategy: Strategy, flush: Flush) returns (r: BlockState)
      requires Valid(strategy)
      modifies this, window, head, prev
      ensures Valid(strategy) && Carried(old(Ledger()), Ledger(), flush, symEnd) && Waits(r, flush) && Ended(r, flush)
      ensures r == BlockDone || r == FinishDone ==> AllEmitted()
    {
      hide SlowValid, FastValid, RleValid, AllEmitted;
      match strategy
      case Lazy => r := DeflateSlow(flush);
      case Greedy => r := DeflateFast(flush);
      case Runs => r := DeflateRle(flush);
    }

    method OneCall(strategy: Strategy, c: Call) returns (r: BlockState)
      requires Valid(strategy)
      modifies this, window, head, prev
      ensures Valid(strategy) && old(data) <= data && data + input == old(data + input) + c.chunk
      ensures r == BlockDone || r == FinishDone ==> AllEmitted()
      ensures old(Tokens()) <= Tokens() && old(log) <= log && old(flushed) <= flushed
      ensures forall e :: e in ends ==> e in old(ends) || (c.flush != NoFlush && e == |data + input|)
    {
      hide Valid, AllEmitted;
      ghost var before, left := data, input;
      Supply(strategy, c.chunk, c.space);
      r := Compress(strategy, c.flush);
      assert before + (left + c.chunk) == (before + left) + c.chunk;
    }

    // Any sequence of calls: nothing of their input is lost, and a call that ends with a block or
    // the stream done has handed over tokens that replay to all of it.
    method Calls(strategy: Strategy, calls: seq<Call>) returns (results: seq<BlockState>)
      requires Valid(strategy)
      modifies this, window, head, prev
      ensures Valid(strategy) && |results| == |calls| && old(data) <= data
      ensures data + input == old(data + input) + AllChunks(calls)
      ensures calls != [] && (results[|calls| - 1] == BlockDone || results[|calls| - 1] == FinishDone)
        ==> Gives(flushed, old(data + input) + AllChunks(calls), 0, |old(data + input)| + |AllChunks(calls)|, MaxDist())
      ensures old(Tokens()) <= Tokens() && old(log) <= log && old(flushed) <= flushed
      ensures forall e :: e in ends ==> e in old(ends) || EndsCall(calls, |old(data + input)|, e)
    {
      hide Valid, Gives, AllChunks, Tokens;
      results := [];
      ghost var all, d := data + input, data;
      NoChunks(calls[..0]);
      for i := 0 to |calls|
        invariant Valid(strategy) && |results| == i && d <= data && data + input == all + AllChunks(calls[..i])
        invariant i > 0 && (results[i - 1] == BlockDone || results[i - 1] == FinishDone) ==> AllEmitted()
        invariant old(Tokens()) <= Tokens() && old(log) <= log && old(flushed) <= flushed
        invariant forall e :: e in ends ==> e in old(ends) || EndsCall(calls, |all|, e)
      {
        OneMoreChunk(calls[..i + 1]);
        ghost var earlier := AllChunks(calls[..i]);
        var r := OneCall(strategy, calls[i]);
        results := results + [r];
        assert calls[..i + 1][..i] == calls[..i];
        assert (all + earlier) + calls[i].chunk == all + (earlier + calls[i].chunk);
        if calls[i].flush != NoFlush { EndOfCall(calls, |all|, i); }
      }
      assert calls[..|calls|] == calls;
      assert input == [] ==> data == data + input;
    }
  }

  lemma NoChunks(calls: seq<Call>)
    requires calls == []
    ensures AllChunks(calls) == []
  {
  }

  lemma {:induction false} OneMoreChunk(calls: seq<Call>)
    requires calls != []
    ensures AllChunks(calls) == AllChunks(calls[..|calls| - 1]) + calls[|calls| - 1].chunk
  {
    if |calls| > 1 {
      OneMoreChunk(calls[1..]);
      assert calls[1..][..|calls| - 2] == calls[..|calls| - 1][1..];
    }
  }
}
