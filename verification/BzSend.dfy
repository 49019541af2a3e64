// Writing a block (dep/bzip2/compress.c): the last pass of sendMTFValues, for any choice of
// selectors, and the block header of BZ2_compressBlock.
module BzSend {
  import opened Bits
  import opened BzBitStream
  import opened BzKraft
  import opened BzHuffmanLengths
  import opened BzHuffmanCodes
  import opened BzMtf
  import opened BzFormat

  // ----- Tables for the selected groups -----

  // How often value v is among the first n that are coded by table t.
  function Selected(mtfv: seq<int>, sel: seq<int>, t: int, v: int, n: nat): nat
    requires n <= |mtfv| && |sel| == (|mtfv| + (G_SIZE - 1)) / G_SIZE
  {
    if n == 0 then 0
    else Selected(mtfv, sel, t, v, n - 1) + if sel[(n - 1) / G_SIZE] == t && mtfv[n - 1] == v then 1 else 0
  }

  function SelectedAll(mtfv: seq<int>, sel: seq<int>, t: int, alphaSize: nat): (f: seq<int>)
    requires |sel| == (|mtfv| + (G_SIZE - 1)) / G_SIZE
    ensures |f| == alphaSize
  {
    seq(alphaSize, v => Selected(mtfv, sel, t, v, |mtfv|))
  }

  // The lengths are what is made for the frequencies of the values coded by table t.
  ghost predicate MadeFor(lens: seq<int>, mtfv: seq<int>, sel: seq<int>, t: int, alphaSize: nat)
    requires |sel| == (|mtfv| + (G_SIZE - 1)) / G_SIZE
  {
    exists tried :: Made(SelectedAll(mtfv, sel, t, alphaSize), alphaSize, tried, lens, MAX_SENT)
  }

  ghost predicate AllMade(tables: seq<seq<int>>, mtfv: seq<int>, sel: seq<int>, alphaSize: nat) {
    && |sel| == (|mtfv| + (G_SIZE - 1)) / G_SIZE
    && forall t :: 0 <= t < |tables| ==> MadeFor(tables[t], mtfv, sel, t, alphaSize)
  }

  // The frequencies of the values selected for table t.
  method CountFor(rfreq: array<int>, mtfv: seq<int>, sel: seq<int>, t: int, alphaSize: nat)
    requires rfreq.Length == alphaSize && InRange(mtfv, alphaSize) && |sel| == (|mtfv| + (G_SIZE - 1)) / G_SIZE
    modifies rfreq
    ensures forall v :: 0 <= v < alphaSize ==> rfreq[v] >= 0
    ensures Demand(rfreq[..], alphaSize) <= alphaSize + |mtfv|
    ensures rfreq[..] == SelectedAll(mtfv, sel, t, alphaSize)
  {
    hide Demand, InRange;
    for v := 0 to alphaSize
      invariant forall k :: 0 <= k < v ==> rfreq[k] == 0
    {
      rfreq[v] := 0;
    }
    DemandZero(rfreq[..], alphaSize);
    for i := 0 to |mtfv|
      invariant forall v :: 0 <= v < alphaSize ==> rfreq[v] == Selected(mtfv, sel, t, v, i)
      invariant Demand(rfreq[..], alphaSize) <= alphaSize + i
    {
      if sel[i / G_SIZE] == t {
        InRangeAt(mtfv, alphaSize, i);
        ghost var f := rfreq[..];
        DemandMore(f, alphaSize, mtfv[i]);
        rfreq[mtfv[i]] := rfreq[mtfv[i]] + 1;
        assert rfreq[..] == f[mtfv[i] := f[mtfv[i]] + 1];
      }
    }
  }

  lemma InRangeAt(s: seq<int>, n: int, i: nat)
    requires InRange(s, n) && i < |s|
    ensures 0 <= s[i] < n
  {
  }

  lemma {:induction false} DemandZero(f: seq<int>, n: nat)
    requires n <= |f| && forall v :: 0 <= v < n ==> f[v] == 0
    ensures Demand(f, n) == n
  {
    if n > 0 { DemandZero(f, n - 1); }
  }

  lemma {:induction false} DemandMore(f: seq<int>, n: nat, v: nat)
    requires n <= |f| && v < |f| && f[v] >= 0
    ensures Demand(f[v := f[v] + 1], n) <= Demand(f, n) + if v < n then 1 else 0
  {
    if n > 0 { DemandMore(f, n - 1, v); }
  }

  method MakeTable(mtfv: seq<int>, sel: seq<int>, t: int, alphaSize: nat) returns (lens: seq<int>)
    requires 2 <= alphaSize <= MAX_ALPHA_SIZE && InRange(mtfv, alphaSize) && |mtfv| <= 900001
    requires |sel| == (|mtfv| + (G_SIZE - 1)) / G_SIZE
    ensures Sendable(lens, alphaSize) && MadeFor(lens, mtfv, sel, t, alphaSize)
  {
    hide InRange, Demand, Kraft, Made, SelectedAll;
    var rfreq, len := new int[alphaSize], new int[alphaSize];
    CountFor(rfreq, mtfv, sel, t, alphaSize);
    ghost var freq := rfreq[..];
    ghost var tried := MakeCodeLengths(len, rfreq, alphaSize, MAX_SENT);
    assert len[..alphaSize] == len[..];
    lens := len[..];
    assert Made(freq, alphaSize, tried, lens, MAX_SENT);
  }

  method MakeTables(mtfv: seq<int>, sel: seq<int>, nGroups: nat, alphaSize: nat) returns (tables: seq<seq<int>>)
    requires 2 <= alphaSize <= MAX_ALPHA_SIZE && InRange(mtfv, alphaSize) && |mtfv| <= 900001
    requires |sel| == (|mtfv| + (G_SIZE - 1)) / G_SIZE
    ensures |tables| == nGroups && AllSendable(tables, alphaSize) && AllMade(tables, mtfv, sel, alphaSize)
  {
    hide InRange, Sendable, MadeFor;
    tables := [];
    for t := 0 to nGroups
      invariant |tables| == t && AllSendable(tables, alphaSize) && AllMade(tables, mtfv, sel, alphaSize)
    {
      var lens := MakeTable(mtfv, sel, t, alphaSize);
      tables := tables + [lens];
    }
  }

  // ----- Code words -----

  // The code words that belong to the lengths.
  ghost predicate Coded(code: seq<int>, lens: seq<int>) {
    |code| == |lens| && forall i :: 0 <= i < |lens| ==> lens[i] >= 0 && code[i] == Code(lens, i)
  }

  method AssignTable(lens: seq<int>, alphaSize: nat) returns (code: seq<int>)
    requires Sendable(lens, alphaSize)
    ensures Coded(code, lens)
  {
    hide Kraft, Code;
    var minLen, maxLen := 32, 0;
    for i := 0 to alphaSize
      invariant forall k :: 0 <= k < i ==> minLen <= lens[k] <= maxLen
      invariant 1 <= minLen <= 32 && 0 <= maxLen <= MAX_SENT
    {
      if lens[i] > maxLen { maxLen := lens[i]; }
      if lens[i] < minLen { minLen := lens[i]; }
    }
    assert maxLen <= MAX_SENT;
    assert minLen >= 1;
    var length, codes := new int[alphaSize](i requires 0 <= i < alphaSize => lens[i]), new int[alphaSize];
    assert length[..alphaSize] == lens;
    AssignCodes(codes, length, minLen, maxLen, alphaSize);
    code := codes[..];
  }

  ghost predicate AllCoded(codes: seq<seq<int>>, tables: seq<seq<int>>) {
    |codes| == |tables| && forall t :: 0 <= t < |tables| ==> Coded(codes[t], tables[t])
  }

  method AssignTables(tables: seq<seq<int>>, alphaSize: nat) returns (codes: seq<seq<int>>)
    requires AllSendable(tables, alphaSize)
    ensures AllCoded(codes, tables)
  {
    hide Sendable, Coded;
    codes := [];
    for t := 0 to |tables|
      invariant |codes| == t && forall k :: 0 <= k < t ==> Coded(codes[k], tables[k])
    {
      var code := AssignTable(tables[t], alphaSize);
      codes := codes + [code];
    }
  }

  // ----- Moving the selectors to the front -----

  // x moves to the front of pos.
  method Lift(pos: array<int>, x: int, n: nat) returns (j: nat)
    requires 1 <= n <= pos.Length && x in pos[..n]
    modifies pos
    ensures j < n && j == Find(old(pos[..n]), x) && pos[..n] == ToFront(old(pos[..n]), j)
  {
    ghost var s := pos[..n];
    j := 0;
    var tmp := pos[j];
    while x != tmp
      invariant j < n && tmp == s[j] && (j > 0 ==> pos[0] == s[0] != x)
      invariant forall k :: 1 <= k <= j ==> pos[k] == s[k - 1]
      invariant forall k :: j < k < n ==> pos[k] == s[k]
      invariant forall k :: 0 <= k < j ==> s[k] != x
      invariant j == 0 ==> pos[0] == s[0]
      decreases n - j
    {
      j := j + 1;
      assert j < n by { NotLast(s, x, j); }
      var tmp2 := tmp;
      tmp := pos[j];
      pos[j] := tmp2;
    }
    pos[0] := tmp;
    FindUnique(s, x, j);
    ShiftIs(s, pos[..n], j);
  }

  lemma MovesStep(list: seq<int>, s: seq<int>, i: nat)
    requires Ranks(s, list) && i < |s|
    ensures Ranks(s[..i], list) && Ranks(s[..i + 1], list)
    ensures var c := Moves(list, s[..i]);
      s[i] in c.list && Moves(list, s[..i + 1]) ==
        Moved(ToFront(c.list, Find(c.list, s[i])), c.out + [Find(c.list, s[i])])
  {
    RanksPrefix(list, s, i);
    RanksPrefix(list, s, i + 1);
    assert s[..i + 1][..i] == s[..i];
    assert s[i] in list;
  }

  method MoveSelectors(sel: seq<int>, nGroups: nat) returns (selectorMtf: seq<int>)
    requires 1 <= nGroups <= N_GROUPS && InRange(sel, nGroups)
    ensures Ranks(sel, Identity(nGroups)) && selectorMtf == Moves(Identity(nGroups), sel).out
  {
    hide Moves, Ranks, ToFront, Find, InRange;
    SelectorsRanked(sel, nGroups);
    var pos := new int[N_GROUPS];
    for i := 0 to nGroups
      invariant forall k :: 0 <= k < i ==> pos[k] == k
    {
      pos[i] := i;
    }
    ghost var list := Identity(nGroups);
    assert pos[..nGroups] == list;
    MovesStart(list, sel);
    selectorMtf := [];
    for i := 0 to |sel|
      invariant Ranks(sel[..i], list)
      invariant Moved(pos[..nGroups], selectorMtf) == Moves(list, sel[..i])
    {
      MovesStep(list, sel, i);
      var j := Lift(pos, sel[i], nGroups);
      selectorMtf := selectorMtf + [j];
    }
    assert sel[..|sel|] == sel;
  }

  lemma MovesStart(list: seq<int>, s: seq<int>)
    ensures Ranks(s[..0], list) && Moves(list, s[..0]) == Moved(list, [])
  {
  }

  // ----- Writing -----

  method SendBit(w: Writer, b: bool)
    requires w.Valid()
    modifies w
    ensures w.Valid() && w.written == old(w.written) + [if b then 1 else 0]
  {
    hide Buffered, Word;
    SmallWords();
    if b { w.W(1, 1); } else { w.W(1, 0); }
  }

  method SendFlags(w: Writer, fs: seq<bool>)
    requires w.Valid()
    modifies w
    ensures w.Valid() && w.written == old(w.written) + Flags(fs, 0)
  {
    hide Buffered, Flags;
    ghost var all := w.written + Flags(fs, 0);
    for i := 0 to |fs|
      invariant w.Valid() && w.written + Flags(fs, i) == all
    {
      FlagsStep(fs, i);
      Then(w.written, [if fs[i] then 1 else 0], Flags(fs, i + 1));
      SendBit(w, fs[i]);
    }
    FlagsEnd(fs);
  }

  lemma FlagsStep(fs: seq<bool>, i: nat)
    requires i < |fs|
    ensures Flags(fs, i) == [if fs[i] then 1 else 0] + Flags(fs, i + 1)
  {
  }

  lemma FlagsEnd(fs: seq<bool>)
    ensures Flags(fs, |fs|) == []
  {
  }

  // The mapping table.
  method SendMapping(w: Writer, used: seq<bool>)
    requires w.Valid() && |used| == 256
    modifies w
    ensures w.Valid() && w.written == old(w.written) + MappingBits(used)
  {
    hide Buffered, Flags, RowBits, Row, Rows;
    var inUse16: seq<bool> := [];
    for i := 0 to 16
      invariant w.Valid() && w.written == old(w.written)
      invariant |inUse16| == i && forall k :: 0 <= k < i ==> inUse16[k] == Rows(used)[k]
    {
      var any := AnyInRow(used, i);
      inUse16 := inUse16 + [any];
    }
    assert inUse16 == Rows(used);
    ghost var all := w.written + MappingBits(used);
    Then(w.written, Flags(Rows(used), 0), RowBits(used, 0));
    SendFlags(w, inUse16);
    for i := 0 to 16
      invariant w.Valid() && w.written + RowBits(used, i) == all
    {
      RowsStep(used, i);
      if inUse16[i] {
        Then(w.written, Flags(Row(used, i), 0), RowBits(used, i + 1));
        var fs := Row(used, i);
        SendFlags(w, fs);
      } else {
        assert [] + RowBits(used, i + 1) == RowBits(used, i + 1);
      }
    }
    RowsEnd(used);
  }

  method AnyInRow(used: seq<bool>, i: nat) returns (any: bool)
    requires |used| == 256 && i < 16
    ensures any == Rows(used)[i]
  {
    any := false;
    for j := 0 to 16
      invariant any <==> exists k :: 0 <= k < j && Row(used, i)[k]
    {
      assert Row(used, i)[j] == used[i * 16 + j];
      if used[i * 16 + j] { any := true; }
    }
    assert any <==> true in Row(used, i);
  }

  lemma RowsStep(used: seq<bool>, i: nat)
    requires |used| == 256 && i < 16
    ensures RowBits(used, i) == (if Rows(used)[i] then Flags(Row(used, i), 0) else []) + RowBits(used, i + 1)
  {
  }

  lemma RowsEnd(used: seq<bool>)
    requires |used| == 256
    ensures RowBits(used, 16) == []
  {
  }

  method SendUnary(w: Writer, n: nat)
    requires w.Valid()
    modifies w
    ensures w.Valid() && w.written == old(w.written) + Unary(n)
  {
    hide Buffered, Unary;
    ghost var all := w.written + Unary(n);
    for j := 0 to n
      invariant w.Valid() && w.written + Unary(n - j) == all
    {
      UnaryStep(n - j);
      Then(w.written, [1], Unary(n - j - 1));
      SendBit(w, true);
    }
    UnaryEnd();
    SendBit(w, false);
  }

  lemma UnaryStep(n: nat)
    requires n > 0
    ensures Unary(n) == [1] + Unary(n - 1)
  {
  }

  lemma UnaryEnd()
    ensures Unary(0) == [0]
  {
  }

  // The number of tables, the number of selectors, the selectors.
  method SendSelectors(w: Writer, sel: seq<int>, nGroups: nat)
    requires w.Valid() && 1 <= nGroups <= N_GROUPS && InRange(sel, nGroups) && |sel| < 32768
    modifies w
    ensures w.Valid() && w.written == old(w.written) + SelectorBits(sel, nGroups)
  {
    hide Buffered, UnaryFrom, Unary, Moves, Word, InRange;
    var selectorMtf := MoveSelectors(sel, nGroups);
    SmallWords();
    ghost var all := w.written + SelectorBits(sel, nGroups);
    ghost var rest := UnaryFrom(selectorMtf, nGroups, 0);
    assert w.written + Word(nGroups, 3) + Word(|sel|, 15) + rest == all by {
      SelectorsAre(sel, nGroups);
      Regrouped(w.written, Word(nGroups, 3), Word(|sel|, 15), rest);
    }
    w.W(3, nGroups);
    w.W(15, |sel|);
    for i := 0 to |selectorMtf|
      invariant w.Valid() && w.written + UnaryFrom(selectorMtf, nGroups, i) == all
    {
      InRangeAt(selectorMtf, nGroups, i);
      UnaryFromStep(selectorMtf, nGroups, i);
      Then(w.written, Unary(selectorMtf[i]), UnaryFrom(selectorMtf, nGroups, i + 1));
      SendUnary(w, selectorMtf[i]);
    }
    UnaryFromEnd(selectorMtf, nGroups);
  }

  lemma SelectorsAre(sel: seq<int>, n: nat)
    requires InRange(sel, n)
    ensures Ranks(sel, Identity(n)) && InRange(Moves(Identity(n), sel).out, n)
    ensures SelectorBits(sel, n) == Word(n, 3) + Word(|sel|, 15) + UnaryFrom(Moves(Identity(n), sel).out, n, 0)
  {
    SelectorsRanked(sel, n);
  }

  lemma Regrouped(a: seq<BitValue>, b: seq<BitValue>, c: seq<BitValue>, d: seq<BitValue>)
    ensures a + (b + c + d) == a + b + c + d
  {
  }

  lemma UnaryFromStep(m: seq<int>, n: nat, i: nat)
    requires InRange(m, n) && i < |m|
    ensures UnaryFrom(m, n, i) == Unary(m[i]) + UnaryFrom(m, n, i + 1)
  {
  }

  lemma UnaryFromEnd(m: seq<int>, n: nat)
    requires InRange(m, n)
    ensures UnaryFrom(m, n, |m|) == []
  {
  }

  // One table of code lengths.
  method SendLengths(w: Writer, lens: seq<int>, alphaSize: nat)
    requires w.Valid() && Sendable(lens, alphaSize)
    modifies w
    ensures w.Valid() && w.written == old(w.written) + (Word(lens[0], 5) + LengthBits(lens, 0, lens[0]))
  {
    hide Buffered, LengthBits, Deltas, Word, Sendable;
    SendableAt(lens, alphaSize, 0);
    SmallWords();
    ghost var all := w.written + (Word(lens[0], 5) + LengthBits(lens, 0, lens[0]));
    Then(w.written, Word(lens[0], 5), LengthBits(lens, 0, lens[0]));
    var curr := lens[0];
    w.W(5, curr);
    for i := 0 to alphaSize
      invariant w.Valid() && w.written + LengthBits(lens, i, curr) == all
    {
      LengthBitsStep(lens, i, curr);
      Then(w.written, Deltas(curr, lens[i]), LengthBits(lens, i + 1, lens[i]));
      SendDeltas(w, curr, lens[i]);
      curr := lens[i];
    }
    LengthBitsEnd(lens, curr);
  }

  lemma SendableAt(lens: seq<int>, alphaSize: nat, i: nat)
    requires Sendable(lens, alphaSize)
    ensures |lens| == alphaSize && 1 <= alphaSize <= MAX_ALPHA_SIZE && (i < alphaSize ==> 1 <= lens[i] <= MAX_SENT)
  {
  }

  method SendDeltas(w: Writer, from: int, to: int)
    requires w.Valid()
    modifies w
    ensures w.Valid() && w.written == old(w.written) + Deltas(from, to)
  {
    hide Buffered, Deltas, Word;
    SmallWords();
    ghost var all := w.written + Deltas(from, to);
    var curr := from;
    while curr < to
      invariant w.Valid() && w.written + Deltas(curr, to) == all && (from <= to ==> curr <= to)
    {
      DeltaUp(curr, to);
      Then(w.written, [1, 0], Deltas(curr + 1, to));
      w.W(2, 2);
      curr := curr + 1;
    }
    while curr > to
      invariant w.Valid() && w.written + Deltas(curr, to) == all && curr >= to
    {
      DeltaDown(curr, to);
      Then(w.written, [1, 1], Deltas(curr - 1, to));
      w.W(2, 3);
      curr := curr - 1;
    }
    DeltaEnd(curr);
    w.W(1, 0);
  }

  lemma DeltaUp(curr: int, to: int)
    requires curr < to
    ensures Deltas(curr, to) == [1, 0] + Deltas(curr + 1, to)
  {
  }

  lemma DeltaDown(curr: int, to: int)
    requires curr > to
    ensures Deltas(curr, to) == [1, 1] + Deltas(curr - 1, to)
  {
  }

  lemma DeltaEnd(curr: int)
    ensures Deltas(curr, curr) == [0]
  {
  }

  lemma LengthBitsStep(lens: seq<int>, i: nat, curr: int)
    requires i < |lens|
    ensures LengthBits(lens, i, curr) == Deltas(curr, lens[i]) + LengthBits(lens, i + 1, lens[i])
  {
  }

  lemma LengthBitsEnd(lens: seq<int>, curr: int)
    ensures LengthBits(lens, |lens|, curr) == []
  {
  }

  // All tables.
  method SendTables(w: Writer, tables: seq<seq<int>>, alphaSize: nat)
    requires w.Valid() && AllSendable(tables, alphaSize)
    modifies w
    ensures w.Valid() && w.written == old(w.written) + TableBits(tables, alphaSize, 0)
  {
    hide Buffered, LengthBits, Word, Sendable, TableBits;
    ghost var all := w.written + TableBits(tables, alphaSize, 0);
    for t := 0 to |tables|
      invariant w.Valid() && w.written + TableBits(tables, alphaSize, t) == all
    {
      TableBitsStep(tables, alphaSize, t);
      Then(w.written, Word(tables[t][0], 5) + LengthBits(tables[t], 0, tables[t][0]), TableBits(tables, alphaSize,
        t + 1));
      SendLengths(w, tables[t], alphaSize);
    }
    TableBitsEnd(tables, alphaSize);
  }

  lemma TableBitsStep(tables: seq<seq<int>>, alphaSize: nat, t: nat)
    requires AllSendable(tables, alphaSize) && t < |tables|
    ensures |tables[t]| > 0 && tables[t][0] >= 0
    ensures TableBits(tables, alphaSize, t) ==
      Word(tables[t][0], 5) + LengthBits(tables[t], 0, tables[t][0]) + TableBits(tables, alphaSize, t + 1)
  {
  }

  lemma TableBitsEnd(tables: seq<seq<int>>, alphaSize: nat)
    requires AllSendable(tables, alphaSize)
    ensures TableBits(tables, alphaSize, |tables|) == []
  {
  }

  // A code word fits its length.
  lemma CodeFits(code: seq<int>, lens: seq<int>, alphaSize: nat, v: int)
    requires Sendable(lens, alphaSize) && Coded(code, lens) && 0 <= v < alphaSize
    ensures |code| == |lens| == alphaSize && 1 <= lens[v] <= MAX_SENT && code[v] == Code(lens, v) < Pow2(lens[v])
  {
    hide Kraft, Code;
    WordStarts([], [], lens, MAX_SENT, v);
  }

  // The block data proper.
  method SendValues(w: Writer, mtfv: seq<int>, sel: seq<int>, tables: seq<seq<int>>, codes: seq<seq<int>>,
                    alphaSize: nat)
    returns (selCtr: nat)
    requires w.Valid() && Groupable(mtfv, sel, tables, alphaSize) && AllCoded(codes, tables)
    modifies w
    ensures w.Valid() && w.written == old(w.written) + ValueBits(mtfv, sel, tables, alphaSize, 0)
    ensures selCtr == |sel|
  {
    hide Buffered, ValueBits, Word, AllSendable, AllCoded, Groupable;
    ghost var all := w.written + ValueBits(mtfv, sel, tables, alphaSize, 0);
    GroupableParts(mtfv, sel, tables, alphaSize);
    var gs: nat, nMTF := 0, |mtfv|;
    selCtr := 0;
    while true
      invariant w.Valid() && gs <= nMTF && w.written + ValueBits(mtfv, sel, tables, alphaSize, gs) == all
      invariant gs == G_SIZE * selCtr || (gs == nMTF && selCtr == |sel|)
      decreases nMTF - gs
    {
      if gs >= nMTF { break; }
      var ge := gs + G_SIZE - 1;
      if ge >= nMTF { ge := nMTF - 1; }
      var i := gs;
      while i <= ge
        invariant gs <= i <= ge + 1 && w.Valid() && w.written + ValueBits(mtfv, sel, tables, alphaSize, i) == all
        decreases ge + 1 - i
      {
        assert i / G_SIZE == selCtr;
        SendValue(w, mtfv, sel, tables, codes, alphaSize, i, selCtr, all);
        i := i + 1;
      }
      gs := ge + 1;
      selCtr := selCtr + 1;
    }
    ValueBitsEnd(mtfv, sel, tables, alphaSize);
  }

  lemma GroupableParts(syms: seq<int>, sel: seq<int>, tables: seq<seq<int>>, alphaSize: nat)
    requires Groupable(syms, sel, tables, alphaSize)
    ensures |sel| == (|syms| + (G_SIZE - 1)) / G_SIZE
  {
  }

  method SendValue(w: Writer, mtfv: seq<int>, sel: seq<int>, tables: seq<seq<int>>, codes: seq<seq<int>>,
                   alphaSize: nat,
                   i: nat, selCtr: nat, ghost all: seq<BitValue>)
    requires w.Valid() && Groupable(mtfv, sel, tables, alphaSize) && AllCoded(codes, tables)
    requires i < |mtfv| && selCtr == i / G_SIZE && w.written + ValueBits(mtfv, sel, tables, alphaSize, i) == all
    modifies w
    ensures w.Valid() && w.written + ValueBits(mtfv, sel, tables, alphaSize, i + 1) == all
  {
    hide Buffered, ValueBits, Word, Sendable, Code, Coded;
    var t := sel[selCtr];
    ghost var lens := TableFor(mtfv, sel, tables, alphaSize, i);
    ValueBitsStep(mtfv, sel, tables, alphaSize, i);
    CodeFits(codes[t], lens, alphaSize, mtfv[i]);
    Then(w.written, Word(Code(lens, mtfv[i]), lens[mtfv[i]]), ValueBits(mtfv, sel, tables, alphaSize, i + 1));
    w.W(tables[t][mtfv[i]], codes[t][mtfv[i]]);
  }

  lemma ValueBitsStep(syms: seq<int>, sel: seq<int>, tables: seq<seq<int>>, alphaSize: nat, i: nat)
    requires Groupable(syms, sel, tables, alphaSize) && i < |syms|
    ensures 0 <= syms[i] < alphaSize
    ensures var lens := TableFor(syms, sel, tables, alphaSize, i);
      |lens| == alphaSize && lens[syms[i]] >= 0
      && ValueBits(syms, sel, tables, alphaSize, i)
        == Word(Code(lens, syms[i]), lens[syms[i]]) + ValueBits(syms, sel, tables, alphaSize, i + 1)
  {
  }

  lemma ValueBitsEnd(syms: seq<int>, sel: seq<int>, tables: seq<seq<int>>, alphaSize: nat)
    requires Groupable(syms, sel, tables, alphaSize)
    ensures ValueBits(syms, sel, tables, alphaSize, |syms|) == []
  {
  }
}
