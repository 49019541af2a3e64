// Reading a block (dep/bzip2/decompress.c): the mapping table, the selectors, the code lengths
// and the values. Each reader is shown to give back whatever was sent: if sent is true, the
// stream up to end holds the bits of want and then rest.
module BzReceive {
  import opened Bits
  import opened BzBitStream
  import opened BzKraft
  import opened BzHuffmanLengths
  import opened BzHuffmanCodes
  import opened BzMtf
  import opened BzMtfDecode
  import opened BzFormat
  import opened BzSend

  // ----- Single bits -----

  method ReadBit(r: Reader, ghost sent: bool, ghost x: BitValue, ghost end: nat, ghost rest: seq<BitValue>)
    returns (ok: bool, uc: nat)
    requires r.Valid() && (sent ==> Left(r.Bits(), r.pos, end, [x] + rest))
    modifies r`avail, r`later, r`next, r`bsBuff, r`bsLive, r`pos
    ensures r.Valid() && (ok <==> old(r.pos) < |r.Bits()|)
    ensures ok ==> r.pos == old(r.pos) + 1 && uc == r.Bits()[old(r.pos)]
    ensures sent ==> ok && uc == x && Left(r.Bits(), r.pos, end, rest)
  {
    hide Comes, Left, BitsOf, Read;
    if sent { LeftBit(r.Bits(), r.pos, end, x, rest); }
    if r.pos < |r.Bits()| { OneBit(r.Bits(), r.pos); }
    ok, uc := r.GetBits(1);
  }

  method ReadWord(r: Reader, n: nat, ghost sent: bool, ghost v: nat, ghost end: nat, ghost rest: seq<BitValue>)
    returns (ok: bool, u: nat)
    requires r.Valid() && n <= 24 && (sent ==> v < Pow2(n) && Left(r.Bits(), r.pos, end, Word(v, n) + rest))
    modifies r`avail, r`later, r`next, r`bsBuff, r`bsLive, r`pos
    ensures r.Valid() && (ok <==> old(r.pos) + n <= |r.Bits()|)
    ensures ok ==> u < Pow2(n) && r.pos == old(r.pos) + n && u == Read(r.Bits(), old(r.pos), n)
    ensures sent ==> ok && u == v && Left(r.Bits(), r.pos, end, rest)
  {
    hide Comes, Left, BitsOf, Word, Read;
    if sent { LeftWord(r.Bits(), r.pos, end, v, n, rest); }
    ghost var start := r.pos;
    ok, u := r.GetBits(n);
    if ok { ReadBound(r.Bits(), start, n); }
  }

  lemma ReadBound(bits: seq<BitValue>, pos: nat, n: nat)
    requires pos + n <= |bits|
    ensures Read(bits, pos, n) < Pow2(n)
  {
    ValueWord(bits[pos..pos + n]);
  }

  // ----- The mapping table -----

  function FlagBit(b: bool): BitValue {
    if b then 1 else 0
  }

  // The flags from i on and then rest come one by one.
  lemma FlagsNext(fs: seq<bool>, i: nat, rest: seq<BitValue>)
    requires i < |fs|
    ensures Flags(fs, i) + rest == [FlagBit(fs[i])] + (Flags(fs, i + 1) + rest)
  {
    hide Flags;
    FlagsStep(fs, i);
    Then([FlagBit(fs[i])], Flags(fs, i + 1), rest);
  }

  lemma FlagsOver(fs: seq<bool>, rest: seq<BitValue>)
    ensures Flags(fs, |fs|) + rest == rest
  {
    assert Flags(fs, |fs|) == [];
  }

  method ReadRows(r: Reader, ghost sent: bool, ghost want: seq<bool>, ghost end: nat, ghost rest: seq<BitValue>)
    returns (ok: bool, inUse16: seq<bool>)
    requires r.Valid() && |want| == 16 && (sent ==> Left(r.Bits(), r.pos, end, Flags(want, 0) + rest))
    modifies r`avail, r`later, r`next, r`bsBuff, r`bsLive, r`pos
    ensures r.Valid() && (ok <==> old(r.pos) + 16 <= |r.Bits()|)
    ensures ok ==> |inUse16| == 16 && r.pos == old(r.pos) + 16
    ensures ok ==> forall i :: 0 <= i < 16 ==> (inUse16[i] <==> r.Bits()[old(r.pos) + i] == 1)
    ensures sent ==> ok && inUse16 == want && Left(r.Bits(), r.pos, end, rest)
  {
    hide Comes, Left, BitsOf, Flags;
    inUse16 := [];
    for i := 0 to 16
      invariant r.Valid() && |inUse16| == i && r.pos == old(r.pos) + i && (i > 0 ==> r.pos <= |r.Bits()|)
      invariant forall k :: 0 <= k < i ==> (inUse16[k] <==> r.Bits()[old(r.pos) + k] == 1)
      invariant sent ==> inUse16 == want[..i] && Left(r.Bits(), r.pos, end, Flags(want, i) + rest)
    {
      FlagsNext(want, i, rest);
      var uc;
      ok, uc := ReadBit(r, sent, FlagBit(want[i]), end, Flags(want, i + 1) + rest);
      if !ok { return; }
      inUse16 := inUse16 + [uc == 1];
    }
    FlagsOver(want, rest);
    ok := true;
  }

  // One row of sixteen flags into the table.
  method ReadRow(r: Reader, inUse: array<bool>, i: nat, ghost sent: bool, ghost want: seq<bool>, ghost end: nat,
                 ghost rest: seq<BitValue>)
    returns (ok: bool)
    requires r.Valid() && inUse.Length == 256 && i < 16 && |want| == 256
    requires forall k :: 16 * i <= k < 256 ==> !inUse[k]
    requires sent ==> Left(r.Bits(), r.pos, end, Flags(Row(want, i), 0) + rest)
    modifies inUse, r`avail, r`later, r`next, r`bsBuff, r`bsLive, r`pos
    ensures r.Valid() && (ok ==> r.pos == old(r.pos) + 16)
    ensures forall k :: 0 <= k < 16 * i || 16 * i + 16 <= k < 256 ==> inUse[k] == old(inUse[k])
    ensures sent ==> ok && Left(r.Bits(), r.pos, end, rest)
    ensures sent ==> forall k :: 16 * i <= k < 16 * i + 16 ==> inUse[k] == want[k]
  {
    hide Comes, Left, BitsOf, Flags;
    ghost var row := Row(want, i);
    for j := 0 to 16
      invariant r.Valid() && r.pos == old(r.pos) + j
      invariant sent ==> Left(r.Bits(), r.pos, end, Flags(row, j) + rest)
      invariant forall k :: 0 <= k < 16 * i || 16 * i + 16 <= k < 256 ==> inUse[k] == old(inUse[k])
      invariant forall k :: 16 * i + j <= k < 256 ==> !inUse[k]
      invariant sent ==> forall k :: 16 * i <= k < 16 * i + j ==> inUse[k] == want[k]
    {
      FlagsNext(row, j, rest);
      var uc;
      ok, uc := ReadBit(r, sent, FlagBit(row[j]), end, Flags(row, j + 1) + rest);
      if !ok { return; }
      assert row[j] == want[i * 16 + j];
      if uc == 1 { inUse[i * 16 + j] := true; }
    }
    FlagsOver(row, rest);
    ok := true;
  }

  method ReadMapping(r: Reader, inUse: array<bool>, ghost sent: bool, ghost want: seq<bool>, ghost end: nat,
                     ghost rest: seq<BitValue>)
    returns (st: Status)
    requires r.Valid() && inUse.Length == 256 && |want| == 256
    requires sent ==> Left(r.Bits(), r.pos, end, MappingBits(want) + rest)
    modifies inUse, r`avail, r`later, r`next, r`bsBuff, r`bsLive, r`pos
    ensures r.Valid() && (st == Ok || st == NeedInput)
    ensures st == Ok ==> old(r.pos) + 16 <= |r.Bits()| && r.pos == RowsStop(r.Bits(), old(r.pos), 16)
    ensures sent ==> st == Ok && inUse[..] == want && Left(r.Bits(), r.pos, end, rest)
  {
    hide Comes, Left, BitsOf, Flags, RowBits, Row, Rows;
    ghost var start := r.pos;
    Then(Flags(Rows(want), 0), RowBits(want, 0), rest);
    var ok, inUse16 := ReadRows(r, sent, Rows(want), end, RowBits(want, 0) + rest);
    if !ok { return NeedInput; }
    for i := 0 to 256
      invariant forall k :: 0 <= k < i ==> !inUse[k]
      invariant r.Valid() && r.pos == start + 16
      invariant sent ==> Left(r.Bits(), r.pos, end, RowBits(want, 0) + rest)
    {
      inUse[i] := false;
    }
    for i := 0 to 16
      invariant r.Valid() && r.pos == RowsStop(r.Bits(), start, i)
      invariant sent ==> Left(r.Bits(), r.pos, end, RowBits(want, i) + rest)
      invariant sent ==> forall k :: 0 <= k < 16 * i ==> inUse[k] == want[k]
      invariant forall k :: 16 * i <= k < 256 ==> !inUse[k]
    {
      RowsNext(want, i, rest);
      if inUse16[i] {
        ok := ReadRow(r, inUse, i, sent, want, end, RowBits(want, i + 1) + rest);
        if !ok { return NeedInput; }
      } else if sent {
        EmptyRow(want, i);
      }
    }
    RowsEnd(want);
    assert RowBits(want, 16) + rest == rest;
    st := Ok;
  }

  lemma RowsNext(used: seq<bool>, i: nat, rest: seq<BitValue>)
    requires |used| == 256 && i < 16
    ensures RowBits(used, i) + rest
      == if Rows(used)[i] then Flags(Row(used, i), 0) + (RowBits(used, i + 1) + rest) else RowBits(used, i + 1) + rest
  {
    hide Flags, RowBits, Row, Rows;
    RowsStep(used, i);
    Then(Flags(Row(used, i), 0), RowBits(used, i + 1), rest);
    assert [] + RowBits(used, i + 1) == RowBits(used, i + 1);
  }

  lemma EmptyRow(used: seq<bool>, i: nat)
    requires |used| == 256 && i < 16 && !Rows(used)[i]
    ensures forall k :: 16 * i <= k < 16 * i + 16 ==> !used[k]
  {
    forall k | 16 * i <= k < 16 * i + 16 ensures !used[k] {
      assert Row(used, i)[k - 16 * i] == used[k];
    }
  }

  // ----- The selectors -----

  lemma UnaryNext(n: nat, rest: seq<BitValue>)
    ensures Unary(n) + rest == if n == 0 then [0] + rest else [1] + (Unary(n - 1) + rest)
  {
    if n > 0 { Then([1], Unary(n - 1), rest); }
  }

  method ReadUnary(r: Reader, nGroups: nat, ghost sent: bool, ghost want: nat, ghost end: nat,
                   ghost rest: seq<BitValue>)
    returns (st: Status, j: nat)
    requires r.Valid() && nGroups >= 1
    requires sent ==> want < nGroups && Left(r.Bits(), r.pos, end, Unary(want) + rest)
    modifies r`avail, r`later, r`next, r`bsBuff, r`bsLive, r`pos
    ensures r.Valid() && st != Overrun && (st == Ok <==> UnaryStop(r.Bits(), old(r.pos), nGroups) >= 0)
    ensures st == Ok ==> j < nGroups && r.pos == UnaryStop(r.Bits(), old(r.pos), nGroups)
    ensures sent ==> st == Ok && j == want && Left(r.Bits(), r.pos, end, rest)
  {
    hide Comes, Left, BitsOf, Unary;
    j := 0;
    while true
      invariant r.Valid() && j < nGroups
      invariant UnaryStop(r.Bits(), old(r.pos), nGroups) == UnaryStop(r.Bits(), r.pos, nGroups - j)
      invariant sent ==> j <= want && Left(r.Bits(), r.pos, end, Unary(want - j) + rest)
      decreases nGroups - j
    {
      ghost var more: nat := if sent then want - j else 0;
      UnaryNext(more, rest);
      var ok, uc := ReadBit(r, sent, if more == 0 then 0 else 1, end, if more == 0 then rest
        else Unary(more - 1) + rest);
      if !ok { return NeedInput, j; }
      if uc == 0 { break; }
      j := j + 1;
      if j >= nGroups { return DataError, j; }
    }
    st := Ok;
  }

  method ReadMoves(r: Reader, nGroups: nat, nSelectors: nat, selectorMtf: array<int>, ghost sent: bool,
                   ghost want: seq<int>, ghost end: nat, ghost rest: seq<BitValue>)
    returns (st: Status)
    requires r.Valid() && nGroups >= 1 && selectorMtf.Length == MAX_SELECTORS && r.pos <= |r.Bits()|
    requires sent ==>
      InRange(want, nGroups) && |want| == nSelectors && Left(r.Bits(), r.pos, end, UnaryFrom(want, nGroups, 0) + rest)
    modifies selectorMtf, r`avail, r`later, r`next, r`bsBuff, r`bsLive, r`pos
    ensures r.Valid() && (st == Ok ==> nSelectors <= MAX_SELECTORS && InRange(selectorMtf[..nSelectors], nGroups))
    ensures st == Overrun <==>
      nSelectors > MAX_SELECTORS && MovesStop(r.Bits(), old(r.pos), nGroups, MAX_SELECTORS + 1) >= 0
    ensures sent ==> st == if nSelectors <= MAX_SELECTORS then Ok else Overrun
    ensures sent && st == Ok ==> selectorMtf[..nSelectors] == want && Left(r.Bits(), r.pos, end, rest)
  {
    hide Comes, Left, BitsOf, Unary, UnaryFrom, UnaryStop;
    ghost var start := r.pos;
    for i := 0 to nSelectors
      invariant r.Valid() && i <= MAX_SELECTORS && InRange(selectorMtf[..i], nGroups)
      invariant MovesStop(r.Bits(), start, nGroups, i) == r.pos
      invariant sent ==>
        selectorMtf[..i] == want[..i] && Left(r.Bits(), r.pos, end, UnaryFrom(want, nGroups, i) + rest)
    {
      ghost var x: nat, after := 0, rest;
      if sent {
        x, after := want[i], UnaryFrom(want, nGroups, i + 1) + rest;
        UnaryFromStep(want, nGroups, i);
        Then(Unary(x), UnaryFrom(want, nGroups, i + 1), rest);
      }
      var j;
      st, j := ReadUnary(r, nGroups, sent, x, end, after);
      if st != Ok {
        MovesCut(r.Bits(), start, nGroups, i + 1, MAX_SELECTORS + 1);
        return;
      }
      if i >= MAX_SELECTORS { return Overrun; }
      ghost var before := selectorMtf[..i];
      selectorMtf[i] := j;
      assert selectorMtf[..i + 1] == before + [j];
    }
    if sent {
      UnaryFromEnd(want, nGroups);
      assert [] + rest == rest;
    }
    st := Ok;
  }

  // Entry v of pos moves to the front.
  method Raise(pos: array<int>, v0: nat, n: nat) returns (tmp: int)
    requires v0 < n <= pos.Length
    modifies pos
    ensures tmp == old(pos[v0]) && pos[..n] == ToFront(old(pos[..n]), v0)
  {
    ghost var s := pos[..n];
    var v := v0;
    tmp := pos[v];
    while v > 0
      invariant v <= v0
      invariant forall k :: 0 <= k <= v ==> pos[k] == s[k]
      invariant forall k :: v < k <= v0 ==> pos[k] == s[k - 1]
      invariant forall k :: v0 < k < n ==> pos[k] == s[k]
    {
      pos[v] := pos[v - 1];
      v := v - 1;
    }
    pos[0] := tmp;
    ShiftIs(s, pos[..n], v0);
  }

  lemma UnmovesStep(list: seq<int>, m: seq<int>, i: nat)
    requires InRange(m, |list|) && i < |m|
    ensures var c := Unmoves(list, m[..i]);
      0 <= m[i] < |c.list| && Unmoves(list, m[..i + 1]) == Moved(ToFront(c.list, m[i]), c.out + [c.list[m[i]]])
  {
    assert m[..i + 1][..i] == m[..i];
  }

  method UndoMoves(selectorMtf: array<int>, selector: array<int>, nSelectors: nat, nGroups: nat)
    requires 1 <= nGroups <= N_GROUPS && nSelectors <= MAX_SELECTORS == selectorMtf.Length == selector.Length
    requires selectorMtf != selector && InRange(selectorMtf[..nSelectors], nGroups)
    modifies selector
    ensures selector[..nSelectors] == Unmoves(Identity(nGroups), selectorMtf[..nSelectors]).out
    ensures InRange(selector[..nSelectors], nGroups)
  {
    hide Unmoves, ToFront, InRange;
    var pos := new int[N_GROUPS];
    for v := 0 to nGroups
      invariant forall k :: 0 <= k < v ==> pos[k] == k
    {
      pos[v] := v;
    }
    ghost var list, m := Identity(nGroups), selectorMtf[..nSelectors];
    assert pos[..nGroups] == list && selector[..0] == [];
    UnmovesStart(list, m);
    for i := 0 to nSelectors
      invariant selectorMtf[..nSelectors] == m && InRange(m[..i], nGroups)
      invariant Moved(pos[..nGroups], selector[..i]) == Unmoves(list, m[..i])
    {
      UnmovesStep(list, m, i);
      InRangePrefix(m, nGroups, i + 1);
      ghost var s, done := pos[..nGroups], selector[..i];
      var tmp := Raise(pos, selectorMtf[i], nGroups);
      assert tmp == s[m[i]];
      selector[i] := tmp;
      assert selector[..i + 1] == done + [tmp];
    }
    assert m[..nSelectors] == m;
    UnmovesInRange(m, nGroups);
  }

  lemma UnmovesStart(list: seq<int>, m: seq<int>)
    ensures InRange(m[..0], |list|) && Unmoves(list, m[..0]) == Moved(list, [])
  {
  }

  lemma InRangePrefix(m: seq<int>, n: int, i: nat)
    requires InRange(m, n) && i <= |m|
    ensures InRange(m[..i], n)
  {
  }

  lemma UnmovesInRange(m: seq<int>, n: nat)
    requires InRange(m, n)
    ensures InRange(Unmoves(Identity(n), m).out, n)
  {
    hide Unmoves;
    var s := Unmoves(Identity(n), m).out;
    forall i | 0 <= i < |s| ensures 0 <= s[i] < n {
      assert s[i] in Identity(n);
    }
  }

  // The count is only checked for being positive. Whatever comes, the stores stay inside the arrays
  // if and only if the stream does not overrun them.
  method ReadSelectors(r: Reader, selectorMtf: array<int>, selector: array<int>, ghost sent: bool, ghost want: seq<int>,
                       ghost n: nat, ghost end: nat, ghost rest: seq<BitValue>)
    returns (st: Status, nGroups: nat, nSelectors: nat)
    requires r.Valid() && selectorMtf.Length == MAX_SELECTORS == selector.Length && selectorMtf != selector
    requires sent ==> (InRange(want, n) && 2 <= n <= N_GROUPS && 1 <= |want| < 32768
      && Left(r.Bits(), r.pos, end, SelectorBits(want, n) + rest))
    modifies selectorMtf, selector, r`avail, r`later, r`next, r`bsBuff, r`bsLive, r`pos
    ensures r.Valid() && (st == Overrun <==> SelectorsOverrun(r.Bits(), old(r.pos)))
    ensures st == Ok ==> (2 <= nGroups <= N_GROUPS && 1 <= nSelectors <= MAX_SELECTORS
      && InRange(selector[..nSelectors], nGroups))
    ensures sent ==> st == if |want| <= MAX_SELECTORS then Ok else Overrun
    ensures sent && st == Ok ==> nGroups == n && selector[..nSelectors] == want && Left(r.Bits(), r.pos, end, rest)
  {
    hide Comes, Left, BitsOf, Word, UnaryFrom, Moves, Unmoves, InRange, Read, MovesStop;
    SmallWords();
    nGroups, nSelectors := 0, 0;
    ghost var m, tail, after := [], rest, rest;
    if sent {
      SelectorsAre(want, n);
      m := Moves(Identity(n), want).out;
      tail := UnaryFrom(m, n, 0) + rest;
      after := Word(|want|, 15) + tail;
      FourParts(Word(n, 3), Word(|want|, 15), UnaryFrom(m, n, 0), rest);
    }
    var ok;
    ok, nGroups := ReadWord(r, 3, sent, n, end, after);
    if !ok { return NeedInput, nGroups, nSelectors; }
    if nGroups < 2 || nGroups > 6 { return DataError, nGroups, nSelectors; }
    ok, nSelectors := ReadWord(r, 15, sent, |want|, end, tail);
    if !ok { return NeedInput, nGroups, nSelectors; }
    if nSelectors < 1 { return DataError, nGroups, nSelectors; }
    st := ReadMoves(r, nGroups, nSelectors, selectorMtf, sent, m, end, rest);
    if st != Ok { return; }
    UndoMoves(selectorMtf, selector, nSelectors, nGroups);
    if sent { UnmovesMoves(Identity(n), want); }
  }

  // Such a stream: one selector more than the arrays hold, all of them zero.
  lemma OverrunExample()
    ensures SelectorsOverrun(Word(2, 3) + Word(MAX_SELECTORS + 1, 15) + Zeros(MAX_SELECTORS + 1), 0)
  {
    hide Word, MovesStop;
    var a, b, c := Word(2, 3), Word(MAX_SELECTORS + 1, 15), Zeros(MAX_SELECTORS + 1);
    var bits := a + b + c;
    SmallWords();
    WordValue(2, 3);
    WordValue(MAX_SELECTORS + 1, 15);
    assert bits[0..3] == a && bits[3..18] == b;
    ZerosEnd(bits, 18, 2, MAX_SELECTORS + 1);
  }

  lemma {:induction false} ZerosEnd(bits: seq<BitValue>, pos: nat, n: nat, k: nat)
    requires pos + k <= |bits| && forall i :: pos <= i < pos + k ==> bits[i] == 0
    ensures MovesStop(bits, pos, n, k) == pos + k
  {
    if k > 0 { ZerosEnd(bits, pos, n, k - 1); }
  }

  lemma FourParts(a: seq<BitValue>, b: seq<BitValue>, c: seq<BitValue>, d: seq<BitValue>)
    ensures (a + b + c) + d == a + (b + (c + d))
  {
  }

  // ----- The code lengths -----

  lemma DeltasNext(curr: int, to: int, rest: seq<BitValue>)
    ensures curr < to ==> Deltas(curr, to) + rest == [1] + ([0] + (Deltas(curr + 1, to) + rest))
    ensures curr > to ==> Deltas(curr, to) + rest == [1] + ([1] + (Deltas(curr - 1, to) + rest))
    ensures curr == to ==> Deltas(curr, to) + rest == [0] + rest
  {
    hide Deltas;
    if curr < to {
      DeltaUp(curr, to);
      Pair(1, 0, Deltas(curr + 1, to), rest);
    } else if curr > to {
      DeltaDown(curr, to);
      Pair(1, 1, Deltas(curr - 1, to), rest);
    } else {
      DeltaEnd(curr);
    }
  }

  lemma Pair(x: BitValue, y: BitValue, a: seq<BitValue>, rest: seq<BitValue>)
    ensures ([x, y] + a) + rest == [x] + ([y] + (a + rest))
  {
  }

  method ReadLength(r: Reader, curr0: int, ghost sent: bool, ghost want: int, ghost end: nat, ghost rest: seq<BitValue>)
    returns (st: Status, curr: int)
    requires r.Valid()
    requires sent ==>
      1 <= curr0 <= LONGEST && 1 <= want <= LONGEST && Left(r.Bits(), r.pos, end, Deltas(curr0, want) + rest)
    modifies r`avail, r`later, r`next, r`bsBuff, r`bsLive, r`pos
    ensures r.Valid() && st != Overrun && (st == Ok ==> 1 <= curr <= LONGEST)
    ensures sent ==> st == Ok && curr == want && Left(r.Bits(), r.pos, end, rest)
  {
    hide Comes, Left, BitsOf, Deltas;
    curr := curr0;
    while true
      invariant r.Valid()
      invariant sent ==> 1 <= curr <= LONGEST && Left(r.Bits(), r.pos, end, Deltas(curr, want) + rest)
      decreases |r.Bits()| - r.pos
    {
      if curr < 1 || curr > LONGEST { return DataError, curr; }
      ghost var on := sent && curr != want;
      ghost var y: BitValue := if curr < want then 0 else 1;
      ghost var next := if curr < want then curr + 1 else curr - 1;
      ghost var later := Deltas(next, want) + rest;
      DeltasNext(curr, want, rest);
      var ok, uc := ReadBit(r, sent, if on then 1 else 0, end, if on then [y] + later else rest);
      if !ok { return NeedInput, curr; }
      if uc == 0 { break; }
      ok, uc := ReadBit(r, on, y, end, later);
      if !ok { return NeedInput, curr; }
      if uc == 0 { curr := curr + 1; } else { curr := curr - 1; }
    }
    st := Ok;
  }

  method ReadLengths(r: Reader, alphaSize: nat, ghost sent: bool, ghost want: seq<int>, ghost end: nat,
                     ghost rest: seq<BitValue>)
    returns (st: Status, lens: seq<int>)
    requires r.Valid()
    requires sent ==> (Sendable(want, alphaSize)
      && Left(r.Bits(), r.pos, end, (Word(want[0], 5) + LengthBits(want, 0, want[0])) + rest))
    modifies r`avail, r`later, r`next, r`bsBuff, r`bsLive, r`pos
    ensures r.Valid() && st != Overrun
    ensures st == Ok ==> |lens| == alphaSize && forall i :: 0 <= i < alphaSize ==> 1 <= lens[i] <= LONGEST
    ensures sent ==> st == Ok && lens == want && Left(r.Bits(), r.pos, end, rest)
  {
    hide Comes, Left, BitsOf, Deltas, LengthBits, Word, Sendable;
    lens := [];
    SmallWords();
    ghost var first: nat, after := 0, rest;
    if sent {
      SendableAt(want, alphaSize, 0);
      first, after := want[0], LengthBits(want, 0, want[0]) + rest;
      Then(Word(want[0], 5), LengthBits(want, 0, want[0]), rest);
    }
    var ok, u := ReadWord(r, 5, sent, first, end, after);
    if !ok { return NeedInput, lens; }
    var curr: int := u;
    for i := 0 to alphaSize
      invariant r.Valid() && |lens| == i && forall k :: 0 <= k < i ==> 1 <= lens[k] <= LONGEST
      invariant sent ==> (lens == want[..i] && |want| == alphaSize && 1 <= curr <= LONGEST
        && Left(r.Bits(), r.pos, end, LengthBits(want, i, curr) + rest))
    {
      ghost var x, later := 0, rest;
      if sent {
        SendableAt(want, alphaSize, i);
        x, later := want[i], LengthBits(want, i + 1, want[i]) + rest;
        LengthBitsStep(want, i, curr);
        Then(Deltas(curr, x), LengthBits(want, i + 1, x), rest);
      }
      st, curr := ReadLength(r, curr, sent, x, end, later);
      if st != Ok { return; }
      lens := lens + [curr];
    }
    if sent {
      LengthBitsEnd(want, curr);
      assert [] + rest == rest;
    }
    st := Ok;
  }

  ghost predicate AllLengths(tables: seq<seq<int>>, alphaSize: nat) {
    forall t :: 0 <= t < |tables| ==> LengthsOk(tables[t], alphaSize)
  }

  ghost predicate LengthsOk(lens: seq<int>, alphaSize: nat) {
    |lens| == alphaSize && forall i :: 0 <= i < alphaSize ==> 1 <= lens[i] <= LONGEST
  }

  method ReadTables(r: Reader, nGroups: nat, alphaSize: nat, ghost sent: bool, ghost want: seq<seq<int>>,
                    ghost end: nat,
                    ghost rest: seq<BitValue>)
    returns (st: Status, tables: seq<seq<int>>)
    requires r.Valid()
    requires sent ==> (AllSendable(want, alphaSize) && |want| == nGroups
      && Left(r.Bits(), r.pos, end, TableBits(want, alphaSize, 0) + rest))
    modifies r`avail, r`later, r`next, r`bsBuff, r`bsLive, r`pos
    ensures r.Valid() && st != Overrun && (st == Ok ==> |tables| == nGroups && AllLengths(tables, alphaSize))
    ensures sent ==> st == Ok && tables == want && Left(r.Bits(), r.pos, end, rest)
  {
    hide Comes, Left, BitsOf, LengthBits, Word, Sendable, TableBits;
    tables := [];
    for t := 0 to nGroups
      invariant r.Valid() && |tables| == t && AllLengths(tables, alphaSize)
      invariant sent ==> tables == want[..t] && Left(r.Bits(), r.pos, end, TableBits(want, alphaSize, t) + rest)
    {
      ghost var lens, later := [], rest;
      if sent {
        lens, later := want[t], TableBits(want, alphaSize, t + 1) + rest;
        TableBitsStep(want, alphaSize, t);
        Then(Word(lens[0], 5) + LengthBits(lens, 0, lens[0]), TableBits(want, alphaSize, t + 1), rest);
      }
      var got;
      st, got := ReadLengths(r, alphaSize, sent, lens, end, later);
      if st != Ok { return; }
      tables := tables + [got];
    }
    if sent {
      TableBitsEnd(want, alphaSize);
      assert [] + rest == rest;
    }
    st := Ok;
  }

  // ----- The decoding tables -----

  datatype Decoder = Decoder(limit: array<int>, base: array<int>, perm: array<int>, minLen: nat)

  function Longest(lens: seq<int>): (m: nat)
    ensures forall i :: 0 <= i < |lens| ==> lens[i] <= m
  {
    if lens == [] then 0
    else
      var m := Longest(lens[..|lens| - 1]);
      if lens[|lens| - 1] > m then lens[|lens| - 1] else m
  }

  lemma LongestStep(lens: seq<int>, i: nat)
    requires i < |lens|
    ensures Longest(lens[..0]) == 0
    ensures Longest(lens[..i + 1]) == if lens[i] > Longest(lens[..i]) then lens[i] else Longest(lens[..i])
  {
    assert lens[..i + 1][..i] == lens[..i];
  }

  // The tables belong to the lengths.
  ghost predicate Decodes(d: Decoder, lens: seq<int>)
    reads d.limit, d.base, d.perm
  {
    && BzHuffmanCodes.Lengths(lens, d.minLen, Longest(lens)) && PermOk(d.perm[..], lens)
    && LimitOk(d.limit[..], lens, d.minLen, Longest(lens)) && BaseOk(d.base[..], lens, d.minLen, Longest(lens))
  }

  method MakeDecoder(lens: seq<int>, alphaSize: nat) returns (d: Decoder)
    requires LengthsOk(lens, alphaSize) && 1 <= alphaSize <= MAX_ALPHA_SIZE
    ensures fresh(d.limit) && fresh(d.base) && fresh(d.perm) && Decodes(d, lens)
  {
    hide LimitOk, BaseOk, PermOk, Longest;
    var minLen, maxLen := 32, 0;
    LongestStep(lens, 0);
    for i := 0 to alphaSize
      invariant forall k :: 0 <= k < i ==> minLen <= lens[k]
      invariant 1 <= minLen <= 32 && 0 <= maxLen <= LONGEST && maxLen == Longest(lens[..i])
        && (i > 0 ==> minLen <= maxLen)
    {
      LongestStep(lens, i);
      if lens[i] > maxLen { maxLen := lens[i]; }
      if lens[i] < minLen { minLen := lens[i]; }
    }
    assert lens[..alphaSize] == lens;
    var length := new int[alphaSize](i requires 0 <= i < alphaSize => lens[i]);
    assert length[..alphaSize] == lens;
    var limit, base, perm := new int[MAX_ALPHA_SIZE], new int[MAX_ALPHA_SIZE], new int[MAX_ALPHA_SIZE];
    CreateDecodeTables(limit, base, perm, length, minLen, maxLen, alphaSize);
    d := Decoder(limit, base, perm, minLen);
  }

  ghost predicate AllDecode(ds: seq<Decoder>, tables: seq<seq<int>>)
    reads set d | d in ds :: d.limit, set d | d in ds :: d.base, set d | d in ds :: d.perm
  {
    |ds| == |tables| && forall t :: 0 <= t < |ds| ==> Decodes(ds[t], tables[t])
  }

  method MakeDecoders(tables: seq<seq<int>>, alphaSize: nat) returns (ds: seq<Decoder>)
    requires AllLengths(tables, alphaSize) && 1 <= alphaSize <= MAX_ALPHA_SIZE
    ensures AllDecode(ds, tables)
    ensures forall t :: 0 <= t < |ds| ==> fresh(ds[t].limit) && fresh(ds[t].base) && fresh(ds[t].perm)
  {
    hide LengthsOk, Decodes;
    ds := [];
    for t := 0 to |tables|
      invariant |ds| == t && forall k :: 0 <= k < t ==> Decodes(ds[k], tables[k])
      invariant forall k :: 0 <= k < t ==> fresh(ds[k].limit) && fresh(ds[k].base) && fresh(ds[k].perm)
    {
      var d := MakeDecoder(tables[t], alphaSize);
      ds := ds + [d];
    }
  }

  // ----- The values -----

  // After k values: the group in progress and how many values it still has.
  ghost predicate InGroup(k: nat, groupNo: int, groupPos: int, gSel: int, selector: seq<int>) {
    && k == G_SIZE * (groupNo + 1) - groupPos && 0 <= groupPos < G_SIZE && -1 <= groupNo < |selector|
    && (groupPos > 0 ==> groupNo >= 0 && gSel == selector[groupNo])
  }

  // GET_MTF_VAL: value k by the table that its group of fifty selects.
  method GetMtfVal(r: Reader, groupNo0: int, groupPos0: int, gSel0: int, selector: seq<int>, ds: seq<Decoder>,
                   ghost tables: seq<seq<int>>, ghost alphaSize: nat, ghost k: nat)
    returns (d: Decoded, groupNo: int, groupPos: int, gSel: int)
    requires r.Valid() && AllDecode(ds, tables) && InRange(selector, |tables|) && AllLengths(tables, alphaSize)
    requires alphaSize <= MAX_ALPHA_SIZE && InGroup(k, groupNo0, groupPos0, gSel0, selector)
    modifies r`avail, r`later, r`next, r`bsBuff, r`bsLive, r`pos
    ensures r.Valid() && (k / G_SIZE >= |selector| ==> d == BadCode)
    ensures k / G_SIZE < |selector| ==> (InGroup(k + 1, groupNo, groupPos, gSel, selector)
      && selector[k / G_SIZE] < |tables|
      && 0 <= selector[k / G_SIZE] && Correct(r.Bits(), old(r.pos), tables[selector[k / G_SIZE]], d, r.pos))
  {
    hide Comes, BitsOf, Correct, BzHuffmanCodes.Lengths, PermOk, LimitOk, BaseOk, Longest;
    groupNo, groupPos, gSel := groupNo0, groupPos0, gSel0;
    if groupPos == 0 {
      groupNo := groupNo + 1;
      if groupNo >= |selector| { return BadCode, groupNo, groupPos, gSel; }
      groupPos := G_SIZE;
      gSel := selector[groupNo];
    }
    groupPos := groupPos - 1;
    assert k / G_SIZE == groupNo;
    ghost var lens := tables[gSel];
    assert LengthsOk(lens, alphaSize) && Decodes(ds[gSel], lens);
    d := DecodeSymbol(r, ds[gSel].limit, ds[gSel].base, ds[gSel].perm, ds[gSel].minLen, lens, Longest(lens));
  }

  // The one value eob ends a block.
  ghost predicate Ended(syms: seq<int>, eob: int) {
    |syms| > 0 && syms[|syms| - 1] == eob && forall i :: 0 <= i < |syms| - 1 ==> syms[i] != eob
  }

  // A coded value comes next: it must be what is decoded.
  lemma ValueComes(bits: seq<BitValue>, pos: nat, end: nat, syms: seq<int>, sel: seq<int>, tables: seq<seq<int>>,
                   alphaSize: nat, i: nat, rest: seq<BitValue>, d: Decoded, next: nat)
    requires Groupable(syms, sel, tables, alphaSize) && i < |syms|
    requires Left(bits, pos, end, ValueBits(syms, sel, tables, alphaSize, i) + rest)
    requires Correct(bits, pos, TableFor(syms, sel, tables, alphaSize, i), d, next)
    ensures d == Symbol(syms[i]) && Left(bits, next, end, ValueBits(syms, sel, tables, alphaSize, i + 1) + rest)
  {
    hide ValueBits, Word, Code, Kraft, Read, Value;
    var lens := TableFor(syms, sel, tables, alphaSize, i);
    ValueBitsStep(syms, sel, tables, alphaSize, i);
    var v := syms[i];
    var w, after := Word(Code(lens, v), lens[v]), ValueBits(syms, sel, tables, alphaSize, i + 1) + rest;
    Then(w, ValueBits(syms, sel, tables, alphaSize, i + 1), rest);
    LeftSplit(bits, pos, end, w, after);
    WordStarts(bits[..pos], bits[pos + |w|..], lens, MAX_SENT, v);
    assert bits[..pos] + w + bits[pos + |w|..] == bits;
    assert Starts(bits, pos, lens, v);
  }

  // What was read was a code word, of at least one bit.
  lemma Progress(bits: seq<BitValue>, pos: nat, lens: seq<int>, alphaSize: nat, d: Decoded, next: nat)
    requires LengthsOk(lens, alphaSize) && Correct(bits, pos, lens, d, next) && d.Symbol?
    ensures 0 <= d.sym < alphaSize && pos < next <= |bits|
  {
    hide Read, Code;
  }

  method ReadValues(r: Reader, selector: seq<int>, ds: seq<Decoder>, alphaSize: nat, ghost tables: seq<seq<int>>,
                    ghost sent: bool, ghost want: seq<int>, ghost end: nat, ghost rest: seq<BitValue>)
    returns (st: Status, syms: seq<int>)
    requires r.Valid() && AllDecode(ds, tables) && InRange(selector, |tables|) && AllLengths(tables, alphaSize)
    requires 1 <= alphaSize <= MAX_ALPHA_SIZE
    requires sent ==> (Groupable(want, selector, tables, alphaSize) && Ended(want, alphaSize - 1)
      && Left(r.Bits(), r.pos, end, ValueBits(want, selector, tables, alphaSize, 0) + rest))
    modifies r`avail, r`later, r`next, r`bsBuff, r`bsLive, r`pos
    ensures r.Valid() && st != Overrun && (st == Ok ==> InRange(syms, alphaSize) && Ended(syms, alphaSize - 1))
    ensures sent ==> st == Ok && syms == want && Left(r.Bits(), r.pos, end, rest)
  {
    hide Comes, BitsOf, Correct, Left, ValueBits, LengthsOk, BzHuffmanCodes.Lengths, PermOk, LimitOk, BaseOk, Longest,
      Groupable, Sendable;
    var groupNo, groupPos, gSel, eob := -1, 0, 0, alphaSize - 1;
    syms := [];
    while true
      invariant r.Valid() && InGroup(|syms|, groupNo, groupPos, gSel, selector)
      invariant forall t :: 0 <= t < |ds| ==> Decodes(ds[t], tables[t])
      invariant InRange(syms, alphaSize) && forall i :: 0 <= i < |syms| ==> syms[i] != eob
      invariant sent ==> (|syms| < |want| && syms == want[..|syms|]
        && Left(r.Bits(), r.pos, end, ValueBits(want, selector, tables, alphaSize, |syms|) + rest))
      decreases |r.Bits()| - r.pos
    {
      ghost var k, start := |syms|, r.pos;
      if sent { GroupOf(want, selector, tables, alphaSize, k); }
      var d;
      d, groupNo, groupPos, gSel := GetMtfVal(r, groupNo, groupPos, gSel, selector, ds, tables, alphaSize, k);
      if sent { ValueComes(r.Bits(), start, end, want, selector, tables, alphaSize, k, rest, d, r.pos); }
      match d
      case BadCode => return DataError, syms;
      case OutOfBits => return NeedInput, syms;
      case Symbol(nextSym) =>
        assert k / G_SIZE < |selector|;
        assert LengthsOk(tables[selector[k / G_SIZE]], alphaSize);
        Progress(r.Bits(), start, tables[selector[k / G_SIZE]], alphaSize, d, r.pos);
        syms := syms + [nextSym];
        if nextSym == eob { break; }
    }
    if sent { AllRead(want, syms, eob, selector, tables, alphaSize); assert [] + rest == rest; }
    st := Ok;
  }

  lemma GroupOf(syms: seq<int>, sel: seq<int>, tables: seq<seq<int>>, alphaSize: nat, k: nat)
    requires Groupable(syms, sel, tables, alphaSize) && k < |syms|
    ensures k / G_SIZE < |sel| && 0 <= sel[k / G_SIZE] < |tables|
    ensures TableFor(syms, sel, tables, alphaSize, k) == tables[sel[k / G_SIZE]]
  {
  }

  // The end mark has been met, and only at the end.
  lemma AllRead(want: seq<int>, syms: seq<int>, eob: int, sel: seq<int>, tables: seq<seq<int>>, alphaSize: nat)
    requires Groupable(want, sel, tables, alphaSize)
    requires Ended(want, eob) && 1 <= |syms| <= |want| && syms == want[..|syms|] && syms[|syms| - 1] == eob
    ensures syms == want && ValueBits(want, sel, tables, alphaSize, |syms|) == []
  {
    assert want[|syms| - 1] == syms[|syms| - 1];
    ValueBitsEnd(want, sel, tables, alphaSize);
  }
}
