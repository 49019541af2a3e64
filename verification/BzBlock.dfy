// A whole block, written (dep/bzip2/compress.c, BZ2_compressBlock) and read back
// (dep/bzip2/decompress.c, BZ2_decompress) by either layout of the inverse vector.
module BzBlock {
  import opened ByteType
  import opened Bits
  import opened BzRotation
  import opened BzInverseBwt
  import opened BzTVector
  import opened BzBitStream
  import opened BzHuffmanCodes
  import opened BzMtf
  import opened BzMtfEncode
  import opened BzMtfTable
  import opened BzMtfDecode
  import opened BzFormat
  import BzFallbackSort
  import BzMainSort
  import opened BzMainCompare
  import opened BzSend
  import opened BzChoose
  import opened BzReceive

  const MAX_BLOCK := 900000

  // ----- What a block is sent as -----

  // The values of a block: its last column by ranks, moved to the front, the runs coded.
  ghost function Values(b: seq<Byte>, p: seq<int>, used: seq<bool>): seq<int>
    requires b != [] && |p| == |b| && |used| == 256 && forall i :: 0 <= i < |b| ==> used[b[i]]
  {
    RanksListed(b, p, used);
    Encode(Identity(Rank(used, 256)), LastRanks(b, p, used), Rank(used, 256) + 1)
  }

  // The choices made for a block: the order, the row of the block itself, the bytes in
  // use, the selectors and the code lengths.
  datatype Choices = Choices(p: seq<int>, orig: int, used: seq<bool>, sel: seq<int>, tables: seq<seq<int>>)

  ghost predicate Proper(b: seq<Byte>, c: Choices) {
    && 1 <= |b| <= MAX_BLOCK && SortedRotations(b, c.p) && 0 <= c.orig < |b| && c.p[c.orig] == 0
    && |c.used| == 256 && (forall i :: 0 <= i < |b| ==> c.used[b[i]])
    && Groupable(Values(b, c.p, c.used), c.sel, c.tables, Rank(c.used, 256) + 2)
    && |c.tables| == GroupsFor(|Values(b, c.p, c.used)|)
  }

  ghost function SentBlock(b: seq<Byte>, crc: nat, c: Choices): seq<BitValue>
    requires Proper(b, c)
  {
    HeaderBits(crc, c.orig) + SentBits(c.used, Values(b, c.p, c.used), c.sel, c.tables, Rank(c.used, 256) + 2)
  }

  // ----- The values of a block -----

  lemma {:induction false} ScanInRange(list: seq<int>, s: seq<int>)
    requires list != [] && Ranks(s, list)
    ensures InRange(Scan(list, s).out, |list| + 1)
  {
    hide ToFront;
    if s != [] {
      RanksPrefix(list, s, |s| - 1);
      ScanInRange(list, s[..|s| - 1]);
      var c := Scan(list, s[..|s| - 1]);
      RunInRange(c.zeros);
    }
  }

  lemma RunInRange(z: nat)
    ensures InRange(Run(z), 2)
  {
  }

  lemma ValuesEnded(b: seq<Byte>, p: seq<int>, used: seq<bool>)
    requires b != [] && |p| == |b| && |used| == 256 && forall i :: 0 <= i < |b| ==> used[b[i]]
    ensures Rank(used, 256) >= 1
    ensures InRange(Values(b, p, used), Rank(used, 256) + 2) && Ended(Values(b, p, used), Rank(used, 256) + 1)
  {
    hide Scan, Run, Rank, LastRanks, Identity;
    RanksListed(b, p, used);
    var m := Rank(used, 256);
    ScanInRange(Identity(m), LastRanks(b, p, used));
    RunInRange(Scan(Identity(m), LastRanks(b, p, used)).zeros);
  }

  lemma IdentityPrefix(m: nat)
    requires m <= 256
    ensures Identity(256)[..m] == Identity(m)
  {
  }

  // Move to front and the run code undo each other.
  lemma ValuesDecode(b: seq<Byte>, p: seq<int>, used: seq<bool>, room: int)
    requires 1 <= |b| <= room < 0x3f_ffff && |p| == |b| && |used| == 256 && forall i :: 0 <= i < |b| ==> used[b[i]]
    ensures Decode(Identity(256), Values(b, p, used), Rank(used, 256) + 1, room) == Done(LastRanks(b, p, used))
  {
    hide Decode, Encode, Rank, LastRanks, Ranks, Identity;
    RanksListed(b, p, used);
    RankAll(used);
    IdentityPrefix(Rank(used, 256));
    RoundTrip(Identity(256), Rank(used, 256), LastRanks(b, p, used), room);
  }

  lemma RankAll(used: seq<bool>)
    requires |used| == 256
    ensures Rank(used, 256) <= 256 && |Identity(256)| == 256
  {
  }

  // The ranks name the bytes of the last column.
  lemma RanksName(b: seq<Byte>, p: seq<int>, used: seq<bool>, to: seq<int>, i: nat)
    requires b != [] && |p| == |b| && |used| == 256 && (forall i :: 0 <= i < |b| ==> used[b[i]])
    requires Unmaps(to, used, 256) && i < |b|
    ensures 0 <= LastRanks(b, p, used)[i] < |to| && to[LastRanks(b, p, used)[i]] == LastColumn(b, p)[i]
  {
    hide Rank, LastColumn;
    LastUsed(b, p, used, i);
    var c := LastColumn(b, p)[i];
    assert used[c];
  }

  // ----- The column a block leaves behind -----

  ghost predicate Bytes(tt: seq<nat>, n: nat) {
    n <= |tt| && forall i :: 0 <= i < n ==> tt[i] < 256
  }

  ghost function Column(tt: seq<nat>, n: nat): (l: seq<Byte>)
    requires Bytes(tt, n)
    ensures |l| == n && forall i :: 0 <= i < n ==> l[i] == tt[i]
  {
    seq(n, i requires 0 <= i < n => tt[i])
  }

  lemma {:induction false} TimesIsCount(done: seq<int>, to: seq<int>, l: seq<Byte>, c: int)
    requires |l| == |done| && forall i :: 0 <= i < |done| ==> 0 <= done[i] < |to| && to[done[i]] == l[i]
    ensures Times(done, to, c) == Count(l, c)
  {
    if done != [] { TimesIsCount(done[..|done| - 1], to, l[..|l| - 1], c); }
  }

  lemma WrittenColumn(tt: seq<nat>, counts: seq<int>, done: seq<int>, to: seq<int>)
    requires Written(tt, counts, done, to) && forall r :: 0 <= r < |to| ==> 0 <= to[r] < 256
    ensures Bytes(tt, |done|) && BzTVector.Tally(counts, Column(tt, |done|))
  {
    hide Times, Count;
    var l := Column(tt, |done|);
    forall c | 0 <= c < 256 ensures counts[c] == Count(l, c) { TimesIsCount(done, to, l, c); }
  }

  lemma {:induction false} CountBelow(l: seq<Byte>, c: int)
    ensures Count(l, c) <= |l|
  {
    if l != [] { CountBelow(l[..|l| - 1], c); }
  }

  // Real counts are always accepted.
  lemma CountsAccepted(counts: seq<int>, l: seq<Byte>)
    requires BzTVector.Tally(counts, l)
    ensures forall c :: 0 <= c < 256 ==> 0 <= counts[c] <= |l|
    ensures Sum(counts, 256) <= |l| && forall c :: 0 <= c <= 256 ==> Sum(counts, c) == Smaller(l, c)
  {
    hide Count, Smaller;
    forall c | 0 <= c < 256 ensures counts[c] <= |l| { CountBelow(l, c); }
    forall c: nat | c <= 256 ensures Sum(counts, c) == Smaller(l, c) { SumIsSmaller(counts, l, c); }
    SmallerEnds(l);
  }

  // ----- Writing -----

  // The pointers, seen as halfwords.
  method AsHalfwords(ptr: array<int>, n: nat) returns (cells: array<int>)
    requires n <= ptr.Length && forall i :: 0 <= i < n ==> 0 <= ptr[i] < 0x8000_0000
    ensures fresh(cells) && cells.Length == 2 * n && Ptrs(cells[..], n) == ptr[..n]
  {
    cells := new int[2 * n];
    for i := 0 to n
      invariant forall k :: 0 <= k < i ==> cells[2 * k] + 65536 * cells[2 * k + 1] == ptr[k]
    {
      cells[2 * i] := ptr[i] % 65536;
      cells[2 * i + 1] := ptr[i] / 65536;
    }
  }

  method SendMtfValues(w: Writer, mtfv: seq<int>, mtfFreq: array<int>, used: seq<bool>, nInUse: nat)
    returns (ghost sel: seq<int>, ghost tables: seq<seq<int>>, ghost hist: seq<seq<seq<int>>>,
      ghost sels: seq<seq<int>>)
    requires mtfFreq.Length >= MAX_ALPHA
    requires w.Valid() && |used| == 256 && 1 <= nInUse <= 256
      && InRange(mtfv, nInUse + 2) && 1 <= |mtfv| <= MAX_BLOCK + 1
    modifies w
    ensures w.Valid() && Groupable(mtfv, sel, tables, nInUse + 2) && |tables| == GroupsFor(|mtfv|)
    ensures w.written == old(w.written) + SentBits(used, mtfv, sel, tables, nInUse + 2)
    ensures Passes(hist, sels, mtfv, mtfFreq[..], |tables|, nInUse + 2) && |sels| == 4
    ensures sel == sels[3] && tables == hist[4]
  {
    hide Buffered, InRange, AllSendable, AllPriced, Passes, AllCoded, MappingBits, SelectorBits, TableBits, ValueBits;
    var alphaSize := nInUse + 2;
    var nGroups := GroupsFor(|mtfv|);
    var selector, len;
    selector, len, hist, sels := Improve(mtfv, mtfFreq, nGroups, alphaSize);
    sel, tables := selector, len;
    assert nGroups < 8;
    assert |selector| < 32768 && |selector| <= MAX_SELECTORS;
    var codes := AssignTables(len, alphaSize);
    ghost var start := w.written;
    SendMapping(w, used);
    SendSelectors(w, selector, nGroups);
    SendTables(w, len, alphaSize);
    var selCtr := SendValues(w, mtfv, selector, len, codes, alphaSize);
    assert selCtr == |selector|;
    FiveParts(start, MappingBits(used), SelectorBits(sel, nGroups), TableBits(tables, alphaSize, 0),
              ValueBits(mtfv, sel, tables, alphaSize, 0));
  }

  lemma FiveParts(s: seq<BitValue>, a: seq<BitValue>, b: seq<BitValue>, c: seq<BitValue>, d: seq<BitValue>)
    ensures s + a + b + c + d == s + (a + b + c + d)
  {
  }

  method SendHeader(w: Writer, crc: nat, origPtr: nat)
    requires w.Valid() && crc < Pow2(32) && origPtr < MAX_BLOCK
    modifies w
    ensures w.Valid() && w.written == old(w.written) + HeaderBits(crc, origPtr)
  {
    hide Buffered, Word;
    ghost var start := w.written;
    SmallWords();
    Pow2Add(8, 8);
    Pow2Add(16, 8);
    w.W(8, 0x31);
    w.W(8, 0x41);
    w.W(8, 0x59);
    w.W(8, 0x26);
    w.W(8, 0x53);
    w.W(8, 0x59);
    MarkSent(start);
    w.PutUInt32(crc);
    w.W(1, 0);
    w.W(24, origPtr);
    FiveParts(start, MarkBits(0), Word(crc, 32), [0], Word(origPtr, 24));
  }

  lemma MarkSent(s: seq<BitValue>)
    ensures s + Word(0x31, 8) + Word(0x41, 8) + Word(0x59, 8) + Word(0x26, 8) + Word(0x53, 8) + Word(0x59, 8)
      == s + MarkBits(0)
  {
    hide Word;
    MarkNext(5);
    var f := Word(0x59, 8);
    assert MarkBits(5) == f + [] && MarkBits(4) == Word(0x53, 8) + MarkBits(5)
      && MarkBits(3) == Word(0x26, 8) + MarkBits(4);
    assert MarkBits(2) == f + MarkBits(3) && MarkBits(1) == Word(0x41, 8) + MarkBits(2);
    assert MarkBits(0) == Word(0x31, 8) + MarkBits(1);
  }

  // What was written for a block.
  ghost predicate SentAs(b: seq<Byte>, crc: nat, c: Choices, before: seq<BitValue>, after: seq<BitValue>) {
    Proper(b, c) && after == before + SentBlock(b, crc, c)
  }

  lemma AllSent(b: seq<Byte>, crc: nat, c: Choices, before: seq<BitValue>, after: seq<BitValue>)
    requires 1 <= |b| <= MAX_BLOCK && SortedRotations(b, c.p) && 0 <= c.orig < |b| == |c.p| && c.p[c.orig] == 0
    requires |c.used| == 256 && forall i :: 0 <= i < |b| ==> c.used[b[i]]
    requires Groupable(Values(b, c.p, c.used), c.sel, c.tables, Rank(c.used, 256) + 2)
    requires |c.tables| == GroupsFor(|Values(b, c.p, c.used)|)
    requires after == before + HeaderBits(crc, c.orig)
      + SentBits(c.used, Values(b, c.p, c.used), c.sel, c.tables, Rank(c.used, 256) + 2)
    ensures SentAs(b, crc, c, before, after)
  {
    hide Encode, LastRanks, Rank, Groupable, HeaderBits, SentBits, SortedRotations;
    Then(before, HeaderBits(crc, c.orig), SentBits(c.used, Values(b, c.p, c.used), c.sel, c.tables,
      Rank(c.used, 256) + 2));
  }

  // The order of the rotations and the row of the block itself.
  ghost predicate SortedBy(b: seq<Byte>, p: seq<int>, orig: int) {
    b != [] && SortedRotations(b, p) && 0 <= orig < |b| == |p| && p[orig] == 0
  }

  // The main sort for long blocks, as long as the work factor lets it; else the fallback.
  method BlockSort(block: array<Byte>, n: nat, workFactor: int) returns (ptr: array<int>, origPtr: nat)
    requires 1 <= n == block.Length <= MAX_BLOCK
    modifies block
    ensures fresh(ptr) && ptr.Length == n && block[..] == old(block[..]) && SortedBy(block[..], ptr[..], origPtr)
  {
    hide SortedRotations;
    ghost var b := block[..];
    ptr := new int[n];
    var budget := -1;
    if n >= 10000 {
      var wfact := if workFactor < 1 then 1 else if workFactor > 100 then 100 else workFactor;
      var budgetInit := n * ((wfact - 1) / 3);
      budget := SortWide(block, ptr, n, budgetInit);
    }
    if budget < 0 { SortFallback(block, ptr, n); }
    SortedParts(b, ptr[..]);
    origPtr := BzFallbackSort.FindOrigin(ptr, n);
  }

  // mainSort works on the block with room behind it for its first bytes.
  method SortWide(block: array<Byte>, ptr: array<int>, n: nat, budgetInit: nat) returns (budget: int)
    requires 10000 <= n == block.Length == ptr.Length <= MAX_BLOCK
    modifies ptr
    ensures budget >= 0 ==> SortedRotations(block[..], ptr[..])
  {
    hide SortedRotations;
    var wide, quadrant := new Byte[n + OVERSHOOT](_ => 0), new int[n + OVERSHOOT];
    var ftab := new int[65537];
    for i := 0 to n
      invariant forall k :: 0 <= k < i ==> wide[k] == block[k]
    {
      wide[i] := block[i];
    }
    assert wide[..n] == block[..];
    budget := BzMainSort.MainSort(ptr, wide, quadrant, ftab, n, budgetInit);
  }

  method SortFallback(block: array<Byte>, ptr: array<int>, n: nat)
    requires 1 <= n == block.Length == ptr.Length <= MAX_BLOCK
    modifies block, ptr
    ensures block[..] == old(block[..]) && SortedRotations(block[..], ptr[..])
  {
    hide SortedRotations;
    var eclass, bhtab := new int[n], new bool[32 * (3 + n / 32)];
    BzFallbackSort.FallbackSort(ptr, eclass, block, bhtab, n);
  }

  // The values of the block, over its order.
  method MakeValues(ptr: array<int>, block: array<Byte>, inUse: array<bool>, n: nat, ghost orig: int)
    returns (mtfv: seq<int>, mtfFreq: array<int>, nInUse: nat)
    requires 1 <= n == block.Length == ptr.Length <= MAX_BLOCK && inUse.Length == 256
    requires SortedBy(block[..], ptr[..], orig) && forall i :: 0 <= i < n ==> inUse[block[i]]
    ensures 1 <= nInUse == Rank(inUse[..], 256) <= 256
    ensures fresh(mtfFreq) && mtfFreq.Length == MAX_ALPHA && BzMtfEncode.Tally(mtfFreq[..], mtfv)
    ensures mtfv == Values(block[..], ptr[..], inUse[..]) && 1 <= |mtfv| <= n + 1 && InRange(mtfv, nInUse + 2)
  {
    hide SortedRotations, Encode, LastRanks, Rank, BzMtfEncode.Tally, Ranks, InRange;
    SortedParts(block[..], ptr[..]);
    mtfFreq := new int[MAX_ALPHA];
    var cells := AsHalfwords(ptr, n);
    assert ptr[..n] == ptr[..] && block[..n] == block[..];
    var nMTF;
    nMTF, nInUse := GenerateMtfValues(cells, block, inUse, mtfFreq, n);
    mtfv := cells[..nMTF];
    ValuesEnded(block[..], ptr[..], inUse[..]);
  }

  // Selectors and tables are what the four passes lead to, from the frequencies of the values.
  ghost predicate WellChosen(b: seq<Byte>, c: Choices, hist: seq<seq<seq<int>>>, sels: seq<seq<int>>) {
    && b != [] && |c.p| == |b| && |c.used| == 256 && (forall i :: 0 <= i < |b| ==> c.used[b[i]])
    && var mtfv, alphaSize := Values(b, c.p, c.used), Rank(c.used, 256) + 2;
      && |sels| == 4 && (exists f :: BzMtfEncode.Tally(f, mtfv) && Passes(hist, sels, mtfv, f, |c.tables|, alphaSize))
      && c.sel == sels[3] && c.tables == hist[4]
  }

  // A block: sorted, the values computed over the order, everything sent.
  method CompressBlock(w: Writer, block: array<Byte>, n: nat, inUse: array<bool>, blockCRC: nat, workFactor: int)
    returns (ghost c: Choices, ghost hist: seq<seq<seq<int>>>, ghost sels: seq<seq<int>>)
    requires w.Valid() && 1 <= n == block.Length <= MAX_BLOCK && inUse.Length == 256 && blockCRC < Pow2(32)
    requires forall i :: 0 <= i < n ==> inUse[block[i]]
    modifies w, block
    ensures w.Valid() && block[..] == old(block[..])
    ensures SentAs(block[..], blockCRC, c, old(w.written), w.written) && WellChosen(block[..], c, hist, sels)
  {
    hide Buffered, SortedRotations, Values, Rank, Groupable, HeaderBits, SentBits, InRange, Proper, SentBlock, SentAs,
      Passes, BzMtfEncode.Tally;
    ghost var start := w.written;
    var ptr, origPtr := BlockSort(block, n, workFactor);
    SendHeader(w, blockCRC, origPtr);
    var mtfv, mtfFreq, nInUse := MakeValues(ptr, block, inUse, n, origPtr);
    var used := inUse[..];
    ghost var sel, tables;
    sel, tables, hist, sels := SendMtfValues(w, mtfv, mtfFreq, used, nInUse);
    c := Choices(ptr[..], origPtr, used, sel, tables);
    AllSent(block[..], blockCRC, c, start, w.written);
  }

  lemma SortedParts(b: seq<Byte>, p: seq<int>)
    requires b != [] && SortedRotations(b, p)
    ensures IsPermutation(p, |b|) && |p| == |b| && forall i :: 0 <= i < |b| ==> 0 <= p[i] < |b|
  {
  }

  // ----- Reading -----

  // The six bytes that open a block.
  method ReadMagic(r: Reader, ghost sent: bool, ghost end: nat, ghost rest: seq<BitValue>) returns (st: Status)
    requires r.Valid() && (sent ==> Left(r.Bits(), r.pos, end, MarkBits(0) + rest))
    modifies r`avail, r`later, r`next, r`bsBuff, r`bsLive, r`pos
    ensures r.Valid() && st != Overrun && (st == Ok <==> MarkAt(r.Bits(), old(r.pos)))
    ensures st == Ok ==> r.pos == old(r.pos) + 48 <= |r.Bits()|
    ensures st == Ok <==> old(r.pos) + 48 <= |r.Bits()| && (var bits, p := r.Bits(), old(r.pos);
      && Read(bits, p, 8) == 0x31 && Read(bits, p + 8, 8) == 0x41 && Read(bits, p + 16, 8) == 0x59
      && Read(bits, p + 24, 8) == 0x26 && Read(bits, p + 32, 8) == 0x53 && Read(bits, p + 40, 8) == 0x59)
    ensures sent ==> st == Ok && Left(r.Bits(), r.pos, end, rest)
  {
    hide Comes, BitsOf, Left, Word, MarkBits, Read;
    SmallWords();
    for i := 0 to 6
      invariant r.pos == old(r.pos) + 8 * i && (i > 0 ==> r.pos <= |r.Bits()|)
      invariant forall k :: 0 <= k < i ==> Read(r.Bits(), old(r.pos) + 8 * k, 8) == MARK[k]
      invariant r.Valid() && (sent ==> Left(r.Bits(), r.pos, end, MarkBits(i) + rest))
    {
      MarkNext(i);
      Then(Word(MARK[i], 8), MarkBits(i + 1), rest);
      var ok, uc := ReadWord(r, 8, sent, MARK[i], end, MarkBits(i + 1) + rest);
      if !ok { return NeedInput; }
      if uc != MARK[i] {
        MarkBytes(r.Bits(), old(r.pos));
        return DataError;
      }
    }
    MarkNext(5);
    assert [] + rest == rest;
    st := Ok;
    MarkBytes(r.Bits(), old(r.pos));
  }

  // The six bytes, one by one.
  lemma MarkBytes(bits: seq<BitValue>, p: nat)
    ensures MarkAt(bits, p) <==> (p + 48 <= |bits|
      && Read(bits, p, 8) == 0x31 && Read(bits, p + 8, 8) == 0x41 && Read(bits, p + 16, 8) == 0x59
      && Read(bits, p + 24, 8) == 0x26 && Read(bits, p + 32, 8) == 0x53 && Read(bits, p + 40, 8) == 0x59)
  {
    hide Read;
    assert MARK[0] == 0x31 && MARK[1] == 0x41 && MARK[2] == 0x59;
    assert MARK[3] == 0x26 && MARK[4] == 0x53 && MARK[5] == 0x59;
    if MarkAt(bits, p) {
      assert Read(bits, p + 8 * 0, 8) == MARK[0] && Read(bits, p + 8 * 1, 8) == MARK[1];
      assert Read(bits, p + 8 * 2, 8) == MARK[2] && Read(bits, p + 8 * 3, 8) == MARK[3];
      assert Read(bits, p + 8 * 4, 8) == MARK[4] && Read(bits, p + 8 * 5, 8) == MARK[5];
    }
  }

  lemma MarkNext(i: nat)
    requires i < 6
    ensures MarkBits(i) == Word(MARK[i], 8) + MarkBits(i + 1) && MarkBits(6) == []
  {
  }

  // A 24-bit or 32-bit number, byte by byte.
  method ReadNumber(r: Reader, k: nat, ghost sent: bool, ghost v: nat, ghost end: nat, ghost rest: seq<BitValue>)
    returns (ok: bool, u: nat)
    requires r.Valid() && r.pos <= |r.Bits()|
    requires sent ==> (v < Pow2(8 * k) && Left(r.Bits(), r.pos, end, Word(v, 8 * k) + rest))
    modifies r`avail, r`later, r`next, r`bsBuff, r`bsLive, r`pos
    ensures r.Valid() && (ok <==> old(r.pos) + 8 * k <= |r.Bits()|)
    ensures ok ==> r.pos == old(r.pos) + 8 * k && u == Read(r.Bits(), old(r.pos), 8 * k)
    ensures sent ==> ok && u == v && Left(r.Bits(), r.pos, end, rest)
  {
    hide Comes, BitsOf, Left, Word, Shr, Pow2, Read;
    u := 0;
    ghost var start := r.pos;
    ReadNone(r.Bits(), start);
    if sent { NumberStart(v, k); }
    for i := 0 to k
      invariant r.Valid() && r.pos == start + 8 * i <= |r.Bits()| && u == Read(r.Bits(), start, 8 * i)
      invariant sent ==> u == Shr(v, 8 * (k - i)) && Left(r.Bits(), r.pos, end, Word(v, 8 * (k - i)) + rest)
    {
      ghost var x, m := Shr(v, 8 * (k - i - 1)), k - i - 1;
      NumberStep(v, m, rest);
      var uc;
      ok, uc := ReadWord(r, 8, sent, x % 256, end, Word(v, 8 * m) + rest);
      if !ok { return; }
      ReadJoin(r.Bits(), start, 8 * i);
      u := u * 256 + uc;
    }
    NumberEnd(v, rest);
    ok := true;
  }

  lemma ReadNone(bits: seq<BitValue>, pos: nat)
    requires pos <= |bits|
    ensures Read(bits, pos, 0) == 0
  {
  }

  lemma ReadJoin(bits: seq<BitValue>, pos: nat, n: nat)
    requires pos + n + 8 <= |bits|
    ensures Read(bits, pos, n + 8) == Read(bits, pos, n) * 256 + Read(bits, pos + n, 8)
  {
    hide Value;
    assert bits[pos..pos + n + 8] == bits[pos..pos + n] + bits[pos + n..pos + n + 8];
    ValueJoin(bits[pos..pos + n], bits[pos + n..pos + n + 8]);
    assert Pow2(8) == 256;
  }

  lemma {:induction false} ValueJoin(a: seq<BitValue>, b: seq<BitValue>)
    ensures Value(a + b) == Value(a) * Pow2(|b|) + Value(b)
  {
    if b == [] { assert a + b == a; }
    else {
      var n := |b| - 1;
      ValueJoin(a, b[..n]);
      assert (a + b)[..|a| + n] == a + b[..n];
      assert Value(a) * (2 * Pow2(n)) == 2 * (Value(a) * Pow2(n));
    }
  }

  lemma NumberStart(v: nat, k: nat)
    requires v < Pow2(8 * k)
    ensures Shr(v, 8 * k) == 0
  {
    ShrSmall(v, 8 * k);
  }

  lemma NumberStep(v: nat, m: nat, rest: seq<BitValue>)
    ensures Pow2(8) == 256 && Shr(v, 8 * m) == Shr(v, 8 * (m + 1)) * 256 + Shr(v, 8 * m) % 256
    ensures Word(v, 8 * (m + 1)) + rest == Word(Shr(v, 8 * m) % 256, 8) + (Word(v, 8 * m) + rest)
  {
    hide Word;
    assert Pow2(8) == 256;
    var x := Shr(v, 8 * m);
    WordSplit(v, 8, 8 * m);
    WordMod(x, 8, 8);
    Then(Word(x % 256, 8), Word(v, 8 * m), rest);
    ShrShr(v, 8 * m, 8);
    ShrByte(x);
  }

  lemma ShrByte(x: nat)
    ensures Shr(x, 8) == x / 256
  {
    assert Pow2(8) == 256;
    ShrIs(x, 8);
  }

  lemma {:induction false} ShrIs(x: nat, n: nat)
    ensures Shr(x, n) == x / Pow2(n)
    decreases n
  {
    if n > 0 {
      ShrIs(x / 2, n - 1);
      HalfQuotient(x / 2, x % 2, Pow2(n - 1));
    }
  }

  lemma NumberEnd(v: nat, rest: seq<BitValue>)
    ensures Shr(v, 0) == v && Word(v, 0) + rest == rest
  {
  }

  // From the opening mark to the bytes in use.
  method ReadHeader(r: Reader, blockSize100k: nat, ghost sent: bool, ghost crc: nat, ghost orig: nat, ghost end: nat,
                    ghost rest: seq<BitValue>)
    returns (st: Status, storedBlockCRC: nat, randomised: bool, origPtr: nat)
    requires r.Valid()
    requires sent ==> (crc < Pow2(32) && orig < Pow2(24) && orig <= 10 + 100000 * blockSize100k
      && Left(r.Bits(), r.pos, end, HeaderBits(crc, orig) + rest))
    modifies r`avail, r`later, r`next, r`bsBuff, r`bsLive, r`pos
    ensures r.Valid() && st != Overrun && (st == Ok <==> HeaderAt(r.Bits(), old(r.pos), blockSize100k))
    ensures st == Ok ==> (r.pos == old(r.pos) + 105 && storedBlockCRC == Read(r.Bits(), old(r.pos) + 48, 32)
      && (randomised <==> r.Bits()[old(r.pos) + 80] == 1) && origPtr == Read(r.Bits(), old(r.pos) + 81, 24))
    ensures sent ==>
      st == Ok && storedBlockCRC == crc && !randomised && origPtr == orig && Left(r.Bits(), r.pos, end, rest)
  {
    hide Comes, BitsOf, Left, Word, Pow2, MarkBits, Read, MarkAt;
    storedBlockCRC, randomised, origPtr := 0, false, 0;
    ghost var tail := Word(orig, 24) + rest;
    FourPartsOf(MarkBits(0), Word(crc, 32), [0], Word(orig, 24), rest);
    st := ReadMagic(r, sent, end, Word(crc, 32) + ([0] + tail));
    if st != Ok { return; }
    var ok;
    ok, storedBlockCRC := ReadNumber(r, 4, sent, crc, end, [0] + tail);
    if !ok { st := NeedInput; return; }
    var uc;
    ok, uc := ReadBit(r, sent, 0, end, tail);
    if !ok { st := NeedInput; return; }
    randomised := uc == 1;
    ok, origPtr := ReadNumber(r, 3, sent, orig, end, rest);
    if !ok { st := NeedInput; return; }
    if origPtr > 10 + 100000 * blockSize100k { st := DataError; }
  }

  lemma FourPartsOf(a: seq<BitValue>, b: seq<BitValue>, c: seq<BitValue>, d: seq<BitValue>, rest: seq<BitValue>)
    ensures a + b + c + d + rest == a + (b + (c + (d + rest)))
  {
  }

  // What became of the selectors behind the table of bytes in use.
  ghost predicate Coded(st: Status, bits: seq<BitValue>, pos: nat) {
    st == Ok || st == Overrun ==>
      pos + 16 <= |bits| && (st == Overrun <==> SelectorsOverrun(bits, RowsStop(bits, pos, 16)))
  }

  // Everything of a block behind its header comes, as sent.
  ghost predicate CodedArrives(bits: seq<BitValue>, pos: nat, end: nat, used: seq<bool>, want: seq<int>, sel: seq<int>,
                               tables: seq<seq<int>>, rest: seq<BitValue>)
    requires |used| == 256
  {
    && Rank(used, 256) >= 1 && Groupable(want, sel, tables, Rank(used, 256) + 2)
    && |tables| == GroupsFor(|want|) && 1 <= |want| <= MAX_BLOCK + 1 && Ended(want, Rank(used, 256) + 1)
    && Left(bits, pos, end, SentBits(used, want, sel, tables, Rank(used, 256) + 2) + rest)
  }

  // Everything up to the values.
  method ReadCoded(r: Reader, inUse: array<bool>, seqToUnseq: array<int>, ghost sent: bool, ghost used: seq<bool>,
                   ghost want: seq<int>, ghost sel: seq<int>, ghost tables: seq<seq<int>>, ghost end: nat,
                   ghost rest: seq<BitValue>)
    returns (st: Status, nInUse: nat, syms: seq<int>)
    requires r.Valid() && inUse.Length == 256 == seqToUnseq.Length && |used| == 256
    requires forall i :: 0 <= i < 256 ==> 0 <= seqToUnseq[i] < 256
    requires sent ==> CodedArrives(r.Bits(), r.pos, end, used, want, sel, tables, rest)
    modifies inUse, seqToUnseq, r`avail, r`later, r`next, r`bsBuff, r`bsLive, r`pos
    ensures r.Valid()
    ensures st == Ok ==> (1 <= nInUse <= 256 && InRange(syms, nInUse + 2) && InRange(seqToUnseq[..], 256))
    ensures Coded(st, r.Bits(), old(r.pos))
    ensures sent ==> (st == Ok && nInUse == Rank(used, 256) && syms == want && Unmaps(seqToUnseq[..], used, 256)
      && Left(r.Bits(), r.pos, end, rest))
  {
    hide Comes, BitsOf, Left, Rank, Groupable, InRange, Ended, MappingBits, SelectorBits, TableBits, ValueBits,
      AllLengths,
      AllDecode, AllSendable, Unmaps, Decodes, SelectorsOverrun;
    nInUse, syms := 0, [];
    ghost var alpha := Rank(used, 256) + 2;
    ghost var afterV, afterT, afterS := rest, rest, rest;
    if sent {
      GroupableAll(want, sel, tables, alpha);
      afterV := ValueBits(want, sel, tables, alpha, 0) + rest;
      afterT := TableBits(tables, alpha, 0) + afterV;
      afterS := SelectorBits(sel, |tables|) + afterT;
      FourPartsOf(MappingBits(used), SelectorBits(sel, |tables|), TableBits(tables, alpha, 0), ValueBits(want, sel,
        tables, alpha, 0), rest);
    }
    st := ReadMapping(r, inUse, sent, used, end, afterS);
    if st != Ok { return; }
    nInUse := MakeMapsD(inUse, seqToUnseq);
    UnmapsInRange(seqToUnseq[..], inUse[..]);
    if nInUse == 0 { st := DataError; return; }
    var selectorMtf, selector := new int[MAX_SELECTORS], new int[MAX_SELECTORS];
    var nGroups, nSelectors;
    st, nGroups, nSelectors := ReadSelectors(r, selectorMtf, selector, sent, sel, |tables|, end, afterT);
    if st != Ok { return; }
    var len;
    st, len := ReadTables(r, nGroups, nInUse + 2, sent, tables, end, afterV);
    if st != Ok { return; }
    var ds := MakeDecoders(len, nInUse + 2);
    st, syms := ReadValues(r, selector[..nSelectors], ds, nInUse + 2, len, sent, want, end, rest);
  }

  lemma GroupableAll(syms: seq<int>, sel: seq<int>, tables: seq<seq<int>>, alphaSize: nat)
    requires Groupable(syms, sel, tables, alphaSize) && 1 <= |syms| <= MAX_BLOCK + 1
    ensures AllSendable(tables, alphaSize) && InRange(sel, |tables|) && 1 <= |sel| <= MAX_SELECTORS
  {
  }

  lemma UnmapsInRange(to: seq<int>, used: seq<bool>)
    requires |used| == 256 == |to| && Unmaps(to, used, 256)
    requires forall r :: Rank(used, 256) <= r < 256 ==> 0 <= to[r] < 256
    ensures InRange(to, 256) && Rank(used, 256) <= 256
  {
    hide Rank;
    RankAll(used);
  }

  // From the values to the last column and its cumulative counts.
  method Unravel(syms: seq<int>, nInUse: nat, seqToUnseq: array<int>, tt: array<nat>, cftab: array<int>, nblockMAX: nat,
                 origPtr: nat, ghost sent: bool, ghost b: seq<Byte>, ghost c: Choices)
    returns (st: Status, nblock: nat)
    requires 1 <= nInUse <= 256 && InRange(syms, nInUse + 2) && seqToUnseq.Length == 256 && InRange(seqToUnseq[..], 256)
    requires nblockMAX <= MAX_BLOCK && nblockMAX <= tt.Length && cftab.Length == 257
    requires cftab as object != tt && seqToUnseq as object != tt && seqToUnseq != cftab
    requires sent ==> (Proper(b, c) && |b| <= nblockMAX && origPtr == c.orig && nInUse == Rank(c.used, 256)
      && syms == Values(b, c.p, c.used) && Unmaps(seqToUnseq[..], c.used, 256))
    modifies tt, cftab
    ensures st != Overrun
    ensures st == Ok ==> (origPtr < nblock <= nblockMAX && Bytes(tt[..], nblock)
      && forall i :: 0 <= i <= 256 ==> cftab[i] == Smaller(Column(tt[..], nblock), i))
    ensures st == Ok ==> forall i :: nblock <= i < tt.Length ==> tt[i] == old(tt[i])
    ensures sent ==> st == Ok && nblock == |b| && Column(tt[..], nblock) == LastColumn(b, c.p)
  {
    hide Proper, Values, Rank, Unmaps, Decode, Smaller, Count, LastColumn, Written, Sum;
    var mtfa, mtfbase, unzftab := new int[MTFA_SIZE], new int[SEGMENTS], new int[256];
    ghost var to := seqToUnseq[..];
    if sent {
      ProperParts(b, c);
      ValuesDecode(b, c.p, c.used, nblockMAX);
    }
    assert forall r :: 0 <= r < 256 ==> to[r] == seqToUnseq[r];
    st, nblock := DecodeValues(syms, mtfa, mtfbase, seqToUnseq, tt, unzftab, nInUse, nblockMAX);
    if st != Ok { return; }
    if origPtr >= nblock { st := DataError; return; }
    ghost var done := Decode(Identity(256), syms, nInUse + 1, nblockMAX).s;
    WrittenColumn(tt[..], unzftab[..], done, to);
    CountsAccepted(unzftab[..], Column(tt[..], nblock));
    if sent { ColumnIsLast(b, c, to, tt[..], unzftab[..]); }
    var ok := BuildCftab(unzftab, cftab, nblock);
    if !ok { st := DataError; }
  }

  lemma ProperParts(b: seq<Byte>, c: Choices)
    requires Proper(b, c)
    ensures 1 <= |b| <= MAX_BLOCK && |c.p| == |b| && |c.used| == 256 && 0 <= c.orig < |b|
    ensures forall i :: 0 <= i < |b| ==> c.used[b[i]]
    ensures SortedRotations(b, c.p) && c.p[c.orig] == 0
  {
  }

  lemma ColumnIsLast(b: seq<Byte>, c: Choices, to: seq<int>, tt: seq<nat>, counts: seq<int>)
    requires Proper(b, c) && Unmaps(to, c.used, 256) && Bytes(tt, |b|)
    requires Written(tt, counts, LastRanks(b, c.p, c.used), to)
    ensures Column(tt, |b|) == LastColumn(b, c.p)
  {
    hide Unmaps, LastColumn, LastRanks, Times;
    ProperParts(b, c);
    forall i | 0 <= i < |b| ensures Column(tt, |b|)[i] == LastColumn(b, c.p)[i] {
      RanksName(b, c.p, c.used, to, i);
    }
  }

  // The stream up to end is block b, as sent, and then rest; it fits the block size.
  ghost predicate Arrives(bits: seq<BitValue>, pos: nat, end: nat, blockSize100k: nat, b: seq<Byte>, crc: nat,
                          c: Choices,
                          rest: seq<BitValue>)
  {
    Proper(b, c) && |b| <= 100000 * blockSize100k && crc < Pow2(32) && Left(bits, pos, end, SentBlock(b, crc, c) + rest)
  }

  // A block is accepted only if its header is and the stores of its selectors stay inside their
  // arrays; they leave them only if the stream overruns them.
  ghost predicate Verdict(st: Status, bits: seq<BitValue>, pos: nat, blockSize100k: nat) {
    && (st == Ok || st == Overrun ==> HeaderAt(bits, pos, blockSize100k))
    && (st == Ok ==> !BlockOverruns(bits, pos)) && (st == Overrun ==> BlockOverruns(bits, pos))
  }

  // What comes behind the header.
  ghost function Behind(b: seq<Byte>, c: Choices, rest: seq<BitValue>): seq<BitValue>
    requires Proper(b, c)
  {
    SentBits(c.used, Values(b, c.p, c.used), c.sel, c.tables, Rank(c.used, 256) + 2) + rest
  }

  lemma ArrivesParts(bits: seq<BitValue>, pos: nat, end: nat, blockSize100k: nat, b: seq<Byte>, crc: nat, c: Choices,
                     rest: seq<BitValue>)
    requires Arrives(bits, pos, end, blockSize100k, b, crc, c, rest)
    ensures Proper(b, c) && crc < Pow2(32) && c.orig < Pow2(24) && 0 <= c.orig < |b| <= 100000 * blockSize100k
    ensures |c.p| == |b| && |c.used| == 256 && forall i :: 0 <= i < |b| ==> c.used[b[i]]
    ensures Left(bits, pos, end, HeaderBits(crc, c.orig) + Behind(b, c, rest))
  {
    hide Left, Proper, Values, HeaderBits, SentBits, Rank, Groupable, Ended, InRange;
    ProperSent(b, c);
    var alpha := Rank(c.used, 256) + 2;
    Then(HeaderBits(crc, c.orig), SentBits(c.used, Values(b, c.p, c.used), c.sel, c.tables, alpha), rest);
  }

  lemma BehindArrives(bits: seq<BitValue>, pos: nat, end: nat, b: seq<Byte>, c: Choices, rest: seq<BitValue>)
    requires Proper(b, c) && Left(bits, pos, end, Behind(b, c, rest))
    ensures |c.p| == |b| && |c.used| == 256 && b != [] && forall i :: 0 <= i < |b| ==> c.used[b[i]]
    ensures CodedArrives(bits, pos, end, c.used, Values(b, c.p, c.used), c.sel, c.tables, rest)
  {
    hide Left, Proper, Values, SentBits, Rank, Groupable, Ended, InRange;
    ProperSent(b, c);
  }

  lemma NoVerdict(bits: seq<BitValue>, pos: nat, blockSize100k: nat)
    ensures Verdict(DataError, bits, pos, blockSize100k) && Verdict(NeedInput, bits, pos, blockSize100k)
  {
  }

  lemma CodedVerdict(st: Status, bits: seq<BitValue>, pos: nat, blockSize100k: nat)
    requires Coded(st, bits, pos + 105) && HeaderAt(bits, pos, blockSize100k)
    ensures Verdict(st, bits, pos, blockSize100k)
  {
    hide HeaderAt, SelectorsOverrun;
  }

  // One block up to its last column.
  method ReceiveBlock(r: Reader, blockSize100k: nat, tt: array<nat>, cftab: array<int>, ghost sent: bool,
                      ghost b: seq<Byte>,
                      ghost crc: nat, ghost c: Choices, ghost end: nat, ghost rest: seq<BitValue>)
    returns (st: Status, nblock: nat, origPtr: nat, storedBlockCRC: nat, randomised: bool)
    requires r.Valid() && 1 <= blockSize100k <= 9 && 100000 * blockSize100k <= tt.Length && cftab.Length == 257
    requires cftab as object != tt
    requires sent ==> Arrives(r.Bits(), r.pos, end, blockSize100k, b, crc, c, rest)
    modifies tt, cftab, r`avail, r`later, r`next, r`bsBuff, r`bsLive, r`pos
    ensures r.Valid() && Verdict(st, r.Bits(), old(r.pos), blockSize100k)
    ensures st == Ok ==> (origPtr < nblock <= 100000 * blockSize100k && Bytes(tt[..], nblock)
      && forall i :: 0 <= i <= 256 ==> cftab[i] == Smaller(Column(tt[..], nblock), i))
    ensures st == Ok ==> forall i :: nblock <= i < tt.Length ==> tt[i] == old(tt[i])
    ensures sent ==> (st == Ok && nblock == |b| && origPtr == c.orig && storedBlockCRC == crc && !randomised
      && Column(tt[..], nblock) == LastColumn(b, c.p) && Left(r.Bits(), r.pos, end, rest))
  {
    hide Comes, BitsOf, Left, Proper, Values, HeaderBits, Rank, InRange, Smaller, LastColumn, Unmaps, HeaderAt, Coded,
      Verdict, Read, Arrives, Behind, CodedArrives;
    NoVerdict(r.Bits(), r.pos, blockSize100k);
    nblock := 0;
    ghost var want, used, middle := [], seq(256, i => false), rest;
    if sent {
      ArrivesParts(r.Bits(), r.pos, end, blockSize100k, b, crc, c, rest);
      want, used, middle := Values(b, c.p, c.used), c.used, Behind(b, c, rest);
    }
    st, storedBlockCRC, randomised, origPtr := ReadHeader(r, blockSize100k, sent, crc, if sent then c.orig
      else 0, end, middle);
    if st != Ok { return; }
    var inUse, seqToUnseq := new bool[256], new int[256](i => 0);
    var nInUse, syms;
    ghost var at: nat := r.pos;
    if sent { BehindArrives(r.Bits(), at, end, b, c, rest); }
    st, nInUse, syms := ReadCoded(r, inUse, seqToUnseq, sent, used, want, c.sel, c.tables, end, rest);
    CodedVerdict(st, r.Bits(), at - 105, blockSize100k);
    if st != Ok { return; }
    st, nblock := Unravel(syms, nInUse, seqToUnseq, tt, cftab, 100000 * blockSize100k, origPtr, sent, b, c);
  }

  lemma ProperSent(b: seq<Byte>, c: Choices)
    requires Proper(b, c)
    ensures 1 <= |b| <= MAX_BLOCK && |c.p| == |b| && |c.used| == 256 && 0 <= c.orig < |b| && c.orig < Pow2(24)
    ensures forall i :: 0 <= i < |b| ==> c.used[b[i]]
    ensures var want, m := Values(b, c.p, c.used), Rank(c.used, 256);
      m >= 1 && 1 <= |want| <= MAX_BLOCK + 1 && Ended(want, m + 1) && Groupable(want, c.sel, c.tables, m + 2)
      && |c.tables| == GroupsFor(|want|)
  {
    hide Encode, Scan, Groupable, Rank, Ended, SortedRotations, LastRanks;
    Pow2Add(8, 8);
    Pow2Add(16, 8);
    assert Pow2(8) == 256;
    ProperParts(b, c);
    ValuesEnded(b, c.p, c.used);
    ValuesLength(b, c.p, c.used);
    EndedSome(Values(b, c.p, c.used), Rank(c.used, 256) + 1);
  }

  lemma EndedSome(s: seq<int>, eob: int)
    requires Ended(s, eob)
    ensures |s| >= 1
  {
  }

  lemma ValuesLength(b: seq<Byte>, p: seq<int>, used: seq<bool>)
    requires b != [] && |p| == |b| && |used| == 256 && forall i :: 0 <= i < |b| ==> used[b[i]]
    ensures |Values(b, p, used)| <= |b| + 1
  {
    hide LastRanks, Rank, Scan, Run;
    RanksListed(b, p, used);
    var c := Scan(Identity(Rank(used, 256)), LastRanks(b, p, used));
    assert |Run(c.zeros)| <= c.zeros;
  }

  // ----- The round trip -----

  // All links stay among the first n rows.
  predicate Linked(tt: seq<nat>, tPos: nat, n: nat) {
    tPos < n <= |tt| && forall j :: 0 <= j < n ==> tt[j] / 256 < n
  }

  // What n calls of BZ_GET_FAST return.
  function FastYield(tt: seq<nat>, tPos: nat, n: nat): seq<nat>
    requires Linked(tt, tPos, n)
  {
    var t := tt[..n];
    assert forall j :: 0 <= j < |t| ==> t[j] == tt[j];
    FastStream(t, tPos, n)
  }

  // The fast decoder. Of a block that CompressBlock wrote, its bytes come out.
  method DecompressFast(r: Reader, blockSize100k: nat, tt: array<nat>, ghost sent: bool, ghost b: seq<Byte>,
                        ghost crc: nat,
                        ghost c: Choices, ghost end: nat, ghost rest: seq<BitValue>)
    returns (st: Status, nblock: nat, tPos: nat, storedBlockCRC: nat)
    requires r.Valid() && 1 <= blockSize100k <= 9 && 100000 * blockSize100k <= tt.Length
    requires sent ==> Arrives(r.Bits(), r.pos, end, blockSize100k, b, crc, c, rest)
    modifies tt, r`avail, r`later, r`next, r`bsBuff, r`bsLive, r`pos
    ensures r.Valid() && Verdict(st, r.Bits(), old(r.pos), blockSize100k)
    ensures st == Ok ==> Linked(tt[..], tPos, nblock)
    ensures sent ==> (st == Ok && nblock == |b| && storedBlockCRC == crc && FastYield(tt[..], tPos, nblock) == b
      && Left(r.Bits(), r.pos, end, rest))
  {
    hide Comes, BitsOf, Left, Proper, SentBlock, Smaller, LastColumn, FastVector, FastYield, Linked;
    tPos := 0;
    var cftab := new int[257];
    var origPtr, randomised;
    st, nblock, origPtr, storedBlockCRC, randomised := ReceiveBlock(r, blockSize100k, tt, cftab, sent, b, crc, c, end,
      rest);
    if st != Ok { return; }
    ghost var l := Column(tt[..], nblock);
    BuildFast(tt, cftab, nblock, l);
    FastLeads(tt[..], l, origPtr);
    tPos := tt[origPtr] / 256;
    if sent { FastGives(tt[..], b, c); }
  }

  // Every link of the fast layout leads to a row of the block.
  lemma FastLeads(tt: seq<nat>, l: seq<Byte>, o: nat)
    requires FastVector(tt, l) && o < |l|
    ensures |l| <= |tt| && Linked(tt, tt[o] / 256, |l|)
  {
    hide FastStream, Walk, Inverts;
    var t := tt[..|l|];
    FastPart(tt, l);
    FastIsWalk(t, l, o, 0);
    forall j | 0 <= j < |l| ensures tt[j] / 256 < |l| { assert t[j] / 256 < |l|; }
  }

  lemma FastPart(tt: seq<nat>, l: seq<Byte>)
    requires FastVector(tt, l)
    ensures |l| <= |tt| && FastVector(tt[..|l|], l)
  {
    hide T;
  }

  lemma FastGives(tt: seq<nat>, b: seq<Byte>, c: Choices)
    requires Proper(b, c) && FastVector(tt, LastColumn(b, c.p))
    ensures 0 <= c.orig < |b| <= |tt| && Linked(tt, tt[c.orig] / 256, |b|)
    ensures FastYield(tt, tt[c.orig] / 256, |b|) == b
  {
    hide Proper, LastColumn, FastVector, FastStream, Walk, Inverts;
    ProperParts(b, c);
    var l := LastColumn(b, c.p);
    FastPart(tt, l);
    var t := tt[..|b|];
    FastLeads(tt, l, c.orig);
    FastIsWalk(t, l, c.orig, |b|);
    WalkIsBlock(b, c, Links(t, |b|));
  }

  lemma WalkIsBlock(b: seq<Byte>, c: Choices, inv: seq<int>)
    requires Proper(b, c) && |LastColumn(b, c.p)| == |b| && Inverts(inv, LastColumn(b, c.p))
    ensures |inv| == |b| && (forall j :: 0 <= j < |b| ==> 0 <= inv[j] < |b|) && 0 <= c.orig < |b|
    ensures Walk(LastColumn(b, c.p), inv, c.orig, |b|) == b
  {
    hide LastColumn, Walk, SortedRotations, Values, T;
    ProperParts(b, c);
    InverseBwt(b, c.p, inv, c.orig);
  }

  // All links stay among the first n rows.
  predicate SmallLinked(store: SmallStore, o: nat, n: nat)
    reads store, store.ll16, store.ll4
  {
    store.Valid() && o < n <= store.ll16.Length && InRange(store.AllLinks(n), n)
  }

  // What n calls of BZ_GET_SMALL return.
  function SmallYield(store: SmallStore, cf: seq<int>, o: nat, n: nat): seq<nat>
    requires SmallLinked(store, o, n) && |cf| == 257
    reads store, store.ll16, store.ll4
  {
    SmallStream(store.AllLinks(n), cf, o, n)
  }

  // The small decoder.
  method DecompressSmall(r: Reader, blockSize100k: nat, store: SmallStore, ghost sent: bool, ghost b: seq<Byte>,
                         ghost crc: nat,
                         ghost c: Choices, ghost end: nat, ghost rest: seq<BitValue>)
    returns (st: Status, nblock: nat, origPtr: nat, storedBlockCRC: nat, cftab: array<int>)
    requires r.Valid() && 1 <= blockSize100k <= 9 && store.Valid() && store.ll16.Length == 100000 * blockSize100k
    requires sent ==> Arrives(r.Bits(), r.pos, end, blockSize100k, b, crc, c, rest)
    modifies store.ll16, store.ll4, r`avail, r`later, r`next, r`bsBuff, r`bsLive, r`pos
    ensures r.Valid() && cftab.Length == 257 && Verdict(st, r.Bits(), old(r.pos), blockSize100k)
    ensures st == Ok ==> SmallLinked(store, origPtr, nblock)
    ensures sent ==> (st == Ok && nblock == |b| && storedBlockCRC == crc
      && SmallYield(store, cftab[..], origPtr, nblock) == b && Left(r.Bits(), r.pos, end, rest))
  {
    hide Comes, BitsOf, Left, Proper, SentBlock, Smaller, LastColumn, Reversed, SmallStream, SmallStore.GetLL, Pow2, T;
    cftab := new int[257];
    var randomised;
    st, nblock, origPtr, storedBlockCRC, randomised := ReceiveBlock(r, blockSize100k, store.ll16, cftab, sent, b, crc,
      c, end, rest);
    if st != Ok { return; }
    ghost var l := Column(store.ll16[..], nblock);
    forall i | 0 <= i < store.ll16.Length ensures store.ll16[i] < 0x10000 { assert i < nblock ==> store.ll16[i] < 256; }
    var cftabCopy := new int[257](i requires 0 <= i < 257 reads cftab => cftab[i]);
    store.BuildSmall(cftabCopy, nblock, l);
    ghost var m := ReverseLinks(store, origPtr, nblock, l);
    ReversedLeads(store.AllLinks(nblock), l, origPtr, m);
    if sent { SmallGives(store.AllLinks(nblock), cftab[..], b, c, m); }
  }

  // The reversed links stay inside the block.
  lemma ReversedLeads(ll: seq<int>, l: seq<Byte>, o: nat, m: nat)
    requires Reversed(ll, l, o, m)
    ensures InRange(ll, |l|) && |ll| == |l|
  {
  }

  lemma SmallGives(ll: seq<int>, cf: seq<int>, b: seq<Byte>, c: Choices, m: nat)
    requires Proper(b, c) && 0 <= c.orig && Reversed(ll, LastColumn(b, c.p), c.orig, m)
    requires |cf| == 257 && forall i :: 0 <= i <= 256 ==> cf[i] == Smaller(LastColumn(b, c.p), i)
    ensures |ll| == |b| && InRange(ll, |b|) && SmallStream(ll, cf, c.orig, |b|) == b
  {
    hide Proper, LastColumn, SmallStream, Walk, Inverts, Reversed, Smaller;
    ProperParts(b, c);
    var l := LastColumn(b, c.p);
    var inv := Inverse(l);
    ReversedLeads(ll, l, c.orig, m);
    ReversedTurn(ll, l, c.orig, m);
    SmallIsWalk(ll, cf, l, inv, c.orig, m, m, |b|);
    WalkIsBlock(b, c, inv);
  }

  lemma ReversedTurn(ll: seq<int>, l: seq<Byte>, o: nat, m: nat)
    requires Reversed(ll, l, o, m)
    ensures m >= 1 && Orbit(l, o, m) == o
  {
  }

  // Every column has an inverse vector.
  lemma Inverse(l: seq<Byte>) returns (inv: seq<int>)
    ensures Inverts(inv, l)
  {
    hide T;
    inv := seq(|l|, _ => 0);
    for i := 0 to |l|
      invariant |inv| == |l| && forall k :: 0 <= k < i ==> T(l, k) < |l| && inv[T(l, k)] == k
    {
      TRange(l, i);
      forall k | 0 <= k < i ensures T(l, k) != T(l, i) { TInjective(l, k, i); }
      inv := inv[T(l, i) := i];
    }
    InverseFrom(inv, l);
  }
}
