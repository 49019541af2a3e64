// The bits of a compressed block (dep/bzip2/compress.c, BZ2_compressBlock and sendMTFValues):
// which bytes occur, the selectors, the code lengths and the coded values.
module BzFormat {
  import opened Bits
  import opened BzBitStream
  import opened BzKraft
  import opened BzHuffmanLengths
  import opened BzHuffmanCodes
  import opened BzMtf

  const N_GROUPS := 6
  const G_SIZE := 50
  const MAX_SELECTORS := 18002
  const MAX_SENT := 17

  // ----- The next bits of a stream -----

  // From pos up to end the stream is rest.
  ghost predicate Left(bits: seq<BitValue>, pos: nat, end: nat, rest: seq<BitValue>) {
    pos + |rest| == end <= |bits| && bits[pos..end] == rest
  }

  lemma LeftSplit(bits: seq<BitValue>, pos: nat, end: nat, a: seq<BitValue>, b: seq<BitValue>)
    requires Left(bits, pos, end, a + b)
    ensures Left(bits, pos, pos + |a|, a) && Left(bits, pos + |a|, end, b)
  {
    var w := bits[pos..end];
    assert w[..|a|] == a && w[|a|..] == b;
    assert bits[pos..pos + |a|] == w[..|a|] && bits[pos + |a|..end] == w[|a|..];
  }

  lemma LeftWord(bits: seq<BitValue>, pos: nat, end: nat, v: nat, n: nat, b: seq<BitValue>)
    requires Left(bits, pos, end, Word(v, n) + b) && v < Pow2(n)
    ensures pos + n <= |bits| && Read(bits, pos, n) == v && Left(bits, pos + n, end, b)
  {
    LeftSplit(bits, pos, end, Word(v, n), b);
    WordValue(v, n);
  }

  lemma LeftBit(bits: seq<BitValue>, pos: nat, end: nat, x: BitValue, b: seq<BitValue>)
    requires Left(bits, pos, end, [x] + b)
    ensures pos + 1 <= |bits| && Read(bits, pos, 1) == x && Left(bits, pos + 1, end, b)
  {
    LeftSplit(bits, pos, end, [x], b);
    assert bits[pos] == bits[pos..pos + 1][0];
    OneBit(bits, pos);
  }

  lemma Then(a: seq<BitValue>, b: seq<BitValue>, c: seq<BitValue>)
    ensures a + b + c == a + (b + c)
  {
  }

  lemma SmallWords()
    ensures Word(0, 1) == [0] && Word(1, 1) == [1] && Word(2, 2) == [1, 0] && Word(3, 2) == [1, 1]
    ensures Pow2(1) == 2 && Pow2(2) == 4 && Pow2(3) == 8 && Pow2(5) == 32 && Pow2(8) == 256 && Pow2(15) == 32768
  {
    assert Word(0, 0) == [] && Word(1, 0) == [];
    assert Word(2, 2) == Word(1, 1) + [0] && Word(3, 2) == Word(1, 1) + [1];
    assert Pow2(8) == 256;
  }

  // ----- Which bytes occur -----

  // The flags from i on.
  function Flags(fs: seq<bool>, i: nat): seq<BitValue>
    requires i <= |fs|
    decreases |fs| - i
  {
    if i == |fs| then [] else [if fs[i] then 1 else 0] + Flags(fs, i + 1)
  }

  function Row(used: seq<bool>, i: nat): (r: seq<bool>)
    requires |used| == 256 && i < 16
    ensures |r| == 16
  {
    used[16 * i..16 * i + 16]
  }

  function Rows(used: seq<bool>): (r: seq<bool>)
    requires |used| == 256
    ensures |r| == 16
  {
    seq(16, i requires 0 <= i < 16 => true in Row(used, i))
  }

  // The rows from i on; a row without any byte is not sent.
  function RowBits(used: seq<bool>, i: nat): seq<BitValue>
    requires |used| == 256 && i <= 16
    decreases 16 - i
  {
    if i == 16 then []
    else (if true in Row(used, i) then Flags(Row(used, i), 0) else []) + RowBits(used, i + 1)
  }

  function MappingBits(used: seq<bool>): seq<BitValue>
    requires |used| == 256
  {
    Flags(Rows(used), 0) + RowBits(used, 0)
  }

  // Where the rows before row i end, for a table of flags at pos.
  function RowsStop(bits: seq<BitValue>, pos: nat, i: nat): (e: nat)
    requires pos + 16 <= |bits| && i <= 16
    ensures pos + 16 <= e <= pos + 16 + 16 * i
  {
    if i == 0 then pos + 16 else RowsStop(bits, pos, i - 1) + (if bits[pos + i - 1] == 1 then 16 else 0)
  }

  // ----- The selectors -----

  function Unary(j: nat): seq<BitValue> {
    if j == 0 then [0] else [1] + Unary(j - 1)
  }

  predicate InRange(s: seq<int>, n: int) {
    forall i :: 0 <= i < |s| ==> 0 <= s[i] < n
  }

  function UnaryFrom(m: seq<int>, n: nat, i: nat): seq<BitValue>
    requires InRange(m, n) && i <= |m|
    decreases |m| - i
  {
    if i == |m| then [] else Unary(m[i]) + UnaryFrom(m, n, i + 1)
  }

  // Where the unary number at pos ends; -1 if it is cut off or not below n.
  function UnaryStop(bits: seq<BitValue>, pos: nat, n: nat): (e: int)
    ensures -1 <= e <= |bits|
    decreases n
  {
    if pos >= |bits| then -1
    else if bits[pos] == 0 then pos + 1
    else if n <= 1 then -1
    else UnaryStop(bits, pos + 1, n - 1)
  }

  // Where k of them in a row end.
  function MovesStop(bits: seq<BitValue>, pos: nat, n: nat, k: nat): (e: int)
    requires pos <= |bits|
    ensures -1 <= e <= |bits|
  {
    if k == 0 then pos
    else
      var e := MovesStop(bits, pos, n, k - 1);
      if e < 0 then -1 else UnaryStop(bits, e, n)
  }

  lemma {:induction false} MovesCut(bits: seq<BitValue>, pos: nat, n: nat, k: nat, l: nat)
    requires pos <= |bits| && k <= l && MovesStop(bits, pos, n, k) < 0
    ensures MovesStop(bits, pos, n, l) < 0
  {
    if k < l { MovesCut(bits, pos, n, k, l - 1); }
  }

  // The selectors at pos announce more than the decoder's arrays hold, and one too many is there.
  ghost predicate SelectorsOverrun(bits: seq<BitValue>, pos: nat) {
    && pos + 18 <= |bits| && 2 <= Read(bits, pos, 3) <= N_GROUPS && Read(bits, pos + 3, 15) > MAX_SELECTORS
    && MovesStop(bits, pos + 18, Read(bits, pos, 3), MAX_SELECTORS + 1) >= 0
  }

  // The same for a block: its header takes 105 bits.
  ghost predicate BlockOverruns(bits: seq<BitValue>, pos: nat) {
    pos + 121 <= |bits| && SelectorsOverrun(bits, RowsStop(bits, pos + 105, 16))
  }

  // The list after the selectors s and the positions they were found at.
  datatype Moved = Moved(list: seq<int>, out: seq<int>)

  function Moves(list: seq<int>, s: seq<int>): (c: Moved)
    requires Ranks(s, list)
    ensures |c.list| == |list| && (forall x :: x in list <==> x in c.list)
    ensures |c.out| == |s| && InRange(c.out, |list|)
  {
    if s == [] then Moved(list, [])
    else
      assert Ranks(s[..|s| - 1], list);
      var c := Moves(list, s[..|s| - 1]);
      var j := Find(c.list, s[|s| - 1]);
      ToFrontSame(c.list, j);
      Moved(ToFront(c.list, j), c.out + [j])
  }

  // The list after the positions m and what was found there.
  function Unmoves(list: seq<int>, m: seq<int>): (c: Moved)
    requires InRange(m, |list|)
    ensures |c.list| == |list| && |c.out| == |m| && (forall x :: x in list <==> x in c.list)
    ensures Ranks(c.out, list)
  {
    if m == [] then Moved(list, [])
    else
      var c := Unmoves(list, m[..|m| - 1]);
      var j := m[|m| - 1];
      ToFrontSame(c.list, j);
      Moved(ToFront(c.list, j), c.out + [c.list[j]])
  }

  lemma {:induction false} UnmovesMoves(list: seq<int>, s: seq<int>)
    requires Ranks(s, list)
    ensures Unmoves(list, Moves(list, s).out) == Moved(Moves(list, s).list, s)
  {
    hide ToFront, Find;
    if s != [] {
      var n := |s| - 1;
      assert Ranks(s[..n], list);
      UnmovesMoves(list, s[..n]);
      assert Moves(list, s).out[..n] == Moves(list, s[..n]).out;
      assert s[..n] + [s[n]] == s;
    }
  }

  // ----- The code lengths -----

  // From one length to the next: up, down, and a stop.
  function Deltas(curr: int, to: int): seq<BitValue>
    decreases if curr < to then to - curr else curr - to
  {
    if curr < to then [1, 0] + Deltas(curr + 1, to)
    else if curr > to then [1, 1] + Deltas(curr - 1, to)
    else [0]
  }

  function LengthBits(lens: seq<int>, i: nat, curr: int): seq<BitValue>
    requires i <= |lens|
    decreases |lens| - i
  {
    if i == |lens| then [] else Deltas(curr, lens[i]) + LengthBits(lens, i + 1, lens[i])
  }

  // A set of lengths that sendMTFValues may send: at most 17 bits, with code words for all.
  ghost predicate Sendable(lens: seq<int>, alphaSize: nat) {
    && |lens| == alphaSize && 1 <= alphaSize <= MAX_ALPHA_SIZE
    && (forall i :: 0 <= i < |lens| ==> 1 <= lens[i] <= MAX_SENT)
    && Kraft(lens, MAX_SENT) <= Pow2(MAX_SENT)
  }

  ghost predicate AllSendable(tables: seq<seq<int>>, alphaSize: nat) {
    forall t :: 0 <= t < |tables| ==> Sendable(tables[t], alphaSize)
  }

  ghost function TableBits(tables: seq<seq<int>>, alphaSize: nat, t: nat): seq<BitValue>
    requires AllSendable(tables, alphaSize) && t <= |tables|
    decreases |tables| - t
  {
    if t == |tables| then []
    else Word(tables[t][0], 5) + LengthBits(tables[t], 0, tables[t][0]) + TableBits(tables, alphaSize, t + 1)
  }

  // ----- The values -----

  // Every value below the alphabet size, every fifty values a selector.
  ghost predicate Groupable(syms: seq<int>, sel: seq<int>, tables: seq<seq<int>>, alphaSize: nat) {
    && AllSendable(tables, alphaSize) && InRange(sel, |tables|) && InRange(syms, alphaSize)
    && |sel| == (|syms| + (G_SIZE - 1)) / G_SIZE
  }

  // The code lengths for value i.
  ghost function TableFor(syms: seq<int>, sel: seq<int>, tables: seq<seq<int>>, alphaSize: nat,
                          i: nat): (lens: seq<int>)
    requires Groupable(syms, sel, tables, alphaSize) && i < |syms|
    ensures Sendable(lens, alphaSize)
  {
    tables[sel[i / G_SIZE]]
  }

  ghost function ValueBits(syms: seq<int>, sel: seq<int>, tables: seq<seq<int>>, alphaSize: nat, i: nat): seq<BitValue>
    requires Groupable(syms, sel, tables, alphaSize) && i <= |syms|
    decreases |syms| - i
  {
    if i == |syms| then []
    else
      var lens := TableFor(syms, sel, tables, alphaSize, i);
      Word(Code(lens, syms[i]), lens[syms[i]]) + ValueBits(syms, sel, tables, alphaSize, i + 1)
  }

  // ----- A whole block -----

  // How many tables for how many values.
  function GroupsFor(nMTF: int): (n: nat)
    ensures 2 <= n <= N_GROUPS
  {
    if nMTF < 200 then 2 else if nMTF < 600 then 3 else if nMTF < 1200 then 4 else if nMTF < 2400 then 5 else 6
  }

  lemma SelectorsRanked(sel: seq<int>, n: nat)
    requires InRange(sel, n)
    ensures Ranks(sel, Identity(n))
  {
    forall i | 0 <= i < |sel| ensures sel[i] in Identity(n) {
      assert Identity(n)[sel[i]] == sel[i];
    }
  }

  ghost function SelectorBits(sel: seq<int>, n: nat): seq<BitValue>
    requires InRange(sel, n)
  {
    SelectorsRanked(sel, n);
    Word(n, 3) + Word(|sel|, 15) + UnaryFrom(Moves(Identity(n), sel).out, n, 0)
  }

  // What sendMTFValues writes.
  ghost function SentBits(used: seq<bool>, syms: seq<int>, sel: seq<int>, tables: seq<seq<int>>,
                          alphaSize: nat): seq<BitValue>
    requires |used| == 256 && Groupable(syms, sel, tables, alphaSize)
  {
    MappingBits(used) + SelectorBits(sel, |tables|) + TableBits(tables, alphaSize, 0)
    + ValueBits(syms, sel, tables, alphaSize, 0)
  }

  // The mark at the start of a block, from byte i on.
  const MARK := [0x31, 0x41, 0x59, 0x26, 0x53, 0x59]

  function MarkBits(i: nat): seq<BitValue>
    decreases 6 - i
  {
    if i >= 6 then [] else Word(MARK[i], 8) + MarkBits(i + 1)
  }

  ghost predicate MarkAt(bits: seq<BitValue>, pos: nat) {
    pos + 48 <= |bits| && forall i :: 0 <= i < 6 ==> Read(bits, pos + 8 * i, 8) == MARK[i]
  }

  // A header that is accepted: the mark, the checksum, the randomised bit and an origin in range.
  ghost predicate HeaderAt(bits: seq<BitValue>, pos: nat, blockSize100k: nat) {
    MarkAt(bits, pos) && pos + 105 <= |bits| && Read(bits, pos + 81, 24) <= 10 + 100000 * blockSize100k
  }

  function HeaderBits(crc: nat, orig: nat): seq<BitValue> {
    MarkBits(0) + Word(crc, 32) + [0] + Word(orig, 24)
  }
}
