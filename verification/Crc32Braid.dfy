// The routines of dep/zlib/crc32.c: multiplication and powers modulo p(x), the
// tables, the braided CRC and the combination of two CRCs.
module Crc32Braid {
  import opened Bits
  import opened Gf2
  import opened Crc32Poly
  import opened Crc32Square
  import opened ByteIndex
  import opened Crc32

  // ----- multmodp and x2nmodp -----

  lemma RestIsZero(a: bv32, m: bv32)
    requires IsMask(m) && m != 0 && a & (m - 1) == 0
    ensures IsMask(Half(m)) && (Half(m) != 0 ==> Above(a, Half(m)))
  {
  }

  lemma BitsRemain(a: bv32, m: bv32)
    requires IsMask(m) && m != 0 && !Above(a, m)
    requires Has(a, m) ==> a & (m - 1) != 0
    ensures Half(m) != 0 && !Above(a, Half(m)) && Half(m) < m
  {
  }

  lemma StartRemain(a: bv32)
    requires a != 0
    ensures !Above(a, TOP) && IsMask(TOP)
  {
  }

  lemma ProdRound(a: bv32, c: bv32, m: bv32, p: bv32)
    requires m != 0
    ensures var q := if Has(a, m) then Add(p, c) else p;
      Add(q, Prod(a, X(c), Half(m))) == Add(p, Prod(a, c, m))
  {
    hide Half, Add, X, Has;
    var t, r := if Has(a, m) then c else 0, Prod(a, X(c), Half(m));
    AddRules(p, t, r);
    AddRules(p, 0, 0);
  }

  lemma ProdDone(a: bv32, c: bv32, m: bv32, p: bv32)
    requires IsMask(m) && m != 0 && a & (m - 1) == 0
    ensures Add(p, Prod(a, X(c), Half(m))) == p
  {
    hide Half, Above, Add, X;
    RestIsZero(a, m);
    MaskHalf(m);
    ProdNone(a, X(c), Half(m));
    AddRules(p, 0, 0);
  }

  // The loop stops at the last coefficient of a, so a must not be zero.
  method MultModP(a: bv32, b: bv32) returns (p: bv32)
    requires a != 0
    ensures p == Times(a, b)
  {
    hide Half, IsMask, Above, Add, X, Has, Prod;
    var m := TOP;
    var c := b;
    p := 0;
    StartRemain(a);
    AddRules(Times(a, b), 0, 0);
    AddRules(0, Times(a, b), 0);
    while true
      invariant m != 0 && IsMask(m) && !Above(a, m)
      invariant Add(p, Prod(a, c, m)) == Times(a, b)
      decreases m
    {
      ProdRound(a, c, m, p);
      if Has(a, m) {
        p := Add(p, c);
        if a & (m - 1) == 0 {
          ProdDone(a, c, m, p);
          break;
        }
      }
      BitsRemain(a, m);
      MaskHalf(m);
      m := Half(m);
      c := X(c);
    }
  }

  lemma OddPower(p: bv32, n: nat, k: nat)
    requires n > 0
    ensures XPow(if n % 2 == 1 then XPow(p, Pow2(k)) else p, n / 2 * Pow2(k + 1)) == XPow(p, n * Pow2(k))
  {
    hide XPow;
    HalfTwice(n, Pow2(k));
    if n % 2 == 1 { XPowSum(p, Pow2(k), n / 2 * Pow2(k + 1)); }
  }

  lemma HalfTwice(n: nat, e: nat)
    ensures n * e == n / 2 * (2 * e) + (if n % 2 == 1 then e else 0)
  {
    var h := n / 2;
    assert h * (2 * e) == h * 2 * e;
    assert n == h * 2 + n % 2;
    assert (h * 2 + n % 2) * e == h * 2 * e + n % 2 * e;
  }

  // ----- Tables -----

  class Tables {
    const N: nat
    const W: nat
    const crcTable: array<bv32>
    const x2nTable: array<bv32>
    const braidTable: array2<bv32>

    ghost predicate ByteTable()
      reads crcTable
    {
      crcTable.Length == 256 &&
      forall b: bv8 :: crcTable[Idx(b)] == XPow(Wide(b), 8)
    }

    ghost predicate PowerTable()
      reads x2nTable
    {
      x2nTable.Length == 32 && forall i :: 0 <= i < 32 ==> x2nTable[i] == X2n(i)
    }

    // A byte in position k of a word, moved past the N words of one block.
    ghost predicate BraidRow(k: nat)
      requires N >= 1 && W >= 4 && k < W && k < braidTable.Length0 && braidTable.Length1 == 256
      reads braidTable
    {
      forall b: bv8 :: braidTable[k, Idx(b)] == T(XPow(Wide(b), 8), N * W - 1 - k)
    }

    ghost predicate Valid()
      reads crcTable, x2nTable, braidTable
    {
      && N >= 1 && W >= 4
      && ByteTable() && PowerTable()
      && braidTable.Length0 == W && braidTable.Length1 == 256
      && forall k: nat :: k < W ==> BraidRow(k)
    }

    // make_crc_table with the tables for N braids of W-byte words.
    constructor (n: nat, w: nat)
      requires 1 <= n && w >= 4
      ensures Valid() && N == n && W == w
      ensures fresh(crcTable) && fresh(x2nTable) && fresh(braidTable)
    {
      N, W := n, w;
      crcTable := new bv32[256];
      x2nTable := new bv32[32];
      braidTable := new bv32[w, 256];
      new;
      FillBytes();
      FillPowers();
      FillBraids();
    }

    method FillBytes()
      requires crcTable.Length == 256
      modifies crcTable
      ensures ByteTable()
    {
      hide Idx, UpTo, Wide, X;
      var b: bv8 := 0;
      FillByte(b);
      forall c: bv8 | UpTo(c, b) ensures crcTable[Idx(c)] == XPow(Wide(c), 8) { UpToEnds(c); }
      while b != 255
        invariant forall c: bv8 :: UpTo(c, b) ==> crcTable[Idx(c)] == XPow(Wide(c), 8)
        decreases 255 - b
      {
        UpToNext(b, b);
        ghost var a := b;
        b := b + 1;
        FillByte(b);
        forall c: bv8 | UpTo(c, b) ensures crcTable[Idx(c)] == XPow(Wide(c), 8) { UpToNext(c, a); }
      }
      forall c: bv8 ensures crcTable[Idx(c)] == XPow(Wide(c), 8) { UpToEnds(c); }
    }

    method FillByte(b: bv8)
      requires crcTable.Length == 256
      modifies crcTable
      ensures crcTable[Idx(b)] == XPow(Wide(b), 8)
      ensures forall c: bv8 :: c != b ==> crcTable[Idx(c)] == old(crcTable[Idx(c)])
    {
      hide X, Wide, Idx;
      var p := Wide(b);
      XPowNone(p);
      for j := 0 to 8
        invariant p == XPow(Wide(b), j)
      {
        p := X(p);
      }
      crcTable[Idx(b)] := p;
      forall c: bv8 | c != b ensures crcTable[Idx(c)] == old(crcTable[Idx(c)]) {
        if Idx(c) == Idx(b) { IdxInjective(c, b); }
      }
    }

    method FillPowers()
      requires x2nTable.Length == 32
      modifies x2nTable
      ensures PowerTable()
    {
      hide Times, X2n;
      var p: bv32 := 0x4000_0000;
      X2nStart();
      x2nTable[0] := p;
      for n := 1 to 32
        invariant p == X2n(n - 1)
        invariant forall i :: 0 <= i < n ==> x2nTable[i] == X2n(i)
      {
        X2nNonzero(n - 1);
        SquareX2n(n - 1);
        p := MultModP(p, p);
        x2nTable[n] := p;
      }
    }

    // x^(n * 2^k) modulo p(x); HalvingEnds says why n is not negative.
    method X2NModP(n: nat, k: nat) returns (p: bv32)
      requires PowerTable()
      ensures p == XPow(ONE, n * Pow2(k)) && p != 0
    {
      hide Times, X2n, X;
      var m: nat, e: nat := n, k;
      p := 0x8000_0000;
      while m > 0
        invariant XPow(p, m * Pow2(e)) == XPow(ONE, n * Pow2(k))
      {
        OddPower(p, m, e);
        if m % 2 == 1 {
          X2nPeriod(e);
          X2nNonzero(e);
          ghost var q := p;
          p := MultModP(x2nTable[e % 32], p);
          PowerOf(q, e);
        }
        m := m / 2;
        e := e + 1;
      }
      XPowNone(p);
      XPowNonzero(ONE, n * Pow2(k));
    }

    method FillBraids()
      requires N >= 1 && W >= 4 && PowerTable()
      requires braidTable.Length0 == W && braidTable.Length1 == 256
      modifies braidTable
      ensures forall k: nat :: k < W ==> BraidRow(k)
    {
      for k := 0 to W
        invariant forall l: nat :: l < k ==> BraidRow(l)
      {
        FillRow(k);
      }
    }

    method FillRow(k: nat)
      requires N >= 1 && W >= 4 && PowerTable() && k < W
      requires braidTable.Length0 == W && braidTable.Length1 == 256
      modifies braidTable
      ensures BraidRow(k)
      ensures forall l: nat :: l < k && old(BraidRow(l)) ==> BraidRow(l)
    {
      hide T, XPow, Wide, Idx, Times, UpTo;
      WordsFit(N, W, k);
      var p := X2NModP((N * W + 3 - k) * 8, 0);
      var b: bv8 := 0;
      ZeroEntry(N * W - 1 - k);
      braidTable[k, Idx(0)] := 0;
      forall c: bv8 | UpTo(c, b) ensures braidTable[k, Idx(c)] == T(XPow(Wide(c), 8), N * W - 1 - k) {
        UpToEnds(c);
      }
      while b != 255
        invariant forall c: bv8 :: UpTo(c, b) ==> braidTable[k, Idx(c)] == T(XPow(Wide(c), 8), N * W - 1 - k)
        invariant forall l: nat, j: nat :: l < k && j < 256 ==> braidTable[l, j] == old(braidTable[l, j])
        decreases 255 - b
      {
        UpToNext(b, b);
        ghost var a := b;
        b := b + 1;
        BraidEntry(b, N * W - k);
        braidTable[k, Idx(b)] := MultModP(Wide(b) << 24, p);
        forall c: bv8 | UpTo(c, b) ensures braidTable[k, Idx(c)] == T(XPow(Wide(c), 8), N * W - 1 - k) {
          UpToNext(c, a);
          if Idx(c) == Idx(b) { IdxInjective(c, b); }
        }
      }
      forall c: bv8 ensures braidTable[k, Idx(c)] == T(XPow(Wide(c), 8), N * W - 1 - k) { UpToEnds(c); }
    }

    // The CRC of one word, with no conditioning.
    method CrcWord(word: seq<bv8>) returns (r: bv32)
      requires ByteTable() && |word| == W && W >= 4
      ensures r == Raw(0, word)
    {
      hide Raw, XorIn, Add, Low, Shr8, Wide, Idx, XPow, Step;
      var data := word;
      ghost var c: bv32 := 0;
      assert word[0..] + Zeros(0) == word;
      XorInZero(word);
      for k := 0 to W
        invariant |data| == W && data == XorIn(word[k..] + Zeros(k), c)
        invariant Raw(c, word[k..]) == Raw(0, word)
      {
        ghost var old_c := c;
        WordStep(word, k, c, data);
        var t := crcTable[Idx(data[0])];
        data := XorIn(data[1..] + [0], t);
        c := Step(c, word[k]);
        RawUnfold(old_c, word[k..]);
        assert word[k..][1..] == word[k + 1..];
      }
      RawUnfold(c, word[W..]);
      assert word[W..] + Zeros(W) == Zeros(W);
      NarrowZeros(W, c);
      r := Narrow(data);
    }

    // Byte-at-a-time over buf[i..end], eight per round and then one by one.
    method ByteLoop(crc: bv32, buf: array<bv8>, i: nat, end: nat) returns (c: bv32)
      requires ByteTable() && i <= end <= buf.Length
      ensures c == Raw(crc, buf[i..end])
    {
      hide Raw, ByteTable;
      ghost var all := buf[..];
      var p := i;
      c := crc;
      while end - p >= 8
        invariant i <= p <= end
        invariant Raw(c, all[p..end]) == Raw(crc, all[i..end])
      {
        c := OneByte(c, buf, p, all, end);
        c := OneByte(c, buf, p + 1, all, end);
        c := OneByte(c, buf, p + 2, all, end);
        c := OneByte(c, buf, p + 3, all, end);
        c := OneByte(c, buf, p + 4, all, end);
        c := OneByte(c, buf, p + 5, all, end);
        c := OneByte(c, buf, p + 6, all, end);
        c := OneByte(c, buf, p + 7, all, end);
        p := p + 8;
      }
      while p < end
        invariant i <= p <= end
        invariant Raw(c, all[p..end]) == Raw(crc, all[i..end])
      {
        c := OneByte(c, buf, p, all, end);
        p := p + 1;
      }
      RawUnfold(c, all[end..end]);
      assert all[i..end] == buf[i..end];
    }

    // One byte by the byte table.
    method OneByte(crc: bv32, buf: array<bv8>, p: nat, ghost all: seq<bv8>, ghost end: nat) returns (c: bv32)
      requires ByteTable() && p < end <= buf.Length && all == buf[..]
      ensures Raw(c, all[p + 1..end]) == Raw(crc, all[p..end])
      ensures c == Step(crc, buf[p])
    {
      hide Raw, Add, Low, Shr8, Wide, Idx, XPow;
      var b := Low(Add(crc, Wide(buf[p])));
      TableStep(crc, buf[p]);
      c := Add(Shr8(crc), crcTable[Idx(b)]);
      RawUnfold(crc, all[p..end]);
      assert all[p..end][1..] == all[p + 1..end];
    }

    // Table lookups for the k-th byte of each braid's word.
    method BraidByte(k: nat, words: seq<seq<bv8>>, crcs: array<bv32>)
      requires Valid() && k < W && Carried(words, crcs[..], 0, k, W, N * W)
      requires crcs != crcTable && crcs != x2nTable
      modifies crcs
      ensures Carried(words, crcs[..], 0, k + 1, W, N * W)
    {
      hide T, XPow, Wide, Idx, Add, Carried;
      CarriedSizes(words, crcs[..], 0, k, W, N * W);
      for j := 0 to |words|
        invariant Carried(words, crcs[..], j, k, W, N * W)
      {
        CarriedSizes(words, crcs[..], j, k, W, N * W);
        assert BraidRow(k);
        ghost var before := crcs[..];
        crcs[j] := Add(crcs[j], braidTable[k, Idx(words[j][k])]);
        CarriedNext(words, before, j, k, W, N * W);
        assert crcs[..] == before[j := crcs[j]];
      }
      AllCarried(words, crcs[..], k, W, N * W);
    }

    // All bytes of one word for each braid.
    method BraidBytes(words: seq<seq<bv8>>, crcs: array<bv32>)
      requires Valid() && crcs.Length == N == |words| && forall j :: 0 <= j < N ==> |words[j]| == W
      requires crcs != crcTable && crcs != x2nTable
      modifies crcs
      ensures Carried(words, crcs[..], 0, W, W, N * W)
    {
      hide T, XPow, Wide, Idx, Add, Raw, ByteTable, PowerTable, BraidRow, Partial, Carried;
      WordsFit(N, W, W - 1);
      for j := 0 to N
        invariant forall i :: 0 <= i < j ==> crcs[i] == 0
      {
        crcs[j] := 0;
      }
      NoneCarried(words, crcs[..], W, N * W);
      for k := 0 to W
        invariant Valid() && Carried(words, crcs[..], 0, k, W, N * W)
      {
        BraidByte(k, words, crcs);
      }
    }

    // All braids over one block that is not the last.
    method OneBlock(buf: array<bv8>, p: nat, crcs: array<bv32>, ghost end: nat)
      requires Valid() && crcs.Length == N && p + N * W <= end <= buf.Length && end - (p + N * W) >= N * W
      requires crcs != crcTable && crcs != x2nTable
      modifies crcs
      ensures Value(crcs[..], buf[p + N * W..end], W) == old(Value(crcs[..], buf[p..end], W))
    {
      hide T, XPow, Wide, Idx, Add, Raw, XorIn, Value, Words, Carried, ByteTable, PowerTable, BraidRow;
      ghost var before, x, y := crcs[..], buf[p..p + N * W], buf[p + N * W..end];
      CountWords(x, N, W);
      WordsFit(N, W, 0);
      var words := LoadWords(buf, p, crcs);
      BraidBytes(words, crcs);
      BlockStep(before, crcs[..], words, x, y, W);
      assert x + y == buf[p..end];
    }

    // The CRC of blks blocks of N words: one sparse CRC a braid for all blocks but
    // the last, which chains them together.
    method BraidLoop(crc: bv32, buf: array<bv8>, start: nat, blocks: nat) returns (c: bv32)
      requires Valid() && blocks >= 1 && start + blocks * (N * W) <= buf.Length
      ensures c == Raw(crc, buf[start..start + blocks * (N * W)])
    {
      hide T, XPow, Wide, Idx, Add, Raw, XorIn;
      var crcs := new bv32[N];
      for j := 0 to N
        invariant forall i :: 0 <= i < j ==> crcs[i] == (if i == 0 then crc else 0)
      {
        crcs[j] := if j == 0 then crc else 0;
      }
      ghost var end := start + blocks * (N * W);
      ghost var all := buf[start..end];
      var p, blks := start, blocks;
      StartBraids(crc, crcs[..], all, W);
      while blks > 1
        invariant 1 <= blks <= blocks && p == end - blks * (N * W) && start <= p
        invariant Value(crcs[..], buf[p..end], W) == Raw(crc, all)
      {
        BlockFits(blks, N * W, p, end);
        OneBlock(buf, p, crcs, end);
        p := p + N * W;
        blks := blks - 1;
      }
      BlockFits(1, N * W, p, end);
      c := LastBlock(buf, p, crcs);
      assert buf[p..p + N * W] == buf[p..end];
    }

    // The words of a block, each with the register of its braid added.
    method LoadWords(buf: array<bv8>, p: nat, crcs: array<bv32>) returns (words: seq<seq<bv8>>)
      requires N >= 1 && W >= 4 && crcs.Length == N && p + N * W <= buf.Length
      ensures |words| == N == |Words(buf[p..p + N * W], W)|
      ensures forall j :: 0 <= j < N ==> words[j] == XorIn(Words(buf[p..p + N * W], W)[j], crcs[j])
    {
      hide XorIn;
      words := [];
      var q := p;
      ghost var end, loaded := p + N * W, [];
      ghost var all := Words(buf[p..end], W);
      CountWords(buf[p..end], N, W);
      for j := 0 to N
        invariant |words| == |loaded| == j && p <= q <= end
        invariant loaded + Words(buf[q..end], W) == all
        invariant forall i :: 0 <= i < j ==> words[i] == XorIn(loaded[i], crcs[i])
      {
        WordsStep(buf[q..end], W);
        assert buf[q..end][..W] == buf[q..q + W] && buf[q..end][W..] == buf[q + W..end];
        words := words + [XorIn(buf[q..q + W], crcs[j])];
        loaded := loaded + [buf[q..q + W]];
        q := q + W;
      }
    }

    method LastBlock(buf: array<bv8>, p: nat, crcs: array<bv32>) returns (c: bv32)
      requires Valid() && crcs.Length == N && p + N * W <= buf.Length
      ensures c == Value(crcs[..], buf[p..p + N * W], W)
    {
      hide T, XPow, Wide, Idx, Add, Raw, XorIn, Value;
      ghost var end := p + N * W;
      ghost var total := Value(crcs[..], buf[p..end], W);
      var q := p;
      c := 0;
      assert crcs[0..] == crcs[..];
      AddRules(total, 0, 0);
      AddRules(0, total, 0);
      TZero(N * W);
      CountWords(buf[p..end], N, W);
      for j := 0 to N
        invariant p <= q <= end && |Words(buf[q..end], W)| == N - j && (end - q) % W == 0
        invariant Add(T(c, end - q), Value(crcs[j..], buf[q..end], W)) == total
      {
        WordsStep(buf[q..end], W);
        ghost var c0, u := c, buf[q..end];
        assert u[..W] == buf[q..q + W] && u[W..] == buf[q + W..end];
        XorInTwice(buf[q..q + W], crcs[j], c);
        AbsorbWord(Add(crcs[j], c), buf[q..q + W]);
        var word := XorIn(XorIn(buf[q..q + W], crcs[j]), c);
        ChainStep(c0, crcs[j..], u, W);
        assert crcs[j..][1..] == crcs[j + 1..];
        c := CrcWord(word);
        LessOne(end - q, W);
        q := q + W;
      }
      NoWords(buf[q..end], W);
      assert crcs[N..] == [];
      ValueEmpty(W);
      TNone(c);
      AddRules(c, 0, 0);
    }

    // crc32_z on a buffer whose first byte sits at address addr.
    method Crc32Z(crc: bv32, buf: array?<bv8>, len: nat, addr: nat) returns (r: bv32)
      requires Valid() && (buf != null ==> len <= buf.Length)
      ensures buf == null ==> r == 0
      ensures buf != null ==> r == Crc(crc, buf[..len])
      ensures buf != null ==> Cong(Xor(ShiftUp(Poly(Add(crc, 0xffff_ffff)), 8 * len),
        ShiftUp(MessagePoly(buf[..len]), 32)),
        Poly(Add(r, 0xffff_ffff)))
    {
      hide T, XPow, Wide, Idx, Add, Raw, XorIn, Cong, Poly, ShiftUp, MessagePoly, Xor;
      if buf == null { return 0; }
      var c := Add(crc, 0xffff_ffff);
      ghost var c0, all := c, buf[..];
      var p := 0;
      if len >= N * W + W - 1 {
        while p < len && (addr + p) % W != 0
          invariant p <= len && (addr % W == 0 ==> p == 0) && p <= W - addr % W
          invariant Raw(c, all[p..len]) == Raw(c0, all[0..len])
        {
          NotYetAligned(addr, p, W);
          c := OneByte(c, buf, p, all, len);
          p := p + 1;
        }
        var blks := (len - p) / (N * W);
        WordsFit(N, W, 0);
        WholeBlocks(len - p, N * W);
        ghost var q := p + blks * (N * W);
        RawAppend(c, all[p..q], all[q..len]);
        assert all[p..len] == all[p..q] + all[q..len];
        assert all[p..q] == buf[p..q];
        c := BraidLoop(c, buf, p, blks);
        p := p + blks * (N * W);
      }
      assert all[p..len] == buf[p..len] && all[0..len] == buf[..len];
      c := ByteLoop(c, buf, p, len);
      r := Add(c, 0xffff_ffff);
      CrcIsRemainder(crc, buf[..len]);
    }

    method Combine64(crc1: bv32, crc2: bv32, len2: nat) returns (r: bv32)
      requires Valid()
      ensures r == Combined(crc1, crc2, len2)
    {
      hide Times, XPow, Add;
      var op := X2NModP(len2, 3);
      assert len2 * Pow2(3) == 8 * len2 by { assert Pow2(3) == 8; }
      var p := MultModP(op, crc1);
      r := Add(p, crc2);
    }
  }

  // A length after that many rounds of n >>= 1.
  function Halved(n: int, rounds: nat): int {
    if rounds == 0 then n else Halved(n, rounds - 1) / 2
  }

  // The loop of x2nmodp ends exactly for lengths that are not negative: -1 halves to itself.
  lemma HalvingEnds(n: int)
    ensures (exists rounds: nat :: Halved(n, rounds) == 0) <==> n >= 0
  {
    if n >= 0 {
      HalvedBounds(n, n);
    } else {
      forall rounds: nat ensures Halved(n, rounds) < 0 { HalvedBounds(n, rounds); }
    }
  }

  lemma {:induction false} HalvedBounds(n: int, rounds: nat)
    ensures if n < 0 then Halved(n, rounds) < 0 else 0 <= Halved(n, rounds) <= (if rounds < n then n - rounds else 0)
  {
    if rounds > 0 { HalvedBounds(n, rounds - 1); }
  }

  lemma WordsFit(n: nat, w: nat, k: nat)
    requires n >= 1 && w >= 4 && k < w
    ensures n * w >= k + 1
  {
    assert n * w >= 1 * w;
  }

  lemma X2nNonzero(k: nat)
    ensures X2n(k) != 0
  {
    XPowNonzero(ONE, Pow2(k));
  }

  lemma PowerOf(q: bv32, e: nat)
    ensures Times(X2n(e), q) == XPow(q, Pow2(e))
  {
    PowerTimes(q, Pow2(e));
  }

  lemma TopByte(b: bv8)
    ensures (Wide(b) << 24) & 0xff == 0 && ((Wide(b) << 24) >> 8) & 0xff == 0
    ensures (((Wide(b) << 24) >> 8) >> 8) & 0xff == 0
    ensures (((Wide(b) << 24) >> 8) >> 8) >> 8 == Wide(b)
    ensures b != 0 ==> Wide(b) << 24 != 0
  {
  }

  // The table generator works with the byte at the top of the register.
  lemma BraidEntry(b: bv8, n: nat)
    requires b != 0 && n >= 1
    ensures Wide(b) << 24 != 0
    ensures Times(Wide(b) << 24, XPow(ONE, (n + 3) * 8 * Pow2(0))) == T(XPow(Wide(b), 8), n - 1)
  {
    hide X, XPow, Times;
    TopByte(b);
    var u := Wide(b) << 24;
    hide Wide;
    TimesComm(u, XPow(ONE, (n + 3) * 8));
    PowerTimes(u, (n + 3) * 8);
    ShiftOut(u);
    ShiftOut(u >> 8);
    ShiftOut((u >> 8) >> 8);
    XPowSum(u, 8, 8);
    XPowSum(u, 16, 8);
    XPowSum(u, 24, 8 * n);
    XPowSum(Wide(b), 8, 8 * (n - 1));
  }

  lemma ZeroEntry(n: nat)
    ensures T(XPow(Wide(0), 8), n) == 0
  {
    hide X, XPow;
    WideParts(0);
    XPowZero(8);
    XPowZero(8 * n);
  }

  lemma RawUnfold(c: bv32, s: seq<bv8>)
    ensures Raw(c, s) == if s == [] then c else Raw(Step(c, s[0]), s[1..])
  {
  }

  lemma {:induction false} XorInZero(w: seq<bv8>)
    ensures XorIn(w, 0) == w
  {
    hide Low, Shr8, Xor8;
    WideParts(0);
    if w != [] {
      WideParts(w[0]);
      XorInZero(w[1..]);
    }
  }

  // One step of crc_word keeps the remaining input with the register added in.
  lemma WordStep(word: seq<bv8>, k: nat, c: bv32, data: seq<bv8>)
    requires k < |word| && |word| >= 4 && |data| == |word|
    requires data == XorIn(word[k..] + Zeros(k), c)
    ensures XorIn(data[1..] + [0], XPow(Wide(data[0]), 8))
         == XorIn(word[k + 1..] + Zeros(k + 1), Step(c, word[k]))
  {
    hide Add, Low, Shr8, Wide, XPow, Step, Xor8, Fits;
    var w := word[k..] + Zeros(k);
    var rest := word[k + 1..] + Zeros(k);
    assert w[0] == word[k] && w[1..] == rest;
    assert data[0] == Xor8(word[k], Low(c)) && data[1..] == XorIn(rest, Shr8(c));
    hide XorIn;
    FitsFour(c);
    FitsMore(Shr8(c), 3, |rest|);
    XorInExtend(rest, Shr8(c));
    assert rest + [0] == word[k + 1..] + Zeros(k + 1);
    var t := XPow(Wide(data[0]), 8);
    XorInTwice(rest + [0], Shr8(c), t);
    StepOf(c, word[k]);
  }

  lemma StepOf(c: bv32, b: bv8)
    ensures Add(Shr8(c), XPow(Wide(Xor8(b, Low(c))), 8)) == Step(c, b)
  {
    hide Add, Low, Shr8, Wide, XPow, Xor8;
    StepSplit(0, c, b);
    AddRules(c, 0, 0);
    AddRules(Wide(Xor8(b, Low(c))), 0, 0);
    AddRules(Shr8(c), Step(0, Xor8(b, Low(c))), 0);
  }

  // ----- Braids -----

  // The first k bytes of a word, moved to the end of a block of n bytes.
  function Partial(word: seq<bv8>, k: nat, n: nat): bv32
    requires k <= |word| <= n
  {
    if k == 0 then 0
    else Add(Partial(word, k - 1, n), T(XPow(Wide(word[k - 1]), 8), n - k))
  }

  // k bytes of each word are in its register, and one more of the first j words.
  ghost predicate Carried(words: seq<seq<bv8>>, crcs: seq<bv32>, j: nat, k: nat, w: nat, n: nat) {
    && |words| == |crcs| && (if j > 0 then k < w else k <= w) && w <= n
    && forall i :: 0 <= i < |words| ==> |words[i]| == w && crcs[i] == Partial(words[i], if i < j then k + 1 else k, n)
  }

  lemma CarriedSizes(words: seq<seq<bv8>>, crcs: seq<bv32>, j: nat, k: nat, w: nat, n: nat)
    requires Carried(words, crcs, j, k, w, n)
    ensures |words| == |crcs| && k <= w <= n && forall i :: 0 <= i < |words| ==> |words[i]| == w
  {
  }

  lemma CarriedNext(words: seq<seq<bv8>>, crcs: seq<bv32>, j: nat, k: nat, w: nat, n: nat)
    requires Carried(words, crcs, j, k, w, n) && j < |words| && k < w && |words[j]| == w <= n
    ensures Carried(words, crcs[j := Add(crcs[j], T(XPow(Wide(words[j][k]), 8), n - (k + 1)))], j + 1, k, w, n)
  {
    hide T, XPow, Wide, Add;
  }

  lemma AllCarried(words: seq<seq<bv8>>, crcs: seq<bv32>, k: nat, w: nat, n: nat)
    requires Carried(words, crcs, |words|, k, w, n) && k < w
    ensures Carried(words, crcs, 0, k + 1, w, n)
  {
    hide Partial;
  }

  lemma NoneCarried(words: seq<seq<bv8>>, crcs: seq<bv32>, w: nat, n: nat)
    requires |words| == |crcs| && w <= n && forall i :: 0 <= i < |words| ==> |words[i]| == w && crcs[i] == 0
    ensures Carried(words, crcs, 0, 0, w, n)
  {
  }

  lemma {:induction false} PartialIs(word: seq<bv8>, k: nat, n: nat)
    requires k <= |word| <= n
    ensures Partial(word, k, n) == T(Raw(0, word[..k]), n - k)
  {
    hide Add, XPow, Wide;
    if k == 0 { XPowZero(8 * n); }
    else {
      PartialIs(word, k - 1, n);
      var b, r := word[k - 1], Raw(0, word[..k - 1]);
      assert word[..k] == word[..k - 1] + [b];
      RawAppend(0, word[..k - 1], [b]);
      RawUnfold(r, [b]);
      RawUnfold(Step(r, b), [b][1..]);
      XPowAdd(r, Wide(b), 8);
      TAdd(XPow(r, 8), XPow(Wide(b), 8), n - k);
      XPowSum(r, 8, 8 * (n - k));
    }
  }

  // The braid CRCs stand for their values moved to the end of the rest of the
  // input: the first at its start, each next one a word further on.
  function Spread(crcs: seq<bv32>, n: int, w: nat): bv32 {
    if crcs == [] then 0
    else Add(if n >= 0 then T(crcs[0], n) else 0, Spread(crcs[1..], n - w, w))
  }

  function Value(crcs: seq<bv32>, rest: seq<bv8>, w: nat): bv32 {
    Add(Spread(crcs, |rest|, w), Raw(0, rest))
  }

  lemma ValueEmpty(w: nat)
    ensures Value([], [], w) == 0
  {
    AddRules(0, 0, 0);
  }

  lemma TZero(n: nat)
    ensures T(0, n) == 0
  {
    XPowZero(8 * n);
  }

  lemma TNone(c: bv32)
    ensures T(c, 0) == c
  {
    XPowNone(c);
  }

  lemma {:induction false} SpreadZero(crcs: seq<bv32>, n: int, w: nat)
    requires forall i :: 0 <= i < |crcs| ==> crcs[i] == 0
    ensures Spread(crcs, n, w) == 0
  {
    hide T, Add;
    AddRules(0, 0, 0);
    if crcs != [] {
      if n >= 0 { TZero(n); }
      SpreadZero(crcs[1..], n - w, w);
    }
  }

  lemma StartBraids(crc: bv32, crcs: seq<bv32>, all: seq<bv8>, w: nat)
    requires |crcs| >= 1 && crcs[0] == crc && forall i :: 1 <= i < |crcs| ==> crcs[i] == 0
    ensures Value(crcs, all, w) == Raw(crc, all)
  {
    hide T, Add, Raw;
    SpreadZero(crcs[1..], |all| - w, w);
    AddRules(T(crc, |all|), 0, 0);
    RawFromZero(crc, all);
  }

  // Consuming a word adds it to the running CRC of its braid.
  lemma ChainStep(c: bv32, crcs: seq<bv32>, rest: seq<bv8>, w: nat)
    requires crcs != [] && 0 < w <= |rest|
    ensures Add(T(c, |rest|), Value(crcs, rest, w))
         == Add(T(Raw(Add(crcs[0], c), rest[..w]), |rest| - w), Value(crcs[1..], rest[w..], w))
  {
    hide T, Add, Raw;
    var n := |rest| - w;
    var d, x, y := Add(crcs[0], c), rest[..w], rest[w..];
    assert rest == x + y;
    RawAppend(0, x, y);
    RawFromZero(Raw(0, x), y);
    RawFromZero(d, x);
    TAdd(crcs[0], c, |rest|);
    TSum(d, w, n);
    TAdd(T(d, w), Raw(0, x), n);
    ChainAlgebra(T(c, |rest|), T(crcs[0], |rest|), Spread(crcs[1..], n, w), T(Raw(0, x), n), Raw(0, y));
  }

  lemma ChainAlgebra(tc: bv32, t0: bv32, sp: bv32, tx: bv32, y: bv32)
    ensures Add(tc, Add(Add(t0, sp), Add(tx, y))) == Add(Add(Add(t0, tc), tx), Add(sp, y))
  {
    hide Add;
    AddSwap(t0, sp, tx, y);
    AddRules(tc, Add(t0, tx), Add(sp, y));
    AddRules(tc, t0, tx);
    AddRules(t0, tc, tx);
  }

  // One block, all braids: each word and its CRC become the CRC for the next block.
  lemma {:induction false} BraidWords(crcs: seq<bv32>, next: seq<bv32>, x: seq<bv8>, y: seq<bv8>, w: nat, d: nat)
    requires |crcs| == |next| == |Words(x, w)| && 4 <= w && |x| % w == 0
    requires |y| >= d
    requires forall j :: 0 <= j < |crcs| ==> next[j] == T(Raw(crcs[j], Words(x, w)[j]), d)
    ensures Value(crcs, x + y, w) == Add(Spread(next, |x| + |y| - w - d, w), Raw(0, y))
    decreases |crcs|
  {
    hide T, Add, Raw, Words;
    if crcs == [] {
      NoWords(x, w);
      assert x + y == y;
    } else {
      hide Spread, Value;
      WordsStep(x, w);
      LessOne(|x|, w);
      var rest := x + y;
      var x' := x[w..];
      var n := |rest| - w - d;
      BraidWords(crcs[1..], next[1..], x', y, w, d);
      assert rest[w..] == x' + y && rest[..w] == x[..w];
      ChainStart(crcs, rest, w);
      var r := Raw(crcs[0], rest[..w]);
      TSum(r, d, n);
      BraidAlgebra(T(r, |rest| - w), Spread(next[1..], n - w, w), Raw(0, y));
      SpreadUnfold(next, n, w);
    }
  }

  lemma ChainStart(crcs: seq<bv32>, rest: seq<bv8>, w: nat)
    requires crcs != [] && 0 < w <= |rest|
    ensures Value(crcs, rest, w)
         == Add(T(Raw(crcs[0], rest[..w]), |rest| - w), Value(crcs[1..], rest[w..], w))
  {
    hide T, Add, Raw, Value;
    ChainStep(0, crcs, rest, w);
    TZero(|rest|);
    AddRules(Value(crcs, rest, w), 0, 0);
    AddRules(0, Value(crcs, rest, w), 0);
    AddRules(crcs[0], 0, 0);
  }

  lemma SpreadUnfold(crcs: seq<bv32>, n: nat, w: nat)
    requires crcs != []
    ensures Spread(crcs, n, w) == Add(T(crcs[0], n), Spread(crcs[1..], n - w, w))
  {
  }

  lemma BraidAlgebra(a: bv32, b: bv32, c: bv32)
    ensures Add(a, Add(b, c)) == Add(Add(a, b), c)
  {
    AddRules(a, b, c);
  }

  // The words of a stretch of input.
  function Words(x: seq<bv8>, w: nat): seq<seq<bv8>> {
    if w == 0 || |x| < w then [] else [x[..w]] + Words(x[w..], w)
  }

  lemma WordsStep(x: seq<bv8>, w: nat)
    requires w > 0 && Words(x, w) != []
    ensures |x| >= w && Words(x, w)[0] == x[..w] && Words(x, w)[1..] == Words(x[w..], w)
  {
  }

  lemma LessOne(n: nat, w: nat)
    requires 0 < w <= n
    ensures (n - w) % w == n % w
  {
    ModShift(n - w, 1, w);
  }

  lemma NoWords(x: seq<bv8>, w: nat)
    requires w > 0 && Words(x, w) == [] && |x| % w == 0
    ensures x == []
  {
  }

  lemma {:induction false} CountWords(x: seq<bv8>, n: nat, w: nat)
    requires w > 0 && |x| == n * w
    ensures |Words(x, w)| == n && |x| % w == 0
    ensures forall j :: 0 <= j < n ==> |Words(x, w)[j]| == w
  {
    if n > 0 {
      assert n * w == (n - 1) * w + w;
      CountWords(x[w..], n - 1, w);
    }
    ModUnique(|x|, n, 0, w);
  }

  lemma BlockStep(before: seq<bv32>, after: seq<bv32>, words: seq<seq<bv8>>, x: seq<bv8>, y: seq<bv8>, w: nat)
    requires |before| == |after| == |words| >= 1 && w >= 4 && |x| == |before| * w && |y| >= |x|
    requires |Words(x, w)| == |words|
    requires forall j :: 0 <= j < |words| ==> words[j] == XorIn(Words(x, w)[j], before[j])
    requires Carried(words, after, 0, w, w, |x|)
    ensures Value(before, x + y, w) == Value(after, y, w)
  {
    hide T, Add, Raw, XorIn, Partial, Spread, Words;
    var d := |x| - w;
    CountWords(x, |before|, w);
    forall j | 0 <= j < |before|
      ensures after[j] == T(Raw(before[j], Words(x, w)[j]), d)
    {
      AbsorbWord(before[j], Words(x, w)[j]);
      PartialIs(words[j], w, |x|);
      assert words[j][..w] == words[j];
    }
    BraidWords(before, after, x, y, w, d);
  }

  lemma BlockFits(blks: nat, m: nat, p: int, end: int)
    requires blks >= 1 && p == end - blks * m
    ensures p + m <= end && end - (p + m) == (blks - 1) * m
    ensures blks > 1 ==> end - (p + m) >= m
  {
    assert blks * m == (blks - 1) * m + m;
    if blks > 1 { assert (blks - 1) * m == (blks - 2) * m + m; }
  }

  lemma WholeBlocks(n: nat, m: nat)
    requires n >= m > 0
    ensures n / m >= 1 && n / m * m <= n
  {
    assert n == n / m * m + n % m;
  }

  // The alignment loop takes fewer than W bytes.
  lemma NotYetAligned(addr: nat, p: nat, w: nat)
    requires w >= 4 && p <= w - addr % w && (addr % w == 0 ==> p == 0)
    requires (addr + p) % w != 0
    ensures addr % w != 0 && p < w - addr % w
  {
    if p == w - addr % w {
      assert addr == addr / w * w + addr % w;
      assert (addr / w + 1) * w == addr / w * w + w;
      ModUnique(addr + p, addr / w + 1, 0, w);
    }
  }

  // ----- The checksum and its combination -----

  function Crc(crc: bv32, s: seq<bv8>): bv32 {
    Add(Raw(Add(crc, 0xffff_ffff), s), 0xffff_ffff)
  }

  // The definition: the message with its first 32 bits complemented, or those of a checksum so far,
  // 32 zero bits behind it, divided by the polynomial; the remainder is complemented.
  lemma CrcIsRemainder(crc: bv32, s: seq<bv8>)
    ensures Cong(Xor(ShiftUp(Poly(Add(crc, 0xffff_ffff)), 8 * |s|), ShiftUp(MessagePoly(s), 32)),
      Poly(Add(Crc(crc, s), 0xffff_ffff)))
  {
    hide Cong, Poly, ShiftUp, MessagePoly, Xor, Add, Raw;
    RawIsRemainder(Add(crc, 0xffff_ffff), s);
    AddRules(Raw(Add(crc, 0xffff_ffff), s), 0xffff_ffff, 0);
  }

  // No other word meets the definition.
  lemma CrcUnique(crc: bv32, s: seq<bv8>, r: bv32)
    requires Cong(Xor(ShiftUp(Poly(Add(crc, 0xffff_ffff)), 8 * |s|), ShiftUp(MessagePoly(s), 32)),
      Poly(Add(r, 0xffff_ffff)))
    ensures r == Crc(crc, s)
  {
    hide Cong, Poly, ShiftUp, MessagePoly, Xor, Add, Raw;
    var all := Xor(ShiftUp(Poly(Add(crc, 0xffff_ffff)), 8 * |s|), ShiftUp(MessagePoly(s), 32));
    var c, d := Add(r, 0xffff_ffff), Add(Crc(crc, s), 0xffff_ffff);
    CrcIsRemainder(crc, s);
    CongSym(all, Poly(c));
    CongTrans(Poly(c), all, Poly(d));
    PolySize(c);
    PolySize(d);
    RemainderUnique(Poly(c), Poly(d));
    PolyInjective(c, d);
    AddRules(r, 0xffff_ffff, 0);
    AddRules(Crc(crc, s), 0xffff_ffff, 0);
  }

  // The checksum of one zero byte.
  lemma CrcOfZero()
    ensures Crc(0, [0]) == 0xd202_ef8d
  {
    hide XPow;
    var c: bv32 := 0xffff_ffff;
    assert [0 as bv8][1..] == [];
    RawUnfold(c, [0]);
    RawUnfold(Step(c, 0), []);
    EightSteps();
    OneComplement();
  }

  lemma OneComplement()
    ensures Add(0, 0xffff_ffff) == 0xffff_ffff && Add(0xffff_ffff, Wide(0)) == 0xffff_ffff
    ensures Add(0x2dfd_1072, 0xffff_ffff) == 0xd202_ef8d
  {
  }

  lemma EightSteps()
    ensures XPow(0xffff_ffff, 8) == 0x2dfd_1072
  {
    hide X;
    FourSteps();
    LastSteps();
    XPowSum(0xffff_ffff, 4, 4);
    assert XPow(0xffff_ffff, 4) == X(X(X(X(0xffff_ffff))));
    assert XPow(0xb242_0de3, 4) == X(X(X(X(0xb242_0de3))));
  }

  lemma FourSteps()
    ensures X(X(X(X(0xffff_ffff)))) == 0xb242_0de3
  {
    assert X(0xffff_ffff) == 0x9247_7cdf;
    assert X(0x9247_7cdf) == 0xa49b_3d4f;
    assert X(0xa49b_3d4f) == 0xbff5_1d87;
  }

  lemma LastSteps()
    ensures X(X(X(X(0xb242_0de3)))) == 0x2dfd_1072
  {
    assert X(0xb242_0de3) == 0xb499_85d1;
    assert X(0xb499_85d1) == 0xb7f4_41c8;
    assert X(0xb7f4_41c8) == 0x5bfa_20e4;
  }

  function Combined(crc1: bv32, crc2: bv32, len2: nat): bv32 {
    Add(Times(XPow(ONE, 8 * len2), crc1), crc2)
  }

  // Appending data continues the checksum ...
  lemma CrcAppend(crc: bv32, s: seq<bv8>, t: seq<bv8>)
    ensures Crc(Crc(crc, s), t) == Crc(crc, s + t)
  {
    hide Add, Raw;
    var r := Raw(Add(crc, 0xffff_ffff), s);
    AddRules(r, 0xffff_ffff, 0);
    RawAppend(Add(crc, 0xffff_ffff), s, t);
  }

  // ... and two checksums combine into that of the concatenation.
  lemma CombineIsConcat(s: seq<bv8>, t: seq<bv8>)
    ensures Combined(Crc(0, s), Crc(0, t), |t|) == Crc(0, s + t)
  {
    hide Add, Raw, XPow, Times;
    var f: bv32 := 0xffff_ffff;
    var i := Add(0, f);
    var r := Raw(i, s);
    PowerTimes(Crc(0, s), 8 * |t|);
    RawAppend(i, s, t);
    RawFromZero(r, t);
    RawFromZero(i, t);
    AddRules(f, 0, 0);
    TAdd(r, f, |t|);
    var tr, tf, v := T(r, |t|), T(f, |t|), Raw(0, t);
    AddRules(tr, tf, Add(Add(tf, v), f));
    AddRules(tf, Add(tf, v), f);
    AddRules(tf, tf, v);
    AddRules(v, 0, 0);
    AddRules(tr, v, f);
  }

  // Of three checksums it does not matter which two are combined first.
  lemma CombineAssoc(a: bv32, b: bv32, c: bv32, m: nat, n: nat)
    ensures Combined(Combined(a, b, m), c, n) == Combined(a, Combined(b, c, n), m + n)
  {
    hide Add, XPow, Times;
    var am := XPow(a, 8 * m);
    PowerTimes(a, 8 * m);
    PowerTimes(Add(am, b), 8 * n);
    XPowAdd(am, b, 8 * n);
    PowerTimes(b, 8 * n);
    PowerTimes(a, 8 * (m + n));
    XPowSum(a, 8 * m, 8 * n);
    AddRules(XPow(am, 8 * n), XPow(b, 8 * n), c);
  }
}
