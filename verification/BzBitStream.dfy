// The bit stream of bzip2: bsW and bsFinishWrite through a 32-bit buffer filled from the top
// (dep/bzip2/compress.c), and GET_BITS through one filled from the bottom
// (dep/bzip2/decompress.c), each against the plain sequence of bits.
module BzBitStream {
  import opened ByteType
  import opened Bits

  type BitValue = b: int | 0 <= b < 2

  // ----- Bit strings, first bit most significant -----

  function Value(bits: seq<BitValue>): nat {
    if bits == [] then 0 else 2 * Value(bits[..|bits| - 1]) + bits[|bits| - 1]
  }

  // The low l bits of c.
  function Word(c: nat, l: nat): (w: seq<BitValue>)
    ensures |w| == l
  {
    if l == 0 then [] else Word(c / 2, l - 1) + [c % 2]
  }

  function Zeros(n: nat): (w: seq<BitValue>)
    ensures |w| == n && forall i :: 0 <= i < n ==> w[i] == 0
  {
    seq(n, _ => 0)
  }

  function Read(bits: seq<BitValue>, pos: nat, n: nat): nat
    requires pos + n <= |bits|
  {
    Value(bits[pos..pos + n])
  }

  lemma {:induction false} WordValue(c: nat, l: nat)
    requires c < Pow2(l)
    ensures Value(Word(c, l)) == c
  {
    if l > 0 {
      WordValue(c / 2, l - 1);
      assert Word(c, l)[..l - 1] == Word(c / 2, l - 1);
    }
  }

  lemma {:induction false} ValueWord(bits: seq<BitValue>)
    ensures Value(bits) < Pow2(|bits|) && Word(Value(bits), |bits|) == bits
  {
    if bits != [] { ValueWord(bits[..|bits| - 1]); }
  }

  // The high part of a word is the word shifted right.
  lemma {:induction false} WordSplit(c: nat, a: nat, b: nat)
    ensures Word(c, a + b) == Word(Shr(c, b), a) + Word(c, b)
    decreases b
  {
    if b > 0 {
      WordSplit(c / 2, a, b - 1);
      assert Word(Shr(c, b), a) + Word(c, b) == Word(Shr(c / 2, b - 1), a) + Word(c / 2, b - 1) + [c % 2];
    }
  }

  lemma {:induction false} WordShl(c: nat, l: nat, n: nat)
    ensures Word(c * Pow2(n), l + n) == Word(c, l) + Zeros(n)
    decreases n
  {
    if n > 0 {
      WordShl(c, l, n - 1);
      DoubleOf(c, Pow2(n - 1));
      assert Word(c * Pow2(n), l + n) == Word(c * Pow2(n - 1), l + n - 1) + [0];
      assert Zeros(n) == Zeros(n - 1) + [0];
    } else {
      assert c * Pow2(0) == c;
    }
  }

  lemma DoubleOf(c: nat, p: nat)
    ensures c * (2 * p) / 2 == c * p && c * (2 * p) % 2 == 0
  {
    assert c * (2 * p) == 2 * (c * p);
  }

  lemma {:induction false} WordMod(c: nat, w: nat, l: nat)
    requires l <= w
    ensures Word(c % Pow2(w), l) == Word(c, l)
    decreases l
  {
    if l > 0 {
      HalfMod(c, Pow2(w - 1));
      WordMod(c / 2, w - 1, l - 1);
    }
  }

  lemma HalfMod(c: nat, p: nat)
    requires p > 0
    ensures c % (2 * p) / 2 == c / 2 % p && c % (2 * p) % 2 == c % 2
  {
    var h, q, r := c / 2, c / 2 / p, c / 2 % p;
    assert h == q * p + r;
    assert q * (2 * p) == 2 * (q * p);
    ModUnique(c, q, 2 * r + c % 2, 2 * p);
  }

  function OrBits(a: seq<BitValue>, b: seq<BitValue>): (r: seq<BitValue>)
    requires |a| == |b|
    ensures |r| == |a|
  {
    seq(|a|, i requires 0 <= i < |a| => if a[i] == 1 || b[i] == 1 then 1 else 0)
  }

  lemma {:induction false} WordOr(x: nat, y: nat, l: nat)
    ensures Word(Or(x, y), l) == OrBits(Word(x, l), Word(y, l))
    decreases l
  {
    if l > 0 {
      WordOr(x / 2, y / 2, l - 1);
      assert Or(x, y) / 2 == Or(x / 2, y / 2) by { if x == 0 && y == 0 { assert Or(0, 0) == 0; } }
    }
  }

  lemma {:induction false} WordZero(l: nat)
    ensures Word(0, l) == Zeros(l)
  {
    if l > 0 { WordZero(l - 1); }
  }

  lemma {:induction false} ShrSmall(c: nat, n: nat)
    requires c < Pow2(n)
    ensures Shr(c, n) == 0
    decreases n
  {
    if n > 0 { ShrSmall(c / 2, n - 1); }
  }

  lemma {:induction false} ShrBound(c: nat, n: nat, m: nat)
    requires c < Pow2(n + m)
    ensures Shr(c, n) < Pow2(m)
    decreases n
  {
    if n > 0 { ShrBound(c / 2, n - 1, m); }
  }

  lemma {:induction false} OrBound(x: nat, y: nat, n: nat)
    requires x < Pow2(n) && y < Pow2(n)
    ensures Or(x, y) < Pow2(n)
    decreases n
  {
    if n > 0 { OrBound(x / 2, y / 2, n - 1); } else { assert Or(0, 0) == 0; }
  }

  // Masking keeps the low bits.
  lemma {:induction false} Masked(x: nat, n: nat)
    ensures And(x, Ones(n)) == Value(Word(x, n))
    decreases n
  {
    if n == 0 { AndZero(x); }
    else {
      assert Ones(n) == 2 * Ones(n - 1) + 1;
      Masked(x / 2, n - 1);
      assert Word(x, n)[..n - 1] == Word(x / 2, n - 1);
    }
  }

  function BitsOf(z: seq<Byte>): (r: seq<BitValue>)
    ensures |r| == 8 * |z|
  {
    if z == [] then [] else BitsOf(z[..|z| - 1]) + Word(z[|z| - 1], 8)
  }

  lemma BitsOfMore(z: seq<Byte>, x: Byte)
    ensures BitsOf(z + [x]) == BitsOf(z) + Word(x, 8)
  {
    assert (z + [x])[..|z|] == z;
  }

  lemma {:induction false} BitsOfConcat(y: seq<Byte>, z: seq<Byte>)
    ensures BitsOf(y + z) == BitsOf(y) + BitsOf(z)
  {
    if z == [] { assert y + z == y; }
    else {
      BitsOfConcat(y, z[..|z| - 1]);
      assert (y + z)[..|y + z| - 1] == y + z[..|z| - 1];
      assert BitsOf(y) + BitsOf(z) == BitsOf(y) + BitsOf(z[..|z| - 1]) + Word(z[|z| - 1], 8);
    }
  }

  // ----- Writing -----

  function Shl32(x: nat, n: nat): (r: nat)
    ensures r < Pow2(32)
  {
    x * Pow2(n) % Pow2(32)
  }

  // The finished bytes and the buffer are what was written, filled up with zeros.
  ghost predicate Buffered(zbits: seq<Byte>, buff: nat, live: int, written: seq<BitValue>) {
    && live <= 32 && buff < Pow2(32)
    && BitsOf(zbits) + Word(buff, 32) == written + Zeros(32 - live)
  }

  lemma TopByte(buff: nat)
    requires buff < Pow2(32)
    ensures Shr(buff, 24) < 256
    ensures Word(buff, 32) == Word(Shr(buff, 24), 8) + Word(buff, 24)
    ensures Word(Shl32(buff, 8), 32) == Word(buff, 24) + Zeros(8)
  {
    hide Word, Shr, Zeros;
    assert Pow2(8) == 256;
    ShrBound(buff, 24, 8);
    WordSplit(buff, 8, 24);
    WordShl(buff, 24, 8);
    WordMod(buff * Pow2(8), 32, 32);
  }

  // A byte leaves the buffer.
  lemma BufferedOut(zbits: seq<Byte>, buff: nat, live: int, written: seq<BitValue>)
    requires Buffered(zbits, buff, live, written)
    ensures Shr(buff, 24) < 256 && Buffered(zbits + [Shr(buff, 24)], Shl32(buff, 8), live - 8, written)
  {
    hide Word, Shr, Shl32, BitsOf, Pow2;
    TopByte(buff);
    var x: Byte := Shr(buff, 24);
    BitsOfMore(zbits, x);
    assert written + Zeros(32 - live) + Zeros(8) == written + Zeros(40 - live);
    assert (BitsOf(zbits) + Word(x, 8)) + (Word(buff, 24) + Zeros(8))
      == BitsOf(zbits) + (Word(x, 8) + Word(buff, 24)) + Zeros(8);
  }

  lemma OrAligned(a: seq<BitValue>, w: seq<BitValue>, k: nat)
    ensures OrBits(a + Zeros(|w| + k), Zeros(|a|) + w + Zeros(k)) == a + w + Zeros(k)
  {
  }

  // The word of v placed n bits wide below the live bits.
  lemma Placed(v: nat, n: nat, live: nat)
    requires v < Pow2(n) && live + n <= 32
    ensures Shl32(v, 32 - live - n) == v * Pow2(32 - live - n)
    ensures Word(Shl32(v, 32 - live - n), 32) == Zeros(live) + Word(v, n) + Zeros(32 - live - n)
  {
    hide Word, Zeros;
    var k := 32 - live - n;
    WordShl(v, live + n, k);
    WordSplit(v, live, n);
    ShrSmall(v, n);
    WordZero(live);
    ProductBelow(v, n, k, 32);
    RemSmall(v * Pow2(k), Pow2(32));
  }

  lemma ProductBelow(v: nat, n: nat, k: nat, w: nat)
    requires v < Pow2(n) && n + k <= w
    ensures v * Pow2(k) < Pow2(w)
  {
    Pow2Add(n, k);
    Pow2Mono(n + k, w);
    ProductLess(v, Pow2(n), Pow2(k));
  }

  lemma ProductLess(v: nat, p: nat, q: nat)
    requires v < p && q > 0
    ensures v * q < p * q
  {
  }

  lemma Suffix(z: seq<BitValue>, b: seq<BitValue>, w: seq<BitValue>, k: nat)
    requires z + b == w + Zeros(k) && k <= |b|
    ensures b == b[..|b| - k] + Zeros(k) && z + b[..|b| - k] == w
  {
    assert (z + b)[|w|..] == Zeros(k);
    assert (z + b)[|w|..] == b[|b| - k..];
    assert (z + b)[..|w|] == w && z + b[..|b| - k] == (z + b)[..|w|];
  }

  // n bits enter it.
  lemma BufferedIn(zbits: seq<Byte>, buff: nat, live: int, written: seq<BitValue>, n: nat, v: nat)
    requires Buffered(zbits, buff, live, written) && live >= 0 && live + n <= 32 && v < Pow2(n)
    ensures Buffered(zbits, Or(buff, Shl32(v, 32 - live - n)), live + n, written + Word(v, n))
  {
    hide Word, Shl32, BitsOf, Pow2, Or, Zeros, OrBits;
    var k := 32 - live - n;
    Suffix(BitsOf(zbits), Word(buff, 32), written, 32 - live);
    var a := Word(buff, 32)[..live];
    Placed(v, n, live);
    WordOr(buff, Shl32(v, k), 32);
    OrAligned(a, Word(v, n), k);
    OrBound(buff, Shl32(v, k), 32);
    assert BitsOf(zbits) + (a + Word(v, n) + Zeros(k)) == (BitsOf(zbits) + a) + Word(v, n) + Zeros(k);
  }

  lemma BufferedDone(zbits: seq<Byte>, buff: nat, live: int, written: seq<BitValue>)
    requires Buffered(zbits, buff, live, written) && live <= 0
    ensures BitsOf(zbits) == written + Zeros(-live)
  {
    hide Word, BitsOf;
    var w := BitsOf(zbits) + Word(buff, 32);
    assert w[..|BitsOf(zbits)|] == BitsOf(zbits);
    assert w[..|BitsOf(zbits)|] == written + Zeros(-live);
  }

  class Writer {
    var zbits: seq<Byte>
    var bsBuff: nat
    var bsLive: int
    ghost var written: seq<BitValue>

    ghost predicate Valid()
      reads this
    {
      bsLive >= 0 && Buffered(zbits, bsBuff, bsLive, written)
    }

    constructor ()
      ensures Valid() && written == []
    {
      zbits, bsBuff, bsLive, written := [], 0, 0, [];
      WordZero(32);
    }

    // bsNEEDW: whole bytes leave the buffer.
    method NeedW()
      requires Valid()
      modifies this`zbits, this`bsBuff, this`bsLive
      ensures Valid() && bsLive < 8
    {
      hide Buffered, Shr, Shl32;
      while bsLive >= 8
        invariant Valid()
      {
        BufferedOut(zbits, bsBuff, bsLive, written);
        zbits := zbits + [Shr(bsBuff, 24)];
        bsBuff := Shl32(bsBuff, 8);
        bsLive := bsLive - 8;
      }
    }

    // bsW: the low n bits of v, which has no others.
    method W(n: nat, v: nat)
      requires Valid() && n <= 24 && v < Pow2(n)
      modifies this
      ensures Valid() && written == old(written) + Word(v, n)
    {
      hide Buffered, Word, Or, Shl32, Pow2;
      NeedW();
      BufferedIn(zbits, bsBuff, bsLive, written, n, v);
      bsBuff := Or(bsBuff, Shl32(v, 32 - bsLive - n));
      bsLive := bsLive + n;
      written := written + Word(v, n);
    }

    // bsPutUInt32, in four bytes.
    method PutUInt32(u: nat)
      requires Valid() && u < Pow2(32)
      modifies this
      ensures Valid() && written == old(written) + Word(u, 32)
    {
      hide Buffered, Word, And, Ones, Shr, Pow2;
      FourBytes(u);
      Appended(written, Word(And(Shr(u, 24), 255), 8), Word(And(Shr(u, 16), 255), 8), Word(And(Shr(u, 8), 255), 8),
               Word(And(u, 255), 8));
      W(8, And(Shr(u, 24), 255));
      W(8, And(Shr(u, 16), 255));
      W(8, And(Shr(u, 8), 255));
      W(8, And(u, 255));
    }

    // bsFinishWrite: the rest leaves the buffer, filled up with zeros to a whole byte.
    method Finish()
      requires Valid()
      modifies this`zbits, this`bsBuff, this`bsLive
      ensures exists pad: nat :: pad < 8 && BitsOf(zbits) == written + Zeros(pad)
    {
      hide Buffered, Shr, Shl32;
      while bsLive > 0
        invariant bsLive > -8 && Buffered(zbits, bsBuff, bsLive, written)
      {
        BufferedOut(zbits, bsBuff, bsLive, written);
        zbits := zbits + [Shr(bsBuff, 24)];
        bsBuff := Shl32(bsBuff, 8);
        bsLive := bsLive - 8;
      }
      BufferedDone(zbits, bsBuff, bsLive, written);
      ghost var pad: nat := -bsLive;
      assert pad < 8 && BitsOf(zbits) == written + Zeros(pad);
    }
  }

  lemma WordOfMasked(x: nat, n: nat)
    ensures And(x, Ones(n)) < Pow2(n) && Word(And(x, Ones(n)), n) == Word(x, n)
  {
    Masked(x, n);
    ValueWord(Word(x, n));
  }

  lemma FourBytes(u: nat)
    ensures And(Shr(u, 24), 255) < Pow2(8) && And(Shr(u, 16), 255) < Pow2(8)
    ensures And(Shr(u, 8), 255) < Pow2(8) && And(u, 255) < Pow2(8)
    ensures Word(And(Shr(u, 24), 255), 8) + Word(And(Shr(u, 16), 255), 8) + Word(And(Shr(u, 8), 255), 8)
      + Word(And(u, 255), 8) == Word(u, 32)
  {
    hide And, Word, Shr;
    assert Ones(8) == 255;
    WordOfMasked(Shr(u, 24), 8);
    WordOfMasked(Shr(u, 16), 8);
    WordOfMasked(Shr(u, 8), 8);
    WordOfMasked(u, 8);
    WordSplit(u, 24, 8);
    WordSplit(Shr(u, 8), 16, 8);
    WordSplit(Shr(u, 16), 8, 8);
    ShrShr(u, 8, 8);
    ShrShr(u, 16, 8);
  }

  lemma Appended(s: seq<BitValue>, a: seq<BitValue>, b: seq<BitValue>, c: seq<BitValue>, d: seq<BitValue>)
    ensures s + a + b + c + d == s + (a + b + c + d)
  {
  }

  lemma {:induction false} ShrShr(x: nat, m: nat, n: nat)
    ensures Shr(Shr(x, m), n) == Shr(x, m + n)
    decreases m
  {
    if m > 0 { ShrShr(x / 2, m - 1, n); }
  }

  // ----- Reading -----

  // The low live bits of the buffer and the bytes still to come are the bits from pos on.
  ghost predicate Comes(input: seq<Byte>, next: nat, buff: nat, live: nat, pos: nat) {
    && next <= |input| && live <= 32 && buff < Pow2(32) && pos + live == 8 * next
    && Word(buff, live) + BitsOf(input[next..]) == BitsOf(input)[pos..]
  }

  lemma ShiftIn(buff: nat, x: Byte, live: nat)
    requires live + 8 <= 32
    ensures Or(Shl32(buff, 8), x) < Pow2(32)
    ensures Word(Or(Shl32(buff, 8), x), live + 8) == Word(buff, live) + Word(x, 8)
  {
    hide Word, Or;
    assert Pow2(8) == 256 && x < Pow2(32);
    var s := Shl32(buff, 8);
    OrBound(s, x, 32);
    WordMod(buff * Pow2(8), 32, live + 8);
    WordShl(buff, live, 8);
    WordOr(s, x, live + 8);
    WordSplit(x, live, 8);
    ShrSmall(x, 8);
    WordZero(live);
    assert OrBits(Word(buff, live) + Zeros(8), Zeros(live) + Word(x, 8)) == Word(buff, live) + Word(x, 8);
  }

  lemma ComesIn(input: seq<Byte>, next: nat, buff: nat, live: nat, pos: nat)
    requires Comes(input, next, buff, live, pos) && next < |input| && live + 8 <= 32
    ensures Comes(input, next + 1, Or(Shl32(buff, 8), input[next]), live + 8, pos)
  {
    hide Word, Or, Shl32, Pow2, BitsOf;
    ShiftIn(buff, input[next], live);
    var rest := input[next + 1..];
    assert input[next..] == [input[next]] + rest;
    BitsOfConcat([input[next]], rest);
    BitsOfMore([], input[next]);
    assert [] + [input[next]] == [input[next]];
    assert BitsOf([]) == [];
    assert [] + Word(input[next], 8) == Word(input[next], 8);
    assert Word(buff, live) + (Word(input[next], 8) + BitsOf(rest))
      == Word(buff, live) + Word(input[next], 8) + BitsOf(rest);
  }

  lemma ComesOut(input: seq<Byte>, next: nat, buff: nat, live: nat, pos: nat, n: nat)
    requires Comes(input, next, buff, live, pos) && n <= live
    ensures Comes(input, next, buff, live - n, pos + n) && pos + n <= |BitsOf(input)|
    ensures And(Shr(buff, live - n), Ones(n)) == Read(BitsOf(input), pos, n)
  {
    hide Word, Or, Pow2, BitsOf, And, Shr;
    WordSplit(buff, n, live - n);
    Masked(Shr(buff, live - n), n);
    var w, all := Word(Shr(buff, live - n), n), BitsOf(input);
    var rest := Word(buff, live - n) + BitsOf(input[next..]);
    assert all[pos..] == w + rest;
    assert all[pos..][..n] == all[pos..pos + n] && all[pos..][n..] == all[pos + n..];
  }

  lemma ComesEnd(input: seq<Byte>, buff: nat, live: nat, pos: nat)
    requires Comes(input, |input|, buff, live, pos)
    ensures pos + live == |BitsOf(input)|
  {
  }

  lemma ComesMore(input: seq<Byte>, next: nat, buff: nat, live: nat, pos: nat, more: seq<Byte>)
    requires Comes(input, next, buff, live, pos)
    ensures Comes(input + more, next, buff, live, pos)
  {
    hide Word, Pow2, BitsOf;
    BitsOfConcat(input, more);
    BitsOfConcat(input[next..], more);
    assert (input + more)[next..] == input[next..] + more;
    assert (BitsOf(input) + BitsOf(more))[pos..] == BitsOf(input)[pos..] + BitsOf(more);
  }

  // All the bytes of a list of chunks, and their lengths.
  function Flatten(chunks: seq<seq<Byte>>): seq<Byte> {
    if chunks == [] then [] else chunks[0] + Flatten(chunks[1..])
  }

  function ChunkLengths(chunks: seq<seq<Byte>>): (r: seq<nat>)
    ensures |r| == |chunks|
  {
    seq(|chunks|, i requires 0 <= i < |chunks| => |chunks[i]|)
  }

  lemma {:induction false} FlattenLength(chunks: seq<seq<Byte>>)
    ensures |Flatten(chunks)| == Total(ChunkLengths(chunks))
  {
    if chunks != [] {
      TotalFront(ChunkLengths(chunks));
      FlattenLength(chunks[1..]);
      assert ChunkLengths(chunks)[1..] == ChunkLengths(chunks[1..]);
    }
  }

  // The input arrives in chunks, one for each call of the decompressor. A call that has used up its
  // chunk returns, and the next one goes on where it stopped, with all variables saved.
  class Reader {
    var input: seq<Byte>
    var next: nat
    var avail: nat
    var later: seq<nat>
    var bsBuff: nat
    var bsLive: nat
    ghost var pos: nat

    ghost predicate Valid()
      reads this
    {
      Comes(input, next, bsBuff, bsLive, pos) && next + avail + Total(later) == |input|
    }

    // The bits of all chunks.
    ghost function Bits(): seq<BitValue>
      reads this`input
    {
      BitsOf(input)
    }

    constructor (chunks: seq<seq<Byte>>)
      ensures Valid() && pos == 0 && input == Flatten(chunks)
    {
      input, next, avail, later, bsBuff, bsLive, pos := Flatten(chunks), 0, 0, ChunkLengths(chunks), 0, 0, 0;
      FlattenLength(chunks);
      assert Flatten(chunks)[0..] == Flatten(chunks);
    }

    // One more chunk arrives: what was left in the buffer is not lost.
    method Feed(more: seq<Byte>)
      requires Valid()
      modifies this`input, this`later
      ensures Valid() && input == old(input) + more
    {
      hide Comes, Total;
      ComesMore(input, next, bsBuff, bsLive, pos, more);
      TotalMore(later, |more|);
      input := input + more;
      later := later + [|more|];
    }

    // NEED_BITS, one byte: the next byte joins the buffer. A call without input returns, and the next
    // one brings its chunk.
    method NextByte() returns (ok: bool)
      requires Valid() && bsLive + 8 <= 32
      modifies this`avail, this`later, this`next, this`bsBuff, this`bsLive
      ensures Valid() && (if ok then bsLive == old(bsLive) + 8 else bsLive == old(bsLive) && pos + bsLive == |Bits()|)
    {
      hide Comes, BitsOf, Or, Shl32, Total;
      ComesParts(input, next, bsBuff, bsLive, pos);
      while avail == 0
        invariant Valid() && bsLive == old(bsLive) && next == old(next)
        decreases |later|
      {
        if later == [] {
          NoneLater(later);
          ComesEnd(input, bsBuff, bsLive, pos);
          return false;
        }
        TotalFront(later);
        avail, later := later[0], later[1..];
      }
      ComesIn(input, next, bsBuff, bsLive, pos);
      bsBuff := Or(Shl32(bsBuff, 8), input[next]);
      bsLive := bsLive + 8;
      next := next + 1;
      avail := avail - 1;
      ok := true;
    }

    // GET_BITS: the next n bits, first bit most significant, if there are as many in all chunks.
    method GetBits(n: nat) returns (ok: bool, v: nat)
      requires Valid() && n <= 24
      modifies this`avail, this`later, this`next, this`bsBuff, this`bsLive, this`pos
      ensures Valid() && (ok <==> old(pos) + n <= |Bits()|)
      ensures ok ==> v == Read(Bits(), old(pos), n) && pos == old(pos) + n
      ensures !ok ==> pos == old(pos)
    {
      hide Comes, BitsOf, And, Shr, Read, Total;
      while true
        invariant Valid() && pos == old(pos)
        decreases n - bsLive
      {
        if bsLive >= n {
          ComesParts(input, next, bsBuff, bsLive, pos);
          ComesOut(input, next, bsBuff, bsLive, pos, n);
          v := And(Shr(bsBuff, bsLive - n), Ones(n));
          bsLive := bsLive - n;
          pos := pos + n;
          return true, v;
        }
        ok := NextByte();
        if !ok { return false, 0; }
      }
    }
  }

  lemma NoneLater(counts: seq<nat>)
    requires counts == []
    ensures Total(counts) == 0
  {
  }

  lemma ComesParts(input: seq<Byte>, next: nat, buff: nat, live: nat, pos: nat)
    requires Comes(input, next, buff, live, pos)
    ensures next <= |input| && live <= 32 && pos + live == 8 * next
  {
  }
}
