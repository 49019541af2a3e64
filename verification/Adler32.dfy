// Adler-32 (RFC 1950, section 8.2) as dep/zlib/adler32.c computes it: sums kept
// unreduced for up to NMAX bytes, one modulo per stretch, and a closed form
// for the checksum of a concatenation.
module Adler32 {
  import opened ByteType
  import Bits

  newtype u32 = x: int | 0 <= x < 0x1_0000_0000

  const BASE: nat := 65521
  const NMAX: nat := 5552

  datatype Sums = Sums(a: nat, b: nat)

  // ----- The definition of RFC 1950: both sums reduced after every byte -----

  function Reduce(s: Sums): Sums {
    Sums(s.a % BASE, s.b % BASE)
  }

  function Feed(s: Sums, data: seq<Byte>): Sums
    decreases |data|
  {
    if data == [] then Reduce(s)
    else
      var p := Feed(s, data[..|data| - 1]);
      var a := (p.a + data[|data| - 1]) % BASE;
      Sums(a, (p.b + a) % BASE)
  }

  // The word that carries the two sums.
  function Pack(s: Sums): nat {
    s.a + 0x10000 * s.b
  }

  function Unpack(w: nat): Sums {
    Sums(w % 0x10000, w / 0x10000 % 0x10000)
  }

  function Checksum(data: seq<Byte>): nat {
    Pack(Feed(Sums(1, 0), data))
  }

  // ----- Deferred reduction -----

  // The sums with no reduction at all.
  function Raw(s: Sums, data: seq<Byte>): Sums
    decreases |data|
  {
    if data == [] then s
    else
      var p := Raw(s, data[..|data| - 1]);
      var a := p.a + data[|data| - 1];
      Sums(a, p.b + a)
  }

  lemma ModAdd(x: nat, y: nat)
    ensures (x % BASE + y) % BASE == (x + y) % BASE
  {
    assert x == x / BASE * BASE + x % BASE;
  }

  // Reducing late gives the same residues as reducing after every byte.
  lemma {:induction false} RawReduces(s: Sums, data: seq<Byte>)
    ensures Feed(s, data) == Reduce(Raw(s, data))
    decreases |data|
  {
    if data != [] {
      RawReduces(s, data[..|data| - 1]);
      StepReduces(Raw(s, data[..|data| - 1]), data[|data| - 1]);
    }
  }

  // One byte, reduced before or after.
  lemma StepReduces(r: Sums, c: Byte)
    ensures (r.a % BASE + c) % BASE == (r.a + c) % BASE
    ensures (r.b % BASE + (r.a + c) % BASE) % BASE == (r.b + (r.a + c)) % BASE
  {
    ModAdd(r.a, c);
    ModAdd(r.b, (r.a + c) % BASE);
    ModAdd(r.a + c, r.b);
  }

  lemma {:induction false} RawAppend(s: Sums, x: seq<Byte>, y: seq<Byte>)
    ensures Raw(s, x + y) == Raw(Raw(s, x), y)
    decreases |y|
  {
    if y == [] {
      assert x + y == x;
    } else {
      var init := y[..|y| - 1];
      assert (x + y)[..|x + y| - 1] == x + init;
      RawAppend(s, x, init);
    }
  }

  lemma FeedReduced(s: Sums, data: seq<Byte>)
    ensures Feed(s, data).a < BASE && Feed(s, data).b < BASE
    ensures Reduce(Feed(s, data)) == Feed(s, data)
  {
  }

  lemma {:induction false} FeedAppend(s: Sums, x: seq<Byte>, y: seq<Byte>)
    ensures Feed(s, x + y) == Feed(Feed(s, x), y)
    decreases |y|
  {
    if y == [] {
      assert x + y == x;
      FeedReduced(s, x);
    } else {
      assert (x + y)[..|x + y| - 1] == x + y[..|y| - 1];
      FeedAppend(s, x, y[..|y| - 1]);
    }
  }

  lemma {:induction false} RawBound(s: Sums, data: seq<Byte>)
    ensures s.a <= Raw(s, data).a <= s.a + 255 * |data|
    ensures s.b <= Raw(s, data).b
    ensures 2 * Raw(s, data).b <= 2 * (s.b + |data| * s.a) + 255 * (|data| * (|data| + 1))
    decreases |data|
  {
    if data != [] {
      RawBound(s, data[..|data| - 1]);
      var n := |data| - 1;
      assert (n + 1) * s.a == n * s.a + s.a;
      assert (n + 1) * (n + 2) == n * (n + 1) + 2 * (n + 1);
    }
  }

  lemma TriangleBound(n: nat, a: nat)
    requires n <= NMAX && a < 0x10000
    ensures n * a <= NMAX * 0xffff
    ensures n * (n + 1) <= NMAX * (NMAX + 1)
  {
    MulMono(n, NMAX, a, 0xffff);
    MulMono(n, NMAX, n + 1, NMAX + 1);
  }

  lemma MulMono(a: nat, b: nat, c: nat, d: nat)
    requires a <= b && c <= d
    ensures a * c <= b * d
  {
    assert a * c <= b * c;
    assert b * c <= b * d;
  }

  // No 32-bit overflow in a stretch of at most NMAX bytes, even when the caller
  // hands in 16-bit halves that are not reduced.
  lemma NoOverflow(s: Sums, data: seq<Byte>)
    requires s.a < 0x10000 && s.b < 0x10000 && |data| <= NMAX
    ensures Raw(s, data).a < 0x1_0000_0000 && Raw(s, data).b < 0x1_0000_0000
  {
    RawBound(s, data);
    TriangleBound(|data|, s.a);
    ghost var na, tri := |data| * s.a, |data| * (|data| + 1);
    assert 2 * Raw(s, data).b <= 2 * (s.b + na) + 255 * tri;
  }

  function Ones(n: nat): (s: seq<Byte>)
    ensures |s| == n
  {
    if n == 0 then [] else Ones(n - 1) + [255]
  }

  // n bytes of 255 after the largest reduced sums.
  lemma {:induction false} WorstCase(n: nat)
    ensures Raw(Sums(BASE - 1, BASE - 1), Ones(n)).a == BASE - 1 + 255 * n
    ensures 2 * Raw(Sums(BASE - 1, BASE - 1), Ones(n)).b == 2 * ((n + 1) * (BASE - 1)) + 255 * Oblong(n)
  {
    hide Raw, Ones, Oblong;
    WorstStep(n);
    OblongStep(n);
    if n > 0 { WorstCase(n - 1); }
  }

  function Oblong(n: nat): nat {
    n * (n + 1)
  }

  lemma OblongStep(n: nat)
    ensures Oblong(0) == 0 && (n > 0 ==> Oblong(n) == Oblong(n - 1) + 2 * n)
    ensures n > NMAX ==> Oblong(n) >= 5553 * 5554
  {
    if n > NMAX { MulMono(5553, n, 5554, n + 1); }
  }

  lemma WorstStep(n: nat)
    ensures var w := Sums(BASE - 1, BASE - 1);
      if n == 0 then Raw(w, Ones(0)) == w
      else var r := Raw(w, Ones(n - 1)); Raw(w, Ones(n)) == Sums(r.a + 255, r.b + (r.a + 255))
  {
    if n > 0 { assert Ones(n)[..n - 1] == Ones(n - 1); }
  }

  // No reduced sums and no n bytes overflow.
  ghost predicate Safe(n: nat) {
    forall s: Sums, data: seq<Byte> :: s.a < BASE && s.b < BASE && |data| == n ==> Raw(s, data).b < 0x1_0000_0000
  }

  // NMAX is the largest safe stretch: one more byte of 0xff overflows.
  lemma NmaxIsLargest(n: nat)
    ensures n <= NMAX <==> Safe(n)
  {
    hide Raw, Ones, Oblong;
    if n <= NMAX {
      forall s: Sums, data: seq<Byte> | s.a < BASE && s.b < BASE && |data| == n
        ensures Raw(s, data).b < 0x1_0000_0000
      {
        NoOverflow(s, data);
      }
    } else {
      WorstCase(n);
      OblongStep(n);
      var w, data := Sums(BASE - 1, BASE - 1), Ones(n);
      assert Raw(w, data).b >= 0x1_0000_0000 && |data| == n;
    }
  }

  // ----- The unrolled accumulation macros -----

  method Do1(adler: u32, sum2: u32, buf: array<Byte>, i: nat) returns (a: u32, b: u32)
    requires i < buf.Length
    requires adler as int + buf[i] < 0x1_0000_0000
    requires adler as int + buf[i] + sum2 as int < 0x1_0000_0000
    ensures Sums(a as int, b as int) == Raw(Sums(adler as int, sum2 as int), buf[i..i + 1])
  {
    a := adler + buf[i] as u32;
    b := sum2 + a;
    assert buf[i..i + 1][..0] == [];
  }

  ghost predicate Fits(adler: u32, sum2: u32, data: seq<Byte>) {
    var r := Raw(Sums(adler as int, sum2 as int), data);
    r.a < 0x1_0000_0000 && r.b < 0x1_0000_0000
  }

  lemma FitsPrefix(adler: u32, sum2: u32, buf: seq<Byte>, i: nat, j: nat, k: nat)
    requires i <= j <= k <= |buf|
    requires Fits(adler, sum2, buf[i..k])
    ensures Fits(adler, sum2, buf[i..j])
    ensures Raw(Sums(adler as int, sum2 as int), buf[i..k])
         == Raw(Raw(Sums(adler as int, sum2 as int), buf[i..j]), buf[j..k])
  {
    var s := Sums(adler as int, sum2 as int);
    assert buf[i..k] == buf[i..j] + buf[j..k];
    RawAppend(s, buf[i..j], buf[j..k]);
    RawBound(Raw(s, buf[i..j]), buf[j..k]);
  }

  method Do2(adler: u32, sum2: u32, buf: array<Byte>, i: nat) returns (a: u32, b: u32)
    requires i + 2 <= buf.Length && Fits(adler, sum2, buf[i..i + 2])
    ensures Sums(a as int, b as int) == Raw(Sums(adler as int, sum2 as int), buf[i..i + 2])
  {
    FitsPrefix(adler, sum2, buf[..], i, i + 1, i + 2);
    assert buf[..][i..i + 1] == buf[i..i + 1] && buf[..][i + 1..i + 2] == buf[i + 1..i + 2];
    assert buf[..][i..i + 2] == buf[i..i + 2];
    assert buf[i..i + 1] == [buf[i]] && buf[i + 1..i + 2] == [buf[i + 1]];
    a, b := Do1(adler, sum2, buf, i);
    a, b := Do1(a, b, buf, i + 1);
  }

  method Do4(adler: u32, sum2: u32, buf: array<Byte>, i: nat) returns (a: u32, b: u32)
    requires i + 4 <= buf.Length && Fits(adler, sum2, buf[i..i + 4])
    ensures Sums(a as int, b as int) == Raw(Sums(adler as int, sum2 as int), buf[i..i + 4])
  {
    FitsPrefix(adler, sum2, buf[..], i, i + 2, i + 4);
    assert buf[..][i..i + 2] == buf[i..i + 2] && buf[..][i + 2..i + 4] == buf[i + 2..i + 4];
    assert buf[..][i..i + 4] == buf[i..i + 4];
    a, b := Do2(adler, sum2, buf, i);
    a, b := Do2(a, b, buf, i + 2);
  }

  method Do8(adler: u32, sum2: u32, buf: array<Byte>, i: nat) returns (a: u32, b: u32)
    requires i + 8 <= buf.Length && Fits(adler, sum2, buf[i..i + 8])
    ensures Sums(a as int, b as int) == Raw(Sums(adler as int, sum2 as int), buf[i..i + 8])
  {
    FitsPrefix(adler, sum2, buf[..], i, i + 4, i + 8);
    assert buf[..][i..i + 4] == buf[i..i + 4] && buf[..][i + 4..i + 8] == buf[i + 4..i + 8];
    assert buf[..][i..i + 8] == buf[i..i + 8];
    a, b := Do4(adler, sum2, buf, i);
    a, b := Do4(a, b, buf, i + 4);
  }

  method Do16(adler: u32, sum2: u32, buf: array<Byte>, i: nat) returns (a: u32, b: u32)
    requires i + 16 <= buf.Length && Fits(adler, sum2, buf[i..i + 16])
    ensures Sums(a as int, b as int) == Raw(Sums(adler as int, sum2 as int), buf[i..i + 16])
  {
    FitsPrefix(adler, sum2, buf[..], i, i + 8, i + 16);
    assert buf[..][i..i + 8] == buf[i..i + 8] && buf[..][i + 8..i + 16] == buf[i + 8..i + 16];
    assert buf[..][i..i + 16] == buf[i..i + 16];
    a, b := Do8(adler, sum2, buf, i);
    a, b := Do8(a, b, buf, i + 8);
  }

  // One byte more, and sixteen more, within a stretch.
  lemma StretchByte(t: Sums, buf: seq<Byte>, i: nat, j: nat)
    requires t.a < 0x10000 && t.b < 0x10000 && i <= j < |buf| && j + 1 - i <= NMAX
    ensures var r, q := Raw(t, buf[i..j]), Raw(t, buf[i..j + 1]);
      q == Sums(r.a + buf[j], r.b + (r.a + buf[j])) && q.a < 0x1_0000_0000 && q.b < 0x1_0000_0000
  {
    NoOverflow(t, buf[i..j + 1]);
    assert buf[i..j + 1][..|buf[i..j + 1]| - 1] == buf[i..j];
  }

  lemma StretchBytes(t: Sums, buf: seq<Byte>, i: nat, j: nat)
    requires t.a < 0x10000 && t.b < 0x10000 && i <= j && j + 16 <= |buf| && j + 16 - i <= NMAX
    ensures var r, q := Raw(t, buf[i..j]), Raw(t, buf[i..j + 16]);
      q == Raw(r, buf[j..j + 16]) && q.a < 0x1_0000_0000 && q.b < 0x1_0000_0000
  {
    NoOverflow(t, buf[i..j + 16]);
    assert buf[i..j + 16] == buf[i..j] + buf[j..j + 16];
    RawAppend(t, buf[i..j], buf[j..j + 16]);
  }

  lemma StretchStart(t: Sums, buf: seq<Byte>, i: nat)
    requires i <= |buf|
    ensures Raw(t, buf[i..i]) == t
  {
  }

  lemma SliceIs(all: seq<Byte>, whole: array<Byte>, i: nat, j: nat)
    requires i <= j <= whole.Length && all == whole[..]
    ensures all[i..j] == whole[i..j]
  {
  }

  // ----- The checksum of a buffer -----

  // The bytes left after the full stretches, sixteen at a time and then one by one.
  method Stretch(adler: u32, sum2: u32, buf: array<Byte>, i: nat, end: nat) returns (a: u32, b: u32)
    requires adler < 0x10000 && sum2 < 0x10000
    requires i <= end <= buf.Length && end - i < NMAX
    ensures Sums(a as int, b as int) == Raw(Sums(adler as int, sum2 as int), buf[i..end])
  {
    hide Raw;
    ghost var t, all := Sums(adler as int, sum2 as int), buf[..];
    a, b := adler, sum2;
    var j := i;
    StretchStart(t, all, i);
    while end - j >= 16
      invariant i <= j <= end
      invariant Sums(a as int, b as int) == Raw(t, all[i..j])
    {
      StretchBytes(t, all, i, j);
      SliceIs(all, buf, j, j + 16);
      a, b := Do16(a, b, buf, j);
      j := j + 16;
    }
    while j < end
      invariant i <= j <= end
      invariant Sums(a as int, b as int) == Raw(t, all[i..j])
    {
      StretchByte(t, all, i, j);
      a := a + buf[j] as u32;
      b := b + a;
      j := j + 1;
    }
    SliceIs(all, buf, i, end);
  }

  // The shortcut for a single byte: one conditional subtraction for each sum.
  method OneByte(adler: u32, sum2: u32, c: Byte) returns (a: u32, b: u32)
    requires adler < 0x10000 && sum2 < 0x10000
    ensures a as int == (adler as int + c) % BASE
    ensures b < 0x10000 && b as int % BASE == (sum2 as int + a as int) % BASE
    ensures b as int < BASE <==> sum2 as int + a as int < 2 * BASE
  {
    a := adler + c as u32;
    if a >= BASE as u32 { a := a - BASE as u32; }
    b := sum2 + a;
    if b >= BASE as u32 { b := b - BASE as u32; }
  }

  lemma {:induction false} ShortSum(s: Sums, data: seq<Byte>)
    ensures Raw(s, data).a <= s.a + 255 * |data|
    decreases |data|
  {
    if data != [] { ShortSum(s, data[..|data| - 1]); }
  }

  // Fewer than 16 bytes: the first sum stays below two BASEs.
  method ShortBuffer(adler: u32, sum2: u32, buf: array<Byte>, len: nat) returns (a: u32, b: u32)
    requires adler < 0x10000 && sum2 < 0x10000
    requires len <= buf.Length && len < 16
    ensures Sums(a as int, b as int) == Feed(Sums(adler as int, sum2 as int), buf[..len])
  {
    hide Raw, Feed;
    ghost var s, all := Sums(adler as int, sum2 as int), buf[..];
    a, b := adler, sum2;
    var n := 0;
    StretchStart(s, all, 0);
    while n < len
      invariant n <= len
      invariant Sums(a as int, b as int) == Raw(s, all[0..n])
    {
      StretchByte(s, all, 0, n);
      a := a + buf[n] as u32;
      b := b + a;
      n := n + 1;
    }
    SliceIs(all, buf, 0, len);
    assert buf[0..len] == buf[..len];
    ShortSum(s, buf[..len]);
    RawReduces(s, buf[..len]);
    if a >= BASE as u32 { a := a - BASE as u32; }
    b := b % BASE as u32;
  }

  // One full stretch of NMAX bytes, sixteen at a time, then one reduction of each sum.
  method FullStretch(adler: u32, sum2: u32, buf: array<Byte>, i: nat) returns (a: u32, b: u32)
    requires adler < 0x10000 && sum2 < 0x10000
    requires i + NMAX <= buf.Length
    ensures Sums(a as int, b as int)
         == Reduce(Raw(Sums(adler as int, sum2 as int), buf[i..i + NMAX]))
  {
    hide Raw;
    ghost var t, all := Sums(adler as int, sum2 as int), buf[..];
    a, b := adler, sum2;
    var n := NMAX / 16;
    var j := i;
    StretchStart(t, all, i);
    while n > 0
      invariant 0 <= n <= NMAX / 16 && j == i + NMAX - 16 * n
      invariant Sums(a as int, b as int) == Raw(t, all[i..j])
    {
      StretchBytes(t, all, i, j);
      SliceIs(all, buf, j, j + 16);
      a, b := Do16(a, b, buf, j);
      j := j + 16;
      n := n - 1;
    }
    SliceIs(all, buf, i, i + NMAX);
    a := a % BASE as u32;
    b := b % BASE as u32;
  }

  // The sums after i bytes: as given if there were none, else fully reduced.
  ghost predicate SoFar(s: Sums, t: Sums, data: seq<Byte>) {
    t.a < 0x10000 && t.b < 0x10000 && Reduce(t) == Feed(s, data) && (data != [] ==> t == Feed(s, data))
  }

  lemma SoFarNext(s: Sums, t: Sums, buf: seq<Byte>, i: nat, j: nat)
    requires i < j <= |buf| && SoFar(s, t, buf[..i])
    ensures SoFar(s, Reduce(Raw(t, buf[i..j])), buf[..j])
  {
    hide Raw, Feed;
    assert buf[..j] == buf[..i] + buf[i..j];
    Join(s, t, buf[..i], buf[i..j]);
    FeedReduced(s, buf[..j]);
  }

  lemma SoFarEnds(s: Sums, t: Sums, data: seq<Byte>)
    ensures data == [] && s.a < 0x10000 && s.b < 0x10000 ==> SoFar(s, s, data)
    ensures SoFar(s, t, data) ==> t.a < 0x10000 && t.b < 0x10000 && (data != [] ==> t == Feed(s, data))
  {
  }

  // Sixteen bytes or more: full stretches, then the rest with one more reduction.
  method LongBuffer(adler: u32, sum2: u32, buf: array<Byte>, len: nat) returns (a: u32, b: u32)
    requires adler < 0x10000 && sum2 < 0x10000
    requires 16 <= len <= buf.Length
    ensures Sums(a as int, b as int) == Feed(Sums(adler as int, sum2 as int), buf[..len])
  {
    hide Raw, Feed, SoFar;
    ghost var s, all := Sums(adler as int, sum2 as int), buf[..];
    a, b := adler, sum2;
    var i := 0;
    SoFarEnds(s, s, all[..0]);
    while len - i >= NMAX
      invariant i <= len && SoFar(s, Sums(a as int, b as int), all[..i])
    {
      ghost var t := Sums(a as int, b as int);
      SoFarEnds(s, t, all[..i]);
      SoFarNext(s, t, all, i, i + NMAX);
      SliceIs(all, buf, i, i + NMAX);
      a, b := FullStretch(a, b, buf, i);
      i := i + NMAX;
    }
    SoFarEnds(s, Sums(a as int, b as int), all[..i]);
    if i < len {
      ghost var t := Sums(a as int, b as int);
      SoFarNext(s, t, all, i, len);
      SliceIs(all, buf, i, len);
      a, b := Stretch(a, b, buf, i, len);
      a := a % BASE as u32;
      b := b % BASE as u32;
    }
    SoFarEnds(s, Sums(a as int, b as int), all[..len]);
    SliceIs(all, buf, 0, len);
    assert all[..len] == buf[..len];
  }

  method Split(w: u32) returns (lo: u32, hi: u32)
    ensures lo < 0x10000 && hi < 0x10000 && Unpack(w as int) == Sums(lo as int, hi as int)
  {
    lo := w % 0x10000;
    hi := w / 0x10000 % 0x10000;
  }

  method Recombine(lo: u32, hi: u32) returns (w: u32)
    requires lo < 0x10000 && hi < 0x10000
    ensures w as int == Pack(Sums(lo as int, hi as int))
    ensures Unpack(w as int) == Sums(lo as int, hi as int)
  {
    w := lo + 0x10000 * hi;
    PackUnpack(Sums(lo as int, hi as int));
  }

  // The one input on which adler32_z leaves the second sum unreduced: a single
  // byte, and a starting second sum that was not reduced itself.
  ghost predicate LeftUnreduced(s: Sums, data: seq<Byte>) {
    |data| == 1 && s.b + (s.a + data[0]) % BASE >= 2 * BASE
  }

  // Such an input: both sums of the result are right modulo BASE, but the second is 65534.
  lemma UnreducedExample()
    ensures var s, data := Unpack(65535 * 65536 + 65520), [0];
      s == Sums(65520, 65535) && LeftUnreduced(s, data)
      && Feed(s, data) == Reduce(Sums(65520, 65534)) == Sums(65520, 13)
      && Pack(Sums(65520, 65534)) != Pack(Feed(s, data))
  {
    var s: Sums := Sums(65520, 65535);
    FeedOne(s, [0], Sums(65520, 65534));
  }

  method Adler32Z(adler: u32, buf: array?<Byte>, len: nat) returns (r: u32)
    requires buf != null ==> len <= buf.Length
    requires len == 1 ==> buf != null
    ensures buf == null ==> r == 1
    // Both sums are always right modulo BASE ...
    ensures buf != null ==>
      Reduce(Unpack(r as int)) == Feed(Unpack(adler as int), buf[..len])
    // ... and fully reduced with one exception.
    ensures buf != null ==>
      (r as int == Pack(Feed(Unpack(adler as int), buf[..len])) <==>
       !LeftUnreduced(Unpack(adler as int), buf[..len]))
  {
    hide Pack, Unpack, Reduce, Feed;
    var a, b := Split(adler);
    ghost var s := Sums(a as int, b as int);
    if len == 1 {
      a, b := OneByte(a, b, buf[0]);
      r := Recombine(a, b);
      FeedOne(s, buf[..1], Sums(a as int, b as int));
      UnreducedExactly(Sums(a as int, b as int), Feed(s, buf[..1]));
    } else if buf == null {
      return 1;
    } else {
      if len < 16 {
        a, b := ShortBuffer(a, b, buf, len);
      } else {
        a, b := LongBuffer(a, b, buf, len);
      }
      FeedReduced(s, buf[..len]);
      r := Recombine(a, b);
    }
  }

  lemma UnreducedExactly(t: Sums, f: Sums)
    requires t.a < 0x10000 && t.b < 0x10000
    requires f == Reduce(t)
    ensures Pack(t) == Pack(f) <==> t.a < BASE && t.b < BASE
  {
    PackUnpack(t);
    PackUnpack(f);
  }

  lemma FeedOne(s: Sums, data: seq<Byte>, t: Sums)
    requires |data| == 1
    requires t.a == (s.a + data[0]) % BASE && t.b % BASE == (s.b + t.a) % BASE
    ensures Feed(s, data) == Reduce(t)
  {
    assert data[..0] == [];
    ModAdd(s.a, data[0]);
    ModAdd(s.b, t.a);
  }

  lemma PackUnpack(s: Sums)
    requires s.a < 0x10000 && s.b < 0x10000
    ensures Unpack(Pack(s)) == s && Pack(s) < 0x1_0000_0000
  {
  }

  lemma Join(s: Sums, t: Sums, x: seq<Byte>, y: seq<Byte>)
    requires Reduce(t) == Feed(s, x)
    ensures Reduce(Raw(t, y)) == Feed(s, x + y)
  {
    FeedAppend(s, x, y);
    RawReduces(t, y);
    FeedOfReduced(t, y);
  }

  lemma {:induction false} FeedOfReduced(t: Sums, y: seq<Byte>)
    ensures Feed(Reduce(t), y) == Feed(t, y)
    decreases |y|
  {
    if y != [] { FeedOfReduced(t, y[..|y| - 1]); }
  }

  // ----- Division-free reduction (the NO_DIVIDE build) -----

  // 65536 is 15 modulo BASE and 2^32 is 225.
  function Chop(a: nat): nat {
    a % 0x10000 + (a / 0x10000 * 16 - a / 0x10000)
  }

  function Mod28(a: nat): nat {
    var c := Chop(a);
    if c >= BASE then c - BASE else c
  }

  function Mod(a: nat): nat {
    Mod28(Chop(a))
  }

  function Mod63(a: nat): nat {
    var t := a / 0x1_0000_0000;
    var x := a % 0x1_0000_0000 + (t * 256 - t * 32 + t);
    Mod28(Chop(x))
  }

  lemma ChopCongruent(a: nat)
    ensures Chop(a) % BASE == a % BASE
    ensures Chop(a) <= a
  {
    var q := a / 0x10000;
    assert a == Chop(a) + q * BASE;
    ModMultiple(Chop(a), q);
  }

  lemma {:induction false} ModMultiple(a: nat, q: nat)
    ensures (a + q * BASE) % BASE == a % BASE
  {
    if q > 0 {
      ModMultiple(a, q - 1);
      assert a + q * BASE == a + (q - 1) * BASE + BASE;
    }
  }

  lemma Fold63(a: nat)
    ensures var t := a / 0x1_0000_0000;
      (a % 0x1_0000_0000 + (t * 256 - t * 32 + t)) % BASE == a % BASE
  {
    var t := a / 0x1_0000_0000;
    var x := a % 0x1_0000_0000 + (t * 256 - t * 32 + t);
    assert a == x + t * 65551 * BASE;
    ModMultiple(x, t * 65551);
  }

  lemma DivisionFree28(a: nat)
    requires a < 0x1000_0000
    ensures Mod28(a) == a % BASE
  {
    ChopCongruent(a);
  }

  // The shift-and-add macros are exactly reduction modulo BASE on their ranges.
  lemma DivisionFree(a: nat)
    ensures a < 0x1000_0000 ==> Mod28(a) == a % BASE
    ensures a < 0x1_0000_0000 ==> Mod(a) == a % BASE
    ensures a < 0x8000_0000_0000_0000 ==> Mod63(a) == a % BASE
  {
    if a < 0x1000_0000 { DivisionFree28(a); }
    if a < 0x1_0000_0000 {
      ChopCongruent(a);
      DivisionFree28(Chop(a));
    }
    if a < 0x8000_0000_0000_0000 {
      Fold63(a);
      var t := a / 0x1_0000_0000;
      var x := a % 0x1_0000_0000 + (t * 256 - t * 32 + t);
      ChopCongruent(x);
      DivisionFree28(Chop(x));
    }
  }

  // ----- Combining checksums -----

  // The closed form of the sums of y started from s.
  lemma {:induction false} RawFrom(s: Sums, y: seq<Byte>)
    ensures Raw(s, y).a == Raw(Sums(1, 0), y).a + s.a - 1
    ensures Raw(s, y).b == Raw(Sums(1, 0), y).b + s.b + |y| * s.a - |y|
    decreases |y|
  {
    if y != [] {
      RawFrom(s, y[..|y| - 1]);
      var n := |y| - 1;
      assert (n + 1) * s.a == n * s.a + s.a;
    }
  }

  // The conditional subtractions of adler32_combine_: one of two BASEs at most for the first
  // sum, of three for the second.
  method Fold(sum1: u32, sum2: u32) returns (a: u32, b: u32)
    requires sum1 as int <= 0x30000 && sum2 as int <= 0x40000
    ensures a as int == (if sum1 as int < 3 * BASE then sum1 as int % BASE else sum1 as int - 2 * BASE)
    ensures b as int == (if sum2 as int < 4 * BASE then sum2 as int % BASE else sum2 as int - 3 * BASE)
  {
    a, b := sum1, sum2;
    if a >= BASE as u32 { a := a - BASE as u32; }
    if a >= BASE as u32 { a := a - BASE as u32; }
    if b >= 2 * BASE as u32 { b := b - 2 * BASE as u32; }
    if b >= BASE as u32 { b := b - BASE as u32; }
  }

  // Where the subtractions reach: always for sums below BASE, not quite for all 16-bit halves.
  predicate FoldReaches(p: Sums, q: Sums, rem: nat) {
    p.a + q.a <= 2 * BASE && Scaled(rem, p.a) + p.b + q.b < 3 * BASE + rem
  }

  lemma ReducedFolds(p: Sums, q: Sums, rem: nat)
    requires p.a < BASE && p.b < BASE && q.a < BASE && q.b < BASE
    ensures FoldReaches(p, q, rem)
  {
  }

  // Two words out of reach: of the first sum one base too much is left.
  lemma BeyondExample()
    ensures var p := Unpack(65535 * 65536 + 65535);
      !FoldReaches(p, p, 0) && Combined(p, p, 0) == Sums(27, 28)
  {
  }

  // The result is a uLong; unless both sums are reduced it may take more than 32 bits.
  method Combine(adler1: u32, adler2: u32, len2: int) returns (r: nat)
    requires len2 < 0x8000_0000_0000_0000
    ensures len2 < 0 ==> r == 0xffff_ffff
    ensures len2 >= 0 ==>
      (r == Pack(Combined(Unpack(adler1 as int), Unpack(adler2 as int), len2 % BASE)) <==>
       FoldReaches(Unpack(adler1 as int), Unpack(adler2 as int), len2 % BASE))
  {
    hide Pack, Combined, FoldReaches, Bits.Or;
    if len2 < 0 { return 0xffff_ffff; }
    var rem: u32 := (len2 % BASE) as u32;
    ghost var p, q := Unpack(adler1 as int), Unpack(adler2 as int);
    var sum1, sum2 := PrepareSums(adler1, adler2, rem);
    CombinedAs(p, q, rem as int, sum1 as int, sum2 as int);
    ghost var x, y := sum1 as int, sum2 as int;
    sum1, sum2 := Fold(sum1, sum2);
    r := Bits.Or(sum1 as int, sum2 as int * 0x10000);
    FoldedPack(x, y, sum1 as int, sum2 as int);
  }

  // The two sums before the subtractions.
  method PrepareSums(adler1: u32, adler2: u32, rem: u32) returns (sum1: u32, sum2: u32)
    requires rem < BASE as u32
    ensures var p, q := Unpack(adler1 as int), Unpack(adler2 as int);
      sum1 as int == p.a + (q.a + BASE - 1)
      && sum2 as int == Scaled(rem as int, p.a) + (p.b + q.b + BASE - rem as int)
  {
    hide Scaled;
    sum1 := adler1 % 0x10000;
    MulMono(rem as int, BASE - 1, sum1 as int, 0xffff);
    ScaledIs(rem as int, sum1 as int);
    sum2 := rem * sum1;
    sum2 := sum2 % BASE as u32;
    sum1 := sum1 + (adler2 % 0x10000 + BASE as u32 - 1);
    sum2 := sum2 + (adler1 / 0x10000 % 0x10000 + adler2 / 0x10000 % 0x10000 + BASE as u32 - rem);
  }

  function Scaled(rem: nat, a: nat): (r: nat)
    ensures r < BASE
  {
    rem * a % BASE
  }

  lemma ScaledIs(rem: nat, a: nat)
    ensures Scaled(rem, a) == rem * a % BASE
  {
  }

  lemma CombinedAs(p: Sums, q: Sums, rem: nat, x: nat, y: nat)
    requires rem < BASE && p.a < 0x10000 && p.b < 0x10000 && q.a < 0x10000 && q.b < 0x10000
    requires x == p.a + (q.a + BASE - 1) && y == Scaled(rem, p.a) + (p.b + q.b + BASE - rem)
    ensures x <= 0x30000 && y <= 0x40000 && Combined(p, q, rem) == Sums(x % BASE, y % BASE)
    ensures FoldReaches(p, q, rem) <==> x < 3 * BASE && y < 4 * BASE
  {
    hide Scaled;
  }

  // Two sums or-ed together are the packed residues only if both are reduced.
  lemma FoldedPack(x: nat, y: nat, a: nat, b: nat)
    requires x <= 0x30000 && y <= 0x40000
    requires a == if x < 3 * BASE then x % BASE else x - 2 * BASE
    requires b == if y < 4 * BASE then y % BASE else y - 3 * BASE
    ensures Bits.Or(a, b * 0x10000) == Pack(Sums(x % BASE, y % BASE)) <==> x < 3 * BASE && y < 4 * BASE
  {
    hide Bits.Or, Bits.Rem, Bits.Pow2;
    Power16();
    if x < 3 * BASE {
      Bits.OrHalf(a, b, 16);
      if y >= 4 * BASE { ModUniqueBase(y, 4); }
    } else {
      ModUniqueBase(x, 3);
      Bits.OrLow(a, b, 16);
      LowHalf(a);
      PackLow(x % BASE, y % BASE);
    }
  }

  lemma Power16()
    ensures Bits.Pow2(16) == 0x10000
  {
    Bits.Pow2Add(8, 8);
    assert Bits.Pow2(8) == 256;
  }

  lemma ModUniqueBase(x: nat, k: nat)
    requires k * BASE <= x < (k + 1) * BASE
    ensures x % BASE == x - k * BASE
  {
    Bits.ModUnique(x, k, x - k * BASE, BASE);
  }

  lemma LowHalf(a: nat)
    requires a < 0x20000
    ensures Bits.Rem(a, 0x10000) == if a < 0x10000 then a else a - 0x10000
  {
  }

  lemma PackLow(a: nat, b: nat)
    requires a < 0x10000
    ensures Bits.Rem(Pack(Sums(a, b)), 0x10000) == a
  {
  }

  // The residues the combination formula reduces to, for rem == |y| % BASE.
  function Combined(p: Sums, q: Sums, rem: nat): Sums
    requires rem < BASE
  {
    Sums((p.a + (q.a + BASE - 1)) % BASE,
         (Scaled(rem, p.a) + (p.b + q.b + BASE - rem)) % BASE)
  }

  // Combining two checksums gives the checksum of the concatenation.
  lemma CombineIsConcat(x: seq<Byte>, y: seq<Byte>)
    ensures Pack(Combined(Unpack(Checksum(x)), Unpack(Checksum(y)), |y| % BASE)) == Checksum(x + y)
  {
    CombineSums(x, y);
    FeedReduced(Sums(1, 0), x);
    FeedReduced(Sums(1, 0), y);
    PackUnpack(Feed(Sums(1, 0), x));
    PackUnpack(Feed(Sums(1, 0), y));
  }

  lemma ModShift(u: nat, v: nat, k: nat, l: nat)
    requires u + k * BASE == v + l * BASE
    ensures u % BASE == v % BASE
  {
    ModMultiple(u, k);
    ModMultiple(v, l);
  }

  lemma SplitLength(n: nat, a: nat)
    ensures n * a == (n / BASE * a) * BASE + n % BASE * a
  {
    var k, rem := n / BASE, n % BASE;
    assert n == k * BASE + rem;
    assert (k * BASE + rem) * a == k * BASE * a + rem * a;
    assert k * BASE * a == k * a * BASE;
  }

  lemma CombineSums(x: seq<Byte>, y: seq<Byte>)
    ensures Feed(Sums(1, 0), x + y)
         == Combined(Feed(Sums(1, 0), x), Feed(Sums(1, 0), y), |y| % BASE)
  {
    hide Feed, Raw;
    var one := Sums(1, 0);
    var p := Feed(one, x);
    FeedAppend(one, x, y);
    RawReduces(p, y);
    RawReduces(one, y);
    RawFrom(p, y);
    var v, w := Raw(one, y), Raw(p, y);
    RawBound(one, y);
    FeedReduced(one, x);
    FirstSum(p.a, v.a, w.a);
    SecondSum(|y|, p.a, p.b, v.b, w.b);
  }

  lemma FirstSum(pa: nat, va: nat, wa: nat)
    requires wa == va + pa - 1
    ensures wa % BASE == (pa + (va % BASE + BASE - 1)) % BASE
  {
    ModAdd(va, pa + BASE - 1);
    ModShift(wa, va + (pa + BASE - 1), 1, 0);
  }

  lemma SecondSum(n: nat, pa: nat, pb: nat, vb: nat, wb: nat)
    requires wb == vb + pb + n * pa - n
    ensures wb % BASE == (n % BASE * pa % BASE + (pb + vb % BASE + BASE - n % BASE)) % BASE
  {
    var rem, k := n % BASE, n / BASE;
    var m := rem * pa;
    SplitLength(n, pa);
    var target := m + (pb + vb + BASE - rem);
    ModShift(wb, target, k + 1, k * pa);
    ModAdd(m, pb + vb + BASE - rem);
    ModAdd(vb, m % BASE + pb + BASE - rem);
  }
}
