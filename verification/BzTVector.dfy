// The two memory layouts of the inverse Burrows-Wheeler vector: 32-bit words with the
// byte in the low eight bits, or 20-bit links packed in ll16 and ll4 with the
// byte recovered by searching the cumulative table.
module BzTVector {
  import opened ByteType
  import Bits
  import opened BzInverseBwt

  // ----- The cumulative frequency table -----

  function Sum(f: seq<int>, c: nat): int
    requires c <= |f|
  {
    if c == 0 then 0 else Sum(f, c - 1) + f[c - 1]
  }

  lemma {:induction false} SumBounds(f: seq<int>, c: nat, d: nat)
    requires c <= d <= |f| && forall i :: 0 <= i < |f| ==> f[i] >= 0
    ensures 0 <= Sum(f, c) <= Sum(f, d)
    decreases d
  {
    if c < d { SumBounds(f, c, d - 1); }
    else if c > 0 { SumBounds(f, c - 1, d - 1); }
  }

  ghost predicate Tally(f: seq<int>, l: seq<Byte>) {
    |f| == 256 && forall c :: 0 <= c < 256 ==> f[c] == Count(l, c)
  }

  lemma {:induction false} SumIsSmaller(f: seq<int>, l: seq<Byte>, c: nat)
    requires Tally(f, l) && c <= 256
    ensures Sum(f, c) == Smaller(l, c)
  {
    if c == 0 { SmallerEnds(l); }
    else {
      SumIsSmaller(f, l, c - 1);
      SmallerNext(l, c - 1);
    }
  }

  method CheckRange(a: array<int>, n: nat, nblock: nat) returns (ok: bool)
    requires n <= a.Length
    ensures ok <==> forall c :: 0 <= c < n ==> 0 <= a[c] <= nblock
  {
    for i := 0 to n
      invariant forall c :: 0 <= c < i ==> 0 <= a[c] <= nblock
    {
      if a[i] < 0 || a[i] > nblock { return false; }
    }
    ok := true;
  }

  method CheckAscending(a: array<int>, n: nat) returns (ok: bool)
    requires 1 <= n <= a.Length
    ensures ok <==> forall c :: 1 <= c < n ==> a[c - 1] <= a[c]
  {
    for i := 1 to n
      invariant forall c :: 1 <= c < i ==> a[c - 1] <= a[c]
    {
      if a[i - 1] > a[i] { return false; }
    }
    ok := true;
  }

  // Set up cftab; the block is refused exactly when some frequency or some
  // cumulative frequency is out of range.
  method BuildCftab(unzftab: array<int>, cftab: array<int>, nblock: nat) returns (ok: bool)
    requires unzftab.Length == 256 && cftab.Length == 257 && cftab != unzftab
    modifies cftab
    ensures ok <==> (forall c :: 0 <= c < 256 ==> 0 <= unzftab[c] <= nblock) && Sum(unzftab[..], 256) <= nblock
    ensures ok ==> forall c :: 0 <= c <= 256 ==> cftab[c] == Sum(unzftab[..], c)
  {
    ok := CheckRange(unzftab, 256, nblock);
    if !ok { return; }
    ghost var f := unzftab[..];
    Accumulate(unzftab, cftab);
    ok := CheckRange(cftab, 257, nblock);
    CumulativeOk(f, cftab[..], nblock);
    if ok {
      ok := CheckAscending(cftab, 257);
    }
  }

  lemma CumulativeOk(f: seq<int>, cf: seq<int>, nblock: nat)
    requires |f| == 256 && |cf| == 257 && (forall c :: 0 <= c < 256 ==> 0 <= f[c])
    requires forall c :: 0 <= c <= 256 ==> cf[c] == Sum(f, c)
    ensures (forall c :: 0 <= c < 257 ==> 0 <= cf[c] <= nblock) <==> Sum(f, 256) <= nblock
    ensures forall c :: 1 <= c < 257 ==> cf[c - 1] <= cf[c]
  {
    hide Sum;
    forall c | 0 <= c <= 256 ensures 0 <= Sum(f, c) <= Sum(f, 256) { SumBounds(f, c, 256); }
    forall c | 1 <= c < 257 ensures cf[c - 1] <= cf[c] { SumBounds(f, c - 1, c); }
  }

  method Accumulate(unzftab: array<int>, cftab: array<int>)
    requires unzftab.Length == 256 && cftab.Length == 257 && cftab != unzftab
    modifies cftab
    ensures forall c :: 0 <= c <= 256 ==> cftab[c] == Sum(unzftab[..], c)
  {
    cftab[0] := 0;
    for i := 1 to 257
      invariant cftab[0] == 0 && forall c :: 1 <= c < i ==> cftab[c] == unzftab[c - 1]
    {
      cftab[i] := unzftab[i - 1];
    }
    for i := 1 to 257
      invariant forall c :: 0 <= c < i ==> cftab[c] == Sum(unzftab[..], c)
      invariant forall c :: i <= c <= 256 ==> cftab[c] == unzftab[c - 1]
    {
      cftab[i] := cftab[i] + cftab[i - 1];
    }
  }

  // Binary search for the value whose range holds indx.
  method IndexIntoF(indx: nat, cftab: array<int>, ghost l: seq<Byte>) returns (nb: nat)
    requires cftab.Length == 257 && indx < |l|
    requires forall c :: 0 <= c <= 256 ==> cftab[c] == Smaller(l, c)
    ensures nb < 256 && Smaller(l, nb) <= indx < Smaller(l, nb + 1)
  {
    nb := 0;
    var na := 256;
    SmallerEnds(l);
    while na - nb != 1
      invariant 0 <= nb < na <= 256 && Smaller(l, nb) <= indx < Smaller(l, na)
      decreases na - nb
    {
      var mid := (nb + na) / 2;
      if indx >= cftab[mid] { nb := mid; } else { na := mid; }
    }
  }

  // ----- Every last column has an inverse vector -----

  function Ts(l: seq<int>): (s: seq<int>)
    ensures |s| == |l|
  {
    seq(|l|, i requires 0 <= i < |l| => T(l, i))
  }

  lemma TRange(l: seq<int>, i: nat)
    requires i < |l|
    ensures T(l, i) < |l|
  {
    TInBucket(l, i);
  }

  // A vector that inverts the sort at every entry is its inverse.
  lemma InverseFrom(inv: seq<int>, l: seq<int>)
    requires |inv| == |l| && forall i :: 0 <= i < |l| ==> T(l, i) < |l| && inv[T(l, i)] == i
    ensures Inverts(inv, l)
  {
    hide T;
    forall j | 0 <= j < |l| ensures 0 <= inv[j] < |l| && T(l, inv[j]) == j {
      forall i, k | 0 <= i < k < |l| ensures Ts(l)[i] != Ts(l)[k] { TInjective(l, i, k); }
      forall i | 0 <= i < |l| ensures 0 <= Ts(l)[i] < |l| { TRange(l, i); }
      Pigeonhole(Ts(l), |l|, j);
      var i :| 0 <= i < |l| && Ts(l)[i] == j;
    }
  }

  // ----- The fast layout -----

  // Words whose high part is the link and whose low part is the byte.
  ghost predicate FastVector(tt: seq<nat>, l: seq<Byte>) {
    && |tt| >= |l|
    && (forall i :: 0 <= i < |l| ==> T(l, i) < |l| && tt[T(l, i)] / 256 == i)
    && (forall j :: 0 <= j < |l| ==> tt[j] % 256 == l[j])
  }

  lemma WordParts(x: nat, i: nat)
    requires x < 256
    ensures (x + i * 256) % 256 == x && (x + i * 256) / 256 == i
  {
  }

  // None of the first i entries lands at j.
  ghost predicate Vacant(l: seq<Byte>, i: nat, j: int)
    requires i <= |l|
  {
    forall k :: 0 <= k < i ==> T(l, k) != j
  }

  function LowByte(x: nat): nat {
    x % 256
  }

  ghost predicate LinksIn(tt: seq<nat>, l: seq<Byte>, i: nat) {
    i <= |l| <= |tt| && forall k :: 0 <= k < i ==> T(l, k) < |l| && tt[T(l, k)] == l[T(l, k)] + k * 256
  }

  ghost predicate LowsIn(tt: seq<nat>, l: seq<Byte>) {
    |l| <= |tt| && forall j :: 0 <= j < |l| ==> LowByte(tt[j]) == l[j]
  }

  ghost predicate RestIn(tt: seq<nat>, l: seq<Byte>, i: nat) {
    i <= |l| <= |tt| && forall j :: 0 <= j < |l| && Vacant(l, i, j) ==> tt[j] == l[j]
  }

  // The first i links are in place; entries not yet reached still hold their byte alone.
  ghost predicate Linking(tt: seq<nat>, l: seq<Byte>, i: nat) {
    LinksIn(tt, l, i) && LowsIn(tt, l) && RestIn(tt, l, i)
  }

  lemma VacantStep(l: seq<Byte>, i: nat)
    requires i < |l|
    ensures T(l, i) < |l| && Vacant(l, i, T(l, i)) && !Vacant(l, i + 1, T(l, i))
    ensures forall j :: Vacant(l, i + 1, j) ==> Vacant(l, i, j)
    ensures forall k :: 0 <= k < i ==> T(l, k) != T(l, i)
  {
    hide T;
    TRange(l, i);
    forall k | 0 <= k < i ensures T(l, k) != T(l, i) { TInjective(l, k, i); }
  }

  lemma LinkStep(tt: seq<nat>, l: seq<Byte>, i: nat)
    requires Linking(tt, l, i) && i < |l|
    ensures i < |tt| && tt[i] % 256 == l[i] && T(l, i) < |l| <= |tt|
    ensures Linking(tt[T(l, i) := Bits.Or(tt[T(l, i)], i * 256)], l, i + 1)
  {
    hide T, Bits.Or, Vacant, LowByte, LinksIn, RestIn, LowsIn;
    VacantStep(l, i);
    var t := T(l, i);
    Lengths(tt, l, i);
    Bits.OrShifted(l[t], i);
    LowIs(tt[i], 0);
    var u := tt[t := Bits.Or(tt[t], i * 256)];
    LinksStep(tt, u, l, i);
    LowsStep(tt, u, l, i);
    RestStep(tt, u, l, i);
  }

  lemma Lengths(tt: seq<nat>, l: seq<Byte>, i: nat)
    requires Linking(tt, l, i) && i < |l|
    ensures |l| <= |tt| && LowByte(tt[i]) == l[i]
    ensures T(l, i) < |l| && Vacant(l, i, T(l, i)) ==> tt[T(l, i)] == l[T(l, i)]
  {
    hide T, Vacant, LowByte;
  }

  lemma LinksStep(tt: seq<nat>, u: seq<nat>, l: seq<Byte>, i: nat)
    requires LinksIn(tt, l, i) && i < |l| && T(l, i) < |l| && u == tt[T(l, i) := l[T(l, i)] + i * 256]
    requires forall k :: 0 <= k < i ==> T(l, k) != T(l, i)
    ensures LinksIn(u, l, i + 1)
  {
    hide T;
  }

  lemma LowsStep(tt: seq<nat>, u: seq<nat>, l: seq<Byte>, i: nat)
    requires LowsIn(tt, l) && i < |l| && T(l, i) < |l| && u == tt[T(l, i) := l[T(l, i)] + i * 256]
    ensures LowsIn(u, l)
  {
    hide T, LowByte;
    LowIs(l[T(l, i)], i);
  }

  lemma RestStep(tt: seq<nat>, u: seq<nat>, l: seq<Byte>, i: nat)
    requires RestIn(tt, l, i) && i < |l| && T(l, i) < |l| && u == tt[T(l, i) := l[T(l, i)] + i * 256]
    requires !Vacant(l, i + 1, T(l, i)) && forall j :: Vacant(l, i + 1, j) ==> Vacant(l, i, j)
    ensures RestIn(u, l, i + 1)
  {
    hide T, Vacant;
  }

  lemma LowIs(x: nat, i: nat)
    ensures LowByte(x) == x % 256 && (x < 256 ==> LowByte(x + i * 256) == x && (x + i * 256) / 256 == i)
  {
    if x < 256 { WordParts(x, i); }
  }

  lemma AllLinked(tt: seq<nat>, l: seq<Byte>)
    requires Linking(tt, l, |l|)
    ensures FastVector(tt, l)
  {
    hide T, Vacant, LowByte;
    forall k | 0 <= k < |l| ensures T(l, k) < |l| && tt[T(l, k)] / 256 == k { LowIs(l[T(l, k)], k); }
    forall j | 0 <= j < |l| ensures tt[j] % 256 == l[j] { LowIs(tt[j], 0); }
  }

  lemma LinkStart(tt: seq<nat>, l: seq<Byte>)
    requires |l| <= |tt| && forall i :: 0 <= i < |l| ==> tt[i] == l[i]
    ensures Linking(tt, l, 0)
  {
    hide T, LowByte;
    forall j | 0 <= j < |l| ensures LowByte(tt[j]) == l[j] { LowIs(l[j], 0); }
  }

  method BuildFast(tt: array<nat>, cftab: array<int>, nblock: nat, ghost l: seq<Byte>)
    requires nblock == |l| <= tt.Length && cftab.Length == 257 && cftab as object != tt
    requires forall i :: 0 <= i < nblock ==> tt[i] == l[i]
    requires forall c :: 0 <= c <= 256 ==> cftab[c] == Smaller(l, c)
    modifies tt, cftab
    ensures FastVector(tt[..], l)
  {
    hide T, Bits.Or, Linking, FastVector;
    LinkStart(tt[..], l);
    for i := 0 to nblock
      invariant forall c :: 0 <= c < 256 ==> cftab[c] == Smaller(l, c) + Count(l[..i], c)
      invariant Linking(tt[..], l, i)
    {
      ghost var before := tt[..];
      LinkStep(before, l, i);
      var uc := tt[i] % 256;
      TUnfold(l, i);
      ghost var t := T(l, i);
      assert cftab[uc] == t;
      tt[cftab[uc]] := Bits.Or(tt[cftab[uc]], i * 256);
      assert tt[..] == before[t := Bits.Or(before[t], i * 256)];
      cftab[uc] := cftab[uc] + 1;
      assert l[..i + 1][..i] == l[..i];
    }
    AllLinked(tt[..], l);
  }

  lemma TUnfold(l: seq<int>, i: nat)
    requires i < |l|
    ensures T(l, i) == Smaller(l, l[i]) + Count(l[..i], l[i])
  {
  }

  function Links(tt: seq<nat>, n: nat): (s: seq<int>)
    requires n <= |tt|
    ensures |s| == n
  {
    seq(n, j requires 0 <= j < n => tt[j] / 256)
  }

  lemma FastLinks(tt: seq<nat>, l: seq<Byte>)
    requires FastVector(tt, l)
    ensures Inverts(Links(tt, |l|), l)
  {
    hide T;
    InverseFrom(Links(tt, |l|), l);
  }

  // What k calls of BZ_GET_FAST return from position pos.
  function FastStream(tt: seq<nat>, pos: nat, k: nat): seq<nat>
    requires pos < |tt| && forall j :: 0 <= j < |tt| ==> tt[j] / 256 < |tt|
    decreases k
  {
    if k == 0 then [] else [tt[pos] % 256] + FastStream(tt, tt[pos] / 256, k - 1)
  }

  lemma {:induction false} FastIsWalk(tt: seq<nat>, l: seq<Byte>, pos: nat, k: nat)
    requires FastVector(tt, l) && |tt| == |l| && pos < |l|
    ensures forall j :: 0 <= j < |tt| ==> tt[j] / 256 < |tt|
    ensures Inverts(Links(tt, |l|), l)
    ensures FastStream(tt, tt[pos] / 256, k) == Walk(l, Links(tt, |l|), pos, k)
    decreases k
  {
    FastLinks(tt, l);
    hide T;
    var inv := Links(tt, |l|);
    forall j | 0 <= j < |tt| ensures tt[j] / 256 < |tt| { assert inv[j] < |l|; }
    if k > 0 { FastIsWalk(tt, l, inv[pos], k - 1); }
  }

  // ----- The small layout -----

  class SmallStore {
    const ll16: array<nat>
    const ll4: array<nat>

    predicate Valid()
      reads this, ll16, ll4
    {
      && ll16 != ll4
      && ll4.Length >= (ll16.Length + 1) / 2
      && (forall i :: 0 <= i < ll16.Length ==> ll16[i] < 0x10000)
      && (forall i :: 0 <= i < ll4.Length ==> ll4[i] < 256)
    }

    constructor (n: nat)
      ensures Valid() && ll16.Length == n && fresh(ll16) && fresh(ll4)
    {
      ll16 := new nat[n](_ => 0);
      ll4 := new nat[(n + 1) / 2](_ => 0);
    }

    function Nibble(i: nat): nat
      requires i / 2 < ll4.Length
      reads ll4
    {
      if i % 2 == 0 then ll4[i / 2] % 16 else ll4[i / 2] / 16 % 16
    }

    function GetLL(i: nat): nat
      requires i < ll16.Length && i / 2 < ll4.Length
      reads ll16, ll4
    {
      ll16[i] + Nibble(i) * 0x10000
    }

    // The first n links.
    function AllLinks(n: nat): (s: seq<int>)
      requires n <= ll16.Length <= 2 * ll4.Length
      reads ll16, ll4
      ensures |s| == n && forall x: nat :: x < n ==> s[x] == GetLL(x)
    {
      seq(n, x requires 0 <= x < n reads ll16, ll4 => GetLL(x) as int)
    }

    method SetLL4(i: nat, n: nat)
      requires Valid() && i < ll16.Length && n < 16
      modifies ll4
      ensures Valid()
      ensures Nibble(i) == n && forall x: nat :: x < ll16.Length && x != i ==> Nibble(x) == old(Nibble(x))
    {
      var h := i / 2;
      if i % 2 == 0 {
        ll4[h] := ll4[h] / 16 * 16 + n;
        NibbleParts(old(ll4[h]) / 16, n);
      } else {
        ll4[h] := ll4[h] % 16 + n * 16;
        NibbleParts(n, old(ll4[h]) % 16);
      }
      forall x: nat | x < ll16.Length && x != i ensures Nibble(x) == old(Nibble(x)) {
        if x / 2 == h { assert x % 2 != i % 2; }
      }
    }

    // A link of 20 bits: sixteen in ll16, four in ll4.
    method SetLL(i: nat, n: nat)
      requires Valid() && i < ll16.Length && n < 0x10_0000
      modifies ll16, ll4
      ensures Valid()
      ensures GetLL(i) == n && forall x: nat :: x < ll16.Length && x != i ==> GetLL(x) == old(GetLL(x))
      ensures forall x: nat :: x < ll16.Length && x != i ==> ll16[x] == old(ll16[x])
    {
      ll16[i] := n % 0x10000;
      SetLL4(i, n / 0x10000);
    }

    // The T vector: entry i links to where it lands in the sorted column.
    method BuildSmall(cftabCopy: array<int>, nblock: nat, ghost l: seq<Byte>)
      requires Valid() && nblock == |l| <= ll16.Length && nblock <= 0x10_0000 && cftabCopy.Length == 257
      requires forall i :: 0 <= i < nblock ==> ll16[i] == l[i]
      requires forall c :: 0 <= c <= 256 ==> cftabCopy[c] == Smaller(l, c)
      requires cftabCopy as object != ll16 && cftabCopy as object != ll4
      modifies ll16, ll4, cftabCopy
      ensures Valid() && AllLinks(nblock) == Ts(l)
    {
      hide T;
      for i := 0 to nblock
        invariant Valid()
        invariant forall c :: 0 <= c < 256 ==> cftabCopy[c] == Smaller(l, c) + Count(l[..i], c)
        invariant forall k: nat :: k < i ==> GetLL(k) == T(l, k)
        invariant forall k: nat :: i <= k < nblock ==> ll16[k] == l[k]
      {
        var uc := ll16[i] % 256;
        TUnfold(l, i);
        TRange(l, i);
        SetLL(i, cftabCopy[uc]);
        cftabCopy[uc] := cftabCopy[uc] + 1;
        assert l[..i + 1][..i] == l[..i];
      }
    }
  }

  lemma NibbleParts(hi: nat, lo: nat)
    requires hi < 16 && lo < 16
    ensures (hi * 16 + lo) % 16 == lo && (hi * 16 + lo) / 16 % 16 == hi && hi * 16 + lo < 256
  {
  }

  // ----- Pointer reversal -----

  // The rows met when T is followed from row o.
  function Orbit(l: seq<Byte>, o: nat, k: nat): (r: nat)
    requires o < |l|
    ensures r < |l|
  {
    if k == 0 then o else TRange(l, Orbit(l, o, k - 1)); T(l, Orbit(l, o, k - 1))
  }

  // Until it returns to its start an orbit repeats no row.
  lemma {:induction false} OrbitDistinct(l: seq<Byte>, o: nat, i: nat, k: nat)
    requires o < |l| && i < k
    requires forall m: nat :: 1 <= m < k ==> Orbit(l, o, m) != o
    requires i > 0 || Orbit(l, o, k) != o
    ensures Orbit(l, o, i) != Orbit(l, o, k)
    decreases i
  {
    hide T;
    if i > 0 {
      if i == 1 { assert Orbit(l, o, k - 1) != o || k == 1; }
      OrbitDistinct(l, o, i - 1, k - 1);
      TInjective(l, Orbit(l, o, i - 1), Orbit(l, o, k - 1));
    }
  }

  function OrbitRows(l: seq<Byte>, o: nat, k: nat): (s: seq<int>)
    requires o < |l|
    ensures |s| == k
  {
    seq(k, i requires 0 <= i < k => Orbit(l, o, i))
  }

  lemma OrbitShort(l: seq<Byte>, o: nat, k: nat)
    requires o < |l| && forall m: nat :: 1 <= m < k ==> Orbit(l, o, m) != o
    ensures k <= |l|
  {
    var s := OrbitRows(l, o, k);
    forall i, j | 0 <= i < j < k ensures s[i] != s[j] { OrbitDistinct(l, o, i, j); }
    DistinctSize(s);
    RangeSize(|l|);
    assert Elements(s) <= Range(|l|);
    SubsetSize(Elements(s), Range(|l|));
  }

  // The links as they are after m steps of the reversal from row o.
  ghost predicate Reversing(ll: seq<int>, l: seq<Byte>, o: nat, m: nat) {
    && o < |l| == |ll|
    && (forall x :: 0 <= x < |ll| ==> 0 <= ll[x] < |l|)
    && (forall k: nat :: k < m ==> ll[Orbit(l, o, k + 1)] == Orbit(l, o, k))
    && (forall x :: 0 <= x < |l| && (forall k: nat :: 1 <= k <= m ==> Orbit(l, o, k) != x) ==> ll[x] == T(l, x))
  }

  // All links on the cycle of row o lead one step back.
  ghost predicate Reversed(ll: seq<int>, l: seq<Byte>, o: nat, m: nat) {
    && o < |l| == |ll|
    && (forall x :: 0 <= x < |ll| ==> 0 <= ll[x] < |l|)
    && m >= 1 && Orbit(l, o, m) == o
    && forall k: nat :: k < m ==> ll[Orbit(l, o, k + 1)] == Orbit(l, o, k)
  }

  ghost predicate NotBack(l: seq<Byte>, o: nat, m: nat)
    requires o < |l|
  {
    forall k: nat :: 1 <= k <= m ==> Orbit(l, o, k) != o
  }

  lemma OrbitNext(l: seq<Byte>, o: nat, k: nat)
    requires o < |l|
    ensures Orbit(l, o, k + 1) == T(l, Orbit(l, o, k))
  {
  }

  lemma ReverseStep(ll: seq<int>, l: seq<Byte>, o: nat, m: nat)
    requires Reversing(ll, l, o, m) && NotBack(l, o, m)
    ensures m < |l| && ll[Orbit(l, o, m + 1)] == Orbit(l, o, m + 2)
    ensures Reversing(ll[Orbit(l, o, m + 1) := Orbit(l, o, m)], l, o, m + 1)
    ensures Orbit(l, o, m + 1) != o ==> NotBack(l, o, m + 1)
  {
    hide T, Orbit;
    var i, j := Orbit(l, o, m), Orbit(l, o, m + 1);
    OrbitNext(l, o, m + 1);
    OrbitShort(l, o, m + 1);
    forall k: nat | 1 <= k <= m ensures Orbit(l, o, k) != j { OrbitDistinct(l, o, k, m + 1); }
    var ll' := ll[j := i];
    forall k: nat | k < m + 1 ensures ll'[Orbit(l, o, k + 1)] == Orbit(l, o, k) {
      if k < m { assert Orbit(l, o, k + 1) != j; }
    }
    forall x | 0 <= x < |l| && (forall k: nat :: 1 <= k <= m + 1 ==> Orbit(l, o, k) != x) ensures ll'[x] == T(l, x) {
      assert Orbit(l, o, m + 1) != x;
    }
  }

  // Compute T^(-1) by pointer reversal along the cycle of origPtr. On a periodic block
  // that cycle need not contain every row.
  method ReverseLinks(store: SmallStore, origPtr: nat, nblock: nat, ghost l: seq<Byte>) returns (ghost m: nat)
    requires store.Valid() && origPtr < nblock == |l| <= store.ll16.Length && |l| <= 0x10_0000
    requires store.AllLinks(nblock) == Ts(l)
    modifies store.ll16, store.ll4
    ensures store.Valid() && Reversed(store.AllLinks(nblock), l, origPtr, m)
  {
    hide T, SmallStore.GetLL, Orbit, Reversing, NotBack;
    var i := origPtr;
    var j := store.GetLL(i);
    m := 0;
    ReverseStart(l, origPtr);
    assert store.AllLinks(nblock)[i] == j;
    while true
      invariant store.Valid() && i == Orbit(l, origPtr, m) && j == Orbit(l, origPtr, m + 1)
      invariant NotBack(l, origPtr, m) && Reversing(store.AllLinks(nblock), l, origPtr, m)
      decreases nblock - m
    {
      ghost var ll := store.AllLinks(nblock);
      ReverseStep(ll, l, origPtr, m);
      var tmp := store.GetLL(j);
      assert ll[j] == tmp;
      store.SetLL(j, i);
      assert store.AllLinks(nblock) == ll[j := i];
      i := j;
      j := tmp;
      m := m + 1;
      if i == origPtr {
        ReverseEnd(store.AllLinks(nblock), l, origPtr, m);
        break;
      }
    }
  }

  lemma ReverseStart(l: seq<Byte>, o: nat)
    requires o < |l|
    ensures Reversing(Ts(l), l, o, 0) && NotBack(l, o, 0)
    ensures Orbit(l, o, 0) == o && Orbit(l, o, 1) == T(l, o)
  {
    hide T;
    forall x | 0 <= x < |l| ensures 0 <= Ts(l)[x] < |l| { TRange(l, x); }
    assert Orbit(l, o, 1) == T(l, Orbit(l, o, 0));
  }

  lemma ReverseEnd(ll: seq<int>, l: seq<Byte>, o: nat, m: nat)
    requires Reversing(ll, l, o, m) && m >= 1 && Orbit(l, o, m) == o
    ensures Reversed(ll, l, o, m)
  {
  }

  // What k steps of BZ_GET_SMALL return from position pos: the value of the bucket
  // that holds pos.
  function SmallStream(ll: seq<int>, cf: seq<int>, pos: nat, k: nat): seq<nat>
    requires |cf| == 257 && pos < |ll| && forall j :: 0 <= j < |ll| ==> 0 <= ll[j] < |ll|
    decreases k
  {
    if k == 0 then [] else [Bucket(cf, pos, 256)] + SmallStream(ll, cf, ll[pos], k - 1)
  }

  // The last value c below top whose range starts at or before pos.
  function Bucket(cf: seq<int>, pos: nat, top: nat): nat
    requires top < |cf|
  {
    if top == 0 then 0 else if cf[top - 1] <= pos then top - 1 else Bucket(cf, pos, top - 1)
  }

  lemma {:induction false} BucketIs(cf: seq<int>, l: seq<Byte>, pos: nat, c: nat, top: nat)
    requires |cf| == 257 && forall i :: 0 <= i <= 256 ==> cf[i] == Smaller(l, i)
    requires c < top <= 256 && Smaller(l, c) <= pos < Smaller(l, c + 1)
    ensures Bucket(cf, pos, top) == c
  {
    if top - 1 > c {
      SmallerMono(l, c + 1, top - 1);
      BucketIs(cf, l, pos, c, top - 1);
    }
  }

  // Both layouts follow the same rows and give the same bytes, whatever the last
  // column and the starting row: ll holds the reversed links of the cycle of o.
  lemma {:induction false} SmallIsWalk(ll: seq<int>, cf: seq<int>, l: seq<Byte>, inv: seq<int>, o: nat, m: nat, j: nat,
                                       k: nat)
    requires Reversed(ll, l, o, m) && Inverts(inv, l) && 1 <= j <= m
    requires |cf| == 257 && forall i :: 0 <= i <= 256 ==> cf[i] == Smaller(l, i)
    ensures SmallStream(ll, cf, Orbit(l, o, j), k) == Walk(l, inv, Orbit(l, o, j), k)
    decreases k
  {
    hide T;
    if k > 0 {
      var pos, prev := Orbit(l, o, j), Orbit(l, o, j - 1);
      assert pos == T(l, prev) && inv[pos] == prev;
      assert ll[Orbit(l, o, (j - 1) + 1)] == prev;
      TInBucket(l, prev);
      assert T(l, prev) == Smaller(l, l[prev]) + Count(l[..prev], l[prev]) by { TUnfold(l, prev); }
      BucketIs(cf, l, pos, l[prev], 256);
      SmallIsWalk(ll, cf, l, inv, o, m, if j == 1 then m else j - 1, k - 1);
    }
  }

  // The fast and the small decoder read the same bytes from every block.
  lemma LayoutsAgree(tt: seq<nat>, ll: seq<int>, cf: seq<int>, l: seq<Byte>, o: nat, m: nat, k: nat)
    requires |tt| == |l| && FastVector(tt, l) && Reversed(ll, l, o, m)
    requires |cf| == 257 && forall i :: 0 <= i <= 256 ==> cf[i] == Smaller(l, i)
    ensures forall j :: 0 <= j < |tt| ==> tt[j] / 256 < |tt|
    ensures SmallStream(ll, cf, o, k) == FastStream(tt, tt[o] / 256, k)
  {
    FastIsWalk(tt, l, o, k);
    SmallIsWalk(ll, cf, l, Links(tt, |l|), o, m, m, k);
  }
}
