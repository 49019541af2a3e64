// Move-to-front with run-length coded zeros (dep/bzip2/compress.c, generateMTFValues;
// dep/bzip2/decompress.c): the list of ranks, the bijective base-2 run digits
// RUNA and RUNB, and the two directions as functions on symbol sequences.
module BzMtf {
  import opened Bits

  const RUNA := 0
  const RUNB := 1

  // ----- The list -----

  function Identity(n: nat): (s: seq<int>)
    ensures |s| == n && forall i :: 0 <= i < n ==> s[i] == i
  {
    seq(n, i => i)
  }

  function ToFront(list: seq<int>, j: nat): (r: seq<int>)
    requires j < |list|
    ensures |r| == |list|
  {
    [list[j]] + list[..j] + list[j + 1..]
  }

  function Find(list: seq<int>, x: int): (j: nat)
    requires x in list
    ensures j < |list| && list[j] == x && x !in list[..j]
  {
    if list[0] == x then 0
    else
      var j := Find(list[1..], x);
      assert list[..j + 1] == [list[0]] + list[1..][..j];
      j + 1
  }

  lemma FindUnique(list: seq<int>, x: int, j: nat)
    requires j < |list| && list[j] == x && x !in list[..j]
    ensures x in list && Find(list, x) == j
  {
    assert list[j] in list;
    var k := Find(list, x);
    NotBefore(list, x, j, k);
    NotBefore(list, x, k, j);
  }

  lemma NotBefore(list: seq<int>, x: int, j: nat, k: nat)
    requires j <= |list| && k < |list| && x !in list[..j]
    ensures k < j ==> list[k] != x
  {
    assert k < j ==> list[..j][k] == list[k];
  }

  // Shifting by one what stands before entry j.
  lemma ShiftIs(s: seq<int>, t: seq<int>, j: nat)
    requires j < |s| == |t| && t[0] == s[j] && (forall k :: 1 <= k <= j ==> t[k] == s[k - 1])
    requires forall k :: j < k < |s| ==> t[k] == s[k]
    ensures t == ToFront(s, j)
  {
  }

  lemma NotLast(s: seq<int>, x: int, j: nat)
    requires x in s && forall k :: 0 <= k < j && k < |s| ==> s[k] != x
    ensures j < |s|
  {
    var k :| 0 <= k < |s| && s[k] == x;
  }

  // ----- Run digits -----

  // The digits of z in bijective base 2, least significant first: RUNA counts 1, RUNB 2.
  function Run(z: nat): (d: seq<int>)
    ensures |d| <= z && forall i :: 0 <= i < |d| ==> d[i] == RUNA || d[i] == RUNB
  {
    if z == 0 then [] else [(z - 1) % 2] + Run((z - 1) / 2)
  }

  // What the decoder adds up: digit k counts for (digit + 1) * 2^k.
  function RunLength(d: seq<int>): int {
    if d == [] then 0 else d[0] + 1 + 2 * RunLength(d[1..])
  }

  lemma {:induction false} RunRoundTrip(z: nat)
    ensures RunLength(Run(z)) == z
  {
    hide Run, RunLength;
    if z > 0 {
      var y, x := (z - 1) / 2, (z - 1) % 2;
      assert z - 1 == 2 * y + x;
      RunRoundTrip(y);
      RunUnfold(z);
      RunLengthFront(x, Run(y));
    } else {
      NoRun();
    }
  }

  lemma NoRun()
    ensures Run(0) == [] && RunLength([]) == 0
  {
  }

  lemma RunUnfold(z: nat)
    requires z > 0
    ensures Run(z) == [(z - 1) % 2] + Run((z - 1) / 2)
  {
  }

  lemma RunLengthFront(x: int, d: seq<int>)
    ensures RunLength([x] + d) == x + 1 + 2 * RunLength(d)
  {
    assert ([x] + d)[1..] == d;
  }

  // Every digit string is the code of exactly one length.
  lemma {:induction false} RunBijective(d: seq<int>)
    requires forall i :: 0 <= i < |d| ==> d[i] == RUNA || d[i] == RUNB
    ensures RunLength(d) >= |d| && Run(RunLength(d)) == d
  {
    if d != [] {
      RunBijective(d[1..]);
      assert d == [d[0]] + d[1..];
    }
  }

  // k digits mean a length of at least 2^k - 1.
  lemma {:induction false} RunDigits(d: seq<int>)
    requires forall i :: 0 <= i < |d| ==> d[i] == RUNA || d[i] == RUNB
    ensures RunLength(d) >= Pow2(|d|) - 1
  {
    if d != [] { RunDigits(d[1..]); }
  }

  // One more digit at the top.
  lemma {:induction false} RunAppend(d: seq<int>, x: int)
    ensures RunLength(d + [x]) == RunLength(d) + (x + 1) * Pow2(|d|)
  {
    if d == [] {
      assert [] + [x] == [x] && [x][1..] == [];
    } else {
      RunAppend(d[1..], x);
      assert (d + [x])[1..] == d[1..] + [x];
      TwiceTimes(x + 1, Pow2(|d| - 1));
    }
  }

  lemma TwiceTimes(a: int, b: int)
    ensures 2 * (a * b) == a * (2 * b)
  {
  }

  // ----- Encoding -----

  // What is kept while scanning: the list, the zeros not yet written, the output.
  datatype Coder = Coder(list: seq<int>, zeros: nat, out: seq<int>)

  predicate Ranks(s: seq<int>, list: seq<int>) {
    forall i :: 0 <= i < |s| ==> s[i] in list
  }

  function Scan(list: seq<int>, s: seq<int>): (c: Coder)
    requires list != [] && Ranks(s, list)
    ensures |c.list| == |list| && forall x :: x in list <==> x in c.list
    ensures |c.out| + c.zeros <= |s|
  {
    if s == [] then Coder(list, 0, [])
    else
      var c := Scan(list, s[..|s| - 1]);
      var x := s[|s| - 1];
      if c.list[0] == x then Coder(c.list, c.zeros + 1, c.out)
      else
        var j := Find(c.list, x);
        ToFrontSame(c.list, j);
        Coder(ToFront(c.list, j), 0, c.out + Run(c.zeros) + [j + 1])
  }

  lemma ToFrontSame(list: seq<int>, j: nat)
    requires j < |list|
    ensures forall x :: x in list <==> x in ToFront(list, j)
  {
    assert list == list[..j] + [list[j]] + list[j + 1..];
  }

  function Encode(list: seq<int>, s: seq<int>, eob: int): seq<int>
    requires list != [] && Ranks(s, list)
  {
    var c := Scan(list, s);
    c.out + Run(c.zeros) + [eob]
  }

  // ----- Decoding -----

  datatype Result = Done(s: seq<int>) | Corrupt | Starved

  function Prepend(t: seq<int>, r: Result): Result {
    match r
    case Done(s) => Done(t + s)
    case Corrupt => Corrupt
    case Starved => Starved
  }

  predicate IsRun(x: int) {
    x == RUNA || x == RUNB
  }

  function RunPrefix(syms: seq<int>): (k: nat)
    ensures k <= |syms| && (forall i :: 0 <= i < k ==> IsRun(syms[i]))
    ensures k < |syms| ==> !IsRun(syms[k])
  {
    if syms == [] || !IsRun(syms[0]) then 0 else 1 + RunPrefix(syms[1..])
  }

  function Copies(x: int, n: nat): (s: seq<int>)
    ensures |s| == n && forall i :: 0 <= i < n ==> s[i] == x
  {
    if n == 0 then [] else Copies(x, n - 1) + [x]
  }

  // At most 21 digits: the weight of a digit must stay below 2 * 1024 * 1024.
  const MAX_DIGITS := 21

  // room: how many more values the block may hold.
  function Decode(list: seq<int>, syms: seq<int>, eob: int, room: int): Result
    requires list != [] && eob <= |list| + 1
    decreases |syms|
  {
    if syms == [] then Starved
    else if syms[0] == eob then Done([])
    else if IsRun(syms[0]) then
      var k := RunPrefix(syms);
      if k > MAX_DIGITS then Corrupt
      else if k == |syms| then Starved
      else
        RunBijective(syms[..k]);
        var es := RunLength(syms[..k]);
        if es > room then Corrupt
        else Prepend(Copies(list[0], es), Decode(list, syms[k..], eob, room - es))
    else if syms[0] < 0 || syms[0] > eob || room <= 0 then Corrupt
    else
      var j := syms[0] - 1;
      Prepend([list[j]], Decode(ToFront(list, j), syms[1..], eob, room - 1))
  }

  // ----- Encoding, from the front -----

  function EncodeFrom(list: seq<int>, zeros: nat, s: seq<int>, eob: int): seq<int>
    requires list != [] && Ranks(s, list)
    decreases |s|
  {
    if s == [] then Run(zeros) + [eob]
    else if list[0] == s[0] then EncodeFrom(list, zeros + 1, s[1..], eob)
    else
      var j := Find(list, s[0]);
      ToFrontSame(list, j);
      Run(zeros) + [j + 1] + EncodeFrom(ToFront(list, j), 0, s[1..], eob)
  }

  lemma RanksRest(list: seq<int>, list': seq<int>, s: seq<int>, i: nat)
    requires Ranks(s, list) && i <= |s| && forall x :: x in list <==> x in list'
    ensures Ranks(s[i..], list')
  {
    forall k | 0 <= k < |s[i..]| ensures s[i..][k] in list' {
      var x := s[i + k];
      assert x in list;
      assert x in list';
      assert s[i..][k] == x;
    }
  }

  // One step of the scan, seen from the front.
  lemma ScanStep(list: seq<int>, zeros: nat, out: seq<int>, t: seq<int>, eob: int)
    requires list != [] && t != [] && Ranks(t, list)
    ensures var x := t[0];
      var d := if list[0] == x then Coder(list, zeros + 1, out)
               else Coder(ToFront(list, Find(list, x)), 0, out + Run(zeros) + [Find(list, x) + 1]);
      d.list != [] && Ranks(t[1..], d.list)
      && d.out + EncodeFrom(d.list, d.zeros, t[1..], eob) == out + EncodeFrom(list, zeros, t, eob)
  {
    hide Run, ToFront, Find;
    var x := t[0];
    if list[0] == x { RanksRest(list, list, t, 1); }
    else {
      var j := Find(list, x);
      ToFrontSame(list, j);
      RanksRest(list, ToFront(list, j), t, 1);
      AppendThree(out, Run(zeros), [j + 1], EncodeFrom(ToFront(list, j), 0, t[1..], eob));
    }
  }

  lemma ScanNext(list: seq<int>, s: seq<int>, i: nat)
    requires list != [] && Ranks(s, list) && 1 <= i <= |s|
    ensures var c, x := Scan(list, s[..i - 1]), s[i - 1];
      x in c.list && Scan(list, s[..i]) == if c.list[0] == x then Coder(c.list, c.zeros + 1, c.out)
        else Coder(ToFront(c.list, Find(c.list, x)), 0, c.out + Run(c.zeros) + [Find(c.list, x) + 1])
  {
    hide Run, ToFront, Find;
    assert s[..i][..i - 1] == s[..i - 1];
  }

  lemma {:induction false} ScanFrom(list: seq<int>, s: seq<int>, i: nat, eob: int)
    requires list != [] && Ranks(s, list) && i <= |s|
    ensures var c := Scan(list, s[..i]);
      Ranks(s[i..], c.list) && c.out + EncodeFrom(c.list, c.zeros, s[i..], eob) == EncodeFrom(list, 0, s, eob)
  {
    hide Run, ToFront, Find, EncodeFrom, Ranks;
    assert Ranks(s[..i], list) && Ranks(s[i..], list) by { RanksRest(list, list, s, i); RanksPrefix(list, s, i); }
    if i == 0 {
      assert s[0..] == s && s[..0] == [];
      assert Scan(list, []) == Coder(list, 0, []);
    } else {
      ScanFrom(list, s, i - 1, eob);
      RanksPrefix(list, s, i - 1);
      var c, t := Scan(list, s[..i - 1]), s[i - 1..];
      assert t[0] == s[i - 1] && t[1..] == s[i..];
      ScanNext(list, s, i);
      ScanStep(c.list, c.zeros, c.out, t, eob);
    }
  }

  lemma RanksPrefix(list: seq<int>, s: seq<int>, i: nat)
    requires Ranks(s, list) && i <= |s|
    ensures Ranks(s[..i], list)
  {
  }

  lemma AppendThree(a: seq<int>, b: seq<int>, c: seq<int>, d: seq<int>)
    ensures (a + b + c) + d == a + (b + c + d)
  {
  }

  lemma EncodeIs(list: seq<int>, s: seq<int>, eob: int)
    requires list != [] && Ranks(s, list)
    ensures Encode(list, s, eob) == EncodeFrom(list, 0, s, eob)
  {
    ScanFrom(list, s, |s|, eob);
    assert s[..|s|] == s && s[|s|..] == [];
    var c := Scan(list, s);
    assert c.out + Run(c.zeros) + [eob] == c.out + (Run(c.zeros) + [eob]);
  }

  // ----- Decoding undoes encoding -----

  lemma {:induction false} PrefixIs(d: seq<int>, rest: seq<int>)
    requires (forall i :: 0 <= i < |d| ==> IsRun(d[i])) && rest != [] && !IsRun(rest[0])
    ensures RunPrefix(d + rest) == |d|
  {
    if d == [] { assert d + rest == rest; }
    else {
      assert (d + rest)[1..] == d[1..] + rest;
      PrefixIs(d[1..], rest);
    }
  }

  // A legal run length never has too many digits.
  lemma FewDigits(z: nat)
    requires z < 0x3f_ffff
    ensures |Run(z)| <= MAX_DIGITS
  {
    RunRoundTrip(z);
    RunDigits(Run(z));
    Pow2Add(11, 11);
    assert Pow2(11) == 2048;
    if |Run(z)| > MAX_DIGITS { Pow2Mono(22, |Run(z)|); }
  }

  lemma DecodeRun(list: seq<int>, z: nat, rest: seq<int>, eob: int, room: int)
    requires list != [] && 2 <= eob <= |list| + 1 && rest != [] && !IsRun(rest[0]) && z <= room < 0x3f_ffff
    ensures Decode(list, Run(z) + rest, eob, room) == Prepend(Copies(list[0], z), Decode(list, rest, eob, room - z))
  {
    var d := Run(z);
    if z == 0 {
      assert d + rest == rest;
      PrependNothing(Decode(list, rest, eob, room));
    } else {
      PrefixIs(d, rest);
      assert (d + rest)[..|d|] == d && (d + rest)[|d|..] == rest;
      RunRoundTrip(z);
      FewDigits(z);
    }
  }

  lemma PrependNothing(r: Result)
    ensures Prepend([], r) == r
  {
    if r.Done? { assert [] + r.s == r.s; }
  }

  lemma CopiesMore(x: int, n: nat, s: seq<int>)
    ensures Copies(x, n + 1) + s == Copies(x, n) + ([x] + s)
  {
  }

  lemma ToFrontPrefix(list: seq<int>, m: nat, j: nat)
    requires j < m <= |list|
    ensures ToFront(list, j)[..m] == ToFront(list[..m], j)
  {
  }

  // full is the decoder's list of 256, list its first part, known to the encoder.
  lemma {:induction false} RoundTripFrom(full: seq<int>, list: seq<int>, zeros: nat, s: seq<int>, room: int)
    requires list != [] && |list| <= |full| && full[..|list|] == list && Ranks(s, list)
    requires zeros + |s| <= room < 0x3f_ffff
    ensures Decode(full, EncodeFrom(list, zeros, s, |list| + 1), |list| + 1, room) == Done(Copies(list[0], zeros) + s)
    decreases |s|
  {
    hide Decode, Run, ToFront, Copies, Find;
    var eob := |list| + 1;
    if s == [] {
      DecodeRun(full, zeros, [eob], eob, room);
      DecodeEnd(full, eob, room - zeros);
    } else if list[0] == s[0] {
      RoundTripFrom(full, list, zeros + 1, s[1..], room);
      CopiesMore(list[0], zeros, s[1..]);
      assert s == [s[0]] + s[1..];
    } else {
      var j := Find(list, s[0]);
      ToFrontSame(list, j);
      ToFrontPrefix(full, |list|, j);
      RanksRest(list, ToFront(list, j), s, 1);
      var rest := [j + 1] + EncodeFrom(ToFront(list, j), 0, s[1..], eob);
      RoundTripFrom(ToFront(full, j), ToFront(list, j), 0, s[1..], room - zeros - 1);
      DecodeOne(full, j, EncodeFrom(ToFront(list, j), 0, s[1..], eob), eob, room - zeros);
      DecodeRun(full, zeros, rest, eob, room);
      assert Run(zeros) + [j + 1] + EncodeFrom(ToFront(list, j), 0, s[1..], eob) == Run(zeros) + rest;
      NoCopies(ToFront(list, j)[0], s[1..]);
      assert s == [s[0]] + s[1..];
      assert full[j] == list[j];
    }
  }

  lemma NoCopies(x: int, s: seq<int>)
    ensures Copies(x, 0) + s == s
  {
  }

  lemma DecodeEnd(list: seq<int>, eob: int, room: int)
    requires list != [] && eob <= |list| + 1
    ensures Decode(list, [eob], eob, room) == Done([])
  {
  }

  lemma DecodeOne(list: seq<int>, j: nat, rest: seq<int>, eob: int, room: int)
    requires 1 <= j && j + 1 < eob <= |list| + 1 && room > 0
    ensures Decode(list, [j + 1] + rest, eob, room) == Prepend([list[j]], Decode(ToFront(list, j), rest, eob, room - 1))
  {
    assert ([j + 1] + rest)[1..] == rest;
  }

  // The theorem: for every sequence of ranks that fits the block.
  lemma RoundTrip(full: seq<int>, m: nat, s: seq<int>, room: int)
    requires 1 <= m <= |full| && Ranks(s, full[..m]) && |s| <= room < 0x3f_ffff
    ensures Decode(full, Encode(full[..m], s, m + 1), m + 1, room) == Done(s)
  {
    hide Decode, Encode, EncodeFrom, Scan, Copies, Run, ToFront, Find;
    var list := full[..m];
    EncodeIs(list, s, m + 1);
    RoundTripFrom(full, list, 0, s, room);
    NoCopies(list[0], s);
  }
}
