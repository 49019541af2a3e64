// The decoding loop over move-to-front values (dep/bzip2/decompress.c): runs, single
// values through the floating table, byte counts, and every way it can stop.
module BzMtfDecode {
  import opened Bits
  import opened BzMtf
  import opened BzMtfTable

  // Overrun: the next store would fall outside an array, and what then happens is not defined.
  datatype Status = Ok | DataError | NeedInput | Overrun

  // ----- One run -----

  lemma {:induction false} RunPrefixAtLeast(syms: seq<int>, k: nat)
    requires k <= |syms| && forall i :: 0 <= i < k ==> IsRun(syms[i])
    ensures RunPrefix(syms) >= k
    ensures k == |syms| || !IsRun(syms[k]) ==> RunPrefix(syms) == k
  {
    if k > 0 {
      assert syms[1..][..k - 1] == syms[1..k];
      RunPrefixAtLeast(syms[1..], k - 1);
    }
  }

  // The digits from pos to next have been added up: es is one less than their length, n the next weight.
  ghost predicate Adding(syms: seq<int>, pos: nat, next: nat, es: int, n: int) {
    && pos <= next <= |syms| && es == RunLength(syms[pos..next]) - 1 && n == Pow2(next - pos)
    && (forall i :: pos <= i < next ==> IsRun(syms[i]))
  }

  lemma AddingStep(syms: seq<int>, pos: nat, next: nat, es: int, n: int)
    requires Adding(syms, pos, next, es, n) && next < |syms| && IsRun(syms[next])
    ensures Adding(syms, pos, next + 1, es + (syms[next] + 1) * n, n * 2)
  {
    hide RunLength;
    RunAppend(syms[pos..next], syms[next]);
    assert syms[pos..next + 1] == syms[pos..next] + [syms[next]];
  }

  lemma AddingStops(syms: seq<int>, pos: nat, next: nat, es: int, n: int)
    requires Adding(syms, pos, next, es, n)
    ensures pos <= next <= |syms| && n >= 1 && RunPrefix(syms[pos..]) >= next - pos
      && es == RunLength(syms[pos..next]) - 1 >= -1
    ensures next < |syms| && IsRun(syms[next]) ==> RunPrefix(syms[pos..]) > next - pos
    ensures next == |syms| || !IsRun(syms[next]) ==> RunPrefix(syms[pos..]) == next - pos
    ensures next - pos <= MAX_DIGITS ==> (n >= 2 * 1024 * 1024 <==> next - pos == MAX_DIGITS)
  {
    hide RunLength, RunPrefix, Pow2;
    var rest := syms[pos..];
    RunPrefixAtLeast(rest, next - pos);
    if next < |syms| && IsRun(syms[next]) { RunPrefixAtLeast(rest, next - pos + 1); }
    RunBijective(syms[pos..next]);
    if next - pos <= MAX_DIGITS { PowerSmall(next - pos); }
  }

  lemma AddingStart(syms: seq<int>, pos: nat)
    requires pos <= |syms|
    ensures Adding(syms, pos, pos, -1, 1)
  {
    assert syms[pos..pos] == [];
  }

  // The symbols of the run that starts at pos; es is its length.
  method ReadRun(syms: seq<int>, pos: nat) returns (st: Status, next: nat, es: int)
    requires pos < |syms| && IsRun(syms[pos])
    ensures st != Overrun && (st == DataError ==> RunPrefix(syms[pos..]) > MAX_DIGITS)
    ensures st == NeedInput ==> RunPrefix(syms[pos..]) == |syms| - pos <= MAX_DIGITS
    ensures st == Ok ==> pos < next < |syms| && next - pos == RunPrefix(syms[pos..]) <= MAX_DIGITS
    ensures st == Ok ==> 0 <= es == RunLength(syms[pos..next])
  {
    hide Adding, RunLength, RunPrefix, Pow2;
    st := Ok;
    es := -1;
    next := pos;
    var n := 1;
    AddingStart(syms, pos);
    while true
      invariant pos <= next < |syms| && next - pos <= MAX_DIGITS && IsRun(syms[next]) && Adding(syms, pos, next, es, n)
      decreases |syms| - next
    {
      AddingStops(syms, pos, next, es, n);
      if n >= 2 * 1024 * 1024 { return DataError, next, es; }
      AddingStep(syms, pos, next, es, n);
      if syms[next] == RUNA { es := es + (0 + 1) * n; } else { es := es + (1 + 1) * n; }
      n := n * 2;
      next := next + 1;
      AddingStops(syms, pos, next, es, n);
      if next == |syms| { return NeedInput, next, es; }
      if !IsRun(syms[next]) { break; }
    }
    es := es + 1;
  }

  // N reaches 2 * 1024 * 1024 with the 22nd digit.
  lemma PowerSmall(k: nat)
    requires k <= MAX_DIGITS
    ensures Pow2(k) >= 2 * 1024 * 1024 <==> k == MAX_DIGITS
  {
    Pow2Add(10, 10);
    assert Pow2(10) == 1024;
    assert Pow2(21) == 2 * Pow2(20);
    if k < MAX_DIGITS { Pow2Mono(k, 20); }
  }

  // ----- Output -----

  // What has been decoded, as bytes, and how often each byte occurs.
  ghost predicate Written(tt: seq<int>, counts: seq<int>, done: seq<int>, to: seq<int>) {
    && |done| <= |tt| && |counts| == 256
    && (forall i :: 0 <= i < |done| ==> 0 <= done[i] < |to| && tt[i] == to[done[i]])
    && (forall c :: 0 <= c < 256 ==> counts[c] == Times(done, to, c))
  }

  function Times(done: seq<int>, to: seq<int>, c: int): nat {
    if done == [] then 0
    else Times(done[..|done| - 1], to, c)
         + if 0 <= done[|done| - 1] < |to| && to[done[|done| - 1]] == c then 1 else 0
  }

  lemma {:induction false} TimesCopies(done: seq<int>, to: seq<int>, c: int, x: int, n: nat)
    requires 0 <= x < |to|
    ensures Times(done + Copies(x, n), to, c) == Times(done, to, c) + if to[x] == c then n else 0
  {
    if n == 0 { assert done + Copies(x, 0) == done; }
    else {
      TimesCopies(done, to, c, x, n - 1);
      assert (done + Copies(x, n))[..|done| + n - 1] == done + Copies(x, n - 1);
    }
  }

  // n entries and the count of their byte, both updated.
  lemma WrittenMore(tt: seq<int>, counts: seq<int>, done: seq<int>, to: seq<int>, x: int, n: nat, tt': seq<int>)
    requires Written(tt, counts, done, to) && 0 <= x < |to| && 0 <= to[x] < 256
    requires |tt'| == |tt| && |done| + n <= |tt|
    requires forall i :: 0 <= i < |done| ==> tt'[i] == tt[i]
    requires forall i :: |done| <= i < |done| + n ==> tt'[i] == to[x]
    ensures |counts| == 256 && Written(tt', counts[to[x] := counts[to[x]] + n], done + Copies(x, n), to)
  {
    forall c | 0 <= c < 256 ensures counts[to[x] := counts[to[x]] + n][c] == Times(done + Copies(x, n), to, c) {
      TimesCopies(done, to, c, x, n);
    }
  }

  method WriteRun(tt: array<nat>, start: nat, es: nat, uc: nat, nblockMAX: nat) returns (st: Status, nblock: nat)
    requires start <= nblockMAX <= tt.Length
    modifies tt
    ensures st == if start + es <= nblockMAX then Ok else DataError
    ensures st == Ok ==> nblock == start + es && forall i :: start <= i < nblock ==> tt[i] == uc
    ensures forall i :: 0 <= i < start ==> tt[i] == old(tt[i])
    ensures st == Ok ==> forall i :: nblock <= i < tt.Length ==> tt[i] == old(tt[i])
  {
    nblock := start;
    var left := es;
    while left > 0
      invariant 0 <= left && nblock + left == start + es && start <= nblock <= nblockMAX
      invariant forall i :: start <= i < nblock ==> tt[i] == uc
      invariant forall i :: 0 <= i < start || nblock <= i < tt.Length ==> tt[i] == old(tt[i])
      decreases left
    {
      if nblock >= nblockMAX { return DataError, nblock; }
      tt[nblock] := uc;
      nblock := nblock + 1;
      left := left - 1;
    }
    st := Ok;
  }

  // ----- The loop -----

  // What remains to be decoded, together with what is done, is the whole.
  ghost predicate Onward(syms: seq<int>, eob: int, max: int, pos: nat, list: seq<int>, done: seq<int>) {
    && pos <= |syms| && |list| == 256 && eob <= 257
    && Decode(Identity(256), syms, eob, max) == Prepend(done, Decode(list, syms[pos..], eob, max - |done|))
  }

  lemma OnwardStart(syms: seq<int>, eob: int, max: int)
    requires eob <= 257
    ensures Onward(syms, eob, max, 0, Identity(256), [])
  {
    assert syms[0..] == syms;
    PrependNothing(Decode(Identity(256), syms, eob, max));
  }

  lemma PrependTwice(s: seq<int>, t: seq<int>, r: Result)
    ensures Prepend(s, Prepend(t, r)) == Prepend(s + t, r)
  {
    if r.Done? { assert s + (t + r.s) == s + t + r.s; }
  }

  lemma OnwardRun(syms: seq<int>, eob: int, max: int, pos: nat, list: seq<int>, done: seq<int>, k: nat)
    requires Onward(syms, eob, max, pos, list, done) && pos < |syms| && IsRun(syms[pos]) && syms[pos] != eob
    requires k == RunPrefix(syms[pos..])
    ensures k > MAX_DIGITS ==> Decode(Identity(256), syms, eob, max) == Corrupt
    ensures k <= MAX_DIGITS && pos + k == |syms| ==> Decode(Identity(256), syms, eob, max) == Starved
    ensures k <= MAX_DIGITS && pos + k < |syms| && RunLength(syms[pos..pos + k]) > max - |done| ==>
      Decode(Identity(256), syms, eob, max) == Corrupt
    ensures k <= MAX_DIGITS && pos + k < |syms| && 0 <= RunLength(syms[pos..pos + k]) <= max - |done| ==>
      Onward(syms, eob, max, pos + k, list, done + Copies(list[0], RunLength(syms[pos..pos + k])))
  {
    hide Identity, RunLength, Copies;
    var rest := syms[pos..];
    assert rest[..k] == syms[pos..pos + k] && rest[k..] == syms[pos + k..];
    if k <= MAX_DIGITS && pos + k < |syms| && 0 <= RunLength(syms[pos..pos + k]) <= max - |done| {
      var es := RunLength(syms[pos..pos + k]);
      PrependTwice(done, Copies(list[0], es), Decode(list, rest[k..], eob, max - |done| - es));
    }
  }

  lemma OnwardOne(syms: seq<int>, eob: int, max: int, pos: nat, list: seq<int>, done: seq<int>)
    requires Onward(syms, eob, max, pos, list, done) && pos < |syms| && !IsRun(syms[pos]) && 0 <= syms[pos] < eob
    ensures max - |done| <= 0 ==> Decode(Identity(256), syms, eob, max) == Corrupt
    ensures max - |done| > 0 ==> (1 <= syms[pos] - 1 < 256
      && Onward(syms, eob, max, pos + 1, ToFront(list, syms[pos] - 1), done + [list[syms[pos] - 1]]))
  {
    hide Identity, ToFront;
    var rest := syms[pos..];
    assert rest[1..] == syms[pos + 1..];
    if max - |done| > 0 {
      var j := rest[0] - 1;
      PrependTwice(done, [list[j]], Decode(ToFront(list, j), rest[1..], eob, max - |done| - 1));
    }
  }

  lemma OnwardEnd(syms: seq<int>, eob: int, max: int, pos: nat, list: seq<int>, done: seq<int>)
    requires Onward(syms, eob, max, pos, list, done)
    ensures pos == |syms| ==> Decode(Identity(256), syms, eob, max) == Starved
    ensures pos < |syms| && syms[pos] == eob ==> Decode(Identity(256), syms, eob, max) == Done(done)
  {
    hide Identity;
    assert done + [] == done;
  }

  // Entries of the list stay below 256.
  ghost predicate Small(list: seq<int>) {
    |list| == 256 && forall i :: 0 <= i < 256 ==> 0 <= list[i] < 256
  }

  lemma SmallToFront(list: seq<int>, j: nat)
    requires Small(list) && j < 256
    ensures Small(ToFront(list, j)) && 0 <= list[j] < 256
  {
  }

  // How the outcome of the loop is reported.
  ghost predicate Reports(st: Status, nblock: nat, r: Result) {
    match r
    case Done(s) => st == Ok && nblock == |s|
    case Corrupt => st == DataError
    case Starved => st == NeedInput
  }

  // seqToUnseq, as far as it is set, gives bytes; syms are below the alphabet size.
  method DecodeValues(syms: seq<int>, mtfa: array<int>, mtfbase: array<int>, seqToUnseq: array<int>, tt: array<nat>,
                      unzftab: array<int>, nInUse: nat, nblockMAX: nat)
    returns (st: Status, nblock: nat)
    requires mtfa != mtfbase && mtfa != seqToUnseq && mtfa as object != tt && mtfa != unzftab && mtfbase != seqToUnseq
    requires mtfbase as object != tt && mtfbase != unzftab && seqToUnseq as object != tt && seqToUnseq != unzftab
      && tt as object != unzftab
    requires mtfa.Length == MTFA_SIZE && mtfbase.Length == SEGMENTS && seqToUnseq.Length == 256 && unzftab.Length == 256
    requires 1 <= nInUse <= 256 && nblockMAX <= tt.Length
    requires forall r :: 0 <= r < 256 ==> 0 <= seqToUnseq[r] < 256
    requires forall i :: 0 <= i < |syms| ==> 0 <= syms[i] <= nInUse + 1
    modifies mtfa, mtfbase, tt, unzftab
    ensures Reports(st, nblock, Decode(Identity(256), syms, nInUse + 1, nblockMAX))
      && (st == Ok ==> nblock <= nblockMAX)
    ensures st == Ok ==> Written(tt[..], unzftab[..], Decode(Identity(256), syms, nInUse + 1, nblockMAX).s,
      seqToUnseq[..])
    ensures st == Ok ==> forall i :: nblock <= i < tt.Length ==> tt[i] == old(tt[i])
  {
    hide Decode, Identity, Onward, Written, Table, Times, RunPrefix, RunLength, ToFront, Small, Copies;
    var eob := nInUse + 1;
    var pos: nat := 0;
    nblock := 0;
    ghost var list, done, to := Identity(256), [], seqToUnseq[..];
    ClearCounts(unzftab, tt[..], to);
    InitTable(mtfa, mtfbase);
    OnwardStart(syms, eob, nblockMAX);
    SmallStart();
    while true
      invariant pos <= |syms| && nblock == |done| <= nblockMAX && Onward(syms, eob, nblockMAX, pos, list, done)
      invariant Table(mtfa[..], mtfbase[..], list) && Small(list) && seqToUnseq[..] == to
      invariant Written(tt[..], unzftab[..], done, to)
      invariant forall i :: nblock <= i < tt.Length ==> tt[i] == old(tt[i])
      decreases |syms| - pos
    {
      OnwardEnd(syms, eob, nblockMAX, pos, list, done);
      if pos == |syms| { return NeedInput, nblock; }
      var nextSym := syms[pos];
      if nextSym == eob { break; }
      if IsRun(nextSym) {
        ghost var k := RunPrefix(syms[pos..]);
        OnwardRun(syms, eob, nblockMAX, pos, list, done, k);
        var es;
        var next;
        st, next, es := ReadRun(syms, pos);
        if st != Ok { return st, nblock; }
        var front := Front(mtfa, mtfbase, list);
        SmallAt(list, 0);
        var uc := seqToUnseq[front];
        ghost var t0, c0 := tt[..], unzftab[..];
        unzftab[uc] := unzftab[uc] + es;
        st, nblock := WriteRun(tt, nblock, es, uc, nblockMAX);
        if st != Ok { return st, nblock; }
        WrittenMore(t0, c0, done, to, front, es, tt[..]);
        assert unzftab[..] == c0[to[front] := c0[to[front]] + es];
        done := done + Copies(front, es);
        pos := next;
      } else {
        OnwardOne(syms, eob, nblockMAX, pos, list, done);
        if nblock >= nblockMAX { return DataError, nblock; }
        var nn := nextSym - 1;
        SmallToFront(list, nn);
        var uc := MoveToFront(mtfa, mtfbase, nn, list);
        ghost var t0, c0 := tt[..], unzftab[..];
        unzftab[seqToUnseq[uc]] := unzftab[seqToUnseq[uc]] + 1;
        tt[nblock] := seqToUnseq[uc];
        WrittenMore(t0, c0, done, to, uc, 1, tt[..]);
        assert unzftab[..] == c0[to[uc] := c0[to[uc]] + 1];
        OneCopy(uc);
        nblock := nblock + 1;
        done := done + [uc];
        list := ToFront(list, nn);
        pos := pos + 1;
      }
    }
    st := Ok;
  }

  lemma OneCopy(x: int)
    ensures Copies(x, 1) == [x]
  {
  }

  lemma SmallAt(list: seq<int>, i: nat)
    requires Small(list) && i < 256
    ensures |list| == 256 && 0 <= list[i] < 256
  {
  }

  lemma SmallStart()
    ensures Small(Identity(256))
  {
  }

  method ClearCounts(unzftab: array<int>, ghost tt: seq<int>, ghost to: seq<int>)
    requires unzftab.Length == 256
    modifies unzftab
    ensures Written(tt, unzftab[..], [], to)
  {
    for i := 0 to 256
      invariant forall c :: 0 <= c < i ==> unzftab[c] == 0
    {
      unzftab[i] := 0;
    }
  }
}
