// The gapped insertion sort of the main sort (dep/bzip2/blocksort.c, mainSimpleSort), given up
// as soon as the budget for comparisons is used up.
module BzMainSimple {
  import opened ByteType
  import opened BzRotation
  import opened Rearranging
  import opened BzQSort3
  import opened BzMainCompare

  // ----- Rotations that begin alike -----

  // The entries of [lo..hi] are different rotations that agree on their first d bytes.
  ghost predicate Alike(b: seq<Byte>, s: seq<int>, lo: int, hi: int, d: nat)
    requires b != []
  {
    0 <= lo && hi < |s| && (forall p, q :: lo <= p <= hi && lo <= q <= hi ==> Agree(b, s[p], s[q], d))
      && Different(s, lo, hi)
  }

  ghost predicate Different(s: seq<int>, lo: int, hi: int)
    requires 0 <= lo && hi < |s|
  {
    forall p, q :: lo <= p < q <= hi ==> s[p] != s[q]
  }

  ghost predicate Agree(b: seq<Byte>, x: int, y: int, d: nat)
    requires b != []
  {
    0 <= x < |b| && 0 <= y < |b| && EqUpTo(b, x, y, d)
  }

  lemma AlikePerm(b: seq<Byte>, s: seq<int>, t: seq<int>, lo: int, hi: int, d: nat)
    requires b != [] && PermRange(s, t, lo, hi) && Alike(b, s, lo, hi, d)
    ensures Alike(b, t, lo, hi, d)
  {
    hide PermRange, Agree;
    SameLength(s, t, lo, hi);
    if lo <= hi { PermDistinct(s, t, lo, hi); }
    forall p, q | lo <= p <= hi && lo <= q <= hi ensures Agree(b, t[p], t[q], d) {
      var p' := PermSource(s, t, lo, hi, p);
      var q' := PermSource(s, t, lo, hi, q);
      assert Agree(b, s[p'], s[q'], d);
    }
  }

  lemma AlikeKeyed(b: seq<Byte>, s: seq<int>, lo: int, hi: int, d: nat)
    requires b != [] && Alike(b, s, lo, hi, d)
    ensures Keyed(s, Places(b), 0, lo, hi)
  {
    forall p | lo <= p <= hi ensures 0 <= s[p] < |b| { assert Agree(b, s[p], s[p], d); }
  }

  lemma AlikeAt(b: seq<Byte>, s: seq<int>, lo: int, hi: int, d: nat, p: int, q: int)
    requires b != [] && Alike(b, s, lo, hi, d) && lo <= p <= hi && lo <= q <= hi
    ensures 0 <= lo && hi < |s| && Agree(b, s[p], s[q], d) && (p != q ==> s[p] != s[q])
  {
    hide Agree;
  }

  // Nothing of the budget is used up, or different rotations agree on twenty bytes.
  ghost predicate Thrifty(b: seq<Byte>, budget0: int, budget: int)
    requires b != []
  {
    budget <= budget0 && (budget < budget0 ==> Repetitive(b))
  }

  lemma SpentThrifty(b: seq<Byte>, quad: seq<int>, x: int, y: int, d: nat, budget0: int, before: int, budget: int)
    requires 0 < |b| <= |quad| && Agree(b, x, y, d) && x != y && Spent(b, quad, x + d, y + d, before - budget)
    requires Thrifty(b, budget0, before)
    ensures Thrifty(b, budget0, budget)
  {
    hide EqUpTo, Repetitive;
    if budget < before { SpentRepeats(b, quad, x, y, d, before - budget); }
  }

  // An answer about what follows the common bytes is an answer about the rotations.
  lemma AnswerPlaces(b: seq<Byte>, x: int, y: int, d: nat, gt: bool)
    requires b != [] && Agree(b, x, y, d) && Answers(b, x + d, y + d, gt)
    ensures gt ==> Place(b, y) <= Place(b, x)
    ensures !gt ==> Place(b, x) <= Place(b, y)
    ensures Key(Places(b), 0, x) == Place(b, x) && Key(Places(b), 0, y) == Place(b, y)
  {
    hide Leq, EqUpTo, Place;
    PlaceOrder(b, x, y);
    PlaceOrder(b, y, x);
    if gt {
      EqSym(b, x, y, d);
      RestDecides(b, y, x, d);
    } else {
      RestDecides(b, x, y, d);
    }
  }

  // ----- One insertion -----

  // The entries of [lo..hi] stand in order.
  ghost predicate InOrder(s: seq<int>, ec: seq<int>, lo: int, hi: int) {
    Keyed(s, ec, 0, lo, hi) && forall p, q :: lo <= p < q <= hi ==> Key(ec, 0, s[p]) <= Key(ec, 0, s[q])
  }

  // f is s with a hole at j, left by v: what v has passed stands one gap further right.
  ghost predicate Gap(s: seq<int>, f: seq<int>, lo: int, i: int, j: int, h: int, v: int) {
    && |f| == |s| && 0 <= lo <= j <= i < |s|
    && PermRange(s, f[j := v], lo, i)
    && (forall k :: lo <= k < j ==> f[k] == s[k])
    && (h == 1 ==> forall k :: j < k <= i ==> f[k] == s[k - 1])
  }

  lemma GapStart(s: seq<int>, lo: int, i: int, h: int)
    requires 0 <= lo <= i < |s|
    ensures Gap(s, s, lo, i, i, h, s[i])
  {
    assert s[i := s[i]] == s;
    PermRefl(s, lo, i);
  }

  lemma GapStep(s: seq<int>, f: seq<int>, lo: int, i: int, j: int, h: int, v: int)
    requires Gap(s, f, lo, i, j, h, v) && 0 < h && lo <= j - h
    ensures f[j - h] == s[j - h] && Gap(s, f[j := f[j - h]], lo, i, j - h, h, v)
  {
    hide PermRange;
    var t, g := f[j := v], f[j := f[j - h]];
    SwapPerm(t, j - h, j, lo, i);
    assert g[j - h := v] == t[j - h := t[j]][j := t[j - h]];
    PermTrans(s, t, g[j - h := v], lo, i);
  }

  // The entries passed by v come after it.
  ghost predicate Passed(s: seq<int>, ec: seq<int>, j: int, i: int, v: int) {
    && 0 <= v < |ec| && 0 <= j && i <= |s|
    && forall k :: j <= k < i ==> 0 <= s[k] < |ec| && Key(ec, 0, v) <= Key(ec, 0, s[k])
  }

  lemma GapOrder(s: seq<int>, f: seq<int>, ec: seq<int>, lo: int, i: int, j: int, v: int)
    requires Gap(s, f, lo, i, j, 1, v) && InOrder(s, ec, lo, i - 1) && Passed(s, ec, j, i, v)
    requires j > lo ==> Key(ec, 0, s[j - 1]) <= Key(ec, 0, v)
    ensures InOrder(f[j := v], ec, lo, i)
  {
    hide PermRange, Key;
    var t := f[j := v];
    forall k | lo <= k <= i ensures t[k] == (if k < j then s[k] else if k == j then v else s[k - 1]) {}
  }

  lemma PassedMore(s: seq<int>, ec: seq<int>, j: int, i: int, v: int)
    requires Passed(s, ec, j, i, v) && 0 < j <= i && 0 <= s[j - 1] < |ec| && Key(ec, 0, v) <= Key(ec, 0, s[j - 1])
    ensures Passed(s, ec, j - 1, i, v)
  {
    hide Key;
  }

  // ptr[i] moves left in steps of h past the entries that are not known to come first.
  method InsertBack(ptr: array<int>, block: array<Byte>, quadrant: array<int>, lo: int, i: int, h: int, d: nat,
                    budget0: int, ghost b: seq<Byte>)
    returns (budget: int)
    requires ptr != quadrant && Ready(b, block[..], quadrant[..]) && 0 < h && lo + h <= i && d <= 15
    requires Alike(b, ptr[..], lo, i, d)
    modifies ptr
    ensures PermRange(old(ptr[..]), ptr[..], lo, i)
    ensures h == 1 && InOrder(old(ptr[..]), Places(b), lo, i - 1) ==> InOrder(ptr[..], Places(b), lo, i)
    ensures Thrifty(b, budget0, budget)
  {
    hide PermRange, Ready, Agree, Places, Key, Gap, Passed, InOrder, Answers, Alike, Spent, Repetitive;
    ReadyLength(b, block[..], quadrant[..]);
    budget := budget0;
    ghost var s, ec := ptr[..], Places(b);
    AlikeAt(b, s, lo, i, d, i, i);
    var v := ptr[i];
    var j := i;
    GapStart(s, lo, i, h);
    PassedNothing(b, s, lo, i, d);
    ghost var stopped := false;
    while true
      invariant lo <= j - h && j <= i && Gap(s, ptr[..], lo, i, j, h, v) && Thrifty(b, budget0, budget)
      invariant h == 1 ==> Passed(s, ec, j, i, v)
      decreases j
    {
      GapStep(s, ptr[..], lo, i, j, h, v);
      AlikeAt(b, s, lo, i, d, j - h, i);
      AgreeRange(b, s[j - h], v, d);
      var gt;
      ghost var left := budget;
      gt, budget := GtU(ptr[j - h] + d, v + d, block, quadrant, budget, b);
      SpentThrifty(b, quadrant[..], s[j - h], v, d, budget0, left, budget);
      AnswerPlaces(b, s[j - h], v, d, gt);
      if !gt { stopped := true; break; }
      if h == 1 { PassedMore(s, ec, j, i, v); }
      ghost var f := ptr[..];
      ptr[j] := ptr[j - h];
      assert ptr[..] == f[j := f[j - h]];
      j := j - h;
      if j <= lo + h - 1 { break; }
    }
    if h == 1 && InOrder(s, ec, lo, i - 1) { GapOrder(s, ptr[..], ec, lo, i, j, v); }
    GapPerm(s, ptr[..], lo, i, j, h, v);
    ghost var f := ptr[..];
    ptr[j] := v;
    assert ptr[..] == f[j := v];
  }

  lemma GapPerm(s: seq<int>, f: seq<int>, lo: int, i: int, j: int, h: int, v: int)
    requires Gap(s, f, lo, i, j, h, v)
    ensures |f| == |s| && 0 <= j < |s| && PermRange(s, f[j := v], lo, i)
  {
  }

  lemma AgreeRange(b: seq<Byte>, x: int, y: int, d: nat)
    requires b != [] && Agree(b, x, y, d)
    ensures 0 <= x < |b| && 0 <= y < |b|
  {
  }

  lemma PassedNothing(b: seq<Byte>, s: seq<int>, lo: int, i: int, d: nat)
    requires b != [] && Alike(b, s, lo, i, d) && lo <= i
    ensures 0 <= s[i] < |b| && Passed(s, Places(b), i, i, s[i])
  {
    AlikeAt(b, s, lo, i, d, i, i);
  }

  // ----- The sort -----

  const INCS := [1, 4, 13, 40, 121, 364, 1093, 3280, 9841, 29524, 88573, 265720, 797161, 2391484]

  // If the budget lasts, the entries end in order; they are never lost.
  method SimpleSort(ptr: array<int>, block: array<Byte>, quadrant: array<int>, lo: int, hi: int, d: nat, budget0: int,
                    ghost b: seq<Byte>)
    returns (budget: int)
    requires ptr != quadrant && Ready(b, block[..], quadrant[..]) && d <= 15 && Alike(b, ptr[..], lo, hi, d)
    requires hi - lo < 2391484
    modifies ptr
    ensures PermRange(old(ptr[..]), ptr[..], lo, hi)
    ensures budget >= 0 ==> InOrder(ptr[..], Places(b), lo, hi)
    ensures Thrifty(b, budget0, budget)
  {
    hide PermRange, Ready, Alike, Places, Key, InOrder, Repetitive;
    ReadyLength(b, block[..], quadrant[..]);
    ghost var s := ptr[..];
    AlikeBounds(b, s, lo, hi, d);
    PermRefl(s, lo, hi);
    budget := budget0;
    var bigN := hi - lo + 1;
    if bigN < 2 {
      ShortOrder(b, s, lo, hi, d);
      return;
    }
    var hp: int := 0;
    while INCS[hp] < bigN
      invariant 0 <= hp < 14 && (hp == 0 || INCS[hp - 1] < bigN)
      decreases 14 - hp
    {
      hp := hp + 1;
    }
    hp := hp - 1;
    while hp >= 0
      invariant -1 <= hp < 13 && (hp >= 0 ==> INCS[hp] < bigN)
      invariant PermRange(s, ptr[..], lo, hi) && Thrifty(b, budget0, budget)
      invariant hp < 0 ==> InOrder(ptr[..], Places(b), lo, hi)
    {
      var ok;
      ok, budget := OnePass(ptr, block, quadrant, lo, hi, INCS[hp], d, budget, b, s);
      if !ok { return; }
      hp := hp - 1;
    }
  }

  // One gap; with gap one the entries end in order. The budget is looked at after every third
  // insertion.
  method OnePass(ptr: array<int>, block: array<Byte>, quadrant: array<int>, lo: int, hi: int, h: int, d: nat,
                 budget0: int,
                 ghost b: seq<Byte>, ghost s: seq<int>)
    returns (ok: bool, budget: int)
    requires ptr != quadrant && Ready(b, block[..], quadrant[..]) && d <= 15 && Alike(b, s, lo, hi, d)
    requires 0 < h <= hi - lo && PermRange(s, ptr[..], lo, hi)
    modifies ptr
    ensures PermRange(s, ptr[..], lo, hi) && Thrifty(b, budget0, budget)
    ensures ok && h == 1 ==> InOrder(ptr[..], Places(b), lo, hi)
    ensures !ok ==> budget < 0
  {
    hide PermRange, Ready, Alike, Places, Key, InOrder, Repetitive;
    ReadyLength(b, block[..], quadrant[..]);
    SameLength(s, ptr[..], lo, hi);
    AlikeBounds(b, s, lo, hi, d);
    AlikePerm(b, s, ptr[..], lo, hi, d);
    budget := budget0;
    var i := lo + h;
    OneInOrder(b, ptr[..], lo, hi, d);
    var turn := 0;
    while i <= hi
      invariant lo + h <= i <= hi + 1 && PermRange(s, ptr[..], lo, hi) && Thrifty(b, budget0, budget)
      invariant h == 1 ==> InOrder(ptr[..], Places(b), lo, i - 1)
    {
      ghost var t := ptr[..];
      AlikePerm(b, s, t, lo, hi, d);
      AlikePart(b, t, lo, hi, i, d);
      budget := InsertBack(ptr, block, quadrant, lo, i, h, d, budget, b);
      PermWider(t, ptr[..], lo, i, lo, hi) by { SameLength(s, t, lo, hi); }
      PermTrans(s, t, ptr[..], lo, hi);
      i := i + 1;
      turn := turn + 1;
      if turn == 3 {
        if budget < 0 { return false, budget; }
        turn := 0;
      }
    }
    ok := true;
  }

  lemma AlikeBounds(b: seq<Byte>, s: seq<int>, lo: int, hi: int, d: nat)
    requires b != [] && Alike(b, s, lo, hi, d)
    ensures 0 <= lo && hi < |s|
  {
  }

  lemma AlikePart(b: seq<Byte>, s: seq<int>, lo: int, hi: int, i: int, d: nat)
    requires b != [] && Alike(b, s, lo, hi, d) && i <= hi
    ensures Alike(b, s, lo, i, d)
  {
    hide Agree;
  }

  lemma ShortOrder(b: seq<Byte>, s: seq<int>, lo: int, hi: int, d: nat)
    requires b != [] && Alike(b, s, lo, hi, d) && hi <= lo
    ensures InOrder(s, Places(b), lo, hi)
  {
    hide Places;
    AlikeKeyed(b, s, lo, hi, d);
  }

  lemma OneInOrder(b: seq<Byte>, s: seq<int>, lo: int, hi: int, d: nat)
    requires b != [] && Alike(b, s, lo, hi, d) && lo <= hi
    ensures InOrder(s, Places(b), lo, lo)
  {
    AlikePart(b, s, lo, hi, lo, d);
    ShortOrder(b, s, lo, lo, d);
  }
}
