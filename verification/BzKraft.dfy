// The Kraft sum, and what no code of a given sum can undercut: lengths that fit can always be
// rearranged, at no cost, so that the two lightest symbols are the two deepest.
module BzKraft {
  import opened Bits

  // A code word of length d takes 2^(l-d) of the 2^l words of length l.
  function Share(l: nat, d: int): nat {
    if 0 <= d <= l then Pow2(l - d) else 0
  }

  function Kraft(lens: seq<int>, l: nat): nat {
    if lens == [] then 0 else Kraft(lens[..|lens| - 1], l) + Share(l, lens[|lens| - 1])
  }

  // The weighted sum of the lengths; negative lengths stand for symbols that are not there.
  function Cost(v: seq<int>, lens: seq<int>): int
    requires |v| == |lens|
  {
    if lens == [] then 0
    else
      var n := |lens| - 1;
      Cost(v[..n], lens[..n]) + (if lens[n] >= 0 then v[n] * lens[n] else 0)
  }

  function Price(v: int, d: int): int {
    if d >= 0 then v * d else 0
  }

  lemma {:induction false} KraftUpdate(lens: seq<int>, l: nat, i: int, d: int)
    requires 0 <= i < |lens|
    ensures Kraft(lens[i := d], l) == Kraft(lens, l) - Share(l, lens[i]) + Share(l, d)
  {
    hide Share;
    var n := |lens| - 1;
    if i < n {
      KraftUpdate(lens[..n], l, i, d);
      assert lens[i := d][..n] == lens[..n][i := d];
    } else {
      assert lens[i := d][..n] == lens[..n];
    }
  }

  lemma {:induction false} CostUpdate(v: seq<int>, lens: seq<int>, i: int, d: int)
    requires 0 <= i < |lens| == |v|
    ensures Cost(v, lens[i := d]) == Cost(v, lens) - Price(v[i], lens[i]) + Price(v[i], d)
  {
    var n := |lens| - 1;
    if i < n {
      CostUpdate(v[..n], lens[..n], i, d);
      assert lens[i := d][..n] == lens[..n][i := d];
    } else {
      assert lens[i := d][..n] == lens[..n];
    }
  }

  // ----- The deepest two -----

  // Lengths of at most l that leave room for one another.
  ghost predicate Fit(lens: seq<int>, l: nat) {
    Kraft(lens, l) <= Pow2(l) && forall i :: 0 <= i < |lens| ==> lens[i] <= l
  }

  // The same symbols are there.
  ghost predicate SameThere(s: seq<int>, t: seq<int>) {
    |s| == |t| && forall i :: 0 <= i < |s| ==> (s[i] >= 0 <==> t[i] >= 0)
  }

  lemma {:induction false} KraftShorter(lens: seq<int>, l: nat)
    requires l >= 1 && forall i :: 0 <= i < |lens| ==> lens[i] < l
    ensures Kraft(lens, l) == 2 * Kraft(lens, l - 1)
  {
    if lens != [] {
      KraftShorter(lens[..|lens| - 1], l);
      ShareShorter(l, lens[|lens| - 1]);
    }
  }

  lemma ShareShorter(l: nat, d: int)
    requires l >= 1 && d < l
    ensures Share(l, d) == 2 * Share(l - 1, d)
  {
  }

  lemma ShareFacts(l: nat)
    ensures Share(l, l) == 1 && Share(l, -1) == 0 && (l >= 1 ==> Share(l, l - 1) == 2 && Pow2(l) == 2 * Pow2(l - 1))
  {
  }

  lemma {:induction false} KraftOfTwo(lens: seq<int>, x: int, y: int)
    requires 0 <= x < y < |lens| && lens[x] == 0 == lens[y]
    ensures Kraft(lens, 0) >= 2
  {
    hide Kraft;
    var none := lens[x := -1][y := -1];
    KraftUpdate(lens, 0, x, -1);
    KraftUpdate(lens[x := -1], 0, y, -1);
    ShareFacts(0);
  }

  // Lengths that fit for at least two symbols: at no greater cost two of them are the longest.
  lemma {:induction false} TwoDeepest(v: seq<int>, lens: seq<int>, l: nat, x0: int, y0: int)
    returns (lens': seq<int>, l': nat, x: int, y: int)
    requires |v| == |lens| && (forall i :: 0 <= i < |v| ==> v[i] >= 0) && Fit(lens, l)
    requires 0 <= x0 < |lens| && 0 <= y0 < |lens| && x0 != y0 && lens[x0] >= 0 && lens[y0] >= 0
    ensures Fit(lens', l') && SameThere(lens, lens') && Cost(v, lens') <= Cost(v, lens)
    ensures 0 <= x < |lens'| && 0 <= y < |lens'| && x != y && lens'[x] == lens'[y] == l' >= 1
    decreases l
  {
    hide Kraft, Cost, Share;
    ShareFacts(l);
    if z :| 0 <= z < |lens| && lens[z] == l {
      if u :| 0 <= u < |lens| && u != z && lens[u] == l {
        lens', l', x, y := lens, l, z, u;
        if l == 0 { KraftOfTwo(lens, if z < u then z else u, if z < u then u else z); }
      } else {
        var o := if x0 == z then y0 else x0;
        assert 0 <= lens[o] < l;
        var less := lens[z := l - 1];
        OneShorter(v, lens, l, z);
        lens', l', x, y := TwoDeepest(v, less, l - 1, x0, y0);
      }
    } else {
      assert 0 <= lens[x0] < l;
      KraftShorter(lens, l);
      lens', l', x, y := TwoDeepest(v, lens, l - 1, x0, y0);
    }
  }

  // A single longest length can be one shorter: the sum of the others is even.
  lemma OneShorter(v: seq<int>, lens: seq<int>, l: nat, z: int)
    requires |v| == |lens| && Fit(lens, l) && l >= 1 && 0 <= z < |lens| && lens[z] == l && v[z] >= 0
    requires forall i :: 0 <= i < |lens| && i != z ==> lens[i] < l
    ensures Fit(lens[z := l - 1], l - 1) && Cost(v, lens[z := l - 1]) <= Cost(v, lens)
  {
    hide Kraft, Cost, Share;
    var less := lens[z := l - 1];
    ShareFacts(l);
    KraftUpdate(lens, l, z, -1);
    KraftUpdate(lens, l, z, l - 1);
    KraftShorter(lens[z := -1], l);
    KraftShorter(less, l);
    CostUpdate(v, lens, z, l - 1);
    assert v[z] * (l - 1) <= v[z] * l;
  }

  // ----- Exchanging lengths -----

  function Swapped(lens: seq<int>, i: int, j: int): seq<int>
    requires 0 <= i < |lens| && 0 <= j < |lens|
  {
    lens[i := lens[j]][j := lens[i]]
  }

  // The lighter symbol takes the longer length.
  lemma SwapFits(v: seq<int>, lens: seq<int>, l: nat, i: int, j: int)
    requires |v| == |lens| && Fit(lens, l) && 0 <= i < |lens| && 0 <= j < |lens| && i != j
    requires 0 <= lens[i] <= lens[j] && v[i] <= v[j]
    ensures Fit(Swapped(lens, i, j), l) && SameThere(lens, Swapped(lens, i, j))
    ensures Cost(v, Swapped(lens, i, j)) <= Cost(v, lens)
  {
    hide Kraft, Cost, Share;
    var mid := lens[i := lens[j]];
    KraftUpdate(lens, l, i, lens[j]);
    KraftUpdate(mid, l, j, lens[i]);
    CostUpdate(v, lens, i, lens[j]);
    CostUpdate(v, mid, j, lens[i]);
    Exchange(v[i], v[j], lens[i], lens[j]);
  }

  lemma Exchange(a: int, b: int, x: int, y: int)
    requires a <= b && x <= y
    ensures a * y + b * x <= a * x + b * y
  {
    assert (b - a) * (y - x) >= 0;
    assert (b - a) * (y - x) == b * y - b * x - a * y + a * x;
  }

  // No symbol but a is lighter than b, and none is lighter than a.
  ghost predicate LightestTwo(v: seq<int>, lens: seq<int>, a: int, b: int) {
    && |v| == |lens| && 0 <= a < |lens| && 0 <= b < |lens| && a != b && lens[a] >= 0 && lens[b] >= 0
    && (forall i :: 0 <= i < |lens| && lens[i] >= 0 ==> v[a] <= v[i])
    && (forall i :: 0 <= i < |lens| && lens[i] >= 0 && i != a ==> v[b] <= v[i])
  }

  lemma LightestSame(v: seq<int>, lens: seq<int>, lens': seq<int>, a: int, b: int)
    requires LightestTwo(v, lens, a, b) && SameThere(lens, lens')
    ensures LightestTwo(v, lens', a, b)
  {
  }

  // The two lightest take the two longest lengths.
  lemma LightestDeepest(v: seq<int>, lens: seq<int>, l: nat, a: int, b: int, x: int, y: int) returns (lens': seq<int>)
    requires LightestTwo(v, lens, a, b) && Fit(lens, l)
    requires 0 <= x < |lens| && 0 <= y < |lens| && x != y && lens[x] == lens[y] == l
    ensures Fit(lens', l) && SameThere(lens, lens') && Cost(v, lens') <= Cost(v, lens)
    ensures lens'[a] == lens'[b] == l
  {
    hide Kraft, Cost, Share;
    lens' := lens;
    var o := if a == x then y else x;
    if lens[a] < l {
      var z := if x == b then y else x;
      o := if x == b then x else y;
      SwapFits(v, lens, l, a, z);
      lens' := Swapped(lens, a, z);
      LightestSame(v, lens, lens', a, b);
    } else if a != x {
      o := x;
    }
    if lens'[b] < l {
      SwapFits(v, lens', l, b, o);
      lens' := Swapped(lens', b, o);
    }
  }

  // Two of the longest lengths give way to one that is shorter by one; the sum is the same.
  lemma MergeFits(v: seq<int>, lens: seq<int>, l: nat, a: int, b: int, k: int)
    requires |v| == |lens| && Fit(lens, l) && l >= 1 && 0 <= a < |lens| && 0 <= b < |lens| && a != b
    requires lens[a] == lens[b] == l && 0 <= k < |lens| && lens[k] < 0 && v[k] == v[a] + v[b]
    ensures var lens' := lens[a := -1][b := -1][k := l - 1];
      Fit(lens', l) && Cost(v, lens') == Cost(v, lens) - v[k]
  {
    hide Kraft, Cost, Share;
    ShareFacts(l);
    var s, t := lens[a := -1], lens[a := -1][b := -1];
    KraftUpdate(lens, l, a, -1);
    KraftUpdate(s, l, b, -1);
    KraftUpdate(t, l, k, l - 1);
    ShareNegative(l, lens[k]);
    CostUpdate(v, lens, a, -1);
    CostUpdate(v, s, b, -1);
    CostUpdate(v, t, k, l - 1);
    assert (v[a] + v[b]) * (l - 1) == v[a] * l + v[b] * l - v[k];
  }

  lemma ShareNegative(l: nat, d: int)
    requires d < 0
    ensures Share(l, d) == 0
  {
  }
}
