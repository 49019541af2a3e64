// Rearranging a stretch of a sequence.
module Rearranging {

  // t rearranges s within [lo..hi] and leaves the rest alone.
  ghost predicate PermRange(s: seq<int>, t: seq<int>, lo: int, hi: int) {
    && |s| == |t| && 0 <= lo && hi < |s|
    && multiset(s) == multiset(t)
    && forall i :: 0 <= i < |s| && !(lo <= i <= hi) ==> s[i] == t[i]
  }

  lemma PermTrans(s: seq<int>, t: seq<int>, u: seq<int>, lo: int, hi: int)
    requires PermRange(s, t, lo, hi) && PermRange(t, u, lo, hi)
    ensures PermRange(s, u, lo, hi)
  {
  }

  lemma PermWider(s: seq<int>, t: seq<int>, lo: int, hi: int, lo': int, hi': int)
    requires PermRange(s, t, lo, hi) && 0 <= lo' <= lo && hi <= hi' < |s|
    ensures PermRange(s, t, lo', hi')
  {
  }

  lemma SwapPerm(s: seq<int>, i: int, j: int, lo: int, hi: int)
    requires 0 <= lo <= i <= hi < |s| && lo <= j <= hi
    ensures PermRange(s, s[i := s[j]][j := s[i]], lo, hi)
  {
  }

  lemma MultisetCancel(a: multiset<int>, b: multiset<int>, b': multiset<int>, c: multiset<int>)
    requires a + b + c == a + b' + c
    ensures b == b'
  {
    forall x: int ensures b[x] == b'[x] {
      assert (a + b + c)[x] == a[x] + b[x] + c[x];
      assert (a + b' + c)[x] == a[x] + b'[x] + c[x];
    }
  }

  lemma SliceMultiset(s: seq<int>, lo: int, hi: int)
    requires 0 <= lo <= hi < |s|
    ensures multiset(s) == multiset(s[..lo]) + multiset(s[lo..hi + 1]) + multiset(s[hi + 1..])
  {
    assert s == s[..lo] + s[lo..hi + 1] + s[hi + 1..];
  }

  lemma PermSlice(s: seq<int>, t: seq<int>, lo: int, hi: int)
    requires PermRange(s, t, lo, hi) && lo <= hi
    ensures multiset(s[lo..hi + 1]) == multiset(t[lo..hi + 1])
  {
    SliceMultiset(s, lo, hi);
    SliceMultiset(t, lo, hi);
    assert s[..lo] == t[..lo] && s[hi + 1..] == t[hi + 1..];
    MultisetCancel(multiset(s[..lo]), multiset(s[lo..hi + 1]), multiset(t[lo..hi + 1]), multiset(s[hi + 1..]));
  }

  // Values inside the range after a rearrangement were inside it before.
  lemma PermSource(s: seq<int>, t: seq<int>, lo: int, hi: int, p: int) returns (q: int)
    requires PermRange(s, t, lo, hi) && lo <= p <= hi
    ensures lo <= q <= hi && s[q] == t[p]
  {
    PermSlice(s, t, lo, hi);
    q := FindIn(s[lo..hi + 1], t[lo..hi + 1], p - lo);
    q := q + lo;
  }

  lemma FindIn(b: seq<int>, c: seq<int>, i: int) returns (k: int)
    requires multiset(b) == multiset(c) && 0 <= i < |c|
    ensures 0 <= k < |b| && b[k] == c[i]
  {
    assert c[i] in multiset(c);
    assert c[i] in b;
    k :| 0 <= k < |b| && b[k] == c[i];
  }

  lemma PermRefl(s: seq<int>, lo: int, hi: int)
    requires 0 <= lo && hi < |s|
    ensures PermRange(s, s, lo, hi)
  {
  }

  lemma PermSym(s: seq<int>, t: seq<int>, lo: int, hi: int)
    requires PermRange(s, t, lo, hi)
    ensures PermRange(t, s, lo, hi)
  {
  }

  lemma SameLength(s: seq<int>, t: seq<int>, lo: int, hi: int)
    requires PermRange(s, t, lo, hi)
    ensures |s| == |t|
  {
  }

  lemma TwiceIn(s: seq<int>, x: int, y: int)
    requires 0 <= x < y < |s| && s[x] == s[y]
    ensures multiset(s)[s[x]] >= 2
  {
    var v := s[x];
    assert s == s[..y] + s[y..];
    assert s[..y][x] == v && s[y..][0] == v;
    assert v in multiset(s[..y]) && v in multiset(s[y..]);
    assert multiset(s) == multiset(s[..y]) + multiset(s[y..]);
  }

  lemma {:induction false} OnceIn(s: seq<int>, v: int)
    requires forall i, j :: 0 <= i < j < |s| ==> s[i] != s[j]
    ensures multiset(s)[v] <= 1
  {
    if s != [] {
      var t := s[..|s| - 1];
      OnceIn(t, v);
      assert s == t + [s[|s| - 1]];
      assert s[|s| - 1] !in t;
    }
  }

  // Distinct entries stay distinct.
  lemma PermDistinct(s: seq<int>, t: seq<int>, lo: int, hi: int)
    requires PermRange(s, t, lo, hi) && lo <= hi && forall i, j :: lo <= i < j <= hi ==> s[i] != s[j]
    ensures forall i, j :: lo <= i < j <= hi ==> t[i] != t[j]
  {
    PermSlice(s, t, lo, hi);
    var b, c := s[lo..hi + 1], t[lo..hi + 1];
    forall i, j | lo <= i < j <= hi ensures t[i] != t[j] {
      if t[i] == t[j] {
        TwiceIn(c, i - lo, j - lo);
        OnceIn(b, t[i]);
      }
    }
  }
}
