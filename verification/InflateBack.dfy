// Output through the circular window of inflateBack (dep/zlib/infback.c): ROOM, the distance
// check and the match copy, against a byte-by-byte copy in the unbounded output.
module InflateBack {
  import opened ByteType
  import opened DeflateTokens

  // Where the byte k places back lies, put being the place of the next one.
  function Cell(put: int, k: int, wsize: int): int {
    if k <= put then put - k else put - k + wsize
  }

  // The window holds the last wsize bytes of the output, or all of it.
  ghost predicate Circular(win: seq<Byte>, put: int, out: seq<Byte>) {
    && 0 <= put <= |win|
    && (forall k :: 1 <= k <= |out| && k <= |win| ==> win[Cell(put, k, |win|)] == out[|out| - k])
  }

  lemma CircularAt(win: seq<Byte>, put: int, out: seq<Byte>, k: int)
    requires Circular(win, put, out) && 1 <= k <= |out| && k <= |win|
    ensures 0 <= Cell(put, k, |win|) < |win| && win[Cell(put, k, |win|)] == out[|out| - k]
  {
  }

  // One byte more.
  lemma CircularNext(win: seq<Byte>, put: int, out: seq<Byte>, b: Byte)
    requires Circular(win, put, out) && put < |win|
    ensures Circular(win[put := b], put + 1, out + [b])
  {
    var v, o, next := win[put := b], out + [b], put + 1;
    forall k | 1 <= k <= |o| && k <= |v| ensures v[Cell(next, k, |v|)] == o[|o| - k] {
      if k > 1 { CircularAt(win, put, out, k - 1); }
    }
  }

  // A full window starts again at its beginning.
  lemma CircularWrap(win: seq<Byte>, out: seq<Byte>)
    requires Circular(win, |win|, out)
    ensures Circular(win, 0, out)
  {
    forall k | 1 <= k <= |out| && k <= |win| ensures win[Cell(0, k, |win|)] == out[|out| - k] {
      CircularAt(win, |win|, out, k);
    }
  }

  lemma {:induction false} CopyMore(out: seq<Byte>, n: nat, dist: int)
    requires 1 <= dist <= |out|
    ensures Copy(out, n + 1, dist) == Copy(out, n, dist) + [Copy(out, n, dist)[|Copy(out, n, dist)| - dist]]
  {
  }

  datatype Status = Fine | DataError | BufError | StreamEnd

  class Inflater {
    const wsize: nat
    const window: array<Byte>
    var put: nat
    var left: nat
    var whave: nat
    ghost var written: seq<Byte>
    ghost var out: seq<Byte>

    // written has been handed over; out is everything produced.
    ghost predicate Valid()
      reads this, window
    {
      && wsize >= 1 && window.Length == wsize && put + left == wsize && whave <= wsize
      && Circular(window[..], put, out) && |out| == |written| + put
      && out == written + window[..put]
      && (whave < wsize ==> written == []) && (whave == wsize ==> |out| >= wsize)
    }

    constructor (w: nat)
      requires w >= 1
      ensures Valid() && fresh(window) && out == [] && written == [] && wsize == w
    {
      wsize := w;
      window := new Byte[w](_ => 0);
      put, left, whave := 0, w, 0;
      written, out := [], [];
    }

    // ROOM: write the window out if it is full; the caller's function may fail.
    method Room() returns (st: Status)
      requires Valid()
      modifies this`put, this`left, this`whave, this`written
      ensures Valid() && (st == Fine || st == BufError) && (st == Fine ==> left > 0)
      ensures old(left) > 0 ==> st == Fine && put == old(put) && left == old(left)
    {
      hide Circular;
      st := Fine;
      if left == 0 {
        assert window[..put] == window[..];
        CircularWrap(window[..], out);
        written := out;
        put := 0;
        left := wsize;
        whave := left;
        assert out == written + window[..0];
        var failed: bool := *;
        if failed { st := BufError; }
      }
    }

    // *put++ = b; left--.
    method Put(b: Byte)
      requires Valid() && left > 0
      modifies this`put, this`left, this`out, window
      ensures Valid() && out == old(out) + [b] && put == old(put) + 1
    {
      hide Circular, Cell;
      ghost var win := window[..];
      CircularNext(win, put, out, b);
      window[put] := b;
      assert window[..] == win[put := b] && window[..put + 1] == win[..put] + [b];
      put := put + 1;
      left := left - 1;
      out := out + [b];
    }

    // A literal.
    method Literal(b: Byte) returns (st: Status)
      requires Valid()
      modifies this, window
      ensures Valid() && (st == Fine || st == BufError)
      ensures out == if st == Fine then old(out) + [b] else old(out)
    {
      hide Circular;
      st := Room();
      if st == Fine { Put(b); }
    }

    // The distance check: refused exactly when it reaches back before the start or further than
    // the window.
    method TooFarBack(offset: nat) returns (bad: bool)
      requires Valid()
      ensures bad <==> offset > |out| || offset > wsize
    {
      hide Circular;
      bad := offset > wsize - (if whave < wsize then left else 0);
    }

    // A stretch of the copy that neither put nor from leaves the window in.
    method CopyStretch(from0: nat, n: nat, ghost offset: nat, ghost base: seq<Byte>, ghost done: nat)
      requires Valid() && 1 <= n <= left && 1 <= offset <= |out| && offset <= wsize && 1 <= offset <= |base|
      requires out == Copy(base, done, offset)
      requires (from0 == put - offset && offset <= put) || (from0 == put - offset + wsize && put + n <= offset)
      modifies this`put, this`left, this`out, window
      ensures Valid() && out == Copy(base, done + n, offset) && put == old(put) + n
    {
      hide Circular, Copy, Cell;
      var from, copy := from0, n;
      ghost var k := 0;
      while true
        invariant Valid() && 1 <= copy && copy + k == n && put == old(put) + k && from == from0 + k
        invariant out == Copy(base, done + k, offset) && offset <= |out|
        decreases copy
      {
        CircularAt(window[..], put, out, offset);
        CellIs(put, offset, wsize);
        CopyMore(base, done + k, offset);
        Put(window[from]);
        from := from + 1;
        k := k + 1;
        copy := copy - 1;
        if copy == 0 { break; }
      }
    }

    // The distance check and the copy in pieces: the output grows as if copied byte by byte.
    method CopyMatch(length0: nat, offset: nat) returns (st: Status)
      requires Valid() && length0 >= 1 && offset >= 1
      modifies this, window
      ensures Valid() && st != StreamEnd
      ensures st == DataError <==> offset > old(|out|) || offset > wsize
      ensures st == DataError ==> out == old(out)
      ensures st == Fine ==> out == Copy(old(out), length0, offset)
      ensures st == BufError ==> exists n :: 0 <= n <= length0 && out == Copy(old(out), n, offset)
    {
      hide Circular, Copy;
      var bad := TooFarBack(offset);
      if bad { return DataError; }
      var length := length0;
      ghost var base, done: nat := out, 0;
      CopyNothing(base, offset);
      while true
        invariant Valid() && length >= 1 && done + length == length0
          && out == Copy(base, done, offset) && offset <= |out|
        decreases length
      {
        st := Room();
        if st != Fine { return; }
        var copy := wsize - offset;
        var from;
        if copy < left {
          from := put + copy;
          copy := left - copy;
        } else {
          from := put - offset;
          copy := left;
        }
        if copy > length { copy := length; }
        length := length - copy;
        CopyStretch(from, copy, offset, base, done);
        done := done + copy;
        if length == 0 { break; }
      }
      st := Fine;
    }

    // DONE: the leftover output is written.
    method Leave() returns (st: Status)
      requires Valid()
      modifies this`written
      ensures st == StreamEnd ==> written == out
    {
      hide Circular;
      st := StreamEnd;
      if left < wsize {
        written := written + window[..put];
        var failed: bool := *;
        if failed { st := BufError; }
      } else {
        assert window[..0] == [];
      }
    }
  }

  lemma CellIs(put: int, k: int, w: int)
    ensures Cell(put, k, w) == if k <= put then put - k else put - k + w
  {
  }

  lemma CopyNothing(out: seq<Byte>, dist: int)
    requires 1 <= dist <= |out|
    ensures Copy(out, 0, dist) == out
  {
  }
}
