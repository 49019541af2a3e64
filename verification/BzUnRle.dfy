// Undoing the first run-length stage (dep/bzip2/bzlib.c): the two output loops, which may
// stop and resume whenever the output space runs out. walk holds the bytes met along
// T^(-1): the block and the two bytes after it.
module BzUnRle {
  import opened ByteType
  import Bits
  import opened BzRunLength

  // ----- What is to come out -----

  // How many bytes of the block the run at i takes: one to three, or four and a count.
  function Taken(walk: seq<Byte>, n: nat, i: nat): (t: nat)
    requires |walk| == n + 2 && i < n
    ensures 1 <= t <= 5
  {
    if i + 1 >= n || walk[i + 1] != walk[i] then 1
    else if i + 2 >= n || walk[i + 2] != walk[i] then 2
    else if i + 3 >= n || walk[i + 3] != walk[i] then 3
    else 5
  }

  // How many bytes it stands for. Cut off after four equal bytes, a block takes the
  // count from beyond its end and is then found corrupt.
  function Given(walk: seq<Byte>, n: nat, i: nat): (g: nat)
    requires |walk| == n + 2 && i < n
    ensures g >= 1
  {
    if Taken(walk, n, i) == 5 then walk[i + 4] as int + 4 else Taken(walk, n, i)
  }

  // The bytes for the part of the block from i on.
  function Emit(walk: seq<Byte>, n: nat, i: nat): seq<Byte>
    requires |walk| == n + 2
    decreases n - i
  {
    if i >= n then [] else Repeat(walk[i], Given(walk, n, i)) + Emit(walk, n, i + Taken(walk, n, i))
  }

  // Where parsing from i ends: at n, or at n + 1 if the last run has lost its count.
  function Ends(walk: seq<Byte>, n: nat, i: nat): nat
    requires |walk| == n + 2
    decreases n - i
  {
    if i >= n then i else Ends(walk, n, i + Taken(walk, n, i))
  }

  lemma DecodeStep(walk: seq<Byte>, n: nat, i: nat)
    requires |walk| == n + 2 && i < n
    ensures var t := Taken(walk, n, i);
      if i + t <= n then Decode(walk[i..n]) == Join(Repeat(walk[i], Given(walk, n, i)), Decode(walk[i + t..n]))
      else t == 5 && i + 4 == n && Decode(walk[i..n]) == None
  {
    hide Repeat;
    var b := walk[i..n];
    var t := Taken(walk, n, i);
    assert forall k :: 0 <= k < |b| ==> b[k] == walk[i + k];
    if i + t <= n { assert b[t..] == walk[i + t..n]; }
  }

  // For a block that decodes, this is its decoding and the parse ends exactly at the end.
  lemma {:induction false} EmitDecodes(walk: seq<Byte>, n: nat, i: nat)
    requires |walk| == n + 2 && i <= n
    ensures Decode(walk[i..n]).Some? ==> Decode(walk[i..n]).s == Emit(walk, n, i) && Ends(walk, n, i) == n
    ensures Decode(walk[i..n]).None? ==> Ends(walk, n, i) == n + 1
    decreases n - i
  {
    hide Repeat, Decode, Taken, Given;
    if i < n {
      DecodeStep(walk, n, i);
      var t := Taken(walk, n, i);
      if i + t <= n { EmitDecodes(walk, n, i + t); }
    } else {
      DecodeNothing(walk[i..n]);
    }
  }

  // A whole block: both loops, however often they stop, write its decoding, and report
  // corruption exactly when it has none.
  lemma BlockComesOut(walk: seq<Byte>, n: nat)
    requires |walk| == n + 2
    ensures Decode(walk[..n]).Some? ==> Emit(walk, n, 0) == Decode(walk[..n]).s
    ensures Ends(walk, n, 0) > n <==> Decode(walk[..n]).None?
  {
    hide Decode, Emit, Ends;
    EmitDecodes(walk, n, 0);
    assert walk[0..n] == walk[..n];
  }

  // A block of separated runs comes out as the bytes the runs stand for.
  lemma RunsComeOut(ps: seq<Pair>, walk: seq<Byte>, n: nat)
    requires Runs(ps) && Separated(ps) && |walk| == n + 2 && walk[..n] == CodedAll(ps)
    ensures Emit(walk, n, 0) == Expand(ps) && Ends(walk, n, 0) <= n
  {
    hide Decode, Emit, Ends, CodedAll, Expand;
    DecodeRuns(ps);
    BlockComesOut(walk, n);
  }

  lemma DecodeNothing(b: seq<Byte>)
    requires b == []
    ensures Decode(b) == Some([])
  {
  }

  // ----- The decoder's state -----

  // used counts the bytes fetched, the one in k0 included.
  datatype Cursor = Cursor(outCh: Byte, outLen: nat, k0: Byte, used: nat)

  ghost predicate CursorOk(walk: seq<Byte>, n: nat, c: Cursor) {
    |walk| == n + 2 && 1 <= c.used <= n + 2 && (c.used <= n ==> c.k0 == walk[c.used - 1])
  }

  // What still has to come out, and whether the block will turn out corrupt.
  function Rest(walk: seq<Byte>, n: nat, c: Cursor): seq<Byte>
    requires |walk| == n + 2 && c.used >= 1
  {
    Repeat(c.outCh, c.outLen) + Emit(walk, n, c.used - 1)
  }

  predicate Corrupt(walk: seq<Byte>, n: nat, c: Cursor)
    requires |walk| == n + 2 && c.used >= 1
  {
    Ends(walk, n, c.used - 1) > n
  }

  // Done: nothing pending and the byte in hand is the one after the block.
  predicate Finished(n: nat, c: Cursor) {
    c.used == n + 1 && c.outLen == 0
  }

  lemma EmitNonEmpty(walk: seq<Byte>, n: nat, i: nat)
    requires |walk| == n + 2
    ensures i < n <==> Emit(walk, n, i) != []
    ensures i >= n ==> Ends(walk, n, i) == i
  {
  }

  // d is c with the next run taken in.
  ghost predicate RunTaken(walk: seq<Byte>, n: nat, c: Cursor, d: Cursor) {
    && CursorOk(walk, n, c) && CursorOk(walk, n, d) && c.used <= n
    && d.outCh == c.k0 && d.outLen == Given(walk, n, c.used - 1) && d.used == c.used + Taken(walk, n, c.used - 1)
  }

  lemma NextRun(walk: seq<Byte>, n: nat, c: Cursor, d: Cursor)
    requires RunTaken(walk, n, c, d) && c.outLen == 0
    ensures Rest(walk, n, d) == Rest(walk, n, c) && (Corrupt(walk, n, d) <==> Corrupt(walk, n, c)) && d.outLen >= 1
  {
    hide Repeat, Taken, Given;
    var i := c.used - 1;
    EmptyRepeat(c.outCh);
    assert [] + Emit(walk, n, i) == Emit(walk, n, i);
  }

  lemma EmptyRepeat(c: Byte)
    ensures Repeat(c, 0) == []
  {
  }

  // One byte out.
  lemma OneOut(walk: seq<Byte>, n: nat, c: Cursor)
    requires |walk| == n + 2 && c.used >= 1 && c.outLen > 0
    ensures Rest(walk, n, c) == [c.outCh] + Rest(walk, n, c.(outLen := c.outLen - 1))
    ensures Corrupt(walk, n, c) <==> Corrupt(walk, n, c.(outLen := c.outLen - 1))
  {
    assert Repeat(c.outCh, c.outLen) == [c.outCh] + Repeat(c.outCh, c.outLen - 1);
    assert [c.outCh] + Repeat(c.outCh, c.outLen - 1) + Emit(walk, n, c.used - 1)
        == [c.outCh] + (Repeat(c.outCh, c.outLen - 1) + Emit(walk, n, c.used - 1));
  }

  // ----- What one call achieves -----

  // out is the next part of what was to come; unless corruption was found, either the space
  // is used up or nothing is left.
  ghost predicate Emitted(walk: seq<Byte>, n: nat, c: Cursor, space: nat, d: Cursor, out: seq<Byte>) {
    && CursorOk(walk, n, c) && CursorOk(walk, n, d)
    && Rest(walk, n, c) == out + Rest(walk, n, d) && |out| <= space
    && (Corrupt(walk, n, c) <==> Corrupt(walk, n, d))
  }

  lemma EmittedNothing(walk: seq<Byte>, n: nat, c: Cursor, space: nat)
    requires CursorOk(walk, n, c)
    ensures Emitted(walk, n, c, space, c, [])
  {
    assert [] + Rest(walk, n, c) == Rest(walk, n, c);
  }

  lemma EmittedByte(walk: seq<Byte>, n: nat, c: Cursor, space: nat, d: Cursor, out: seq<Byte>)
    requires Emitted(walk, n, c, space, d, out) && d.outLen > 0 && |out| < space
    ensures Emitted(walk, n, c, space, d.(outLen := d.outLen - 1), out + [d.outCh])
  {
    hide Rest, Corrupt;
    OneOut(walk, n, d);
    var e := d.(outLen := d.outLen - 1);
    assert out + ([d.outCh] + Rest(walk, n, e)) == out + [d.outCh] + Rest(walk, n, e);
  }

  lemma EmittedRun(walk: seq<Byte>, n: nat, c: Cursor, space: nat, d: Cursor, out: seq<Byte>, e: Cursor)
    requires Emitted(walk, n, c, space, d, out) && d.outLen == 0 && RunTaken(walk, n, d, e)
    ensures Emitted(walk, n, c, space, e, out) && e.outLen >= 1 && d.used < e.used <= n + 2
  {
    hide Rest, Corrupt, Taken, Given;
    NextRun(walk, n, d, e);
  }

  // At the end of the block nothing is left, and a run past the end means corruption.
  lemma AtEnd(walk: seq<Byte>, n: nat, c: Cursor)
    requires CursorOk(walk, n, c) && c.outLen == 0 && c.used >= n + 1
    ensures Rest(walk, n, c) == []
    ensures Corrupt(walk, n, c) <==> c.used == n + 2
  {
    EmptyRepeat(c.outCh);
  }

  lemma EmittedParts(walk: seq<Byte>, n: nat, c: Cursor, space: nat, d: Cursor, out: seq<Byte>)
    requires Emitted(walk, n, c, space, d, out)
    ensures CursorOk(walk, n, d) && |out| <= space && |walk| == n + 2 && 1 <= c.used
    ensures Corrupt(walk, n, c) <==> Corrupt(walk, n, d)
  {
  }

  lemma EmittedAll(walk: seq<Byte>, n: nat, c: Cursor, space: nat, d: Cursor, out: seq<Byte>)
    requires Emitted(walk, n, c, space, d, out) && Rest(walk, n, d) == []
    ensures Rest(walk, n, c) == out
  {
    hide Rest, Corrupt;
  }

  lemma RestSome(walk: seq<Byte>, n: nat, c: Cursor)
    requires |walk| == n + 2 && c.used >= 1 && c.outLen >= 1
    ensures Rest(walk, n, c) != []
  {
    hide Emit;
  }

  // From the second equal byte on; used bytes of the run's two have been fetched.
  method MoreOfRun(walk: seq<Byte>, n: nat, k: Byte, fetched: nat, ghost c: Cursor)
    returns (outLen: nat, k0: Byte, used: nat)
    requires CursorOk(walk, n, c) && c.used <= n && k == c.k0 && fetched == c.used + 1 <= n
    requires walk[fetched - 1] == k
    ensures RunTaken(walk, n, c, Cursor(k, outLen, k0, used))
  {
    k0, used := k, fetched;
    outLen := 2;
    var k1 := walk[used];
    used := used + 1;
    if used == n + 1 { return; }
    if k1 != k0 { k0 := k1; return; }
    outLen := 3;
    k1 := walk[used];
    used := used + 1;
    if used == n + 1 { return; }
    if k1 != k0 { k0 := k1; return; }
    k1 := walk[used];
    used := used + 1;
    outLen := k1 as int + 4;
    k0 := walk[used];
    used := used + 1;
  }

  // A run of one byte: the next byte differs, or the block ends.
  lemma OneTaken(walk: seq<Byte>, n: nat, d: Cursor, k1: Byte)
    requires CursorOk(walk, n, d) && d.used <= n && k1 == walk[d.used] && (k1 != d.k0 || d.used == n)
    ensures RunTaken(walk, n, d, Cursor(d.k0, 1, k1, d.used + 1))
    ensures d.used == n ==> RunTaken(walk, n, d, Cursor(d.k0, 1, d.k0, d.used + 1))
  {
  }

  lemma FollowsOn(walk: seq<Byte>, n: nat, before: seq<Byte>, c: Cursor, space: nat, d: Cursor, out: seq<Byte>)
    requires before <= out && Emitted(walk, n, c, space, d, out[|before|..])
    ensures |walk| == n + 2 && c.used >= 1 && d.used >= 1 && out + Rest(walk, n, d) == before + Rest(walk, n, c)
    ensures Corrupt(walk, n, c) <==> Corrupt(walk, n, d)
  {
    hide Rest, Corrupt;
    assert out == before + out[|before|..];
  }

  lemma NothingLeft(walk: seq<Byte>, n: nat, c: Cursor)
    requires |walk| == n + 2 && Finished(n, c)
    ensures Rest(walk, n, c) == [] && !Corrupt(walk, n, c)
  {
    EmptyRepeat(c.outCh);
  }

  // Once all is out, further calls write nothing and find nothing wrong.
  lemma StaysFinished(walk: seq<Byte>, n: nat, c: Cursor, space: nat, d: Cursor, out: seq<Byte>)
    requires Emitted(walk, n, c, space, d, out) && Finished(n, c)
    ensures Finished(n, d) && out == []
  {
    hide Emit, Ends, Repeat;
    NothingLeft(walk, n, c);
    assert |Repeat(d.outCh, d.outLen)| == 0;
    EmitNonEmpty(walk, n, d.used - 1);
    AtEnd(walk, n, d);
  }

  lemma NoSpaces(spaces: seq<nat>)
    requires spaces == []
    ensures Bits.Total(spaces) == 0
  {
  }

  lemma SpacesMore(spaces: seq<nat>, i: nat)
    requires i < |spaces|
    ensures Bits.Total(spaces[..i + 1]) == Bits.Total(spaces[..i]) + spaces[i]
  {
    assert spaces[..i + 1] == spaces[..i] + [spaces[i]];
    Bits.TotalMore(spaces[..i], spaces[i]);
  }

  lemma {:induction false} SpacesWithin(spaces: seq<nat>, i: nat)
    requires i <= |spaces|
    ensures Bits.Total(spaces[..i]) <= Bits.Total(spaces)
    decreases |spaces| - i
  {
    if i < |spaces| {
      SpacesMore(spaces, i);
      SpacesWithin(spaces, i + 1);
    } else {
      assert spaces[..i] == spaces;
    }
  }

  // When a block whose bytes overrun is found out: the small loop needs space for one byte more.
  predicate FoundOut(emitted: nat, space: nat, small: bool) {
    if small then emitted < space else emitted <= space
  }

  // The state a stopped decoder keeps. The stream of bytes from T^(-1) is the same for both
  // layouts, so it is a sequence here.
  class DState {
    const walk: seq<Byte>
    const saveNblock: nat
    var stateOutCh: Byte
    var stateOutLen: nat
    var k0: Byte
    var nblockUsed: nat
    var availOut: nat
    var out: seq<Byte>

    function Here(): Cursor
      reads this
    {
      Cursor(stateOutCh, stateOutLen, k0, nblockUsed)
    }

    ghost predicate Valid()
      reads this
    {
      CursorOk(walk, saveNblock, Here())
    }

    // A fresh block: nothing pending, its first byte in hand.
    constructor (w: seq<Byte>, n: nat)
      requires |w| == n + 2 && n >= 1
      ensures Valid() && walk == w && saveNblock == n && Rest(walk, saveNblock, Here()) == Emit(w, n, 0)
      ensures Corrupt(walk, saveNblock, Here()) <==> Ends(w, n, 0) > n
      ensures out == [] && OnCourse()
    {
      walk, saveNblock := w, n;
      stateOutCh, stateOutLen := 0, 0;
      k0, nblockUsed := w[0], 1;
      availOut, out := 0, [];
      new;
      EmptyRepeat(0);
      assert [] + Emit(w, n, 0) == Emit(w, n, 0);
    }

    // unRLE_obuf_to_output_SMALL: works on the stored fields.
    method UnRleSmall() returns (corrupt: bool)
      requires Valid()
      modifies this
      ensures corrupt ==>
        Corrupt(walk, saveNblock, old(Here())) && |Rest(walk, saveNblock, old(Here()))| < old(availOut)
      ensures !corrupt ==> Valid() && Progress(old(Here()), old(availOut), old(out))
    {
      hide Emitted, RunTaken, Rest, Corrupt, Taken, Given;
      ghost var c, space, out0 := Here(), availOut, out;
      ghost var done: seq<Byte> := [];
      EmittedNothing(walk, saveNblock, c, space);
      while true
        invariant Emitted(walk, saveNblock, c, space, Here(), done) && out == out0 + done && availOut == space - |done|
        invariant nblockUsed <= saveNblock + 2
        decreases saveNblock + 2 - nblockUsed
      {
        ghost var used := nblockUsed;
        while true
          invariant nblockUsed == used
          invariant Emitted(walk, saveNblock, c, space, Here(), done) && out == out0 + done
            && availOut == space - |done|
          decreases stateOutLen
        {
          EmittedParts(walk, saveNblock, c, space, Here(), done);
          if availOut == 0 { return false; }
          if stateOutLen == 0 { break; }
          EmittedByte(walk, saveNblock, c, space, Here(), done);
          done := done + [stateOutCh];
          out := out + [stateOutCh];
          stateOutLen := stateOutLen - 1;
          availOut := availOut - 1;
        }
        EmittedParts(walk, saveNblock, c, space, Here(), done);
        if nblockUsed >= saveNblock + 1 {
          AtEnd(walk, saveNblock, Here());
          EmittedAll(walk, saveNblock, c, space, Here(), done);
        }
        if nblockUsed == saveNblock + 1 { return false; }
        if nblockUsed > saveNblock + 1 { return true; }
        ghost var d := Here();
        TakeRun();
        EmittedRun(walk, saveNblock, c, space, d, done, Here());
      }
    }

    // The run that starts with k0.
    method TakeRun()
      requires Valid() && nblockUsed <= saveNblock
      modifies this`stateOutCh, this`stateOutLen, this`k0, this`nblockUsed
      ensures RunTaken(walk, saveNblock, old(Here()), Here())
    {
      ghost var c := Here();
      stateOutLen := 1;
      stateOutCh := k0;
      var k1 := walk[nblockUsed];
      nblockUsed := nblockUsed + 1;
      if nblockUsed == saveNblock + 1 { return; }
      if k1 != k0 { k0 := k1; return; }
      stateOutLen, k0, nblockUsed := MoreOfRun(walk, saveNblock, k0, nblockUsed, c);
    }

    // What a call has written and where it stopped.
    ghost predicate Progress(c: Cursor, space: nat, before: seq<Byte>)
      reads this
      requires |walk| == saveNblock + 2 && c.used >= 1
    {
      && before <= out && availOut == space - (|out| - |before|)
      && Emitted(walk, saveNblock, c, space, Here(), out[|before|..])
      && (availOut == 0 || Finished(saveNblock, Here()))
    }

    // All that was to come out either has or still does, and the block's verdict stands.
    ghost predicate OnCourse()
      reads this
    {
      && Valid() && out + Rest(walk, saveNblock, Here()) == Emit(walk, saveNblock, 0)
      && (Corrupt(walk, saveNblock, Here()) <==> Ends(walk, saveNblock, 0) > saveNblock)
    }

    // Any number of calls, each with whatever output space the caller gives.
    method Deliver(spaces: seq<nat>, small: bool) returns (corrupt: bool)
      requires OnCourse()
      modifies this
      ensures corrupt ==> Ends(walk, saveNblock, 0) > saveNblock
      ensures corrupt ==> FoundOut(|Emit(walk, saveNblock, 0)|, |old(out)| + Bits.Total(spaces), small)
      ensures !corrupt && spaces != [] && Ends(walk, saveNblock, 0) > saveNblock ==>
        !FoundOut(|Emit(walk, saveNblock, 0)|, |old(out)| + Bits.Total(spaces), small)
      ensures !corrupt ==> OnCourse() && old(out) <= out <= Emit(walk, saveNblock, 0)
      ensures !corrupt && Finished(saveNblock, Here()) ==> out == Emit(walk, saveNblock, 0)
      ensures !corrupt ==> |out| <= |old(out)| + Bits.Total(spaces)
      ensures !corrupt ==> Finished(saveNblock, Here()) || |out| == |old(out)| + Bits.Total(spaces)
      ensures !corrupt && Finished(saveNblock, Here()) ==> Ends(walk, saveNblock, 0) <= saveNblock
    {
      hide Rest, Corrupt, Emit, Ends, Emitted, Bits.Total;
      corrupt := false;
      NoSpaces(spaces[..0]);
      for i := 0 to |spaces|
        invariant OnCourse() && old(out) <= out && |out| <= |old(out)| + Bits.Total(spaces[..i])
        invariant Finished(saveNblock, Here()) || |out| == |old(out)| + Bits.Total(spaces[..i])
        invariant i > 0 && !small ==> Finished(saveNblock, Here()) || stateOutLen >= 1
      {
        SpacesMore(spaces, i);
        ghost var c, before := Here(), out;
        availOut := spaces[i];
        if small { corrupt := UnRleSmall(); } else { corrupt := UnRleFast(); }
        if corrupt {
          assert |before| + |Rest(walk, saveNblock, c)| == |Emit(walk, saveNblock, 0)|;
          SpacesWithin(spaces, i + 1);
          return;
        }
        FollowsOn(walk, saveNblock, before, c, spaces[i], Here(), out);
        if Finished(saveNblock, c) { StaysFinished(walk, saveNblock, c, spaces[i], Here(), out[|before|..]); }
      }
      assert spaces[..|spaces|] == spaces;
      if Finished(saveNblock, Here()) { NothingLeft(walk, saveNblock, Here()); }
      else if stateOutLen >= 1 { RestSome(walk, saveNblock, Here()); }
    }

    // unRLE_obuf_to_output_FAST: works on copies of the fields, saved on return. The last
    // byte of a run is written after the label, without counting the length down.
    method UnRleFast() returns (corrupt: bool)
      requires Valid()
      modifies this
      ensures corrupt ==>
        Corrupt(walk, saveNblock, old(Here())) && |Rest(walk, saveNblock, old(Here()))| <= old(availOut)
      ensures !corrupt ==> Finished(saveNblock, Here()) || stateOutLen >= 1
      ensures !corrupt ==> Valid() && Progress(old(Here()), old(availOut), old(out))
    {
      hide Emitted, RunTaken, Rest, Corrupt, Taken, Given;
      ghost var c, out0 := Here(), out;
      var cOutCh, cOutLen, cK0, cUsed, avail, written := stateOutCh, stateOutLen, k0, nblockUsed, availOut, [];
      var eqOne := false;
      EmittedNothing(walk, saveNblock, c, avail);
      ghost var space := avail;
      while true
        invariant Emitted(walk, saveNblock, c, space, Cursor(cOutCh, if eqOne then 1 else cOutLen, cK0, cUsed), written)
        invariant avail == space - |written| && Here() == c && out == out0 && availOut == space
        invariant cUsed <= saveNblock + 2
        decreases saveNblock + 2 - cUsed
      {
        EmittedParts(walk, saveNblock, c, space, Cursor(cOutCh, if eqOne then 1 else cOutLen, cK0, cUsed), written);
        if eqOne || cOutLen > 0 {
          if !eqOne {
            while true
              invariant cOutLen >= 1 && avail == space - |written| && Here() == c && out == out0 && availOut == space
              invariant Emitted(walk, saveNblock, c, space, Cursor(cOutCh, cOutLen, cK0, cUsed), written)
              decreases cOutLen
            {
              EmittedParts(walk, saveNblock, c, space, Cursor(cOutCh, cOutLen, cK0, cUsed), written);
              if avail == 0 {
                Save(cOutCh, cOutLen, cK0, cUsed, avail, written, c, space);
                return false;
              }
              if cOutLen == 1 { break; }
              EmittedByte(walk, saveNblock, c, space, Cursor(cOutCh, cOutLen, cK0, cUsed), written);
              written := written + [cOutCh];
              cOutLen := cOutLen - 1;
              avail := avail - 1;
            }
          }
          if avail == 0 {
            cOutLen := 1;
            Save(cOutCh, cOutLen, cK0, cUsed, avail, written, c, space);
            return false;
          }
          EmittedByte(walk, saveNblock, c, space, Cursor(cOutCh, 1, cK0, cUsed), written);
          written := written + [cOutCh];
          avail := avail - 1;
          eqOne := false;
        }
        ghost var d := Cursor(cOutCh, 0, cK0, cUsed);
        EmittedParts(walk, saveNblock, c, space, d, written);
        if cUsed >= saveNblock + 1 {
          AtEnd(walk, saveNblock, d);
          EmittedAll(walk, saveNblock, c, space, d, written);
        }
        if cUsed > saveNblock + 1 { return true; }
        if cUsed == saveNblock + 1 {
          cOutLen := 0;
          Save(cOutCh, cOutLen, cK0, cUsed, avail, written, c, space);
          return false;
        }
        cOutCh := cK0;
        var k1 := walk[cUsed];
        cUsed := cUsed + 1;
        if k1 != cK0 {
          OneTaken(walk, saveNblock, d, k1);
          EmittedRun(walk, saveNblock, c, space, d, written, Cursor(cOutCh, 1, k1, cUsed));
          cK0 := k1;
          eqOne := true;
          continue;
        }
        if cUsed == saveNblock + 1 {
          OneTaken(walk, saveNblock, d, k1);
          EmittedRun(walk, saveNblock, c, space, d, written, Cursor(cOutCh, 1, cK0, cUsed));
          eqOne := true;
          continue;
        }
        cOutLen, cK0, cUsed := MoreOfRun(walk, saveNblock, cK0, cUsed, d);
        EmittedRun(walk, saveNblock, c, space, d, written, Cursor(cOutCh, cOutLen, cK0, cUsed));
      }
    }

    // The save block at return_notr.
    method Save(outCh: Byte, outLen: nat, k: Byte, used: nat, avail: nat, written: seq<Byte>, ghost c: Cursor,
                ghost space: nat)
      requires Emitted(walk, saveNblock, c, space, Cursor(outCh, outLen, k, used), written)
      requires avail == space - |written| && (avail == 0 || Finished(saveNblock, Cursor(outCh, outLen, k, used)))
      modifies this
      ensures Valid() && c.used >= 1 && |walk| == saveNblock + 2 && Progress(c, space, old(out))
      ensures Here() == Cursor(outCh, outLen, k, used)
    {
      hide Emitted;
      EmittedParts(walk, saveNblock, c, space, Cursor(outCh, outLen, k, used), written);
      stateOutCh, stateOutLen, k0, nblockUsed := outCh, outLen, k, used;
      ghost var before := out;
      out := out + written;
      availOut := avail;
      assert out[|before|..] == written;
    }
  }
}
