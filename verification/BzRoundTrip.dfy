// A block from end to end: sorted, coded and sent (dep/bzip2/compress.c), the bytes cut into input
// for any number of calls, received and undone (dep/bzip2/decompress.c), and its runs expanded into
// whatever output space the calls have (dep/bzip2/bzlib.c).
module BzRoundTrip {
  import opened ByteType
  import Bits
  import opened BzTVector
  import opened BzBitStream
  import opened BzFormat
  import opened BzBlock
  import opened BzRunLength
  import BzCompressor
  import BzUnRle

  // ----- The input of several calls -----

  // Bytes cut into chunks of the given sizes, the last one holding what is left.
  function Cut(bytes: seq<Byte>, sizes: seq<nat>): seq<seq<Byte>> {
    if sizes == [] then [bytes]
    else if sizes[0] >= |bytes| then [bytes]
    else [bytes[..sizes[0]]] + Cut(bytes[sizes[0]..], sizes[1..])
  }

  lemma {:induction false} FlattenCut(bytes: seq<Byte>, sizes: seq<nat>)
    ensures Flatten(Cut(bytes, sizes)) == bytes
  {
    if sizes == [] || sizes[0] >= |bytes| {
      FlattenOne(bytes);
    } else {
      FlattenCut(bytes[sizes[0]..], sizes[1..]);
      var first, rest := bytes[..sizes[0]], Cut(bytes[sizes[0]..], sizes[1..]);
      assert ([first] + rest)[1..] == rest;
      assert first + bytes[sizes[0]..] == bytes;
    }
  }

  lemma FlattenOne(bytes: seq<Byte>)
    ensures Flatten([bytes]) == bytes
  {
    assert [bytes][1..] == [];
    assert Flatten([]) == [];
  }

  // What was written to a new stream has arrived, whatever follows it.
  lemma SentArrives(written: seq<BitValue>, bits: seq<BitValue>, pad: nat, size: nat, b: seq<Byte>, crc: nat,
                    c: Choices)
    requires SentAs(b, crc, c, [], written) && bits == written + Zeros(pad)
    requires |b| <= 100000 * size && crc < Bits.Pow2(32)
    ensures Arrives(bits, 0, |written|, size, b, crc, c, [])
  {
    hide Proper, SentBlock;
    assert written == SentBlock(b, crc, c) + [];
    assert bits[0..|written|] == written;
  }

  // Compresses a block into a stream of its own and gives back the bytes.
  method Compressed(block: array<Byte>, n: nat, inUse: array<bool>, blockCRC: nat, workFactor: int, ghost size: nat)
    returns (zbits: seq<Byte>, ghost c: Choices, ghost end: nat)
    requires 1 <= n == block.Length <= MAX_BLOCK && inUse.Length == 256 && blockCRC < Bits.Pow2(32)
    requires n <= 100000 * size && forall i :: 0 <= i < n ==> inUse[block[i]]
    modifies block
    ensures block[..] == old(block[..])
    ensures Arrives(BitsOf(zbits), 0, end, size, block[..], blockCRC, c, [])
  {
    hide SentAs, Arrives, BitsOf, Buffered;
    var w := new Writer();
    ghost var hist, sels;
    c, hist, sels := CompressBlock(w, block, n, inUse, blockCRC, workFactor);
    ghost var written := w.written;
    w.Finish();
    zbits, end := w.zbits, |written|;
    ghost var pad: nat :| pad < 8 && BitsOf(zbits) == written + Zeros(pad);
    SentArrives(written, BitsOf(zbits), pad, size, block[..], blockCRC, c);
  }

  // The fast decoder gives back the block, however its input is cut.
  method BlockRoundTrip(block: array<Byte>, n: nat, inUse: array<bool>, blockCRC: nat, workFactor: int, size: nat,
                        cuts: seq<nat>)
    returns (tt: array<nat>, tPos: nat, nblock: nat, storedBlockCRC: nat)
    requires 1 <= size <= 9 && 1 <= n == block.Length <= 100000 * size
    requires inUse.Length == 256 && blockCRC < Bits.Pow2(32) && forall i :: 0 <= i < n ==> inUse[block[i]]
    modifies block
    ensures block[..] == old(block[..]) && nblock == n && storedBlockCRC == blockCRC && fresh(tt)
    ensures Linked(tt[..], tPos, nblock) && FastYield(tt[..], tPos, nblock) == old(block[..])
  {
    hide Arrives, BitsOf, Comes, FastYield, Linked, Flatten, Cut;
    var zbits;
    ghost var c, end;
    zbits, c, end := Compressed(block, n, inUse, blockCRC, workFactor, size);
    FlattenCut(zbits, cuts);
    var r := new Reader(Cut(zbits, cuts));
    tt := new nat[100000 * size];
    var st;
    st, nblock, tPos, storedBlockCRC := DecompressFast(r, size, tt, true, block[..], blockCRC, c, end, []);
  }

  // So does the small decoder.
  method BlockRoundTripSmall(block: array<Byte>, n: nat, inUse: array<bool>, blockCRC: nat, workFactor: int, size: nat,
                             cuts: seq<nat>)
    returns (store: SmallStore, cftab: array<int>, origPtr: nat, nblock: nat, storedBlockCRC: nat)
    requires 1 <= size <= 9 && 1 <= n == block.Length <= 100000 * size
    requires inUse.Length == 256 && blockCRC < Bits.Pow2(32) && forall i :: 0 <= i < n ==> inUse[block[i]]
    modifies block
    ensures block[..] == old(block[..]) && nblock == n && storedBlockCRC == blockCRC
    ensures SmallLinked(store, origPtr, nblock) && cftab.Length == 257
    ensures SmallYield(store, cftab[..], origPtr, nblock) == old(block[..])
  {
    hide Arrives, BitsOf, Comes, SmallYield, SmallLinked, Flatten, Cut;
    var zbits;
    ghost var c, end;
    zbits, c, end := Compressed(block, n, inUse, blockCRC, workFactor, size);
    FlattenCut(zbits, cuts);
    var r := new Reader(Cut(zbits, cuts));
    store := new SmallStore(100000 * size);
    var st;
    st, nblock, origPtr, storedBlockCRC, cftab := DecompressSmall(r, size, store, true, block[..], blockCRC, c, end,
      []);
  }

  // ----- Expanding the runs -----

  // As much of s as fits.
  function Fitting<T>(s: seq<T>, space: nat): seq<T> {
    if space < |s| then s[..space] else s
  }

  lemma {:induction false} FastSteps(t: seq<nat>, pos: nat, k: nat, m: nat)
    requires pos < |t| && (forall j :: 0 <= j < |t| ==> t[j] / 256 < |t|) && k <= m
    ensures |FastStream(t, pos, m)| == m && FastStream(t, pos, m)[..k] == FastStream(t, pos, k)
    ensures forall i :: 0 <= i < m ==> FastStream(t, pos, m)[i] < 256
    decreases m
  {
    if m > 0 { FastSteps(t, t[pos] / 256, if k > 0 then k - 1 else 0, m - 1); }
  }

  lemma {:induction false} SmallSteps(ll: seq<int>, cf: seq<int>, pos: nat, k: nat, m: nat)
    requires |cf| == 257 && pos < |ll| && (forall j :: 0 <= j < |ll| ==> 0 <= ll[j] < |ll|) && k <= m
    ensures |SmallStream(ll, cf, pos, m)| == m && SmallStream(ll, cf, pos, m)[..k] == SmallStream(ll, cf, pos, k)
    ensures forall i :: 0 <= i < m ==> SmallStream(ll, cf, pos, m)[i] < 256
    decreases m
  {
    if m > 0 {
      BucketSmall(cf, pos, 256);
      SmallSteps(ll, cf, ll[pos], if k > 0 then k - 1 else 0, m - 1);
    }
  }

  lemma {:induction false} BucketSmall(cf: seq<int>, pos: nat, top: nat)
    requires top < |cf| && top <= 256
    ensures Bucket(cf, pos, top) < 256
  {
    if top > 0 { BucketSmall(cf, pos, top - 1); }
  }

  // The bytes met along the vector, expanded into the space of any number of calls.
  method Undo(walk: seq<Byte>, n: nat, spaces: seq<nat>, small: bool, ghost b: seq<Byte>)
    returns (corrupt: bool, out: seq<Byte>)
    requires |walk| == n + 2 && n >= 1 && walk[..n] == b
    ensures corrupt <==> Decode(b).None? && BzUnRle.FoundOut(|BzUnRle.Emit(walk, n, 0)|, Bits.Total(spaces), small)
    ensures !corrupt ==> out == Fitting(BzUnRle.Emit(walk, n, 0), Bits.Total(spaces))
    ensures Decode(b).Some? ==> !corrupt && out == Fitting(Decode(b).s, Bits.Total(spaces))
  {
    hide Decode, BzUnRle.Emit, BzUnRle.Ends, BzUnRle.Rest, BzUnRle.Corrupt, Bits.Total;
    var d := new BzUnRle.DState(walk, n);
    corrupt := d.Deliver(spaces, small);
    out := d.out;
    BzUnRle.BlockComesOut(walk, n);
    BzUnRle.EmitNonEmpty(walk, n, 0);
    if spaces == [] { BzUnRle.NoSpaces(spaces); }
  }

  // A block compressed, cut, decompressed and expanded: the bytes its runs stand for, as far as
  // there is space for them.
  method WholeTrip(block: array<Byte>, n: nat, inUse: array<bool>, blockCRC: nat, workFactor: int, size: nat,
                   cuts: seq<nat>,
                   spaces: seq<nat>, small: bool)
    returns (corrupt: bool, out: seq<Byte>, ghost met: seq<Byte>)
    requires 1 <= size <= 9 && 1 <= n == block.Length <= 100000 * size
    requires inUse.Length == 256 && blockCRC < Bits.Pow2(32) && forall i :: 0 <= i < n ==> inUse[block[i]]
    modifies block
    ensures |met| == n + 2 && met[..n] == old(block[..])
    ensures corrupt <==>
      Decode(old(block[..])).None? && BzUnRle.FoundOut(|BzUnRle.Emit(met, n, 0)|, Bits.Total(spaces), small)
    ensures !corrupt ==> out == Fitting(BzUnRle.Emit(met, n, 0), Bits.Total(spaces))
    ensures Decode(old(block[..])).Some? ==> !corrupt && out == Fitting(Decode(old(block[..])).s, Bits.Total(spaces))
  {
    hide Decode, FastStream, SmallStream, Bits.Total, SmallStore.GetLL, Fitting, Bits.Pow2;
    ghost var b := block[..];
    var walk: seq<Byte>, nblock, stored;
    if small {
      var store, cftab, origPtr;
      store, cftab, origPtr, nblock, stored := BlockRoundTripSmall(block, n, inUse, blockCRC, workFactor, size, cuts);
      SmallSteps(store.AllLinks(nblock), cftab[..], origPtr, nblock, nblock + 2);
      walk := SmallStream(store.AllLinks(nblock), cftab[..], origPtr, nblock + 2);
    } else {
      var tt, tPos;
      tt, tPos, nblock, stored := BlockRoundTrip(block, n, inUse, blockCRC, workFactor, size, cuts);
      FastSteps(tt[..nblock], tPos, nblock, nblock + 2);
      walk := FastStream(tt[..nblock], tPos, nblock + 2);
    }
    corrupt, out := Undo(walk, nblock, spaces, small, b);
    met := walk;
  }

  // ----- All the blocks of a stream -----

  // How one block travels: its checksum, the pieces its stream arrives in, and the output space of the
  // calls that expand it.
  datatype Way = Way(crc: nat, cuts: seq<nat>, spaces: seq<nat>)

  predicate WayOk(b: seq<Byte>, w: Way, size: nat) {
    && 1 <= |b| <= 100000 * size && w.crc < Bits.Pow2(32)
    && Decode(b).Some? && |Decode(b).s| <= Bits.Total(w.spaces)
  }

  // The bytes that occur.
  method Marked(b: seq<Byte>) returns (inUse: array<bool>)
    ensures fresh(inUse) && inUse.Length == 256 && forall c :: 0 <= c < 256 ==> (inUse[c] <==> c in b)
  {
    inUse := new bool[256](_ => false);
    for i := 0 to |b|
      invariant forall c :: 0 <= c < 256 ==> (inUse[c] <==> c in b[..i])
    {
      assert b[..i + 1] == b[..i] + [b[i]];
      inUse[b[i]] := true;
    }
    assert b[..|b|] == b;
  }

  method OneBlock(b: seq<Byte>, w: Way, size: nat, workFactor: int, small: bool) returns (out: seq<Byte>)
    requires 1 <= size <= 9 && WayOk(b, w, size)
    ensures out == Decode(b).s
  {
    hide Decode, Bits.Total, Bits.Pow2;
    var block := new Byte[|b|](i requires 0 <= i < |b| => b[i]);
    assert block[..] == b;
    var inUse := Marked(b);
    var corrupt;
    ghost var met;
    corrupt, out, met := WholeTrip(block, |b|, inUse, w.crc, workFactor, size, w.cuts, w.spaces, small);
  }

  method AllBlocks(closed: seq<seq<Byte>>, ways: seq<Way>, size: nat, workFactor: int, small: bool)
    returns (out: seq<Byte>)
    requires 1 <= size <= 9 && |ways| == |closed|
    requires forall i :: 0 <= i < |closed| ==> WayOk(closed[i], ways[i], size)
    ensures BzCompressor.DecodedAll(closed) == Some(out)
  {
    hide Decode, WayOk;
    out := [];
    assert BzCompressor.DecodedAll([]) == Some([]);
    assert closed[..0] == [];
    for i := 0 to |closed|
      invariant BzCompressor.DecodedAll(closed[..i]) == Some(out)
    {
      DecodesAs(closed[i], ways[i], size);
      BzCompressor.DecodedMore(closed[..i], closed[i]);
      assert closed[..i + 1] == closed[..i] + [closed[i]];
      var more := OneBlock(closed[i], ways[i], size, workFactor, small);
      out := out + more;
    }
    assert closed[..|closed|] == closed;
  }

  lemma DecodesAs(b: seq<Byte>, w: Way, size: nat)
    requires WayOk(b, w, size)
    ensures Decode(b).Some?
  {
  }

  // After a flush or finish is done, the blocks the machine has closed, each sent, cut, received and
  // expanded, give back every byte it has consumed.
  method StreamTrip(s: BzCompressor.EState, closed: seq<seq<Byte>>, ways: seq<Way>, workFactor: int, small: bool)
    returns (out: seq<Byte>)
    requires s.Ready() && s.AllClosed() && closed == s.closed && |ways| == |closed|
    requires forall i :: 0 <= i < |closed| ==> Decode(closed[i]).Some? ==>
      ways[i].crc < Bits.Pow2(32) && |Decode(closed[i]).s| <= Bits.Total(ways[i].spaces)
    ensures out == s.consumed
  {
    hide Decode, BzCompressor.DecodedAll;
    forall i | 0 <= i < |closed| ensures WayOk(closed[i], ways[i], s.blockSize100k) {
      BlockFits(closed, i, 100000 * s.blockSize100k - 10);
    }
    out := AllBlocks(closed, ways, s.blockSize100k, workFactor, small);
  }

  lemma BlockFits(closed: seq<seq<Byte>>, i: nat, max: int)
    requires BzCompressor.BlocksFit(closed, max) && BzCompressor.DecodedAll(closed).Some? && i < |closed|
    ensures 1 <= |closed[i]| <= max && Decode(closed[i]).Some?
  {
    hide Decode;
    AllDecode(closed, i);
  }

  lemma {:induction false} AllDecode(closed: seq<seq<Byte>>, i: nat)
    requires BzCompressor.DecodedAll(closed).Some? && i < |closed|
    ensures Decode(closed[i]).Some?
  {
    hide Decode;
    if i < |closed| - 1 { AllDecode(closed[..|closed| - 1], i); }
  }
}
