// The compressor's state machine (dep/bzip2/bzlib.c): collecting input into blocks of
// coded runs, closing blocks, and the flush and finish protocol of BZ2_bzCompress.
// What a closed block is turned into is left open: its size is arbitrary.
module BzCompressor {
  import opened ByteType
  import opened BzRunLength

  datatype Mode = Idle | Running | Flushing | Finishing
  datatype Phase = Output | Input
  datatype Action = Run | Flush | Finish
  datatype Code = RunOk | FlushOk | FinishOk | StreamEnd | SequenceError | ParamError

  // ----- What the fields mean -----

  const NO_CHAR := 256

  // The run being counted: none, or 1 to 255 times a byte that may follow the last coded run.
  ghost predicate PendingOk(ps: seq<Pair>, ch: int, len: int) {
    || (ch == NO_CHAR && len == 0)
    || (0 <= ch < 256 && 1 <= len <= 255 && (ps != [] ==> Separate(ps[|ps| - 1], Pair(ch, len))))
  }

  function Pending(ch: int, len: int): seq<Byte> {
    if 0 <= ch < 256 && len >= 0 then Repeat(ch, len) else []
  }

  ghost predicate UsedOk(used: seq<bool>, b: seq<Byte>) {
    |used| == 256 && forall c :: 0 <= c < 256 ==> (used[c] <==> c in b)
  }

  // The block holds the runs ps; used and summed cover it exactly.
  ghost predicate Book(ps: seq<Pair>, b: seq<Byte>, used: seq<bool>, summed: seq<Byte>) {
    Runs(ps) && Separated(ps) && b == CodedAll(ps) && UsedOk(used, b) && summed == Expand(ps)
  }

  function DecodedAll(blocks: seq<seq<Byte>>): (r: Option) {
    if blocks == [] then Some([])
    else
      var r, d := DecodedAll(blocks[..|blocks| - 1]), Decode(blocks[|blocks| - 1]);
      if r.Some? && d.Some? then Some(r.s + d.s) else None
  }

  lemma DecodedMore(blocks: seq<seq<Byte>>, b: seq<Byte>)
    requires DecodedAll(blocks).Some? && Decode(b).Some?
    ensures DecodedAll(blocks + [b]) == Some(DecodedAll(blocks).s + Decode(b).s)
  {
    hide Decode;
    assert (blocks + [b])[..|blocks|] == blocks;
  }

  lemma BookEmpty(used: seq<bool>)
    requires |used| == 256 && forall c :: 0 <= c < 256 ==> !used[c]
    ensures Book([], [], used, []) && PendingOk([], NO_CHAR, 0)
  {
  }

  // One more run written, marked and summed.
  lemma BookMore(ps: seq<Pair>, b: seq<Byte>, used: seq<bool>, summed: seq<Byte>, ch: int, len: int,
                 b': seq<Byte>, used': seq<bool>, summed': seq<Byte>)
    requires Book(ps, b, used, summed) && PendingOk(ps, ch, len) && ch < NO_CHAR
    requires b' == b + Coded(Pair(ch, len)) && summed' == summed + Repeat(ch, len)
    requires |used'| == 256 && forall c :: 0 <= c < 256 ==> (used'[c] <==>
      used[c] || c == ch || (len >= 4 && c == len - 4))
    ensures Book(ps + [Pair(ch, len)], b', used', summed')
  {
    hide Coded, Repeat, UsedOk, CodedAll, Expand;
    var qs := ps + [Pair(ch, len)];
    assert qs[..|ps|] == ps;
    CodedSplit(ps, Pair(ch, len));
    forall i | 0 <= i < |qs| - 1
      ensures Separate(qs[i], qs[i + 1]) { if i < |ps| - 1 { assert Separate(ps[i], ps[i + 1]); } }
    UsedMore(used, b, used', Pair(ch, len));
  }

  lemma CodedSplit(ps: seq<Pair>, p: Pair)
    requires Runs(ps) && 1 <= p.len <= 255
    ensures Runs(ps + [p]) && CodedAll(ps + [p]) == CodedAll(ps) + Coded(p)
    ensures Expand(ps + [p]) == Expand(ps) + Repeat(p.ch, p.len)
  {
    assert (ps + [p])[..|ps|] == ps;
  }

  lemma UsedMore(used: seq<bool>, b: seq<Byte>, used': seq<bool>, p: Pair)
    requires UsedOk(used, b) && 1 <= p.len <= 255 && |used'| == 256
    requires forall c :: 0 <= c < 256 ==> (used'[c] <==> used[c] || c == p.ch || (p.len >= 4 && c == p.len - 4))
    ensures UsedOk(used', b + Coded(p))
  {
    hide Repeat;
    var d := Coded(p);
    forall c | 0 <= c < 256 ensures c in d <==> c == p.ch || (p.len >= 4 && c == p.len - 4) {
      if c in d {
        var i :| 0 <= i < |d| && d[i] == c;
      }
      assert d[0] == p.ch;
      if p.len >= 4 { assert d[4] == p.len - 4; }
    }
  }

  // After a run was written, any byte may be counted next that the run separates.
  lemma PendingNext(ps: seq<Pair>, ch: int, len: int, c: Byte)
    requires 0 <= ch < 256 && 1 <= len <= 255 && (c != ch || len == 255)
    ensures PendingOk(ps + [Pair(ch, len)], c, 1)
  {
  }

  lemma PendingGrows(ps: seq<Pair>, ch: int, len: int)
    requires PendingOk(ps, ch, len) && ch < NO_CHAR && len < 255
    ensures PendingOk(ps, ch, len + 1) && Pending(ch, len + 1) == Pending(ch, len) + [ch]
  {
  }

  // Everything consumed so far: the closed blocks decoded, the open block, the pending run.
  ghost predicate Accounted(closed: seq<seq<Byte>>, open: seq<Byte>, pending: seq<Byte>, consumed: seq<Byte>) {
    DecodedAll(closed).Some? && consumed == DecodedAll(closed).s + open + pending
  }

  ghost predicate BlocksFit(closed: seq<seq<Byte>>, max: int) {
    forall i :: 0 <= i < |closed| ==> 1 <= |closed[i]| <= max
  }

  lemma AccountedByte(closed: seq<seq<Byte>>, open: seq<Byte>, pending: seq<Byte>, consumed: seq<Byte>,
                      open': seq<Byte>, pending': seq<Byte>, c: Byte)
    requires Accounted(closed, open, pending, consumed) && open' + pending' == open + pending + [c]
    ensures Accounted(closed, open', pending', consumed + [c])
  {
    hide DecodedAll;
    var d := DecodedAll(closed).s;
    assert d + open' + pending' == d + (open' + pending');
    assert d + (open + pending + [c]) == d + open + pending + [c];
  }

  // Closing the open block.
  lemma AccountedClose(closed: seq<seq<Byte>>, ps: seq<Pair>, b: seq<Byte>, used: seq<bool>, summed: seq<Byte>,
                       pending: seq<Byte>, consumed: seq<Byte>)
    requires Book(ps, b, used, summed) && Accounted(closed, Expand(ps), pending, consumed)
    ensures b == [] ==> Accounted(closed, [], pending, consumed)
    ensures Accounted(closed + [b], [], pending, consumed) && Decode(b) == Some(summed)
  {
    hide DecodedAll, Decode, CodedAll, Expand;
    DecodeRuns(ps);
    DecodedMore(closed, b);
    if b == [] { EmptyRuns(ps); }
    var d := DecodedAll(closed).s;
    assert d + Expand(ps) + [] == d + Expand(ps);
  }

  lemma NoPending()
    ensures Pending(NO_CHAR, 0) == []
  {
  }

  lemma ExpandEmpty()
    ensures Expand([]) == []
  {
  }

  lemma EmptyRuns(ps: seq<Pair>)
    requires Runs(ps) && CodedAll(ps) == []
    ensures Expand(ps) == []
  {
  }

  lemma CodedCases(b: seq<Byte>, c: Byte, len: int)
    requires 1 <= len <= 255
    ensures len == 1 ==> b + Coded(Pair(c, len)) == b + [c]
    ensures len == 2 ==> b + Coded(Pair(c, len)) == b + [c] + [c]
    ensures len == 3 ==> b + Coded(Pair(c, len)) == b + [c] + [c] + [c]
    ensures len >= 4 ==> b + Coded(Pair(c, len)) == b + [c] + [c] + [c] + [c] + [len - 4]
    ensures |Coded(Pair(c, len))| == if len <= 3 then len else 5
  {
  }

  // How things stood when a call began.
  datatype Begin = Begin(input: seq<Byte>, availOut: nat, closed: seq<seq<Byte>>, state: Phase, mode: Mode,
                         stuck: bool, rested: bool, roomy: bool)

  class EState {
    const blockSize100k: nat
    const nblockMAX: int
    const block: array<Byte>
    const inUse: array<bool>
    var mode: Mode
    var state: Phase
    var stateInCh: int
    var stateInLen: int
    var nblock: nat
    var availInExpect: nat
    var stateOutPos: nat
    var numZ: nat
    var input: seq<Byte>
    var availOut: nat
    ghost var runs: seq<Pair>
    ghost var summed: seq<Byte>
    ghost var closed: seq<seq<Byte>>
    ghost var consumed: seq<Byte>

    // BZ2_bzCompressInit, for a legal block size.
    constructor (size100k: nat)
      requires 1 <= size100k <= 9
      ensures Ready() && state == Input && nblock == 0 && nblockMAX == 100000 * size100k - 19
      ensures fresh(this.block) && fresh(this.inUse) && mode == Running
        && consumed == [] && input == [] && closed == []
    {
      blockSize100k := size100k;
      nblockMAX := 100000 * size100k - 19;
      block := new Byte[100000 * size100k];
      inUse := new bool[256](_ => false);
      mode, state := Running, Input;
      stateInCh, stateInLen := NO_CHAR, 0;
      nblock, availInExpect, stateOutPos, numZ, availOut := 0, 0, 0, 0, 0;
      input, runs, summed, closed, consumed := [], [], [], [], [];
      new;
      BookEmpty(inUse[..]);
      assert block[..0] == [];
    }

    ghost predicate Shape()
      reads this
    {
      && 1 <= blockSize100k <= 9 && nblockMAX == 100000 * blockSize100k - 19
      && block.Length >= 100000 * blockSize100k && inUse.Length == 256
      && nblock <= 100000 * blockSize100k - 10
    }

    // The block under construction and the run being counted.
    ghost predicate Collecting()
      reads this, block, inUse
    {
      Shape() && Book(runs, block[..nblock], inUse[..], summed) && PendingOk(runs, stateInCh, stateInLen)
    }

    // BZ_UPDATE_CRC for each byte of the run, then the coded run itself.
    method AddPairToBlock()
      requires Collecting() && stateInCh < NO_CHAR && nblock + 5 <= 100000 * blockSize100k - 10
      modifies this`nblock, this`runs, this`summed, block, inUse
      ensures Shape() && nblock <= old(nblock) + 5
      ensures runs == old(runs) + [Pair(stateInCh, stateInLen)]
      ensures Book(runs, block[..nblock], inUse[..], summed)
    {
      hide Book, Coded, Repeat;
      ghost var ps, b, used, s0 := runs, block[..nblock], inUse[..], summed;
      var ch := stateInCh;
      summed := summed + Repeat(ch, stateInLen);
      inUse[stateInCh] := true;
      if stateInLen >= 4 { inUse[stateInLen - 4] := true; }
      ghost var p := Pair(ch, stateInLen);
      WriteCoded(ch, stateInLen);
      runs := runs + [p];
      BookMore(ps, b, used, s0, ch, stateInLen, block[..nblock], inUse[..], summed);
    }

    // The five ways of the switch.
    method WriteCoded(ch: Byte, len: int)
      requires Shape() && 1 <= len <= 255 && nblock + 5 <= 100000 * blockSize100k - 10
      modifies this`nblock, block
      ensures Shape() && nblock == old(nblock) + |Coded(Pair(ch, len))|
      ensures block[..nblock] == old(block[..nblock]) + Coded(Pair(ch, len))
    {
      hide Coded;
      CodedCases(block[..nblock], ch, len);
      if len == 1 {
        Put(ch);
      } else if len == 2 {
        Put(ch);
        Put(ch);
      } else if len == 3 {
        Put(ch);
        Put(ch);
        Put(ch);
      } else {
        Put(ch);
        Put(ch);
        Put(ch);
        Put(ch);
        Put(len - 4);
      }
    }

    method Put(c: Byte)
      requires Shape() && nblock + 1 <= 100000 * blockSize100k - 10
      modifies this`nblock, block
      ensures Shape() && nblock == old(nblock) + 1 && block[..nblock] == old(block[..nblock]) + [c]
    {
      block[nblock] := c;
      nblock := nblock + 1;
    }

    method InitRL()
      modifies this`stateInCh, this`stateInLen
      ensures stateInCh == NO_CHAR && stateInLen == 0
    {
      stateInCh := NO_CHAR;
      stateInLen := 0;
    }

    // The pending run goes into the block.
    method FlushRL()
      requires Collecting() && nblock + 5 <= 100000 * blockSize100k - 10
      requires Accounted(closed, Expand(runs), Pending(stateInCh, stateInLen), consumed)
      modifies this`nblock, this`runs, this`summed, this`stateInCh, this`stateInLen, block, inUse
      ensures Collecting() && stateInCh == NO_CHAR && stateInLen == 0
      ensures Accounted(closed, Expand(runs), [], consumed)
    {
      hide Book, Expand, DecodedAll, CodedAll;
      BookRuns(runs, block[..nblock], inUse[..], summed);
      if stateInCh < NO_CHAR {
        CodedSplit(runs, Pair(stateInCh, stateInLen));
        AccountedFlush(closed, Expand(runs), Pending(stateInCh, stateInLen), consumed);
        AddPairToBlock();
      }
      InitRL();
    }

    // ADD_CHAR_TO_BLOCK.
    method AddChar(zchh: Byte)
      requires Collecting() && nblock < nblockMAX && (stateInCh == NO_CHAR ==> runs == [])
      requires Accounted(closed, Expand(runs), Pending(stateInCh, stateInLen), consumed)
      modifies this`nblock, this`runs, this`summed, this`stateInCh, this`stateInLen, this`consumed, block, inUse
      ensures Collecting() && stateInCh != NO_CHAR && nblock <= old(nblock) + 5 && consumed == old(consumed) + [zchh]
      ensures Accounted(closed, Expand(runs), Pending(stateInCh, stateInLen), consumed)
    {
      hide Book, Expand, DecodedAll, CodedAll, Coded, Repeat, Accounted;
      BookRuns(runs, block[..nblock], inUse[..], summed);
      ghost var ps, ch0, len0 := runs, stateInCh, stateInLen;
      consumed := consumed + [zchh];
      if zchh != stateInCh && stateInLen == 1 {
        AccountedNext(closed, ps, ch0, len0, old(consumed), zchh);
        PendingNext(ps, ch0, len0, zchh);
        AddSingle();
        stateInCh := zchh;
      } else if zchh != stateInCh || stateInLen == 255 {
        if stateInCh < NO_CHAR {
          AccountedNext(closed, ps, ch0, len0, old(consumed), zchh);
          PendingNext(ps, ch0, len0, zchh);
          AddPairToBlock();
        } else {
          AccountedFirst(closed, ps, old(consumed), zchh);
        }
        stateInCh := zchh;
        stateInLen := 1;
      } else {
        PendingGrows(ps, ch0, len0);
        AccountedMore(closed, ps, ch0, len0, old(consumed));
        stateInLen := stateInLen + 1;
      }
    }

    // The fast track of ADD_CHAR_TO_BLOCK: a run of one byte.
    method AddSingle()
      requires Collecting() && stateInCh < NO_CHAR && stateInLen == 1 && nblock + 5 <= 100000 * blockSize100k - 10
      modifies this`nblock, this`runs, this`summed, block, inUse
      ensures Shape() && nblock <= old(nblock) + 5
      ensures runs == old(runs) + [Pair(stateInCh, stateInLen)]
      ensures Book(runs, block[..nblock], inUse[..], summed)
    {
      hide Book;
      ghost var ps, b, used, s0 := runs, block[..nblock], inUse[..], summed;
      var ch: Byte := stateInCh;
      summed := summed + [ch];
      inUse[stateInCh] := true;
      Put(ch);
      runs := runs + [Pair(ch, 1)];
      assert [ch] == Coded(Pair(ch, 1)) && [ch] == Repeat(ch, 1);
      BookMore(ps, b, used, s0, ch, 1, block[..nblock], inUse[..], summed);
    }

    // ----- The phases -----

    // In the input phase the block is open; in the output phase it is closed.
    ghost predicate Valid()
      reads this, block, inUse
    {
      && Collecting() && Accounted(closed, Open(), Pending(stateInCh, stateInLen), consumed)
      && BlocksFit(closed, 100000 * blockSize100k - 10)
      && (state == Input ==> nblock < nblockMAX && stateOutPos == 0 == numZ && (stateInCh == NO_CHAR ==> runs == []))
    }

    // Input that still belongs to the flush or finish in progress.
    ghost predicate Expecting()
      reads this
    {
      mode == Flushing || mode == Finishing ==> availInExpect == |input|
    }

    ghost function Open(): seq<Byte>
      requires Runs(runs)
      reads this
    {
      if state == Input then Expand(runs) else []
    }

    predicate IsEmptyRL()
      reads this
    {
      !(stateInCh < 256 && stateInLen > 0)
    }

    method ClearUsed()
      requires inUse.Length == 256
      modifies inUse
      ensures forall c :: 0 <= c < 256 ==> !inUse[c]
    {
      for i := 0 to 256
        invariant forall c :: 0 <= c < i ==> !inUse[c]
      {
        inUse[i] := false;
      }
    }

    method PrepareNewBlock()
      requires Shape() && PendingOk(runs, stateInCh, stateInLen)
      modifies this`nblock, this`numZ, this`stateOutPos, this`runs, this`summed, inUse
      ensures nblock == 0 && numZ == 0 && stateOutPos == 0 && runs == [] && Collecting()
    {
      nblock := 0;
      numZ := 0;
      stateOutPos := 0;
      runs, summed := [], [];
      ClearUsed();
      BookEmpty(inUse[..]);
      assert block[..0] == [];
    }

    // Some bytes come out for the block; an empty one leaves only the trailer, if it is the last.
    method CompressBlock(last: bool)
      requires Collecting() && Accounted(closed, Expand(runs), Pending(stateInCh, stateInLen), consumed)
      requires BlocksFit(closed, 100000 * blockSize100k - 10)
      modifies this`numZ, this`closed
      ensures Accounted(closed, [], Pending(stateInCh, stateInLen), consumed)
      ensures BlocksFit(closed, 100000 * blockSize100k - 10)
      ensures closed == if nblock > 0 then old(closed) + [block[..nblock]] else old(closed)
      ensures nblock > 0 ==> Decode(block[..nblock]) == Some(summed)
      ensures nblock > 0 || last ==> numZ > 0
    {
      hide Book, Accounted, Expand, Decode;
      AccountedClose(closed, runs, block[..nblock], inUse[..], summed, Pending(stateInCh, stateInLen), consumed);
      if nblock > 0 {
        closed := closed + [block[..nblock]];
      }
      numZ := *;
      if (nblock > 0 || last) && numZ == 0 { numZ := 1; }
    }

    // What every step keeps: the input is consumed from the front and nothing is lost.
    ghost predicate Feeding(total: seq<Byte>, max: int)
      reads this, block, inUse
    {
      && Collecting() && nblock <= max && (stateInCh == NO_CHAR ==> runs == [])
      && Accounted(closed, Expand(runs), Pending(stateInCh, stateInLen), consumed)
      && consumed + input == total && BlocksFit(closed, 100000 * blockSize100k - 10)
    }

    // One byte of input, the body of both loops of copy_input_until_stop.
    method TakeByte(counted: bool, ghost total: seq<Byte>)
      requires Feeding(total, nblockMAX + 4) && nblock < nblockMAX && input != [] && (counted ==> availInExpect > 0)
      modifies this`nblock, this`runs, this`summed, this`stateInCh, this`stateInLen, this`consumed, this`input,
        this`availInExpect, block, inUse
      ensures Feeding(total, nblockMAX + 4) && |input| == |old(input)| - 1 && nblock <= old(nblock) + 5
      ensures availInExpect == if counted then old(availInExpect) - 1 else old(availInExpect)
    {
      hide Book, Expand, Accounted, Pending, BlocksFit;
      ghost var c0 := consumed;
      AddChar(input[0]);
      assert c0 + input == c0 + [input[0]] + input[1..];
      input := input[1..];
      if counted { availInExpect := availInExpect - 1; }
    }

    // copy_input_until_stop: the two loops, without and with an expected amount.
    method CopyInputUntilStop(ghost total: seq<Byte>) returns (progressIn: bool)
      requires Feeding(total, nblockMAX - 1) && mode != Idle && Expecting()
      modifies this`nblock, this`runs, this`summed, this`stateInCh, this`stateInLen, this`consumed, this`input,
        this`availInExpect, block, inUse
      ensures Feeding(total, nblockMAX + 4) && Expecting()
      ensures |input| <= |old(input)| && (progressIn <==> |input| < |old(input)|)
      ensures nblock >= nblockMAX || input == [] || (mode != Running && availInExpect == 0)
      ensures nblock >= nblockMAX ==> progressIn
      ensures nblock + 5 * |input| <= old(nblock) + 5 * |old(input)|
      ensures !progressIn ==> stateInCh == old(stateInCh) && stateInLen == old(stateInLen)
    {
      hide Book, Expand, Accounted, Pending, BlocksFit, Collecting;
      progressIn := false;
      if mode == Running {
        while true
          invariant Feeding(total, nblockMAX + 4) && |input| <= |old(input)| && (progressIn <==> |input| < |old(input)|)
          invariant !progressIn ==> nblock < nblockMAX && stateInCh == old(stateInCh) && stateInLen == old(stateInLen)
          invariant nblock + 5 * |input| <= old(nblock) + 5 * |old(input)|
          decreases |input|
        {
          if nblock >= nblockMAX { break; }
          if |input| == 0 { break; }
          progressIn := true;
          TakeByte(false, total);
        }
      } else {
        while true
          invariant Feeding(total, nblockMAX + 4) && |input| <= |old(input)| && (progressIn <==> |input| < |old(input)|)
          invariant !progressIn ==> nblock < nblockMAX && stateInCh == old(stateInCh) && stateInLen == old(stateInLen)
          invariant nblock + 5 * |input| <= old(nblock) + 5 * |old(input)|
          invariant availInExpect == |input|
          decreases |input|
        {
          if nblock >= nblockMAX { break; }
          if |input| == 0 { break; }
          if availInExpect == 0 { break; }
          progressIn := true;
          TakeByte(true, total);
        }
      }
    }

    // copy_output_until_stop.
    method CopyOutputUntilStop() returns (progressOut: bool)
      modifies this`stateOutPos, this`availOut
      ensures availOut == 0 || stateOutPos >= numZ
      ensures availOut <= old(availOut) && (progressOut <==> availOut < old(availOut))
      ensures progressOut <==> old(availOut) > 0 && old(stateOutPos) < numZ
      ensures !progressOut ==> stateOutPos == old(stateOutPos)
    {
      progressOut := false;
      while true
        invariant availOut <= old(availOut) && (progressOut <==> availOut < old(availOut))
        invariant if progressOut then old(availOut) > 0 && old(stateOutPos) < numZ else stateOutPos == old(stateOutPos)
        decreases availOut
      {
        if availOut == 0 { break; }
        if stateOutPos >= numZ { break; }
        progressOut := true;
        stateOutPos := stateOutPos + 1;
        availOut := availOut - 1;
      }
    }

    // Nothing is held back: all consumed bytes are in closed blocks.
    ghost predicate Flushed()
      reads this
    {
      && IsEmptyRL() && availInExpect == 0
      && (state == Input ==> runs == [])
    }

    // Nothing can be done in this mode: no space for what has to come out, or nothing to come
    // out and nothing to take in.
    predicate Stuck(m: Mode, expected: nat)
      reads this
    {
      if state == Output && stateOutPos < numZ then availOut == 0
      else if m == Running then input == []
      else expected == 0 && ((state == Output && IsEmptyRL()) || availOut == 0)
    }

    // Between calls a block in the output phase still has bytes to come out.
    predicate Rested()
      reads this
    {
      mode != Idle && state == Output ==> stateOutPos < numZ
    }

    // What holds between calls.
    ghost predicate Ready()
      reads this, block, inUse
    {
      Valid() && Rested()
    }

    // The input fits into the block being collected, whatever it is.
    predicate Roomy()
      reads this
    {
      state == Input && nblock + 5 * |input| < nblockMAX
    }

    // A flush or finish has taken in all that belongs to it.
    predicate AllTaken()
      reads this
    {
      mode != Running && availInExpect == 0 && IsEmptyRL()
    }

    lemma InputIdle()
      requires Valid() && state == Input
      ensures stateOutPos == 0 == numZ
    {
    }

    // What both phases keep.
    ghost predicate Going(total: seq<Byte>)
      reads this, block, inUse
    {
      Valid() && Expecting() && mode != Idle && consumed + input == total
    }

    // The first half of a round: write out, and open the next block unless all is done.
    method OutputPhase(ghost total: seq<Byte>) returns (progressOut: bool, stop: bool)
      requires Going(total) && state == Output
      modifies this`stateOutPos, this`availOut, this`nblock, this`numZ, this`runs, this`summed, this`state, inUse
      ensures Going(total)
      ensures stop ==> (state == Output && stateOutPos < numZ) || (mode != Running && Flushed())
      ensures stop && state == Output && stateOutPos < numZ ==> availOut == 0
      ensures stop && mode == Finishing ==> state == Output
      ensures stop && mode == Flushing ==> state == Input || stateOutPos < numZ
      ensures !progressOut && old(stateOutPos < numZ) ==> stop && state == Output && stateOutPos < numZ
      ensures !stop ==> state == Input && !(mode != Running && availInExpect == 0 && IsEmptyRL())
      ensures availOut <= old(availOut) && (progressOut <==> availOut < old(availOut))
      ensures progressOut ==> !old(Stuck(mode, availInExpect))
      ensures mode != Flushing && !progressOut ==> (Stuck(mode, availInExpect) <==> old(Stuck(mode, availInExpect)))
      ensures mode != Flushing && !progressOut && stop ==> Stuck(mode, availInExpect)
    {
      hide Book, Expand, Accounted, Pending, BlocksFit, CodedAll, DecodedAll, PendingOk;
      progressOut := CopyOutputUntilStop();
      if stateOutPos < numZ { return progressOut, true; }
      if mode == Finishing && availInExpect == 0 && IsEmptyRL() { return progressOut, true; }
      PrepareNewBlock();
      ExpandEmpty();
      state := Input;
      stop := mode == Flushing && availInExpect == 0 && IsEmptyRL();
    }

    // The second half: collect input, and close the block when it is full or the input is all there.
    method InputPhase(ghost total: seq<Byte>) returns (progressIn: bool, stop: bool)
      requires Going(total) && state == Input
      modifies this`nblock, this`runs, this`summed, this`stateInCh, this`stateInLen, this`consumed, this`input,
        this`availInExpect, this`numZ, this`closed, this`state, block, inUse
      ensures Going(total) && |input| <= |old(input)|
      ensures stop ==> mode == Running && state == Input && input == []
      ensures !stop ==>
        state == Output && (|input| < |old(input)| || (mode != Running && availInExpect == 0 && IsEmptyRL()))
      ensures progressIn <==> |input| < |old(input)|
      ensures !stop && mode != Flushing ==> stateOutPos < numZ
      ensures closed == old(closed) || (|closed| == |old(closed)| + 1 && old(closed) <= closed
        && (|closed[|old(closed)|]| >= nblockMAX || AllTaken()))
      ensures mode == Running && old(nblock) + 5 * |old(input)| < nblockMAX ==> stop
      ensures mode != Flushing && progressIn ==> !old(Stuck(mode, availInExpect))
      ensures mode != Flushing && !progressIn ==> (Stuck(mode, availInExpect) <==> old(Stuck(mode, availInExpect)))
      ensures mode != Flushing && !progressIn && stop ==> Stuck(mode, availInExpect)
    {
      hide Book, Expand, Accounted, Pending, BlocksFit, CodedAll, DecodedAll, PendingOk, Decode;
      progressIn := CopyInputUntilStop(total);
      stop := false;
      if mode != Running && availInExpect == 0 {
        FlushRL();
        NoPending();
        CloseBlock(mode == Finishing);
      } else if nblock >= nblockMAX {
        CloseBlock(false);
      } else if |input| == 0 {
        stop := true;
      }
    }

    // BZ2_compressBlock, and the phase that follows it.
    method CloseBlock(last: bool)
      requires Collecting() && Accounted(closed, Expand(runs), Pending(stateInCh, stateInLen), consumed)
      requires BlocksFit(closed, 100000 * blockSize100k - 10)
      modifies this`numZ, this`closed, this`state
      ensures Valid() && state == Output && (last || nblock > 0 ==> numZ > 0)
      ensures closed == if nblock > 0 then old(closed) + [block[..nblock]] else old(closed)
    {
      hide Book, Expand, Accounted, Pending, BlocksFit, CodedAll, DecodedAll, PendingOk, Decode;
      CompressBlock(last);
      state := Output;
    }

    // handle_compress: alternates between the phases until it has to wait for the caller.
    method HandleCompress() returns (progress: bool)
      requires Valid() && Expecting() && mode != Idle
      modifies this, block, inUse
      ensures Valid() && Expecting() && mode == old(mode) && consumed + input == old(consumed + input)
      ensures (state == Output && stateOutPos < numZ) || (mode == Running && state == Input && input == [])
        || (mode != Running && Flushed())
      ensures mode == Finishing ==> state == Output
      ensures progress <==> |input| < |old(input)| || availOut < old(availOut)
      ensures |input| <= |old(input)|
      ensures state == Output && stateOutPos < numZ ==> availOut == 0
      ensures old(closed) <= closed && FullSince(closed, |old(closed)|, nblockMAX, AllTaken())
      ensures mode == Flushing ==> (state == Output && stateOutPos < numZ) || (AllTaken() && stateOutPos == numZ)
      ensures mode != Flushing ==> (progress <==> !old(Stuck(mode, availInExpect)))
      ensures mode == Flushing ==> state == Input || stateOutPos < numZ
      ensures mode == Finishing ==> stateOutPos < numZ || (availInExpect == 0 && IsEmptyRL())
      ensures mode == Finishing && !progress && old(Rested()) ==> stateOutPos < numZ
      ensures mode == Finishing && !progress && old(state) == Input ==> Flushed()
      ensures mode == Running && old(Roomy()) ==> state == Input && input == []
    {
      hide Valid, Collecting, Book, Accounted, Pending, Since;
      progress := false;
      ghost var total, begin := consumed + input, Begin(input, availOut, closed, state, mode,
        Stuck(mode, availInExpect), Rested(), Roomy());
      SinceStart(begin);
      while true
        invariant Going(total) && mode == old(mode) && Since(begin, progress)
        invariant state == Output || closed == begin.closed || !AllTaken()
        decreases |input|, if IsEmptyRL() then 0 else 1, if state == Input then 1 else 0
      {
        if state == Output {
          var stop;
          progress, stop := OutputRound(total, begin, progress);
          if stop { break; }
        }
        var stop;
        progress, stop := InputRound(total, begin, progress);
        if stop { break; }
      }
      SinceParts(begin, progress);
      if state == Input { InputIdle(); }
    }

    // What has become of a call of handle_compress since it began.
    ghost predicate Since(begin: Begin, progress: bool)
      reads this
    {
      && mode == begin.mode && |input| <= |begin.input| && availOut <= begin.availOut
      && (progress <==> |input| < |begin.input| || availOut < begin.availOut)
      && (mode != Flushing ==> if progress then !begin.stuck else Stuck(mode, availInExpect) == begin.stuck)
      && (mode == Finishing && !progress && begin.rested ==> state == Input || stateOutPos < numZ)
      && (mode == Finishing && !progress && begin.state == Input ==> state == Input || Flushed())
      && (mode == Running && begin.roomy ==> Roomy() || (state == Input && input == []))
      && begin.closed <= closed && FullSince(closed, |begin.closed|, nblockMAX, AllTaken())
    }

    lemma SinceStart(begin: Begin)
      requires begin == Begin(input, availOut, closed, state, mode, Stuck(mode, availInExpect), Rested(), Roomy())
      ensures Since(begin, false)
    {
      FullStart(closed, nblockMAX, AllTaken());
    }

    lemma SinceParts(begin: Begin, progress: bool)
      requires Since(begin, progress)
      ensures |input| <= |begin.input| && (progress <==> |input| < |begin.input| || availOut < begin.availOut)
      ensures mode != Flushing ==> if progress then !begin.stuck else Stuck(mode, availInExpect) == begin.stuck
      ensures mode == Finishing && !progress && begin.rested ==> state == Input || stateOutPos < numZ
      ensures mode == Finishing && !progress && begin.state == Input ==> state == Input || Flushed()
      ensures mode == Running && begin.roomy ==> Roomy() || (state == Input && input == [])
      ensures begin.closed <= closed && FullSince(closed, |begin.closed|, nblockMAX, AllTaken())
    {
      hide FullSince;
    }

    method OutputRound(ghost total: seq<Byte>, ghost begin: Begin, progress0: bool) returns (progress: bool, stop: bool)
      requires Going(total) && state == Output && Since(begin, progress0)
      modifies this`stateOutPos, this`availOut, this`nblock, this`numZ, this`runs, this`summed, this`state, inUse
      ensures Going(total) && Since(begin, progress)
      ensures stop ==> (state == Output && stateOutPos < numZ) || (mode != Running && Flushed())
      ensures stop && state == Output && stateOutPos < numZ ==> availOut == 0
      ensures stop && mode == Finishing ==> state == Output
      ensures stop && mode == Flushing ==> state == Input || stateOutPos < numZ
      ensures stop && mode != Flushing && !progress ==> Stuck(mode, availInExpect)
      ensures !stop ==> state == Input && !(mode != Running && availInExpect == 0 && IsEmptyRL())
    {
      hide Valid, FullSince;
      var out;
      out, stop := OutputPhase(total);
      progress := progress0 || out;
    }

    method InputRound(ghost total: seq<Byte>, ghost begin: Begin, progress0: bool) returns (progress: bool, stop: bool)
      requires Going(total) && state == Input && Since(begin, progress0) && (closed == begin.closed || !AllTaken())
      modifies this`nblock, this`runs, this`summed, this`stateInCh, this`stateInLen, this`consumed, this`input,
        this`availInExpect, this`numZ, this`closed, this`state, block, inUse
      ensures Going(total) && Since(begin, progress) && |input| <= |old(input)|
      ensures stop ==> mode == Running && state == Input && input == []
      ensures stop && !progress ==> Stuck(mode, availInExpect)
      ensures !stop ==>
        state == Output && (|input| < |old(input)| || (mode != Running && availInExpect == 0 && IsEmptyRL()))
    {
      hide Valid, FullSince;
      ghost var before, all := closed, AllTaken();
      var taken;
      taken, stop := InputPhase(total);
      FullNext(before, closed, |begin.closed|, nblockMAX, all, AllTaken());
      progress := progress0 || taken;
    }

    // What the mode allows: a flush or finish is gone on with, by the input it was begun with.
    predicate Allowed(action: Action)
      reads this
    {
      && mode != Idle && (mode == Flushing ==> action == Flush) && (mode == Finishing ==> action == Finish)
      && (mode != Running ==> availInExpect == |input|)
    }

    // Between two calls the caller sets next_in, avail_in and avail_out.
    method Supply(bytes: seq<Byte>, space: nat)
      requires Ready()
      modifies this`input, this`availOut
      ensures Ready() && input == bytes && availOut == space
    {
      hide Book, Expand, Accounted, Pending, BlocksFit, PendingOk;
      input, availOut := bytes, space;
    }

    // BZ2_bzCompress.
    method BzCompress(action: Action) returns (code: Code)
      requires Ready()
      modifies this, block, inUse
      ensures Ready() && consumed + input == old(consumed + input) && |input| <= |old(input)|
      ensures !old(Allowed(action)) ==> code == SequenceError && unchanged(this)
      ensures old(Allowed(action)) && action == Run ==> mode == Running
      ensures old(Allowed(action)) && action == Run ==> code == if old(Stuck(Running, 0)) then ParamError else RunOk
      ensures old(Allowed(action)) && action == Flush ==> code == RunOk || code == FlushOk
      ensures old(Allowed(action)) && action == Finish ==>
        code == SequenceError || code == FinishOk || code == StreamEnd
      ensures old(Allowed(action)) && action == Finish ==> (code == SequenceError <==> old(Stuck(Finishing, |input|)))
      ensures old(Allowed(action)) && action == Run && old(Roomy()) ==> state == Input && input == []
      ensures old(Allowed(action)) && action == Finish ==>
        (code == SequenceError <==> old(availOut == 0 && (state == Output || input == [])))
      ensures old(Allowed(action)) && action == Run && old(availOut > 0 && input != []) ==> code == RunOk
      ensures code == SequenceError && old(Allowed(action)) && old(state) == Input ==> AllClosed()
      ensures code == StreamEnd ==> mode == Idle && action == Finish && input == [] && AllClosed()
      ensures code == RunOk && action == Flush ==> mode == Running && input == [] && AllClosed()
      ensures code == FlushOk ==> mode == Flushing && availOut == 0 && state == Output && stateOutPos < numZ
      ensures code == FinishOk ==> mode == Finishing && availOut == 0 && state == Output && stateOutPos < numZ
      ensures action == Run && code == RunOk ==>
        input == [] || (availOut == 0 && state == Output && stateOutPos < numZ)
      ensures old(closed) <= closed
      ensures forall i :: |old(closed)| <= i < |closed| && (i < |closed| - 1 || action == Run) ==>
        |closed[i]| >= nblockMAX
      ensures code == SequenceError && old(Allowed(action)) ==> mode == Finishing
    {
      hide Valid, Collecting, Book, Accounted, Pending, Flushed;
      ghost var from := state;
      if mode == Idle { return SequenceError; }
      if mode == Running {
        if action == Run {
          var progress := HandleCompress();
          return if progress then RunOk else ParamError;
        }
        BeginMode(if action == Flush then Flushing else Finishing);
      }
      if mode == Flushing {
        if action != Flush { return SequenceError; }
        if availInExpect != |input| { return SequenceError; }
        var progress := HandleCompress();
        if availInExpect > 0 || !IsEmptyRL() || stateOutPos < numZ { return FlushOk; }
        FlushedAll();
        SetMode(Running);
        return RunOk;
      }
      if action != Finish { return SequenceError; }
      if availInExpect != |input| { return SequenceError; }
      var progress := HandleCompress();
      if !progress {
        if from == Input { FlushedAll(); }
        return SequenceError;
      }
      if availInExpect > 0 || !IsEmptyRL() || stateOutPos < numZ { return FinishOk; }
      FlushedAll();
      SetMode(Idle);
      return StreamEnd;
    }

    // The closed blocks decode to everything that was consumed.
    ghost predicate AllClosed()
      reads this
    {
      DecodedAll(closed).Some? && DecodedAll(closed).s == consumed
    }

    lemma FlushedAll()
      requires Valid() && Flushed()
      ensures AllClosed()
    {
      hide DecodedAll, Book, BlocksFit;
      ExpandEmpty();
      assert DecodedAll(closed).s + [] + [] == DecodedAll(closed).s;
    }

    method BeginMode(m: Mode)
      requires Valid()
      modifies this`mode, this`availInExpect
      ensures Valid() && mode == m && availInExpect == |input|
    {
      hide Book, Accounted, BlocksFit, PendingOk;
      availInExpect := |input|;
      mode := m;
    }

    method SetMode(m: Mode)
      requires Valid()
      modifies this`mode
      ensures Valid() && mode == m
    {
      hide Book, Accounted, BlocksFit, PendingOk;
      mode := m;
    }
  }

  // The blocks closed since there were n of them are full, but for the last of a flush or finish.
  ghost predicate FullSince(closed: seq<seq<Byte>>, n: nat, max: int, all: bool) {
    forall i :: n <= i < |closed| && (i < |closed| - 1 || !all) ==> |closed[i]| >= max
  }

  lemma FullStart(closed: seq<seq<Byte>>, max: int, all: bool)
    ensures FullSince(closed, |closed|, max, all)
  {
  }

  lemma FullNext(before: seq<seq<Byte>>, after: seq<seq<Byte>>, n: nat, max: int, all: bool, all': bool)
    requires FullSince(before, n, max, all) && n <= |before| && (|before| == n || !all)
    requires after == before
      || (|after| == |before| + 1 && before <= after && (|after[|before|]| >= max || all'))
    ensures FullSince(after, n, max, all')
  {
  }

  // One byte taken in, and a finish without any output space: the answer is a sequence error, and yet
  // the last block has been closed and holds the byte.
  method FinishWithoutSpace() returns (s: EState, ran: Code, finished: Code)
    ensures ran == RunOk && finished == SequenceError && s.mode == Finishing
    ensures s.AllClosed() && s.consumed == [7]
  {
    hide EState.Ready, EState.AllClosed;
    s := new EState(1);
    s.Supply([7], 0);
    ran := s.BzCompress(Run);
    assert s.consumed == [] + [7];
    s.Supply([], 0);
    finished := s.BzCompress(Finish);
    assert s.consumed == s.consumed + s.input == [7] + [];
  }

  lemma BookRuns(ps: seq<Pair>, b: seq<Byte>, used: seq<bool>, summed: seq<Byte>)
    requires Book(ps, b, used, summed)
    ensures Runs(ps)
  {
  }

  lemma AccountedFlush(closed: seq<seq<Byte>>, open: seq<Byte>, pending: seq<Byte>, consumed: seq<Byte>)
    requires Accounted(closed, open, pending, consumed)
    ensures Accounted(closed, open + pending, [], consumed)
  {
    hide DecodedAll;
    assert DecodedAll(closed).s + (open + pending) + [] == DecodedAll(closed).s + open + pending;
  }

  // A byte that starts a new run: the old one has been written.
  lemma AccountedNext(closed: seq<seq<Byte>>, ps: seq<Pair>, ch: int, len: int, consumed: seq<Byte>, c: Byte)
    requires Runs(ps) && 0 <= ch < 256 && 1 <= len <= 255 && Accounted(closed, Expand(ps), Pending(ch, len), consumed)
    ensures Runs(ps + [Pair(ch, len)])
    ensures Accounted(closed, Expand(ps + [Pair(ch, len)]), Pending(c, 1), consumed + [c])
  {
    hide Accounted, Expand;
    CodedSplit(ps, Pair(ch, len));
    assert Pending(c, 1) == [c];
    AccountedByte(closed, Expand(ps), Pending(ch, len), consumed, Expand(ps + [Pair(ch, len)]), Pending(c, 1), c);
  }

  lemma AccountedFirst(closed: seq<seq<Byte>>, ps: seq<Pair>, consumed: seq<Byte>, c: Byte)
    requires Runs(ps) && Accounted(closed, Expand(ps), Pending(NO_CHAR, 0), consumed)
    ensures Accounted(closed, Expand(ps), Pending(c, 1), consumed + [c])
  {
    hide Accounted, Expand;
    assert Pending(c, 1) == [c];
    assert Expand(ps) + [c] == Expand(ps) + [] + [c];
    AccountedByte(closed, Expand(ps), [], consumed, Expand(ps), Pending(c, 1), c);
  }

  lemma AccountedMore(closed: seq<seq<Byte>>, ps: seq<Pair>, ch: int, len: int, consumed: seq<Byte>)
    requires Runs(ps) && 0 <= ch < 256 && 1 <= len < 255 && Accounted(closed, Expand(ps), Pending(ch, len), consumed)
    ensures Accounted(closed, Expand(ps), Pending(ch, len + 1), consumed + [ch])
  {
    hide Accounted, Expand;
    assert Pending(ch, len + 1) == Pending(ch, len) + [ch];
    assert Expand(ps) + (Pending(ch, len) + [ch]) == Expand(ps) + Pending(ch, len) + [ch];
    AccountedByte(closed, Expand(ps), Pending(ch, len), consumed, Expand(ps), Pending(ch, len + 1), ch);
  }
}
