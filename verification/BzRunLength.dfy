// The first run-length stage of bzip2 (dep/bzip2/bzlib.c): runs of 1 to 255 equal bytes
// become at most four copies and, from four on, a count byte.
module BzRunLength {
  import opened ByteType

  // A run of one byte value.
  datatype Pair = Pair(ch: Byte, len: int)

  function Repeat(c: Byte, n: nat): (s: seq<Byte>)
    ensures |s| == n && forall i :: 0 <= i < n ==> s[i] == c
  {
    seq(n, _ => c)
  }

  predicate Runs(ps: seq<Pair>) {
    forall i :: 0 <= i < |ps| ==> 1 <= ps[i].len <= 255
  }

  // What add_pair_to_block writes for a run.
  function Coded(p: Pair): (s: seq<Byte>)
    requires 1 <= p.len <= 255
    ensures 1 <= |s| <= 5
  {
    if p.len <= 3 then Repeat(p.ch, p.len) else Repeat(p.ch, 4) + [p.len - 4]
  }

  function CodedAll(ps: seq<Pair>): seq<Byte>
    requires Runs(ps)
  {
    if ps == [] then [] else CodedAll(ps[..|ps| - 1]) + Coded(ps[|ps| - 1])
  }

  // The bytes the runs stand for.
  function Expand(ps: seq<Pair>): seq<Byte>
    requires Runs(ps)
  {
    if ps == [] then [] else Expand(ps[..|ps| - 1]) + Repeat(ps[|ps| - 1].ch, ps[|ps| - 1].len)
  }

  // Neighbouring runs differ, unless the first of them was cut off at 255.
  predicate Separate(p: Pair, q: Pair) {
    p.ch != q.ch || p.len == 255
  }

  predicate Separated(ps: seq<Pair>) {
    forall i :: 0 <= i < |ps| - 1 ==> Separate(ps[i], ps[i + 1])
  }

  // ----- Decoding a block -----

  datatype Option = Some(s: seq<Byte>) | None

  function Join(s: seq<Byte>, r: Option): Option {
    if r.Some? then Some(s + r.s) else None
  }

  // Up to three equal bytes stand for themselves, four are followed by a count;
  // a block that ends after four equal bytes is corrupt.
  function Decode(b: seq<Byte>): Option {
    if b == [] then Some([])
    else if |b| == 1 || b[1] != b[0] then Join(Repeat(b[0], 1), Decode(b[1..]))
    else if |b| == 2 || b[2] != b[0] then Join(Repeat(b[0], 2), Decode(b[2..]))
    else if |b| == 3 || b[3] != b[0] then Join(Repeat(b[0], 3), Decode(b[3..]))
    else if |b| == 4 then None
    else Join(Repeat(b[0], b[4] as int + 4), Decode(b[5..]))
  }

  // One coded run in front of something that does not continue it.
  lemma DecodeCoded(p: Pair, rest: seq<Byte>)
    requires 1 <= p.len <= 255 && (p.len <= 3 && rest != [] ==> rest[0] != p.ch)
    ensures Decode(Coded(p) + rest) == Join(Repeat(p.ch, p.len), Decode(rest))
  {
    hide Decode, Repeat;
    if p.len <= 3 { DecodeShort(p.ch, p.len, Repeat(p.ch, p.len) + rest, rest); }
    else { DecodeLong(p.ch, p.len - 4, Repeat(p.ch, 4) + [p.len - 4] + rest, rest); }
  }

  lemma DecodeShort(c: Byte, n: nat, b: seq<Byte>, rest: seq<Byte>)
    requires 1 <= n <= 3 && |b| == n + |rest| && b[n..] == rest && (rest != [] ==> rest[0] != c)
    requires forall i :: 0 <= i < n ==> b[i] == c
    ensures Decode(b) == Join(Repeat(c, n), Decode(rest))
  {
    hide Repeat;
    assert rest != [] ==> b[n] == rest[0];
  }

  lemma DecodeLong(c: Byte, n: Byte, b: seq<Byte>, rest: seq<Byte>)
    requires |b| == 5 + |rest| && b[5..] == rest && b[4] == n && forall i :: 0 <= i < 4 ==> b[i] == c
    ensures Decode(b) == Join(Repeat(c, n as int + 4), Decode(rest))
  {
    hide Repeat;
  }

  // ----- From the front -----

  function CodedFront(ps: seq<Pair>): seq<Byte>
    requires Runs(ps)
  {
    if ps == [] then [] else Coded(ps[0]) + CodedFront(ps[1..])
  }

  function ExpandFront(ps: seq<Pair>): seq<Byte>
    requires Runs(ps)
  {
    if ps == [] then [] else Repeat(ps[0].ch, ps[0].len) + ExpandFront(ps[1..])
  }

  lemma {:induction false} FrontSame(ps: seq<Pair>, k: nat)
    requires Runs(ps) && k <= |ps|
    ensures CodedAll(ps[..k]) + CodedFront(ps[k..]) == CodedFront(ps)
    ensures Expand(ps[..k]) + ExpandFront(ps[k..]) == ExpandFront(ps)
  {
    hide Coded, Repeat;
    if k == 0 { assert ps[..0] == [] && ps[0..] == ps; }
    else {
      FrontSame(ps, k - 1);
      assert ps[..k][..k - 1] == ps[..k - 1] && ps[k - 1..][1..] == ps[k..];
      Regroup(CodedAll(ps[..k - 1]), Coded(ps[k - 1]), CodedFront(ps[k..]));
      Regroup(Expand(ps[..k - 1]), Repeat(ps[k - 1].ch, ps[k - 1].len), ExpandFront(ps[k..]));
    }
  }

  lemma Regroup(a: seq<Byte>, b: seq<Byte>, c: seq<Byte>)
    ensures a + b + c == a + (b + c)
  {
  }

  lemma {:induction false} DecodeFront(ps: seq<Pair>)
    requires Runs(ps) && Separated(ps)
    ensures Decode(CodedFront(ps)) == Some(ExpandFront(ps))
  {
    if ps != [] {
      DecodeFront(ps[1..]);
      if |ps| > 1 {
        assert Separate(ps[0], ps[1]);
        assert CodedFront(ps[1..])[0] == ps[1].ch;
      }
      DecodeCoded(ps[0], CodedFront(ps[1..]));
    }
  }

  // Decoding a block of separated runs gives their bytes.
  lemma DecodeRuns(ps: seq<Pair>)
    requires Runs(ps) && Separated(ps)
    ensures Decode(CodedAll(ps)) == Some(Expand(ps))
  {
    hide Decode, CodedFront, ExpandFront;
    DecodeFront(ps);
    FrontSame(ps, |ps|);
    assert ps[..|ps|] == ps && ps[|ps|..] == [];
    FrontEmpty();
    assert CodedAll(ps) + [] == CodedAll(ps) && Expand(ps) + [] == Expand(ps);
  }

  lemma FrontEmpty()
    ensures CodedFront([]) == [] && ExpandFront([]) == []
  {
  }

  // A four-byte block of equal bytes has lost its count.
  lemma CorruptExample()
    ensures Decode([7, 7, 7, 7]) == None
  {
  }
}
