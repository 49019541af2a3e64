// What deflate emits: literals and matches, and the bytes they stand for (RFC 1951,
// section 3.2.3: a match copies byte by byte and may overlap itself).
module DeflateTokens {
  import opened ByteType

  const MIN_MATCH := 3
  const MAX_MATCH := 258
  const MIN_LOOKAHEAD := MAX_MATCH + MIN_MATCH + 1

  datatype Token = Literal(c: Byte) | Match(len: int, dist: int)

  // Copying len bytes from dist back, one at a time.
  function Copy(out: seq<Byte>, len: nat, dist: int): (r: seq<Byte>)
    requires 1 <= dist <= |out|
    ensures |r| == |out| + len && out <= r
  {
    if len == 0 then out
    else
      var r := Copy(out, len - 1, dist);
      r + [r[|r| - dist]]
  }

  // The tokens make sense after the bytes out.
  predicate Legal(t: Token, n: nat, maxDist: int) {
    t.Match? ==> MIN_MATCH <= t.len <= MAX_MATCH && 1 <= t.dist <= maxDist && t.dist <= n
  }

  function Apply(out: seq<Byte>, t: Token): (r: seq<Byte>)
    requires Legal(t, |out|, |out|)
    ensures out <= r && |r| == |out| + Length(t)
  {
    match t
    case Literal(c) => out + [c]
    case Match(len, dist) => Copy(out, len, dist)
  }

  function Length(t: Token): nat {
    match t
    case Literal(_) => 1
    case Match(len, _) => if len >= 0 then len else 0
  }

  function TotalLength(ts: seq<Token>): nat {
    if ts == [] then 0 else TotalLength(ts[..|ts| - 1]) + Length(ts[|ts| - 1])
  }

  // Every token is legal where it stands.
  predicate LegalAll(ts: seq<Token>, n: nat, maxDist: int) {
    ts == [] || (LegalAll(ts[..|ts| - 1], n, maxDist) && Legal(ts[|ts| - 1], n + TotalLength(ts[..|ts| - 1]), maxDist))
  }

  function Replay(out: seq<Byte>, ts: seq<Token>, maxDist: int): (r: seq<Byte>)
    requires LegalAll(ts, |out|, maxDist)
    ensures |r| == |out| + TotalLength(ts)
  {
    if ts == [] then out
    else
      var r := Replay(out, ts[..|ts| - 1], maxDist);
      Apply(r, ts[|ts| - 1])
  }

  // data repeats itself at distance dist from n on, for len bytes.
  predicate Repeats(data: seq<Byte>, n: nat, len: nat, dist: int) {
    1 <= dist <= n && n + len <= |data| && forall i :: n <= i < n + len ==> data[i] == data[i - dist]
  }

  lemma {:induction false} CopyIs(data: seq<Byte>, n: nat, len: nat, dist: int)
    requires Repeats(data, n, len, dist)
    ensures Copy(data[..n], len, dist) == data[..n + len]
  {
    if len > 0 {
      CopyIs(data, n, len - 1, dist);
      assert data[n + (len - 1)] == data[n + (len - 1) - dist];
      assert data[..n + len] == data[..n + len - 1] + [data[n + len - 1]];
    } else {
      assert data[..n + 0] == data[..n];
    }
  }

  // ts written after the first start bytes give the first n bytes of data.
  ghost predicate Gives(ts: seq<Token>, data: seq<Byte>, start: nat, n: nat, maxDist: int) {
    && start <= n <= |data| && LegalAll(ts, start, maxDist) && Replay(data[..start], ts, maxDist) == data[..n]
  }

  lemma GivesNothing(data: seq<Byte>, n: nat, maxDist: int)
    requires n <= |data|
    ensures Gives([], data, n, n, maxDist)
  {
  }

  lemma GivesLength(ts: seq<Token>, data: seq<Byte>, start: nat, n: nat, maxDist: int)
    requires Gives(ts, data, start, n, maxDist)
    ensures start <= n <= |data| && TotalLength(ts) == n - start
  {
  }

  lemma AppendToken(ts: seq<Token>, t: Token, n: nat, maxDist: int)
    requires LegalAll(ts, n, maxDist) && Legal(t, n + TotalLength(ts), maxDist)
    ensures LegalAll(ts + [t], n, maxDist) && TotalLength(ts + [t]) == TotalLength(ts) + Length(t)
  {
    assert (ts + [t])[..|ts|] == ts;
  }

  lemma ReplayAppend(out: seq<Byte>, ts: seq<Token>, t: Token, maxDist: int)
    requires LegalAll(ts + [t], |out|, maxDist)
    ensures LegalAll(ts, |out|, maxDist) && Legal(t, |out| + TotalLength(ts), maxDist)
    ensures Replay(out, ts + [t], maxDist) == Apply(Replay(out, ts, maxDist), t)
  {
    assert (ts + [t])[..|ts|] == ts;
  }

  lemma GivesLiteral(ts: seq<Token>, data: seq<Byte>, start: nat, n: nat, maxDist: int)
    requires Gives(ts, data, start, n, maxDist) && n < |data|
    ensures Gives(ts + [Literal(data[n])], data, start, n + 1, maxDist)
  {
    hide Replay, LegalAll, TotalLength;
    var t := Literal(data[n]);
    AppendToken(ts, t, start, maxDist);
    ReplayAppend(data[..start], ts, t, maxDist);
    assert data[..n + 1] == data[..n] + [data[n]];
  }

  lemma GivesMatch(ts: seq<Token>, data: seq<Byte>, start: nat, n: nat, maxDist: int, len: nat, dist: int)
    requires Gives(ts, data, start, n, maxDist) && MIN_MATCH <= len <= MAX_MATCH && dist <= maxDist
    requires Repeats(data, n, len, dist)
    ensures Gives(ts + [Match(len, dist)], data, start, n + len, maxDist)
  {
    hide Replay, LegalAll, TotalLength, Copy;
    var t := Match(len, dist);
    GivesLength(ts, data, start, n, maxDist);
    AppendToken(ts, t, start, maxDist);
    ReplayAppend(data[..start], ts, t, maxDist);
    CopyIs(data, n, len, dist);
  }

  // More data at the end changes nothing.
  lemma GivesMore(ts: seq<Token>, data: seq<Byte>, more: seq<Byte>, start: nat, n: nat, maxDist: int)
    requires Gives(ts, data, start, n, maxDist)
    ensures Gives(ts, data + more, start, n, maxDist)
  {
    hide Replay, LegalAll;
    assert (data + more)[..n] == data[..n] && (data + more)[..start] == data[..start];
  }

  // Token lists of successive blocks follow on from each other.
  lemma {:induction false} ReplayConcat(out: seq<Byte>, ts: seq<Token>, us: seq<Token>, maxDist: int)
    requires LegalAll(ts, |out|, maxDist) && LegalAll(us, |out| + TotalLength(ts), maxDist)
    ensures LegalAll(ts + us, |out|, maxDist) && TotalLength(ts + us) == TotalLength(ts) + TotalLength(us)
    ensures Replay(out, ts + us, maxDist) == Replay(Replay(out, ts, maxDist), us, maxDist)
  {
    if us == [] { assert ts + us == ts; }
    else {
      var u := us[..|us| - 1];
      ReplayConcat(out, ts, u, maxDist);
      assert (ts + us)[..|ts + us| - 1] == ts + u;
    }
  }

  lemma GivesConcat(ts: seq<Token>, us: seq<Token>, data: seq<Byte>, a: nat, b: nat, c: nat, maxDist: int)
    requires Gives(ts, data, a, b, maxDist) && Gives(us, data, b, c, maxDist)
    ensures Gives(ts + us, data, a, c, maxDist)
  {
    hide Replay, LegalAll;
    GivesLength(ts, data, a, b, maxDist);
    ReplayConcat(data[..a], ts, us, maxDist);
  }
}
