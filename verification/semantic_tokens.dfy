/**
 `_encode_tokens` of `server.py`: the integer encoding of semantic tokens
 described in the "Semantic Tokens" section of the Language Server
 Protocol 3.16 specification. Each token becomes five integers, its line
 relative to the previous token's line and its start column relative to the
 previous token's column when both lie on the same line.

 The decoder is the one the test suite uses to read the encoding back.
 */
module SemanticTokens {
  import opened StableSort

  /** `(line, col, length, token_type, modifiers)`; positions are 0-based. */
  datatype Token = Token(line: nat, col: nat, length: int, tokenType: int, modifiers: int)

  /** The sort key `(t[0], t[1])`. */
  function Position(t: Token): Rank
  {
    Rank(t.line, t.col)
  }

  /** The five integers of one token, given the position of the token before it. */
  function Chunk(t: Token, prevLine: int, prevCol: int): (c: seq<int>)
    ensures |c| == 5
  {
    var deltaLine := t.line - prevLine;
    var deltaCol := if deltaLine == 0 then t.col - prevCol else t.col;
    [deltaLine, deltaCol, t.length, t.tokenType, t.modifiers]
  }

  /** The encoding of `ts`, the token before them being at `(prevLine, prevCol)`. */
  function EncodeFrom(ts: seq<Token>, prevLine: int, prevCol: int): (data: seq<int>)
    ensures |data| == 5 * |ts|
  {
    if ts == [] then [] else Chunk(ts[0], prevLine, prevCol) + EncodeFrom(ts[1..], ts[0].line, ts[0].col)
  }

  /** The test suite's `_decode_tokens`, continuing from position `(line, col)`. */
  function Decode(data: seq<int>, line: int, col: int): seq<(int, int, int, int, int)>
    requires |data| % 5 == 0
  {
    if |data| == 0 then []
    else
      var l := line + data[0];
      var c := if data[0] > 0 then data[1] else col + data[1];
      [(l, c, data[2], data[3], data[4])] + Decode(data[5..], l, c)
  }

  function AsTuple(t: Token): (int, int, int, int, int)
  {
    (t.line, t.col, t.length, t.tokenType, t.modifiers)
  }

  function AsTuples(ts: seq<Token>): (r: seq<(int, int, int, int, int)>)
    ensures |r| == |ts|
    ensures forall i :: 0 <= i < |ts| ==> r[i] == AsTuple(ts[i])
  {
    seq(|ts|, i requires 0 <= i < |ts| => AsTuple(ts[i]))
  }

  /** No token lies on an earlier line than the one before it. */
  predicate LinesFrom(ts: seq<Token>, prevLine: int)
  {
    (|ts| > 0 ==> prevLine <= ts[0].line) && forall i :: 0 < i < |ts| ==> ts[i - 1].line <= ts[i].line
  }

  lemma LinesFromTail(ts: seq<Token>, prevLine: int)
    requires ts != [] && LinesFrom(ts, prevLine)
    ensures LinesFrom(ts[1..], ts[0].line)
  {
    forall i | 0 < i < |ts[1..]| ensures ts[1..][i - 1].line <= ts[1..][i].line {
      assert ts[1..][i] == ts[i + 1] && ts[1..][i - 1] == ts[i];
    }
  }

  /** Decoding inverts encoding whenever lines never decrease. */
  lemma {:induction false} DecodeEncode(ts: seq<Token>, prevLine: int, prevCol: int)
    requires LinesFrom(ts, prevLine)
    ensures Decode(EncodeFrom(ts, prevLine, prevCol), prevLine, prevCol) == AsTuples(ts)
    decreases |ts|
  {
    if ts != [] {
      var data := EncodeFrom(ts, prevLine, prevCol);
      var rest := EncodeFrom(ts[1..], ts[0].line, ts[0].col);
      assert data[5..] == rest;
      assert prevLine <= ts[0].line;
      assert data[0] == ts[0].line - prevLine;
      assert Decode(data, prevLine, prevCol) == [AsTuple(ts[0])] + Decode(rest, ts[0].line, ts[0].col);
      LinesFromTail(ts, prevLine);
      DecodeEncode(ts[1..], ts[0].line, ts[0].col);
      assert AsTuples(ts) == [AsTuple(ts[0])] + AsTuples(ts[1..]);
    }
  }

  /** Sorting by position leaves the lines non-decreasing. */
  lemma SortedLines(ts: seq<Token>)
    requires SortedBy(ts, Position)
    ensures LinesFrom(ts, 0)
  {
    forall i | 0 < i < |ts| ensures ts[i - 1].line <= ts[i].line {
      assert !RankLess(Position(ts[i]), Position(ts[i - 1]));
    }
    assert |ts| > 0 ==> 0 <= ts[0].line;
  }

  /**
   Every line delta is non-negative, and a column delta is negative only
   when it is not relative, that is, when the line changed.
   */
  predicate ForwardDeltas(data: seq<int>)
    requires |data| % 5 == 0
  {
    forall k :: 0 <= k < |data| / 5 ==> data[5 * k] >= 0 && (data[5 * k] == 0 ==> data[5 * k + 1] >= 0)
  }

  lemma {:induction false} EncodeForward(ts: seq<Token>, prevLine: int, prevCol: int)
    requires SortedBy(ts, Position)
    requires ts != [] ==> Position(ts[0]) == Rank(prevLine, prevCol) || RankLess(Rank(prevLine, prevCol), Position(ts[0]))
    ensures ForwardDeltas(EncodeFrom(ts, prevLine, prevCol))
    decreases |ts|
  {
    if ts != [] {
      var data := EncodeFrom(ts, prevLine, prevCol);
      var rest := EncodeFrom(ts[1..], ts[0].line, ts[0].col);
      assert data == Chunk(ts[0], prevLine, prevCol) + rest;
      if |ts| > 1 {
        assert !RankLess(Position(ts[1]), Position(ts[0]));
      }
      EncodeForward(ts[1..], ts[0].line, ts[0].col);
      forall k | 0 <= k < |data| / 5
        ensures data[5 * k] >= 0 && (data[5 * k] == 0 ==> data[5 * k + 1] >= 0)
      {
        if k > 0 {
          assert data[5 * k] == rest[5 * (k - 1)] && data[5 * k + 1] == rest[5 * (k - 1) + 1];
        }
      }
    }
  }

  /**
   `_encode_tokens(tokens)`: the tokens sorted by position (stably, as
   `list.sort` does), then encoded as relative integers. Decoding the
   result gives back the sorted tokens.
   */
  method EncodeTokens(tokens: seq<Token>) returns (data: seq<int>)
    ensures |data| == 5 * |tokens|
    ensures Decode(data, 0, 0) == AsTuples(SortBy(tokens, Position))
    ensures ForwardDeltas(data)
  {
    var sorted := SortBy(tokens, Position);
    data := [];
    var prevLine := 0;
    var prevCol := 0;
    var k := 0;
    while k < |sorted|
      invariant 0 <= k <= |sorted|
      invariant data + EncodeFrom(sorted[k..], prevLine, prevCol) == EncodeFrom(sorted, 0, 0)
      invariant k > 0 ==> prevLine == sorted[k - 1].line && prevCol == sorted[k - 1].col
      invariant k == 0 ==> prevLine == 0 && prevCol == 0
    {
      var t := sorted[k];
      EncodeStep(sorted, k, prevLine, prevCol, data);
      data := data + Chunk(t, prevLine, prevCol);
      prevLine := t.line;
      prevCol := t.col;
      k := k + 1;
    }
    assert sorted[k..] == [];
    assert data == EncodeFrom(sorted, 0, 0);
    EncodingOfSorted(tokens);
  }

  lemma EncodeStep(ts: seq<Token>, k: nat, prevLine: int, prevCol: int, done: seq<int>)
    requires k < |ts|
    ensures done + EncodeFrom(ts[k..], prevLine, prevCol)
      == (done + Chunk(ts[k], prevLine, prevCol)) + EncodeFrom(ts[k + 1..], ts[k].line, ts[k].col)
  {
    assert ts[k..][1..] == ts[k + 1..];
  }

  /** What the encoding of the sorted tokens satisfies. */
  lemma EncodingOfSorted(tokens: seq<Token>)
    ensures |EncodeFrom(SortBy(tokens, Position), 0, 0)| == 5 * |tokens|
    ensures Decode(EncodeFrom(SortBy(tokens, Position), 0, 0), 0, 0) == AsTuples(SortBy(tokens, Position))
    ensures ForwardDeltas(EncodeFrom(SortBy(tokens, Position), 0, 0))
  {
    var sorted := SortBy(tokens, Position);
    assert |multiset(sorted)| == |multiset(tokens)|;
    SortedLines(sorted);
    DecodeEncode(sorted, 0, 0);
    EncodeForward(sorted, 0, 0);
  }
}
