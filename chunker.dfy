/**
 * `chunkForDiscord` (src/index.ts): a message longer than the limit is cut
 * into pieces no longer than the limit, preferably at the last line break
 * within reach, with the whitespace around each cut dropped.
 */
module Chunker {
  import opened Text

  /**
   * Where one round of the loop cuts a string longer than the limit: at the
   * last line break at an index from 1 to limit, or at limit when there is
   * none (a line break at index 0 would give an empty cut and is passed over).
   */
  function CutIndex(s: string, limit: nat): (k: nat)
    requires 1 <= limit < |s|
    ensures 1 <= k <= limit
    ensures || (s[k] == '\n' && forall i :: k < i <= limit ==> s[i] != '\n')
            || (k == limit && forall i :: 1 <= i <= limit ==> s[i] != '\n')
  {
    var i := LastIndexOf(s, '\n', limit);
    if i <= 0 then limit else i
  }

  /**
   * The chunks `chunkForDiscord(content, limit)` returns: while more than
   * limit characters remain, the part before the cut, trimmed at its end,
   * is a chunk, and the part from the cut on, trimmed at its start, remains;
   * what remains at last is a chunk when it is not empty.
   */
  function Chunks(content: string, limit: nat): (chunks: seq<string>)
    requires limit >= 1
    ensures forall i :: 0 <= i < |chunks| ==> |chunks[i]| <= limit
    decreases |content|
  {
    if |content| > limit then
      var k := CutIndex(content, limit);
      [TrimEnd(content[..k])] + Chunks(TrimStart(content[k..]), limit)
    else if |content| > 0 then [content]
    else []
  }

  /**
   * The loop of `chunkForDiscord`. A limit of 0 is excluded: the source then
   * returns no chunk for empty content and one empty chunk for whitespace
   * only, but loops forever once the content holds any other character,
   * since every round cuts at index 0 and removes only whitespace.
   */
  method ChunkForDiscord(content: string, limit: nat) returns (chunks: seq<string>)
    requires limit >= 1
    ensures chunks == Chunks(content, limit)
    ensures forall i :: 0 <= i < |chunks| ==> |chunks[i]| <= limit
    ensures |content| <= limit ==> chunks == if content == [] then [] else [content]
  {
    chunks := [];
    var remaining := content;
    PrependEmpty(Chunks(content, limit));
    while |remaining| > limit
      invariant chunks + Chunks(remaining, limit) == Chunks(content, limit)
      decreases |remaining|
    {
      var splitIndex := LastIndexOf(remaining, '\n', limit);
      if splitIndex <= 0 {
        splitIndex := limit;
      }
      assert splitIndex == CutIndex(remaining, limit);
      var chunk := TrimEnd(remaining[..splitIndex]);
      var next := TrimStart(remaining[splitIndex..]);
      ChunksRound(chunks, remaining, limit);
      chunks := chunks + [chunk];
      remaining := next;
    }
    if |remaining| > 0 {
      chunks := chunks + [remaining];
    } else {
      assert chunks + [] == chunks;
    }
  }

  /** One round of the loop moves the first chunk of what remains to the chunks found so far. */
  lemma ChunksRound(done: seq<string>, s: string, limit: nat)
    requires 1 <= limit < |s|
    ensures var k := CutIndex(s, limit);
            (done + [TrimEnd(s[..k])]) + Chunks(TrimStart(s[k..]), limit) == done + Chunks(s, limit)
  {
    var k := CutIndex(s, limit);
    ChunksStep(s, limit);
    AppendAssoc(done, [TrimEnd(s[..k])], Chunks(TrimStart(s[k..]), limit));
  }

  /** One round of the loop: the first chunk, then the chunks of what remains. */
  lemma ChunksStep(s: string, limit: nat)
    requires 1 <= limit < |s|
    ensures var k := CutIndex(s, limit);
            Chunks(s, limit) == [TrimEnd(s[..k])] + Chunks(TrimStart(s[k..]), limit)
  {
  }

  /** Chunk i followed by gap i, for every i in turn. */
  function Weave(chunks: seq<string>, gaps: seq<string>): string
    requires |chunks| == |gaps|
    decreases |chunks|
  {
    if chunks == [] then "" else chunks[0] + gaps[0] + Weave(chunks[1..], gaps[1..])
  }

  /** The whitespace dropped after each chunk: the end trimmed off it and the start trimmed off what remained. */
  function Gaps(content: string, limit: nat): (gaps: seq<string>)
    requires limit >= 1
    decreases |content|
  {
    if |content| > limit then
      var k := CutIndex(content, limit);
      var head := content[..k];
      var tail := content[k..];
      var rest := TrimStart(tail);
      [head[|TrimEnd(head)|..] + tail[..|tail| - |rest|]] + Gaps(rest, limit)
    else if |content| > 0 then [""]
    else []
  }

  /** The pieces of one cut, put back together. */
  lemma CutReassembles(head: string, tail: string, chunk: string, g1: string, g2: string, rest: string,
                       chunks: seq<string>, gaps: seq<string>)
    requires chunk + g1 == head && g2 + rest == tail
    requires |chunks| == |gaps| && Weave(chunks, gaps) == rest
    ensures Weave([chunk] + chunks, [g1 + g2] + gaps) == head + tail
  {
    WeaveCons(chunk, g1 + g2, chunks, gaps);
    AppendAssoc(chunk, g1, g2);
    AppendAssoc(chunk + g1, g2, rest);
  }

  /** The whitespace trimmed off both sides of a cut is whitespace together. */
  lemma GapIsWhitespace(a: string, b: string)
    requires AllWhitespace(a) && AllWhitespace(b)
    ensures AllWhitespace(a + b)
  {
    assert forall i :: 0 <= i < |a + b| ==> (a + b)[i] == if i < |a| then a[i] else b[i - |a|];
  }

  lemma WeaveCons(c: string, g: string, cs: seq<string>, gs: seq<string>)
    requires |cs| == |gs|
    ensures Weave([c] + cs, [g] + gs) == c + g + Weave(cs, gs)
  {
    assert ([c] + cs)[1..] == cs;
    assert ([g] + gs)[1..] == gs;
  }

  /** One gap per chunk. */
  lemma {:induction false} GapsMatchChunks(content: string, limit: nat)
    requires limit >= 1
    ensures |Gaps(content, limit)| == |Chunks(content, limit)|
    decreases |content|
  {
    if |content| > limit {
      var k := CutIndex(content, limit);
      GapsMatchChunks(TrimStart(content[k..]), limit);
    }
  }

  /** Every gap is whitespace only. */
  lemma {:induction false} GapsAreWhitespace(content: string, limit: nat)
    requires limit >= 1
    ensures forall i :: 0 <= i < |Gaps(content, limit)| ==> AllWhitespace(Gaps(content, limit)[i])
    decreases |content|
  {
    if |content| > limit {
      var k := CutIndex(content, limit);
      var head := content[..k];
      var tail := content[k..];
      var rest := TrimStart(tail);
      var chunk := TrimEnd(head);
      var gap := head[|chunk|..] + tail[..|tail| - |rest|];
      GapsAreWhitespace(rest, limit);
      var gaps := Gaps(rest, limit);
      assert Gaps(content, limit) == [gap] + gaps;
      GapIsWhitespace(head[|chunk|..], tail[..|tail| - |rest|]);
      assert forall i :: 0 <= i < |[gap] + gaps| ==> ([gap] + gaps)[i] == if i == 0 then gap else gaps[i - 1];
    } else if |content| > 0 {
      assert AllWhitespace("");
    }
  }

  /**
   * Nothing but whitespace is lost, and nothing is reordered: the chunks,
   * each followed by the whitespace dropped after it, give back the content.
   */
  lemma {:induction false} ChunksReassemble(content: string, limit: nat)
    requires limit >= 1
    ensures |Gaps(content, limit)| == |Chunks(content, limit)|
    ensures forall i :: 0 <= i < |Gaps(content, limit)| ==> AllWhitespace(Gaps(content, limit)[i])
    ensures Weave(Chunks(content, limit), Gaps(content, limit)) == content
    decreases |content|
  {
    GapsMatchChunks(content, limit);
    GapsAreWhitespace(content, limit);
    if |content| > limit {
      var k := CutIndex(content, limit);
      var head := content[..k];
      var tail := content[k..];
      var rest := TrimStart(tail);
      var chunk := TrimEnd(head);
      TakeDrop(content, k);
      TakeDrop(head, |chunk|);
      TakeDrop(tail, |tail| - |rest|);
      ChunksReassemble(rest, limit);
      CutReassembles(head, tail, chunk, head[|chunk|..], tail[..|tail| - |rest|], rest,
                     Chunks(rest, limit), Gaps(rest, limit));
    } else if |content| > 0 {
      WeaveCons(content, "", [], []);
      assert content + "" + "" == content;
    }
  }

  /**
   * When the content is empty or starts with a non-whitespace character,
   * every chunk is non-empty and starts with a non-whitespace character.
   */
  lemma {:induction false} ChunksStartNonWhitespace(content: string, limit: nat)
    requires limit >= 1
    requires content == [] || !IsWhitespace(content[0])
    ensures forall i :: 0 <= i < |Chunks(content, limit)| ==>
              Chunks(content, limit)[i] != [] && !IsWhitespace(Chunks(content, limit)[i][0])
    decreases |content|
  {
    if |content| > limit {
      var k := CutIndex(content, limit);
      var head := content[..k];
      var chunk := TrimEnd(head);
      var rest := TrimStart(content[k..]);
      assert head[0] == content[0];
      assert chunk != [] && chunk[0] == content[0];
      ChunksStartNonWhitespace(rest, limit);
      assert Chunks(content, limit) == [chunk] + Chunks(rest, limit);
    }
  }

  /** Only the first chunk can be empty: every later one starts with a non-whitespace character. */
  lemma LaterChunksStartNonWhitespace(content: string, limit: nat)
    requires limit >= 1
    ensures forall i :: 1 <= i < |Chunks(content, limit)| ==>
              Chunks(content, limit)[i] != [] && !IsWhitespace(Chunks(content, limit)[i][0])
  {
    if |content| > limit {
      var k := CutIndex(content, limit);
      var rest := TrimStart(content[k..]);
      ChunksStartNonWhitespace(rest, limit);
      assert Chunks(content, limit) == [TrimEnd(content[..k])] + Chunks(rest, limit);
    }
  }

  /** Content longer than the limit and made of whitespace only gives a single empty chunk. */
  lemma {:induction false} BlankContentGivesEmptyChunk(content: string, limit: nat)
    requires limit >= 1 && |content| > limit && AllWhitespace(content)
    ensures Chunks(content, limit) == [""]
  {
    var k := CutIndex(content, limit);
    var head := content[..k];
    assert AllWhitespace(head) by {
      assert forall i :: 0 <= i < |head| ==> head[i] == content[i];
    }
    TrimEndUnique(head, []);
    assert AllWhitespace(content[k..]) by {
      assert forall i :: 0 <= i < |content[k..]| ==> content[k..][i] == content[k + i];
    }
    TrimStartUnique(content[k..], []);
  }

  /**
   * The cut falls after the last line break within reach: x, a line break
   * and y, with the line break within the limit and y too long to join x,
   * give the chunks x and y.
   */
  lemma CutAtLastLineBreak(x: string, y: string, limit: nat)
    requires limit >= 1
    requires x != [] && !IsWhitespace(x[|x| - 1])
    requires y != [] && !IsWhitespace(y[0]) && '\n' !in y
    requires |x| <= limit < |x| + 1 + |y| && |y| <= limit
    ensures Chunks(x + "\n" + y, limit) == [x, y]
  {
    var s := x + "\n" + y;
    CutFallsAtLineBreak(x, y, limit);
    TrimsAroundLineBreak(x, y);
    ChunksStep(s, limit);
    assert Chunks(y, limit) == [y];
  }

  /** Trimming takes nothing off x and y but the line break between them. */
  lemma TrimsAroundLineBreak(x: string, y: string)
    requires x != [] && !IsWhitespace(x[|x| - 1])
    requires y != [] && !IsWhitespace(y[0])
    ensures TrimEnd(x) == x && TrimStart("\n" + y) == y
  {
    TrimEndUnique(x, x);
    LineBreakIsWhitespace();
    TrimStartUnique("\n" + y, y);
  }

  /** The cut of x, a line break and y falls on that line break. */
  lemma CutFallsAtLineBreak(x: string, y: string, limit: nat)
    requires x != [] && '\n' !in y
    requires |x| <= limit < |x| + 1 + |y|
    ensures var s := x + "\n" + y;
            CutIndex(s, limit) == |x| && s[..|x|] == x && s[|x|..] == "\n" + y
  {
    var s := x + "\n" + y;
    assert s[|x|] == '\n';
    assert forall i :: |x| < i <= limit ==> s[i] == y[i - |x| - 1];
    assert s[..|x|] == x;
    assert s[|x|..] == "\n" + y;
  }

  /** The concrete case: "AAAA\nBBBB\nCCCC" at limit 9 becomes "AAAA\nBBBB" and "CCCC". */
  lemma LineBreakCutExample()
    ensures Chunks("AAAA\nBBBB\nCCCC", 9) == ["AAAA\nBBBB", "CCCC"]
  {
    NotWhitespace('B');
    NotWhitespace('C');
    assert "AAAA\nBBBB\nCCCC" == "AAAA\nBBBB" + "\n" + "CCCC";
    CutAtLastLineBreak("AAAA\nBBBB", "CCCC", 9);
  }
}
