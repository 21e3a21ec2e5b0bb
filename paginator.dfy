/**
 * The note paginator (`split_messages`): splits a note body into chunks that
 * each fit into one chat message, cutting at the last line break of every
 * window and dropping that line break, or cutting hard when the window has none.
 */
module Paginator {
  import opened Text

  /** The default chunk limit: the longest message the chat platform accepts. */
  const MaxMessageLength: nat := 4096

  /** How a chunk was cut from the remaining text. */
  datatype Cut =
    | AtNewline  // cut before the window's last '\n', which is dropped
    | Hard       // the window had no '\n': exactly `limit` characters taken
    | Last       // the remaining text fitted and was taken whole

  datatype Piece = Piece(text: string, cut: Cut)

  /** The text a piece stands for: its chunk, plus the dropped '\n' after a newline cut. */
  function Restore(p: Piece): string
  {
    p.text + (if p.cut == AtNewline then "\n" else "")
  }

  /** What a piece promises about its chunk's length and contents. */
  predicate WellCut(p: Piece, limit: nat)
  {
    && |p.text| <= limit
    && (p.cut == AtNewline ==> |p.text| < limit)
    && (p.cut == Hard ==> |p.text| == limit && '\n' !in p.text)
    && (p.cut == Last ==> p.text != "")
  }

  /**
   * One turn of the loop: the chunk it appends and the text that remains.
   * With `limit == 0` the turn takes nothing, so the loop would never end.
   */
  function Step(s: string, limit: nat): (r: (Piece, string))
    requires s != ""
    ensures Restore(r.0) + r.1 == s
    ensures WellCut(r.0, limit)
    ensures r.0.cut == Last <==> |s| <= limit
    ensures r.0.cut == Last ==> r.0.text == s && r.1 == ""
    ensures limit >= 1 ==> |r.1| < |s|
    ensures limit == 0 ==> r.1 == s
  {
    if |s| <= limit then
      assert Restore(Piece(s, Last)) == s;
      (Piece(s, Last), "")
    else
      var part := s[..limit];
      var lastNewline := LastIndexOf(part, '\n');
      if lastNewline != -1 then
        NewlineCutRestores(s, limit, lastNewline);
        (Piece(part[..lastNewline], AtNewline), s[lastNewline + 1..])
      else
        HardCutRestores(s, limit);
        (Piece(part, Hard), s[limit..])
  }

  /** The turn that cuts before the window's last '\n', at `p`. */
  lemma NewlineCutRestores(s: string, limit: nat, p: nat)
    requires p < limit < |s| && s[..limit][p] == '\n'
    ensures var piece := Piece(s[..limit][..p], AtNewline);
            && Restore(piece) + s[p + 1..] == s
            && WellCut(piece, limit)
            && |s[p + 1..]| < |s|
  {
    assert s[..limit][..p] == s[..p];
    assert s == s[..p] + [s[p]] + s[p + 1..];
  }

  /** The turn that takes the whole window, which has no '\n'. */
  lemma HardCutRestores(s: string, limit: nat)
    requires limit < |s| && '\n' !in s[..limit]
    ensures var piece := Piece(s[..limit], Hard);
            && Restore(piece) + s[limit..] == s
            && WellCut(piece, limit)
            && (limit >= 1 ==> |s[limit..]| < |s|)
            && (limit == 0 ==> s[limit..] == s)
  {
    assert s[..limit] + "" + s[limit..] == s;
  }

  /** The pieces the loop produces, in order, each with the way it was cut. */
  function Pieces(s: string, limit: nat): seq<Piece>
    requires limit >= 1
    decreases |s|
  {
    if s == "" then [] else [Step(s, limit).0] + Pieces(Step(s, limit).1, limit)
  }

  function Texts(ps: seq<Piece>): (r: seq<string>)
    ensures |r| == |ps|
    ensures forall i :: 0 <= i < |ps| ==> r[i] == ps[i].text
  {
    if ps == [] then [] else [ps[0].text] + Texts(ps[1..])
  }

  /** The chunks `split_messages` returns. */
  function Split(s: string, limit: nat): seq<string>
    requires limit >= 1
  {
    Texts(Pieces(s, limit))
  }

  /** One unfolding of `Split`: the first turn's chunk, then the chunks of what remains. */
  lemma SplitUnfold(s: string, limit: nat)
    requires limit >= 1 && s != ""
    ensures Split(s, limit) == [Step(s, limit).0.text] + Split(Step(s, limit).1, limit)
  {
    var ps := Pieces(s, limit);
    assert ps[1..] == Pieces(Step(s, limit).1, limit);
  }

  /** The pieces joined back, with each dropped '\n' restored. */
  function Join(ps: seq<Piece>): string
  {
    if ps == [] then "" else Restore(ps[0]) + Join(ps[1..])
  }

  /**
   * `split_messages(message, limit)`: the loop over a shrinking suffix of the
   * message, appending one chunk per turn.
   */
  method SplitMessages(message: string, limit: nat) returns (messages: seq<string>)
    requires limit >= 1
    ensures messages == Split(message, limit)
  {
    messages := [];
    var rest := message;
    while rest != ""
      invariant messages + Split(rest, limit) == Split(message, limit)
      decreases |rest|
    {
      if |rest| <= limit {
        SplitShort(rest, limit);
        messages := messages + [rest];
        break;
      } else {
        var part := rest[..limit];
        var lastNewline := LastIndexOf(part, '\n');
        SplitTurn(rest, limit);
        if lastNewline != -1 {
          AppendOne(messages, part[..lastNewline], Split(rest[lastNewline + 1..], limit));
          messages := messages + [part[..lastNewline]];
          rest := rest[lastNewline + 1..];
        } else {
          AppendOne(messages, part, Split(rest[limit..], limit));
          messages := messages + [part];
          rest := rest[limit..];
        }
      }
    }
  }

  lemma AppendOne(done: seq<string>, chunk: string, later: seq<string>)
    ensures done + ([chunk] + later) == (done + [chunk]) + later
  {
  }

  /** One turn of the loop on a text longer than the window, as the loop body computes it. */
  lemma SplitTurn(s: string, limit: nat)
    requires 1 <= limit < |s|
    ensures var part := s[..limit];
            var lastNewline := LastIndexOf(part, '\n');
            Split(s, limit)
              == if lastNewline != -1
                 then [part[..lastNewline]] + Split(s[lastNewline + 1..], limit)
                 else [part] + Split(s[limit..], limit)
  {
    SplitUnfold(s, limit);
  }

  // ---------------------------------------------------------------------------
  // Properties of the paginator
  // ---------------------------------------------------------------------------

  /** Reconstruction: joining the pieces, '\n' put back after each newline cut, gives the input. */
  lemma {:induction false} Reconstruct(s: string, limit: nat)
    requires limit >= 1
    ensures Join(Pieces(s, limit)) == s
    decreases |s|
  {
    if s != "" {
      var (p, rest) := Step(s, limit);
      Reconstruct(rest, limit);
      assert Pieces(s, limit)[1..] == Pieces(rest, limit);
    }
  }

  /**
   * The shape of a list of pieces: every piece is well cut, and the one piece
   * that was the fitting remainder is the final one.
   */
  ghost predicate WellFormed(ps: seq<Piece>, limit: nat)
  {
    && (forall i :: 0 <= i < |ps| ==> WellCut(ps[i], limit))
    && (forall i :: 0 <= i < |ps| ==> (ps[i].cut == Last <==> i == |ps| - 1))
  }

  /** Putting a well-cut piece in front keeps the shape, when it is the final piece exactly if nothing follows. */
  lemma WellFormedCons(p: Piece, ps: seq<Piece>, limit: nat)
    requires WellCut(p, limit) && WellFormed(ps, limit)
    requires p.cut == Last <==> ps == []
    ensures WellFormed([p] + ps, limit)
  {
    var qs := [p] + ps;
    forall i | 1 <= i < |qs| ensures qs[i] == ps[i - 1] {}
  }

  /**
   * Only the empty text gives no pieces, and the pieces are well formed: so
   * the final chunk, being the fitting remainder, is never empty.
   */
  lemma {:induction false} PiecesShape(s: string, limit: nat)
    requires limit >= 1
    ensures Pieces(s, limit) == [] <==> s == ""
    ensures WellFormed(Pieces(s, limit), limit)
    decreases |s|
  {
    if s != "" {
      var (p, rest) := Step(s, limit);
      PiecesShape(rest, limit);
      WellFormedCons(p, Pieces(rest, limit), limit);
    }
  }

  /** Every chunk has at most `limit` characters. */
  lemma ChunksBounded(s: string, limit: nat)
    requires limit >= 1
    ensures forall i :: 0 <= i < |Split(s, limit)| ==> |Split(s, limit)[i]| <= limit
  {
    PiecesShape(s, limit);
  }

  /** Only the empty text gives no chunk, and the last chunk is never empty. */
  lemma SplitEmptyIff(s: string, limit: nat)
    requires limit >= 1
    ensures Split(s, limit) == [] <==> s == ""
    ensures s != "" ==> Split(s, limit)[|Split(s, limit)| - 1] != ""
  {
    PiecesShape(s, limit);
    if s != "" {
      var ps := Pieces(s, limit);
      assert WellCut(ps[|ps| - 1], limit);
    }
  }

  /** A text that fits into one message is sent as a single chunk, unchanged. */
  lemma SplitShort(s: string, limit: nat)
    requires limit >= 1
    requires s != "" && |s| <= limit
    ensures Split(s, limit) == [s]
  {
    SplitUnfold(s, limit);
  }

  /** With a zero limit a turn on a non-empty text takes an empty chunk and leaves the text as it was. */
  lemma ZeroLimitStalls(s: string)
    requires s != ""
    ensures Step(s, 0) == (Piece("", Hard), s)
  {
  }

  /** When the window's last '\n' is at `p`, the first chunk is the text before it and the rest resumes after it. */
  lemma FirstCutAtNewline(s: string, limit: nat, p: nat)
    requires 1 <= limit < |s|
    requires p < limit && s[p] == '\n'
    requires forall j :: p < j < limit ==> s[j] != '\n'
    ensures Split(s, limit) == [s[..p]] + Split(s[p + 1..], limit)
  {
    var part := s[..limit];
    var q := LastIndexOf(part, '\n');
    assert part[p] == '\n';
    assert q == p;
    assert part[..p] == s[..p];
    SplitUnfold(s, limit);
  }

  /** When the window holds no '\n', the first chunk is exactly the window. */
  lemma FirstCutHard(s: string, limit: nat)
    requires 1 <= limit < |s|
    requires '\n' !in s[..limit]
    ensures Split(s, limit) == [s[..limit]] + Split(s[limit..], limit)
  {
    SplitUnfold(s, limit);
  }

  /** `n` copies of `c`. */
  function Repeat(c: char, n: nat): (r: string)
    ensures |r| == n
    ensures forall i :: 0 <= i < n ==> r[i] == c
  {
    seq(n, _ => c)
  }

  /** A 5000-character line without line breaks: a hard cut of 4096, then the remaining 904. */
  lemma ExampleLongLine()
    ensures Split(Repeat('a', 5000), MaxMessageLength) == [Repeat('a', 4096), Repeat('a', 904)]
  {
    var s := Repeat('a', 5000);
    assert s[..4096] == Repeat('a', 4096);
    assert s[4096..] == Repeat('a', 904);
    FirstCutHard(s, MaxMessageLength);
    SplitShort(s[4096..], MaxMessageLength);
  }

  /**
   * A first window made of a line, a '\n' and a run without line breaks that
   * fills it: the first chunk is that line, and the rest resumes after the '\n'.
   */
  lemma FirstLineCut(line: string, run: string, tail: string, limit: nat)
    requires '\n' !in line && '\n' !in run
    requires |line| + 1 + |run| == limit && tail != ""
    ensures Split(line + "\n" + run + tail, limit) == [line] + Split(run + tail, limit)
  {
    LineWindow(line, run, tail, limit);
    FirstCutAtNewline(line + "\n" + run + tail, limit, |line|);
  }

  /** The sequence facts behind `FirstLineCut`, kept apart from the chunk lists. */
  lemma LineWindow(line: string, run: string, tail: string, limit: nat)
    requires '\n' !in line && '\n' !in run
    requires |line| + 1 + |run| == limit && tail != ""
    ensures var s := line + "\n" + run + tail;
            && 1 <= limit < |s| && s[|line|] == '\n'
            && (forall j :: |line| < j < limit ==> s[j] != '\n')
            && s[..|line|] == line && s[|line| + 1..] == run + tail
  {
    var s := line + "\n" + run + tail;
    var p := |line|;
    forall j | p < j < limit ensures s[j] != '\n' {
      assert s[j] == run[j - p - 1];
    }
    assert s[..p] == line;
    assert s[p + 1..] == run + tail;
  }

  /**
   * "line1\n", 4090 'x', "\nline3": the second '\n' lies just outside the first
   * window, so the first cut is after "line1" and the rest fits in one message.
   */
  lemma ExampleNewlineInWindow()
    ensures Split("line1\n" + Repeat('x', 4090) + "\nline3", MaxMessageLength)
         == ["line1", Repeat('x', 4090) + "\nline3"]
  {
    var run := Repeat('x', 4090);
    assert "line1\n" + run + "\nline3" == "line1" + "\n" + run + "\nline3";
    FirstLineCut("line1", run, "\nline3", MaxMessageLength);
    SplitShort(run + "\nline3", MaxMessageLength);
  }

  /** An earlier chunk may be empty: here the window starts with its only '\n'. */
  lemma ExampleEmptyChunk()
    ensures Split("\nab", 2) == ["", "ab"]
  {
    FirstCutAtNewline("\nab", 2, 0);
    assert "\nab"[1..] == "ab";
    SplitShort("ab", 2);
  }
}
