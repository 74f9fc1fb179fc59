/** The streaming utterance segmenter `stream_utterances`
    (engines.py:109-116): chunks of the streamed reply are added to an
    accumulator, and every chunk that ends in `.`, `!`, `?`, a line break or
    `:` closes the accumulated text, which is yielded unless it is blank. */
module Segmenter {
  import opened Text

  /** The five characters that end an utterance (engines.py:113). */
  predicate IsTerminator(c: char) {
    c == '.' || c == '!' || c == '?' || c == '\n' || c == ':'
  }

  /** `any(chunk.endswith(p) for p in [".", "!", "?", "\n", ":"])`. */
  predicate EndsUtterance(chunk: string) {
    chunk != [] && IsTerminator(chunk[|chunk| - 1])
  }

  /** `answer.strip()` is empty. */
  predicate IsBlank(s: string) {
    Strip(s, Whitespace) == []
  }

  /** The chunks joined into the full reply text. */
  function Concat(chunks: seq<string>): string {
    if chunks == [] then "" else Concat(chunks[..|chunks| - 1]) + chunks[|chunks| - 1]
  }

  /** The accumulator once `chunks` are consumed: the text after the last
      terminating chunk. */
  function Residual(chunks: seq<string>): string {
    if chunks == [] then ""
    else
      var last := chunks[|chunks| - 1];
      if EndsUtterance(last) then "" else Residual(chunks[..|chunks| - 1]) + last
  }

  /** The accumulator's contents at each terminating chunk, in order: the
      candidates for yielding, blank or not. */
  function Pieces(chunks: seq<string>): seq<string> {
    if chunks == [] then []
    else
      var init, last := chunks[..|chunks| - 1], chunks[|chunks| - 1];
      if EndsUtterance(last) then Pieces(init) + [Residual(init) + last] else Pieces(init)
  }

  /** The pieces that are not blank, in order. */
  function NonBlank(pieces: seq<string>): (r: seq<string>)
    ensures forall u :: u in r ==> u in pieces && !IsBlank(u)
    ensures forall p :: p in pieces && !IsBlank(p) ==> p in r
    ensures |r| <= |pieces|
  {
    if pieces == [] then []
    else
      var init, last := pieces[..|pieces| - 1], pieces[|pieces| - 1];
      NonBlank(init) + (if IsBlank(last) then [] else [last])
  }

  /** The positions of the pieces that are not blank, in order. */
  function KeptPositions(pieces: seq<string>): seq<nat> {
    if pieces == [] then []
    else
      var init := pieces[..|pieces| - 1];
      KeptPositions(init) + (if IsBlank(pieces[|pieces| - 1]) then [] else [|pieces| - 1])
  }

  /** The filter keeps exactly the non-blank pieces, in their order: the
      `k`-th kept piece sits at a position strictly after the `k - 1`-th,
      and every non-blank position is kept. */
  lemma {:induction false} NonBlankKeepsOrder(pieces: seq<string>)
    ensures |KeptPositions(pieces)| == |NonBlank(pieces)|
    ensures forall k :: 0 <= k < |KeptPositions(pieces)| ==>
      KeptPositions(pieces)[k] < |pieces| && NonBlank(pieces)[k] == pieces[KeptPositions(pieces)[k]]
    ensures forall k, l :: 0 <= k < l < |KeptPositions(pieces)| ==>
      KeptPositions(pieces)[k] < KeptPositions(pieces)[l]
    ensures forall i :: 0 <= i < |pieces| && !IsBlank(pieces[i]) ==> i in KeptPositions(pieces)
  {
    KeptPicksPieces(pieces);
    KeptComplete(pieces);
  }

  /** The kept positions rise strictly and point at the filtered pieces. */
  lemma {:induction false} KeptPicksPieces(pieces: seq<string>)
    ensures |KeptPositions(pieces)| == |NonBlank(pieces)|
    ensures forall k :: 0 <= k < |KeptPositions(pieces)| ==>
      KeptPositions(pieces)[k] < |pieces| && NonBlank(pieces)[k] == pieces[KeptPositions(pieces)[k]]
    ensures forall k, l :: 0 <= k < l < |KeptPositions(pieces)| ==>
      KeptPositions(pieces)[k] < KeptPositions(pieces)[l]
  {
    if pieces != [] {
      var init, last := pieces[..|pieces| - 1], pieces[|pieces| - 1];
      KeptPicksPieces(init);
      var idx0, r0 := KeptPositions(init), NonBlank(init);
      var tail: seq<nat> := if IsBlank(last) then [] else [|pieces| - 1];
      assert KeptPositions(pieces) == idx0 + tail;
      assert NonBlank(pieces) == r0 + (if IsBlank(last) then [] else [last]);
      KeptStep(pieces, idx0, tail);
      var idx, r := idx0 + tail, NonBlank(pieces);
      forall k | 0 <= k < |idx| ensures idx[k] < |pieces| && r[k] == pieces[idx[k]] {
        if k < |idx0| {
          assert idx[k] == idx0[k] && r[k] == r0[k] && pieces[idx0[k]] == init[idx0[k]];
        }
      }
    }
  }

  /** No non-blank position is skipped. */
  lemma {:induction false} KeptComplete(pieces: seq<string>)
    ensures forall i :: 0 <= i < |pieces| && !IsBlank(pieces[i]) ==> i in KeptPositions(pieces)
  {
    if pieces != [] {
      var init := pieces[..|pieces| - 1];
      KeptComplete(init);
      var n := |pieces| - 1;
      var tail: seq<nat> := if IsBlank(pieces[n]) then [] else [n];
      assert KeptPositions(pieces) == KeptPositions(init) + tail;
      forall i | 0 <= i < n && !IsBlank(pieces[i]) ensures i in KeptPositions(pieces) {
        assert pieces[i] == init[i];
      }
      if !IsBlank(pieces[n]) {
        assert KeptPositions(pieces)[|KeptPositions(init)|] == n;
      }
    }
  }

  /** One step of the induction above, with the filter's unfolding given. */
  lemma KeptStep(pieces: seq<string>, idx0: seq<nat>, tail: seq<nat>)
    requires pieces != []
    requires forall k :: 0 <= k < |idx0| ==> idx0[k] < |pieces| - 1
    requires forall k, l :: 0 <= k < l < |idx0| ==> idx0[k] < idx0[l]
    requires tail == [] || tail == [|pieces| - 1]
    ensures forall k, l :: 0 <= k < l < |idx0 + tail| ==> (idx0 + tail)[k] < (idx0 + tail)[l]
  {
  }

  /** What `stream_utterances` yields for the whole chunk stream. */
  function Utterances(chunks: seq<string>): seq<string> {
    NonBlank(Pieces(chunks))
  }

  /** The generator, run over a finite chunk stream: the loop of
      engines.py:110-116, collecting what it yields. */
  method StreamUtterances(chunks: seq<string>) returns (utterances: seq<string>)
    ensures utterances == Utterances(chunks)
  {
    var answer := "";
    utterances := [];
    for i := 0 to |chunks|
      invariant answer == Residual(chunks[..i])
      invariant utterances == NonBlank(Pieces(chunks[..i]))
    {
      var chunk := chunks[i];
      assert chunks[..i + 1][..i] == chunks[..i];
      answer := answer + chunk;
      if EndsUtterance(chunk) {
        if Strip(answer, Whitespace) != [] {
          utterances := utterances + [answer];
        }
        answer := "";
      }
    }
    assert chunks[..|chunks|] == chunks;
  }

  /** Every piece is non-empty and ends with a terminator. */
  lemma {:induction false} PiecesEndWithTerminator(chunks: seq<string>)
    ensures forall p :: p in Pieces(chunks) ==> EndsUtterance(p)
  {
    if chunks != [] {
      var init, last := chunks[..|chunks| - 1], chunks[|chunks| - 1];
      PiecesEndWithTerminator(init);
      if EndsUtterance(last) {
        var p := Residual(init) + last;
        assert p[|p| - 1] == last[|last| - 1];
      }
    }
  }

  /** Every yielded utterance has a non-whitespace character and ends with
      one of `.`, `!`, `?`, line break, `:`. */
  lemma UtterancesShape(chunks: seq<string>)
    ensures forall u :: u in Utterances(chunks) ==> !AllOf(u, Whitespace) && EndsUtterance(u)
  {
    PiecesEndWithTerminator(chunks);
    forall u | u in Utterances(chunks) ensures !AllOf(u, Whitespace) {
      StripEmptyIff(u, Whitespace);
    }
  }

  /** Joining the pieces and the unflushed residual gives back the whole
      reply: nothing is lost, duplicated or reordered. */
  lemma {:induction false} PiecesTileStream(chunks: seq<string>)
    ensures Concat(Pieces(chunks)) + Residual(chunks) == Concat(chunks)
  {
    if chunks != [] {
      var init, last := chunks[..|chunks| - 1], chunks[|chunks| - 1];
      PiecesTileStream(init);
      if EndsUtterance(last) {
        var ps := Pieces(init) + [Residual(init) + last];
        assert ps[..|ps| - 1] == Pieces(init);
      }
    }
  }

  /** Chunk positions where the pieces start and end: 0, then one past each
      terminating chunk. */
  function Bounds(chunks: seq<string>): (b: seq<nat>)
    ensures |b| == |Pieces(chunks)| + 1
    ensures b[0] == 0
    ensures forall k :: 1 <= k < |b| ==> b[k - 1] < b[k]
    ensures forall k :: 0 <= k < |b| ==> b[k] <= |chunks| && (k > 0 ==> b[k] > 0)
  {
    if chunks == [] then [0]
    else
      var init, last := chunks[..|chunks| - 1], chunks[|chunks| - 1];
      if EndsUtterance(last) then Bounds(init) + [|chunks|] else Bounds(init)
  }

  /** A run of chunks that stops before the last chunk is the same run
      of the stream without its last chunk. */
  lemma RunOfPrefix(chunks: seq<string>, x: nat, y: nat)
    requires x <= y < |chunks|
    ensures chunks[x..y] == chunks[..|chunks| - 1][x..y]
  {
    var init := chunks[..|chunks| - 1];
    forall k | 0 <= k < y - x ensures chunks[x..y][k] == init[x..y][k] {
      assert chunks[x..y][k] == chunks[x + k] == init[x + k];
    }
  }

  /** The residual is exactly the chunks after the last bound. */
  lemma {:induction false} ResidualIsLastRun(chunks: seq<string>)
    ensures Residual(chunks) == Concat(chunks[Bounds(chunks)[|Bounds(chunks)| - 1]..])
  {
    if chunks != [] {
      var init, last := chunks[..|chunks| - 1], chunks[|chunks| - 1];
      ResidualIsLastRun(init);
      var b0 := Bounds(init);
      var l := b0[|b0| - 1];
      if EndsUtterance(last) {
        assert chunks[|chunks|..] == [];
      } else {
        var run := chunks[l..];
        assert run == init[l..] + [last];
        assert run[..|run| - 1] == init[l..];
      }
    }
  }

  /** Piece `i` is exactly the chunks from `Bounds[i]` to `Bounds[i + 1]`. */
  lemma {:induction false} PiecesAreChunkRuns(chunks: seq<string>)
    ensures forall i :: 0 <= i < |Pieces(chunks)| ==>
      Pieces(chunks)[i] == Concat(chunks[Bounds(chunks)[i]..Bounds(chunks)[i + 1]])
  {
    if chunks != [] {
      var init, last := chunks[..|chunks| - 1], chunks[|chunks| - 1];
      PiecesAreChunkRuns(init);
      var b0, ps0 := Bounds(init), Pieces(init);
      var b, ps := Bounds(chunks), Pieces(chunks);
      if EndsUtterance(last) {
        ResidualIsLastRun(init);
        var l := b0[|b0| - 1];
        assert b == b0 + [|chunks|] && ps == ps0 + [Residual(init) + last];
        forall i | 0 <= i < |ps| ensures ps[i] == Concat(chunks[b[i]..b[i + 1]]) {
          if i < |ps0| {
            assert ps[i] == ps0[i] && b[i] == b0[i] && b[i + 1] == b0[i + 1];
            RunOfPrefix(chunks, b0[i], b0[i + 1]);
          } else {
            var run := chunks[l..|chunks|];
            assert b[i] == l && b[i + 1] == |chunks|;
            assert run == init[l..] + [last];
            assert run[..|run| - 1] == init[l..];
          }
        }
      } else {
        forall i | 0 <= i < |ps| ensures ps[i] == Concat(chunks[b[i]..b[i + 1]]) {
          RunOfPrefix(chunks, b0[i], b0[i + 1]);
        }
      }
    }
  }

  /** What is yielded is the non-blank pieces in arrival order: utterance
      `k` is the run of chunks of piece `KeptPositions(..)[k]`, these
      positions rise strictly, and no non-blank piece is skipped. */
  lemma {:induction false} UtterancesAreOrderedRuns(chunks: seq<string>)
    ensures |KeptPositions(Pieces(chunks))| == |Utterances(chunks)|
    ensures forall k :: 0 <= k < |Utterances(chunks)| ==>
      KeptPositions(Pieces(chunks))[k] < |Pieces(chunks)|
      && Utterances(chunks)[k] == Concat(chunks[Bounds(chunks)[KeptPositions(Pieces(chunks))[k]]..
        Bounds(chunks)[KeptPositions(Pieces(chunks))[k] + 1]])
    ensures forall k, l :: 0 <= k < l < |Utterances(chunks)| ==>
      KeptPositions(Pieces(chunks))[k] < KeptPositions(Pieces(chunks))[l]
    ensures forall i :: 0 <= i < |Pieces(chunks)| && !IsBlank(Pieces(chunks)[i]) ==>
      i in KeptPositions(Pieces(chunks))
  {
    NonBlankKeepsOrder(Pieces(chunks));
    PiecesAreChunkRuns(chunks);
  }

  /** The last chunk of every piece terminates. */
  lemma {:induction false} PiecesEndAtTerminators(chunks: seq<string>)
    ensures forall k :: 1 <= k < |Bounds(chunks)| ==> EndsUtterance(chunks[Bounds(chunks)[k] - 1])
  {
    if chunks != [] {
      var init, last := chunks[..|chunks| - 1], chunks[|chunks| - 1];
      PiecesEndAtTerminators(init);
      var b0, b := Bounds(init), Bounds(chunks);
      forall k | 1 <= k < |b| ensures EndsUtterance(chunks[b[k] - 1]) {
        if k < |b0| {
          assert b[k] == b0[k] && chunks[b0[k] - 1] == init[b0[k] - 1];
        } else {
          assert b[k] == |chunks|;
        }
      }
    }
  }

  /** No chunk of a piece but its last one terminates. */
  lemma {:induction false} NoTerminatorInsidePieces(chunks: seq<string>)
    ensures forall k, j :: 1 <= k < |Bounds(chunks)| && Bounds(chunks)[k - 1] <= j < Bounds(chunks)[k] - 1 ==>
      !EndsUtterance(chunks[j])
  {
    if chunks != [] {
      var init, last := chunks[..|chunks| - 1], chunks[|chunks| - 1];
      NoTerminatorInsidePieces(init);
      NoTerminatorInResidual(init);
      var b0, b := Bounds(init), Bounds(chunks);
      forall k, j | 1 <= k < |b| && b[k - 1] <= j < b[k] - 1 ensures !EndsUtterance(chunks[j]) {
        assert chunks[j] == init[j];
        if k < |b0| {
          assert b[k] == b0[k] && b[k - 1] == b0[k - 1];
        } else {
          assert b[k - 1] == b0[|b0| - 1];
        }
      }
    }
  }

  /** No chunk of the residual terminates. */
  lemma {:induction false} NoTerminatorInResidual(chunks: seq<string>)
    ensures forall j :: Bounds(chunks)[|Bounds(chunks)| - 1] <= j < |chunks| ==> !EndsUtterance(chunks[j])
  {
    if chunks != [] {
      var init, last := chunks[..|chunks| - 1], chunks[|chunks| - 1];
      NoTerminatorInResidual(init);
      var b0, b := Bounds(init), Bounds(chunks);
      if !EndsUtterance(last) {
        forall j | b[|b| - 1] <= j < |chunks| ensures !EndsUtterance(chunks[j]) {
          if j < |init| {
            assert chunks[j] == init[j];
          }
        }
      }
    }
  }

  /** After a terminating chunk the accumulator is reset, blank or not:
      the residual of a longer stream only depends on what follows. */
  lemma {:induction false} ResidualAfterTerminator(first: seq<string>, rest: seq<string>)
    requires first != [] && EndsUtterance(first[|first| - 1])
    ensures Residual(first + rest) == Residual(rest)
  {
    if rest == [] {
      assert first + rest == first;
    } else {
      var init := rest[..|rest| - 1];
      ResidualAfterTerminator(first, init);
      assert (first + rest)[..|first + rest| - 1] == first + init;
    }
  }

  /** So the stream splits after a terminating chunk: what follows is cut
      into pieces as a stream of its own. */
  lemma {:induction false} PiecesAfterTerminator(first: seq<string>, rest: seq<string>)
    requires first != [] && EndsUtterance(first[|first| - 1])
    ensures Pieces(first + rest) == Pieces(first) + Pieces(rest)
  {
    if rest == [] {
      assert first + rest == first;
    } else {
      var init := rest[..|rest| - 1];
      PiecesAfterTerminator(first, init);
      ResidualAfterTerminator(first, init);
      assert (first + rest)[..|first + rest| - 1] == first + init;
    }
  }

  /** ... and the utterances of the whole stream are those of the part up
      to the terminating chunk followed by those of the rest. */
  lemma UtterancesAfterTerminator(first: seq<string>, rest: seq<string>)
    requires first != [] && EndsUtterance(first[|first| - 1])
    ensures Utterances(first + rest) == Utterances(first) + Utterances(rest)
  {
    PiecesAfterTerminator(first, rest);
    NonBlankAppend(Pieces(first), Pieces(rest));
  }

  /** Filtering distributes over concatenation. */
  lemma {:induction false} NonBlankAppend(a: seq<string>, b: seq<string>)
    ensures NonBlank(a + b) == NonBlank(a) + NonBlank(b)
  {
    if b != [] {
      assert (a + b)[..|a + b| - 1] == a + b[..|b| - 1];
      NonBlankAppend(a, b[..|b| - 1]);
    } else {
      assert a + b == a;
    }
  }

  /** A chunk that does not terminate, then one that does: one utterance
      unless the two together are blank. */
  lemma TwoChunks(a: string, b: string)
    requires !EndsUtterance(a) && EndsUtterance(b)
    ensures Utterances([a, b]) == if IsBlank(a + b) then [] else [a + b]
  {
    assert [a, b][..1] == [a] && [a][..0] == [];
    assert Pieces([a]) == Pieces([]) == [];
    assert Residual([a]) == Residual([]) + a == a;
    assert Pieces([a, b]) == Pieces([a]) + [Residual([a]) + b] == [a + b];
    assert [a + b][..0] == [];
    assert NonBlank([a + b]) == NonBlank([]) + (if IsBlank(a + b) then [] else [a + b]);
  }

  /** A single chunk yields nothing unless it terminates and is not blank. */
  lemma OneChunk(a: string)
    ensures Utterances([a]) == if EndsUtterance(a) && !IsBlank(a) then [a] else []
  {
    assert [a][..0] == [];
    assert Residual([]) + a == a;
    if EndsUtterance(a) {
      assert Pieces([a]) == [a];
      assert NonBlank([a]) == NonBlank([]) + (if IsBlank(a) then [] else [a]);
    } else {
      assert Pieces([a]) == [];
    }
  }

  /** The two sentences of a sample stream are not blank. */
  lemma ExampleSentences()
    ensures "Hello" + " world." == "Hello world." && !IsBlank("Hello world.")
    ensures " More" + " text!" == " More text!" && !IsBlank(" More text!")
  {
    assert TrimStart("Hello world.", Whitespace) == "Hello world.";
    assert TrimStart(" More text!", Whitespace) == "More text!";
    assert "More text!"[..|"More text!"| - 1] == "More text";
  }

  /** Two sentences, each streamed as an open chunk and a closing one,
      are yielded whole and in order unless blank. */
  lemma TwoSentences(a: string, b: string, c: string, d: string)
    requires !EndsUtterance(a) && EndsUtterance(b) && !EndsUtterance(c) && EndsUtterance(d)
    ensures Utterances([a, b] + [c, d]) ==
      (if IsBlank(a + b) then [] else [a + b]) + (if IsBlank(c + d) then [] else [c + d])
  {
    TwoChunks(a, b);
    TwoChunks(c, d);
    UtterancesAfterTerminator([a, b], [c, d]);
  }

  /** Two sentences streamed in four chunks are yielded whole. */
  lemma SentencesExample()
    ensures Utterances(["Hello", " world.", " More", " text!"]) == ["Hello world.", " More text!"]
  {
    ExampleSentences();
    TwoSentences("Hello", " world.", " More", " text!");
    assert ["Hello", " world."] + [" More", " text!"] == ["Hello", " world.", " More", " text!"];
  }

  /** A reply that never terminates yields nothing. */
  lemma UnterminatedExample()
    ensures Utterances(["partial"]) == []
  {
    OneChunk("partial");
  }

  /** A lone line break is blank; `Hi.` is not, and both terminate. */
  lemma BlankExample()
    ensures EndsUtterance("\n") && IsBlank("\n")
    ensures EndsUtterance("Hi.") && !IsBlank("Hi.")
  {
    assert TrimStart("Hi.", Whitespace) == "Hi.";
  }

  /** A blank terminated chunk, then a non-blank terminated one: only the
      second is yielded. */
  lemma BlankThenSentence(a: string, b: string)
    requires EndsUtterance(a) && IsBlank(a) && EndsUtterance(b) && !IsBlank(b)
    ensures Utterances([a, b]) == [b]
  {
    OneChunk(a);
    OneChunk(b);
    UtterancesAfterTerminator([a], [b]);
    assert [a] + [b] == [a, b];
  }

  /** A blank terminated piece is dropped and does not leak into the next
      utterance. */
  lemma BlankPieceDropped()
    ensures Utterances(["\n", "Hi."]) == ["Hi."]
  {
    BlankExample();
    BlankThenSentence("\n", "Hi.");
  }
}
