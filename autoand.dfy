/**
 * prompt_auto_and (prompt_tools.py lines 51-102): tokenize the prompt,
 * pack the tokens greedily into chunks, render the chunks.
 */
module AutoAnd {
  import opened Wrappers
  import opened Strings
  import opened Tokenizer
  import opened Packing
  import opened Rendering

  /**
   * The result is the rendering of the greedy packing of the prompt's
   * tokens; by Packing.GreedyUnique that packing is the only one.
   */
  method PromptAutoAnd(s: string, maxLength: int) returns (r: string)
    ensures exists groups :: Greedy(Tokenize(s), groups, maxLength) && r == Render(Chunks(groups))
  {
    var words := Tokenize(s);
    var chunks := Pack(words, maxLength);
    r := Render(chunks);
  }

  /** The result is "" exactly when the prompt is empty or all whitespace, whatever the limit. */
  lemma EmptyResultIffBlank(s: string, maxLength: int, groups: seq<seq<string>>)
    requires Greedy(Tokenize(s), groups, maxLength)
    ensures Render(Chunks(groups)) == "" <==> Blank(s)
  {
    TokenizeEmptyIffBlank(s);
    TokenizeCovers(s);
    ChunksRejoin(Tokenize(s), groups, maxLength);
    ChunksNonEmpty(Tokenize(s), groups, maxLength);
  }

  /**
   * When everything fits in one chunk, the result is that chunk verbatim:
   * the tokens joined by single spaces, with no escaping and no wrapping.
   */
  lemma OneChunkVerbatim(s: string, maxLength: int, groups: seq<seq<string>>)
    requires Greedy(Tokenize(s), groups, maxLength) && |groups| == 1
    ensures Render(Chunks(groups)) == Join(" ", Tokenize(s))
  {
    ChunksRejoin(Tokenize(s), groups, maxLength);
  }

  /**
   * With two or more chunks, the result is a combination expression that
   * reads back into the chunks (when none ends in a backslash), and the
   * chunks rejoined are the tokens joined by single spaces.
   */
  lemma SeveralChunksReadBack(s: string, maxLength: int, groups: seq<seq<string>>)
    requires Greedy(Tokenize(s), groups, maxLength) && |groups| >= 2
    requires forall j :: 0 <= j < |groups| ==> var c := Chunks(groups)[j]; c == [] || c[|c| - 1] != '\\'
    ensures ParseAnd(Render(Chunks(groups))) == Some(Chunks(groups))
    ensures Join(" ", Chunks(groups)) == Join(" ", Tokenize(s))
  {
    RenderRoundTrip(Chunks(groups));
    ChunksRejoin(Tokenize(s), groups, maxLength);
  }
}
