/**
 * The greedy packing of tokens into chunks (prompt_tools.py lines 74-92).
 *
 * The loop keeps `current_length` for the chunk being filled. That running
 * figure is Measure below: the sum of the token lengths plus one separator
 * for every token after the second, so it undercounts the rendered chunk by
 * one space once the chunk holds two or more tokens. The model keeps this.
 */
module Packing {
  import opened Strings

  /** The loop's `current_length` for a chunk holding the tokens `g`. */
  function Measure(g: seq<string>): nat {
    TotalLength(g) + (if |g| >= 2 then |g| - 2 else 0)
  }

  /** The test on line 82 keeps `w` in the non-empty chunk `g`. */
  predicate Admits(g: seq<string>, w: string, maxLength: int) {
    Measure(g) + |w| + 1 <= maxLength
  }

  /** A chunk as the loop fills it: non-empty, and every token after the first was admitted. */
  predicate WellFilled(g: seq<string>, maxLength: int) {
    g != [] && forall k :: 1 <= k < |g| ==> Admits(g[..k], g[k], maxLength)
  }

  /** The tokens of the groups, in order. */
  function Flatten(groups: seq<seq<string>>): (words: seq<string>)
    ensures groups == [] ==> words == []
  {
    if groups == [] then [] else Flatten(groups[..|groups| - 1]) + groups[|groups| - 1]
  }

  /** The rendered chunks: each group joined with single spaces. */
  function Chunks(groups: seq<seq<string>>): (chunks: seq<string>)
    ensures |chunks| == |groups|
  {
    if groups == [] then [] else Chunks(groups[..|groups| - 1]) + [Join(" ", groups[|groups| - 1])]
  }

  /**
   * `groups` is the greedy packing of `words`: the groups partition the
   * words in order, each group was filled by the line-82 test, and the
   * first token of every later group failed that test against the group
   * before it.
   */
  predicate Greedy(words: seq<string>, groups: seq<seq<string>>, maxLength: int) {
    Flatten(groups) == words
    && (forall j :: 0 <= j < |groups| ==> WellFilled(groups[j], maxLength))
    && (forall j :: 0 <= j < |groups| - 1 ==> !Admits(groups[j], groups[j + 1][0], maxLength))
  }

  /** Closing the chunk `g` adds it as the last group. */
  lemma CloseGroup(groups: seq<seq<string>>, g: seq<string>)
    ensures Flatten(groups + [g]) == Flatten(groups) + g
    ensures Chunks(groups + [g]) == Chunks(groups) + [Join(" ", g)]
  {
    assert (groups + [g])[..|groups|] == groups;
  }

  /**
   * The state of the loop between two tokens: the closed groups are a
   * greedy packing of their tokens, the open chunk `current` is well
   * filled, and its first token was refused by the last closed group.
   */
  predicate Filling(groups: seq<seq<string>>, current: seq<string>, maxLength: int) {
    Greedy(Flatten(groups), groups, maxLength)
    && WellFilled(current, maxLength)
    && (groups != [] ==> !Admits(groups[|groups| - 1], current[0], maxLength))
  }

  lemma FillingClose(groups: seq<seq<string>>, current: seq<string>, maxLength: int)
    requires Filling(groups, current, maxLength)
    ensures Greedy(Flatten(groups) + current, groups + [current], maxLength)
  {
    CloseGroup(groups, current);
    var all := groups + [current];
    forall j | 0 <= j < |all| - 1 ensures !Admits(all[j], all[j + 1][0], maxLength) {
      assert j < |groups| - 1 ==> all[j + 1] == groups[j + 1];
    }
  }

  lemma FillingSplit(groups: seq<seq<string>>, current: seq<string>, w: string, maxLength: int)
    requires Filling(groups, current, maxLength) && !Admits(current, w, maxLength)
    ensures Filling(groups + [current], [w], maxLength)
  {
    FillingClose(groups, current, maxLength);
    CloseGroup(groups, current);
  }

  lemma FillingExtend(groups: seq<seq<string>>, current: seq<string>, w: string, maxLength: int)
    requires Filling(groups, current, maxLength) && Admits(current, w, maxLength)
    ensures Filling(groups, current + [w], maxLength)
    ensures Measure(current + [w]) == Measure(current) + |w| + (if |current| > 1 then 1 else 0)
  {
    var longer := current + [w];
    assert longer[..|current|] == current;
    forall k | 1 <= k < |longer| ensures Admits(longer[..k], longer[k], maxLength) {
      if k < |current| {
        assert longer[..k] == current[..k];
      }
    }
  }

  /**
   * The loop's state after the first `i` tokens: the closed groups and the
   * open chunk hold exactly those tokens, and they are filling greedily.
   */
  ghost predicate PackState(words: seq<string>, i: nat, groups: seq<seq<string>>, current: seq<string>, maxLength: int) {
    i <= |words| && Flatten(groups) + current == words[..i]
    && (i == 0 ==> current == [] && groups == [])
    && (i > 0 ==> Filling(groups, current, maxLength))
  }

  /** Line 82 refuses token `i`: the open chunk is closed and the token opens the next. */
  lemma PackSplit(words: seq<string>, i: nat, groups: seq<seq<string>>, current: seq<string>, maxLength: int)
    requires PackState(words, i, groups, current, maxLength) && i < |words|
    requires current != [] && !Admits(current, words[i], maxLength)
    ensures PackState(words, i + 1, groups + [current], [words[i]], maxLength)
  {
    assert words[..i + 1] == words[..i] + [words[i]];
    CloseGroup(groups, current);
    FillingSplit(groups, current, words[i], maxLength);
  }

  /** Token `i` joins the open chunk; the running length grows as on line 88. */
  lemma PackExtend(words: seq<string>, i: nat, groups: seq<seq<string>>, current: seq<string>, maxLength: int)
    requires PackState(words, i, groups, current, maxLength) && i < |words|
    requires current == [] || Admits(current, words[i], maxLength)
    ensures PackState(words, i + 1, groups, current + [words[i]], maxLength)
    ensures Measure(current + [words[i]]) == Measure(current) + |words[i]| + (if |current| > 1 then 1 else 0)
  {
    assert words[..i + 1] == words[..i] + [words[i]];
    if current != [] {
      FillingExtend(groups, current, words[i], maxLength);
    } else {
      assert i == 0 || Filling(groups, [], maxLength);
    }
  }

  /** After the last token the open chunk, if any, is closed. */
  lemma PackFinish(words: seq<string>, groups: seq<seq<string>>, current: seq<string>, maxLength: int)
    requires PackState(words, |words|, groups, current, maxLength)
    ensures current == [] ==> Greedy(words, groups, maxLength)
    ensures current != [] ==> Greedy(words, groups + [current], maxLength)
  {
    assert words[..|words|] == words;
    if current != [] {
      FillingClose(groups, current, maxLength);
      CloseGroup(groups, current);
    }
  }

  /** The loop of lines 78-92. */
  method Pack(words: seq<string>, maxLength: int) returns (chunks: seq<string>)
    ensures exists groups :: Greedy(words, groups, maxLength) && chunks == Chunks(groups)
  {
    chunks := [];
    var current: seq<string> := [];
    var currentLength := 0;
    ghost var groups: seq<seq<string>> := [];
    for i := 0 to |words|
      invariant PackState(words, i, groups, current, maxLength)
      invariant currentLength == Measure(current)
      invariant chunks == Chunks(groups)
    {
      var word := words[i];
      var chunkLength := |current|;
      if currentLength + |word| + (if chunkLength > 0 then 1 else 0) > maxLength && chunkLength > 0 {
        PackSplit(words, i, groups, current, maxLength);
        CloseGroup(groups, current);
        chunks := chunks + [Join(" ", current)];
        groups := groups + [current];
        current := [word];
        currentLength := |word|;
      } else {
        PackExtend(words, i, groups, current, maxLength);
        current := current + [word];
        currentLength := currentLength + |word| + (if chunkLength > 1 then 1 else 0);
      }
    }
    PackFinish(words, groups, current, maxLength);
    if current != [] {
      CloseGroup(groups, current);
      chunks := chunks + [Join(" ", current)];
      groups := groups + [current];
    }
  }

  /** A chunk is its group joined with spaces. */
  lemma {:induction false} ChunkAt(groups: seq<seq<string>>, j: nat)
    requires j < |groups|
    ensures Chunks(groups)[j] == Join(" ", groups[j])
  {
    if j < |groups| - 1 {
      var init := groups[..|groups| - 1];
      ChunkAt(init, j);
    }
  }

  lemma {:induction false} FlattenFront(groups: seq<seq<string>>)
    requires groups != []
    ensures Flatten(groups) == groups[0] + Flatten(groups[1..])
  {
    if |groups| == 1 {
      assert groups[1..] == [];
    } else {
      var init := groups[..|groups| - 1];
      FlattenFront(init);
      assert init[1..] == groups[1..][..|groups| - 2];
    }
  }

  /** The first group is a prefix of the words, and the rest is a greedy packing of the rest. */
  lemma GreedyRest(words: seq<string>, groups: seq<seq<string>>, maxLength: int)
    requires Greedy(words, groups, maxLength) && groups != []
    ensures 0 < |groups[0]| <= |words| && words[..|groups[0]|] == groups[0]
    ensures Greedy(words[|groups[0]|..], groups[1..], maxLength)
  {
    FlattenFront(groups);
    var rest := groups[1..];
    assert forall j :: 0 <= j < |rest| ==> rest[j] == groups[j + 1];
  }

  /** Inside a well-filled group that starts the words, every later token was admitted. */
  lemma AdmittedInGroup(words: seq<string>, b: seq<string>, n: nat, maxLength: int)
    requires WellFilled(b, maxLength) && |b| <= |words| && words[..|b|] == b
    requires 1 <= n < |b|
    ensures Admits(words[..n], words[n], maxLength)
  {
    assert b[..n] == words[..n];
  }

  /** The token after a closed first group was refused by it. */
  lemma RefusedAfterGroup(words: seq<string>, groups: seq<seq<string>>, maxLength: int)
    requires Greedy(words, groups, maxLength) && groups != []
    requires |groups[0]| < |words|
    ensures !Admits(words[..|groups[0]|], words[|groups[0]|], maxLength)
  {
    GreedyRest(words, groups, maxLength);
    var n := |groups[0]|;
    assert Flatten(groups[1..]) != [];
    assert |groups| > 1;
    FlattenFront(groups[1..]);
    assert groups[1][0] == words[n];
  }

  /** A greedy packing never closes its first group earlier than another greedy packing does. */
  lemma FirstGroupNotShorter(words: seq<string>, g1: seq<seq<string>>, g2: seq<seq<string>>, maxLength: int)
    requires Greedy(words, g1, maxLength) && Greedy(words, g2, maxLength)
    requires g1 != [] && g2 != []
    ensures |g1[0]| >= |g2[0]|
  {
    GreedyRest(words, g1, maxLength);
    GreedyRest(words, g2, maxLength);
    if |g1[0]| < |g2[0]| {
      RefusedAfterGroup(words, g1, maxLength);
      AdmittedInGroup(words, g2[0], |g1[0]|, maxLength);
      assert false;
    }
  }

  /** There is only one greedy packing of a token list: Greedy specifies the loop completely. */
  lemma {:induction false} GreedyUnique(words: seq<string>, g1: seq<seq<string>>, g2: seq<seq<string>>, maxLength: int)
    requires Greedy(words, g1, maxLength) && Greedy(words, g2, maxLength)
    decreases |words|
    ensures g1 == g2
  {
    if g1 != [] {
      GreedyRest(words, g1, maxLength);
    }
    if g2 != [] {
      GreedyRest(words, g2, maxLength);
    }
    if g1 != [] && g2 != [] {
      FirstGroupNotShorter(words, g1, g2, maxLength);
      FirstGroupNotShorter(words, g2, g1, maxLength);
      var n := |g1[0]|;
      GreedyUnique(words[n..], g1[1..], g2[1..], maxLength);
      assert g1 == [g1[0]] + g1[1..] && g2 == [g2[0]] + g2[1..];
    }
  }

  lemma {:induction false} RejoinGroups(groups: seq<seq<string>>)
    requires forall j :: 0 <= j < |groups| ==> groups[j] != []
    ensures Flatten(groups) != [] <==> groups != []
    ensures Join(" ", Chunks(groups)) == Join(" ", Flatten(groups))
  {
    if |groups| == 1 {
      assert groups[..0] == [];
      assert Chunks(groups) == [Join(" ", groups[0])];
      assert Flatten(groups) == groups[0];
    } else if |groups| > 1 {
      var init, last := groups[..|groups| - 1], groups[|groups| - 1];
      RejoinGroups(init);
      assert Chunks(groups) == Chunks(init) + [Join(" ", last)];
      assert Flatten(groups) == Flatten(init) + last;
      JoinAppend(" ", Chunks(init), [Join(" ", last)]);
      JoinAppend(" ", Flatten(init), last);
    }
  }

  /**
   * Packing neither drops, splits nor reorders tokens: the chunks joined
   * with spaces are the tokens joined with spaces, and there is a chunk
   * exactly when there is a token.
   */
  lemma ChunksRejoin(words: seq<string>, groups: seq<seq<string>>, maxLength: int)
    requires Greedy(words, groups, maxLength)
    ensures Join(" ", Chunks(groups)) == Join(" ", words)
    ensures |Chunks(groups)| == 0 <==> |words| == 0
  {
    RejoinGroups(groups);
  }

  /** With non-empty tokens, every chunk is non-empty. */
  lemma ChunksNonEmpty(words: seq<string>, groups: seq<seq<string>>, maxLength: int)
    requires Greedy(words, groups, maxLength)
    requires forall k :: 0 <= k < |words| ==> words[k] != ""
    ensures forall j :: 0 <= j < |groups| ==> Chunks(groups)[j] != ""
  {
    forall j | 0 <= j < |groups| ensures Chunks(groups)[j] != "" {
      ChunkAt(groups, j);
      var g := groups[j];
      if |g| == 1 {
        GroupTokensAreWords(words, groups, j, 0);
      } else {
        JoinLength(" ", g);
      }
    }
  }

  /** Each token of each group is one of the packed tokens. */
  lemma {:induction false} GroupTokensAreWords(words: seq<string>, groups: seq<seq<string>>, j: nat, k: nat)
    requires Flatten(groups) == words
    requires j < |groups| && k < |groups[j]|
    decreases |groups|
    ensures groups[j][k] in words
  {
    if j < |groups| - 1 {
      var init := groups[..|groups| - 1];
      GroupTokensAreWords(Flatten(init), init, j, k);
    } else {
      assert groups[j][k] == words[|Flatten(groups[..|groups| - 1])| + k];
    }
  }

  /** In a well-filled group of two or more tokens, every token is shorter than the limit. */
  lemma WellFilledShortTokens(g: seq<string>, maxLength: int)
    requires WellFilled(g, maxLength)
    ensures |g| > 1 ==> forall k :: 0 <= k < |g| ==> |g[k]| < maxLength
  {
    if |g| > 1 {
      forall k | 0 <= k < |g| ensures |g[k]| < maxLength {
        if k == 0 {
          assert g[..1] == [g[0]] && [g[0]][..0] == [];
          assert Admits(g[..1], g[1], maxLength);
        } else {
          assert Admits(g[..k], g[k], maxLength);
        }
      }
    }
  }

  /**
   * A token at least as long as the limit shares its chunk with no other
   * token: it is never merged and never split.
   */
  lemma OversizedTokenAlone(words: seq<string>, groups: seq<seq<string>>, maxLength: int, j: nat, k: nat)
    requires Greedy(words, groups, maxLength)
    requires j < |groups| && k < |groups[j]| && |groups[j][k]| >= maxLength
    ensures groups[j] == [groups[j][k]]
    ensures Chunks(groups)[j] == groups[j][k]
  {
    var g := groups[j];
    WellFilledShortTokens(g, maxLength);
    ChunkAt(groups, j);
  }

  /**
   * The effect of the undercount: a chunk of two tokens renders within the
   * limit, but a chunk of three or more tokens may render one character over it.
   */
  lemma ChunkLengthBound(words: seq<string>, groups: seq<seq<string>>, maxLength: int, j: nat)
    requires Greedy(words, groups, maxLength)
    requires j < |groups| && |groups[j]| >= 2
    ensures |Chunks(groups)[j]| <= maxLength + 1
    ensures |groups[j]| == 2 ==> |Chunks(groups)[j]| <= maxLength
  {
    var g := groups[j];
    var n := |g|;
    ChunkAt(groups, j);
    JoinLength(" ", g);
    assert WellFilled(g, maxLength);
    assert Admits(g[..n - 1], g[n - 1], maxLength);
    assert g[..n - 1] == g[..|g| - 1];
  }

  /** The bound is reached: with limit 4, the tokens a, b and c pack into the single 5-character chunk "a b c". */
  lemma ThreeTokenChunkOverflows()
    ensures forall groups :: Greedy(["a", "b", "c"], groups, 4) ==> Chunks(groups) == ["a b c"]
    ensures |"a b c"| == 4 + 1
  {
    var words := ["a", "b", "c"];
    var packed := [words];
    assert words[..1] == ["a"] && words[..2] == ["a", "b"];
    assert ["a", "b"][..1] == ["a"];
    assert TotalLength(["a"]) == 1 && TotalLength(["a", "b"]) == 2;
    assert Flatten(packed) == words by {
      assert packed[..0] == [];
    }
    assert Greedy(words, packed, 4);
    forall groups | Greedy(words, groups, 4) ensures Chunks(groups) == ["a b c"] {
      GreedyUnique(words, groups, packed, 4);
      assert packed[..0] == [];
      assert words[1..] == ["b", "c"] && words[1..][1..] == ["c"];
      assert Join(" ", words) == "a b c";
      assert Chunks(packed) == [Join(" ", words)];
    }
  }
}
