/**
 * The tokenizer of the prompt auto-chunker: Python's
 *   re.compile(SIGNED | WEIGHTED | PLAIN | QUOTED | WORD).findall(s)
 * written as a scanner with one matcher per alternative of the regular
 * expression. Each matcher's contract says, without reference to the
 * scanner, which text its alternative matches at a position.
 */
module Tokenizer {
  import opened Wrappers

  /** Python's `\s` on str: exactly the characters for which str.isspace() holds. */
  predicate IsSpace(c: char) {
    var n := c as int;
    (9 <= n <= 13) || (28 <= n <= 32) || n == 0x85 || n == 0xA0 || n == 0x1680
    || (0x2000 <= n <= 0x200A) || n == 0x2028 || n == 0x2029 || n == 0x202F
    || n == 0x205F || n == 0x3000
  }

  /** `\d`, restricted to the ASCII digits. */
  predicate IsDigit(c: char) { '0' <= c <= '9' }

  /** `[+-]` */
  predicate IsSign(c: char) { c == '+' || c == '-' }

  /** Every character of `g` is whitespace. */
  predicate Blank(g: string) { forall k :: 0 <= k < |g| ==> IsSpace(g[k]) }

  /** `\d*\.?\d*` as a shape: digits with at most one '.' among them. */
  predicate IsNumeral(u: string) {
    forall k :: 0 <= k < |u| ==> IsDigit(u[k]) || (u[k] == '.' && '.' !in u[..k])
  }

  /**
   * `e` is where the greedy `\d*\.?\d*` stops when started at `g`: the text
   * between is a numeral, and the next character could not extend it.
   */
  predicate NumeralEnd(s: string, g: nat, e: nat) {
    g <= e <= |s| && IsNumeral(s[g..e])
    && (e == |s| || (!IsDigit(s[e]) && (s[e] == '.' ==> '.' in s[g..e])))
  }

  /** A numeral cannot be extended past the point where the greedy pattern stops. */
  lemma NumeralStops(s: string, g: nat, e: nat, e2: nat)
    requires NumeralEnd(s, g, e) && e < e2 <= |s|
    ensures !IsNumeral(s[g..e2])
  {
    var v := s[g..e2];
    var m := e - g;
    assert v[m] == s[e];
    assert v[..m] == s[g..e];
  }

  /** The greedy numeral has one end only. */
  lemma NumeralEndUnique(s: string, g: nat, e1: nat, e2: nat)
    requires NumeralEnd(s, g, e1) && NumeralEnd(s, g, e2)
    ensures e1 == e2
  {
    if e1 < e2 {
      NumeralStops(s, g, e1, e2);
    } else if e2 < e1 {
      NumeralStops(s, g, e2, e1);
    }
  }

  /** The index of the first `c` at or after `from`. */
  function Find(s: string, c: char, from: nat): (r: Option<nat>)
    decreases |s| - from
    ensures r.Some? ==> from <= r.value < |s| && s[r.value] == c
    ensures r.Some? ==> forall k :: from <= k < r.value ==> s[k] != c
    ensures r.None? ==> forall k :: from <= k < |s| ==> s[k] != c
  {
    if from >= |s| then None
    else if s[from] == c then Some(from)
    else Find(s, c, from + 1)
  }

  /** The end of the longest run of characters satisfying `p` that starts at `from`. */
  function RunEnd(s: string, from: nat, p: char -> bool): (r: nat)
    requires from <= |s|
    decreases |s| - from
    ensures from <= r <= |s|
    ensures forall k :: from <= k < r ==> p(s[k])
    ensures r == |s| || !p(s[r])
  {
    if from == |s| || !p(s[from]) then from else RunEnd(s, from + 1, p)
  }

  /**
   * A delimited span, the shape shared by `\([^)]*\)` and `"[^"]*"`: an
   * `open` character at `i` and everything up to and including the first
   * `close` character after it. The result is the end of the match.
   */
  function MatchEnclosed(s: string, i: nat, open: char, close: char): (r: Option<nat>)
    ensures r.Some? <==> i < |s| && s[i] == open && exists j :: i < j < |s| && s[j] == close
    ensures r.Some? ==> i + 2 <= r.value <= |s| && s[r.value - 1] == close
    ensures r.Some? ==> forall k :: i < k < r.value - 1 ==> s[k] != close
  {
    if i < |s| && s[i] == open then
      match Find(s, close, i + 1)
      case Some(j) => Some(j + 1)
      case None => None
    else None
  }

  /** Alternative 3, `\([^)]*\)`: a '(' and everything up to and including the first ')' after it. */
  function MatchPlainGroup(s: string, i: nat): Option<nat> {
    MatchEnclosed(s, i, '(', ')')
  }

  /**
   * Alternative 1, `\([^)]*\)[+-]+`: a group immediately followed by a
   * non-empty run of signs; the match takes the whole run.
   */
  function MatchSignedGroup(s: string, i: nat): (r: Option<nat>)
    ensures var g := MatchPlainGroup(s, i);
      r.Some? <==> g.Some? && g.value < |s| && IsSign(s[g.value])
    ensures r.Some? ==> var g := MatchPlainGroup(s, i).value;
      g < r.value <= |s| && (forall k :: g <= k < r.value ==> IsSign(s[k]))
      && (r.value == |s| || !IsSign(s[r.value]))
  {
    match MatchPlainGroup(s, i)
    case Some(g) =>
      if g < |s| && IsSign(s[g]) then Some(RunEnd(s, g, IsSign)) else None
    case None => None
  }

  /**
   * Alternative 2, `\([^)]*\)\d*\.?\d*`: a group followed by the longest
   * numeral (possibly empty) that the greedy pattern takes.
   */
  function MatchWeightedGroup(s: string, i: nat): (r: Option<nat>)
    ensures r.Some? <==> MatchPlainGroup(s, i).Some?
    ensures r.Some? ==> NumeralEnd(s, MatchPlainGroup(s, i).value, r.value)
  {
    match MatchPlainGroup(s, i)
    case Some(g) =>
      var d := RunEnd(s, g, IsDigit);
      if d < |s| && s[d] == '.' then
        var e := RunEnd(s, d + 1, IsDigit);
        assert IsNumeral(s[g..e]) by {
          forall k | 0 <= k < e - g
            ensures IsDigit(s[g..e][k]) || (s[g..e][k] == '.' && '.' !in s[g..e][..k])
          {
            if k != d - g {
              assert s[g..e][k] == s[g + k];
            } else {
              assert s[g..e][..k] == s[g..d];
            }
          }
        }
        assert s[g..e][d - g] == '.';
        Some(e)
      else
        assert forall k :: 0 <= k < d - g ==> s[g..d][k] == s[g + k];
        Some(d)
    case None => None
  }

  /** Alternative 4, `"[^"]*"`: a '"' and everything up to and including the next '"'. */
  function MatchQuoted(s: string, i: nat): Option<nat> {
    MatchEnclosed(s, i, '"', '"')
  }

  /** Alternative 5, `\S+`: the longest run of non-whitespace characters starting at `i`. */
  function MatchWord(s: string, i: nat): (r: Option<nat>)
    ensures r.Some? <==> i < |s| && !IsSpace(s[i])
    ensures r.Some? ==> i < r.value <= |s| && (forall k :: i <= k < r.value ==> !IsSpace(s[k]))
    ensures r.Some? ==> r.value == |s| || IsSpace(s[r.value])
  {
    if i < |s| && !IsSpace(s[i]) then Some(RunEnd(s, i, c => !IsSpace(c))) else None
  }

  /** The five alternatives, in the order the pattern lists them. */
  datatype Alternative = SignedGroup | WeightedGroup | PlainGroup | Quoted | Word

  /**
   * The whole pattern at one position: the first alternative that matches
   * wins. A match exists exactly at the non-whitespace positions, it is
   * never empty, and the plain-group alternative is never the one chosen.
   */
  function MatchAt(s: string, i: nat): (r: Option<(Alternative, nat)>)
    ensures r.Some? <==> i < |s| && !IsSpace(s[i])
    ensures r.Some? ==> i < r.value.1 <= |s| && r.value.0 != PlainGroup
  {
    match MatchSignedGroup(s, i)
    case Some(e) => Some((SignedGroup, e))
    case None =>
      match MatchWeightedGroup(s, i)
      case Some(e) => Some((WeightedGroup, e))
      case None =>
        match MatchPlainGroup(s, i)
        case Some(e) => Some((PlainGroup, e))
        case None =>
          match MatchQuoted(s, i)
          case Some(e) => Some((Quoted, e))
          case None =>
            match MatchWord(s, i)
            case Some(e) => Some((Word, e))
            case None => None
  }

  /**
   * At a '(' whose first following ')' is at `j`, the group is always taken
   * whole: by the signed-group alternative, with the whole run of signs,
   * when a sign follows the ')', otherwise by the weighted-group
   * alternative, with the greedy numeral after the ')'.
   */
  lemma GroupPriority(s: string, i: nat, j: nat, e: nat)
    requires i < j < |s| && s[i] == '(' && s[j] == ')'
    requires forall k :: i < k < j ==> s[k] != ')'
    requires j < e <= |s|
    requires if j + 1 < |s| && IsSign(s[j + 1])
      then (forall k :: j < k < e ==> IsSign(s[k])) && (e == |s| || !IsSign(s[e]))
      else NumeralEnd(s, j + 1, e)
    ensures j + 1 < |s| && IsSign(s[j + 1]) ==> MatchAt(s, i) == Some((SignedGroup, e))
    ensures !(j + 1 < |s| && IsSign(s[j + 1])) ==> MatchAt(s, i) == Some((WeightedGroup, e))
  {
    assert MatchPlainGroup(s, i) == Some(j + 1);
    if !(j + 1 < |s| && IsSign(s[j + 1])) {
      NumeralEndUnique(s, j + 1, e, MatchWeightedGroup(s, i).value);
    }
  }

  /** A quoted phrase is taken whole, up to its closing '"', whatever it contains. */
  lemma QuotedPriority(s: string, i: nat, j: nat)
    requires i < j < |s| && s[i] == '"' && s[j] == '"'
    requires forall k :: i < k < j ==> s[k] != '"'
    ensures MatchAt(s, i) == Some((Quoted, j + 1))
  {
  }

  /** A run of non-whitespace that starts with neither '(' nor '"' is one word. */
  lemma WordPriority(s: string, i: nat, e: nat)
    requires i < e <= |s| && s[i] != '(' && s[i] != '"'
    requires forall k :: i <= k < e ==> !IsSpace(s[k])
    requires e == |s| || IsSpace(s[e])
    ensures MatchAt(s, i) == Some((Word, e))
  {
  }

  /** An unclosed '(' or '"' is not a group or phrase: the word rule takes it. */
  lemma UnclosedIsWord(s: string, i: nat)
    requires i < |s| && (s[i] == '(' || s[i] == '"')
    requires forall k :: i < k < |s| ==> s[k] != (if s[i] == '(' then ')' else '"')
    ensures MatchAt(s, i).Some? && MatchAt(s, i).value.0 == Word
    ensures MatchAt(s, i) == Some((Word, MatchWord(s, i).value))
  {
  }

  /** `findall` from position `i`: each match in turn, skipping positions where none starts. */
  function Scan(s: string, i: nat): (tokens: seq<string>)
    decreases |s| - i
  {
    if i >= |s| then []
    else match MatchAt(s, i)
      case Some((_, e)) => [s[i..e]] + Scan(s, e)
      case None => Scan(s, i + 1)
  }

  /** The tokens of a prompt (prompt_tools.py line 72). */
  function Tokenize(s: string): seq<string> {
    Scan(s, 0)
  }

  /** `tokens[0] + gaps[0] + tokens[1] + gaps[1] + ...` */
  function Interleave(tokens: seq<string>, gaps: seq<string>): string
    requires |gaps| == |tokens|
  {
    if tokens == [] then [] else tokens[0] + gaps[0] + Interleave(tokens[1..], gaps[1..])
  }

  /** `gaps[0] + tokens[0] + gaps[1] + ... + tokens[n-1] + gaps[n]` */
  function Weave(gaps: seq<string>, tokens: seq<string>): string
    requires |gaps| == |tokens| + 1
  {
    gaps[0] + Interleave(tokens, gaps[1..])
  }

  /** The text `Scan` skips before each token and after the last one. */
  ghost function Gaps(s: string, i: nat): (gaps: seq<string>)
    decreases |s| - i
    ensures |gaps| == |Scan(s, i)| + 1
  {
    if i >= |s| then [""]
    else match MatchAt(s, i)
      case Some((_, e)) => [""] + Gaps(s, e)
      case None => var g := Gaps(s, i + 1); [[s[i]] + g[0]] + g[1..]
  }

  /** Putting a character in front of the first gap puts it in front of the woven text. */
  lemma WeaveWiden(c: char, gaps: seq<string>, tokens: seq<string>)
    requires |gaps| == |tokens| + 1
    ensures Weave([[c] + gaps[0]] + gaps[1..], tokens) == [c] + Weave(gaps, tokens)
  {
    var wide := [[c] + gaps[0]] + gaps[1..];
    assert wide[0] == [c] + gaps[0] && wide[1..] == gaps[1..];
  }

  /** A token with an empty gap before it goes in front of the woven text. */
  lemma WeaveToken(token: string, gaps: seq<string>, tokens: seq<string>)
    requires |gaps| == |tokens| + 1
    ensures Weave([""] + gaps, [token] + tokens) == token + Weave(gaps, tokens)
  {
    var g, t := [""] + gaps, [token] + tokens;
    assert g[0] == "" && t[0] == token && g[1..] == gaps && t[1..] == tokens;
  }

  lemma {:induction false} ScanTokensNonEmpty(s: string, i: nat)
    decreases |s| - i
    ensures forall k :: 0 <= k < |Scan(s, i)| ==> |Scan(s, i)[k]| > 0
  {
    if i < |s| {
      match MatchAt(s, i)
      case Some((_, e)) => ScanTokensNonEmpty(s, e);
      case None => ScanTokensNonEmpty(s, i + 1);
    }
  }

  lemma {:induction false} ScanGapsBlank(s: string, i: nat)
    decreases |s| - i
    ensures forall k :: 0 <= k < |Gaps(s, i)| ==> Blank(Gaps(s, i)[k])
  {
    if i < |s| {
      match MatchAt(s, i)
      case Some((_, e)) =>
        ScanGapsBlank(s, e);
        assert forall k :: 0 < k < |Gaps(s, i)| ==> Gaps(s, i)[k] == Gaps(s, e)[k - 1];
      case None =>
        ScanGapsBlank(s, i + 1);
        var g := Gaps(s, i + 1);
        assert forall k :: 0 < k < |Gaps(s, i)| ==> Gaps(s, i)[k] == g[k];
        assert Gaps(s, i)[0] == [s[i]] + g[0];
    }
  }

  /** One step of `Scan` and `Gaps` at a position where a token starts. */
  lemma ScanMatched(s: string, i: nat, e: nat)
    requires i < |s| && MatchAt(s, i).Some? && MatchAt(s, i).value.1 == e
    ensures i < e <= |s|
    ensures Scan(s, i) == [s[i..e]] + Scan(s, e) && Gaps(s, i) == [""] + Gaps(s, e)
  {
  }

  /** One step of `Scan` and `Gaps` at a whitespace position, which is skipped. */
  lemma ScanSkipped(s: string, i: nat)
    requires i < |s| && IsSpace(s[i])
    ensures Scan(s, i) == Scan(s, i + 1)
    ensures Gaps(s, i) == [[s[i]] + Gaps(s, i + 1)[0]] + Gaps(s, i + 1)[1..]
  {
  }

  /** Weaving is preserved across a step over a token. */
  lemma WeaveMatched(s: string, i: nat, e: nat)
    requires i < |s| && MatchAt(s, i).Some? && MatchAt(s, i).value.1 == e
    requires e <= |s| && Weave(Gaps(s, e), Scan(s, e)) == s[e..]
    ensures Weave(Gaps(s, i), Scan(s, i)) == s[i..]
  {
    ScanMatched(s, i, e);
    WeaveToken(s[i..e], Gaps(s, e), Scan(s, e));
    assert s[i..] == s[i..e] + s[e..];
  }

  /** Weaving is preserved across a skipped character. */
  lemma WeaveSkipped(s: string, i: nat)
    requires i < |s| && IsSpace(s[i])
    requires Weave(Gaps(s, i + 1), Scan(s, i + 1)) == s[i + 1..]
    ensures Weave(Gaps(s, i), Scan(s, i)) == s[i..]
  {
    ScanSkipped(s, i);
    WeaveWiden(s[i], Gaps(s, i + 1), Scan(s, i + 1));
    assert s[i..] == [s[i]] + s[i + 1..];
  }

  lemma {:induction false} ScanWeave(s: string, i: nat)
    requires i <= |s|
    decreases |s| - i
    ensures Weave(Gaps(s, i), Scan(s, i)) == s[i..]
  {
    if i < |s| {
      var m := MatchAt(s, i);
      if m.Some? {
        ScanWeave(s, m.value.1);
        WeaveMatched(s, i, m.value.1);
      } else {
        ScanWeave(s, i + 1);
        WeaveSkipped(s, i);
      }
    }
  }

  /**
   * The tokens cover the prompt: every token is non-empty, and the prompt
   * is the tokens, in order, with only whitespace between, before and after them.
   */
  lemma TokenizeCovers(s: string)
    ensures forall k :: 0 <= k < |Tokenize(s)| ==> |Tokenize(s)[k]| > 0
    ensures exists gaps :: (|gaps| == |Tokenize(s)| + 1
      && (forall k :: 0 <= k < |gaps| ==> Blank(gaps[k])) && Weave(gaps, Tokenize(s)) == s)
  {
    ScanTokensNonEmpty(s, 0);
    ScanGapsBlank(s, 0);
    ScanWeave(s, 0);
    assert s[0..] == s;
    var gaps := Gaps(s, 0);
    assert Weave(gaps, Tokenize(s)) == s;
  }

  /** A prompt has no tokens exactly when it is empty or all whitespace. */
  lemma TokenizeEmptyIffBlank(s: string)
    ensures Tokenize(s) == [] <==> Blank(s)
  {
    ScanGapsBlank(s, 0);
    ScanWeave(s, 0);
    assert s[0..] == s;
    if Blank(s) {
      BlankScansNothing(s, 0);
    }
  }

  lemma {:induction false} BlankScansNothing(s: string, i: nat)
    requires forall k :: i <= k < |s| ==> IsSpace(s[k])
    decreases |s| - i
    ensures Scan(s, i) == []
  {
    if i < |s| {
      BlankScansNothing(s, i + 1);
    }
  }
}
