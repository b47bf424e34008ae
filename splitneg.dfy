/**
 * The negative-prompt splitter (prompt_tools_311.py lines 95-119): one pass
 * over the prompt that sends the text inside unescaped square brackets to
 * the negative prompt and everything else to the positive prompt.
 *
 * The specification reads the prompt `s` one character at a time:
 * SplitAt(s, k) is what the splitter holds after the first `k` characters,
 * the two prompts and the control state (bracket depth and escape flag).
 * Two lemmas characterise the control state without the pass: the flag is
 * set exactly after an odd run of backslashes (EscapedIsOddRun), and the
 * depth is the number of unescaped '[' minus the number of unescaped ']'
 * (DepthCounts).
 *
 * An unescaped ']' lowers the depth and adds nothing to either prompt; the
 * source's doc-comment speaks of replacing each bracket with a space, but
 * only '[' adds one (to the negative prompt).
 */
module SplitNeg {
  import opened Wrappers

  /** `brackets_depth` and `escaped` when a character is read. */
  datatype Control = Control(depth: int, escaped: bool)

  /** What happens to a character. */
  datatype Route = Open | Close | ToNegative | ToPositive

  /** Lines 102-111: an unescaped '[' opens, an unescaped ']' closes, anything else goes by the depth. */
  function RouteOf(st: Control, c: char): Route {
    if c == '[' && !st.escaped then Open
    else if c == ']' && !st.escaped then Close
    else if st.depth > 0 then ToNegative
    else ToPositive
  }

  /** What a character taking route `r` adds to the positive prompt (line 111). */
  function PositivePart(r: Route, c: char): string {
    if r == ToPositive then [c] else []
  }

  /** What a character taking route `r` adds to the negative prompt (lines 103 and 109). */
  function NegativePart(r: Route, c: char): string {
    match r
    case Open => " "
    case ToNegative => [c]
    case _ => []
  }

  /** How a route moves the depth (lines 104 and 106). */
  function DepthChange(r: Route): int {
    match r
    case Open => 1
    case Close => -1
    case _ => 0
  }

  /** The two prompts built so far and the control state. */
  datatype Split = Split(positive: string, negative: string, control: Control)

  /**
   * Reading one character. The flag of lines 113-117 is set after a
   * backslash that was not itself escaped; a ']' rebound to a space on
   * line 107 is not a backslash either way.
   */
  function Read(sp: Split, c: char): Split {
    var r := RouteOf(sp.control, c);
    Split(sp.positive + PositivePart(r, c), sp.negative + NegativePart(r, c),
      Control(sp.control.depth + DepthChange(r), c == '\\' && !sp.control.escaped))
  }

  /** The splitter after the first `k` characters of `s`. */
  function SplitAt(s: string, k: nat): Split
    requires k <= |s|
  {
    if k == 0 then Split("", "", Control(0, false)) else Read(SplitAt(s, k - 1), s[k - 1])
  }

  /** `p_prompt` after the first `k` characters. */
  function Positive(s: string, k: nat): string
    requires k <= |s|
  {
    SplitAt(s, k).positive
  }

  /** `n_prompt` after the first `k` characters. */
  function Negative(s: string, k: nat): string
    requires k <= |s|
  {
    SplitAt(s, k).negative
  }

  /** `brackets_depth` when s[k] is read. */
  function Depth(s: string, k: nat): int
    requires k <= |s|
  {
    SplitAt(s, k).control.depth
  }

  /** `escaped` when s[k] is read. */
  predicate Escaped(s: string, k: nat)
    requires k <= |s|
  {
    SplitAt(s, k).control.escaped
  }

  /** The route s[k] takes. */
  function RouteAt(s: string, k: nat): Route
    requires k < |s|
  {
    RouteOf(SplitAt(s, k).control, s[k])
  }

  /** The number of backslashes at the end of the first `k` characters of `s`. */
  function TrailingBackslashes(s: string, k: nat): (n: nat)
    requires k <= |s|
    ensures n <= k
  {
    if k > 0 && s[k - 1] == '\\' then 1 + TrailingBackslashes(s, k - 1) else 0
  }

  /** The number of '[' among the first `k` characters not preceded by an odd run of backslashes. */
  function Opens(s: string, k: nat): nat
    requires k <= |s|
  {
    if k == 0 then 0
    else Opens(s, k - 1) + (if s[k - 1] == '[' && TrailingBackslashes(s, k - 1) % 2 == 0 then 1 else 0)
  }

  /** The number of ']' among the first `k` characters not preceded by an odd run of backslashes. */
  function Closes(s: string, k: nat): nat
    requires k <= |s|
  {
    if k == 0 then 0
    else Closes(s, k - 1) + (if s[k - 1] == ']' && TrailingBackslashes(s, k - 1) % 2 == 0 then 1 else 0)
  }

  /** The loop of lines 101-117, with `self.prompt or ""` on line 101. */
  method SplitNegative(prompt: Option<string>) returns (positive: string, negative: string)
    ensures var s := OrEmpty(prompt);
      positive == Positive(s, |s|) && negative == Negative(s, |s|)
    ensures prompt.None? ==> positive == "" && negative == ""
  {
    var s := OrEmpty(prompt);
    var p, n := "", "";
    var depth := 0;
    var escaped := false;
    for i := 0 to |s|
      invariant SplitAt(s, i) == Split(p, n, Control(depth, escaped))
    {
      var c := s[i];
      if c == '[' && !escaped {
        n := n + " ";
        depth := depth + 1;
      } else if c == ']' && !escaped {
        depth := depth - 1;
        c := ' ';
      } else if depth > 0 {
        n := n + [c];
      } else {
        p := p + [c];
      }
      if c == '\\' && !escaped {
        escaped := true;
      } else {
        escaped := false;
      }
    }
    positive, negative := p, n;
  }

  /**
   * Lines 113-117: the flag is set exactly when the characters read so far
   * end in an odd run of backslashes, so a backslash escapes the next
   * character unless it is itself escaped.
   */
  lemma {:induction false} EscapedIsOddRun(s: string, k: nat)
    requires k <= |s|
    ensures Escaped(s, k) <==> TrailingBackslashes(s, k) % 2 == 1
  {
    if k > 0 {
      EscapedIsOddRun(s, k - 1);
    }
  }

  /**
   * Lines 98, 104 and 106: the depth is the number of unescaped '[' minus
   * the number of unescaped ']' read so far, and it can be negative.
   */
  lemma {:induction false} DepthCounts(s: string, k: nat)
    requires k <= |s|
    ensures Depth(s, k) == Opens(s, k) - Closes(s, k)
  {
    if k > 0 {
      DepthCounts(s, k - 1);
      EscapedIsOddRun(s, k - 1);
    }
  }

  /** An unescaped backslash followed by a backslash leaves the next character unescaped. */
  lemma DoubleBackslash(s: string, k: nat)
    requires k + 2 <= |s| && s[k] == '\\' && s[k + 1] == '\\' && !Escaped(s, k)
    ensures !Escaped(s, k + 2)
  {
    assert Escaped(s, k + 1);
  }

  /**
   * Lines 108-111 with 105-107: every character other than an unescaped ']'
   * lands in exactly one prompt (an unescaped '[' as a space), so the two
   * prompts are as long as the input without its unescaped ']'.
   */
  lemma {:induction false} LengthAccounting(s: string, k: nat)
    requires k <= |s|
    ensures |Positive(s, k)| + |Negative(s, k)| == k - Closes(s, k)
  {
    if k > 0 {
      LengthAccounting(s, k - 1);
      EscapedIsOddRun(s, k - 1);
    }
  }

  /**
   * A prompt without unescaped brackets is all positive, and the negative
   * prompt is empty: every '[' or ']' in it follows an odd run of backslashes.
   */
  lemma {:induction false} PlainPrompt(s: string, k: nat)
    requires k <= |s|
    requires forall j :: 0 <= j < k && (s[j] == '[' || s[j] == ']') ==> TrailingBackslashes(s, j) % 2 == 1
    ensures Positive(s, k) == s[..k] && Negative(s, k) == "" && Depth(s, k) == 0
  {
    if k > 0 {
      PlainPrompt(s, k - 1);
      EscapedIsOddRun(s, k - 1);
      assert s[..k] == s[..k - 1] + [s[k - 1]];
    }
  }

  /**
   * Lines 108-111: a character that is not an unescaped bracket (an escaped
   * '[' or ']' included) goes to the negative prompt when the depth is
   * positive and to the positive prompt otherwise, and the depth stays.
   */
  lemma OtherStep(s: string, k: nat)
    requires k < |s| && !((s[k] == '[' || s[k] == ']') && !Escaped(s, k))
    ensures Depth(s, k) > 0 ==> Negative(s, k + 1) == Negative(s, k) + [s[k]] && Positive(s, k + 1) == Positive(s, k)
    ensures Depth(s, k) <= 0 ==> Positive(s, k + 1) == Positive(s, k) + [s[k]] && Negative(s, k + 1) == Negative(s, k)
    ensures Depth(s, k + 1) == Depth(s, k)
  {
  }

  /**
   * A run holding no unescaped bracket goes whole to one prompt, the
   * negative one exactly when the depth is positive, and leaves the depth
   * unchanged; escaped brackets travel with the rest of the run.
   */
  lemma {:induction false} PlainRun(s: string, i: nat, j: nat)
    requires i <= j <= |s|
    requires forall m :: i <= m < j && (s[m] == '[' || s[m] == ']') ==> Escaped(s, m)
    ensures Positive(s, j) == Positive(s, i) + (if Depth(s, i) > 0 then [] else s[i..j])
    ensures Negative(s, j) == Negative(s, i) + (if Depth(s, i) > 0 then s[i..j] else [])
    ensures Depth(s, j) == Depth(s, i)
  {
    if i < j {
      PlainRun(s, i, j - 1);
      OtherStep(s, j - 1);
      SliceGrows(s, i, j);
      RunGrows(Positive(s, i), Positive(s, j - 1), Positive(s, j), s[i..j - 1], s[j - 1], s[i..j], Depth(s, i) <= 0);
      RunGrows(Negative(s, i), Negative(s, j - 1), Negative(s, j), s[i..j - 1], s[j - 1], s[i..j], Depth(s, i) > 0);
    }
  }

  /** The step of PlainRun for one prompt, apart from the splitter: a run that takes one more character. */
  lemma RunGrows(start: string, before: string, after: string, run: string, c: char, longer: string, taken: bool)
    requires before == start + (if taken then run else [])
    requires after == before + (if taken then [c] else [])
    requires longer == run + [c]
    ensures after == start + (if taken then longer else [])
  {
  }

  /** A slice one character longer. */
  lemma SliceGrows(s: string, i: nat, j: nat)
    requires i < j <= |s|
    ensures s[i..j] == s[i..j - 1] + [s[j - 1]]
  {
  }

  /** `u` holds no square bracket. */
  predicate NoBrackets(u: string) {
    '[' !in u && ']' !in u
  }

  /** A piece of `s` without brackets, in the form PlainRun takes. */
  lemma PieceWithoutBrackets(s: string, i: nat, u: string)
    requires i + |u| <= |s| && s[i..i + |u|] == u && NoBrackets(u)
    ensures forall m :: i <= m < i + |u| ==> s[m] != '[' && s[m] != ']'
  {
    forall m | i <= m < i + |u| ensures s[m] != '[' && s[m] != ']' {
      assert s[m] == u[m - i];
    }
  }

  /** Lines 102-104: an unescaped '[' adds a space to the negative prompt and opens a level. */
  lemma OpenStep(s: string, k: nat)
    requires k < |s| && s[k] == '[' && !Escaped(s, k)
    ensures Positive(s, k + 1) == Positive(s, k) && Negative(s, k + 1) == Negative(s, k) + " "
    ensures Depth(s, k + 1) == Depth(s, k) + 1 && !Escaped(s, k + 1)
  {
  }

  /** Lines 105-107: an unescaped ']' adds nothing and closes a level. */
  lemma CloseStep(s: string, k: nat)
    requires k < |s| && s[k] == ']' && !Escaped(s, k)
    ensures Positive(s, k + 1) == Positive(s, k) && Negative(s, k + 1) == Negative(s, k)
    ensures Depth(s, k + 1) == Depth(s, k) - 1 && !Escaped(s, k + 1)
  {
  }

  /** Lines 113-117: after a character other than a backslash the flag is clear. */
  lemma NotEscapedAfter(s: string, k: nat)
    requires k <= |s| && (k == 0 || s[k - 1] != '\\')
    ensures !Escaped(s, k)
  {
  }

  /** Text `a` without brackets, then an unescaped '[': `a` is positive, the '[' a negative space. */
  lemma OpenAfterPlain(s: string, a: string)
    requires |a| < |s| && s[..|a|] == a && s[|a|] == '[' && NoBrackets(a)
    requires a == [] || a[|a| - 1] != '\\'
    ensures Positive(s, |a| + 1) == a && Negative(s, |a| + 1) == " " && Depth(s, |a| + 1) == 1
  {
    var i := |a|;
    PieceWithoutBrackets(s, 0, a);
    PlainRun(s, 0, i);
    assert s[0..i] == a;
    if i > 0 {
      assert s[i - 1] == a[i - 1];
    }
    NotEscapedAfter(s, i);
    OpenStep(s, i);
  }

  /** Inside a level, text `b` without brackets then an unescaped ']': `b` is negative and the level closes. */
  lemma CloseAfterPlain(s: string, i: nat, b: string)
    requires 0 < i && i + |b| < |s| && s[i..i + |b|] == b && s[i + |b|] == ']' && NoBrackets(b)
    requires s[i + |b| - 1] != '\\' && Depth(s, i) == 1
    ensures Positive(s, i + |b| + 1) == Positive(s, i)
    ensures Negative(s, i + |b| + 1) == Negative(s, i) + b
    ensures Depth(s, i + |b| + 1) == 0
  {
    var j := i + |b|;
    PieceWithoutBrackets(s, i, b);
    PlainRun(s, i, j);
    NotEscapedAfter(s, j);
    CloseStep(s, j);
  }

  /** Text `c` without brackets at depth zero, up to the end: it is all positive. */
  lemma PlainToEnd(s: string, i: nat, c: string)
    requires i <= |s| && s[i..] == c && NoBrackets(c) && Depth(s, i) == 0
    ensures Positive(s, |s|) == Positive(s, i) + c && Negative(s, |s|) == Negative(s, i)
    ensures Depth(s, |s|) == 0
  {
    PieceWithoutBrackets(s, i, c);
    PlainRun(s, i, |s|);
    assert s[i..|s|] == c;
  }

  /**
   * A prompt `s` laid out as `a`, an unescaped '[', `b`, an unescaped ']'
   * and `c`, with no other brackets.
   */
  lemma SectionOf(s: string, a: string, b: string, c: string)
    requires NoBrackets(a) && NoBrackets(b) && NoBrackets(c)
    requires a == [] || a[|a| - 1] != '\\'
    requires |s| == |a| + |b| + |c| + 2 && s[..|a|] == a && s[|a|] == '['
    requires s[|a| + 1..|a| + 1 + |b|] == b && s[|a| + 1 + |b|] == ']' && s[|a| + |b|] != '\\'
    requires s[|a| + |b| + 2..] == c
    ensures Positive(s, |s|) == a + c && Negative(s, |s|) == " " + b && Depth(s, |s|) == 0
  {
    var i := |a| + 1;
    OpenAfterPlain(s, a);
    CloseAfterPlain(s, i, b);
    PlainToEnd(s, i + |b| + 1, c);
  }

  /**
   * A bracketed section: with no other brackets and no backslash before
   * either bracket, `a[b]c` splits into the positive prompt `a` + `c` and
   * the negative prompt " " + `b`, and the depth returns to zero.
   */
  lemma BracketedSection(a: string, b: string, c: string)
    requires NoBrackets(a) && NoBrackets(b) && NoBrackets(c)
    requires a == [] || a[|a| - 1] != '\\'
    requires b == [] || b[|b| - 1] != '\\'
    ensures var s := a + "[" + b + "]" + c;
      Positive(s, |s|) == a + c && Negative(s, |s|) == " " + b && Depth(s, |s|) == 0
  {
    var s := a + "[" + b + "]" + c;
    var i := |a| + 1;
    assert s[..|a|] == a && s[|a|] == '[' && s[i..i + |b|] == b && s[i + |b|] == ']';
    assert s[|a| + |b|] != '\\' by {
      if b != [] {
        assert s[|a| + |b|] == b[|b| - 1];
      }
    }
    assert s[|a| + |b| + 2..] == c;
    SectionOf(s, a, b, c);
  }

  /**
   * An unmatched ']' drives the depth below zero, so a later '[' only
   * brings it back to zero: the text after it stays positive.
   */
  lemma UnmatchedClose()
    ensures Positive("a]b[c", 5) == "abc" && Negative("a]b[c", 5) == " " && Depth("a]b[c", 5) == 0
  {
  }

  /** An escaped '[' is ordinary text, and its backslash is kept. */
  lemma EscapedOpen()
    ensures Positive("a\\[b]", 5) == "a\\[b" && Negative("a\\[b]", 5) == ""
  {
  }
}
