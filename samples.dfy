/**
 * A worked prompt for the tokenizer: a signed group, a weighted group
 * whose numeral stops at a letter, the word glued to it, a quoted phrase
 * with a space inside, and a word ending in an unclosed '('.
 *
 * The scan steps are lemmas about any text with the prompt's characters,
 * so the verifier follows the scan one match at a time.
 */
module Samples {
  import opened Wrappers
  import opened Tokenizer

  const Prompt: string := "(a)+ (b)1.5x \"c d\" e("

  /** `s` has the characters of the prompt. */
  predicate Shaped(s: string) {
    |s| == |Prompt| && forall k :: 0 <= k < |s| ==> s[k] == Prompt[k]
  }

  lemma ScanFrom19(s: string)
    requires Shaped(s)
    ensures Scan(s, 19) == ["e("]
  {
    assert s[19] == 'e' && s[20] == '(';
    assert s[19..21] == "e(";
    WordPriority(s, 19, 21);
    ScanMatched(s, 19, 21);
  }

  lemma ScanFrom13(s: string)
    requires Shaped(s)
    ensures Scan(s, 13) == ["\"c d\"", "e("]
  {
    assert s[13] == '"' && s[14] == 'c' && s[15] == ' ' && s[16] == 'd' && s[17] == '"';
    assert s[13..18] == "\"c d\"" && IsSpace(s[18]);
    QuotedPriority(s, 13, 17);
    ScanMatched(s, 13, 18);
    ScanSkipped(s, 18);
    assert Scan(s, 13) == ["\"c d\""] + Scan(s, 19);
    ScanFrom19(s);
  }

  lemma ScanFrom11(s: string)
    requires Shaped(s)
    ensures Scan(s, 11) == ["x", "\"c d\"", "e("]
  {
    assert s[11] == 'x' && IsSpace(s[12]);
    assert s[11..12] == "x";
    WordPriority(s, 11, 12);
    ScanMatched(s, 11, 12);
    ScanSkipped(s, 12);
    assert Scan(s, 11) == ["x"] + Scan(s, 13);
    ScanFrom13(s);
  }

  /** "1.5" is the greedy numeral before the 'x'. */
  lemma NumeralBeforeX(s: string)
    requires Shaped(s)
    ensures NumeralEnd(s, 8, 11)
  {
    var u := s[8..11];
    assert s[8] == '1' && s[9] == '.' && s[10] == '5' && s[11] == 'x';
    assert u[0] == '1' && u[1] == '.' && u[2] == '5';
    assert u[..1] == [u[0]];
    assert IsDigit(u[0]) && '.' !in u[..1] && IsDigit(u[2]);
  }

  lemma WeightedAt5(s: string)
    requires Shaped(s)
    ensures MatchAt(s, 5) == Some((WeightedGroup, 11))
  {
    assert s[5] == '(' && s[6] == 'b' && s[7] == ')' && s[8] == '1';
    NumeralBeforeX(s);
    GroupPriority(s, 5, 7, 11);
  }

  lemma ScanFrom5(s: string)
    requires Shaped(s)
    ensures Scan(s, 5) == ["(b)1.5", "x", "\"c d\"", "e("]
  {
    assert s[5] == '(' && s[6] == 'b' && s[7] == ')' && s[8] == '1' && s[9] == '.' && s[10] == '5';
    assert s[5..11] == "(b)1.5";
    WeightedAt5(s);
    ScanMatched(s, 5, 11);
    assert Scan(s, 5) == ["(b)1.5"] + Scan(s, 11);
    ScanFrom11(s);
  }

  lemma SignedAt0(s: string)
    requires Shaped(s)
    ensures MatchAt(s, 0) == Some((SignedGroup, 4))
  {
    assert s[0] == '(' && s[1] == 'a' && s[2] == ')' && s[3] == '+' && s[4] == ' ';
    GroupPriority(s, 0, 2, 4);
  }

  lemma ScanFrom0(s: string)
    requires Shaped(s)
    ensures Scan(s, 0) == ["(a)+", "(b)1.5", "x", "\"c d\"", "e("]
  {
    assert s[0] == '(' && s[1] == 'a' && s[2] == ')' && s[3] == '+' && s[4] == ' ';
    assert s[0..4] == "(a)+";
    SignedAt0(s);
    ScanMatched(s, 0, 4);
    ScanSkipped(s, 4);
    assert Scan(s, 0) == ["(a)+"] + Scan(s, 5);
    ScanFrom5(s);
  }

  /**
   * The tokens of the worked prompt: "(a)+" whole with its sign, "(b)1.5"
   * with the numeral but not the letter after it, "x" on its own, the
   * quoted phrase as one token, and "e(" as a plain word.
   */
  lemma TokenizeSample()
    ensures Tokenize(Prompt) == ["(a)+", "(b)1.5", "x", "\"c d\"", "e("]
  {
    ScanFrom0(Prompt);
  }
}
