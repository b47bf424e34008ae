/**
 * The output of the prompt auto-chunker (prompt_tools.py lines 94-102):
 * zero or one chunk is returned as it is; two or more become the host's
 * combination expression ("c1","c2",...).and(), with every '"' inside a
 * chunk written as \" and backslashes left as they are.
 *
 * ParseAnd is an independent reader of that expression as this renderer
 * writes it (quoted items separated by commas, \" the only escape), not
 * the host's whole weighting grammar; the round trip RenderRoundTrip shows
 * what the expression preserves and when.
 */
module Rendering {
  import opened Wrappers
  import opened Strings

  /** The number of '"' characters in `c`. */
  function Quotes(c: string): nat {
    if c == [] then 0 else (if c[0] == '"' then 1 else 0) + Quotes(c[1..])
  }

  /** `chunk.replace('"', '\\"')` */
  function Escape(c: string): (r: string)
    ensures |r| == |c| + Quotes(c)
    ensures r != [] ==> r[0] != '"'
  {
    if c == [] then []
    else (if c[0] == '"' then ['\\', '"'] else [c[0]]) + Escape(c[1..])
  }

  /** In an escaped chunk every '"' comes right after a backslash. */
  lemma {:induction false} EscapedQuotesFollowBackslash(c: string)
    ensures forall k :: 0 <= k < |Escape(c)| && Escape(c)[k] == '"' ==> 0 < k && Escape(c)[k - 1] == '\\'
  {
    if c != [] {
      EscapedQuotesFollowBackslash(c[1..]);
      var head: string := if c[0] == '"' then ['\\', '"'] else [c[0]];
      var r, tail := Escape(c), Escape(c[1..]);
      assert r == head + tail;
      forall k | 0 <= k < |r| && r[k] == '"'
        ensures 0 < k && r[k - 1] == '\\'
      {
        if k < |head| {
          assert head[k] == '"';
          assert k == 1 && head == ['\\', '"'];
          assert r[k - 1] == head[k - 1];
        } else {
          var m := k - |head|;
          assert tail[m] == '"';
          assert 0 < m && tail[m - 1] == '\\';
          assert r[k - 1] == tail[m - 1];
        }
      }
    }
  }

  /** Reading an escaped text back: a backslash directly before a '"' is dropped. */
  function Unescape(t: string): string {
    if t == [] then []
    else if |t| >= 2 && t[0] == '\\' && t[1] == '"' then ['"'] + Unescape(t[2..])
    else [t[0]] + Unescape(t[1..])
  }

  /** Escaping loses nothing: every chunk, backslashes included, is read back unchanged. */
  lemma {:induction false} UnescapeEscape(c: string)
    ensures Unescape(Escape(c)) == c
  {
    if c != [] {
      UnescapeEscape(c[1..]);
      var tail := Escape(c[1..]);
      if c[0] == '"' {
        assert Escape(c) == ['\\', '"'] + tail;
        assert Escape(c)[2..] == tail;
      } else {
        assert Escape(c) == [c[0]] + tail;
        assert Escape(c)[1..] == tail;
      }
    }
  }

  /** `f'"{chunk}"'` applied to each escaped chunk. */
  function QuoteAll(chunks: seq<string>): (q: seq<string>)
    ensures |q| == |chunks|
  {
    if chunks == [] then [] else ["\"" + Escape(chunks[0]) + "\""] + QuoteAll(chunks[1..])
  }

  /** The value `prompt_auto_and` returns for its chunks. */
  function Render(chunks: seq<string>): (r: string)
    ensures |chunks| == 0 ==> r == ""
    ensures |chunks| == 1 ==> r == chunks[0]
    ensures |chunks| >= 2 ==> |r| >= 9 && r[..2] == "(\"" && r[|r| - 7..] == ").and()"
  {
    if |chunks| < 2 then
      if chunks == [] then "" else chunks[0]
    else
      var body := Join(",", QuoteAll(chunks));
      assert QuoteAll(chunks)[0] == "\"" + Escape(chunks[0]) + "\"";
      JoinFirst(",", QuoteAll(chunks));
      "(" + body + ").and()"
  }

  /** A join of two or more items starts with its first item and a separator. */
  lemma JoinFirst(sep: string, xs: seq<string>)
    requires |xs| >= 2
    ensures Join(sep, xs) == xs[0] + sep + Join(sep, xs[1..])
  {
  }

  /**
   * Reads a quoted body whose opening '"' is already consumed: up to the
   * first '"' that is not preceded by a backslash. Gives the unescaped body
   * and the text after the closing '"'.
   */
  function ReadQuoted(t: string): (r: Option<(string, string)>)
    ensures r.Some? ==> |r.value.1| < |t|
  {
    if t == [] then None
    else if |t| >= 2 && t[0] == '\\' && t[1] == '"' then
      match ReadQuoted(t[2..])
      case Some((body, rest)) => Some((['"'] + body, rest))
      case None => None
    else if t[0] == '"' then Some(([], t[1..]))
    else
      match ReadQuoted(t[1..])
      case Some((body, rest)) => Some(([t[0]] + body, rest))
      case None => None
  }

  /** Reads `"b1","b2",...,"bn").and()` (the text after the opening parenthesis). */
  function ParseItems(t: string): Option<seq<string>>
    decreases |t|
  {
    if t == [] || t[0] != '"' then None
    else
      match ReadQuoted(t[1..])
      case None => None
      case Some((body, rest)) =>
        if rest == ").and()" then Some([body])
        else if rest != [] && rest[0] == ',' then
          match ParseItems(rest[1..])
          case Some(items) => Some([body] + items)
          case None => None
        else None
  }

  /** Reads a combination expression `("b1",...,"bn").and()` back into its chunks. */
  function ParseAnd(t: string): Option<seq<string>> {
    if t != [] && t[0] == '(' then ParseItems(t[1..]) else None
  }

  /** A chunk that does not end in a backslash is read back from its escaped form. */
  lemma {:induction false} ReadEscaped(c: string, rest: string)
    requires c == [] || c[|c| - 1] != '\\'
    ensures ReadQuoted(Escape(c) + "\"" + rest) == Some((c, rest))
  {
    var t := Escape(c) + "\"" + rest;
    if c != [] {
      var tail := c[1..];
      assert tail == [] || tail[|tail| - 1] != '\\';
      ReadEscaped(tail, rest);
      var u := Escape(tail) + "\"" + rest;
      if c[0] == '"' {
        assert t == ['\\', '"'] + u;
        assert t[2..] == u;
      } else {
        assert t == [c[0]] + u;
        assert t[1..] == u;
        assert c[0] == '\\' ==> tail != [] && Escape(tail) != [] && u[0] != '"';
      }
      assert c == [c[0]] + tail;
    }
  }

  /** An item list whose first quoted item reads as `c`, followed by `rest`. */
  lemma ParseHead(t: string, c: string, rest: string)
    requires t != [] && t[0] == '"' && ReadQuoted(t[1..]) == Some((c, rest))
    ensures ParseItems(t) ==
      if rest == ").and()" then Some([c])
      else if rest != [] && rest[0] == ',' then
        match ParseItems(rest[1..])
        case Some(items) => Some([c] + items)
        case None => None
      else None
  {
  }

  /** A quoted escaped chunk at the head of a text is read back as the chunk. */
  lemma QuotedItem(c: string, rest: string, t: string)
    requires c == [] || c[|c| - 1] != '\\'
    requires t == "\"" + Escape(c) + "\"" + rest
    ensures t != [] && t[0] == '"' && ReadQuoted(t[1..]) == Some((c, rest))
  {
    DropOpeningQuote(Escape(c), rest);
    ReadEscaped(c, rest);
  }

  /** Dropping the opening '"' of a quoted item leaves its body, the closing '"' and what follows. */
  lemma DropOpeningQuote(e: string, rest: string)
    ensures ("\"" + e + "\"" + rest)[1..] == e + "\"" + rest
  {
  }

  lemma {:induction false} ParseQuoted(chunks: seq<string>)
    requires chunks != []
    requires forall k :: 0 <= k < |chunks| ==> chunks[k] == [] || chunks[k][|chunks[k]| - 1] != '\\'
    ensures ParseItems(Join(",", QuoteAll(chunks)) + ").and()") == Some(chunks)
  {
    var q := QuoteAll(chunks);
    var c := chunks[0];
    assert q[0] == "\"" + Escape(c) + "\"";
    if |chunks| == 1 {
      var t := Join(",", q) + ").and()";
      QuotedItem(c, ").and()", t);
      ParseHead(t, c, ").and()");
      assert chunks == [c];
    } else {
      var more := Join(",", QuoteAll(chunks[1..])) + ").and()";
      assert Join(",", q) + ").and()" == "\"" + Escape(c) + "\"" + ("," + more) by {
        JoinFirst(",", q);
        assert q[1..] == QuoteAll(chunks[1..]);
      }
      assert ParseItems(more) == Some(chunks[1..]) by {
        ParseQuoted(chunks[1..]);
      }
      var t := Join(",", q) + ").and()";
      QuotedItem(c, "," + more, t);
      ParseHead(t, c, "," + more);
      assert ("," + more)[1..] == more;
      assert chunks == [c] + chunks[1..];
    }
  }

  /**
   * Two or more chunks render to an expression from which the chunks are
   * read back exactly, provided no chunk ends in a backslash.
   */
  lemma RenderRoundTrip(chunks: seq<string>)
    requires |chunks| >= 2
    requires forall k :: 0 <= k < |chunks| ==> chunks[k] == [] || chunks[k][|chunks[k]| - 1] != '\\'
    ensures ParseAnd(Render(chunks)) == Some(chunks)
  {
    ParseQuoted(chunks);
    var r := Render(chunks);
    assert r[1..] == Join(",", QuoteAll(chunks)) + ").and()";
  }

  /** Escaping leaves a chunk without '"' unchanged. */
  lemma {:induction false} EscapeWithoutQuotes(c: string)
    requires '"' !in c
    ensures Escape(c) == c
  {
    if c != [] {
      EscapeWithoutQuotes(c[1..]);
      assert c == [c[0]] + c[1..];
    }
  }

  /**
   * A chunk ending in a backslash is not read back: its backslash and the
   * closing quote read as an escaped quote, and the expression falls apart.
   */
  lemma TrailingBackslashMisreads()
    ensures ParseAnd(Render(["a\\", "b"])) == None
  {
    var t1 := "a\\\",\"b\").and()";
    RenderTrailingBackslash();
    ReadTrailingBackslash();
    var t := "\"" + t1;
    assert ("(" + t)[1..] == t && t[1..] == t1;
    assert ParseItems(t) == None by {
      assert t != [] && t[0] == '"';
      var rest := "b\").and()";
      assert rest != ").and()" && rest[0] != ',';
    }
  }

  lemma QuoteTrailingBackslash()
    ensures QuoteAll(["a\\", "b"]) == ["\"a\\\"", "\"b\""]
  {
    var chunks := ["a\\", "b"];
    var tail := chunks[1..];
    assert QuoteAll(tail) == ["\"b\""] by {
      EscapeWithoutQuotes("b");
      assert tail == ["b"] && tail[1..] == [];
      assert "\"" + "b" + "\"" == "\"b\"";
    }
    EscapeWithoutQuotes("a\\");
    assert "\"" + "a\\" + "\"" == "\"a\\\"";
  }

  lemma RenderTrailingBackslash()
    ensures Render(["a\\", "b"]) == "(\"a\\\",\"b\").and()"
  {
    var q := ["\"a\\\"", "\"b\""];
    QuoteTrailingBackslash();
    assert Join(",", q) == "\"a\\\",\"b\"" by {
      JoinFirst(",", q);
      assert q[1..] == ["\"b\""];
    }
  }

  lemma ReadTrailingBackslash()
    ensures ReadQuoted("a\\\",\"b\").and()") == Some(("a\",", "b\").and()"))
  {
    var t4 := "\"b\").and()";
    var t3 := ",\"b\").and()";
    var t2 := "\\\",\"b\").and()";
    var t1 := "a\\\",\"b\").and()";
    assert ReadQuoted(t4) == Some(("", "b\").and()"));
    assert ReadQuoted(t3) == Some((",", "b\").and()")) by {
      assert t3[0] == ',' && t3[1..] == t4;
      assert [','] + "" == ",";
    }
    assert ReadQuoted(t2) == Some(("\",", "b\").and()")) by {
      assert t2[0] == '\\' && t2[1] == '"' && t2[2..] == t3;
      assert ['"'] + "," == "\",";
    }
    assert t1[0] == 'a' && t1[1..] == t2;
    assert ['a'] + "\"," == "a\",";
  }
}
