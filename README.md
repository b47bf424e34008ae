# prompt-tools: the prompt chunker and the negative-prompt splitter in Dafny

This project models two string algorithms of the prompt-tools nodes and
proves properties of them.

The first is `prompt_auto_and` (prompt_tools.py lines 51-102). It turns one
long prompt into a combination of shorter prompts in three steps:

- **Tokenizing.** The prompt is split into tokens by an ordered regular
  expression. `Tokenizer` models it as a scanner with one matcher per
  alternative, tried in the source's order.
- **Packing.** The tokens are packed greedily into chunks of at most
  `max_length` characters, using the loop's own length bookkeeping.
  `Packing.Pack` is that loop.
- **Rendering.** The chunks are rendered as `("c1","c2",...).and()`, with
  each `"` escaped. Zero chunks give `""` and one chunk is returned as it is.
  `Rendering.Render` models this step.

`AutoAnd.PromptAutoAnd` composes the three steps.

The second is the negative-prompt splitter
(`PromptSplitNegInvocation.invoke`, prompt_tools_311.py lines 95-119). It
makes one pass over the prompt with a bracket depth and a backslash-escape
flag:

- text inside unescaped `[...]` goes to the negative prompt;
- everything else goes to the positive prompt.

`SplitNeg.SplitNegative` is that loop. It is proved equal to a
one-character-at-a-time specification, `SplitNeg.SplitAt`. The two join
nodes of the same file are in `Joins`.

Modules:

- `Wrappers`: `Option`; `OrEmpty` is Python's `text or ""`.
- `Strings`: `sep.join(xs)` and its algebra.
- `Tokenizer`: the regular-expression alternation of prompt_tools.py lines 53-72.
- `Samples`: a worked prompt tokenized by the model.
- `Packing`: the greedy chunk loop and its specification `Greedy`.
- `Rendering`: the result string, and an independent reader `ParseAnd` of the `.and()` expression as this renderer writes it: quoted items separated by commas, with `\"` as the only escape. It is not the host's full weighting grammar, so `TrailingBackslashMisreads` is a fact about this reader.
- `AutoAnd`: `prompt_auto_and` end to end.
- `SplitNeg`: the bracket/escape splitter.
- `Joins`: the two- and three-way prompt joins.

Three behaviours of the code are kept on purpose:

- **Line 88 undercounts the chunk length.** It adds a separator only when
  the chunk already holds two or more tokens, so the running length
  undercounts the chunk by one space. A chunk of three or more tokens can
  therefore render one character over `max_length`
  (`Packing.ChunkLengthBound`, `Packing.ThreeTokenChunkOverflows`).
- **The plain-group alternative never wins.** The weighted-group pattern
  matches wherever the plain-group pattern on line 56 would, so the plain
  group is tried but never taken (`Tokenizer.MatchAt`).
- **An unescaped `]` adds nothing.** The splitter's doc-comment (line 87)
  says that each bracket is replaced with a space. In the code only `[` adds
  a space, to the negative prompt. An unescaped `]` only rebinds the local
  `char` (line 107) and adds nothing to either prompt. The model follows the
  code (`SplitNeg.CloseStep`, `SplitNeg.LengthAccounting`).

## Model

| member | source | states |
|---|---|---|
| Strings.JoinAppend | prompt_tools.py:83 | joining two non-empty lists is joining each, with one separator between them |
| Strings.JoinLength | prompt_tools.py:83 | a join of n items is their total length plus n-1 separators |
| Tokenizer.NumeralEndUnique | prompt_tools.py:54 | the greedy `\d*\.?\d*` after a group ends at exactly one position |
| Tokenizer.MatchEnclosed | prompt_tools.py:53-56 | the quoted and plain-parenthesis alternatives: matches iff the opening character has a later closing one; the match ends just after the first such closing character, with no closing character in between |
| Tokenizer.MatchSignedGroup | prompt_tools.py:55 | matches iff a plain group is followed by at least one sign; it takes the whole run of signs |
| Tokenizer.MatchWeightedGroup | prompt_tools.py:54 | matches exactly where a plain group does, and ends where the longest numeral after the ')' ends |
| Tokenizer.MatchWord | prompt_tools.py:57 | matches iff the character is not whitespace; it takes the whole non-whitespace run |
| Tokenizer.MatchAt | prompt_tools.py:60-70 | some alternative matches iff the character is not whitespace; every match is non-empty, and the plain-group alternative never wins |
| Tokenizer.GroupPriority | prompt_tools.py:54-55 | a closed group takes its whole sign run if a sign follows the ')', otherwise its greedy numeral |
| Tokenizer.QuotedPriority | prompt_tools.py:53 | a closed quoted phrase is one token, whatever it contains |
| Tokenizer.WordPriority | prompt_tools.py:57 | a non-whitespace run starting with neither '(' nor '"' is one token |
| Tokenizer.UnclosedIsWord | prompt_tools.py:53-57 | an unclosed '(' or '"' falls through to the word rule |
| Tokenizer.ScanTokensNonEmpty | prompt_tools.py:72 | every token found is non-empty |
| Tokenizer.ScanGapsBlank | prompt_tools.py:72 | the text skipped between tokens is whitespace only |
| Tokenizer.ScanWeave | prompt_tools.py:72 | the tokens, interleaved with the skipped gaps, rebuild the scanned text exactly |
| Tokenizer.TokenizeCovers | prompt_tools.py:72 | tokens are non-empty, in order, and separated only by whitespace: the prompt is the tokens woven with blank gaps |
| Tokenizer.TokenizeEmptyIffBlank | prompt_tools.py:72 | there are no tokens iff the prompt is empty or whitespace only |
| Tokenizer.BlankScansNothing | prompt_tools.py:72 | whitespace-only text yields no tokens |
| Samples.TokenizeSample | prompt_tools.py:53-72 | `(a)+ (b)1.5x "c d" e(` tokenizes as `(a)+`, `(b)1.5`, `x`, `"c d"`, `e(` |
| Packing.CloseGroup | prompt_tools.py:83 | closing a chunk appends its tokens to the packed tokens and its space-join to the chunks |
| Packing.FillingClose | prompt_tools.py:91-92 | closing a greedily filled open chunk gives a greedy packing of all tokens so far |
| Packing.FillingSplit | prompt_tools.py:82-85 | a refused token closes the chunk and opens the next, and the packing stays greedy |
| Packing.FillingExtend | prompt_tools.py:86-88 | an admitted token joins the chunk; the running length grows by its length, plus one only when the chunk already held two or more tokens |
| Packing.PackSplit | prompt_tools.py:82-85 | the loop state after a refused token is again a greedy packing of the tokens read |
| Packing.PackExtend | prompt_tools.py:86-88 | the loop state after an admitted token is again a greedy packing of the tokens read |
| Packing.PackFinish | prompt_tools.py:90-92 | after the last token, closing a non-empty open chunk gives a greedy packing of all tokens |
| Packing.Pack | prompt_tools.py:74-92 | the chunks are the space-joins of a greedy packing of the tokens |
| Packing.ChunkAt | prompt_tools.py:83 | each chunk is its group of tokens joined with single spaces |
| Packing.FlattenFront | prompt_tools.py:78-92 | the packed tokens start with the first group's tokens |
| Packing.GreedyRest | prompt_tools.py:78-92 | the first group is a prefix of the tokens, and the other groups greedily pack the rest |
| Packing.AdmittedInGroup | prompt_tools.py:82 | every token after the first in a chunk passed the line-82 test against the chunk before it |
| Packing.RefusedAfterGroup | prompt_tools.py:82 | the token after a closed chunk failed the line-82 test against that chunk |
| Packing.FirstGroupNotShorter | prompt_tools.py:82-88 | no greedy packing closes its first chunk earlier than another greedy packing does |
| Packing.GreedyUnique | prompt_tools.py:78-92 | a token list has exactly one greedy packing, so the loop's result is determined |
| Packing.RejoinGroups | prompt_tools.py:83 | non-empty groups, joined chunk by chunk and then with spaces, are their tokens joined with spaces |
| Packing.ChunksRejoin | prompt_tools.py:78-92 | the chunks joined with spaces are the tokens joined with spaces, and there is a chunk iff there is a token |
| Packing.ChunksNonEmpty | prompt_tools.py:78-92 | with non-empty tokens, every chunk is non-empty |
| Packing.GroupTokensAreWords | prompt_tools.py:78-92 | every token of every chunk is one of the packed tokens |
| Packing.WellFilledShortTokens | prompt_tools.py:82 | in a chunk of two or more tokens, every token is shorter than the limit |
| Packing.OversizedTokenAlone | prompt_tools.py:82-85 | a token at least as long as the limit is a chunk on its own, never merged or split |
| Packing.ChunkLengthBound | prompt_tools.py:82-88 | a chunk of two tokens renders within the limit; a chunk of more renders at most one character over |
| Packing.ThreeTokenChunkOverflows | prompt_tools.py:82-88 | with limit 4, the tokens a, b and c pack into the 5-character chunk "a b c" |
| Rendering.Escape | prompt_tools.py:99 | escaping grows a chunk by one character per '"', and never starts with a bare '"' |
| Rendering.EscapedQuotesFollowBackslash | prompt_tools.py:99 | in an escaped chunk every '"' comes right after a backslash |
| Rendering.UnescapeEscape | prompt_tools.py:99 | escaping loses nothing: dropping the backslash before each '"' gives back the chunk |
| Rendering.QuoteAll | prompt_tools.py:101 | one quoted item per chunk |
| Rendering.Render | prompt_tools.py:94-102 | no chunk gives "", one chunk gives that chunk, and more give a text `("` ... `).and()` |
| Rendering.ReadEscaped | prompt_tools.py:99-101 | a quoted escaped chunk not ending in a backslash reads back as the chunk, up to its closing quote |
| Rendering.ParseQuoted | prompt_tools.py:101-102 | the comma-joined quoted items are read back as the chunks |
| Rendering.RenderRoundTrip | prompt_tools.py:94-102 | with two or more chunks, none ending in a backslash, the expression reads back as exactly the chunks |
| Rendering.EscapeWithoutQuotes | prompt_tools.py:99 | a chunk without '"' is left unchanged by escaping |
| Rendering.TrailingBackslashMisreads | prompt_tools.py:99-102 | a chunk ending in a backslash breaks the expression for a reader that takes `\"` as an escaped quote: the chunks `a\` and `b` do not read back through ParseAnd |
| AutoAnd.PromptAutoAnd | prompt_tools.py:51-102 | the result renders the greedy packing of the prompt's tokens |
| AutoAnd.EmptyResultIffBlank | prompt_tools.py:91-96 | the result is "" iff the prompt is empty or whitespace only |
| AutoAnd.OneChunkVerbatim | prompt_tools.py:94-96 | one chunk is returned verbatim: the tokens joined by single spaces |
| AutoAnd.SeveralChunksReadBack | prompt_tools.py:94-102 | with two or more chunks, none ending in a backslash, the result reads back as the chunks, which rejoin to the tokens |
| SplitNeg.SplitNegative | prompt_tools_311.py:95-119 | the loop returns the specified positive and negative prompts; a missing prompt gives two empty ones |
| SplitNeg.EscapedIsOddRun | prompt_tools_311.py:113-117 | the escape flag is set iff the text read so far ends in an odd run of backslashes |
| SplitNeg.DepthCounts | prompt_tools_311.py:98-106 | the depth is the number of unescaped '[' minus the number of unescaped ']', and may be negative |
| SplitNeg.DoubleBackslash | prompt_tools_311.py:113-117 | an unescaped double backslash leaves the next character unescaped |
| SplitNeg.LengthAccounting | prompt_tools_311.py:102-111 | the two prompts together are as long as the input minus its unescaped ']' |
| SplitNeg.PlainPrompt | prompt_tools_311.py:101-111 | with no unescaped bracket, the positive prompt is the input and the negative prompt is empty |
| SplitNeg.OtherStep | prompt_tools_311.py:108-111 | a character that is not an unescaped bracket, an escaped '[' or ']' included, goes to the negative prompt iff the depth is positive, otherwise to the positive prompt, and the depth stays |
| SplitNeg.PlainRun | prompt_tools_311.py:108-111 | a run with no unescaped bracket (escaped brackets allowed) goes whole and in order to the negative prompt iff the depth is positive, otherwise to the positive prompt, and the depth stays |
| SplitNeg.OpenStep | prompt_tools_311.py:102-104 | an unescaped '[' adds one space to the negative prompt, nothing to the positive one, and raises the depth |
| SplitNeg.CloseStep | prompt_tools_311.py:105-107 | an unescaped ']' adds nothing to either prompt, lowers the depth and clears the flag |
| SplitNeg.NotEscapedAfter | prompt_tools_311.py:113-117 | after any character other than a backslash the flag is clear |
| SplitNeg.SectionOf | prompt_tools_311.py:101-111 | the slice form that BracketedSection uses: a prompt whose slices are `a`, '[', `b`, ']' and `c`, with no other brackets, splits into `a`+`c` and " "+`b`, with the depth back at zero |
| SplitNeg.BracketedSection | prompt_tools_311.py:101-111 | the concatenation `a + "[" + b + "]" + c`, without other brackets, splits into `a`+`c` and " "+`b`, with the depth back at zero |
| SplitNeg.UnmatchedClose | prompt_tools_311.py:105-111 | after an unmatched ']' the depth is negative, so text after a later '[' stays positive |
| SplitNeg.EscapedOpen | prompt_tools_311.py:101-117 | an escaped '[' is ordinary positive text, and its backslash is kept |
| Joins.PromptJoin | prompt_tools_311.py:144 | the result is the left input followed by the right, a missing input counting as "" |
| Joins.PromptJoinThree | prompt_tools_311.py:162 | the result is the left, middle and right inputs in order, missing ones counting as "" |
| Joins.JoinIsUnique | prompt_tools_311.py:144 | the join is the only text made of the left input followed by the right |
| Joins.JoinThreeAssociates | prompt_tools_311.py:162 | the three-way join is two two-way joins, in either grouping |
| Joins.MissingIsEmpty | prompt_tools_311.py:144 | a missing input and an empty one give the same result, and leave the other input unchanged |

## Left out

- Tokenizer.IsDigit: `\d` is taken as the ASCII digits 0-9. Python's `\d` on str also matches other Unicode decimal digits.
- Tokenizer.IsSpace: `\s` is the list of characters for which str.isspace() holds, written out as code points.
- `prompt_auto_and` does not check `max_length` itself; the node's input field requires it to be greater than 1 (prompt_tools.py:458), which the model does not impose. The model accepts any integer and keeps the same test, so a limit of zero or below puts every token in a chunk of its own.
- Rendering.RenderRoundTrip: it does not cover chunks that end in a backslash. Such chunks do not read back (Rendering.TrailingBackslashMisreads), and the source does not guard against them.
- The host plumbing is not modelled: the node registration decorators, the input and output field metadata, and the invocation context.
- The other nodes in the two files are not part of this model:
  - writing prompts to a file (file I/O);
  - the field collect/expand nodes (JSON serialisation of records with floats);
  - the CSV helpers and the random pick from a CSV list (the `csv` module and randomness);
  - prompt replace (the `re.sub` library call);
  - the strength nodes (float parsing and formatting).
