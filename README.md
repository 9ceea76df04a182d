# docformatter, modelled in Dafny

docformatter rewrites the docstrings of a Python source file. A
docstring with a description is rewritten into the PEP 257 layout: a
one-line summary ending in a period, a blank line, the description
re-indented, a blank line, and the closing `"""` on its own line at the
docstring's indentation. A docstring without a description is only
stripped and put between `"""` delimiters, with no period added and its
line breaks kept. A docstring whose contents are empty is removed. Every
other token is reproduced from its text, with the spaces between tokens
rebuilt from the token positions.

This project models the whole transform of `docformatter.py` except its
command-line driver. It has four modules:

- `Wrappers` (`wrappers.dfy`): `Option` and `Result`.
- `Strings` (`strings.dfy`): the Python `str` operations the code uses.
  These are `strip`, `lstrip`, `rstrip`, `startswith`, `endswith`,
  `split(t, 1)`, `rsplit(t, 1)`, `split('\n')` and `'\n'.join`. The
  whitespace set is fixed to space, tab, `\n`, `\r`, `\v` and `\f`. It
  serves both `str.strip()` and the regular-expression class `\s`.
- `Docstring` (`docstring.dfy`): the pure functions.
  - `starts_with_triple` is `StartsWithTriple`.
  - `strip_docstring` is `StripDocstring`.
  - `split_summary_and_description` is `SplitSummaryAndDescription`.
  - `normalize_summary` is `NormalizeSummary`.
  - `indent_non_indented` is `IndentNonIndented`.
  - `format_docstring` is `FormatDocstring`.
  - The two exceptions `strip_docstring` can raise become the error
    values of a `Result`. `UnclosedSingleQuotes` is the failed `assert`
    on a `'''`-opened literal. `MissingDelimiter` is the `IndexError`
    that `split(triple, 1)[1]` raises when the delimiter is absent.
- `Reassembler` (`reassembler.dfy`): `format_code`.
  - `FormatTokens` is a method with the loop of the source. It keeps the
    output so far, the last row and column, and the previous token's
    text and type. `FormatToken` is the choice the loop makes for one
    token. `FormatCode` runs the loop over all the tokens.
  - The loop is proved equal to `Output`, a stateless specification.
  - `Output` is built from per-token gaps (`Gaps`) and per-token pieces
    (`Pieces`, the formatted or raw text). The properties of the run are
    proved about this assembly.
  - The lexer is not modelled. The method takes the token sequence,
    with each token's type, text, start and end.

Two regular-expression uses are written out as string functions.
- `re.split('\.\s', contents, maxsplit=1)` cuts at the leftmost period
  that is followed by any whitespace character, a line break included.
  This is `FindSentenceEnd`.
- `re.sub('\s*\n\s*', ' ', s)` replaces every maximal run of whitespace
  that contains a line break by one space. This is `CollapseFrom`, a
  left-to-right scan.

Points where the code's behaviour is easy to misread:
- `starts_with_triple` accepts `"""` or FOUR single quotes `''''`, as
  written at docformatter.py:48. It does not accept three, although its
  docstring at docformatter.py:46 speaks of triple single quotes. So a
  `'''`-quoted docstring is formatted only when its text opens with four
  quotes. `StartsWithTriple` keeps this.
- The quote-style check covers only literals that open with `'''`. Their
  right-stripped text must end with `'''`. A `"""`-opened literal is
  never checked. It is cut at the first `"""` and at the last `"""`
  after it, or at the end when there is none.
- A `"""`-opened docstring never fails. A docstring that
  `starts_with_triple` accepts can fail only on a four-quote opening
  without a `'''` closing (`StripDocstringOfTriple`,
  `OnlyUnclosedQuotesFail`).
- The gap before a token is always made of spaces, however the source
  separated the tokens.
- A docstring whose contents are empty, such as `""""""`, is replaced by
  nothing at all (docformatter.py:55-56), delimiters included.
  `FormatDocstring` states this.

## Model

| member | source | states |
|---|---|---|
| Strings.LStrip | docformatter.py:99 | `lstrip` drops a leading part made only of whitespace, and what is left does not start with whitespace |
| Strings.RStrip | docformatter.py:101 | `rstrip` drops a trailing part made only of whitespace, and what is left does not end with whitespace |
| Strings.Strip | docformatter.py:47 | the result of `strip` neither starts nor ends with whitespace |
| Strings.StripPadded | docformatter.py:103 | `strip` of whitespace, then a stripped text, then whitespace is exactly that text |
| Strings.Find | docformatter.py:103 | `split(t, 1)` cuts at the first occurrence of `t`: `t` occurs there and nowhere before, and there is no cut when `t` occurs nowhere |
| Strings.RFind | docformatter.py:103 | `rsplit(t, 1)` cuts at the last occurrence of `t`: `t` occurs there and nowhere after |
| Strings.SplitThenJoin | docformatter.py:85-87 | the pieces of `split('\n')` contain no line break, and joining them with `'\n'` gives the text back |
| Strings.JoinThenSplit | docformatter.py:68-69 | joining line-break-free lines with `'\n'` and splitting the result gives the lines back |
| Strings.SplitConcat | docformatter.py:60-70 | splitting at a separator splits the text on either side of it independently |
| Docstring.StartsWithTriple | docformatter.py:45-48 | the test on the left-stripped text; no contract of its own, `StartsWithTripleOfStrip` ties it to the source's test on the stripped text |
| Docstring.StartsWithTripleOfStrip | docformatter.py:45-48 | the test on the text stripped at both ends, `"""` or `''''` at its start, gives the same answer as the test on the text with only its leading whitespace removed: trailing whitespace plays no part |
| Docstring.StripDocstring | docformatter.py:96-103 | fails with `UnclosedSingleQuotes` exactly when the text opens with `'''` and its right-stripped text does not end with `'''`; fails with `MissingDelimiter` exactly when it does not open with `'''` and contains no `"""`; otherwise the contents have no surrounding whitespace and are no longer than the text |
| Docstring.OpeningDelimiter | docformatter.py:98-100 | the delimiter is the triple quote the left-stripped text opens with, `'''` or `"""` |
| Docstring.CutAt | docformatter.py:103 | the cut at a delimiter fails with `MissingDelimiter` exactly when the delimiter occurs nowhere in the text, never fails otherwise, and gives contents with no surrounding whitespace and no longer than the text |
| Docstring.StripDocstringCuts | docformatter.py:103 | the contents are the text after the first delimiter, cut at the last delimiter after it, then stripped |
| Docstring.StripDocstringCutsAtEnd | docformatter.py:103 | with no delimiter after the first one, the contents are everything after the first delimiter, stripped |
| Docstring.StripDocstringOfWrapped | docformatter.py:96-103 | for whitespace, a delimiter, any text, the same delimiter and whitespace, the contents are that text stripped |
| Docstring.StripDocstringRoundTrip | docformatter.py:72 | a stripped text written between `"""` delimiters is extracted back unchanged |
| Docstring.StripDocstringOfTriple | docformatter.py:29-32 | a literal that `starts_with_triple` accepts fails exactly when it opens with `''''` and does not close with `'''`, and never with `MissingDelimiter` |
| Docstring.FindSentenceEnd | docformatter.py:89 | the cut is a period followed by whitespace, with none before it; there is no cut when no period is followed by whitespace |
| Docstring.FirstSentenceEnd | docformatter.py:89 | in text without a sentence end, followed by a period and a whitespace character, the cut is at that period |
| Docstring.SplitSummaryAndDescription | docformatter.py:83-93 | summary and description together hold the same non-whitespace characters as the contents, in the same order |
| Docstring.BlankSecondLine | docformatter.py:85-87 | with more than one line, the contents are line 1, a line break, line 2 and, when there are more lines, a line break and the rest joined |
| Docstring.SplitAtBlankLine | docformatter.py:85-87 | with a blank second line, the summary is exactly the first line and the description exactly the lines after the blank one |
| Docstring.SplitAtTrailingBlankLine | docformatter.py:85-87 | a first line followed only by a blank line gives that line as summary and no description |
| Docstring.SplitAtSentenceEnd | docformatter.py:88-91 | without a blank second line, the summary is the stripped text before the first period-plus-whitespace with a period appended, and the description is the stripped text after it |
| Docstring.SplitWithoutSentenceEnd | docformatter.py:92-93 | with neither a blank second line nor a period followed by whitespace, the summary is the stripped contents and the description is empty |
| Docstring.DescriptionEndsInText | docformatter.py:83-93 | the description of stripped contents is empty or ends in a non-whitespace character |
| Docstring.CollapseFrom | docformatter.py:109 | the result has no line break |
| Docstring.CollapseKeepsEnds | docformatter.py:109 | the substitution keeps the first and the last character of the text when they are not whitespace |
| Docstring.CollapseKeepsNonWhitespace | docformatter.py:109 | the substitution keeps every non-whitespace character, in order |
| Docstring.CollapseWithoutNewline | docformatter.py:109 | text without a line break is left unchanged |
| Docstring.CollapseAroundRun | docformatter.py:109 | a whitespace run between text, or at either end, becomes one space when it holds a line break and is kept otherwise, and the text on either side is collapsed on its own |
| Docstring.CollapseJoin | docformatter.py:109 | two line-break-free stripped lines around a run holding a line break become the two lines joined by one space |
| Docstring.NormalizeSummary | docformatter.py:106-114 | the summary is one line with no surrounding whitespace and ends with a period; its non-whitespace characters are the input's, with a period added only when the input's did not already end in one |
| Docstring.NormalizeSummaryFixedPoint | docformatter.py:106-114 | a summary is returned unchanged exactly when it is one stripped line ending in a period |
| Docstring.NormalizeSummaryIdempotent | docformatter.py:106-114 | normalising twice equals normalising once |
| Docstring.NormalizeSummaryJoinsLines | docformatter.py:106-114 | a summary of two stripped lines with whitespace holding a line break between them becomes the two lines joined by one space, with a period added when the second line does not end in one |
| Docstring.IndentNonIndented | docformatter.py:75-80 | the source's test, computed on the first character; no contract of its own, `IndentsWhatLStripKeeps` states it as `line.lstrip() == line` and `BodyLines` gives the body's lines |
| Docstring.IndentsWhatLStripKeeps | docformatter.py:75-80 | a line that `lstrip()` leaves unchanged gets the indentation in front, and any other line is returned as it is |
| Docstring.LStripUnchangedIffUnindented | docformatter.py:77 | the test `line.lstrip() == line` holds exactly when the line is empty or starts with non-whitespace |
| Docstring.ReindentLines | docformatter.py:68-69 | the list comprehension gives one body line per description line |
| Docstring.ReindentLinesAt | docformatter.py:68-69 | body line i is description line i, indented when it has no indentation, then right-stripped |
| Docstring.ReindentLineIdempotent | docformatter.py:68 | for an indentation made of whitespace, re-indenting a re-indented line changes nothing |
| Docstring.FormatBody | docformatter.py:68-69 | the joined list comprehension; no contract of its own, `BodyLines` and `BodySplitsIntoReindentedLines` give its lines |
| Docstring.BodyLines | docformatter.py:68-69 | for an indentation without line breaks, the body has exactly the description's lines, each re-indented and none ending in whitespace |
| Docstring.BodySplitsIntoReindentedLines | docformatter.py:68-69 | splitting the body at line breaks gives exactly the re-indented description lines |
| Docstring.FormatBodyIdempotent | docformatter.py:68-69 | laying out an already laid-out body gives it back |
| Docstring.FormatBodyEndsInText | docformatter.py:68-69 | a description ending in non-whitespace gives a body ending in the same character |
| Docstring.Wrap | docformatter.py:72 | the contents between `"""` delimiters: six characters longer, starting and ending with `"""` |
| Docstring.FormatDocstring | docformatter.py:51-72 | fails exactly when stripping fails, with the same error; the result is empty exactly when the contents are empty; any other result starts and ends with `"""`; with no description, the result is the contents between `"""` delimiters |
| Docstring.FormatOneLiner | docformatter.py:71-72 | stripped, non-empty contents without a description, written between `"""` delimiters, come back unchanged |
| Docstring.FormatDocstringLines | docformatter.py:60-70 | with a description, the output's lines are the opening `"""` with the normalised summary, an empty line, the re-indented description lines, an empty line, and the indentation with the closing `"""` |
| Docstring.Layout | docformatter.py:61-66 | the template with a description; no contract of its own, `LayoutSplits` gives its lines |
| Docstring.LayoutSplits | docformatter.py:61-66 | for a summary and an indentation without line breaks, the laid-out docstring's lines are the opening `"""` with the summary, an empty line, the body's lines, an empty line, and the indentation with the closing `"""` |
| Docstring.LayoutLines | docformatter.py:61-66 | the two blank-line separators of the template give exactly two empty lines between the three parts |
| Docstring.FormatDocstringIdempotent | docformatter.py:51-72 | for an indentation of whitespace without line breaks, formatting a non-empty formatted docstring gives it back |
| Docstring.LaidOutIdempotent | docformatter.py:60-72 | a summary and a description ending in text, once laid out, are laid out again to the same docstring |
| Docstring.BodyKept | docformatter.py:68-69 | a description ending in text gives a body that ends in text and that laying out again keeps |
| Docstring.FormattedRoundTrip | docformatter.py:51-72 | a laid-out docstring whose summary is normal and whose body is laid out is reproduced |
| Docstring.LaidOutStrips | docformatter.py:96-103 | the contents of a laid-out docstring are its summary, a blank line and its body |
| Docstring.LaidOutSplits | docformatter.py:85-87 | a summary line, a blank line and a body split back into that summary and that body |
| Reassembler.Spaces | docformatter.py:27 | `' ' * n` is n characters, all spaces |
| Reassembler.Gap | docformatter.py:24-27 | the cursor column goes back to 0 on a later row; the gap is then exactly start column minus cursor column spaces when positive, and empty otherwise |
| Reassembler.FormatCode | docformatter.py:10-42 | returns exactly the assembled output of all tokens, or the first formatting error |
| Reassembler.FormatTokens | docformatter.py:18-40 | the loop, with its last row and column and previous text and type, returns the given gaps and pieces assembled: their concatenation, or the error of the first piece that fails |
| Reassembler.Emit | docformatter.py:29-34 | what a token contributes after its gap; no contract of its own, `EmitOutcome` states it |
| Reassembler.EmitOutcome | docformatter.py:29-34 | a token that is not a docstring contributes its text; a token fails exactly when it is a docstring that opens with `''''` and does not end with `'''`, and then with `UnclosedSingleQuotes` |
| Reassembler.FormatToken | docformatter.py:29-34 | the loop's choice for one token, from the previous token's text and type, is exactly that token's piece |
| Reassembler.PieceOfDocstring | docformatter.py:29-32 | a STRING token that `starts_with_triple` accepts, right after an INDENT token, contributes `format_docstring` of the INDENT text and its own text |
| Reassembler.PieceOfOther | docformatter.py:33-34 | every other token contributes its text verbatim |
| Reassembler.EmitFailsOnlyOnDocstring | docformatter.py:29-34 | only a docstring token can fail |
| Reassembler.ErrorPersists | docformatter.py:32 | once a token fails, the run fails with that error whatever follows |
| Reassembler.OutputGrows | docformatter.py:27-34 | the output only grows: the output of the first n tokens is a prefix of the output of more tokens |
| Reassembler.OutputFails | docformatter.py:32 | the run fails exactly when some token fails |
| Reassembler.FirstFailure | docformatter.py:32 | a failed run carries the error of the first token that fails |
| Reassembler.OnlyUnclosedQuotesFail | docformatter.py:29-32 | a failed run fails with `UnclosedSingleQuotes`, on a docstring that opens with `''''` and does not end with `'''` |
| Reassembler.ClosedDocstringsSucceed | docformatter.py:29-32 | when every docstring that opens with `''''` ends with `'''`, the run succeeds |
| Reassembler.AssembleWithoutFailures | docformatter.py:24-34 | with no failures, the output is each gap followed by its piece's text, one after the other |
| Reassembler.NoDocstringsSpliced | docformatter.py:18-40 | a stream without docstrings, whatever its positions, gives each token's gap of spaces followed by its text, one token after the other |
| Reassembler.NoDocstringsVerbatim | docformatter.py:18-40 | a stream without docstrings, each token starting where the one before ended or at column 0 of a later row, gives the tokens' texts one after the other |
| Reassembler.FormattedDocstringKept | docformatter.py:29-32 | for an INDENT text of whitespace without line breaks, a docstring whose text is replaced by its formatted text is formatted to that same text |
| Reassembler.OpensWithTriple | docformatter.py:45-48 | a formatted docstring, which starts with `"""`, is again accepted by `starts_with_triple` |

## Left out

- `main` (docformatter.py:117-148) is left out: argument parsing, reading and writing files, the `.backup` copy and the `difflib` diff are I/O.
- The lexer is left out: `tokenize.generate_tokens` over `io.StringIO` (docformatter.py:12, 18) is library code. `FormatCode` takes its tokens as input. Only STRING and INDENT are told apart; every other token type is `Other`.
- The lexer's failures are left out: a tokenization error cannot arise in the model.
- The `re` engine is left out: only the two patterns the code uses are modelled, as the explicit string functions `FindSentenceEnd` and `CollapseFrom`.
- Unicode whitespace is left out: `str.strip` and `\s` accept more characters in Python than the six modelled here.
- Idempotence of `format_code` on whole sources is not stated: it depends on how the lexer tokenizes the formatted text, and the lexer is not part of this model. `FormattedDocstringKept` states it per docstring token.
- FormatDocstringIdempotent: requires a non-empty result and an indentation of whitespace without line breaks. An empty result is not stable: formatting `''` again fails with `MissingDelimiter`. An INDENT token's text has that form.
- FormattedDocstringKept: requires the same indentation shape, for the same reason.
- Python assertions are taken to be on. Under `python -O` the `assert` at docformatter.py:101 is skipped, so no `UnclosedSingleQuotes` error arises and such a literal is cut at `'''` instead; the model does not cover that mode.
- NoDocstringsVerbatim: requires each token to start where the one before ended, or at column 0 of a later row. Under that condition the rebuilt gaps are empty. Gaps of other whitespace are rebuilt as spaces only. `NoDocstringsSpliced` states the output for every stream without docstrings.
