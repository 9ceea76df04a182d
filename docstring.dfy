/**
 * The pure half of docformatter: recognising a docstring literal, taking
 * out its contents, splitting them into summary and description,
 * normalising the summary and laying the docstring out again in the
 * PEP 257 shape.
 */
module Docstring {
  import opened Wrappers
  import opened Strings

  const DoubleTriple: string := "\"\"\""
  const SingleTriple: string := "'''"
  const SingleQuadruple: string := "''''"

  /** What `strip_docstring` raises. */
  datatype DocError =
    | UnclosedSingleQuotes  // its `assert` fails: opened with ''' but not closed with '''
    | MissingDelimiter      // `split(triple, 1)[1]` raises IndexError: the delimiter never occurs

  /**
   * `starts_with_triple`: after leading whitespace the literal opens with
   * three double quotes or with FOUR single quotes (the source compares
   * against `''''`). The source strips both ends first; trailing
   * whitespace plays no part (`StartsWithTripleOfStrip`).
   */
  predicate StartsWithTriple(s: string) {
    StartsWith(LStrip(s), DoubleTriple) || StartsWith(LStrip(s), SingleQuadruple)
  }

  /** Testing the fully stripped text, as the source does, gives the same answer. */
  lemma StartsWithTripleOfStrip(s: string)
    ensures StartsWithTriple(s) <==> StartsWith(Strip(s), DoubleTriple) || StartsWith(Strip(s), SingleQuadruple)
  {
    StartsWithRStrip(LStrip(s), DoubleTriple);
    StartsWithRStrip(LStrip(s), SingleQuadruple);
  }

  /** The delimiter `strip_docstring` cuts at: ''' when the text opens with it, otherwise """. */
  function Delimiter(docstring: string): string {
    if StartsWith(LStrip(docstring), SingleTriple) then SingleTriple else DoubleTriple
  }

  /**
   * `strip_docstring`: the text after the first occurrence of the
   * delimiter and before the last occurrence after that one, stripped.
   */
  function StripDocstring(docstring: string): (r: Result<string, DocError>)
    ensures r == Err(UnclosedSingleQuotes) <==>
              StartsWith(LStrip(docstring), SingleTriple) && !EndsWith(RStrip(docstring), SingleTriple)
    ensures r == Err(MissingDelimiter) <==>
              !StartsWith(LStrip(docstring), SingleTriple) && forall j :: !OccursAt(docstring, DoubleTriple, j)
    ensures r.Ok? ==> IsStripped(r.value) && |r.value| <= |docstring|
  {
    var t := Delimiter(docstring);
    if t == SingleTriple && !EndsWith(RStrip(docstring), SingleTriple) then Err(UnclosedSingleQuotes)
    else
      OpeningOccurrence(docstring);
      CutAt(docstring, t)
  }

  /** The cut once the delimiter is chosen: `MissingDelimiter` when it never occurs. */
  function CutAt(docstring: string, t: string): (r: Result<string, DocError>)
    ensures r == Err(MissingDelimiter) <==> forall j :: !OccursAt(docstring, t, j)
    ensures r != Err(UnclosedSingleQuotes)
    ensures r.Ok? ==> IsStripped(r.value) && |r.value| <= |docstring|
  {
    match Find(docstring, t)
    case None => Err(MissingDelimiter)
    case Some(i) => Ok(Strip(Between(docstring, t, i)))
  }

  /** What follows the delimiter found at `i`, up to the last occurrence of the delimiter in it, if any. */
  function Between(docstring: string, t: string, i: nat): (r: string)
    requires i + |t| <= |docstring|
    ensures |r| <= |docstring| - i - |t|
  {
    var rest := docstring[i + |t|..];
    match RFind(rest, t)
    case None => rest
    case Some(j) => rest[..j]
  }

  /** A text opening with ''' holds ''' right after its leading whitespace. */
  lemma OpeningOccurrence(docstring: string)
    ensures StartsWith(LStrip(docstring), SingleTriple) ==>
              OccursAt(docstring, SingleTriple, |docstring| - |LStrip(docstring)|)
  {
    if StartsWith(LStrip(docstring), SingleTriple) {
      OpensAfterWhitespace(docstring, SingleTriple);
    }
  }

  /** The source's `re.split('\.\s', ...)` matches at `j`: a period followed by a whitespace character. */
  predicate SentenceEndAt(s: string, j: int) {
    0 <= j && j + 1 < |s| && s[j] == '.' && IsWhitespace(s[j + 1])
  }

  function FindSentenceEndFrom(s: string, from: nat): (r: Option<nat>)
    ensures r.Some? ==> from <= r.value && SentenceEndAt(s, r.value)
    ensures r.Some? ==> forall j :: from <= j < r.value ==> !SentenceEndAt(s, j)
    ensures r.None? ==> forall j :: from <= j ==> !SentenceEndAt(s, j)
    decreases |s| - from
  {
    if from + 1 >= |s| then None
    else if SentenceEndAt(s, from) then Some(from)
    else FindSentenceEndFrom(s, from + 1)
  }

  /** Where `re.split('\.\s', s, maxsplit=1)` cuts: the leftmost match. */
  function FindSentenceEnd(s: string): (r: Option<nat>)
    ensures r.Some? ==> SentenceEndAt(s, r.value)
    ensures r.Some? ==> forall j :: 0 <= j < r.value ==> !SentenceEndAt(s, j)
    ensures r.None? ==> forall j :: !SentenceEndAt(s, j)
  {
    FindSentenceEndFrom(s, 0)
  }

  /** The first test of `split_summary_and_description`: a second line exists and is blank. */
  predicate HasBlankSecondLine(contents: string) {
    var lines := Split(contents, '\n');
    |lines| > 1 && Strip(lines[1]) == []
  }

  /**
   * `split_summary_and_description`: the first line and the lines after a
   * blank second line; failing that, the text around the first period
   * followed by whitespace; failing that, all of it and no description.
   * Only whitespace is lost, and the period the sentence split cuts off is
   * given back to the summary.
   */
  function SplitSummaryAndDescription(contents: string): (r: (string, string))
    ensures NonWhitespace(r.0 + r.1) == NonWhitespace(contents)
  {
    var lines := Split(contents, '\n');
    if |lines| > 1 && Strip(lines[1]) == [] then
      BlankLineSplitLosesWhitespaceOnly(contents);
      (lines[0], Join(lines[2..], '\n'))
    else
      SplitAtFirstSentence(contents)
  }

  /** The second and third way to split: around the first sentence end, or not at all. */
  function SplitAtFirstSentence(contents: string): (r: (string, string))
    ensures NonWhitespace(r.0 + r.1) == NonWhitespace(contents)
  {
    match FindSentenceEnd(contents)
    case Some(i) => SplitAtSentence(contents, i)
    case None =>
      StrippedAlone(contents);
      (Strip(contents), [])
  }

  lemma StrippedAlone(contents: string)
    ensures NonWhitespace(Strip(contents) + []) == NonWhitespace(contents)
  {
    NonWhitespaceOfStrip(contents);
    AppendNothing(Strip(contents));
  }

  lemma AppendNothing(s: string)
    ensures s + [] == s
  {
  }

  /** The stripped text before the sentence end `i` plus its period, and the stripped text after it. */
  function SplitAtSentence(contents: string, i: nat): (r: (string, string))
    requires SentenceEndAt(contents, i)
    ensures NonWhitespace(r.0 + r.1) == NonWhitespace(contents)
  {
    var summary, description := Strip(contents[..i]) + ".", Strip(contents[i + 2..]);
    SentenceSplitLosesWhitespaceOnly(contents, i);
    (summary, description)
  }

  lemma BlankLineSplitLosesWhitespaceOnly(contents: string)
    requires HasBlankSecondLine(contents)
    ensures var lines := Split(contents, '\n');
            NonWhitespace(lines[0] + Join(lines[2..], '\n')) == NonWhitespace(contents)
  {
    var lines := Split(contents, '\n');
    var first, blank, tail := lines[0], lines[1], Join(lines[2..], '\n');
    BlankSecondLine(contents);
    assert NonWhitespace(blank) == [] by {
      NonWhitespaceOfStrip(blank);
    }
    if |lines| == 2 {
      assert tail == [];
      SkipLastBlankLine(first, blank);
      assert first + tail == first;
    } else {
      SkipBlankLine(first, blank, tail);
    }
  }

  lemma SkipLastBlankLine(first: string, blank: string)
    requires NonWhitespace(blank) == []
    ensures NonWhitespace(first + ['\n'] + blank) == NonWhitespace(first)
  {
    NonWhitespaceOfChar('\n');
    NonWhitespaceAppend3(first, ['\n'], blank);
  }

  lemma SkipBlankLine(first: string, blank: string, tail: string)
    requires NonWhitespace(blank) == []
    ensures NonWhitespace(first + ['\n'] + blank + ['\n'] + tail) == NonWhitespace(first + tail)
  {
    var front := first + ['\n'] + blank;
    assert NonWhitespace(front) == NonWhitespace(first) by {
      SkipLastBlankLine(first, blank);
    }
    assert NonWhitespace(['\n']) == [] by {
      NonWhitespaceOfChar('\n');
    }
    assert NonWhitespace(front + ['\n'] + tail) == NonWhitespace(front) + NonWhitespace(['\n']) + NonWhitespace(tail) by {
      NonWhitespaceAppend3(front, ['\n'], tail);
    }
    NonWhitespaceAppend(first, tail);
  }

  /** How the contents are laid out around their second line. */
  lemma BlankSecondLine(contents: string)
    requires |Split(contents, '\n')| > 1
    ensures var lines := Split(contents, '\n');
            if |lines| == 2 then contents == lines[0] + ['\n'] + lines[1]
            else contents == lines[0] + ['\n'] + lines[1] + ['\n'] + Join(lines[2..], '\n')
  {
    var lines := Split(contents, '\n');
    SplitThenJoin(contents, '\n');
    assert Join(lines, '\n') == lines[0] + ['\n'] + Join(lines[1..], '\n');
    if |lines| == 2 {
      assert lines[1..] == [lines[1]];
    } else {
      assert lines[1..][1..] == lines[2..];
      assert Join(lines[1..], '\n') == lines[1] + ['\n'] + Join(lines[2..], '\n');
    }
  }

  lemma SentenceSplitLosesWhitespaceOnly(contents: string, i: nat)
    requires SentenceEndAt(contents, i)
    ensures NonWhitespace(Strip(contents[..i]) + "." + Strip(contents[i + 2..])) == NonWhitespace(contents)
  {
    var p, w, q := contents[..i], contents[i + 1], contents[i + 2..];
    assert contents == p + "." + ([w] + q);
    SentenceText(p, w, q);
    NonWhitespaceOfStrip(p);
    NonWhitespaceOfStrip(q);
    PeriodText(Strip(p), Strip(q));
  }

  /** A period and a whitespace character between two texts leave the period in the text. */
  lemma SentenceText(p: string, w: char, q: string)
    requires IsWhitespace(w)
    ensures NonWhitespace(p + "." + ([w] + q)) == NonWhitespace(p) + "." + NonWhitespace(q)
  {
    NonWhitespaceOfChar(w);
    NonWhitespaceAppend([w], q);
    PeriodText(p, [w] + q);
  }

  lemma PeriodText(p: string, q: string)
    ensures NonWhitespace(p + "." + q) == NonWhitespace(p) + "." + NonWhitespace(q)
  {
    NonWhitespaceOfChar('.');
    NonWhitespaceAppend3(p, ".", q);
  }

  /** A finished run of whitespace: one space if it held a line break, otherwise unchanged. */
  function FlushRun(run: string): string {
    if '\n' in run then " " else run
  }

  /**
   * The source's `re.sub('\s*\n\s*', ' ', s)`, scanning left to right with
   * `run` the whitespace seen since the last other character. The pattern
   * can only match from the first character of a whitespace run and then
   * takes the whole run, so every maximal run that holds a line break
   * becomes a single space and every other run stays as it is.
   */
  function CollapseFrom(s: string, run: string): (r: string)
    ensures '\n' !in r
    decreases |s|
  {
    if s == [] then FlushRun(run)
    else if IsWhitespace(s[0]) then CollapseFrom(s[1..], run + [s[0]])
    else FlushRun(run) + [s[0]] + CollapseFrom(s[1..], [])
  }

  function CollapseNewlineRuns(s: string): string {
    CollapseFrom(s, [])
  }

  /** Collapsing keeps a first and a last character that are not whitespace. */
  lemma {:induction false} CollapseKeepsEnds(s: string, run: string)
    ensures var r := CollapseFrom(s, run);
            && (run == [] && s != [] && !IsWhitespace(s[0]) ==> r != [] && r[0] == s[0])
            && (s != [] && !IsWhitespace(s[|s| - 1]) ==> r != [] && r[|r| - 1] == s[|s| - 1])
    decreases |s|
  {
    if s != [] && IsWhitespace(s[0]) {
      CollapseKeepsEnds(s[1..], run + [s[0]]);
    } else if s != [] {
      var rest := CollapseFrom(s[1..], []);
      assert CollapseFrom(s, run) == FlushRun(run) + [s[0]] + rest;
      CollapseKeepsEnds(s[1..], []);
      if |s| == 1 {
        assert rest == [];
      }
    }
  }

  /** Collapsing replaces whitespace by whitespace only. */
  lemma {:induction false} CollapseKeepsNonWhitespace(s: string, run: string)
    requires AllWhitespace(run)
    ensures NonWhitespace(CollapseFrom(s, run)) == NonWhitespace(s)
    decreases |s|
  {
    if s == [] {
      FlushedRunIsWhitespace(run);
    } else if IsWhitespace(s[0]) {
      assert NonWhitespace(s) == NonWhitespace(s[1..]);
      CollapseKeepsNonWhitespace(s[1..], run + [s[0]]);
    } else {
      CollapseKeepsNonWhitespace(s[1..], []);
      CollapseTextStep(s, run);
    }
  }

  lemma FlushedRunIsWhitespace(run: string)
    requires AllWhitespace(run)
    ensures NonWhitespace(FlushRun(run)) == []
  {
    assert AllWhitespace(FlushRun(run));
    NonWhitespaceOfWhitespace(FlushRun(run));
  }

  /** The step of `CollapseKeepsNonWhitespace` at a character that is not whitespace. */
  lemma CollapseTextStep(s: string, run: string)
    requires AllWhitespace(run) && s != [] && !IsWhitespace(s[0])
    requires NonWhitespace(CollapseFrom(s[1..], [])) == NonWhitespace(s[1..])
    ensures NonWhitespace(CollapseFrom(s, run)) == NonWhitespace(s)
  {
    var rest := CollapseFrom(s[1..], []);
    assert CollapseFrom(s, run) == FlushRun(run) + [s[0]] + rest;
    assert NonWhitespace(s) == [s[0]] + NonWhitespace(s[1..]);
    FlushedRunIsWhitespace(run);
    NonWhitespaceOfChar(s[0]);
    NonWhitespaceAppend3(FlushRun(run), [s[0]], rest);
  }

  /** Text without line breaks is left as it is. */
  lemma {:induction false} CollapseWithoutNewline(s: string, run: string)
    requires '\n' !in s && '\n' !in run
    ensures CollapseFrom(s, run) == run + s
    decreases |s|
  {
    if s != [] {
      if IsWhitespace(s[0]) {
        CollapseWithoutNewline(s[1..], run + [s[0]]);
      } else {
        CollapseWithoutNewline(s[1..], []);
      }
      assert s == [s[0]] + s[1..];
    }
  }

  /**
   * Text that ends in a character that is not whitespace, followed by more
   * text: the run restarts after that character, so the two parts are
   * collapsed apart.
   */
  lemma {:induction false} CollapseSplitsAfterText(a: string, t: string, run: string)
    requires a != [] && !IsWhitespace(a[|a| - 1])
    ensures CollapseFrom(a + t, run) == CollapseFrom(a, run) + CollapseFrom(t, [])
    decreases |a|, 1
  {
    if IsWhitespace(a[0]) {
      CollapseSplitsAtSpace(a, t, run);
    } else {
      CollapseSplitsAtText(a, t, run);
    }
  }

  /** The step of `CollapseSplitsAfterText` at a whitespace character: it joins the run. */
  lemma {:induction false} CollapseSplitsAtSpace(a: string, t: string, run: string)
    requires a != [] && IsWhitespace(a[0]) && !IsWhitespace(a[|a| - 1])
    ensures CollapseFrom(a + t, run) == CollapseFrom(a, run) + CollapseFrom(t, [])
    decreases |a|, 0
  {
    var rest := a[1..];
    assert CollapseFrom(a + t, run) == CollapseFrom(rest + t, run + [a[0]]) by {
      assert (a + t)[0] == a[0] && (a + t)[1..] == rest + t;
    }
    CollapseSplitsAfterText(rest, t, run + [a[0]]);
  }

  /** The step of `CollapseSplitsAfterText` at another character: the run is flushed before it. */
  lemma {:induction false} CollapseSplitsAtText(a: string, t: string, run: string)
    requires a != [] && !IsWhitespace(a[0]) && !IsWhitespace(a[|a| - 1])
    ensures CollapseFrom(a + t, run) == CollapseFrom(a, run) + CollapseFrom(t, [])
    decreases |a|, 0
  {
    var rest := a[1..];
    var head := FlushRun(run) + [a[0]];
    assert CollapseFrom(a + t, run) == head + CollapseFrom(rest + t, []) by {
      assert (a + t)[0] == a[0] && (a + t)[1..] == rest + t;
    }
    assert CollapseFrom(rest + t, []) == CollapseFrom(rest, []) + CollapseFrom(t, []) by {
      if rest == [] {
        assert rest + t == t;
      } else {
        CollapseSplitsAfterText(rest, t, []);
      }
    }
    assert head + (CollapseFrom(rest, []) + CollapseFrom(t, [])) ==
             head + CollapseFrom(rest, []) + CollapseFrom(t, []);
  }

  /** A run of whitespace followed by text not starting with whitespace is flushed as one run. */
  lemma {:induction false} CollapseRun(w: string, b: string, run: string)
    requires AllWhitespace(w) && (b == [] || !IsWhitespace(b[0]))
    ensures CollapseFrom(w + b, run) == FlushRun(run + w) + CollapseFrom(b, [])
    decreases |w|
  {
    if w == [] {
      assert w + b == b && run + w == run;
    } else {
      assert (w + b)[1..] == w[1..] + b;
      assert run + [w[0]] + w[1..] == run + w;
      CollapseRun(w[1..], b, run + [w[0]]);
    }
  }

  /**
   * `re.sub('\s*\n\s*', ' ', s)` around one whitespace run between text:
   * the run becomes a single space when it holds a line break and is kept
   * otherwise, and the text on either side is collapsed on its own.
   */
  lemma CollapseAroundRun(a: string, w: string, b: string)
    requires a == [] || !IsWhitespace(a[|a| - 1])
    requires AllWhitespace(w) && (b == [] || !IsWhitespace(b[0]))
    ensures CollapseNewlineRuns(a + w + b) ==
              CollapseNewlineRuns(a) + (if '\n' in w then " " else w) + CollapseNewlineRuns(b)
  {
    if a == [] {
      CollapseRunFirst(a, w, b);
    } else {
      CollapseRunAfterText(a, w, b);
    }
  }

  /** The case of `CollapseAroundRun` where the run opens the text. */
  lemma CollapseRunFirst(a: string, w: string, b: string)
    requires a == [] && AllWhitespace(w) && (b == [] || !IsWhitespace(b[0]))
    ensures CollapseNewlineRuns(a + w + b) ==
              CollapseNewlineRuns(a) + (if '\n' in w then " " else w) + CollapseNewlineRuns(b)
  {
    assert a + w + b == w + b;
    assert CollapseNewlineRuns(a) == [];
    RunThenText(w, b);
  }

  /** The case of `CollapseAroundRun` where text comes before the run. */
  lemma CollapseRunAfterText(a: string, w: string, b: string)
    requires a != [] && !IsWhitespace(a[|a| - 1])
    requires AllWhitespace(w) && (b == [] || !IsWhitespace(b[0]))
    ensures CollapseNewlineRuns(a + w + b) ==
              CollapseNewlineRuns(a) + (if '\n' in w then " " else w) + CollapseNewlineRuns(b)
  {
    var x := if '\n' in w then " " else w;
    var front, back := CollapseNewlineRuns(a), CollapseNewlineRuns(b);
    assert CollapseNewlineRuns(w + b) == x + back by {
      RunThenText(w, b);
    }
    assert CollapseNewlineRuns(a + w + b) == front + CollapseNewlineRuns(w + b) by {
      CollapseSplitsAfterText(a, w + b, []);
      assert a + w + b == a + (w + b);
    }
    assert front + (x + back) == front + x + back;
  }

  /** A leading run of whitespace, collapsed, then the text after it. */
  lemma RunThenText(w: string, b: string)
    requires AllWhitespace(w) && (b == [] || !IsWhitespace(b[0]))
    ensures CollapseFrom(w + b, []) == (if '\n' in w then " " else w) + CollapseFrom(b, [])
  {
    CollapseRun(w, b, []);
    assert [] + w == w;
  }

  /**
   * `normalize_summary`: one line, no surrounding whitespace, ending in a
   * period; the non-whitespace text is the summary's, with a period
   * added only when it did not already end in one.
   */
  function NormalizeSummary(summary: string): (r: string)
    ensures '\n' !in r && IsStripped(r) && EndsWith(r, ".")
    ensures NonWhitespace(r) ==
              if EndsWith(NonWhitespace(summary), ".") then NonWhitespace(summary)
              else NonWhitespace(summary) + "."
  {
    var c := CollapseNewlineRuns(Strip(summary));
    CollapsedSummary(summary);
    if EndsWith(c, ".") then c
    else
      PeriodAppended(c);
      c + "."
  }

  /** The stripped, collapsed summary: one stripped line with the summary's non-whitespace text. */
  lemma CollapsedSummary(summary: string)
    ensures var c := CollapseNewlineRuns(Strip(summary));
            && '\n' !in c && IsStripped(c)
            && NonWhitespace(c) == NonWhitespace(summary)
            && (EndsWith(c, ".") <==> EndsWith(NonWhitespace(c), "."))
  {
    var c := CollapseNewlineRuns(Strip(summary));
    NonWhitespaceOfStrip(summary);
    CollapsedStripped(Strip(summary));
    StrippedEndsLikeText(c);
  }

  lemma CollapsedStripped(s: string)
    requires IsStripped(s)
    ensures var c := CollapseNewlineRuns(s);
            '\n' !in c && IsStripped(c) && NonWhitespace(c) == NonWhitespace(s)
  {
    CollapseKeepsNonWhitespace(s, []);
    CollapseKeepsEnds(s, []);
    var c := CollapseFrom(s, []);
    if s == [] {
      assert c == [];
    }
  }

  /** A stripped string ends in a period exactly when its non-whitespace text does. */
  lemma StrippedEndsLikeText(c: string)
    requires IsStripped(c)
    ensures EndsWith(c, ".") <==> EndsWith(NonWhitespace(c), ".")
  {
    NonWhitespaceLast(c);
    if c == [] {
      assert NonWhitespace(c) == [];
    }
  }

  /** Appending a period to a stripped line keeps it a stripped line and adds the period to its text. */
  lemma PeriodAppended(c: string)
    requires '\n' !in c && IsStripped(c)
    ensures '\n' !in c + "." && IsStripped(c + ".") && EndsWith(c + ".", ".")
    ensures NonWhitespace(c + ".") == NonWhitespace(c) + "."
  {
    NonWhitespaceAppend(c, ".");
    NonWhitespaceOfChar('.');
  }

  /**
   * `indent_non_indented`, with the test computed on the first character;
   * `IndentsWhatLStripKeeps` states it as the source's `lstrip()` test.
   */
  function IndentNonIndented(line: string, indentation: string): string {
    if line == [] || !IsWhitespace(line[0]) then indentation + line else line
  }

  /**
   * A line that `lstrip()` leaves unchanged gets the indentation in front;
   * any other line is kept as it is.
   */
  lemma IndentsWhatLStripKeeps(line: string, indentation: string)
    ensures IndentNonIndented(line, indentation) == if LStrip(line) == line then indentation + line else line
  {
    LStripUnchangedIffUnindented(line);
  }

  /** `line.lstrip() == line` holds exactly when the line is empty or opens with a non-whitespace character. */
  lemma LStripUnchangedIffUnindented(line: string)
    ensures LStrip(line) == line <==> line == [] || !IsWhitespace(line[0])
  {
    if line != [] && IsWhitespace(line[0]) {
      assert LStrip(line) == LStrip(line[1..]);
    }
  }

  /** One element of the list comprehension in `format_docstring`. */
  function ReindentLine(line: string, indentation: string): string {
    RStrip(IndentNonIndented(line, indentation))
  }

  /** The list comprehension in `format_docstring`. */
  function ReindentLines(lines: seq<string>, indentation: string): (r: seq<string>)
    ensures |r| == |lines|
  {
    if lines == [] then [] else [ReindentLine(lines[0], indentation)] + ReindentLines(lines[1..], indentation)
  }

  lemma {:induction false} ReindentLinesAt(lines: seq<string>, indentation: string, i: nat)
    requires i < |lines|
    ensures ReindentLines(lines, indentation)[i] == ReindentLine(lines[i], indentation)
  {
    if i > 0 {
      var tail := ReindentLines(lines[1..], indentation);
      assert ReindentLines(lines, indentation)[i] == tail[i - 1] by {
        assert ReindentLines(lines, indentation) == [ReindentLine(lines[0], indentation)] + tail;
      }
      assert tail[i - 1] == ReindentLine(lines[i], indentation) by {
        ReindentLinesAt(lines[1..], indentation, i - 1);
        assert lines[1..][i - 1] == lines[i];
      }
    }
  }

  /** The description as `format_docstring` lays it out: re-indented lines without trailing whitespace. */
  function FormatBody(description: string, indentation: string): string {
    Join(ReindentLines(Split(description, '\n'), indentation), '\n')
  }

  /**
   * A summary with a description as `format_docstring` lays it out: the
   * summary, a blank line, the body, a blank line and the indentation in
   * front of the closing delimiter.
   */
  function Layout(summary: string, body: string, indentation: string): string {
    Wrap(summary + "\n\n" + body + "\n\n" + indentation)
  }

  /** Contents between """ delimiters, as `format_docstring` writes every docstring. */
  function Wrap(inner: string): (r: string)
    ensures |r| == |inner| + 6 && StartsWith(r, DoubleTriple) && EndsWith(r, DoubleTriple)
  {
    DoubleTriple + inner + DoubleTriple
  }

  /**
   * `format_docstring`: nothing for empty contents; the contents between
   * """ delimiters when there is no description; otherwise the
   * normalised summary, a blank line, the re-indented body, a blank line
   * and the closing """ at the indentation, with no newline after it.
   */
  function FormatDocstring(indentation: string, docstring: string): (r: Result<string, DocError>)
    ensures r.Err? <==> StripDocstring(docstring).Err?
    ensures r.Err? ==> r.error == StripDocstring(docstring).error
    ensures r == Ok([]) <==> StripDocstring(docstring) == Ok([])
    ensures r.Ok? && r.value != [] ==>
              StartsWith(r.value, DoubleTriple) && EndsWith(r.value, DoubleTriple)
    ensures r.Ok? && r.value != [] && SplitSummaryAndDescription(StripDocstring(docstring).value).1 == [] ==>
              r.value == Wrap(StripDocstring(docstring).value)
  {
    match StripDocstring(docstring)
    case Err(e) => Err(e)
    case Ok(contents) =>
      if contents == [] then Ok([])
      else
        var (summary, description) := SplitSummaryAndDescription(contents);
        if description != [] then
          Ok(Layout(NormalizeSummary(summary), FormatBody(description, indentation), indentation))
        else
          Ok(Wrap(contents))
  }

  // ---------------------------------------------------------------------
  // strip_docstring

  /**
   * A literal that `starts_with_triple` accepts is stripped without error,
   * except when it opens with four single quotes and does not close with
   * three.
   */
  lemma StripDocstringOfTriple(s: string)
    requires StartsWithTriple(s)
    ensures StripDocstring(s).Err? <==>
              StartsWith(LStrip(s), SingleQuadruple) && !EndsWith(RStrip(s), SingleTriple)
    ensures StripDocstring(s) != Err(MissingDelimiter)
  {
    if StartsWith(LStrip(s), DoubleTriple) {
      DoubleQuotedStrips(s);
    } else {
      QuadrupleOpensTriple(LStrip(s));
    }
  }

  lemma DoubleQuotedStrips(s: string)
    requires StartsWith(LStrip(s), DoubleTriple)
    ensures StripDocstring(s).Ok?
    ensures !StartsWith(LStrip(s), SingleQuadruple)
  {
    var l := LStrip(s);
    DoubleOpensNeitherSingle(l);
    OpensAfterWhitespace(s, DoubleTriple);
    NeitherErrorStrips(s, |s| - |l|);
  }

  /** Text opening with three double quotes opens with no single quote. */
  lemma DoubleOpensNeitherSingle(l: string)
    requires StartsWith(l, DoubleTriple)
    ensures !StartsWith(l, SingleTriple) && !StartsWith(l, SingleQuadruple)
  {
    assert l[0] == DoubleTriple[0];
  }

  /** A text whose `lstrip()` opens with `t` holds `t` right after its leading whitespace. */
  lemma OpensAfterWhitespace(s: string, t: string)
    requires StartsWith(LStrip(s), t)
    ensures OccursAt(s, t, |s| - |LStrip(s)|)
  {
    SuffixOpensWith(s, LStrip(s), t);
  }

  lemma SuffixOpensWith(s: string, l: string, t: string)
    requires |l| <= |s| && l == s[|s| - |l|..] && StartsWith(l, t)
    ensures OccursAt(s, t, |s| - |l|)
  {
    var k := |s| - |l|;
    assert s[k..k + |t|] == l[..|t|];
  }

  /** Not opening with ''' and holding a """ somewhere is enough to strip without error. */
  lemma NeitherErrorStrips(s: string, k: int)
    requires !StartsWith(LStrip(s), SingleTriple) && OccursAt(s, DoubleTriple, k)
    ensures StripDocstring(s).Ok?
  {
    var r := StripDocstring(s);
    assert r != Err(UnclosedSingleQuotes);
    assert r != Err(MissingDelimiter);
  }

  lemma QuadrupleOpensTriple(l: string)
    requires StartsWith(l, SingleQuadruple)
    ensures StartsWith(l, SingleTriple)
  {
    assert l[..3] == l[..4][..3];
  }

  /** Only whitespace before a delimiter: its first occurrence is right after that whitespace. */
  lemma FirstDelimiter(before: string, t: string, tail: string)
    requires t == DoubleTriple || t == SingleTriple
    requires AllWhitespace(before) && StartsWith(tail, t)
    ensures Find(before + tail, t) == Some(|before|)
  {
    var s := before + tail;
    assert OccursAt(s, t, |before|);
    forall i | 0 <= i < |before|
      ensures !OccursAt(s, t, i)
    {
      assert s[i] == before[i];
    }
  }

  /** Only whitespace after a delimiter: its last occurrence is right before that whitespace. */
  lemma LastDelimiter(head: string, t: string, after: string)
    requires t == DoubleTriple || t == SingleTriple
    requires AllWhitespace(after)
    ensures RFind(head + t + after, t) == Some(|head|)
  {
    var s := head + t + after;
    assert OccursAt(s, t, |head|);
    forall j | |head| < j
      ensures !OccursAt(s, t, j)
    {
      if j + 3 <= |s| {
        assert IsWhitespace(s[j + 2]) by {
          assert s[j + 2] == after[j + 2 - |head| - 3];
        }
        assert !IsWhitespace(t[2]);
        assert s[j..j + 3][2] == s[j + 2];
      }
    }
  }

  /** The delimiter a literal opens with, after its leading whitespace, is the one selected. */
  lemma OpeningDelimiter(s: string, t: string)
    requires t == DoubleTriple || t == SingleTriple
    requires StartsWith(LStrip(s), t)
    ensures Delimiter(s) == t
  {
    var l := LStrip(s);
    assert l[0] == t[0];
  }

  /** Which delimiter the text around wrapped contents selects, and that it also closes the text. */
  lemma WrappedDelimiter(before: string, t: string, inner: string, after: string)
    requires t == DoubleTriple || t == SingleTriple
    requires AllWhitespace(before) && AllWhitespace(after)
    ensures var s := before + t + inner + t + after;
            Delimiter(s) == t && EndsWith(RStrip(s), t)
  {
    var s := before + t + inner + t + after;
    assert s == before + t + (inner + t + after);
    WrappedOpens(before, t, inner + t + after);
    assert s == (before + t + inner) + t + after;
    WrappedCloses(before + t + inner, t, after);
  }

  /** Whitespace and then a delimiter select that delimiter. */
  lemma WrappedOpens(before: string, t: string, rest: string)
    requires t == DoubleTriple || t == SingleTriple
    requires AllWhitespace(before)
    ensures Delimiter(before + t + rest) == t
  {
    var tail := t + rest;
    assert before + t + rest == before + tail;
    LStripOfPadded(before, tail);
    assert tail[..|t|] == t;
    OpeningDelimiter(before + tail, t);
  }

  /** A delimiter and then whitespace still ends in that delimiter once stripped. */
  lemma WrappedCloses(front: string, t: string, after: string)
    requires t == DoubleTriple || t == SingleTriple
    requires AllWhitespace(after)
    ensures EndsWith(RStrip(front + t + after), t)
  {
    var head := front + t;
    RStripOfPadded(head, after);
    assert head[|head| - |t|..] == t;
  }

  /** `strip_docstring` cuts after the first delimiter and before the last one after it. */
  lemma StripDocstringCuts(s: string, i: nat, j: nat)
    requires Delimiter(s) == SingleTriple ==> EndsWith(RStrip(s), SingleTriple)
    requires Find(s, Delimiter(s)) == Some(i)
    requires RFind(s[i + 3..], Delimiter(s)) == Some(j)
    ensures StripDocstring(s) == Ok(Strip(s[i + 3..][..j]))
  {
    assert |Delimiter(s)| == 3;
    assert Between(s, Delimiter(s), i) == s[i + 3..][..j];
  }

  /**
   * With no second delimiter after the first, `rsplit` leaves the rest
   * whole: `strip_docstring` keeps everything after the first delimiter.
   */
  lemma StripDocstringCutsAtEnd(s: string, i: nat)
    requires Delimiter(s) == SingleTriple ==> EndsWith(RStrip(s), SingleTriple)
    requires Find(s, Delimiter(s)) == Some(i)
    requires RFind(s[i + 3..], Delimiter(s)) == None
    ensures StripDocstring(s) == Ok(Strip(s[i + 3..]))
  {
    assert |Delimiter(s)| == 3;
    assert Between(s, Delimiter(s), i) == s[i + 3..];
  }

  /**
   * The text between a delimiter and the same delimiter, with only
   * whitespace outside them, comes back stripped.
   */
  lemma StripDocstringOfWrapped(before: string, t: string, inner: string, after: string)
    requires t == DoubleTriple || t == SingleTriple
    requires AllWhitespace(before) && AllWhitespace(after)
    ensures StripDocstring(before + t + inner + t + after) == Ok(Strip(inner))
  {
    WrappedDelimiter(before, t, inner, after);
    WrappedCuts(before, t, inner, after);
    StripDocstringCuts(before + t + inner + t + after, |before|, |inner|);
  }

  lemma WrappedCuts(before: string, t: string, inner: string, after: string)
    requires t == DoubleTriple || t == SingleTriple
    requires AllWhitespace(before) && AllWhitespace(after)
    ensures var s := before + t + inner + t + after;
            && Find(s, t) == Some(|before|)
            && RFind(s[|before| + 3..], t) == Some(|inner|)
            && s[|before| + 3..][..|inner|] == inner
  {
    var s := before + t + inner + t + after;
    var tail := t + inner + t + after;
    assert s == before + tail;
    assert StartsWith(tail, t);
    FirstDelimiter(before, t, tail);
    assert s[|before| + 3..] == inner + t + after;
    LastDelimiter(inner, t, after);
  }

  /** Wrapping stripped contents in """ is undone by `strip_docstring`. */
  lemma StripDocstringRoundTrip(contents: string)
    requires IsStripped(contents)
    ensures StripDocstring(Wrap(contents)) == Ok(contents)
  {
    WrapStrips(contents);
    StripOfStripped(contents);
  }

  /** Whatever sits between """ delimiters comes back stripped. */
  lemma WrapStrips(inner: string)
    ensures StripDocstring(Wrap(inner)) == Ok(Strip(inner))
  {
    WrapIsPadded(inner);
    StripDocstringOfWrapped([], DoubleTriple, inner, []);
  }

  lemma WrapIsPadded(inner: string)
    ensures Wrap(inner) == [] + DoubleTriple + inner + DoubleTriple + []
  {
  }

  // ---------------------------------------------------------------------
  // split_summary_and_description

  /** A blank second line separates the first line (the summary) from the rest (the description). */
  lemma SplitAtBlankLine(first: string, blank: string, rest: string)
    requires '\n' !in first && '\n' !in blank && AllWhitespace(blank)
    ensures SplitSummaryAndDescription(first + "\n" + blank + "\n" + rest) == (first, rest)
  {
    var contents := first + "\n" + blank + "\n" + rest;
    assert contents == first + ['\n'] + (blank + ['\n'] + rest);
    SplitAfterPiece(first, '\n', blank + ['\n'] + rest);
    SplitAfterPiece(blank, '\n', rest);
    var lines := Split(contents, '\n');
    assert lines == [first, blank] + Split(rest, '\n');
    assert lines[2..] == Split(rest, '\n');
    SplitThenJoin(rest, '\n');
    LStripOfWhitespace(blank);
  }

  /** A blank last line of two: the first line is the summary and there is no description. */
  lemma SplitAtTrailingBlankLine(first: string, blank: string)
    requires '\n' !in first && '\n' !in blank && AllWhitespace(blank)
    ensures SplitSummaryAndDescription(first + "\n" + blank) == (first, [])
  {
    var contents := first + "\n" + blank;
    SplitAfterPiece(first, '\n', blank);
    SplitWithoutSeparator(blank, '\n');
    var lines := Split(contents, '\n');
    assert lines == [first, blank];
    assert lines[2..] == [];
    LStripOfWhitespace(blank);
  }

  /**
   * Without a blank second line, the first period followed by whitespace
   * ends the summary: the summary is the stripped text before it plus a
   * period, the description the stripped text after the whitespace.
   */
  lemma SplitAtSentenceEnd(before: string, w: char, after: string)
    requires IsWhitespace(w) && forall j :: !SentenceEndAt(before, j)
    requires !HasBlankSecondLine(before + ['.', w] + after)
    ensures SplitSummaryAndDescription(before + ['.', w] + after) == (Strip(before) + ".", Strip(after))
  {
    var contents := before + ['.', w] + after;
    assert FindSentenceEnd(contents) == Some(|before|) by {
      FirstSentenceEnd(before, w, after);
    }
    assert SplitSummaryAndDescription(contents) == SplitAtSentence(contents, |before|);
    assert contents[..|before|] == before;
    assert contents[|before| + 2..] == after;
  }

  /** A period and whitespace after text without a sentence end is the first sentence end. */
  lemma FirstSentenceEnd(before: string, w: char, after: string)
    requires IsWhitespace(w) && forall j :: !SentenceEndAt(before, j)
    ensures FindSentenceEnd(before + ['.', w] + after) == Some(|before|)
  {
    var contents := before + ['.', w] + after;
    assert SentenceEndAt(contents, |before|);
    forall j | 0 <= j < |before|
      ensures !SentenceEndAt(contents, j)
    {
      if j < |before| - 1 {
        assert !SentenceEndAt(before, j);
        assert contents[j] == before[j] && contents[j + 1] == before[j + 1];
      } else {
        assert contents[j + 1] == '.';
      }
    }
  }

  /** With neither a blank second line nor a sentence end, everything is summary. */
  lemma SplitWithoutSentenceEnd(contents: string)
    requires !HasBlankSecondLine(contents) && forall j :: !SentenceEndAt(contents, j)
    ensures SplitSummaryAndDescription(contents) == (Strip(contents), [])
  {
  }

  /** Of stripped contents, the description never ends in whitespace. */
  lemma DescriptionEndsInText(contents: string)
    requires IsStripped(contents)
    ensures var description := SplitSummaryAndDescription(contents).1;
            description == [] || !IsWhitespace(description[|description| - 1])
  {
    var lines := Split(contents, '\n');
    if |lines| > 1 && Strip(lines[1]) == [] {
      var description := Join(lines[2..], '\n');
      assert SplitSummaryAndDescription(contents).1 == description;
      if |lines| > 2 {
        LaterLinesEndInText(contents);
      } else {
        assert lines[2..] == [];
      }
    } else {
      var r := SplitAtFirstSentence(contents);
      assert SplitSummaryAndDescription(contents) == r;
      assert r.1 == [] || IsStripped(r.1);
    }
  }

  /** Lines three onward, joined, end where the contents end. */
  lemma LaterLinesEndInText(contents: string)
    requires IsStripped(contents) && |Split(contents, '\n')| > 2
    ensures var rest := Join(Split(contents, '\n')[2..], '\n');
            rest == [] || !IsWhitespace(rest[|rest| - 1])
  {
    var lines := Split(contents, '\n');
    var rest := Join(lines[2..], '\n');
    BlankSecondLine(contents);
    var front := lines[0] + ['\n'] + lines[1] + ['\n'];
    assert contents == front + rest;
    if rest != [] {
      assert contents[|contents| - 1] == rest[|rest| - 1];
    }
  }

  // ---------------------------------------------------------------------
  // normalize_summary

  /** A summary is left as it is exactly when it is already one stripped line ending in a period. */
  lemma NormalizeSummaryFixedPoint(summary: string)
    ensures NormalizeSummary(summary) == summary <==>
              '\n' !in summary && IsStripped(summary) && EndsWith(summary, ".")
  {
    if '\n' !in summary && IsStripped(summary) && EndsWith(summary, ".") {
      NormalizedSummaryUnchanged(summary);
    }
  }

  lemma NormalizedSummaryUnchanged(summary: string)
    requires '\n' !in summary && IsStripped(summary) && EndsWith(summary, ".")
    ensures NormalizeSummary(summary) == summary
  {
    StrippedLineUnchanged(summary);
  }

  lemma StrippedLineUnchanged(s: string)
    requires '\n' !in s && IsStripped(s)
    ensures CollapseNewlineRuns(Strip(s)) == s
  {
    StripOfStripped(s);
    CollapseWithoutNewline(s, []);
    assert CollapseFrom(s, []) == s;
  }

  /** Normalising twice is normalising once. */
  lemma NormalizeSummaryIdempotent(summary: string)
    ensures NormalizeSummary(NormalizeSummary(summary)) == NormalizeSummary(summary)
  {
    NormalizeSummaryFixedPoint(NormalizeSummary(summary));
  }

  /**
   * Two lines of summary, each one stripped line, with whitespace holding a
   * line break between them: they are joined by a single space, and a
   * period is added when the second does not end in one.
   */
  lemma NormalizeSummaryJoinsLines(a: string, w: string, b: string)
    requires a != [] && IsStripped(a) && '\n' !in a
    requires b != [] && IsStripped(b) && '\n' !in b
    requires AllWhitespace(w) && '\n' in w
    ensures NormalizeSummary(a + w + b) == if EndsWith(b, ".") then a + " " + b else a + " " + b + "."
  {
    StrippedJoin(a, w, b);
    CollapseJoin(a, w, b);
    NormalizeSummaryOfJoin(a + w + b, a, b);
  }

  /** `normalize_summary` once stripping and collapsing have given `a + " " + b`. */
  lemma NormalizeSummaryOfJoin(summary: string, a: string, b: string)
    requires b != [] && CollapseNewlineRuns(Strip(summary)) == a + " " + b
    ensures NormalizeSummary(summary) == if EndsWith(b, ".") then a + " " + b else a + " " + b + "."
  {
    JoinEndsWithPeriod(a, b);
  }

  /** Stripped lines around whitespace have nothing for `strip` to remove. */
  lemma StrippedJoin(a: string, w: string, b: string)
    requires a != [] && IsStripped(a) && b != [] && IsStripped(b) && AllWhitespace(w)
    ensures Strip(a + w + b) == a + w + b
  {
    StrippedBetween(a, w, b);
    StripOfStripped(a + w + b);
  }

  /** The two lines keep their text and the run between them becomes one space. */
  lemma CollapseJoin(a: string, w: string, b: string)
    requires a != [] && IsStripped(a) && '\n' !in a
    requires b != [] && IsStripped(b) && '\n' !in b
    requires AllWhitespace(w) && '\n' in w
    ensures CollapseNewlineRuns(a + w + b) == a + " " + b
  {
    CollapseAroundRun(a, w, b);
    CollapseWithoutNewline(a, []);
    CollapseWithoutNewline(b, []);
    assert [] + a == a && [] + b == b;
  }

  /** The joined lines end in a period exactly when the second line does. */
  lemma JoinEndsWithPeriod(a: string, b: string)
    requires b != []
    ensures EndsWith(a + " " + b, ".") <==> EndsWith(b, ".")
  {
    var joined := a + " " + b;
    assert joined[|joined| - 1..] == [joined[|joined| - 1]];
    assert b[|b| - 1..] == [b[|b| - 1]];
    assert joined[|joined| - 1] == b[|b| - 1];
  }

  // ---------------------------------------------------------------------
  // indent_non_indented and the body of format_docstring

  /** Re-indenting a re-indented line changes nothing when the indentation is whitespace. */
  lemma ReindentLineIdempotent(line: string, indentation: string)
    requires AllWhitespace(indentation)
    ensures ReindentLine(ReindentLine(line, indentation), indentation) == ReindentLine(line, indentation)
  {
    var indented := IndentNonIndented(line, indentation);
    var once := RStrip(indented);
    if once == [] {
      assert IndentNonIndented(once, indentation) == indentation by {
        AppendNothing(indentation);
      }
      RStripOfWhitespace(indentation);
    } else {
      assert once[0] == indented[0];
      assert IndentNonIndented(once, indentation) == once by {
        if !IsWhitespace(once[0]) {
          assert indentation == [];
          assert indentation + once == once;
        }
      }
      RStripOfEndingInText(once);
    }
  }

  lemma ReindentLineWithoutNewline(line: string, indentation: string)
    requires '\n' !in line && '\n' !in indentation
    ensures '\n' !in ReindentLine(line, indentation)
  {
    var indented := IndentNonIndented(line, indentation);
    assert '\n' !in indented;
    var r := RStrip(indented);
    assert r == indented[..|r|];
  }

  /**
   * The lines of the laid-out body are the description's lines, one for
   * one: a line opening with whitespace keeps it, any other line gets
   * the indentation in front, and none ends in whitespace.
   */
  lemma BodyLines(description: string, indentation: string)
    requires '\n' !in indentation
    ensures var lines := Split(description, '\n');
            var body := Split(FormatBody(description, indentation), '\n');
            && |body| == |lines|
            && (forall i :: 0 <= i < |body| ==> body[i] == [] || !IsWhitespace(body[i][|body[i]| - 1]))
            && (forall i :: 0 <= i < |body| ==>
                  body[i] == RStrip(if lines[i] != [] && IsWhitespace(lines[i][0]) then lines[i]
                                    else indentation + lines[i]))
  {
    var lines := Split(description, '\n');
    var reindented := ReindentLines(lines, indentation);
    assert Split(FormatBody(description, indentation), '\n') == reindented by {
      BodySplitsIntoReindentedLines(description, indentation);
    }
    forall i | 0 <= i < |lines|
      ensures reindented[i] == RStrip(if lines[i] != [] && IsWhitespace(lines[i][0]) then lines[i]
                                      else indentation + lines[i])
      ensures reindented[i] == [] || !IsWhitespace(reindented[i][|reindented[i]| - 1])
    {
      ReindentLinesAt(lines, indentation, i);
    }
  }

  /** With an indentation free of line breaks, the body splits back into the re-indented lines. */
  lemma BodySplitsIntoReindentedLines(description: string, indentation: string)
    requires '\n' !in indentation
    ensures var lines := Split(description, '\n');
            Split(FormatBody(description, indentation), '\n') == ReindentLines(lines, indentation)
  {
    var lines := Split(description, '\n');
    var reindented := ReindentLines(lines, indentation);
    SplitThenJoin(description, '\n');
    forall i | 0 <= i < |reindented|
      ensures '\n' !in reindented[i]
    {
      ReindentLinesAt(lines, indentation, i);
      ReindentLineWithoutNewline(lines[i], indentation);
    }
    JoinThenSplit(reindented, '\n');
  }

  /** The body's lines re-indent to themselves, so laying the body out again gives it back. */
  lemma FormatBodyIdempotent(description: string, indentation: string)
    requires AllWhitespace(indentation) && '\n' !in indentation
    ensures FormatBody(FormatBody(description, indentation), indentation) == FormatBody(description, indentation)
  {
    var lines := Split(description, '\n');
    var reindented := ReindentLines(lines, indentation);
    BodySplitsIntoReindentedLines(description, indentation);
    var again := ReindentLines(reindented, indentation);
    forall i | 0 <= i < |reindented|
      ensures again[i] == reindented[i]
    {
      ReindentLinesAt(lines, indentation, i);
      ReindentLinesAt(reindented, indentation, i);
      ReindentLineIdempotent(lines[i], indentation);
    }
    assert again == reindented;
  }

  /** A description ending in text gives a body ending in the same character. */
  lemma FormatBodyEndsInText(description: string, indentation: string)
    requires description != [] && !IsWhitespace(description[|description| - 1])
    ensures var body := FormatBody(description, indentation);
            |body| > 0 && body[|body| - 1] == description[|description| - 1]
  {
    var c := description[|description| - 1];
    var lines := Split(description, '\n');
    var reindented := ReindentLines(lines, indentation);
    assert EndsInChar(reindented[|reindented| - 1], c) by {
      SplitLast(description, '\n');
      LastReindentedLineEnds(lines, indentation, c);
    }
    assert EndsInChar(Join(reindented, '\n'), c) by {
      JoinLastChar(reindented, '\n', c);
    }
    assert FormatBody(description, indentation) == Join(reindented, '\n');
  }

  /** A last line ending in text still ends in that character once re-indented. */
  lemma LastReindentedLineEnds(lines: seq<string>, indentation: string, c: char)
    requires |lines| > 0 && EndsInChar(lines[|lines| - 1], c) && !IsWhitespace(c)
    ensures var reindented := ReindentLines(lines, indentation);
            EndsInChar(reindented[|reindented| - 1], c)
  {
    var n := |lines| - 1;
    var line := lines[n];
    var reindented := ReindentLines(lines, indentation);
    ReindentedLineEnds(line, indentation, c);
    ReindentLinesAt(lines, indentation, n);
    assert reindented[n] == ReindentLine(line, indentation);
  }

  lemma ReindentedLineEnds(line: string, indentation: string, c: char)
    requires EndsInChar(line, c) && !IsWhitespace(c)
    ensures EndsInChar(ReindentLine(line, indentation), c)
  {
    var indented := IndentNonIndented(line, indentation);
    assert indented[|indented| - 1] == c;
    RStripOfEndingInText(indented);
  }

  // ---------------------------------------------------------------------
  // format_docstring

  /**
   * Stripped contents with no description, once between """ delimiters,
   * are formatted to themselves: the one-line form is a fixed point.
   */
  lemma FormatOneLiner(indentation: string, contents: string)
    requires contents != [] && IsStripped(contents)
    requires SplitSummaryAndDescription(contents).1 == []
    ensures FormatDocstring(indentation, Wrap(contents)) == Ok(Wrap(contents))
  {
    StripDocstringRoundTrip(contents);
  }

  /**
   * With a description, the output's lines are: the opening """ and the
   * normalised summary, a blank line, the description's lines re-indented,
   * a blank line, and the indentation followed by the closing """.
   */
  lemma FormatDocstringLines(indentation: string, docstring: string)
    requires '\n' !in indentation
    requires StripDocstring(docstring).Ok?
    requires SplitSummaryAndDescription(StripDocstring(docstring).value).1 != []
    ensures var (summary, description) := SplitSummaryAndDescription(StripDocstring(docstring).value);
            FormatDocstring(indentation, docstring) ==
              Ok(Join([DoubleTriple + NormalizeSummary(summary), []]
                      + ReindentLines(Split(description, '\n'), indentation)
                      + [[], indentation + DoubleTriple], '\n'))
  {
    var (summary, description) := SplitSummaryAndDescription(StripDocstring(docstring).value);
    var s := NormalizeSummary(summary);
    var lines := ReindentLines(Split(description, '\n'), indentation);
    var out := Layout(s, FormatBody(description, indentation), indentation);
    assert FormatDocstring(indentation, docstring) == Ok(out);
    BodySplitsIntoReindentedLines(description, indentation);
    LayoutSplits(s, FormatBody(description, indentation), indentation);
    SplitThenJoin(out, '\n');
  }

  /**
   * The lines of a laid-out docstring, given a summary and an indentation
   * on one line each: the opening delimiter with the summary, an empty
   * line, the body's lines, an empty line, and the indentation with the
   * closing delimiter.
   */
  lemma LayoutSplits(s: string, body: string, indentation: string)
    requires '\n' !in s && '\n' !in indentation
    ensures Split(Layout(s, body, indentation), '\n') ==
              [DoubleTriple + s, []] + Split(body, '\n') + [[], indentation + DoubleTriple]
  {
    var head := DoubleTriple + s;
    var tail := indentation + DoubleTriple;
    WrapShape(s, body, indentation);
    LayoutLines(head, body, tail);
    SplitWithoutSeparator(head, '\n');
    SplitWithoutSeparator(tail, '\n');
    LinesShape(head, Split(body, '\n'), tail);
  }

  lemma WrapShape(s: string, body: string, indentation: string)
    ensures Wrap(s + "\n\n" + body + "\n\n" + indentation) ==
              (DoubleTriple + s) + "\n\n" + body + "\n\n" + (indentation + DoubleTriple)
  {
  }

  /** Two blank-line separators give two empty lines between the three parts. */
  lemma LayoutLines(head: string, body: string, tail: string)
    ensures Split(head + "\n\n" + body + "\n\n" + tail, '\n') ==
              Split(head, '\n') + [[]] + Split(body, '\n') + [[]] + Split(tail, '\n')
  {
    var nl := '\n';
    var rest := [] + [nl] + tail;
    var inner := body + [nl] + rest;
    var e: seq<string> := [[]];
    LayoutShape(head, body, tail);
    EmptySplit(nl);
    assert Split(head + [nl] + ([] + [nl] + inner), nl) == Split(head, nl) + (e + Split(inner, nl)) by {
      SplitConcat(head, nl, [] + [nl] + inner);
      SplitConcat([], nl, inner);
    }
    assert Split(inner, nl) == Split(body, nl) + (e + Split(tail, nl)) by {
      SplitConcat(body, nl, rest);
      SplitConcat([], nl, tail);
    }
    ConcatAssociates5(Split(head, nl), e, Split(body, nl), e, Split(tail, nl));
  }

  lemma ConcatAssociates5(a: seq<string>, b: seq<string>, c: seq<string>, d: seq<string>, e: seq<string>)
    ensures a + (b + (c + (d + e))) == a + b + c + d + e
  {
  }

  lemma LinesShape(head: string, lines: seq<string>, tail: string)
    ensures [head] + [[]] + lines + [[]] + [tail] == [head, []] + lines + [[], tail]
  {
  }

  lemma EmptySplit(sep: char)
    ensures Split([], sep) == [[]]
  {
  }

  lemma LayoutShape(head: string, body: string, tail: string)
    ensures head + "\n\n" + body + "\n\n" + tail ==
              head + ['\n'] + ([] + ['\n'] + (body + ['\n'] + ([] + ['\n'] + tail)))
  {
  }

  /**
   * Formatting is idempotent: for an indentation of spaces and tabs,
   * formatting a formatted docstring that is not empty gives it back.
   */
  lemma FormatDocstringIdempotent(indentation: string, docstring: string)
    requires AllWhitespace(indentation) && '\n' !in indentation
    requires FormatDocstring(indentation, docstring).Ok?
    requires FormatDocstring(indentation, docstring).value != []
    ensures var out := FormatDocstring(indentation, docstring).value;
            FormatDocstring(indentation, out) == Ok(out)
  {
    var contents := StripDocstring(docstring).value;
    assert contents != [] && IsStripped(contents);
    var (summary, description) := SplitSummaryAndDescription(contents);
    if description == [] {
      assert FormatDocstring(indentation, docstring) == Ok(Wrap(contents));
      FormatOneLiner(indentation, contents);
    } else {
      assert FormatDocstring(indentation, docstring) ==
               Ok(Layout(NormalizeSummary(summary), FormatBody(description, indentation), indentation));
      DescriptionEndsInText(contents);
      LaidOutIdempotent(indentation, summary, description);
    }
  }

  /** A summary with a description, once laid out, is laid out the same way again. */
  lemma LaidOutIdempotent(indentation: string, summary: string, description: string)
    requires AllWhitespace(indentation) && '\n' !in indentation
    requires description != [] && !IsWhitespace(description[|description| - 1])
    ensures var out := Layout(NormalizeSummary(summary), FormatBody(description, indentation), indentation);
            FormatDocstring(indentation, out) == Ok(out)
  {
    var s := NormalizeSummary(summary);
    NormalizedSummaryUnchanged(s);
    BodyKept(indentation, description);
    FormattedRoundTrip(indentation, s, FormatBody(description, indentation));
  }

  /** A description that ends in text is formatted into text that formatting keeps. */
  lemma BodyKept(indentation: string, description: string)
    requires AllWhitespace(indentation) && '\n' !in indentation
    requires description != [] && !IsWhitespace(description[|description| - 1])
    ensures var b := FormatBody(description, indentation);
            |b| > 0 && !IsWhitespace(b[|b| - 1]) && FormatBody(b, indentation) == b
  {
    FormatBodyEndsInText(description, indentation);
    FormatBodyIdempotent(description, indentation);
  }

  /** A laid-out docstring whose summary and body are already normal is reproduced. */
  lemma FormattedRoundTrip(indentation: string, s: string, b: string)
    requires AllWhitespace(indentation)
    requires '\n' !in s && IsStripped(s) && s != [] && NormalizeSummary(s) == s
    requires |b| > 0 && !IsWhitespace(b[|b| - 1]) && FormatBody(b, indentation) == b
    ensures FormatDocstring(indentation, Layout(s, b, indentation)) == Ok(Layout(s, b, indentation))
  {
    LaidOutStrips(indentation, s, b);
    LaidOutSplits(s, b);
  }

  /** The contents of a laid-out docstring are its summary, a blank line and its body. */
  lemma LaidOutStrips(indentation: string, s: string, b: string)
    requires AllWhitespace(indentation)
    requires IsStripped(s) && s != [] && |b| > 0 && !IsWhitespace(b[|b| - 1])
    ensures StripDocstring(Wrap(s + "\n\n" + b + "\n\n" + indentation)) == Ok(s + "\n\n" + b)
  {
    var contents := s + "\n\n" + b;
    var padding := "\n\n" + indentation;
    WrapStrips(s + "\n\n" + b + "\n\n" + indentation);
    StrippedBetween(s, "\n\n", b);
    WhitespacePadding(indentation);
    PaddedContents(s, b, indentation);
    StripPadded([], contents, padding);
  }

  lemma StrippedBetween(s: string, middle: string, b: string)
    requires IsStripped(s) && s != [] && |b| > 0 && !IsWhitespace(b[|b| - 1])
    ensures IsStripped(s + middle + b)
  {
    var c := s + middle + b;
    assert c[0] == s[0];
    assert c[|c| - 1] == b[|b| - 1];
  }

  lemma WhitespacePadding(indentation: string)
    requires AllWhitespace(indentation)
    ensures AllWhitespace("\n\n" + indentation)
  {
  }

  lemma PaddedContents(s: string, b: string, indentation: string)
    ensures s + "\n\n" + b + "\n\n" + indentation == [] + (s + "\n\n" + b) + ("\n\n" + indentation)
  {
  }

  /** A summary line, a blank line and a body split into that summary and body. */
  lemma LaidOutSplits(s: string, b: string)
    requires '\n' !in s
    ensures SplitSummaryAndDescription(s + "\n\n" + b) == (s, b)
  {
    EmptyBlankLine(s, b);
    SplitAtBlankLine(s, [], b);
  }

  lemma EmptyBlankLine(s: string, b: string)
    ensures s + "\n\n" + b == s + "\n" + [] + "\n" + b
  {
  }
}
