/**
 * `format_code`: walks the token stream of a Python source text and
 * rebuilds the text, putting back the spaces between tokens from their
 * positions and replacing each docstring by its formatted version. A
 * docstring is a string literal that opens with triple quotes and comes
 * right after an INDENT token; the INDENT token's text is the indentation
 * used for its closing line.
 *
 * The lexer is not modelled: the method takes the tokens it would
 * produce. `Output` is the stateless specification of the loop.
 */
module Reassembler {
  import opened Wrappers
  import opened Strings
  import opened Docstring

  /** The token types the reassembler tells apart; every other type is `Other`. */
  datatype TokenType = Str | Indent | Other

  datatype Position = Position(row: int, column: int)

  datatype Token = Token(kind: TokenType, text: string, start: Position, end: Position)

  /** What the loop remembers of the token before: where it ended, its text and its type. */
  datatype Cursor = Cursor(lastRow: int, lastColumn: int, previousText: string, previousType: Option<TokenType>)

  /** Before the first token: row 0, column -1, no text, no type. */
  const Initial := Cursor(0, -1, [], None)

  function After(t: Token): Cursor {
    Cursor(t.end.row, t.end.column, t.text, Some(t.kind))
  }

  function CursorBefore(tokens: seq<Token>, i: nat): Cursor
    requires i <= |tokens|
  {
    if i == 0 then Initial else After(tokens[i - 1])
  }

  function Spaces(n: nat): (r: string)
    ensures |r| == n && forall k :: 0 <= k < |r| ==> r[k] == ' '
  {
    if n == 0 then [] else Spaces(n - 1) + [' ']
  }

  /**
   * The spaces put in front of a token: on a new row counting from column
   * 0, otherwise from where the token before ended; none when the token
   * does not start further right.
   */
  function Gap(c: Cursor, t: Token): (r: string)
    ensures var from := if t.start.row > c.lastRow then 0 else c.lastColumn;
            && |r| == (if t.start.column > from then t.start.column - from else 0)
            && forall k :: 0 <= k < |r| ==> r[k] == ' '
  {
    var from := if t.start.row > c.lastRow then 0 else c.lastColumn;
    if t.start.column > from then Spaces(t.start.column - from) else []
  }

  /** A string literal opening with triple quotes, right after an INDENT token. */
  predicate IsDocstring(previousType: Option<TokenType>, t: Token) {
    t.kind == Str && StartsWithTriple(t.text) && previousType == Some(Indent)
  }

  /** What a token contributes after its gap: its formatted text if it is a docstring, else its text. */
  function Emit(previousText: string, previousType: Option<TokenType>, t: Token): Result<string, DocError> {
    if IsDocstring(previousType, t) then FormatDocstring(previousText, t.text) else Ok(t.text)
  }

  /**
   * A token that is not a docstring gives its text; a docstring fails
   * exactly when it opens with four single quotes and does not end with
   * three, and then with `UnclosedSingleQuotes`.
   */
  lemma EmitOutcome(previousText: string, previousType: Option<TokenType>, t: Token)
    ensures !IsDocstring(previousType, t) ==> Emit(previousText, previousType, t) == Ok(t.text)
    ensures Emit(previousText, previousType, t).Err? <==>
              && IsDocstring(previousType, t)
              && StartsWith(LStrip(t.text), SingleQuadruple)
              && !EndsWith(RStrip(t.text), SingleTriple)
    ensures Emit(previousText, previousType, t).Err? ==>
              Emit(previousText, previousType, t).error == UnclosedSingleQuotes
  {
    if IsDocstring(previousType, t) {
      StripDocstringOfTriple(t.text);
    }
  }

  predicate IsDocstringAt(tokens: seq<Token>, i: nat)
    requires i < |tokens|
  {
    IsDocstring(CursorBefore(tokens, i).previousType, tokens[i])
  }

  function EmitAt(tokens: seq<Token>, i: nat): Result<string, DocError>
    requires i < |tokens|
  {
    var c := CursorBefore(tokens, i);
    Emit(c.previousText, c.previousType, tokens[i])
  }

  function GapAt(tokens: seq<Token>, i: nat): string
    requires i < |tokens|
  {
    Gap(CursorBefore(tokens, i), tokens[i])
  }

  /** The gaps in front of the first `n` tokens. */
  function Gaps(tokens: seq<Token>, n: nat): (r: seq<string>)
    requires n <= |tokens|
    ensures |r| == n && forall i :: 0 <= i < n ==> r[i] == GapAt(tokens, i)
  {
    if n == 0 then [] else Gaps(tokens, n - 1) + [GapAt(tokens, n - 1)]
  }

  /** What each of the first `n` tokens contributes after its gap. */
  function Pieces(tokens: seq<Token>, n: nat): (r: seq<Result<string, DocError>>)
    requires n <= |tokens|
    ensures |r| == n && forall i {:trigger EmitAt(tokens, i)} :: 0 <= i < n ==> r[i] == EmitAt(tokens, i)
  {
    if n == 0 then [] else Pieces(tokens, n - 1) + [EmitAt(tokens, n - 1)]
  }

  /**
   * The text built from the first `n` gaps and pieces, each gap before its
   * piece, or the error of the first piece that failed.
   */
  function Assemble(gaps: seq<string>, pieces: seq<Result<string, DocError>>, n: nat): Result<string, DocError>
    requires |gaps| == |pieces| && n <= |pieces|
  {
    if n == 0 then Ok([])
    else
      match Assemble(gaps, pieces, n - 1)
      case Err(e) => Err(e)
      case Ok(prefix) =>
        match pieces[n - 1]
        case Err(e) => Err(e)
        case Ok(text) => Ok(prefix + gaps[n - 1] + text)
  }

  /** The text rebuilt from the first `n` tokens, or the first error raised on the way. */
  function Output(tokens: seq<Token>, n: nat): Result<string, DocError>
    requires n <= |tokens|
  {
    Assemble(Gaps(tokens, |tokens|), Pieces(tokens, |tokens|), n)
  }

  /**
   * `format_code` over the lexer's tokens: the text rebuilt from all the
   * tokens, or the error of the first docstring that cannot be formatted.
   */
  method FormatCode(tokens: seq<Token>) returns (r: Result<string, DocError>)
    ensures r == Output(tokens, |tokens|)
  {
    assert GapsOf(tokens, Gaps(tokens, |tokens|));
    r := FormatTokens(tokens, Gaps(tokens, |tokens|), Pieces(tokens, |tokens|));
  }

  /**
   * `pieces` holds what each token contributes. The quantifier is only
   * instantiated where a token's contribution is spelt out, which keeps
   * the formatter's definitions out of the loop's proof.
   */
  predicate PiecesOf(tokens: seq<Token>, pieces: seq<Result<string, DocError>>) {
    && |pieces| == |tokens|
    && forall k {:trigger EmitAt(tokens, k)} :: 0 <= k < |tokens| ==> pieces[k] == EmitAt(tokens, k)
  }

  /** `gaps` holds the white space in front of each token. */
  predicate GapsOf(tokens: seq<Token>, gaps: seq<string>) {
    && |gaps| == |tokens|
    && forall k {:trigger GapAt(tokens, k)} :: 0 <= k < |tokens| ==> gaps[k] == GapAt(tokens, k)
  }

  /**
   * The loop of `format_code`: it keeps the output so far and the end,
   * text and type of the previous token, and stops at the first docstring
   * that cannot be formatted. `gaps` and `pieces` are the specification's
   * view of the tokens.
   */
  method FormatTokens(tokens: seq<Token>, ghost gaps: seq<string>, ghost pieces: seq<Result<string, DocError>>)
    returns (r: Result<string, DocError>)
    requires GapsOf(tokens, gaps)
    requires PiecesOf(tokens, pieces)
    ensures r == Assemble(gaps, pieces, |tokens|)
  {
    var formatted: string := [];
    var previousText: string := [];
    var previousType: Option<TokenType> := None;
    var lastRow := 0;
    var lastColumn := -1;
    var i := 0;
    while i < |tokens|
      invariant 0 <= i <= |tokens|
      invariant Assemble(gaps, pieces, i) == Ok(formatted)
      invariant CursorBefore(tokens, i) == Cursor(lastRow, lastColumn, previousText, previousType)
    {
      var token := tokens[i];
      if token.start.row > lastRow {
        lastColumn := 0;
      }
      var gap: string := [];
      if token.start.column > lastColumn {
        gap := Spaces(token.start.column - lastColumn);
      }
      assert gap == gaps[i] by { assert gaps[i] == GapAt(tokens, i); }
      var piece := FormatToken(previousText, previousType, token, tokens, pieces, i);
      if piece.Err? {
        assert Assemble(gaps, pieces, |tokens|) == piece by {
          AssembleFailsAt(gaps, pieces, i);
          ErrorPersists(gaps, pieces, i + 1, |tokens|);
        }
        return Err(piece.error);
      }
      assert Assemble(gaps, pieces, i + 1) == Ok(formatted + gap + piece.value) by {
        AssembleStep(gaps, pieces, i);
      }
      formatted := formatted + gap + piece.value;
      previousText := token.text;
      previousType := Some(token.kind);
      lastRow := token.end.row;
      lastColumn := token.end.column;
      i := i + 1;
    }
    return Ok(formatted);
  }

  /**
   * What the loop appends for the `i`-th token after its gap: the
   * formatted docstring for a string literal that `starts_with_triple`
   * accepts right after an INDENT token, otherwise the token's text. The
   * choice is the one `Emit` specifies; it is kept as a method of its own
   * so that the loop's proof does not see the formatter.
   */
  method FormatToken(previousText: string, previousType: Option<TokenType>, token: Token,
                     ghost tokens: seq<Token>, ghost pieces: seq<Result<string, DocError>>, ghost i: nat)
    returns (piece: Result<string, DocError>)
    requires i < |tokens| && tokens[i] == token && PiecesOf(tokens, pieces)
    requires CursorBefore(tokens, i).previousText == previousText
    requires CursorBefore(tokens, i).previousType == previousType
    ensures piece == pieces[i]
  {
    assert pieces[i] == EmitAt(tokens, i);
    if token.kind == Str && StartsWithTriple(token.text) && previousType == Some(Indent) {
      piece := FormatDocstring(previousText, token.text);
    } else {
      piece := Ok(token.text);
    }
  }

  lemma PieceOfDocstring(tokens: seq<Token>, i: nat)
    requires i < |tokens| && IsDocstringAt(tokens, i)
    ensures Pieces(tokens, |tokens|)[i] == FormatDocstring(tokens[i - 1].text, tokens[i].text)
  {
    assert Pieces(tokens, |tokens|)[i] == EmitAt(tokens, i);
  }

  lemma PieceOfOther(tokens: seq<Token>, i: nat)
    requires i < |tokens| && !IsDocstringAt(tokens, i)
    ensures Pieces(tokens, |tokens|)[i] == Ok(tokens[i].text)
  {
    assert Pieces(tokens, |tokens|)[i] == EmitAt(tokens, i);
  }

  lemma AssembleStep(gaps: seq<string>, pieces: seq<Result<string, DocError>>, i: nat)
    requires |gaps| == |pieces| && i < |pieces|
    requires Assemble(gaps, pieces, i).Ok? && pieces[i].Ok?
    ensures Assemble(gaps, pieces, i + 1) == Ok(Assemble(gaps, pieces, i).value + gaps[i] + pieces[i].value)
  {
  }

  lemma AssembleFailsAt(gaps: seq<string>, pieces: seq<Result<string, DocError>>, i: nat)
    requires |gaps| == |pieces| && i < |pieces|
    requires Assemble(gaps, pieces, i).Ok? && pieces[i].Err?
    ensures Assemble(gaps, pieces, i + 1) == pieces[i]
  {
  }

  // ---------------------------------------------------------------------
  // Properties of the assembled output

  /** Once a piece fails, the whole run fails with that error. */
  lemma {:induction false} ErrorPersists(gaps: seq<string>, pieces: seq<Result<string, DocError>>, n: nat, m: nat)
    requires |gaps| == |pieces| && n <= m <= |pieces| && Assemble(gaps, pieces, n).Err?
    ensures Assemble(gaps, pieces, m) == Assemble(gaps, pieces, n)
    decreases m
  {
    if m > n {
      ErrorPersists(gaps, pieces, n, m - 1);
    }
  }

  /** The output only grows: what the first `n` tokens produce begins what more tokens produce. */
  lemma {:induction false} OutputGrows(gaps: seq<string>, pieces: seq<Result<string, DocError>>, n: nat, m: nat)
    requires |gaps| == |pieces| && n <= m <= |pieces| && Assemble(gaps, pieces, m).Ok?
    ensures Assemble(gaps, pieces, n).Ok?
    ensures StartsWith(Assemble(gaps, pieces, m).value, Assemble(gaps, pieces, n).value)
    decreases m
  {
    if m > n {
      OutputGrows(gaps, pieces, n, m - 1);
    }
  }

  /** The run fails exactly when some piece fails. */
  lemma {:induction false} OutputFails(gaps: seq<string>, pieces: seq<Result<string, DocError>>, n: nat)
    requires |gaps| == |pieces| && n <= |pieces|
    ensures Assemble(gaps, pieces, n).Err? <==> exists i :: 0 <= i < n && pieces[i].Err?
  {
    if n > 0 {
      OutputFails(gaps, pieces, n - 1);
    }
  }

  /** A failed run fails with the error of the first piece that fails. */
  lemma {:induction false} FirstFailure(gaps: seq<string>, pieces: seq<Result<string, DocError>>, n: nat)
    requires |gaps| == |pieces| && n <= |pieces| && Assemble(gaps, pieces, n).Err?
    ensures exists i :: && 0 <= i < n && pieces[i] == Assemble(gaps, pieces, n)
                        && forall j :: 0 <= j < i ==> pieces[j].Ok?
  {
    OutputFails(gaps, pieces, n - 1);
    if Assemble(gaps, pieces, n - 1).Ok? {
      assert pieces[n - 1] == Assemble(gaps, pieces, n);
    } else {
      FirstFailure(gaps, pieces, n - 1);
    }
  }

  /** Only a token that is a docstring can fail. */
  lemma EmitFailsOnlyOnDocstring(tokens: seq<Token>, i: nat)
    requires i < |tokens| && EmitAt(tokens, i).Err?
    ensures IsDocstringAt(tokens, i)
  {
  }

  /**
   * A run never fails on a missing delimiter: the only failure is a
   * docstring opened with four single quotes whose text does not end in
   * three.
   */
  lemma OnlyUnclosedQuotesFail(tokens: seq<Token>)
    requires Output(tokens, |tokens|).Err?
    ensures Output(tokens, |tokens|) == Err(UnclosedSingleQuotes)
    ensures exists i :: && 0 <= i < |tokens| && IsDocstringAt(tokens, i)
                        && StartsWith(LStrip(tokens[i].text), SingleQuadruple)
                        && !EndsWith(RStrip(tokens[i].text), SingleTriple)
  {
    var pieces := Pieces(tokens, |tokens|);
    FirstFailure(Gaps(tokens, |tokens|), pieces, |tokens|);
    var i :| 0 <= i < |tokens| && pieces[i] == Output(tokens, |tokens|);
    assert EmitAt(tokens, i).Err?;
    EmitFailsOnlyOnDocstring(tokens, i);
    StripDocstringOfTriple(tokens[i].text);
  }

  /** When every docstring opened with four single quotes closes with three, the run succeeds. */
  lemma ClosedDocstringsSucceed(tokens: seq<Token>)
    requires forall i :: 0 <= i < |tokens| && IsDocstringAt(tokens, i) &&
                         StartsWith(LStrip(tokens[i].text), SingleQuadruple) ==>
                           EndsWith(RStrip(tokens[i].text), SingleTriple)
    ensures Output(tokens, |tokens|).Ok?
  {
    if Output(tokens, |tokens|).Err? {
      OnlyUnclosedQuotesFail(tokens);
      assert false;
    }
  }

  // ---------------------------------------------------------------------
  // Tokens that are not docstrings

  /** A token starting where the token before ended, or at column 0 of a later row. */
  predicate Follows(tokens: seq<Token>, i: nat)
    requires i < |tokens|
  {
    var c := CursorBefore(tokens, i);
    var start := tokens[i].start;
    (start.row > c.lastRow && start.column == 0) || (start.row == c.lastRow && start.column == c.lastColumn)
  }

  function Concat(texts: seq<string>): string {
    if texts == [] then [] else Concat(texts[..|texts| - 1]) + texts[|texts| - 1]
  }

  function Texts(tokens: seq<Token>): (r: seq<string>)
    ensures |r| == |tokens| && forall i :: 0 <= i < |tokens| ==> r[i] == tokens[i].text
  {
    if tokens == [] then [] else Texts(tokens[..|tokens| - 1]) + [tokens[|tokens| - 1].text]
  }

  /** Each gap followed by its text. */
  function Spliced(gaps: seq<string>, texts: seq<string>): (r: seq<string>)
    requires |gaps| == |texts|
    ensures |r| == |texts| && forall i :: 0 <= i < |r| ==> r[i] == gaps[i] + texts[i]
  {
    if texts == [] then []
    else Spliced(gaps[..|gaps| - 1], texts[..|texts| - 1]) + [gaps[|gaps| - 1] + texts[|texts| - 1]]
  }

  /** With no failures, the output is each gap followed by its piece, one after the other. */
  lemma {:induction false} AssembleWithoutFailures(gaps: seq<string>, pieces: seq<Result<string, DocError>>,
                                                   texts: seq<string>, n: nat)
    requires |gaps| == |pieces| == |texts| && n <= |pieces|
    requires forall i :: 0 <= i < n ==> pieces[i] == Ok(texts[i])
    ensures Assemble(gaps, pieces, n) == Ok(Concat(Spliced(gaps, texts)[..n]))
  {
    if n > 0 {
      AssembleWithoutFailures(gaps, pieces, texts, n - 1);
      var spliced := Spliced(gaps, texts);
      var prefix := Concat(spliced[..n - 1]);
      assert spliced[..n][..n - 1] == spliced[..n - 1];
      assert Concat(spliced[..n]) == prefix + spliced[n - 1];
      assert prefix + gaps[n - 1] + texts[n - 1] == prefix + (gaps[n - 1] + texts[n - 1]);
    }
  }

  /**
   * Without docstrings, the output is each token's gap of spaces followed
   * by its text, one token after the other.
   */
  lemma NoDocstringsSpliced(tokens: seq<Token>)
    requires forall i :: 0 <= i < |tokens| ==> !IsDocstringAt(tokens, i)
    ensures Output(tokens, |tokens|) == Ok(Concat(Spliced(Gaps(tokens, |tokens|), Texts(tokens))))
  {
    var texts := Texts(tokens);
    var pieces := Pieces(tokens, |tokens|);
    forall i | 0 <= i < |tokens|
      ensures pieces[i] == Ok(texts[i])
    {
      PieceOfOther(tokens, i);
    }
    var spliced := Spliced(Gaps(tokens, |tokens|), texts);
    AssembleWithoutFailures(Gaps(tokens, |tokens|), pieces, texts, |tokens|);
    assert spliced[..|tokens|] == spliced;
  }

  /**
   * Without docstrings, and with every token following on from the one
   * before, the output is the tokens' texts one after the other.
   */
  lemma NoDocstringsVerbatim(tokens: seq<Token>)
    requires Verbatim(tokens)
    ensures Output(tokens, |tokens|) == Ok(Concat(Texts(tokens)))
  {
    NoDocstringsSpliced(tokens);
    VerbatimTokens(tokens, Texts(tokens));
    SplicedWithoutGaps(Gaps(tokens, |tokens|), Texts(tokens));
  }

  /** Empty gaps leave the texts as they are. */
  lemma SplicedWithoutGaps(gaps: seq<string>, texts: seq<string>)
    requires |gaps| == |texts| && forall i :: 0 <= i < |gaps| ==> gaps[i] == []
    ensures Spliced(gaps, texts) == texts
  {
    var spliced := Spliced(gaps, texts);
    forall i | 0 <= i < |texts|
      ensures spliced[i] == texts[i]
    {
      assert gaps[i] + texts[i] == texts[i];
    }
  }

  /** No token is a docstring and every token follows on from the one before. */
  predicate Verbatim(tokens: seq<Token>) {
    forall i :: 0 <= i < |tokens| ==> !IsDocstringAt(tokens, i) && Follows(tokens, i)
  }

  /** Without docstrings and gaps every token contributes its own text. */
  lemma VerbatimTokens(tokens: seq<Token>, texts: seq<string>)
    requires Verbatim(tokens)
    requires texts == Texts(tokens)
    ensures forall i :: 0 <= i < |tokens| ==> Gaps(tokens, |tokens|)[i] == [] && Pieces(tokens, |tokens|)[i] == Ok(texts[i])
  {
    forall i | 0 <= i < |tokens|
      ensures Gaps(tokens, |tokens|)[i] == [] && Pieces(tokens, |tokens|)[i] == Ok(texts[i])
    {
      FollowsWithoutGap(tokens, i);
      PieceOfOther(tokens, i);
    }
  }

  /** A token that follows on from the one before gets no gap. */
  lemma FollowsWithoutGap(tokens: seq<Token>, i: nat)
    requires i < |tokens| && Follows(tokens, i)
    ensures GapAt(tokens, i) == []
  {
  }

  /**
   * A docstring whose text is already the formatted one is left as it is,
   * for an indentation of spaces and tabs: replacing a docstring by its
   * formatted text and formatting again changes nothing at that token.
   */
  lemma FormattedDocstringKept(tokens: seq<Token>, i: nat)
    requires i < |tokens| && IsDocstringAt(tokens, i)
    requires AllWhitespace(tokens[i - 1].text) && '\n' !in tokens[i - 1].text
    requires EmitAt(tokens, i).Ok? && EmitAt(tokens, i).value != []
    ensures var formatted := tokens[i].(text := EmitAt(tokens, i).value);
            EmitAt(tokens[i := formatted], i) == EmitAt(tokens, i)
  {
    var indentation := tokens[i - 1].text;
    var out := FormatDocstring(indentation, tokens[i].text).value;
    var again := tokens[i := tokens[i].(text := out)];
    assert CursorBefore(again, i) == CursorBefore(tokens, i);
    FormatDocstringIdempotent(indentation, tokens[i].text);
    OpensWithTriple(out);
  }

  /** A formatted docstring is again one that `starts_with_triple` accepts. */
  lemma OpensWithTriple(out: string)
    requires StartsWith(out, DoubleTriple)
    ensures StartsWithTriple(out)
  {
    assert out[0] == '"';
    LStripUnchangedIffUnindented(out);
  }
}
