/**
 * The handful of Python `str` operations the formatter relies on:
 * `strip`/`lstrip`/`rstrip` without arguments, `startswith`/`endswith`,
 * `split(sep, 1)`/`rsplit(sep, 1)` (first and last occurrence of a
 * separator), and `split('\n')`/`'\n'.join(...)` on lines.
 */
module Strings {
  import opened Wrappers

  /** The whitespace characters recognised by `str.strip()` and by the regex class `\s`. */
  predicate IsWhitespace(c: char) {
    c == ' ' || c == '\t' || c == '\n' || c == '\r' || c == '\U{0B}' || c == '\U{0C}'
  }

  predicate AllWhitespace(s: string) {
    forall i :: 0 <= i < |s| ==> IsWhitespace(s[i])
  }

  /** A string with no leading and no trailing whitespace. */
  predicate IsStripped(s: string) {
    s == [] || (!IsWhitespace(s[0]) && !IsWhitespace(s[|s| - 1]))
  }

  predicate StartsWith(s: string, prefix: string) {
    |prefix| <= |s| && s[..|prefix|] == prefix
  }

  predicate EndsWith(s: string, suffix: string) {
    |suffix| <= |s| && s[|s| - |suffix|..] == suffix
  }

  /** The characters of `s` that are not whitespace, in order. */
  function NonWhitespace(s: string): string {
    if s == [] then []
    else (if IsWhitespace(s[0]) then [] else [s[0]]) + NonWhitespace(s[1..])
  }

  /** `str.lstrip()`: the suffix left after dropping all leading whitespace. */
  function LStrip(s: string): (r: string)
    ensures |r| <= |s| && r == s[|s| - |r|..]
    ensures r == [] || !IsWhitespace(r[0])
  {
    if s != [] && IsWhitespace(s[0]) then LStrip(s[1..]) else s
  }

  /** What `lstrip()` drops is whitespace. */
  lemma {:induction false} LStripDropsWhitespace(s: string)
    ensures AllWhitespace(s[..|s| - |LStrip(s)|])
  {
    if s != [] && IsWhitespace(s[0]) {
      LStripDropsWhitespace(s[1..]);
      var k := |s| - |LStrip(s)|;
      assert s[..k] == [s[0]] + s[1..][..k - 1];
    }
  }

  /** `str.rstrip()`: the prefix left after dropping all trailing whitespace. */
  function RStrip(s: string): (r: string)
    ensures |r| <= |s| && r == s[..|r|]
    ensures r == [] || !IsWhitespace(r[|r| - 1])
  {
    if s != [] && IsWhitespace(s[|s| - 1]) then RStrip(s[..|s| - 1]) else s
  }

  /** What `rstrip()` drops is whitespace. */
  lemma {:induction false} RStripDropsWhitespace(s: string)
    ensures AllWhitespace(s[|RStrip(s)|..])
  {
    if s != [] && IsWhitespace(s[|s| - 1]) {
      RStripDropsWhitespace(s[..|s| - 1]);
      var k := |RStrip(s)|;
      assert s[k..] == s[..|s| - 1][k..] + [s[|s| - 1]];
    }
  }

  /** `str.strip()`. */
  function Strip(s: string): (r: string)
    ensures IsStripped(r) && |r| <= |s|
  {
    var l := LStrip(s);
    var r := RStrip(l);
    assert r != [] ==> r[0] == l[0];
    r
  }

  /** `s[j:j+len(p)] == p`: an occurrence of `p` starts at index `j`. */
  predicate OccursAt(s: string, p: string, j: int) {
    0 <= j && j + |p| <= |s| && s[j..j + |p|] == p
  }

  /** The index of the first occurrence of `p` in `s` at or after `from`, as `str.find` gives it. */
  function FindFrom(s: string, p: string, from: nat): (r: Option<nat>)
    ensures r.Some? ==> from <= r.value && OccursAt(s, p, r.value)
    ensures r.Some? ==> forall j :: from <= j < r.value ==> !OccursAt(s, p, j)
    ensures r.None? ==> forall j :: from <= j ==> !OccursAt(s, p, j)
    decreases |s| - from
  {
    if from + |p| > |s| then None
    else if s[from..from + |p|] == p then Some(from)
    else FindFrom(s, p, from + 1)
  }

  /** The index of the first occurrence of `p` in `s`, where `s.split(p, 1)` cuts. */
  function Find(s: string, p: string): (r: Option<nat>)
    ensures r.Some? ==> OccursAt(s, p, r.value)
    ensures r.Some? ==> forall j :: 0 <= j < r.value ==> !OccursAt(s, p, j)
    ensures r.None? ==> forall j :: !OccursAt(s, p, j)
  {
    FindFrom(s, p, 0)
  }

  /** The index of the last occurrence of `p` starting at or before `upTo`. */
  function RFindUpTo(s: string, p: string, upTo: int): (r: Option<nat>)
    ensures r.Some? ==> r.value <= upTo && OccursAt(s, p, r.value)
    ensures r.Some? ==> forall j :: r.value < j <= upTo ==> !OccursAt(s, p, j)
    ensures r.None? ==> forall j :: j <= upTo ==> !OccursAt(s, p, j)
    decreases upTo + 1
  {
    if upTo < 0 then None
    else if OccursAt(s, p, upTo) then Some(upTo)
    else RFindUpTo(s, p, upTo - 1)
  }

  /** The index of the last occurrence of `p` in `s`, where `s.rsplit(p, 1)` cuts. */
  function RFind(s: string, p: string): (r: Option<nat>)
    ensures r.Some? ==> OccursAt(s, p, r.value)
    ensures r.Some? ==> forall j :: r.value < j ==> !OccursAt(s, p, j)
    ensures r.None? ==> forall j :: !OccursAt(s, p, j)
  {
    RFindUpTo(s, p, |s|)
  }

  /** `s.split(sep)` for a one-character separator. */
  function Split(s: string, sep: char): (r: seq<string>)
    ensures |r| >= 1
  {
    if s == [] then [[]]
    else
      var rest := Split(s[1..], sep);
      if s[0] == sep then [[]] + rest else [[s[0]] + rest[0]] + rest[1..]
  }

  /** `sep.join(parts)` for a one-character separator. */
  function Join(parts: seq<string>, sep: char): string {
    if |parts| == 0 then []
    else if |parts| == 1 then parts[0]
    else parts[0] + [sep] + Join(parts[1..], sep)
  }

  /** Every piece `split` returns is free of the separator, and joining the pieces gives back `s`. */
  lemma SplitThenJoin(s: string, sep: char)
    ensures forall i :: 0 <= i < |Split(s, sep)| ==> sep !in Split(s, sep)[i]
    ensures Join(Split(s, sep), sep) == s
  {
    SplitPiecesFree(s, sep);
    JoinOfSplit(s, sep);
  }

  lemma {:induction false} SplitPiecesFree(s: string, sep: char)
    ensures forall i :: 0 <= i < |Split(s, sep)| ==> sep !in Split(s, sep)[i]
  {
    if s != [] {
      SplitPiecesFree(s[1..], sep);
    }
  }

  lemma {:induction false} JoinOfSplit(s: string, sep: char)
    ensures Join(Split(s, sep), sep) == s
  {
    if s != [] {
      var rest := Split(s[1..], sep);
      JoinOfSplit(s[1..], sep);
      if s[0] == sep {
        JoinAfterEmpty(rest, sep);
      } else {
        JoinPrepend(s[0], rest, sep);
      }
      assert s == [s[0]] + s[1..];
    }
  }

  /** An empty first piece contributes only its separator. */
  lemma JoinAfterEmpty(parts: seq<string>, sep: char)
    requires |parts| >= 1
    ensures Join([[]] + parts, sep) == [sep] + Join(parts, sep)
  {
    assert ([[]] + parts)[1..] == parts;
  }

  /** Prepending a character to the first piece prepends it to the join. */
  lemma JoinPrepend(c: char, parts: seq<string>, sep: char)
    requires |parts| >= 1
    ensures Join([[c] + parts[0]] + parts[1..], sep) == [c] + Join(parts, sep)
  {
    if |parts| > 1 {
      var r := [[c] + parts[0]] + parts[1..];
      assert r[1..] == parts[1..];
    }
  }

  /** Splitting after a first piece free of the separator yields that piece, then the split of the rest. */
  lemma {:induction false} SplitAfterPiece(a: string, sep: char, b: string)
    requires sep !in a
    ensures Split(a + [sep] + b, sep) == [a] + Split(b, sep)
  {
    if a == [] {
      assert (a + [sep] + b)[1..] == b;
    } else {
      assert (a + [sep] + b)[1..] == a[1..] + [sep] + b;
      SplitAfterPiece(a[1..], sep, b);
      assert [a[0]] + a[1..] == a;
    }
  }

  /** The pieces of a join free of the separator come back unchanged from `split`. */
  lemma {:induction false} JoinThenSplit(parts: seq<string>, sep: char)
    requires |parts| >= 1
    requires forall i :: 0 <= i < |parts| ==> sep !in parts[i]
    ensures Split(Join(parts, sep), sep) == parts
  {
    if |parts| == 1 {
      SplitWithoutSeparator(parts[0], sep);
    } else {
      JoinThenSplit(parts[1..], sep);
      SplitAfterPiece(parts[0], sep, Join(parts[1..], sep));
      assert [parts[0]] + parts[1..] == parts;
    }
  }

  lemma {:induction false} SplitWithoutSeparator(s: string, sep: char)
    requires sep !in s
    ensures Split(s, sep) == [s]
  {
    if s != [] {
      SplitWithoutSeparator(s[1..], sep);
      assert [s[0]] + s[1..] == s;
    }
  }

  lemma {:induction false} NonWhitespaceAppend(a: string, b: string)
    ensures NonWhitespace(a + b) == NonWhitespace(a) + NonWhitespace(b)
  {
    if a != [] {
      assert (a + b)[1..] == a[1..] + b;
      NonWhitespaceAppend(a[1..], b);
    } else {
      assert a + b == b;
    }
  }

  lemma NonWhitespaceAppend3(a: string, b: string, c: string)
    ensures NonWhitespace(a + b + c) == NonWhitespace(a) + NonWhitespace(b) + NonWhitespace(c)
  {
    NonWhitespaceAppend(a + b, c);
    NonWhitespaceAppend(a, b);
  }

  lemma NonWhitespaceOfChar(c: char)
    ensures NonWhitespace([c]) == if IsWhitespace(c) then [] else [c]
  {
    assert [c][1..] == [];
  }

  lemma {:induction false} NonWhitespaceOfWhitespace(s: string)
    requires AllWhitespace(s)
    ensures NonWhitespace(s) == []
  {
    if s != [] {
      NonWhitespaceOfWhitespace(s[1..]);
    }
  }

  /** Stripping removes whitespace only. */
  lemma NonWhitespaceOfStrip(s: string)
    ensures NonWhitespace(Strip(s)) == NonWhitespace(s)
  {
    NonWhitespaceOfLStrip(s);
    NonWhitespaceOfRStrip(LStrip(s));
  }

  lemma NonWhitespaceOfLStrip(s: string)
    ensures NonWhitespace(LStrip(s)) == NonWhitespace(s)
  {
    var l := LStrip(s);
    var front := s[..|s| - |l|];
    LStripDropsWhitespace(s);
    assert s == front + l;
    NonWhitespaceSkipFront(front, l);
  }

  lemma NonWhitespaceOfRStrip(s: string)
    ensures NonWhitespace(RStrip(s)) == NonWhitespace(s)
  {
    var r := RStrip(s);
    var back := s[|r|..];
    RStripDropsWhitespace(s);
    assert s == r + back;
    NonWhitespaceSkipBack(r, back);
  }

  lemma NonWhitespaceSkipFront(a: string, b: string)
    requires AllWhitespace(a)
    ensures NonWhitespace(a + b) == NonWhitespace(b)
  {
    NonWhitespaceAppend(a, b);
    NonWhitespaceOfWhitespace(a);
  }

  lemma NonWhitespaceSkipBack(a: string, b: string)
    requires AllWhitespace(b)
    ensures NonWhitespace(a + b) == NonWhitespace(a)
  {
    NonWhitespaceAppend(a, b);
    NonWhitespaceOfWhitespace(b);
    assert NonWhitespace(a) + [] == NonWhitespace(a);
  }

  /** A string that does not end in whitespace ends in its last non-whitespace character. */
  lemma NonWhitespaceLast(s: string)
    requires s == [] || !IsWhitespace(s[|s| - 1])
    ensures s != [] ==> NonWhitespace(s) != [] && NonWhitespace(s)[|NonWhitespace(s)| - 1] == s[|s| - 1]
  {
    if s != [] {
      var init := s[..|s| - 1];
      assert s == init + [s[|s| - 1]];
      NonWhitespaceAppend(init, [s[|s| - 1]]);
      assert NonWhitespace([s[|s| - 1]]) == [s[|s| - 1]];
    }
  }

  /** `strip` undoes padding with whitespace on either side of a stripped string. */
  lemma StripPadded(a: string, r: string, b: string)
    requires AllWhitespace(a) && AllWhitespace(b) && IsStripped(r)
    ensures Strip(a + r + b) == r
  {
    if r == [] {
      assert a + r + b == a + b;
      StripOfWhitespace(a, b);
    } else {
      StripPaddedText(a, r, b);
    }
  }

  lemma StripOfWhitespace(a: string, b: string)
    requires AllWhitespace(a) && AllWhitespace(b)
    ensures Strip(a + b) == []
  {
    assert AllWhitespace(a + b) by {
      forall i | 0 <= i < |a + b|
        ensures IsWhitespace((a + b)[i])
      {
        if i >= |a| {
          assert (a + b)[i] == b[i - |a|];
        }
      }
    }
    LStripOfWhitespace(a + b);
  }

  lemma StripPaddedText(a: string, r: string, b: string)
    requires AllWhitespace(a) && AllWhitespace(b)
    requires r != [] && !IsWhitespace(r[0]) && !IsWhitespace(r[|r| - 1])
    ensures Strip(a + r + b) == r
  {
    assert a + r + b == a + (r + b);
    LStripOfPadded(a, r + b);
    RStripOfPadded(r, b);
  }

  lemma {:induction false} LStripOfWhitespace(s: string)
    requires AllWhitespace(s)
    ensures LStrip(s) == []
  {
    if s != [] {
      LStripOfWhitespace(s[1..]);
    }
  }

  lemma {:induction false} RStripOfWhitespace(s: string)
    requires AllWhitespace(s)
    ensures RStrip(s) == []
  {
    if s != [] {
      RStripOfWhitespace(s[..|s| - 1]);
    }
  }

  /** A string ending in a non-whitespace character is its own `rstrip()`. */
  lemma RStripOfEndingInText(s: string)
    requires s != [] && !IsWhitespace(s[|s| - 1])
    ensures RStrip(s) == s
  {
  }

  lemma {:induction false} LStripOfPadded(a: string, t: string)
    requires AllWhitespace(a) && t != [] && !IsWhitespace(t[0])
    ensures LStrip(a + t) == t
  {
    if a != [] {
      assert (a + t)[1..] == a[1..] + t;
      LStripOfPadded(a[1..], t);
    } else {
      assert a + t == t;
    }
  }

  lemma {:induction false} RStripOfPadded(t: string, b: string)
    requires AllWhitespace(b) && t != [] && !IsWhitespace(t[|t| - 1])
    ensures RStrip(t + b) == t
  {
    if b != [] {
      assert (t + b)[..|t + b| - 1] == t + b[..|b| - 1];
      RStripOfPadded(t, b[..|b| - 1]);
    } else {
      assert t + b == t;
    }
  }

  /** A stripped string is its own `strip`. */
  lemma StripOfStripped(s: string)
    requires IsStripped(s)
    ensures Strip(s) == s
  {
    StripPadded([], s, []);
    assert [] + s + [] == s;
  }

  /** A prefix ending in a non-whitespace character survives `rstrip`. */
  lemma StartsWithRStrip(s: string, p: string)
    requires p != [] && !IsWhitespace(p[|p| - 1])
    ensures StartsWith(RStrip(s), p) <==> StartsWith(s, p)
  {
  }

  /** Splitting at a separator splits the two sides independently. */
  lemma {:induction false} SplitConcat(x: string, sep: char, y: string)
    ensures Split(x + [sep] + y, sep) == Split(x, sep) + Split(y, sep)
  {
    var s := x + [sep] + y;
    if x == [] {
      assert s[1..] == y;
    } else {
      assert s[0] == x[0];
      assert s[1..] == x[1..] + [sep] + y;
      SplitConcat(x[1..], sep, y);
      if x[0] != sep {
        ExtendFirstPiece(x[0], Split(x[1..], sep), Split(y, sep));
      }
    }
  }

  /** Extending the first piece of `p` commutes with appending more pieces after `p`. */
  lemma ExtendFirstPiece(c: char, p: seq<string>, q: seq<string>)
    requires |p| >= 1
    ensures [[c] + (p + q)[0]] + (p + q)[1..] == ([[c] + p[0]] + p[1..]) + q
  {
    assert (p + q)[1..] == p[1..] + q;
  }

  /** `s` is not empty and its last character is `c`. */
  predicate EndsInChar(s: string, c: char) {
    |s| > 0 && s[|s| - 1] == c
  }

  /** A string not ending in the separator ends in its last piece, which is not empty. */
  lemma {:induction false} SplitLast(s: string, sep: char)
    requires |s| > 0 && s[|s| - 1] != sep
    ensures var parts := Split(s, sep); EndsInChar(parts[|parts| - 1], s[|s| - 1])
  {
    var rest := Split(s[1..], sep);
    SplitLastPiece(s, sep);
    if |s| == 1 {
      assert s[1..] == [] && rest == [[]];
      EndsInCharPrepend([], [s[0]], s[0]);
    } else {
      SplitLast(s[1..], sep);
      assert s[1..][|s| - 2] == s[|s| - 1];
      if s[0] != sep && |rest| == 1 {
        EndsInCharPrepend([s[0]], rest[0], s[|s| - 1]);
      }
    }
  }

  /** The last piece of a split is the last piece of the split of the tail, extended when it is also the first. */
  lemma SplitLastPiece(s: string, sep: char)
    requires |s| > 0
    ensures var parts, rest := Split(s, sep), Split(s[1..], sep);
            parts[|parts| - 1] == if s[0] != sep && |rest| == 1 then [s[0]] + rest[0] else rest[|rest| - 1]
  {
    var rest := Split(s[1..], sep);
    if s[0] != sep && |rest| > 1 {
      assert ([[s[0]] + rest[0]] + rest[1..])[|rest| - 1] == rest[1..][|rest| - 2];
    }
  }

  lemma EndsInCharPrepend(a: string, t: string, c: char)
    requires EndsInChar(t, c)
    ensures EndsInChar(a + t, c)
  {
    assert (a + t)[|a + t| - 1] == t[|t| - 1];
  }

  /** A join ends in its last piece. */
  lemma {:induction false} JoinEndsWithLast(parts: seq<string>, sep: char)
    requires |parts| >= 1
    ensures EndsWith(Join(parts, sep), parts[|parts| - 1])
  {
    if |parts| > 1 {
      JoinEndsWithLast(parts[1..], sep);
    }
  }

  /** A join ends in the last character of its last piece. */
  lemma {:induction false} JoinLastChar(parts: seq<string>, sep: char, c: char)
    requires |parts| >= 1 && EndsInChar(parts[|parts| - 1], c)
    ensures EndsInChar(Join(parts, sep), c)
  {
    if |parts| > 1 {
      JoinLastChar(parts[1..], sep, c);
    }
  }
}
