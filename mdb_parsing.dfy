/**
 * The pure helpers of the table extractor: reading the table list printed by
 * the database tool, recognising date-shaped strings, normalising column
 * names and inferring column types.
 */
module MdbParsing {
  import opened Results
  import opened Text
  import opened ExtractionModels

  // =====================================================================
  // The table list: `[t.strip() for t in stdout.splitlines() if t.strip()]`
  // =====================================================================

  /** The line boundaries of Python's `str.splitlines()`. */
  predicate IsLineBreak(c: char) {
    c == '\n' || c == '\r' || c == '\U{0B}' || c == '\U{0C}' || '\U{1C}' <= c <= '\U{1E}'
    || c == '\U{85}' || c == '\U{2028}' || c == '\U{2029}'
  }

  predicate NoLineBreak(s: string) { forall c :: c in s ==> !IsLineBreak(c) }

  /**
   * Splits at every line-boundary character. It differs from `splitlines()`
   * only in empty pieces (a `\r\n` pair and a final boundary each give one
   * more empty piece), and the table-list parser drops empty pieces anyway.
   */
  function SplitAtBreaks(s: string): (lines: seq<string>)
    ensures |lines| >= 1
    ensures forall i :: 0 <= i < |lines| ==> NoLineBreak(lines[i])
    decreases |s|
  {
    if s == [] then [[]]
    else
      var rest := SplitAtBreaks(s[1..]);
      if IsLineBreak(s[0]) then [[]] + rest
      else [[s[0]] + rest[0]] + rest[1..]
  }

  /** Strips every line and keeps the lines that are not blank, in order. */
  function KeepStripped(lines: seq<string>): (names: seq<string>)
    ensures |names| <= |lines|
    ensures forall i :: 0 <= i < |names| ==> names[i] != [] && IsStripped(names[i])
    ensures (forall i :: 0 <= i < |lines| ==> NoLineBreak(lines[i])) ==>
              forall i :: 0 <= i < |names| ==> NoLineBreak(names[i])
  {
    if lines == [] then []
    else
      var t := Strip(lines[0]);
      (if t == [] then [] else [t]) + KeepStripped(lines[1..])
  }

  /** The table names read from the output of `mdb-tables -1`. */
  function ParseTableList(stdout: string): (tables: seq<string>)
    ensures forall i :: 0 <= i < |tables| ==>
              tables[i] != [] && IsStripped(tables[i]) && NoLineBreak(tables[i])
  {
    KeepStripped(SplitAtBreaks(stdout))
  }

  /** The tool's output for a list of names: one name per line, each line ended by `\n`. */
  function RenderTableList(names: seq<string>): string {
    if names == [] then [] else names[0] + "\n" + RenderTableList(names[1..])
  }

  /** A piece without a line boundary is left whole. */
  lemma {:induction false} SplitWithoutBreak(a: string)
    requires NoLineBreak(a)
    ensures SplitAtBreaks(a) == [a]
    decreases |a|
  {
    if a != [] {
      assert a[0] in a;
      assert NoLineBreak(a[1..]) by { forall c | c in a[1..] ensures c in a { } }
      SplitWithoutBreak(a[1..]);
      assert [a[0]] + a[1..] == a;
    }
  }

  /** Text up to the first line boundary (of any kind) is one piece; the rest splits on its own. */
  lemma {:induction false} SplitAfterLine(a: string, c: char, b: string)
    requires NoLineBreak(a) && IsLineBreak(c)
    ensures SplitAtBreaks(a + [c] + b) == [a] + SplitAtBreaks(b)
    decreases |a|
  {
    if a == [] {
      assert a + [c] + b == [c] + b;
      assert ([c] + b)[1..] == b;
    } else {
      assert (a + [c] + b)[1..] == a[1..] + [c] + b;
      assert (a + [c] + b)[0] == a[0];
      assert a[0] in a;
      assert NoLineBreak(a[1..]) by { forall x | x in a[1..] ensures x in a { } }
      SplitAfterLine(a[1..], c, b);
      assert [a[0]] + a[1..] == a;
    }
  }

  lemma {:induction false} SplitRendered(names: seq<string>)
    requires forall i :: 0 <= i < |names| ==> NoLineBreak(names[i])
    ensures SplitAtBreaks(RenderTableList(names)) == names + [[]]
    decreases |names|
  {
    if names != [] {
      SplitAfterLine(names[0], '\n', RenderTableList(names[1..]));
      SplitRendered(names[1..]);
      assert names == [names[0]] + names[1..];
    }
  }

  lemma {:induction false} KeepStrippedNames(names: seq<string>)
    requires forall i :: 0 <= i < |names| ==> names[i] != [] && IsStripped(names[i])
    ensures KeepStripped(names + [[]]) == names
    decreases |names|
  {
    if names == [] {
      assert Strip([]) == [];
      assert KeepStripped([[]]) == [];
    } else {
      var lines := names + [[]];
      assert lines[0] == names[0] && lines[1..] == names[1..] + [[]];
      KeepStrippedNames(names[1..]);
      assert names == [names[0]] + names[1..];
    }
  }

  /** One line in front: it is kept, stripped, exactly when it is not blank. */
  lemma KeepStrippedCons(line: string, rest: seq<string>)
    ensures KeepStripped([line] + rest) ==
              (if Strip(line) == [] then [] else [Strip(line)]) + KeepStripped(rest)
  {
    assert ([line] + rest)[0] == line && ([line] + rest)[1..] == rest;
  }

  lemma FirstThenRest<T>(a: seq<T>, b: seq<T>)
    requires a != []
    ensures a == [a[0]] + a[1..] && a + b == [a[0]] + (a[1..] + b)
  {
  }

  lemma Regroup<T>(a: seq<T>, b: seq<T>, c: seq<T>)
    ensures a + (b + c) == (a + b) + c
  {
  }

  /** Keeping the non-blank lines works piece by piece: order is preserved and nothing is added. */
  lemma {:induction false} KeepStrippedAppend(a: seq<string>, b: seq<string>)
    ensures KeepStripped(a + b) == KeepStripped(a) + KeepStripped(b)
    decreases |a|
  {
    if a == [] {
      assert a + b == b;
    } else {
      var first := if Strip(a[0]) == [] then [] else [Strip(a[0])];
      FirstThenRest(a, b);
      KeepStrippedCons(a[0], a[1..] + b);
      KeepStrippedAppend(a[1..], b);
      KeepStrippedCons(a[0], a[1..]);
      Regroup(first, KeepStripped(a[1..]), KeepStripped(b));
    }
  }

  /**
   * The table list is read line by line: the first line, ended by any line
   * boundary (`\n`, `\r`, ...), gives its stripped text unless it is blank,
   * followed by the names read from the rest.
   */
  lemma ParseLineByLine(a: string, c: char, b: string)
    requires NoLineBreak(a) && IsLineBreak(c)
    ensures ParseTableList(a + [c] + b) ==
              (if Strip(a) == [] then [] else [Strip(a)]) + ParseTableList(b)
  {
    SplitAfterLine(a, c, b);
    KeepStrippedCons(a, SplitAtBreaks(b));
  }

  /** A last line without a boundary after it is read the same way. */
  lemma ParseLastLine(a: string)
    requires NoLineBreak(a)
    ensures ParseTableList(a) == (if Strip(a) == [] then [] else [Strip(a)])
  {
    SplitWithoutBreak(a);
    KeepStrippedCons(a, []);
    assert [a] + [] == [a];
  }

  /**
   * Parsing the tool's output gives back exactly the listed names, in their
   * order, for names that are non-empty, have no surrounding whitespace and
   * no line break.
   */
  lemma ParseRenderRoundTrip(names: seq<string>)
    requires forall i :: 0 <= i < |names| ==>
               names[i] != [] && IsStripped(names[i]) && NoLineBreak(names[i])
    ensures ParseTableList(RenderTableList(names)) == names
  {
    SplitRendered(names);
    KeepStrippedNames(names);
  }

  // =====================================================================
  // Date-shaped strings
  // =====================================================================

  /** One position of a date pattern: the class `\d` or a literal character. */
  datatype Shape = Digit | Lit(c: char)

  /** `^\d{4}-\d{2}-\d{2}$` */
  const IsoShape: seq<Shape> := [Digit, Digit, Digit, Digit, Lit('-'), Digit, Digit, Lit('-'), Digit, Digit]
  /** `^\d{2}/\d{2}/\d{4}$` */
  const SlashShape: seq<Shape> := [Digit, Digit, Lit('/'), Digit, Digit, Lit('/'), Digit, Digit, Digit, Digit]
  /** `^\d{2}-\d{2}-\d{4}$` */
  const DashShape: seq<Shape> := [Digit, Digit, Lit('-'), Digit, Digit, Lit('-'), Digit, Digit, Digit, Digit]

  const DateShapes: seq<seq<Shape>> := [IsoShape, SlashShape, DashShape]

  predicate CharFits(t: Shape, c: char) {
    match t
    case Digit => IsDigit(c)
    case Lit(l) => c == l
  }

  predicate Fits(shape: seq<Shape>, s: string) {
    |s| == |shape| && forall i :: 0 <= i < |s| ==> CharFits(shape[i], s[i])
  }

  /** `re.match('^…$', s)`: `$` matches at the very end or just before one final `\n`. */
  predicate MatchesAnchored(shape: seq<Shape>, s: string) {
    Fits(shape, s) || (|s| == |shape| + 1 && s[|shape|] == '\n' && Fits(shape, s[..|shape|]))
  }

  /** `any(re.match(p, value) for p in patterns)` */
  predicate AnyMatches(shapes: seq<seq<Shape>>, s: string) {
    shapes != [] && (MatchesAnchored(shapes[0], s) || AnyMatches(shapes[1..], s))
  }

  /** `_is_date_string` */
  predicate IsDateString(value: string) {
    AnyMatches(DateShapes, value)
  }

  /** `YYYY-MM-DD` in the first ten characters, written out position by position. */
  predicate IsoDateAt(v: string)
    requires |v| >= 10
  {
    IsDigit(v[0]) && IsDigit(v[1]) && IsDigit(v[2]) && IsDigit(v[3]) && v[4] == '-'
    && IsDigit(v[5]) && IsDigit(v[6]) && v[7] == '-' && IsDigit(v[8]) && IsDigit(v[9])
  }

  /** `MM<sep>DD<sep>YYYY` in the first ten characters, written out position by position. */
  predicate MonthFirstDateAt(v: string, sep: char)
    requires |v| >= 10
  {
    IsDigit(v[0]) && IsDigit(v[1]) && v[2] == sep && IsDigit(v[3]) && IsDigit(v[4])
    && v[5] == sep && IsDigit(v[6]) && IsDigit(v[7]) && IsDigit(v[8]) && IsDigit(v[9])
  }

  lemma FitsIso(v: string)
    requires |v| == 10
    ensures Fits(IsoShape, v) <==> IsoDateAt(v)
  {
    if IsoDateAt(v) {
      forall i | 0 <= i < 10 ensures CharFits(IsoShape[i], v[i]) {
        assert i == 0 || i == 1 || i == 2 || i == 3 || i == 4 || i == 5 || i == 6 || i == 7 || i == 8 || i == 9;
      }
    }
    if Fits(IsoShape, v) {
      assert CharFits(IsoShape[0], v[0]) && CharFits(IsoShape[1], v[1]) && CharFits(IsoShape[2], v[2]);
      assert CharFits(IsoShape[3], v[3]) && CharFits(IsoShape[4], v[4]) && CharFits(IsoShape[5], v[5]);
      assert CharFits(IsoShape[6], v[6]) && CharFits(IsoShape[7], v[7]) && CharFits(IsoShape[8], v[8]);
      assert CharFits(IsoShape[9], v[9]);
    }
  }

  lemma FitsMonthFirst(v: string, shape: seq<Shape>, sep: char)
    requires |v| == 10
    requires shape == [Digit, Digit, Lit(sep), Digit, Digit, Lit(sep), Digit, Digit, Digit, Digit]
    ensures Fits(shape, v) <==> MonthFirstDateAt(v, sep)
  {
    if MonthFirstDateAt(v, sep) {
      forall i | 0 <= i < 10 ensures CharFits(shape[i], v[i]) {
        assert i == 0 || i == 1 || i == 2 || i == 3 || i == 4 || i == 5 || i == 6 || i == 7 || i == 8 || i == 9;
      }
    }
    if Fits(shape, v) {
      assert CharFits(shape[0], v[0]) && CharFits(shape[1], v[1]) && CharFits(shape[2], v[2]);
      assert CharFits(shape[3], v[3]) && CharFits(shape[4], v[4]) && CharFits(shape[5], v[5]);
      assert CharFits(shape[6], v[6]) && CharFits(shape[7], v[7]) && CharFits(shape[8], v[8]);
      assert CharFits(shape[9], v[9]);
    }
  }

  /** The ten characters that decide, for a value of length 10 or 10 plus a final newline. */
  lemma DateDigitsShape(d: string)
    requires |d| == 10
    ensures (Fits(IsoShape, d) || Fits(SlashShape, d) || Fits(DashShape, d)) <==>
              (IsoDateAt(d) || MonthFirstDateAt(d, '/') || MonthFirstDateAt(d, '-'))
  {
    FitsIso(d);
    FitsMonthFirst(d, SlashShape, '/');
    FitsMonthFirst(d, DashShape, '-');
  }

  /**
   * A value is a date string exactly when it is `YYYY-MM-DD`, `MM/DD/YYYY` or
   * `MM-DD-YYYY` (ASCII digits), optionally followed by one newline.
   */
  lemma IsDateStringShapes(v: string)
    ensures IsDateString(v) <==>
              (|v| == 10 || (|v| == 11 && v[10] == '\n'))
              && (IsoDateAt(v) || MonthFirstDateAt(v, '/') || MonthFirstDateAt(v, '-'))
  {
    var rest1 := DateShapes[1..];
    var rest2 := rest1[1..];
    assert DateShapes[0] == IsoShape && rest1[0] == SlashShape && rest2[0] == DashShape;
    assert rest2[1..] == [];
    assert !AnyMatches(rest2[1..], v);
    assert AnyMatches(rest2, v) == MatchesAnchored(DashShape, v);
    assert AnyMatches(rest1, v) == (MatchesAnchored(SlashShape, v) || MatchesAnchored(DashShape, v));
    assert IsDateString(v) <==>
             MatchesAnchored(IsoShape, v) || MatchesAnchored(SlashShape, v) || MatchesAnchored(DashShape, v);
    if |v| == 10 {
      DateDigitsShape(v);
    } else if |v| == 11 && v[10] == '\n' {
      var d := v[..10];
      DateDigitsShape(d);
      assert IsoDateAt(d) == IsoDateAt(v);
      assert MonthFirstDateAt(d, '/') == MonthFirstDateAt(v, '/');
      assert MonthFirstDateAt(d, '-') == MonthFirstDateAt(v, '-');
    }
  }

  /** The dates of the test suite are accepted, also with the one final newline `$` allows. */
  lemma AcceptedDateExamples()
    ensures IsDateString("2023-01-01")
    ensures IsDateString("01/15/2023")
    ensures IsDateString("12-25-2023")
    ensures IsDateString("2023-01-01\n")
  {
    IsDateStringShapes("2023-01-01");
    IsDateStringShapes("01/15/2023");
    AcceptedDashedDates();
  }

  /** The month-first dashed date of the test suite, and an ISO date before a final newline. */
  lemma AcceptedDashedDates()
    ensures IsDateString("12-25-2023")
    ensures IsDateString("2023-01-01\n")
  {
    IsDateStringShapes("12-25-2023");
    IsDateStringShapes("2023-01-01\n");
  }

  /** The non-dates of the test suite are rejected, as is a date followed by a time. */
  lemma RejectedDateExamples()
    ensures !IsDateString("not a date")
    ensures !IsDateString("2023")
    ensures !IsDateString("2023-01-01 00:00")
  {
    IsDateStringShapes("not a date");
    IsDateStringShapes("2023");
    IsDateStringShapes("2023-01-01 00:00");
  }

  // =====================================================================
  // Column names: `re.sub(r'[^\w]', '_', c).strip('_')`, then `re.sub(r'_+', '_', c)`
  // =====================================================================

  predicate IsUnderscore(c: char) { c == '_' }

  predicate AllWordChars(s: string) { forall c :: c in s ==> IsWordChar(c) }

  ghost predicate NoDoubleUnderscore(s: string) {
    forall i, j :: 0 <= i < j < |s| && j == i + 1 ==> !(s[i] == '_' && s[j] == '_')
  }

  /** The ASCII letters and digits of `s`, in order. */
  function Alnums(s: string): (r: string)
    ensures |r| <= |s|
    ensures forall c :: c in r ==> IsAlnum(c)
  {
    if s == [] then [] else (if IsAlnum(s[0]) then [s[0]] else []) + Alnums(s[1..])
  }

  lemma {:induction false} AlnumsAppend(a: string, b: string)
    ensures Alnums(a + b) == Alnums(a) + Alnums(b)
    decreases |a|
  {
    if a != [] {
      assert (a + b)[0] == a[0];
      assert (a + b)[1..] == a[1..] + b;
      AlnumsAppend(a[1..], b);
    } else {
      assert a + b == b;
    }
  }

  lemma {:induction false} AlnumsOfUnderscores(s: string)
    requires forall i :: 0 <= i < |s| ==> s[i] == '_'
    ensures Alnums(s) == []
    decreases |s|
  {
    if s != [] {
      AlnumsOfUnderscores(s[1..]);
    }
  }

  /** Every character outside `\w` becomes an underscore. */
  function Underscored(col: string): (r: string)
    ensures |r| == |col|
    ensures AllWordChars(r)
  {
    seq(|col|, i requires 0 <= i < |col| => if IsWordChar(col[i]) then col[i] else '_')
  }

  lemma {:induction false} UnderscoredKeepsAlnums(col: string)
    ensures Alnums(Underscored(col)) == Alnums(col)
    decreases |col|
  {
    if col != [] {
      assert Underscored(col) == [Underscored(col)[0]] + Underscored(col[1..]);
      UnderscoredKeepsAlnums(col[1..]);
    }
  }

  /** Underscores around a text add no letters or digits to it. */
  lemma AlnumsBetweenUnderscores(pre: string, mid: string, post: string)
    requires forall i :: 0 <= i < |pre| ==> pre[i] == '_'
    requires forall i :: 0 <= i < |post| ==> post[i] == '_'
    ensures Alnums(pre + mid + post) == Alnums(mid)
  {
    AlnumsOfUnderscores(pre);
    AlnumsOfUnderscores(post);
    AlnumsAppend(pre + mid, post);
    AlnumsAppend(pre, mid);
  }

  lemma StripUnderscoresKeepsAlnums(s: string)
    ensures Alnums(StripBy(s, IsUnderscore)) == Alnums(s)
  {
    var lo, hi := KeptFrom(s, IsUnderscore), KeptUntil(s, IsUnderscore);
    if lo < hi {
      var pre, mid, post := s[..lo], s[lo..hi], s[hi..];
      assert StripBy(s, IsUnderscore) == mid;
      assert s == pre + mid + post;
      assert forall i :: 0 <= i < |pre| ==> pre[i] == '_' by {
        forall i | 0 <= i < |pre| ensures pre[i] == '_' { assert IsUnderscore(s[i]); }
      }
      assert forall i :: 0 <= i < |post| ==> post[i] == '_' by {
        forall i | 0 <= i < |post| ensures post[i] == '_' { assert IsUnderscore(s[hi + i]); }
      }
      AlnumsBetweenUnderscores(pre, mid, post);
    } else {
      assert StripBy(s, IsUnderscore) == [];
      assert forall i :: 0 <= i < |s| ==> s[i] == '_' by {
        forall i | 0 <= i < |s| ensures s[i] == '_' { assert IsUnderscore(s[i]); }
      }
      AlnumsOfUnderscores(s);
    }
  }

  /** `re.sub(r'_+', '_', s)`: every run of underscores becomes one underscore. */
  function CollapseUnderscores(s: string): (r: string)
    ensures |r| <= |s|
    decreases |s|
  {
    if |s| <= 1 then s
    else if s[0] == '_' && s[1] == '_' then CollapseUnderscores(s[1..])
    else [s[0]] + CollapseUnderscores(s[1..])
  }

  /** Collapsing keeps a name word-only, and keeps its first and last characters. */
  lemma {:induction false} CollapseShape(s: string)
    ensures AllWordChars(s) ==> AllWordChars(CollapseUnderscores(s))
    ensures s != [] ==> var r := CollapseUnderscores(s); r != [] && r[0] == s[0] && r[|r| - 1] == s[|s| - 1]
    decreases |s|
  {
    if |s| > 1 {
      var rest := s[1..];
      CollapseShape(rest);
      var t := CollapseUnderscores(rest);
      assert AllWordChars(s) ==> AllWordChars(rest) by {
        if AllWordChars(s) {
          forall i | 0 <= i < |rest| ensures IsWordChar(rest[i]) { assert rest[i] == s[i + 1]; }
        }
      }
      assert rest[0] == s[1] && rest[|rest| - 1] == s[|s| - 1];
      if !(s[0] == '_' && s[1] == '_') {
        var r := [s[0]] + t;
        assert r[0] == s[0] && r[|r| - 1] == t[|t| - 1];
        assert AllWordChars(s) ==> AllWordChars(r) by {
          if AllWordChars(s) {
            forall i | 0 <= i < |r| ensures IsWordChar(r[i]) {
              if i > 0 { assert r[i] == t[i - 1]; } else { assert IsWordChar(s[0]); }
            }
          }
        }
      }
    }
  }

  /** After collapsing, no two underscores are adjacent. */
  lemma {:induction false} CollapseNoDouble(s: string)
    ensures NoDoubleUnderscore(CollapseUnderscores(s))
    decreases |s|
  {
    if |s| > 1 {
      CollapseNoDouble(s[1..]);
      var t := CollapseUnderscores(s[1..]);
      if !(s[0] == '_' && s[1] == '_') {
        var r := [s[0]] + t;
        forall i, j | 0 <= i < j < |r| && j == i + 1 ensures !(r[i] == '_' && r[j] == '_') {
          if i > 0 {
            assert r[i] == t[i - 1] && r[j] == t[j - 1];
          }
        }
      }
    }
  }

  /** Collapsing removes underscores only: the letters and digits stay, in order. */
  lemma {:induction false} CollapseKeepsAlnums(s: string)
    ensures Alnums(CollapseUnderscores(s)) == Alnums(s)
    decreases |s|
  {
    if |s| > 1 {
      CollapseKeepsAlnums(s[1..]);
      if s[0] == '_' && s[1] == '_' {
        assert Alnums(s) == Alnums(s[1..]);
      } else {
        AlnumsAppend([s[0]], CollapseUnderscores(s[1..]));
        assert [s[0]][1..] == [];
      }
    }
  }

  /** A name without a run of underscores is left alone. */
  lemma {:induction false} CollapseIdentity(s: string)
    requires NoDoubleUnderscore(s)
    ensures CollapseUnderscores(s) == s
    decreases |s|
  {
    if |s| > 1 {
      CollapseIdentity(s[1..]);
      assert s == [s[0]] + s[1..];
    }
  }

  /** The name `_clean_column_names` gives one column. */
  function CleanColumnName(col: string): (name: string)
    ensures AllWordChars(name)
    ensures NoDoubleUnderscore(name)
    ensures name == [] || (name[0] != '_' && name[|name| - 1] != '_')
  {
    var stripped := StripBy(Underscored(col), IsUnderscore);
    CollapseNoDouble(stripped);
    CollapseShape(stripped);
    CollapseUnderscores(stripped)
  }

  /** Cleaning keeps every letter and digit of the original name, in order, and nothing else but separators. */
  lemma CleanKeepsAlnums(col: string)
    ensures Alnums(CleanColumnName(col)) == Alnums(col)
  {
    UnderscoredKeepsAlnums(col);
    StripUnderscoresKeepsAlnums(Underscored(col));
    CollapseKeepsAlnums(StripBy(Underscored(col), IsUnderscore));
  }

  /** A cleaned name is clean: cleaning twice is cleaning once. */
  lemma CleanIdempotent(col: string)
    ensures CleanColumnName(CleanColumnName(col)) == CleanColumnName(col)
  {
    var n := CleanColumnName(col);
    assert Underscored(n) == n;
    assert StripBy(n, IsUnderscore) == n;
    CollapseIdentity(n);
  }

  /** The names of all columns, cleaned one by one, in the same order. */
  function CleanColumnNames(cols: seq<string>): (names: seq<string>)
    ensures |names| == |cols|
    ensures forall i :: 0 <= i < |cols| ==> names[i] == CleanColumnName(cols[i])
  {
    seq(|cols|, i requires 0 <= i < |cols| => CleanColumnName(cols[i]))
  }

  /** Two different headers can clean to the same name. */
  lemma CleanNamesCanCollide()
    ensures CleanColumnName("A B") == CleanColumnName("A_B") == "A_B"
  {
    var u := Underscored("A B");
    assert u == "A_B";
    assert Underscored("A_B") == "A_B";
    assert NoDoubleUnderscore("A_B");
    CollapseIdentity("A_B");
  }

  /** Collapsing works piece by piece when the seam is not inside a run of underscores. */
  lemma {:induction false} CollapseAppend(a: string, b: string)
    requires a != [] && b != []
    requires !(a[|a| - 1] == '_' && b[0] == '_')
    ensures CollapseUnderscores(a + b) == CollapseUnderscores(a) + CollapseUnderscores(b)
    decreases |a|
  {
    if |a| == 1 {
      var ab := a + b;
      assert ab[0] == a[0] && ab[1..] == b && ab[1] == b[0];
      assert CollapseUnderscores(a) == [a[0]];
    } else {
      var c, rest := a[0], a[1..];
      assert rest[|rest| - 1] == a[|a| - 1];
      CollapseAppend(rest, b);
      assert a == [c] + rest;
      CollapseConsAppend(c, rest, b);
    }
  }

  /** The inductive step of `CollapseAppend`: a character put in front of `rest` is handled alike on both sides. */
  lemma CollapseConsAppend(c: char, rest: string, b: string)
    requires rest != []
    requires CollapseUnderscores(rest + b) == CollapseUnderscores(rest) + CollapseUnderscores(b)
    ensures CollapseUnderscores([c] + rest + b) == CollapseUnderscores([c] + rest) + CollapseUnderscores(b)
  {
    ConsAssoc(c, rest, b);
    CollapseCons(c, rest);
    CollapseCons(c, rest + b);
    ConsAssoc(c, CollapseUnderscores(rest), CollapseUnderscores(b));
  }

  lemma ConsAssoc(c: char, x: string, y: string)
    ensures [c] + x + y == [c] + (x + y)
  {
  }

  /** Collapsing a character followed by a non-empty text, one step. */
  lemma CollapseCons(c: char, t: string)
    requires t != []
    ensures CollapseUnderscores([c] + t)
         == if c == '_' && t[0] == '_' then CollapseUnderscores(t) else [c] + CollapseUnderscores(t)
  {
    assert ([c] + t)[1..] == t;
  }

  /** Non-empty runs of ASCII letters and digits. */
  predicate AreWords(words: seq<string>) {
    forall i :: 0 <= i < |words| ==> words[i] != [] && forall j :: 0 <= j < |words[i]| ==> IsAlnum(words[i][j])
  }

  /** A non-empty run of characters outside `\w` (spaces, dashes, punctuation). */
  predicate IsSeparator(s: string) { s != [] && forall i :: 0 <= i < |s| ==> !IsWordChar(s[i]) }

  predicate IsUnderscoreRun(s: string) { s != [] && forall i :: 0 <= i < |s| ==> s[i] == '_' }

  /** `words[0] + seps[0] + words[1] + … + words[n-1]` */
  function Interleave(words: seq<string>, seps: seq<string>): (r: string)
    requires |words| >= 1 && |seps| == |words| - 1
    requires forall i :: 0 <= i < |words| ==> words[i] != []
    ensures r != [] && r[0] == words[0][0] && r[|r| - 1] == words[|words| - 1][|words[|words| - 1]| - 1]
    decreases |words|
  {
    if |words| == 1 then words[0]
    else
      var rest := Interleave(words[1..], seps[1..]);
      words[0] + (seps[0] + rest)
  }

  /** The words joined by single underscores. */
  function JoinUnderscore(words: seq<string>): string
    requires |words| >= 1
    decreases |words|
  {
    if |words| == 1 then words[0] else words[0] + ("_" + JoinUnderscore(words[1..]))
  }

  lemma UnderscoredAppend(a: string, b: string)
    ensures Underscored(a + b) == Underscored(a) + Underscored(b)
  {
    assert forall i :: 0 <= i < |a| ==> (a + b)[i] == a[i];
    assert forall i :: |a| <= i < |a| + |b| ==> (a + b)[i] == b[i - |a|];
  }

  lemma {:induction false} UnderscoredInterleave(words: seq<string>, seps: seq<string>)
    requires |words| >= 1 && |seps| == |words| - 1
    requires AreWords(words)
    requires forall i :: 0 <= i < |seps| ==> IsSeparator(seps[i])
    ensures forall i :: 0 <= i < |seps| ==> IsUnderscoreRun(Underscored(seps[i]))
    ensures Underscored(Interleave(words, seps))
            == Interleave(words, seq(|seps|, i requires 0 <= i < |seps| => Underscored(seps[i])))
    decreases |words|
  {
    var runs := seq(|seps|, i requires 0 <= i < |seps| => Underscored(seps[i]));
    assert Underscored(words[0]) == words[0];
    if |words| > 1 {
      var rest := Interleave(words[1..], seps[1..]);
      UnderscoredInterleave(words[1..], seps[1..]);
      assert runs[1..] == seq(|seps[1..]|, i requires 0 <= i < |seps[1..]| => Underscored(seps[1..][i]));
      UnderscoredAppend(seps[0], rest);
      UnderscoredAppend(words[0], seps[0] + rest);
    }
  }

  lemma {:induction false} CollapseInterleave(words: seq<string>, runs: seq<string>)
    requires |words| >= 1 && |runs| == |words| - 1
    requires AreWords(words)
    requires forall i :: 0 <= i < |runs| ==> IsUnderscoreRun(runs[i])
    ensures CollapseUnderscores(Interleave(words, runs)) == JoinUnderscore(words)
    decreases |words|
  {
    CollapseIdentity(words[0]);
    if |words| > 1 {
      var rest := Interleave(words[1..], runs[1..]);
      CollapseInterleave(words[1..], runs[1..]);
      CollapseRun(runs[0]);
      CollapseAppend(runs[0], rest);
      CollapseAppend(words[0], runs[0] + rest);
    }
  }

  lemma {:induction false} CollapseRun(sep: string)
    requires IsUnderscoreRun(sep)
    ensures CollapseUnderscores(sep) == "_"
    decreases |sep|
  {
    if |sep| > 1 {
      CollapseRun(sep[1..]);
    }
  }

  /**
   * Words of letters and digits separated by runs of spaces, dashes or other
   * punctuation come out joined by single underscores.
   */
  lemma CleanSeparatedWords(words: seq<string>, seps: seq<string>)
    requires |words| >= 1 && |seps| == |words| - 1
    requires AreWords(words)
    requires forall i :: 0 <= i < |seps| ==> IsSeparator(seps[i])
    ensures CleanColumnName(Interleave(words, seps)) == JoinUnderscore(words)
  {
    var runs := seq(|seps|, i requires 0 <= i < |seps| => Underscored(seps[i]));
    UnderscoredInterleave(words, seps);
    var u := Interleave(words, runs);
    assert StripBy(u, IsUnderscore) == u;
    CollapseInterleave(words, runs);
  }

  /** The header names of the column-cleaning example and what they become. */
  lemma CleanColumnNameExample()
    ensures CleanColumnName("Column   With   Spaces") == "Column_With_Spaces"
  {
    var words, seps := ["Column", "With", "Spaces"], ["   ", "   "];
    SpacedExampleWords();
    CleanSeparatedWords(words, seps);
  }

  /** The example name splits into three words at two runs of spaces, which rejoin with underscores. */
  lemma SpacedExampleWords()
    ensures Interleave(["Column", "With", "Spaces"], ["   ", "   "]) == "Column   With   Spaces"
    ensures JoinUnderscore(["Column", "With", "Spaces"]) == "Column_With_Spaces"
  {
    var words, seps := ["Column", "With", "Spaces"], ["   ", "   "];
    assert words[1..] == ["With", "Spaces"] && words[1..][1..] == ["Spaces"];
    assert seps[1..] == ["   "] && seps[1..][1..] == [];
    assert Interleave(words, seps) == "Column" + ("   " + ("With" + ("   " + "Spaces")));
    assert JoinUnderscore(words) == "Column" + ("_" + ("With" + ("_" + "Spaces")));
  }

  // =====================================================================
  // Column types
  // =====================================================================

  /**
   * One column of the data frame read from the exported CSV: its name, its
   * pandas dtype as printed (`str(df[col].dtype)`), and the text of each cell
   * (`None` for a missing value).
   */
  datatype Column = Column(name: string, dtype: string, cells: seq<Option<string>>)

  /** The data frame: its columns, in order, and its number of rows. */
  datatype Frame = Frame(columns: seq<Column>, rowCount: nat)

  function ColumnNames(columns: seq<Column>): (names: seq<string>)
    ensures |names| == |columns|
    ensures forall i :: 0 <= i < |columns| ==> names[i] == columns[i].name
  {
    seq(|columns|, i requires 0 <= i < |columns| => columns[i].name)
  }

  /** `df[col].isna().any()` */
  predicate HasMissing(cells: seq<Option<string>>) { None in cells }

  /** `df[col].dropna()`: the values that are present, in order. */
  function NonMissing(cells: seq<Option<string>>): (values: seq<string>)
    ensures |values| <= |cells|
    ensures forall v :: v in values ==> Some(v) in cells
    ensures values == [] <==> forall i :: 0 <= i < |cells| ==> cells[i] == None
  {
    if cells == [] then []
    else (if cells[0].Some? then [cells[0].value] else []) + NonMissing(cells[1..])
  }

  lemma {:induction false} NonMissingAppend(a: seq<Option<string>>, b: seq<Option<string>>)
    ensures NonMissing(a + b) == NonMissing(a) + NonMissing(b)
    decreases |a|
  {
    if a == [] {
      assert a + b == b;
    } else {
      assert (a + b)[0] == a[0] && (a + b)[1..] == a[1..] + b;
      NonMissingAppend(a[1..], b);
    }
  }

  /** How many values `.head(10)` inspects. */
  const DateSampleSize: nat := 10

  /** `df[col].dropna().head(10)` */
  function DateSample(cells: seq<Option<string>>): (sample: seq<string>)
    ensures |sample| <= DateSampleSize
    ensures sample == [] <==> forall i :: 0 <= i < |cells| ==> cells[i] == None
  {
    var values := NonMissing(cells);
    if |values| <= DateSampleSize then values else values[..DateSampleSize]
  }

  /** `all(self._is_date_string(str(v)) for v in sample)` */
  predicate AllDateStrings(values: seq<string>) {
    forall i :: 0 <= i < |values| ==> IsDateString(values[i])
  }

  /** The type `_infer_column_types` maps one column to. */
  function ColumnDataType(c: Column): (t: DataType)
    ensures Contains(c.dtype, "int") ==> t == Integer
    ensures !Contains(c.dtype, "int") && Contains(c.dtype, "float") ==> t == Float
    ensures !Contains(c.dtype, "int") && !Contains(c.dtype, "float") && Contains(c.dtype, "bool") ==> t == Boolean
    ensures !Contains(c.dtype, "int") && !Contains(c.dtype, "float") && !Contains(c.dtype, "bool") ==>
              (Contains(c.dtype, "datetime") ==> t == Timestamp)
              && (!Contains(c.dtype, "datetime") && !Contains(c.dtype, "object") ==> t == String)
    ensures t == Date ==> Contains(c.dtype, "object") && exists i :: 0 <= i < |c.cells| && c.cells[i].Some?
  {
    if Contains(c.dtype, "int") then Integer
    else if Contains(c.dtype, "float") then Float
    else if Contains(c.dtype, "bool") then Boolean
    else if Contains(c.dtype, "datetime") then Timestamp
    else if Contains(c.dtype, "object") then
      var sample := DateSample(c.cells);
      if |sample| > 0 && AllDateStrings(sample) then Date else String
    else String
  }

  /** `_infer_column_types`: one description per column, in column order. */
  function InferColumnTypes(columns: seq<Column>): (infos: seq<ColumnInfo>)
    ensures |infos| == |columns|
    ensures forall i :: 0 <= i < |columns| ==>
              infos[i].name == columns[i].name
              && infos[i].dataType == ColumnDataType(columns[i])
              && (infos[i].nullable <==> exists k :: 0 <= k < |columns[i].cells| && columns[i].cells[k] == None)
  {
    seq(|columns|, i requires 0 <= i < |columns| =>
      ColumnInfo(columns[i].name, ColumnDataType(columns[i]), HasMissing(columns[i].cells)))
  }

  /**
   * Only the first ten present values of a text column decide whether it is a
   * date column: whatever follows them is never looked at.
   */
  lemma DateSampleIgnoresTail(cells: seq<Option<string>>, more: seq<Option<string>>)
    requires |NonMissing(cells)| >= DateSampleSize
    ensures DateSample(cells + more) == DateSample(cells)
  {
    NonMissingAppend(cells, more);
    assert NonMissing(cells + more)[..DateSampleSize] == NonMissing(cells)[..DateSampleSize];
  }

  /** Missing cells never change a column's type, wherever they sit. */
  lemma {:induction false} MissingCellsIgnored(cells: seq<Option<string>>, at: nat)
    requires at <= |cells|
    ensures DateSample(cells[..at] + [None] + cells[at..]) == DateSample(cells)
  {
    var pre, post := cells[..at], cells[at..];
    assert NonMissing(pre + [None] + post) == NonMissing(pre) + NonMissing(post) by {
      NonMissingAppend(pre + [None], post);
      NonMissingAppend(pre, [None]);
      assert NonMissing([None]) == [];
      AppendEmpty(NonMissing(pre));
    }
    assert NonMissing(cells) == NonMissing(pre) + NonMissing(post) by {
      NonMissingAppend(pre, post);
      SplitAt(cells, at);
    }
  }

  lemma AppendEmpty<T>(s: seq<T>)
    ensures s + [] == s
  {
  }

  lemma SplitAt<T>(s: seq<T>, i: nat)
    requires i <= |s|
    ensures s[..i] + s[i..] == s
  {
  }

  /**
   * A text (`object`) column is a date column exactly when it has a present
   * value and its first ten present values are all date strings; a column of
   * only missing values is a string column.
   */
  lemma ObjectColumnType(c: Column)
    requires Contains(c.dtype, "object")
    requires !Contains(c.dtype, "int") && !Contains(c.dtype, "float")
    requires !Contains(c.dtype, "bool") && !Contains(c.dtype, "datetime")
    ensures ColumnDataType(c) == Date <==>
              (exists i :: 0 <= i < |c.cells| && c.cells[i].Some?) && AllDateStrings(DateSample(c.cells))
    ensures ColumnDataType(c) != Date ==> ColumnDataType(c) == String
  {
  }

  /** How the dtype names pandas prints for CSV columns fall through the tests. */
  lemma IntDtype()
    ensures Contains("int64", "int")
  {
    assert "int64"[..3] == "int";
  }

  lemma FloatDtype()
    ensures !Contains("float64", "int") && Contains("float64", "float")
  {
    MissingCharNotContained("float64", "int", 'i');
    assert "float64"[..5] == "float";
  }

  lemma BoolDtype()
    ensures !Contains("bool", "int") && !Contains("bool", "float") && Contains("bool", "bool")
  {
    MissingCharNotContained("bool", "int", 'i');
    MissingCharNotContained("bool", "float", 'f');
  }

  lemma ObjectDtype()
    ensures !Contains("object", "int") && !Contains("object", "float") && !Contains("object", "bool")
    ensures !Contains("object", "datetime") && Contains("object", "object")
  {
    MissingCharNotContained("object", "int", 'i');
    MissingCharNotContained("object", "float", 'f');
    MissingCharNotContained("object", "bool", 'l');
    MissingCharNotContained("object", "datetime", 'd');
  }

  /** The dtypes pandas gives CSV columns of whole numbers, decimals and flags. */
  lemma NumericColumnTypes(c: Column)
    ensures c.dtype == "int64" ==> ColumnDataType(c) == Integer
    ensures c.dtype == "float64" ==> ColumnDataType(c) == Float
    ensures c.dtype == "bool" ==> ColumnDataType(c) == Boolean
  {
    if c.dtype == "int64" { IntDtype(); }
    if c.dtype == "float64" { FloatDtype(); }
    if c.dtype == "bool" { BoolDtype(); }
  }

  /** A text column whose present values are all date strings, with at least one present, is a date column. */
  lemma DateColumn(c: Column)
    requires c.dtype == "object"
    requires exists i :: 0 <= i < |c.cells| && c.cells[i].Some?
    requires forall i :: 0 <= i < |c.cells| && c.cells[i].Some? ==> IsDateString(c.cells[i].value)
    ensures ColumnDataType(c) == Date
  {
    ObjectDtype();
    var values := NonMissing(c.cells);
    forall v | v in values ensures IsDateString(v) {
      assert Some(v) in c.cells;
    }
  }

  /** A text column whose first value is present and not a date string is a string column. */
  lemma TextColumn(c: Column)
    requires c.dtype == "object"
    requires |c.cells| > 0 && c.cells[0].Some? && !IsDateString(c.cells[0].value)
    ensures ColumnDataType(c) == String
  {
    ObjectDtype();
    assert NonMissing(c.cells)[0] == c.cells[0].value;
    assert DateSample(c.cells)[0] == c.cells[0].value;
  }

  /** Strings of the type-inference example that are not dates. */
  lemma NotDateExamples()
    ensures !IsDateString("a") && !IsDateString("1")
  {
    IsDateStringShapes("a");
    IsDateStringShapes("1");
  }
}
