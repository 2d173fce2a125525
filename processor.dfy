/**
 * Keyword tagging and filtering over the output table (`match_keywords`,
 * `filter_keyword_matches`) and the text-cleaning pass (`clean_text_batch`).
 *
 * A polars frame is modelled as its column names, in order, and its rows, each a map from column
 * name to cell. The two polars operations the module uses, `with_columns` and `filter`, are
 * modelled for the expressions the module builds.
 */
module Processor {
  import opened Wrappers
  import opened Text
  import opened Config

  /** One cell: a string, a list of strings, a boolean, or null. */
  datatype Cell = Str(s: string) | Strs(items: seq<string>) | Flag(b: bool) | Null

  type Row = map<string, Cell>

  datatype Frame = Frame(columns: seq<string>, rows: seq<Row>)

  /** The polars errors the operations can raise. */
  datatype FrameError = ColumnNotFound | DuplicateColumn | SchemaMismatch

  predicate Distinct(names: seq<string>) {
    forall i, j :: 0 <= i < j < |names| ==> names[i] != names[j]
  }

  /** Column names are unique and every row has exactly the frame's columns. */
  predicate WellFormed(df: Frame) {
    Distinct(df.columns) && forall i :: 0 <= i < |df.rows| ==> df.rows[i].Keys == set c | c in df.columns
  }

  const TextColumn: string := "text"
  const MatchPrefix: string := "match_"

  /** The `text` cell of a row (null where the row has none). */
  function TextOf(row: Row): Cell {
    if TextColumn in row then row[TextColumn] else Null
  }

  // ---------------------------------------------------------------------------------------------
  // Column names
  // ---------------------------------------------------------------------------------------------

  /** `f"match_{kw.lower().replace(' ', '_').replace('-', '_')}"`. */
  function ColumnName(kw: string): string {
    MatchPrefix + ReplaceChar(ReplaceChar(Lower(kw), ' ', '_'), '-', '_')
  }

  /** What one character of a keyword becomes in its column name. */
  function NameChar(c: char): char {
    var l := LowerChar(c);
    if l == ' ' || l == '-' then '_' else l
  }

  /**
   * The column name of `kw` is `match_` followed by one character per character of `kw`: its
   * lower-case form, with spaces and hyphens turned into underscores.
   */
  lemma ColumnNameSpec(kw: string)
    ensures var name := ColumnName(kw);
      |name| == |MatchPrefix| + |kw| && name[..|MatchPrefix|] == MatchPrefix
      && (forall i :: 0 <= i < |kw| ==> name[|MatchPrefix| + i] == NameChar(kw[i]))
      && (forall i :: |MatchPrefix| <= i < |name| ==> name[i] != ' ' && name[i] != '-')
  {
    LowerSpec(kw);
    ReplaceCharSpec(Lower(kw), ' ', '_');
    ReplaceCharSpec(ReplaceChar(Lower(kw), ' ', '_'), '-', '_');
    var name := ColumnName(kw);
    assert forall i :: 0 <= i < |kw| ==> name[|MatchPrefix| + i] == NameChar(kw[i]);
  }

  /** A keyword and its lower-case form name the same column. */
  lemma ColumnNameIgnoresCase(kw: string)
    ensures ColumnName(Lower(kw)) == ColumnName(kw)
  {
    LowerIdempotent(kw);
  }

  /** No column name is `text`, so tagging never touches the text column. */
  lemma ColumnNameIsNotText(kw: string)
    ensures ColumnName(kw) != TextColumn
  {
    assert ColumnName(kw)[0] == 'm';
  }

  // ---------------------------------------------------------------------------------------------
  // Tagging: match_keywords
  // ---------------------------------------------------------------------------------------------

  /**
   * `text` contains `kw` under the case-insensitive literal search `(?i)` + `re.escape(kw)`:
   * some slice of `text` equals `kw` up to letter case.
   */
  predicate MatchesIgnoringCase(text: string, kw: string) {
    Contains(Lower(text), Lower(kw))
  }

  /** The window of `text` at `i` equals `kw` up to letter case. */
  predicate WindowMatches(text: string, kw: string, i: nat) {
    i + |kw| <= |text| && Lower(text[i..i + |kw|]) == Lower(kw)
  }

  /** The case-insensitive search succeeds exactly when some window of the text equals the keyword up to case. */
  lemma MatchesIgnoringCaseSpec(text: string, kw: string)
    ensures MatchesIgnoringCase(text, kw) <==> exists i: nat :: i <= |text| && WindowMatches(text, kw, i)
  {
    if MatchesIgnoringCase(text, kw) {
      var i: nat :| i <= |Lower(text)| && OccursAt(Lower(text), Lower(kw), i);
      LowerSlice(text, i, i + |kw|);
      assert WindowMatches(text, kw, i);
    }
    if exists i: nat :: i <= |text| && WindowMatches(text, kw, i) {
      var i: nat :| i <= |text| && WindowMatches(text, kw, i);
      LowerSlice(text, i, i + |kw|);
      assert OccursAt(Lower(text), Lower(kw), i);
    }
  }

  /** A literal occurrence of the keyword is a match. */
  lemma LiteralOccurrenceMatches(text: string, kw: string)
    requires Contains(text, kw)
    ensures MatchesIgnoringCase(text, kw)
  {
    LowerContains(text, kw);
  }

  /** `pl.col("text").str.contains(pattern).alias(name)`. */
  datatype Expr = MatchExpr(name: string, keyword: string)

  /** The value of a match expression on a row's text: null stays null. */
  function Evaluate(text: Cell, kw: string): Cell {
    match text
    case Str(t) => Flag(MatchesIgnoringCase(t, kw))
    case _ => Null
  }

  /** The `expressions` list `match_keywords` builds for `kws`. */
  function Expressions(kws: seq<string>): (exprs: seq<Expr>)
    ensures |exprs| == |kws|
    ensures forall k :: 0 <= k < |kws| ==> exprs[k] == MatchExpr(ColumnName(kws[k]), kws[k])
    decreases |kws|
  {
    if kws == [] then [] else Expressions(kws[..|kws| - 1]) + [MatchExpr(ColumnName(kws[|kws| - 1]), kws[|kws| - 1])]
  }

  function Names(exprs: seq<Expr>): (names: seq<string>)
    ensures |names| == |exprs|
    ensures forall k :: 0 <= k < |exprs| ==> names[k] == exprs[k].name
    decreases |exprs|
  {
    if exprs == [] then [] else Names(exprs[..|exprs| - 1]) + [exprs[|exprs| - 1].name]
  }

  function NameSet(exprs: seq<Expr>): set<string> {
    set e | e in exprs :: e.name
  }

  /** The column names for `kws`, in keyword order (`match_cols`). */
  function MatchColumns(kws: seq<string>): seq<string> {
    Names(Expressions(kws))
  }

  /** A row with the value of each expression, computed from the row's `text` cell, stored under its name. */
  function AddColumns(row: Row, text: Cell, exprs: seq<Expr>): Row
    decreases |exprs|
  {
    if exprs == [] then row
    else
      var e := exprs[|exprs| - 1];
      AddColumns(row, text, exprs[..|exprs| - 1])[e.name := Evaluate(text, e.keyword)]
  }

  /** The column list after `with_columns`: existing names keep their place, new ones are appended. */
  function NewColumns(columns: seq<string>, exprs: seq<Expr>): seq<string>
    decreases |exprs|
  {
    if exprs == [] then columns
    else
      var c := NewColumns(columns, exprs[..|exprs| - 1]);
      var name := exprs[|exprs| - 1].name;
      if name in c then c else c + [name]
  }

  function AddToRows(rows: seq<Row>, exprs: seq<Expr>): (out: seq<Row>)
    ensures |out| == |rows|
    ensures forall i :: 0 <= i < |rows| ==> out[i] == AddColumns(rows[i], TextOf(rows[i]), exprs)
    decreases |rows|
  {
    if rows == [] then []
    else AddToRows(rows[..|rows| - 1], exprs) + [AddColumns(rows[|rows| - 1], TextOf(rows[|rows| - 1]), exprs)]
  }

  /** Every `text` cell is a string or null, so `str.contains` applies. */
  predicate TextIsString(df: Frame) {
    forall i :: 0 <= i < |df.rows| ==> TextOf(df.rows[i]).Str? || TextOf(df.rows[i]).Null?
  }

  /** The frame `with_columns` produces when it does not raise. */
  function Extend(df: Frame, exprs: seq<Expr>): Frame {
    Frame(NewColumns(df.columns, exprs), AddToRows(df.rows, exprs))
  }

  /** `df.with_columns(exprs)` for match expressions. */
  function WithColumns(df: Frame, exprs: seq<Expr>): Result<Frame, FrameError> {
    if exprs != [] && TextColumn !in df.columns then Failure(ColumnNotFound)
    else if !Distinct(Names(exprs)) then Failure(DuplicateColumn)
    else if exprs != [] && !TextIsString(df) then Failure(SchemaMismatch)
    else Success(Extend(df, exprs))
  }

  /** The frame `match_keywords` returns for non-empty keywords when it does not raise. */
  function Tagged(df: Frame, kws: seq<string>): Frame {
    Extend(df, Expressions(kws))
  }

  /** What `match_keywords` returns (or raises) for `df` and `kws`. */
  function KeywordMatches(df: Frame, kws: seq<string>): Result<Frame, FrameError> {
    if kws == [] then Success(df) else WithColumns(df, Expressions(kws))
  }

  /** `match_keywords`: one boolean column per keyword, telling whether `text` contains it. */
  method MatchKeywords(df: Frame, kws: seq<string>) returns (res: Result<Frame, FrameError>)
    ensures res == KeywordMatches(df, kws)
  {
    if |kws| == 0 {
      return Success(df);
    }
    var exprs: seq<Expr> := [];
    for i := 0 to |kws|
      invariant exprs == Expressions(kws[..i])
    {
      assert kws[..i + 1][..i] == kws[..i];
      var colName := ColumnName(kws[i]);
      exprs := exprs + [MatchExpr(colName, kws[i])];
    }
    assert kws[..|kws|] == kws;
    res := WithColumns(df, exprs);
  }

  /** The row gains exactly the expression names as keys. */
  lemma {:induction false} AddColumnsKeys(row: Row, text: Cell, exprs: seq<Expr>)
    ensures AddColumns(row, text, exprs).Keys == row.Keys + NameSet(exprs)
    decreases |exprs|
  {
    if exprs != [] {
      var init := exprs[..|exprs| - 1];
      assert Names(init) == Names(exprs)[..|exprs| - 1];
      AddColumnsKeys(row, text, init);
      assert NameSet(exprs) == NameSet(init) + {exprs[|exprs| - 1].name};
    }
  }

  /** With distinct names, each added cell holds its expression's value. */
  lemma {:induction false} AddColumnsValues(row: Row, text: Cell, exprs: seq<Expr>)
    requires Distinct(Names(exprs))
    ensures var out := AddColumns(row, text, exprs);
      forall k :: 0 <= k < |exprs| ==> exprs[k].name in out && out[exprs[k].name] == Evaluate(text, exprs[k].keyword)
    decreases |exprs|
  {
    if exprs != [] {
      var init := exprs[..|exprs| - 1];
      assert Names(init) == Names(exprs)[..|exprs| - 1];
      AddColumnsValues(row, text, init);
      var out := AddColumns(row, text, exprs);
      forall k | 0 <= k < |exprs| - 1
        ensures exprs[k].name in out && out[exprs[k].name] == Evaluate(text, exprs[k].keyword)
      {
        assert Names(exprs)[k] != Names(exprs)[|exprs| - 1];
        assert exprs[k] == init[k];
      }
    }
  }

  /** A cell of the row under a name no expression uses is kept. */
  lemma {:induction false} AddColumnsKeeps(row: Row, text: Cell, exprs: seq<Expr>)
    ensures var out := AddColumns(row, text, exprs);
      forall c :: c in row && c !in Names(exprs) ==> c in out && out[c] == row[c]
    decreases |exprs|
  {
    if exprs != [] {
      var init := exprs[..|exprs| - 1];
      assert Names(init) == Names(exprs)[..|exprs| - 1];
      AddColumnsKeeps(row, text, init);
      assert Names(exprs)[|exprs| - 1] == exprs[|exprs| - 1].name;
    }
  }

  /** The added cells hold each expression's value; every other cell is kept. */
  lemma AddColumnsSpec(row: Row, text: Cell, exprs: seq<Expr>)
    requires Distinct(Names(exprs))
    ensures var out := AddColumns(row, text, exprs);
      out.Keys == row.Keys + NameSet(exprs)
      && (forall k :: 0 <= k < |exprs| ==> out[exprs[k].name] == Evaluate(text, exprs[k].keyword))
      && (forall c :: c in row && c !in Names(exprs) ==> out[c] == row[c])
  {
    AddColumnsKeys(row, text, exprs);
    AddColumnsValues(row, text, exprs);
    AddColumnsKeeps(row, text, exprs);
  }

  /** Existing columns keep their place and the expression names are added once each. */
  lemma {:induction false} NewColumnsSpec(columns: seq<string>, exprs: seq<Expr>)
    requires Distinct(columns)
    ensures var out := NewColumns(columns, exprs);
      Distinct(out) && |columns| <= |out| && out[..|columns|] == columns
      && forall x :: x in out <==> x in columns || x in Names(exprs)
    decreases |exprs|
  {
    if exprs != [] {
      var init := exprs[..|exprs| - 1];
      NewColumnsSpec(columns, init);
      var c := NewColumns(columns, init);
      var e := exprs[|exprs| - 1];
      assert Names(exprs) == Names(init) + [e.name];
      if e.name !in c {
        var out := c + [e.name];
        assert out[..|columns|] == c[..|columns|];
        assert forall i :: 0 <= i < |c| ==> out[i] == c[i] && c[i] != e.name;
      }
    }
  }

  /** When no expression name is an existing column, the names are appended in order. */
  lemma {:induction false} NewColumnsAppend(columns: seq<string>, exprs: seq<Expr>)
    requires Distinct(Names(exprs))
    requires forall k :: 0 <= k < |exprs| ==> exprs[k].name !in columns
    ensures NewColumns(columns, exprs) == columns + Names(exprs)
    decreases |exprs|
  {
    if exprs != [] {
      var init := exprs[..|exprs| - 1];
      var e := exprs[|exprs| - 1];
      assert Names(init) == Names(exprs)[..|exprs| - 1];
      assert forall k :: 0 <= k < |init| ==> init[k] == exprs[k];
      NewColumnsAppend(columns, init);
      forall k | 0 <= k < |init|
        ensures Names(init)[k] != e.name
      {
        assert Names(exprs)[k] != Names(exprs)[|exprs| - 1];
      }
      assert Names(exprs) == Names(init) + [e.name];
    }
  }

  /** The names of the expressions, as a set. */
  lemma NameSetSpec(exprs: seq<Expr>)
    ensures NameSet(exprs) == set c | c in Names(exprs)
  {
    assert forall e :: e in exprs ==> e.name in Names(exprs);
    assert forall c :: c in Names(exprs) ==> exists k :: 0 <= k < |exprs| && c == exprs[k].name;
  }

  /**
   * `match_keywords` leaves the frame alone for no keywords, raises exactly when `text` is
   * missing, two keywords name the same column, or `text` is not a string column, and otherwise
   * returns the tagged frame.
   */
  lemma KeywordMatchesSpec(df: Frame, kws: seq<string>)
    ensures kws == [] ==> KeywordMatches(df, kws) == Success(df)
    ensures KeywordMatches(df, kws).Failure? <==>
      kws != [] && (TextColumn !in df.columns || !Distinct(MatchColumns(kws)) || !TextIsString(df))
    ensures KeywordMatches(df, kws).Success? && kws != [] ==> KeywordMatches(df, kws).value == Tagged(df, kws)
  {
    NameSetSpec(Expressions(kws));
  }

  /**
   * Tagging keeps every existing column in place, adds one column per keyword, keeps the number
   * of rows, and gives every row exactly the new columns.
   */
  lemma TaggedSpec(df: Frame, kws: seq<string>)
    requires WellFormed(df) && Distinct(MatchColumns(kws))
    ensures var out := Tagged(df, kws);
      WellFormed(out) && |out.rows| == |df.rows|
      && |df.columns| <= |out.columns| && out.columns[..|df.columns|] == df.columns
      && forall c :: c in out.columns <==> c in df.columns || c in MatchColumns(kws)
  {
    var exprs := Expressions(kws);
    NameSetSpec(Expressions(kws));
    NewColumnsSpec(df.columns, exprs);
    var out := Tagged(df, kws);
    forall i | 0 <= i < |out.rows|
      ensures out.rows[i].Keys == set c | c in out.columns
    {
      AddColumnsSpec(df.rows[i], TextOf(df.rows[i]), exprs);
    }
  }

  /** When no keyword column exists yet, the keyword columns are appended in keyword order. */
  lemma TaggedAppends(df: Frame, kws: seq<string>)
    requires Distinct(MatchColumns(kws))
    requires forall k :: 0 <= k < |kws| ==> ColumnName(kws[k]) !in df.columns
    ensures Tagged(df, kws).columns == df.columns + MatchColumns(kws)
  {
    var exprs := Expressions(kws);
    forall k | 0 <= k < |exprs|
      ensures exprs[k].name !in df.columns
    {
      assert exprs[k].name == ColumnName(kws[k]);
    }
    NewColumnsAppend(df.columns, exprs);
  }

  /**
   * In each tagged row, the column of every keyword tells whether the row's text contains the
   * keyword ignoring case (null for null text), and every other cell, `text` included, is unchanged.
   */
  lemma TaggedRows(df: Frame, kws: seq<string>, i: int)
    requires Distinct(MatchColumns(kws)) && 0 <= i < |df.rows|
    ensures var row := Tagged(df, kws).rows[i];
      (forall k :: 0 <= k < |kws| ==>
        ColumnName(kws[k]) in row && row[ColumnName(kws[k])] == Evaluate(TextOf(df.rows[i]), kws[k]))
      && (forall c :: c in df.rows[i] && c !in MatchColumns(kws) ==> c in row && row[c] == df.rows[i][c])
      && TextOf(row) == TextOf(df.rows[i])
  {
    var exprs := Expressions(kws);
    NameSetSpec(Expressions(kws));
    AddColumnsSpec(df.rows[i], TextOf(df.rows[i]), exprs);
    forall k | 0 <= k < |kws| {
      ColumnNameIsNotText(kws[k]);
    }
    assert TextColumn !in MatchColumns(kws);
  }

  /** Keywords that agree character by character up to case, spaces and hyphens name the same column. */
  lemma SameColumnName(a: string, b: string)
    requires |a| == |b| && forall i :: 0 <= i < |a| ==> NameChar(a[i]) == NameChar(b[i])
    ensures ColumnName(a) == ColumnName(b)
  {
    ColumnNameSpec(a);
    ColumnNameSpec(b);
    var na, nb := ColumnName(a), ColumnName(b);
    forall i | 0 <= i < |na|
      ensures na[i] == nb[i]
    {
      if i < |MatchPrefix| {
        assert na[i] == na[..|MatchPrefix|][i];
        assert nb[i] == nb[..|MatchPrefix|][i];
      } else {
        assert na[|MatchPrefix| + (i - |MatchPrefix|)] == NameChar(a[i - |MatchPrefix|]);
      }
    }
  }

  /** Two keywords that name the same column make `match_keywords` raise. */
  lemma CollidingNamesRaise(df: Frame, kws: seq<string>, i: nat, j: nat)
    requires i < j < |kws| && ColumnName(kws[i]) == ColumnName(kws[j])
    ensures KeywordMatches(df, kws).Failure?
  {
    var names := MatchColumns(kws);
    assert names[i] == ColumnName(kws[i]) && names[j] == ColumnName(kws[j]);
  }

  /** For instance, "E mail" and "e-mail" both name `match_e_mail`. */
  lemma CollidingKeywordsRaise(df: Frame)
    ensures KeywordMatches(df, ["E mail", "e-mail"]).Failure?
  {
    var a, b := "E mail", "e-mail";
    assert forall i :: 0 <= i < |a| ==> NameChar(a[i]) == NameChar(b[i]);
    SameColumnName(a, b);
    CollidingNamesRaise(df, [a, b], 0, 1);
  }

  // ---------------------------------------------------------------------------------------------
  // Filtering: filter_keyword_matches
  // ---------------------------------------------------------------------------------------------

  /** `pl.any_horizontal(pl.col(names))` is true on `row`. */
  predicate AnyMatch(row: Row, names: seq<string>) {
    exists j :: 0 <= j < |names| && names[j] in row && row[names[j]] == Flag(true)
  }

  /** `filter` on `AnyMatch`: the rows where it holds, in order. */
  function KeepMatching(rows: seq<Row>, names: seq<string>): seq<Row>
    decreases |rows|
  {
    if rows == [] then []
    else
      var r := rows[|rows| - 1];
      KeepMatching(rows[..|rows| - 1], names) + if AnyMatch(r, names) then [r] else []
  }

  /** What `filter_keyword_matches` returns (or raises) for `df` and `kws`. */
  function FilterKeywordMatches(df: Frame, kws: seq<string>): Result<Frame, FrameError> {
    if kws == [] || df.rows == [] then Success(df)
    else
      var names := MatchColumns(kws);
      if exists k :: 0 <= k < |names| && names[k] !in df.columns then Failure(ColumnNotFound)
      else Success(Frame(df.columns, KeepMatching(df.rows, names)))
  }

  /** The kept rows are rows of the input with a true match column, and every such row is kept. */
  lemma {:induction false} KeepMatchingSpec(rows: seq<Row>, names: seq<string>)
    ensures var out := KeepMatching(rows, names);
      |out| <= |rows| && multiset(out) <= multiset(rows)
      && (forall r :: r in out ==> AnyMatch(r, names))
      && (forall i :: 0 <= i < |rows| && AnyMatch(rows[i], names) ==> rows[i] in out)
    decreases |rows|
  {
    if rows != [] {
      var init := rows[..|rows| - 1];
      KeepMatchingSpec(init, names);
      assert rows == init + [rows[|rows| - 1]];
      assert multiset(rows) == multiset(init) + multiset{rows[|rows| - 1]};
      forall i | 0 <= i < |rows| - 1 && AnyMatch(rows[i], names)
        ensures rows[i] in KeepMatching(rows, names)
      {
        assert rows[i] == init[i];
      }
    }
  }

  /** Filtering keeps the input order: the rows kept from `a + b` are those kept from `a`, then from `b`. */
  lemma {:induction false} KeepMatchingConcat(a: seq<Row>, b: seq<Row>, names: seq<string>)
    ensures KeepMatching(a + b, names) == KeepMatching(a, names) + KeepMatching(b, names)
    decreases |b|
  {
    if b == [] {
      assert a + b == a;
    } else {
      var b' := b[..|b| - 1];
      assert (a + b)[..|a + b| - 1] == a + b';
      assert (a + b)[|a + b| - 1] == b[|b| - 1];
      KeepMatchingConcat(a, b', names);
    }
  }

  /**
   * `filter_keyword_matches` leaves the frame alone for no keywords or no rows, raises exactly
   * when some keyword's column is missing, and otherwise keeps the columns and a sub-multiset of
   * the rows: exactly those with a true keyword column.
   */
  lemma FilterKeywordMatchesSpec(df: Frame, kws: seq<string>)
    requires WellFormed(df)
    ensures kws == [] || df.rows == [] ==> FilterKeywordMatches(df, kws) == Success(df)
    ensures FilterKeywordMatches(df, kws).Failure? <==>
      kws != [] && df.rows != [] && exists k :: 0 <= k < |kws| && ColumnName(kws[k]) !in df.columns
    ensures var res := FilterKeywordMatches(df, kws);
      res.Success? ==>
        WellFormed(res.value) && res.value.columns == df.columns
        && |res.value.rows| <= |df.rows| && multiset(res.value.rows) <= multiset(df.rows)
    ensures var res := FilterKeywordMatches(df, kws);
      res.Success? && kws != [] ==>
        (forall r :: r in res.value.rows ==> AnyMatch(r, MatchColumns(kws)))
        && (forall i :: 0 <= i < |df.rows| && AnyMatch(df.rows[i], MatchColumns(kws)) ==> df.rows[i] in res.value.rows)
  {
    var names := MatchColumns(kws);
    KeepMatchingSpec(df.rows, names);
    if FilterKeywordMatches(df, kws).Success? && kws != [] && df.rows != [] {
      var out := KeepMatching(df.rows, names);
      forall i | 0 <= i < |out|
        ensures out[i].Keys == set c | c in df.columns
      {
        assert out[i] in multiset(df.rows);
      }
    }
  }

  /** The row's text mentions one of the keywords, ignoring case. */
  predicate Mentions(text: Cell, kws: seq<string>) {
    text.Str? && exists k :: 0 <= k < |kws| && MatchesIgnoringCase(text.s, kws[k])
  }

  /** A tagged row has a true keyword column exactly when its text mentions a keyword, ignoring case. */
  lemma TaggedRowMatches(df: Frame, kws: seq<string>, i: int)
    requires Distinct(MatchColumns(kws)) && 0 <= i < |df.rows|
    ensures AnyMatch(Tagged(df, kws).rows[i], MatchColumns(kws)) <==> Mentions(TextOf(df.rows[i]), kws)
  {
    var row := Tagged(df, kws).rows[i];
    var names := MatchColumns(kws);
    TaggedRows(df, kws, i);
    if Mentions(TextOf(df.rows[i]), kws) {
      var k :| 0 <= k < |kws| && MatchesIgnoringCase(TextOf(df.rows[i]).s, kws[k]);
      assert names[k] in row && row[names[k]] == Flag(true);
    }
  }

  /**
   * Filtering a tagged frame on the same keywords does not raise, keeps its columns, and keeps
   * the tagged rows with a true keyword column, in order.
   */
  lemma FilterAfterMatch(df: Frame, kws: seq<string>)
    requires WellFormed(df) && Distinct(MatchColumns(kws)) && kws != []
    ensures var tagged := Tagged(df, kws);
      FilterKeywordMatches(tagged, kws) == Success(Frame(tagged.columns, KeepMatching(tagged.rows, MatchColumns(kws))))
  {
    TaggedSpec(df, kws);
    var tagged := Tagged(df, kws);
    var names := MatchColumns(kws);
    assert forall k :: 0 <= k < |names| ==> names[k] in tagged.columns;
  }

  // ---------------------------------------------------------------------------------------------
  // clean_text_batch and the frame of the records
  // ---------------------------------------------------------------------------------------------

  /** `clean_text_batch`: `df.with_columns(pl.col("text"))` with every transformation disabled. */
  function CleanTextBatch(df: Frame): Result<Frame, FrameError> {
    if TextColumn in df.columns then Success(df) else Failure(ColumnNotFound)
  }

  /** The row `pl.DataFrame` makes of a record: one cell per schema column. */
  function RowOf(d: Record): Row {
    map[
      "url" := Str(d.url), "celex" := Str(d.celex), "eli" := Str(d.eli), "title" := Str(d.title),
      "date" := Str(d.date), "lang" := Str(d.lang), "institutions" := Strs(d.institutions),
      "work_types" := Strs(d.workTypes), "procedure_ids" := Strs(d.procedureIds),
      "directory_codes" := Strs(d.directoryCodes), "formats" := Strs(d.formats),
      "eurovoc_concepts" := Strs(d.eurovocConcepts),
      "eurovoc_concepts_ids" := Strs(d.eurovocConceptsIds),
      "text" := match d.text case Some(t) => Str(t) case None => Null]
  }

  /** The rows of the records, in order. */
  function RowsOf(docs: seq<Record>): (rows: seq<Row>)
    ensures |rows| == |docs| && forall i :: 0 <= i < |docs| ==> rows[i] == RowOf(docs[i])
    decreases |docs|
  {
    if docs == [] then [] else RowsOf(docs[..|docs| - 1]) + [RowOf(docs[|docs| - 1])]
  }

  /** `pl.DataFrame(docs)` for a non-empty list of records. */
  function FrameOf(docs: seq<Record>): Frame {
    Frame(SchemaColumns, RowsOf(docs))
  }

  /** The schema's column names are distinct. */
  lemma SchemaColumnsDistinct()
    ensures Distinct(SchemaColumns)
  {
  }

  /** The row of a record has exactly the schema's columns, and its `text` cell is the record's text. */
  lemma RowOfSpec(d: Record)
    ensures RowOf(d).Keys == set c | c in SchemaColumns
    ensures TextOf(RowOf(d)) == match d.text case Some(t) => Str(t) case None => Null
  {
    assert TextColumn == "text";
  }

  /**
   * The frame of the records has the schema's columns, one row per record with its text, and
   * `clean_text_batch` returns it unchanged.
   */
  lemma FrameOfSpec(docs: seq<Record>)
    ensures var df := FrameOf(docs);
      WellFormed(df) && df.columns == SchemaColumns && |df.rows| == |docs|
      && (forall i :: 0 <= i < |docs| ==> TextOf(df.rows[i]) == match docs[i].text case Some(t) => Str(t) case None => Null)
      && TextIsString(df)
      && CleanTextBatch(df) == Success(df)
  {
    SchemaColumnsDistinct();
    forall i | 0 <= i < |docs| {
      RowOfSpec(docs[i]);
    }
    assert SchemaColumns[13] == TextColumn;
  }
}
