/**
 * Record assembly from SPARQL result bindings (`get_docs`) and body retrieval over the assembled
 * records (`get_docs_text`).
 */
module Core {
  import opened Wrappers
  import opened Text
  import opened Config
  import Fetcher
  import Parsers

  /** One SPARQL result binding: field name to its JSON object (`{"type": ..., "value": ...}`). */
  type Binding = map<string, map<string, string>>

  /** The separator of multi-valued fields. */
  const Delimiter: string := "|||"

  /** `r[field]['value']`; `None` where Python raises `KeyError`. */
  function Value(r: Binding, field: string): Option<string> {
    if field in r && "value" in r[field] then Some(r[field]["value"]) else None
  }

  /** `r.get(field, {}).get('value', '')`. */
  function ValueOrEmpty(r: Binding, field: string): string {
    Value(r, field).GetOr("")
  }

  /** `[t.strip() for t in parts if t.strip()]`. */
  function NonBlank(parts: seq<string>): seq<string>
    decreases |parts|
  {
    if parts == [] then []
    else (if Strip(parts[0]) == [] then [] else [Strip(parts[0])]) + NonBlank(parts[1..])
  }

  /** `[t.strip() for t in parts]`. */
  function StripEach(parts: seq<string>): (r: seq<string>)
    ensures |r| == |parts|
    decreases |parts|
  {
    if parts == [] then [] else [Strip(parts[0])] + StripEach(parts[1..])
  }

  /** The trimmed, non-empty values of a multi-valued field. */
  function Values(s: string): seq<string> {
    NonBlank(Split(s, Delimiter))
  }

  /** The taxonomy terms of a binding: its `subjects` values, with U+00A0 read as a space. */
  function Terms(r: Binding): seq<string> {
    Values(ReplaceChar(ValueOrEmpty(r, "subjects"), '\U{A0}', ' '))
  }

  /** The keys `get_docs` reads with `r[...]`, which raise `KeyError` when absent. */
  predicate HasRequired(r: Binding) {
    Value(r, "cellarURIs").Some? && Value(r, "title").Some? && Value(r, "date").Some?
    && Value(r, "langIdentifier").Some? && Value(r, "mtypes").Some?
  }

  /** The record `get_docs` builds from a binding, its terms and their identifiers. */
  function MakeRecord(r: Binding, terms: seq<string>, ids: seq<string>): Record
    requires HasRequired(r)
  {
    Record(
      url := FirstSegment(Value(r, "cellarURIs").value, Delimiter),
      celex := FirstSegment(ValueOrEmpty(r, "celexIds"), Delimiter),
      eli := FirstSegment(ValueOrEmpty(r, "eliIds"), Delimiter),
      title := FirstSegment(Value(r, "title").value, Delimiter),
      date := Value(r, "date").value,
      lang := Lower(Value(r, "langIdentifier").value),
      institutions := Values(ValueOrEmpty(r, "authors")),
      workTypes := Values(ValueOrEmpty(r, "workTypes")),
      procedureIds := Values(ValueOrEmpty(r, "procedureIds")),
      directoryCodes := Values(ValueOrEmpty(r, "directoryCodes")),
      formats := StripEach(Split(Value(r, "mtypes").value, Delimiter)),
      eurovocConcepts := terms,
      eurovocConceptsIds := ids,
      text := None)
  }

  /**
   * What one pass of the loop in `get_docs` does with a binding: skip it, yield a record, or
   * raise `KeyError`, which leaves the loop.
   */
  datatype RowOutcome = Skip | Emit(doc: Record) | Abort

  function Flatten(r: Binding, table: Fetcher.TermTable): RowOutcome {
    var terms := Terms(r);
    if terms == [] then Skip
    else
      var ids := Fetcher.Resolve(table, terms);
      if ids == [] then Skip
      else if !HasRequired(r) then Abort
      else Emit(MakeRecord(r, terms, ids))
  }

  /** Whether a binding makes the loop in `get_docs` raise. */
  function Raises(table: Fetcher.TermTable): Binding -> bool {
    r => Flatten(r, table).Abort?
  }

  /** The index of the first element from `i` on that satisfies `p`, or `|xs|` when none does. */
  function FirstWhere<T>(xs: seq<T>, p: T -> bool, i: nat): (k: nat)
    requires i <= |xs|
    ensures i <= k <= |xs|
    decreases |xs| - i
  {
    if i == |xs| then i
    else if p(xs[i]) then i
    else FirstWhere(xs, p, i + 1)
  }

  /** No element before `FirstWhere` satisfies `p`, and the one at `FirstWhere`, if any, does. */
  lemma {:induction false} FirstWhereSpec<T>(xs: seq<T>, p: T -> bool, from: nat, i: int)
    requires from <= |xs|
    ensures from <= i < FirstWhere(xs, p, from) ==> !p(xs[i])
    ensures FirstWhere(xs, p, from) < |xs| ==> p(xs[FirstWhere(xs, p, from)])
    decreases |xs| - from
  {
    if from < |xs| && !p(xs[from]) {
      FirstWhereSpec(xs, p, from + 1, i);
    }
  }

  /** The index of the first binding from `i` on that raises, or `|rows|` when none does. */
  function StopIndex(rows: seq<Binding>, table: Fetcher.TermTable, i: nat := 0): (k: nat)
    requires i <= |rows|
    ensures i <= k <= |rows|
  {
    FirstWhere(rows, Raises(table), i)
  }

  /** No binding before `StopIndex` raises, and the one at `StopIndex`, if any, does. */
  lemma StopIndexSpec(rows: seq<Binding>, table: Fetcher.TermTable, from: nat, i: int)
    requires from <= |rows|
    ensures from <= i < StopIndex(rows, table, from) ==> !Flatten(rows[i], table).Abort?
    ensures StopIndex(rows, table, from) < |rows| ==> Flatten(rows[StopIndex(rows, table, from)], table).Abort?
  {
    FirstWhereSpec(rows, Raises(table), from, i);
  }

  /** The records the bindings `rows` yield, in order, ignoring any that raise. */
  function Emitted(rows: seq<Binding>, table: Fetcher.TermTable): seq<Record>
    decreases |rows|
  {
    if rows == [] then []
    else
      Emitted(rows[..|rows| - 1], table)
      + match Flatten(rows[|rows| - 1], table) case Emit(d) => [d] case _ => []
  }

  /**
   * The records `get_docs` yields for a query response (`None` when the request, the JSON
   * decoding or the lookup of `results.bindings` raises): those of the bindings before the first
   * one that raises.
   */
  function Docs(response: Option<seq<Binding>>, table: Fetcher.TermTable): seq<Record> {
    match response
    case None => []
    case Some(rows) => Emitted(rows[..StopIndex(rows, table)], table)
  }

  /** `get_docs`, with the query response and the term table as inputs. */
  method GetDocs(response: Option<seq<Binding>>, table: Fetcher.TermTable) returns (docs: seq<Record>)
    ensures docs == Docs(response, table)
  {
    docs := [];
    if response.None? {
      return;
    }
    var rows := response.value;
    var i := 0;
    while i < |rows|
      invariant 0 <= i <= |rows|
      invariant StopIndex(rows, table) == StopIndex(rows, table, i)
      invariant docs == Emitted(rows[..i], table)
    {
      var outcome := FlattenRow(rows[i], table);
      EmittedSnoc(rows, i, table);
      if outcome.Abort? {
        break;
      } else if outcome.Emit? {
        docs := docs + [outcome.doc];
      }
      i := i + 1;
    }
  }

  /** One pass of the loop in `get_docs`, with the identifiers looked up by `ConceptIds`. */
  method FlattenRow(r: Binding, table: Fetcher.TermTable) returns (outcome: RowOutcome)
    ensures outcome == Flatten(r, table)
  {
    var terms := Terms(r);
    if terms == [] {
      return Skip;
    }
    var ids := Fetcher.ConceptIds(table, terms);
    if ids == [] {
      return Skip;
    }
    if !HasRequired(r) {
      return Abort;
    }
    return Emit(MakeRecord(r, terms, ids));
  }

  /** One more binding adds its record, if it yields one. */
  lemma EmittedSnoc(rows: seq<Binding>, i: int, table: Fetcher.TermTable)
    requires 0 <= i < |rows|
    ensures Emitted(rows[..i + 1], table)
      == Emitted(rows[..i], table) + match Flatten(rows[i], table) case Emit(d) => [d] case _ => []
  {
    assert rows[..i + 1][..i] == rows[..i];
  }

  /** What every yielded record satisfies. */
  predicate WellFormed(d: Record) {
    d.eurovocConcepts != [] && d.eurovocConceptsIds != [] && d.text.None?
  }

  /** Every record `get_docs` yields has at least one term and one resolved identifier. */
  lemma {:induction false} EmittedWellFormed(rows: seq<Binding>, table: Fetcher.TermTable)
    ensures forall d :: d in Emitted(rows, table) ==> WellFormed(d)
    decreases |rows|
  {
    if rows != [] {
      EmittedWellFormed(rows[..|rows| - 1], table);
    }
  }

  /** Assembly preserves the order of the bindings. */
  lemma {:induction false} EmittedConcat(a: seq<Binding>, b: seq<Binding>, table: Fetcher.TermTable)
    ensures Emitted(a + b, table) == Emitted(a, table) + Emitted(b, table)
    decreases |b|
  {
    if b == [] {
      assert a + b == a;
    } else {
      var b' := b[..|b| - 1];
      assert (a + b)[..|a + b| - 1] == a + b';
      assert (a + b)[|a + b| - 1] == b[|b| - 1];
      EmittedConcat(a, b', table);
    }
  }

  /** Every record of `Emitted(rows, table)` is the record of one of the bindings in `rows`. */
  lemma {:induction false} EmittedFromRows(rows: seq<Binding>, table: Fetcher.TermTable, d: Record)
    requires d in Emitted(rows, table)
    ensures exists i :: 0 <= i < |rows| && Flatten(rows[i], table) == Emit(d)
    decreases |rows|
  {
    var init := rows[..|rows| - 1];
    if d in Emitted(init, table) {
      EmittedFromRows(init, table, d);
      var i :| 0 <= i < |init| && Flatten(init[i], table) == Emit(d);
      assert rows[i] == init[i];
    } else {
      assert Flatten(rows[|rows| - 1], table) == Emit(d);
    }
  }

  /**
   * A binding that raises (its terms resolve to some identifier but it misses a required key)
   * ends the output: the records are those of the bindings before it, and nothing after it is
   * read.
   */
  lemma StopsAtMissingKey(good: seq<Binding>, bad: Binding, rest: seq<Binding>, table: Fetcher.TermTable)
    requires forall i :: 0 <= i < |good| ==> !Flatten(good[i], table).Abort?
    requires Flatten(bad, table).Abort?
    ensures Docs(Some(good + [bad] + rest), table) == Emitted(good, table)
  {
    var rows := good + [bad] + rest;
    var k := StopIndex(rows, table);
    assert rows[|good|] == bad;
    StopIndexSpec(rows, table, 0, |good|);
    assert forall i :: 0 <= i < |good| ==> rows[i] == good[i];
    assert k == |good|;
    assert rows[..k] == good;
  }

  /** A binding without `subjects` yields no record. */
  lemma AbsentSubjectsSkip(r: Binding, table: Fetcher.TermTable)
    requires Value(r, "subjects").None?
    ensures Flatten(r, table) == Skip
  {
    ValuesOfEmpty();
    assert ReplaceChar("", '\U{A0}', ' ') == "";
  }

  /** A binding without usable terms, or whose terms resolve to nothing, yields no record. */
  lemma SkipsUnresolved(r: Binding, table: Fetcher.TermTable)
    requires Terms(r) == [] || Fetcher.Resolve(table, Terms(r)) == []
    ensures Flatten(r, table) == Skip
  {
  }

  /**
   * The kept segments are trimmed and non-empty, every segment that is not blank is kept in its
   * stripped form, and none is kept exactly when every segment is blank.
   */
  lemma {:induction false} NonBlankSpec(parts: seq<string>)
    ensures forall t :: t in NonBlank(parts) ==> t != [] && Strip(t) == t
    ensures forall k :: 0 <= k < |parts| && !AllSpace(parts[k]) ==> Strip(parts[k]) in NonBlank(parts)
    ensures NonBlank(parts) == [] <==> forall k :: 0 <= k < |parts| ==> AllSpace(parts[k])
    ensures |NonBlank(parts)| <= |parts|
    decreases |parts|
  {
    if parts != [] {
      NonBlankSpec(parts[1..]);
      StripIdempotent(parts[0]);
      BlankIffAllSpace(parts[0]);
      assert forall k :: 1 <= k < |parts| ==> parts[k] == parts[1..][k - 1];
    }
  }

  /** One segment gives its stripped form, or nothing when it is blank. */
  lemma NonBlankSingle(p: string)
    ensures NonBlank([p]) == if AllSpace(p) then [] else [Strip(p)]
  {
    BlankIffAllSpace(p);
    assert [p][1..] == [];
  }

  /** The kept segments keep the order of the segments: `a + b` gives those of `a`, then those of `b`. */
  lemma {:induction false} NonBlankConcat(a: seq<string>, b: seq<string>)
    ensures NonBlank(a + b) == NonBlank(a) + NonBlank(b)
    decreases |a|
  {
    if a == [] {
      assert a + b == b;
    } else {
      assert (a + b)[0] == a[0];
      assert (a + b)[1..] == a[1..] + b;
      NonBlankConcat(a[1..], b);
    }
  }

  /** No value of a multi-valued field contains the separator. */
  lemma {:induction false} NonBlankNoSeparator(parts: seq<string>)
    requires forall k :: 0 <= k < |parts| ==> !Contains(parts[k], Delimiter)
    ensures forall t :: t in NonBlank(parts) ==> !Contains(t, Delimiter)
    decreases |parts|
  {
    if parts != [] {
      StripNoSeparator(parts[0]);
      NonBlankNoSeparator(parts[1..]);
    }
  }

  lemma StripNoSeparator(s: string)
    requires !Contains(s, Delimiter)
    ensures !Contains(Strip(s), Delimiter)
  {
    StripSpec(s);
    var i := |s| - |TrimStart(s)|;
    if Contains(Strip(s), Delimiter) {
      assert Strip(s) == s[i..i + |Strip(s)|];
      ContainsSlice(s, i, i + |Strip(s)|, Delimiter);
    }
  }

  /** Values that are trimmed, non-empty and free of the separator. */
  predicate CleanValues(vs: seq<string>) {
    forall t :: t in vs ==> t != [] && Strip(t) == t && !Contains(t, Delimiter)
  }

  /**
   * The values of a field: trimmed, non-empty, without the separator, one for every segment that
   * is not blank, and none for blank input.
   */
  lemma ValuesSpec(s: string)
    ensures CleanValues(Values(s))
    ensures var parts := Split(s, Delimiter);
      forall k :: 0 <= k < |parts| && !AllSpace(parts[k]) ==> Strip(parts[k]) in Values(s)
    ensures Values(s) == [] <==> forall k :: 0 <= k < |Split(s, Delimiter)| ==> AllSpace(Split(s, Delimiter)[k])
  {
    SplitSpec(s, Delimiter);
    NonBlankSpec(Split(s, Delimiter));
    NonBlankNoSeparator(Split(s, Delimiter));
  }

  /**
   * The values keep the order of the segments: those of the first segment come before those of
   * the text after the first separator.
   */
  lemma ValuesInOrder(s: string)
    requires Contains(s, Delimiter)
    ensures var p := FirstSegment(s, Delimiter);
      |p| + |Delimiter| <= |s| && Values(s) == NonBlank([p]) + Values(s[|p| + |Delimiter|..])
  {
    SplitSpec(s, Delimiter);
    var parts := Split(s, Delimiter);
    assert parts == [parts[0]] + parts[1..];
    NonBlankConcat([parts[0]], parts[1..]);
  }

  /** The first segment ends at the leftmost separator, even where separators overlap. */
  lemma FirstSegmentOfOverlap()
    ensures FirstSegment("||||", Delimiter) == ""
  {
    var s := "||||";
    FirstSegmentSpec(s, Delimiter);
    assert OccursAt(s, Delimiter, 0);
  }

  /** An absent field gives no values. */
  lemma ValuesOfEmpty()
    ensures Values("") == []
  {
    assert IndexOf("", Delimiter) == None;
    assert Split("", Delimiter) == [""];
    assert Strip("") == "";
    assert [""][1..] == [];
    assert NonBlank([""]) == [];
  }

  /** Every format is stripped, and there is one per `|||` segment, empty ones included. */
  lemma {:induction false} StripEachSpec(parts: seq<string>)
    ensures forall k :: 0 <= k < |parts| ==> StripEach(parts)[k] == Strip(parts[k]) && Strip(StripEach(parts)[k]) == StripEach(parts)[k]
    decreases |parts|
  {
    if parts != [] {
      StripEachSpec(parts[1..]);
      StripIdempotent(parts[0]);
    }
  }

  /**
   * The fields of a yielded record: its terms are the non-blank `subjects` values and resolve to
   * its identifiers; url, celex, eli and title are the first `|||` segment of their field (empty
   * for an absent celex or eli); the language is lower-cased; each list field holds the values of
   * its binding field (see `ValuesSpec` and `ValuesInOrder`), none when the field is absent; the
   * formats are every segment of `mtypes`, trimmed; and there is no text yet.
   */
  lemma EmittedRecordSpec(r: Binding, table: Fetcher.TermTable)
    requires Flatten(r, table).Emit?
    ensures var d := Flatten(r, table).doc;
      d.eurovocConcepts == Terms(r) && d.eurovocConcepts != []
      && d.eurovocConceptsIds == Fetcher.Resolve(table, Terms(r)) && d.eurovocConceptsIds != []
      && Fetcher.NoDuplicates(d.eurovocConceptsIds)
      && CleanValues(d.eurovocConcepts)
      && d.url == FirstSegment(Value(r, "cellarURIs").value, Delimiter)
      && d.title == FirstSegment(Value(r, "title").value, Delimiter)
      && d.celex == (if Value(r, "celexIds").None? then "" else FirstSegment(Value(r, "celexIds").value, Delimiter))
      && d.eli == (if Value(r, "eliIds").None? then "" else FirstSegment(Value(r, "eliIds").value, Delimiter))
      && d.date == Value(r, "date").value
      && d.lang == Lower(Value(r, "langIdentifier").value)
      && d.institutions == Values(ValueOrEmpty(r, "authors"))
      && CleanValues(d.institutions) && (Value(r, "authors").None? ==> d.institutions == [])
      && d.workTypes == Values(ValueOrEmpty(r, "workTypes"))
      && CleanValues(d.workTypes) && (Value(r, "workTypes").None? ==> d.workTypes == [])
      && d.procedureIds == Values(ValueOrEmpty(r, "procedureIds"))
      && CleanValues(d.procedureIds) && (Value(r, "procedureIds").None? ==> d.procedureIds == [])
      && d.directoryCodes == Values(ValueOrEmpty(r, "directoryCodes"))
      && CleanValues(d.directoryCodes) && (Value(r, "directoryCodes").None? ==> d.directoryCodes == [])
      && (var parts := Split(Value(r, "mtypes").value, Delimiter);
          |d.formats| == |parts| && forall k :: 0 <= k < |parts| ==> d.formats[k] == Strip(parts[k]))
      && d.text.None?
  {
    ValuesSpec(ReplaceChar(ValueOrEmpty(r, "subjects"), '\U{A0}', ' '));
    ValuesSpec(ValueOrEmpty(r, "authors"));
    ValuesSpec(ValueOrEmpty(r, "workTypes"));
    ValuesSpec(ValueOrEmpty(r, "procedureIds"));
    ValuesSpec(ValueOrEmpty(r, "directoryCodes"));
    StripEachSpec(Split(Value(r, "mtypes").value, Delimiter));
    Fetcher.ResolveNoDuplicates(table, Terms(r));
    ValuesOfEmpty();
    assert IndexOf("", Delimiter) == None;
    assert Split("", Delimiter) == [""];
    assert Strip("") == "";
    assert [""][1..] == [];
    assert NonBlank([""]) == [];
  }

  /** `[r for r in results if r is not None]` over `results = map(body, docs)`, in input order. */
  function Successes(body: Record -> Option<Record>, docs: seq<Record>): seq<Record>
    decreases |docs|
  {
    if docs == [] then []
    else
      Successes(body, docs[..|docs| - 1])
      + match body(docs[|docs| - 1]) case Some(d) => [d] case None => []
  }

  /** The records with text that `get_docs_text` yields for `docs`: the successes, in order. */
  function Enriched(backend: Parsers.Backend, docs: seq<Record>): seq<Record> {
    Successes(d => Parsers.GetBody(backend, d), docs)
  }

  /**
   * `get_docs_text`: the records of `get_docs`, each passed to `get_body`, keeping the results
   * that are not `None` in input order (the order `executor.map` returns them in).
   */
  method GetDocsText(backend: Parsers.Backend, response: Option<seq<Binding>>, table: Fetcher.TermTable)
    returns (texts: seq<Record>)
    ensures texts == Enriched(backend, Docs(response, table))
  {
    var docs := GetDocs(response, table);
    texts := [];
    if docs == [] {
      return;
    }
    for i := 0 to |docs|
      invariant texts == Enriched(backend, docs[..i])
    {
      EnrichedSnoc(backend, docs, i);
      var doc := Parsers.GetBody(backend, docs[i]);
      if doc.Some? {
        texts := texts + [doc.value];
      }
    }
    assert docs[..|docs|] == docs;
  }

  /** One more record adds its result, if `get_body` gives one. */
  lemma EnrichedSnoc(backend: Parsers.Backend, docs: seq<Record>, i: int)
    requires 0 <= i < |docs|
    ensures Enriched(backend, docs[..i + 1])
      == Enriched(backend, docs[..i]) + match Parsers.GetBody(backend, docs[i]) case Some(d) => [d] case None => []
  {
    assert docs[..i + 1][..i] == docs[..i];
  }

  /**
   * Each record with text is one of the input records with non-blank `text` set and every other
   * field unchanged; there are no more of them than inputs.
   */
  lemma {:induction false} EnrichedSpec(backend: Parsers.Backend, docs: seq<Record>)
    ensures |Enriched(backend, docs)| <= |docs|
    ensures forall t :: t in Enriched(backend, docs) ==>
      t.text.Some? && !AllSpace(t.text.value) && exists k :: 0 <= k < |docs| && t == docs[k].(text := t.text)
    decreases |docs|
  {
    if docs != [] {
      var init := docs[..|docs| - 1];
      EnrichedSpec(backend, init);
      assert Enriched(backend, docs) == Enriched(backend, init)
        + match Parsers.GetBody(backend, docs[|docs| - 1]) case Some(d) => [d] case None => [];
      forall t | t in Enriched(backend, docs)
        ensures exists k :: 0 <= k < |docs| && t == docs[k].(text := t.text)
      {
        if t in Enriched(backend, init) {
          var k :| 0 <= k < |init| && t == init[k].(text := t.text);
          assert docs[k] == init[k];
        } else {
          assert t == docs[|docs| - 1].(text := t.text);
        }
      }
    }
  }

  /** Body retrieval preserves order: the output for `a + b` is that for `a`, then that for `b`. */
  lemma {:induction false} SuccessesConcat(body: Record -> Option<Record>, a: seq<Record>, b: seq<Record>)
    ensures Successes(body, a + b) == Successes(body, a) + Successes(body, b)
    decreases |b|
  {
    if b == [] {
      assert a + b == a;
    } else {
      var b' := b[..|b| - 1];
      assert (a + b)[..|a + b| - 1] == a + b';
      assert (a + b)[|a + b| - 1] == b[|b| - 1];
      SuccessesConcat(body, a, b');
    }
  }

  /** A document whose body cannot be retrieved is dropped without affecting the others. */
  lemma FailureIsolated(backend: Parsers.Backend, a: seq<Record>, d: Record, b: seq<Record>)
    requires Parsers.GetBody(backend, d).None?
    ensures Enriched(backend, a + [d] + b) == Enriched(backend, a) + Enriched(backend, b)
  {
    var ad := a + [d];
    SuccessesConcat(d => Parsers.GetBody(backend, d), ad, b);
    assert ad[..|ad| - 1] == a;
    assert Enriched(backend, ad) == Enriched(backend, a);
  }
}
