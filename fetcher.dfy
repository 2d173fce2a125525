/**
 * Resolution of EuroVoc taxonomy terms to concept identifiers, and the date window of the
 * metadata query.
 */
module Fetcher {
  import opened Wrappers
  import opened Text
  import Calendar

  /**
   * One `xs:enumeration` entry of the vocabulary document. A field is `None` when the entry lacks
   * the corresponding key (`xs:annotation`/`xs:documentation`, or `value`).
   */
  datatype Entry = Entry(documentation: Option<string>, value: Option<string>)

  /** The parsed vocabulary document: `None` when the path to the enumeration is missing. */
  type Vocabulary = Option<seq<Entry>>

  /** Lower-cased term label to concept identifier. */
  type TermTable = map<string, string>

  /** The normal form used on both sides of a lookup: trimmed, then lower-cased. */
  function Clean(s: string): string {
    Lower(Strip(s))
  }

  /**
   * The (key, identifier) pair an entry contributes, or `None` when reading it raises
   * `KeyError` (a missing key) or `IndexError` (a `value` attribute without `:`).
   */
  function ParseEntry(e: Entry): Option<(string, string)>
  {
    match (e.documentation, e.value)
    case (Some(doc), Some(v)) =>
      var parts := Split(v, ":");
      if |parts| < 2 then None else Some((Clean(Split(doc, "/")[0]), parts[1]))
    case _ => None
  }

  /**
   * An entry is skipped exactly when a key is missing or the `value` attribute has no `:`. Otherwise its key
   * is the cleaned text before the first `/` of the documentation, and its identifier is the text
   * between the first `:` of the `value` attribute and the next `:` or the end.
   */
  lemma ParseEntrySpec(e: Entry)
    ensures ParseEntry(e).None? <==> e.documentation.None? || e.value.None? || !Contains(e.value.value, ":")
    ensures ParseEntry(e).Some? ==> ParseEntry(e).value.0 == Clean(FirstSegment(e.documentation.value, "/"))
    ensures ParseEntry(e).Some? ==>
      var v, id := e.value.value, ParseEntry(e).value.1;
      var p := FirstSegment(v, ":");
      !Contains(id, ":") && !Contains(p, ":") && |p| + 1 + |id| <= |v| && v[..|p| + 1 + |id|] == p + ":" + id
      && (|v| == |p| + 1 + |id| || v[|p| + 1 + |id|] == ':')
  {
    if e.value.Some? {
      SplitSpec(e.value.value, ":");
    }
    if ParseEntry(e).Some? {
      Identifier(e.value.value);
    }
  }

  lemma Identifier(v: string)
    requires |Split(v, ":")| >= 2
    ensures var parts := Split(v, ":"); var p, id := parts[0], parts[1];
      |p| + 1 + |id| <= |v| && v[..|p| + 1 + |id|] == p + ":" + id
      && (|v| == |p| + 1 + |id| || v[|p| + 1 + |id|] == ':')
  {
    SplitSpec(v, ":");
    var parts := Split(v, ":");
    var p, id := parts[0], parts[1];
    assert v == p + ":" + Join(parts[1..], ":");
    var tail := Join(parts[1..], ":");
    if |parts| == 2 {
      assert tail == id;
    } else {
      assert tail == id + ":" + Join(parts[2..], ":");
    }
    assert v[..|p| + 1 + |id|] == p + ":" + id;
  }

  /** The table the loop has built after the entries `es`: the reference definition. */
  function TableOf(es: seq<Entry>): TermTable
    decreases |es|
  {
    if es == [] then map[]
    else
      var t := TableOf(es[..|es| - 1]);
      match ParseEntry(es[|es| - 1])
      case None => t
      case Some((k, id)) => t[k := id]
  }

  /** The table `get_eurovoc_terms_and_id` returns for a parsed vocabulary document. */
  function TermTableOf(vocabulary: Vocabulary): TermTable {
    match vocabulary
    case None => map[]
    case Some(es) => TableOf(es)
  }

  /** The table-building loop of `get_eurovoc_terms_and_id`, over the parsed entries. */
  method BuildTermTable(vocabulary: Vocabulary) returns (table: TermTable)
    ensures table == TermTableOf(vocabulary)
  {
    table := map[];
    if vocabulary.None? {
      return;
    }
    var nodes := vocabulary.value;
    for i := 0 to |nodes|
      invariant table == TableOf(nodes[..i])
    {
      assert nodes[..i + 1][..i] == nodes[..i];
      var parsed := ParseEntry(nodes[i]);
      if parsed.Some? {
        var (name, id) := parsed.value;
        table := table[name := id];
      }
    }
    assert nodes[..|nodes|] == nodes;
  }

  /** Entry `j` contributes the key `k`. */
  predicate HasKey(es: seq<Entry>, j: int, k: string) {
    0 <= j < |es| && ParseEntry(es[j]).Some? && ParseEntry(es[j]).value.0 == k
  }

  /** The keys of the table are exactly the keys of the well-formed entries. */
  lemma {:induction false} TableKeys(es: seq<Entry>, k: string)
    ensures k in TableOf(es) <==> exists j :: HasKey(es, j, k)
    decreases |es|
  {
    if es != [] {
      var init := es[..|es| - 1];
      TableKeys(init, k);
      var last := ParseEntry(es[|es| - 1]);
      if last.Some? && last.value.0 == k {
        assert HasKey(es, |es| - 1, k);
      }
      if exists j :: HasKey(init, j, k) {
        var j :| HasKey(init, j, k);
        assert HasKey(es, j, k);
      }
      if exists j :: HasKey(es, j, k) {
        var j :| HasKey(es, j, k);
        if j < |es| - 1 {
          assert HasKey(init, j, k);
        }
      }
    }
  }

  /** Among entries with the same key, the last one decides the identifier. */
  lemma {:induction false} TableLastWins(es: seq<Entry>, j: int)
    requires 0 <= j < |es| && ParseEntry(es[j]).Some?
    requires forall i :: j < i < |es| ==> !HasKey(es, i, ParseEntry(es[j]).value.0)
    ensures var (k, id) := ParseEntry(es[j]).value; k in TableOf(es) && TableOf(es)[k] == id
    decreases |es|
  {
    var init := es[..|es| - 1];
    if j < |es| - 1 {
      assert !HasKey(es, |es| - 1, ParseEntry(es[j]).value.0);
      forall i | j < i < |init| ensures !HasKey(init, i, ParseEntry(init[j]).value.0) {
        assert !HasKey(es, i, ParseEntry(es[j]).value.0);
      }
      TableLastWins(init, j);
    }
  }

  /** A malformed entry is skipped: the table is what it would be without it. */
  lemma {:induction false} TableSkipsMalformed(before: seq<Entry>, e: Entry, after: seq<Entry>)
    requires ParseEntry(e).None?
    ensures TableOf(before + [e] + after) == TableOf(before + after)
    decreases |after|
  {
    if after == [] {
      assert (before + [e] + after)[..|before| + 1 - 1] == before;
      assert before + after == before;
    } else {
      var a' := after[..|after| - 1];
      var x := after[|after| - 1];
      assert (before + [e] + after)[..|before + [e] + after| - 1] == before + [e] + a';
      assert (before + after)[..|before + after| - 1] == before + a';
      assert (before + [e] + after)[|before + [e] + after| - 1] == x;
      assert (before + after)[|before + after| - 1] == x;
      TableSkipsMalformed(before, e, a');
    }
  }

  /** The missing enumeration path gives the empty table rather than an error. */
  lemma MissingStructureGivesEmptyTable()
    ensures TermTableOf(None) == map[]
  {
  }

  /** The identifier the cleaned form of the input term `e` maps to, if any. */
  function Lookup(table: TermTable, e: string): Option<string> {
    var key := Clean(e);
    if key in table then Some(table[key]) else None
  }

  /** The input term `e` resolves to the identifier `id`. */
  predicate Resolves(table: TermTable, e: string, id: string) {
    Lookup(table, e) == Some(id)
  }

  /** The identifiers `lookup` gives for `terms`, each once, in the order of their first appearance. */
  function Dedup(lookup: string -> Option<string>, terms: seq<string>): seq<string>
    decreases |terms|
  {
    if terms == [] then []
    else
      var ids := Dedup(lookup, terms[..|terms| - 1]);
      match lookup(terms[|terms| - 1])
      case Some(id) => if id !in ids then ids + [id] else ids
      case None => ids
  }

  /**
   * The identifiers `get_concepts_id` yields for `terms`: each resolved identifier once, in the
   * order of the first term resolving to it. Reference definition for `ConceptIds`.
   */
  function Resolve(table: TermTable, terms: seq<string>): seq<string> {
    Dedup(e => Lookup(table, e), terms)
  }

  /** `get_concepts_id`: look every cleaned term up, yielding each identifier the first time. */
  method ConceptIds(table: TermTable, terms: seq<string>) returns (ids: seq<string>)
    ensures ids == Resolve(table, terms)
  {
    var seen: set<string> := {};
    ids := [];
    for i := 0 to |terms|
      invariant ids == Resolve(table, terms[..i])
      invariant seen == set x | x in ids
    {
      assert terms[..i + 1][..i] == terms[..i];
      var termClean := Clean(terms[i]);
      if termClean in table {
        var cid := table[termClean];
        if cid !in seen {
          seen := seen + {cid};
          ids := ids + [cid];
        }
      }
    }
    assert terms[..|terms|] == terms;
  }

  predicate NoDuplicates(s: seq<string>) {
    forall i, j :: 0 <= i < j < |s| ==> s[i] != s[j]
  }

  /** No identifier is yielded twice. */
  lemma {:induction false} DedupNoDuplicates(lookup: string -> Option<string>, terms: seq<string>)
    ensures NoDuplicates(Dedup(lookup, terms))
    decreases |terms|
  {
    if terms != [] {
      DedupNoDuplicates(lookup, terms[..|terms| - 1]);
    }
  }

  /** An identifier is yielded exactly when `lookup` gives it for some term. */
  lemma {:induction false} DedupMembers(lookup: string -> Option<string>, terms: seq<string>, id: string)
    ensures id in Dedup(lookup, terms) <==> exists i :: 0 <= i < |terms| && lookup(terms[i]) == Some(id)
    decreases |terms|
  {
    if terms != [] {
      var init := terms[..|terms| - 1];
      DedupMembers(lookup, init, id);
      if exists i :: 0 <= i < |terms| && lookup(terms[i]) == Some(id) {
        var i :| 0 <= i < |terms| && lookup(terms[i]) == Some(id);
        if i < |init| {
          assert init[i] == terms[i];
        }
      }
    }
  }

  /** A term `lookup` gives nothing for is skipped: the output is what it would be without it. */
  lemma {:induction false} DedupSkips(lookup: string -> Option<string>, before: seq<string>, e: string, after: seq<string>)
    requires lookup(e).None?
    ensures Dedup(lookup, before + [e] + after) == Dedup(lookup, before + after)
    decreases |after|
  {
    if after == [] {
      assert (before + [e] + after)[..|before| + 1 - 1] == before;
      assert before + after == before;
    } else {
      var a' := after[..|after| - 1];
      var x := after[|after| - 1];
      assert (before + [e] + after)[..|before + [e] + after| - 1] == before + [e] + a';
      assert (before + after)[..|before + after| - 1] == before + a';
      assert (before + [e] + after)[|before + [e] + after| - 1] == x;
      assert (before + after)[|before + after| - 1] == x;
      DedupSkips(lookup, before, e, a');
    }
  }

  /** Term `i` is the first of `terms` for which `lookup` gives `id`. */
  predicate FirstGiving(lookup: string -> Option<string>, terms: seq<string>, id: string, i: int) {
    0 <= i < |terms| && lookup(terms[i]) == Some(id)
    && forall k :: 0 <= k < i ==> lookup(terms[k]) != Some(id)
  }

  /** Identifiers come out in the order of the first term giving each. */
  lemma {:induction false} DedupFirstOccurrenceOrder(lookup: string -> Option<string>, terms: seq<string>, a: int, b: int, ia: int, ib: int)
    requires var ids := Dedup(lookup, terms);
      0 <= a < b < |ids| && FirstGiving(lookup, terms, ids[a], ia) && FirstGiving(lookup, terms, ids[b], ib)
    ensures ia < ib
    decreases |terms|
  {
    var ids := Dedup(lookup, terms);
    var n := |terms| - 1;
    var init := terms[..n];
    var prev := Dedup(lookup, init);
    assert ids[a] == prev[a];
    DedupMembers(lookup, init, prev[a]);
    var ja :| 0 <= ja < n && lookup(init[ja]) == Some(prev[a]);
    assert ia <= ja;
    if b < |prev| {
      // both identifiers were already yielded by the shorter input
      assert ids[b] == prev[b];
      DedupMembers(lookup, init, prev[b]);
      var jb :| 0 <= jb < n && lookup(init[jb]) == Some(prev[b]);
      assert ib <= jb;
      assert FirstGiving(lookup, init, prev[a], ia);
      assert FirstGiving(lookup, init, prev[b], ib);
      DedupFirstOccurrenceOrder(lookup, init, a, b, ia, ib);
    } else {
      // ids[b] is new with the last term, so no earlier term gives it
      assert ids[b] !in prev;
      DedupMembers(lookup, init, ids[b]);
      assert ib == n;
    }
  }

  /** No concept identifier is yielded twice. */
  lemma ResolveNoDuplicates(table: TermTable, terms: seq<string>)
    ensures NoDuplicates(Resolve(table, terms))
  {
    DedupNoDuplicates(e => Lookup(table, e), terms);
  }

  /** A concept identifier is yielded exactly when some input term resolves to it. */
  lemma ResolveMembers(table: TermTable, terms: seq<string>, id: string)
    ensures id in Resolve(table, terms) <==> exists i :: 0 <= i < |terms| && Resolves(table, terms[i], id)
  {
    DedupMembers(e => Lookup(table, e), terms, id);
  }

  /** An unknown term is skipped without affecting the identifiers of the others. */
  lemma ResolveSkipsUnknown(table: TermTable, before: seq<string>, e: string, after: seq<string>)
    requires Clean(e) !in table
    ensures Resolve(table, before + [e] + after) == Resolve(table, before + after)
  {
    var lookup := e => Lookup(table, e);
    assert lookup(e).None?;
    DedupSkips(lookup, before, e, after);
  }

  /** Term `i` is the first of `terms` that resolves to `id`. */
  predicate FirstResolving(table: TermTable, terms: seq<string>, id: string, i: int) {
    0 <= i < |terms| && Resolves(table, terms[i], id)
    && forall k :: 0 <= k < i ==> !Resolves(table, terms[k], id)
  }

  /** Concept identifiers come out in the order of the first term resolving to each. */
  lemma ResolveFirstOccurrenceOrder(table: TermTable, terms: seq<string>, a: int, b: int, ia: int, ib: int)
    requires var ids := Resolve(table, terms);
      0 <= a < b < |ids| && FirstResolving(table, terms, ids[a], ia) && FirstResolving(table, terms, ids[b], ib)
    ensures ia < ib
  {
    var lookup := e => Lookup(table, e);
    assert forall x :: lookup(x) == Lookup(table, x);
    DedupFirstOccurrenceOrder(lookup, terms, a, b, ia, ib);
  }

  /** Lookups ignore letter case. */
  lemma CleanIgnoresCase(a: string, b: string)
    requires Lower(a) == Lower(b)
    ensures Clean(a) == Clean(b)
  {
    StripLowerCommute(a);
    StripLowerCommute(b);
    LowerIdempotent(Strip(a));
    LowerIdempotent(Strip(b));
    assert Lower(Lower(Strip(a))) == Lower(Strip(Lower(a)));
  }

  /** Lookups ignore surrounding whitespace. */
  lemma CleanIgnoresPadding(pre: string, s: string, post: string)
    requires AllSpace(pre) && AllSpace(post)
    ensures Clean(pre + s + post) == Clean(s)
  {
    StripPadding(pre, s, post);
  }

  /** Inputs that clean to the same keys resolve to the same identifiers. */
  lemma {:induction false} ResolveDependsOnCleanTerms(table: TermTable, terms: seq<string>, others: seq<string>)
    requires |terms| == |others|
    requires forall i :: 0 <= i < |terms| ==> Clean(terms[i]) == Clean(others[i])
    ensures Resolve(table, terms) == Resolve(table, others)
    decreases |terms|
  {
    if terms != [] {
      ResolveDependsOnCleanTerms(table, terms[..|terms| - 1], others[..|others| - 1]);
    }
  }

  /**
   * The window of the metadata query: from the start date to two days later; `None` where
   * Python's date arithmetic raises `OverflowError`.
   */
  function QueryWindow(start: Calendar.Date): (w: Option<(Calendar.Date, Calendar.Date)>)
    requires Calendar.Valid(start)
    ensures w.Some? ==>
      (w.value.0 == start && Calendar.Valid(w.value.1) && Calendar.Ordinal(w.value.1) == Calendar.Ordinal(start) + 2)
    ensures w.None? <==> Calendar.Ordinal(start) + 2 > Calendar.Ordinal(Calendar.MaxDate)
  {
    match Calendar.AddDays(start, 2)
    case None => None
    case Some(end) => Some((start, end))
  }
}
