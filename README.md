# eurovoc_miner: a verified model of the metadata pipeline

`eurovoc_miner` collects EUR-Lex documents day by day. For one date it runs three steps:

1. Query the Publications Office SPARQL endpoint for the documents dated from the given date to two days later (the query text itself is not part of this model).
2. Resolve each document's EuroVoc subject labels to concept identifiers, using a term table built from the EuroVoc XML schema.
3. Flatten each result binding into a record of the fixed schema, and fetch the document body (PDF, XHTML/HTML or Word) for every record.

Separately, the `processor` module provides two functions on such a table: `match_keywords` adds one boolean column per keyword, and `filter_keyword_matches` keeps the rows that match. The command line applies only `clean_text_batch` from that module to the collected records.

This project models that deterministic core in Dafny and proves what it promises.

| file | module | models |
|---|---|---|
| `wrappers.dfy` | `Wrappers` | `Option` and `Result` |
| `text.dfy` | `Text` | the Python string operations used: `strip`, `lower`, `split`, `join`, `replace` on one character, `in` and `find` |
| `calendar.dfy` | `Calendar` | `datetime.date` ordinals and `date + timedelta(days=n)`, with the overflow past 9999-12-31 |
| `config.dfy` | `Config` | the record of the `SCHEMA` field list, its column names and the User-Agent constant |
| `fetcher.dfy` | `Fetcher` | the term-table loop of `get_eurovoc_terms_and_id`, `get_concepts_id`, and the date window of `get_sparql_query` |
| `parsers.dfy` | `Parsers` | `get_body`: the format dispatch, the Accept headers, the status-code rule of the three fetch helpers, and the blank-text rule |
| `core.dfy` | `Core` | `get_docs`, including its single enclosing `try`, and `get_docs_text` as an ordered map-then-filter |
| `processor.dfy` | `Processor` | `match_keywords`, `filter_keyword_matches` and `clean_text_batch`, over a model of a polars frame |

The loops of the source are methods proved against reference functions:
- `Fetcher.BuildTermTable` is proved against `TableOf`.
- `Fetcher.ConceptIds` is proved against `Resolve`.
- `Core.GetDocs` and `Core.FlattenRow` are proved against `Docs` and `Flatten`.
- `Core.GetDocsText` is proved against `Enriched`.
- `Processor.MatchKeywords` is proved against `KeywordMatches`.

The properties are then lemmas about those functions.

Everything outside the process is an input of the model:
- **The network.** The parsed vocabulary entries, the parsed SPARQL bindings and the term table are parameters. So is a `Parsers.Backend` value, which bundles the HTTP `get` with the PDF, HTML and Word text extractors.
- **The clock.** The query date is a parameter.

## Model

| member | source | states |
|---|---|---|
| Fetcher.ParseEntrySpec | src/eurovoc_miner/fetcher.py:28-32 | an entry is skipped exactly when a key is missing or `@value` has no `:`; its key is the trimmed, lower-cased text before the first `/`; its identifier is the text between the first and the second `:` of `@value` |
| Fetcher.BuildTermTable | src/eurovoc_miner/fetcher.py:24-36 | the table-building loop yields `TermTableOf` of the parsed vocabulary: the table of the entries, or the empty table when the enumeration path is missing |
| Fetcher.TableKeys | src/eurovoc_miner/fetcher.py:26-32 | a key is in the table if and only if some well-formed entry contributes it |
| Fetcher.TableLastWins | src/eurovoc_miner/fetcher.py:30 | among entries with the same key, the last one decides the identifier |
| Fetcher.TableSkipsMalformed | src/eurovoc_miner/fetcher.py:27-32 | a malformed entry anywhere leaves the table what it is without that entry; the entries after it are still processed |
| Fetcher.MissingStructureGivesEmptyTable | src/eurovoc_miner/fetcher.py:24-36 | a vocabulary without the enumeration path gives the empty table, not an error |
| Fetcher.ConceptIds | src/eurovoc_miner/fetcher.py:64-76 | the loop with the `seen` set yields `Resolve(table, terms)` |
| Fetcher.DedupNoDuplicates | src/eurovoc_miner/fetcher.py:67-74 | the seen-set deduplication never yields an identifier twice |
| Fetcher.DedupMembers | src/eurovoc_miner/fetcher.py:68-74 | an identifier is yielded if and only if the lookup gives it for some input term |
| Fetcher.DedupFirstOccurrenceOrder | src/eurovoc_miner/fetcher.py:68-74 | identifiers come out in the order of the first term that gives each |
| Fetcher.DedupSkips | src/eurovoc_miner/fetcher.py:70-76 | a term the lookup gives nothing for is skipped, and the output is what it is without that term |
| Fetcher.ResolveNoDuplicates | src/eurovoc_miner/fetcher.py:67-74 | `get_concepts_id` never yields the same identifier twice |
| Fetcher.ResolveMembers | src/eurovoc_miner/fetcher.py:68-74 | an identifier is yielded if and only if some input, trimmed and lower-cased, is a key mapping to it |
| Fetcher.ResolveFirstOccurrenceOrder | src/eurovoc_miner/fetcher.py:68-74 | identifiers appear in the order of the first input term resolving to each |
| Fetcher.ResolveSkipsUnknown | src/eurovoc_miner/fetcher.py:75-76 | an unknown term is skipped without error and without changing what the other terms yield |
| Fetcher.CleanIgnoresCase | src/eurovoc_miner/fetcher.py:69 | terms equal up to letter case have the same lookup key |
| Fetcher.CleanIgnoresPadding | src/eurovoc_miner/fetcher.py:69 | surrounding whitespace does not change the lookup key |
| Fetcher.ResolveDependsOnCleanTerms | src/eurovoc_miner/fetcher.py:69-74 | two term lists whose cleaned forms agree element by element resolve to the same identifiers |
| Fetcher.QueryWindow | src/eurovoc_miner/fetcher.py:40-41 | the window starts on the given date and ends exactly two days later; it is `None` exactly where the end would pass 9999-12-31 |
| Calendar.NextDay | src/eurovoc_miner/fetcher.py:41 | the next date is valid and its ordinal is one more; there is none exactly for 9999-12-31 |
| Calendar.AddDays | src/eurovoc_miner/fetcher.py:41 | adding `n` days gives a valid date `n` ordinals later, or `None` exactly when that passes the last representable date |
| Core.GetDocs | src/eurovoc_miner/core.py:10-42 | the loop yields `Docs`: the records of the bindings before the first one that raises, in binding order; nothing when the query raises |
| Core.FlattenRow | src/eurovoc_miner/core.py:15-40 | one pass of the loop body, with identifiers from `ConceptIds`, gives `Flatten` of the binding |
| Core.StopIndexSpec | src/eurovoc_miner/core.py:12-42 | no binding before the stop index raises, and the binding at the stop index, if any, raises |
| Core.StopsAtMissingKey | src/eurovoc_miner/core.py:12-42 | a binding whose subject labels resolve to some identifier but that misses a required key ends the output; the records of the bindings before it are kept and nothing after it is read |
| Core.AbsentSubjectsSkip | src/eurovoc_miner/core.py:15-18 | a binding without `subjects` produces no record |
| Core.SkipsUnresolved | src/eurovoc_miner/core.py:17-22 | a binding with no terms, or with terms that resolve to nothing, produces no record |
| Core.EmittedWellFormed | src/eurovoc_miner/core.py:17-38 | every yielded record has at least one term and at least one identifier, and no text yet |
| Core.EmittedConcat | src/eurovoc_miner/core.py:14-40 | records are emitted in binding order: the output for `a + b` is the output for `a` followed by that for `b` |
| Core.EmittedFromRows | src/eurovoc_miner/core.py:14-40 | every yielded record is the record of one of the bindings |
| Core.NonBlankSpec | src/eurovoc_miner/core.py:16 | the kept segments are trimmed and non-empty, the trimmed form of every segment that is not blank is kept, and none is kept exactly when every segment is blank |
| Core.ValuesSpec | src/eurovoc_miner/core.py:32-35 | the values of a multi-valued field are trimmed, non-empty and free of the separator; every segment that is not blank gives its trimmed form as a value; there are none exactly when every segment is blank |
| Core.NonBlankSingle | src/eurovoc_miner/core.py:16 | a single segment is kept, trimmed, exactly when it is not blank |
| Core.NonBlankConcat | src/eurovoc_miner/core.py:16 | the comprehension keeps segments in order: the kept segments of two lists in a row are those of the first followed by those of the second |
| Core.ValuesInOrder | src/eurovoc_miner/core.py:32-35 | when the field holds a separator, its values are those of the text before the leftmost separator, followed by the values of the text after it |
| Core.FirstSegmentOfOverlap | src/eurovoc_miner/core.py:26-29 | for a field of four vertical bars the first piece is empty: the split cuts at the leftmost of the two overlapping separators |
| Core.ValuesOfEmpty | src/eurovoc_miner/core.py:32-35 | an absent field (`''`) gives no values |
| Core.StripEachSpec | src/eurovoc_miner/core.py:36 | the formats are the stripped segments, one per segment, empty ones included |
| Core.EmittedRecordSpec | src/eurovoc_miner/core.py:15-39 | the fields of a yielded record: the terms are the non-blank `subjects` segments after U+00A0 becomes a space, and they resolve to the identifiers, with no duplicates; url, celex, eli and title are the first separator-delimited segment of their field, and an absent celex or eli gives `""`; the date is copied; the language is lower-cased; each of the four list fields is `Values` of its binding field (authors, workTypes, procedureIds, directoryCodes): its trimmed non-blank segments in order, and none when the field is absent; the formats are the stripped segments, empty ones included |
| Core.GetDocsText | src/eurovoc_miner/core.py:44-55 | yields `Enriched` of the records of `get_docs`: the non-`None` results of `get_body`, in input order; nothing when there are no records |
| Core.EnrichedSpec | src/eurovoc_miner/core.py:52-55 | there are no more outputs than inputs; each output is an input record with every field but `text` unchanged, and with text that is not all whitespace |
| Core.SuccessesConcat | src/eurovoc_miner/core.py:52-55 | mapping then dropping `None` preserves order: the output for `a + b` is the output for `a` followed by that for `b` |
| Core.FailureIsolated | src/eurovoc_miner/core.py:52-55 | a document whose body cannot be retrieved is dropped without affecting the others |
| Parsers.RouteFor | src/eurovoc_miner/parsers.py:42-51 | `pdf` wins over every other format; next comes HTML, with the XHTML Accept when `xhtml` is listed; then Word, with the wordprocessingml Accept when `docx` is listed; there is no route exactly when none of the five format names is an element of `formats` |
| Parsers.GetBody | src/eurovoc_miner/parsers.py:39-60 | a result is the input record with only `text` set, and that text is not all whitespace; no route gives `None` |
| Parsers.GetBodySpec | src/eurovoc_miner/parsers.py:39-57 | `get_body` succeeds if and only if a route applies and the one request it sends, extracted by that route's extractor, gives text that is not all whitespace; the result is then the record with that text |
| Parsers.GetBodyNon200 | src/eurovoc_miner/parsers.py:13-37 | a response whose status is not 200 makes the helper return `""`, so `get_body` gives `None` |
| Parsers.GetBodyRaised | src/eurovoc_miner/parsers.py:58-60 | an exception from the request or from the extractor gives `None` |
| Text.StripSpec | src/eurovoc_miner/core.py:16 | `str.strip()` returns the slice between the leading and the trailing whitespace runs, and that slice neither starts nor ends with whitespace |
| Text.BlankIffAllSpace | src/eurovoc_miner/parsers.py:53 | `not text.strip()` holds exactly when the text is all whitespace |
| Text.SplitSpec | src/eurovoc_miner/core.py:15 | `s.split(sep)` gives the pieces between separators: none of them contains `sep`, joining them with `sep` gives `s` back, the first piece ends at the leftmost occurrence of `sep`, and the other pieces are the split of the text after it |
| Text.FirstSegmentSpec | src/eurovoc_miner/core.py:26-29 | `s.split(sep)[0]` is the prefix of `s` before the leftmost occurrence of `sep` (no occurrence starts inside it), or all of `s` when there is none |
| Processor.ColumnNameSpec | src/eurovoc_miner/processor.py:36 | the column name is `match_` followed by one character per keyword character: its lower-case form, with space and hyphen turned into `_` |
| Processor.ColumnNameIgnoresCase | src/eurovoc_miner/processor.py:36 | a keyword and its lower-case form name the same column |
| Processor.ColumnNameIsNotText | src/eurovoc_miner/processor.py:36 | no keyword column is called `text` |
| Processor.SameColumnName | src/eurovoc_miner/processor.py:36 | keywords that agree character by character up to case, space and hyphen name the same column |
| Processor.MatchesIgnoringCaseSpec | src/eurovoc_miner/processor.py:37-42 | the case-insensitive literal search succeeds if and only if some window of the text equals the keyword up to case |
| Processor.LiteralOccurrenceMatches | src/eurovoc_miner/processor.py:40-42 | a literal occurrence of the keyword is a match |
| Processor.MatchKeywords | src/eurovoc_miner/processor.py:28-45 | the loop that builds `expressions`, followed by `with_columns`, gives `KeywordMatches` |
| Processor.KeywordMatchesSpec | src/eurovoc_miner/processor.py:28-45 | no keywords leave the frame unchanged; otherwise it raises exactly when `text` is missing, two keywords name the same column, or `text` is not a string column; when it does not raise the result is the tagged frame |
| Processor.AddColumnsSpec | src/eurovoc_miner/processor.py:41-45 | in each row, `with_columns` adds exactly the expression names; each holds its expression's value, and every other cell is kept |
| Processor.NewColumnsSpec | src/eurovoc_miner/processor.py:45 | existing columns keep their place, the new names are added once each, and the columns stay distinct |
| Processor.NewColumnsAppend | src/eurovoc_miner/processor.py:45 | when no name is an existing column, the names are appended in expression order |
| Processor.TaggedSpec | src/eurovoc_miner/processor.py:33-45 | tagging keeps every existing column in place and the number of rows, adds the keyword columns, and every row has exactly the new column set |
| Processor.TaggedAppends | src/eurovoc_miner/processor.py:33-45 | when no keyword column exists yet, one column per keyword is appended, in keyword order |
| Processor.TaggedRows | src/eurovoc_miner/processor.py:40-45 | the keyword's cell in each tagged row tells whether the row's text contains the keyword ignoring case, or is null for null text; every other cell, `text` included, is unchanged |
| Processor.CollidingNamesRaise | src/eurovoc_miner/processor.py:34-45 | two keywords that name the same column make `match_keywords` raise |
| Processor.CollidingKeywordsRaise | src/eurovoc_miner/processor.py:34-45 | for instance `"E mail"` and `"e-mail"` both name `match_e_mail`, so `match_keywords` raises |
| Processor.KeepMatchingSpec | src/eurovoc_miner/processor.py:53 | the kept rows are a sub-multiset of the input rows; each has a true keyword column, and every input row with one is kept |
| Processor.KeepMatchingConcat | src/eurovoc_miner/processor.py:53 | filtering keeps the input order: the rows kept from `a + b` are those kept from `a`, then those kept from `b` |
| Processor.FilterKeywordMatchesSpec | src/eurovoc_miner/processor.py:47-53 | no keywords, or no rows, leave the frame unchanged; otherwise it raises exactly when some keyword's column is missing, and it keeps the columns with exactly the rows that have a true keyword column |
| Processor.TaggedRowMatches | src/eurovoc_miner/processor.py:40-53 | a tagged row passes the filter if and only if its text mentions one of the keywords, ignoring case |
| Processor.FilterAfterMatch | src/eurovoc_miner/processor.py:47-53 | filtering a tagged frame on the same keywords does not raise and keeps the tagged rows that match, in order |
| Processor.FrameOfSpec | src/eurovoc_miner/processor.py:5-26 | the frame of the records has the schema's columns and one row per record with its text, and `clean_text_batch` returns it unchanged |
| Processor.RowOfSpec | src/eurovoc_miner/config.py:38-53 | the row of a record has exactly the fourteen schema columns, and its `text` cell is the record's text, or null |
| Processor.SchemaColumnsDistinct | src/eurovoc_miner/config.py:38-53 | the schema's column names are distinct |

## Left out

- HTTP requests, the `requests` session and its retries are not modelled. `parsers.py` imports `get_session` from `fetcher.py`, which does not define it. The session is the `get` field of `Parsers.Backend`, a total function from request to response or exception.
- The joblib `Memory` cache and its 120-minute expiry are not modelled. Each cached call is a pure function of its arguments, so the term table is one fixed input for a whole `get_docs` run.
- Parsing the XML vocabulary (xmltodict) and the SPARQL JSON is not modelled. The model starts from the parsed `xs:enumeration` entries and bindings.
- An exception while building the vocabulary table is not modelled; in the model the term table is always available. In the code such an exception is raised by `get_concepts_id` at the first binding whose subject labels are not all blank (src/eurovoc_miner/core.py:20), reaches the `try` of `get_docs` (src/eurovoc_miner/core.py:12 and :41) and ends the output there; records already yielded are kept. This covers a failed download, and also entries the model cannot represent, since it holds only string-valued fields and a list of entries: an `xs:documentation` or `value` attribute that is a dict or list makes `.split` raise `AttributeError` (src/eurovoc_miner/fetcher.py:28-29), which neither `except` clause (:31, :33) catches, and a single entry parsed as a dict instead of a list raises `TypeError` in the same loop.
- The PDF, HTML and Word extractors (pdfminer, BeautifulSoup, docx2txt) are abstract functions of the response bytes.
- jinja2 rendering of `query.j2` and `strftime` formatting are not modelled. The template is not part of this model; only the start and end dates of the window are.
- The `ProcessPoolExecutor` fan-out and the tqdm progress bar are not modelled. `get_docs_text` is the sequential map-then-filter that `executor.map` is equivalent to, because it returns results in input order.
- Logging is not modelled.
- `get_body` updates the caller's dict with `r['text'] = text`. This is modelled value-style: the result is the record with `text` set. Under the process pool the dict is a pickled copy, so the caller's list is not changed either way.
- Text.Lower: lower-cases ASCII letters only. Python's `str.lower()` also maps the other Unicode letters.
- Processor.MatchesIgnoringCase: ASCII-only case folding, with the keyword treated as a literal string. The Unicode case folding of the polars regex engine is not modelled, for example `(?i)k` matching the Kelvin sign. The escaping syntax of `re.escape` is not modelled either.
- Processor.WithColumns: when several polars errors apply at once, the order of `ColumnNotFound`, `DuplicateColumn` and `SchemaMismatch` is an assumption; the model only proves that some error is raised.
- Processor.FilterKeywordMatches: a keyword column holding something other than a boolean counts as not matching; polars would raise. Duplicate names among the filter columns are not modelled as an error.
- `cli.py` and the scripts are not modelled: argument parsing, today's date, parquet output and the Hugging Face upload. The exception is `pl.DataFrame(docs)`, which is modelled as `Processor.FrameOf` so that `clean_text_batch` can be stated on the records' frame.
- Two behaviours of the code that a reader might expect to be different, and which the model follows:
  - **A missing required key stops the whole date, not just one row.** Its `KeyError` is caught by the single `try` around the loop in `get_docs`, so the records already yielded are kept and no later binding is read. `Core.StopsAtMissingKey` states this.
  - **A vocabulary without the expected structure gives an empty table; it does not fail.** `Fetcher.MissingStructureGivesEmptyTable` states this.
- Deduplicating records by key does not appear in the code, so it is not modelled.
