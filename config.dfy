/** The fixed output schema and the network constants shared by the pipeline. */
module Config {
  import opened Wrappers

  /**
   * One document as a row of the output schema. `text` is absent until the body has been
   * retrieved; the list-valued columns are sequences of strings.
   */
  datatype Record = Record(
    url: string,
    celex: string,
    eli: string,
    title: string,
    date: string,
    lang: string,
    institutions: seq<string>,
    workTypes: seq<string>,
    procedureIds: seq<string>,
    directoryCodes: seq<string>,
    formats: seq<string>,
    eurovocConcepts: seq<string>,
    eurovocConceptsIds: seq<string>,
    text: Option<string>)

  /** The output schema's column names, in order. */
  const SchemaColumns: seq<string> := [
    "url", "celex", "eli", "title", "date", "lang", "institutions", "work_types", "procedure_ids",
    "directory_codes", "formats", "eurovoc_concepts", "eurovoc_concepts_ids", "text"]

  /** The User-Agent header every request carries. */
  const UserAgent: string :=
    "Mozilla/5.0 (Macintosh; Intel Mac OS X 10_15_7) AppleWebKit/537.36 (KHTML, like Gecko) Chrome/123.0.0.0 Safari/537.36"
}
