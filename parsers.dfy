/**
 * Body retrieval: choosing the route by declared format, the request each route sends, the
 * status-code rule of the fetch helpers and the post-processing of the extracted text.
 * The HTTP session and the three text extractors are parameters of the model.
 */
module Parsers {
  import opened Wrappers
  import opened Text
  import opened Config

  type Bytes = seq<bv8>

  /** A GET request as the fetch helpers send it: URL, Accept, Accept-Language and User-Agent. */
  datatype Request = Request(url: string, accept: string, acceptLanguage: string, userAgent: string)

  /** What `session.get` gives: a response, or an exception (connection failure, retries exhausted). */
  datatype Reply = Response(status: int, content: Bytes) | GetRaised

  /** What a fetch helper or an extractor gives: a string, or an exception. */
  datatype Outcome = Text(text: string) | Raised

  /**
   * The collaborators `get_body` depends on: the HTTP session, and the PDF (pdfminer), HTML
   * (BeautifulSoup `get_text`) and Word (docx2txt) text extractors.
   */
  datatype Backend = Backend(
    get: Request -> Reply,
    pdfText: Bytes -> Outcome,
    htmlText: Bytes -> Outcome,
    docText: Bytes -> Outcome)

  const PdfAccept: string := "application/pdf"
  const XhtmlAccept: string := "application/xhtml+xml"
  const HtmlAccept: string := "text/html"
  const DocxAccept: string := "application/vnd.openxmlformats-officedocument.wordprocessingml.document.main+xml"
  const DocAccept: string := "application/msword"

  /** The shared shape of the three helpers: a 200 response is extracted, any other gives `""`. */
  function Fetch(backend: Backend, request: Request, extract: Bytes -> Outcome): Outcome {
    match backend.get(request)
    case GetRaised => Raised
    case Response(status, content) => if status == 200 then extract(content) else Text("")
  }

  /** `get_pdf_body`. */
  function PdfBody(backend: Backend, r: Record): Outcome {
    Fetch(backend, Request(r.url, PdfAccept, r.lang, UserAgent), backend.pdfText)
  }

  /** `get_html_content`. */
  function HtmlContent(backend: Backend, r: Record, accept: string): Outcome {
    Fetch(backend, Request(r.url, accept, r.lang, UserAgent), backend.htmlText)
  }

  /** `get_doc_content`. */
  function DocContent(backend: Backend, url: string, accept: string, lang: string): Outcome {
    Fetch(backend, Request(url, accept, lang, UserAgent), backend.docText)
  }

  /** The three ways of retrieving a body, with the Accept header of the HTML and Word routes. */
  datatype Route = PdfRoute | HtmlRoute(accept: string) | WordRoute(accept: string)

  /** The format dispatch of `get_body`, by exact membership of format names in `formats`. */
  function RouteFor(formats: seq<string>): (route: Option<Route>)
    ensures "pdf" in formats ==> route == Some(PdfRoute)
    ensures "pdf" !in formats && "xhtml" in formats ==> route == Some(HtmlRoute(XhtmlAccept))
    ensures "pdf" !in formats && "xhtml" !in formats && "html" in formats ==> route == Some(HtmlRoute(HtmlAccept))
    ensures "pdf" !in formats && "xhtml" !in formats && "html" !in formats && "docx" in formats
      ==> route == Some(WordRoute(DocxAccept))
    ensures "pdf" !in formats && "xhtml" !in formats && "html" !in formats && "docx" !in formats && "doc" in formats
      ==> route == Some(WordRoute(DocAccept))
    ensures route.None? <==> forall f :: f in BodyFormats ==> f !in formats
  {
    if "pdf" in formats then Some(PdfRoute)
    else if "xhtml" in formats || "html" in formats then
      Some(HtmlRoute(if "xhtml" in formats then XhtmlAccept else HtmlAccept))
    else if "docx" in formats || "doc" in formats then
      Some(WordRoute(if "docx" in formats then DocxAccept else DocAccept))
    else None
  }

  /** The format names `get_body` knows. */
  const BodyFormats: seq<string> := ["pdf", "xhtml", "html", "docx", "doc"]

  /** The helper a route calls. */
  function Retrieve(backend: Backend, r: Record, route: Route): Outcome {
    match route
    case PdfRoute => PdfBody(backend, r)
    case HtmlRoute(accept) => HtmlContent(backend, r, accept)
    case WordRoute(accept) => DocContent(backend, r.url, accept, r.lang)
  }

  function AcceptOf(route: Route): string {
    match route
    case PdfRoute => PdfAccept
    case HtmlRoute(accept) => accept
    case WordRoute(accept) => accept
  }

  /** The request a route sends for a record: its URL, the route's Accept and the record's language. */
  function RequestFor(r: Record, route: Route): Request {
    Request(r.url, AcceptOf(route), r.lang, UserAgent)
  }

  function ExtractorOf(backend: Backend, route: Route): Bytes -> Outcome {
    match route
    case PdfRoute => backend.pdfText
    case HtmlRoute(_) => backend.htmlText
    case WordRoute(_) => backend.docText
  }

  /**
   * `get_body`: the record with `text` set when the chosen route yields non-blank text; `None`
   * when no route applies, the text is blank, or anything raises.
   */
  function GetBody(backend: Backend, r: Record): (res: Option<Record>)
    ensures res.Some? ==> res.value == r.(text := res.value.text) && res.value.text.Some?
    ensures res.Some? ==> !AllSpace(res.value.text.value)
    ensures RouteFor(r.formats).None? ==> res.None?
  {
    match RouteFor(r.formats)
    case None => None
    case Some(route) =>
      match Retrieve(backend, r, route)
      case Raised => None
      case Text(t) =>
        BlankIffAllSpace(t);
        if Strip(t) == [] then None else Some(r.(text := Some(t)))
  }

  /**
   * `get_body` succeeds exactly when a route applies and the one request it sends, extracted by
   * that route's extractor, gives text that is not all whitespace; the result is then the record
   * with that text.
   */
  lemma GetBodySpec(backend: Backend, r: Record)
    ensures GetBody(backend, r).Some? <==>
      RouteFor(r.formats).Some? &&
      var o := Fetch(backend, RequestFor(r, RouteFor(r.formats).value), ExtractorOf(backend, RouteFor(r.formats).value));
      o.Text? && !AllSpace(o.text)
    ensures GetBody(backend, r).Some? ==>
      var route := RouteFor(r.formats).value;
      GetBody(backend, r).value == r.(text := Some(Fetch(backend, RequestFor(r, route), ExtractorOf(backend, route)).text))
  {
    match RouteFor(r.formats)
    case None =>
    case Some(route) =>
      match Retrieve(backend, r, route)
      case Raised =>
      case Text(t) => BlankIffAllSpace(t);
  }

  /** A response other than 200 gives empty text, so no body. */
  lemma GetBodyNon200(backend: Backend, r: Record)
    requires RouteFor(r.formats).Some?
    requires var reply := backend.get(RequestFor(r, RouteFor(r.formats).value));
      reply.Response? && reply.status != 200
    ensures GetBody(backend, r).None?
  {
    var route := RouteFor(r.formats).value;
    assert Retrieve(backend, r, route) == Text("");
  }

  /** An exception from the request or from the extractor gives no body. */
  lemma GetBodyRaised(backend: Backend, r: Record)
    requires RouteFor(r.formats).Some?
    requires var route := RouteFor(r.formats).value;
      var reply := backend.get(RequestFor(r, route));
      reply.GetRaised? || (reply.Response? && reply.status == 200 && ExtractorOf(backend, route)(reply.content).Raised?)
    ensures GetBody(backend, r).None?
  {
    var route := RouteFor(r.formats).value;
    assert Retrieve(backend, r, route).Raised?;
  }
}
