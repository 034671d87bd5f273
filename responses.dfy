/** What the KEGG REST service answers to one request, as the pipeline reads it. */
module Responses {
  import opened Text

  /** The status code and the text of an HTTP response. */
  datatype Response = Response(status: int, body: string)

  /** `r.status_code == 200 and r.text.strip()`: the only responses whose body is read. */
  predicate Usable(r: Response)
  {
    r.status == 200 && Strip(r.body) != ""
  }
}
