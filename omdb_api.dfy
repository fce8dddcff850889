/**
 * The parts of the OMDb web API that the app and the scripts rely on.  The service
 * itself is not modelled: a caller receives the answer to each request as a `Reply`
 * chosen by a provider function that the caller is given.
 */
module OmdbApi {
  import opened Wrappers

  /** OMDb's "no value" text, used for a missing poster. */
  const NotAvailable: string := "N/A"

  /** The fields of an OMDb title response that the code reads (`None`: field absent). */
  datatype Record = Record(
    response: Option<string>,
    title: Option<string>,
    year: Option<string>,
    poster: Option<string>,
    imdbId: Option<string>,
    plot: Option<string>,
    imdbRating: Option<string>)

  /** One title request: the `t=` value and, when the URL carries one, the `y=` value. */
  datatype Query = Query(title: string, year: Option<string>)

  /**
   * The outcome of one request: an exception (network failure, timeout, a body that is
   * not JSON), or an HTTP status together with the parsed body (`None` for JSON `null`).
   */
  datatype Reply = Threw | Http(ok: bool, status: int, body: Option<Record>)

  /** `data?.Response === "True"`. */
  predicate IsTrue(body: Option<Record>) {
    body.Some? && body.value.response == Some("True")
  }

  /** `p && p !== "N/A"`: a poster value that names an image. */
  predicate UsablePoster(p: Option<string>) {
    p.Some? && p.value != "" && p.value != NotAvailable
  }
}
