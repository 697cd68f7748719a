/** The requests the page script hands to `fetch` (app.js line 23 and 86-91). */
module Http {

  datatype Verb = Get | Post

  /** A request: its method and its URL, relative to the page's origin. */
  datatype Request = Request(verb: Verb, url: string)

  /** The catalog endpoint; signup URLs extend it. */
  const CATALOG_URL := "/activities"
}
