/** What the route handlers see of a request and what they answer. Crow's
    own parsing, sessions and page rendering are not part of this model: a
    handler receives the session's strings and the parsed form parameters,
    and answers with one of the responses below. */
module Web {
  import opened Wrappers

  /** The outcome of a handler.
      - Redirect: `crow::response res(303); res.add_header("Location", l)`.
      - Text: `crow::response(code, text)`; the text is the body, so
        `crow::response(303, "/error")` sets no Location header.
      - Page: a rendered template (status 200).
      - Crash: an exception escaped the handler (Crow answers 500), such as
        `std::string` built from the null pointer that `get` returns for a
        missing parameter. */
  datatype Response =
    | Redirect(location: string)
    | Text(code: int, body: string)
    | Page(template: string)
    | Crash

  /** The form parameters of a request body (`crow::query_string`). */
  type Params = map<string, string>
}
