/** What a handler of cmd/web/handlers.go answers, and which store
    operation it called on the way. */
module Responses {
  import opened Errors

  /** The one-shot message a handler leaves in the session for the next
      page: none, an informational one or an error. */
  datatype Flash = NoFlash | Info(message: string) | FlashError(message: string)

  datatype Response =
    /** A full page rendered from `template` with `status`. */
    | Render(status: int, template: string)
    /** A page fragment rendered from `template` with status 200. */
    | Fragment(template: string)
    /** A 303 See Other to `location`, after leaving `flash`. */
    | SeeOther(location: string, flash: Flash)
    /** The 404 page. */
    | NotFound
    /** The 500 page; `cause` is the error written to the log. */
    | ServerError(cause: Error)
    /** The 400 page. */
    | BadRequest

  /** A handler's answer together with the store operation it invoked, if
      it invoked one (`call` is None when the handler answered before
      reaching the store). */
  datatype Handled<C> = Handled(response: Response, call: Option<C>)
}
