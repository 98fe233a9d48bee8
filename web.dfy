/**
 * What the framework hands back and keeps between requests, reduced to the
 * parts the demos' own logic decides: the kind of response a view returns
 * and the values the views store in the session.
 */
module Web {

  /** The response a view returns, with template rendering, URL building and JSON left abstract. */
  datatype Response =
    | Render(template: string)                 // render_template(template, ...)
    | Body(text: string, status: nat)          // a plain string body with its status code
    | Typed(mimetype: string)                  // a fixed body served with this mimetype
    | Redirect(location: string)               // redirect(location)
    | RedirectToEndpoint(endpoint: string)     // redirect(url_for(endpoint))
    | Abort(status: nat)                       // abort(status)
    | Uncaught                                 // an exception escaped the view: status 500
    | CkUploadSuccess(filename: string)        // upload_success(url_for('get_file', filename=...), ...)
    | CkUploadFail(message: string)            // upload_fail(message)

  /** A value stored in the session: the login flag or a list of stored file names. */
  datatype Value = Flag(on: bool) | Names(names: seq<string>)
}
