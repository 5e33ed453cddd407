/** The parts of the servlet request and response the filter touches. */
module Servlet {
  import opened Wrappers

  /** An inbound HTTP request: its headers (one value per name), and the client
      address and session id that Spring copies into authentication details. */
  datatype Request = Request(headers: map<string, string>, remoteAddress: string, sessionId: Option<string>)

  /** The servlet response, an opaque handle the filter only passes on. */
  datatype Response = Response(handle: nat)

  /** `HttpServletRequest.getHeader`: null when the header is absent. */
  function GetHeader(request: Request, name: string): Option<string> {
    if name in request.headers then Some(request.headers[name]) else None
  }
}
