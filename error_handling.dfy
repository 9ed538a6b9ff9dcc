/** The middleware registered after the routes: a catch-all route for
    unmatched paths, then the two error handlers, in that order. */
module ErrorHandling {
  import opened Outcomes
  import opened Http

  /** `trigger404`: every unmatched path gets the same answer. */
  function Trigger404(req: Request): (res: Response)
    ensures res.status == 404 && res.body == Message("Path not found")
  {
    Response(404, Message("Path not found"))
  }

  /** `customError`: an error with a truthy `status` is answered with that
      status and the error object itself as the body; any other error is
      passed on untouched. */
  function CustomError(err: Thrown): (out: HandlerOutcome)
    ensures out.Respond? <==> err.Rejected? && err.descriptor.status != 0
    ensures out.Respond? ==> out.response == Response(err.descriptor.status, ErrorObject(err.descriptor))
    ensures out.Forward? ==> out.error == err
  {
    match err
    case Rejected(e) => if e.status != 0 then Respond(Response(e.status, ErrorObject(e))) else Forward(err)
    case Unrecognised => Forward(err)
  }

  /** `trigger500`: whatever reaches it is answered with a generic 500. */
  function Trigger500(err: Thrown): (res: Response)
    ensures res.status == 500 && res.body == Message("server error")
  {
    Response(500, Message("server error"))
  }

  /** The error handlers in their registration order: `customError`, then
      `trigger500`. A descriptor comes out with exactly its own status and
      itself as the body; everything else comes out as 500. */
  function ErrorChain(err: Thrown): (res: Response)
    ensures err.Rejected? && err.descriptor.status != 0 ==>
              res == Response(err.descriptor.status, ErrorObject(err.descriptor))
    ensures !(err.Rejected? && err.descriptor.status != 0) ==> res == Response(500, Message("server error"))
  {
    match CustomError(err)
    case Respond(res) => res
    case Forward(e) => Trigger500(e)
  }

  /** What the client receives for a route handler's outcome. */
  function Serve(out: HandlerOutcome): (res: Response)
    ensures out.Respond? ==> res == out.response
    ensures out.Forward? && out.error.Rejected? && out.error.descriptor.status != 0 ==>
              res == Response(out.error.descriptor.status, ErrorObject(out.error.descriptor))
    ensures out.Forward? && !(out.error.Rejected? && out.error.descriptor.status != 0) ==>
              res == Response(500, Message("server error"))
  {
    match out
    case Respond(res) => res
    case Forward(err) => ErrorChain(err)
  }
}
