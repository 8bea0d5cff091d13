/** The JSON responses the API routes return: a status code and a small record. */
module Api {
  import opened Js
  import opened Sql

  datatype Response = Response(status: nat, body: Record)

  /** `NextResponse.json({ success: true })` */
  function Success(): Response {
    Response(200, map["success" := Bool(true)])
  }

  /** `NextResponse.json({ error: message }, { status })` */
  function Failure(status: nat, message: string): Response {
    Response(status, map["error" := Str(message)])
  }

  /** The answer every admin route gives a request without an authenticated session. */
  function Unauthorized(): Response {
    Failure(401, "Unauthorized")
  }

  predicate IsSuccess(r: Response) {
    r.status == 200
  }

  /** A route's answer and the table it leaves behind. */
  datatype Outcome = Outcome(response: Response, table: TableState)
}
