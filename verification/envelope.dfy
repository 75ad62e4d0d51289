/** The uniform JSON response of the API handlers,
    `{ success, message?, error?, data? }`, with its HTTP status. */
module Envelope {
  import opened Base
  import opened Store

  /** The `data` member, by what the handler put there. */
  datatype Data =
    | NoData
    | OneCourse(course: Course)
    | CourseList(courses: seq<Course>)
    | SavedRegistration(registration: Registration)

  datatype Envelope = Envelope(success: bool, message: Option<string>, error: Option<string>, data: Data)

  /** What the client receives: a `NextResponse.json(...)` reply, or, when an
      exception escapes the handler, the framework's own error page (status 500,
      not JSON). */
  datatype Response = Reply(status: int, body: Envelope) | Uncaught

  /** A response together with the database as the request leaves it. */
  datatype Handled = Handled(response: Response, db: Db)

  /** A failure envelope: `success: false` and an `error` text, nothing else. */
  function ErrorReply(status: int, error: string): (r: Response)
    ensures r.Reply? && r.status == status && !r.body.success
    ensures r.body.error == Some(error) && r.body.message.None? && r.body.data.NoData?
  {
    Reply(status, Envelope(false, None, Some(error), NoData))
  }

  /** A success envelope: `success: true`, an optional `message`, the data, no `error`. */
  function OkReply(status: int, message: Option<string>, data: Data): (r: Response)
    ensures r.Reply? && r.status == status && r.body.success
    ensures r.body.error.None? && r.body.message == message && r.body.data == data
  {
    Reply(status, Envelope(true, message, None, data))
  }

  /** `response.ok`: a status in 200..299. */
  predicate IsOk(r: Response)
  {
    r.Reply? && 200 <= r.status <= 299
  }
}
