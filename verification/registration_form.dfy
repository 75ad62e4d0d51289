/** The registration form on a course page: three inputs, a submission status
    and an error message, and the request it sends to `POST /api/register`.
    A request whose `fetch` throws, or whose reply is not JSON, is passed as
    `Uncaught`: the handler's `catch` takes both. */
module RegistrationForm {
  import opened Base
  import opened Json
  import opened Envelope

  const DefaultError: string := "We could not save your registration. Please try again."
  const GenericError: string := "Something went wrong. Please try again or contact us directly."

  datatype Values = Values(fullName: string, email: string, phone: string)

  datatype Field = FullName | Email | Phone

  datatype FormState = FormState(values: Values, status: FormStatus, errorMessage: Option<string>)

  const EmptyValues: Values := Values("", "", "")

  const Initial: FormState := FormState(EmptyValues, Idle, None)

  /** The form starts idle, with no message and all three inputs empty. */
  lemma InitialIsIdleAndEmpty()
    ensures Initial.status == Idle && Initial.errorMessage.None?
    ensures forall field :: FieldValue(Initial.values, field) == ""
  {
  }

  function FieldValue(v: Values, field: Field): string
  {
    match field
    case FullName => v.fullName
    case Email => v.email
    case Phone => v.phone
  }

  /** One keystroke in one input: that field takes the value, the others and
      the status stay. */
  function HandleChange(s: FormState, field: Field, value: string): (r: FormState)
    ensures FieldValue(r.values, field) == value
    ensures forall g :: g != field ==> FieldValue(r.values, g) == FieldValue(s.values, g)
    ensures r.status == s.status && r.errorMessage == s.errorMessage
  {
    var v := match field
      case FullName => s.values.(fullName := value)
      case Email => s.values.(email := value)
      case Phone => s.values.(phone := value)
    ;
    s.(values := v)
  }

  /** The button's disabled flag. */
  predicate IsSubmitting(s: FormState)
  {
    s.status == Submitting
  }

  /** The start of `handleSubmit`. */
  function BeginSubmit(s: FormState): (r: FormState)
    ensures IsSubmitting(r) && r.errorMessage.None? && r.values == s.values
  {
    s.(status := Submitting, errorMessage := None)
  }

  /** The JSON body sent, as the server's `request.json()` reads it back: the
      three current values as strings and the `courseId` prop as a number. */
  function RequestBody(s: FormState, courseId: int): (b: Body)
    ensures b.Members? && b.fields.Keys == {"fullName", "email", "phone", "courseId"}
    ensures b.fields["fullName"] == JString(s.values.fullName)
    ensures b.fields["email"] == JString(s.values.email)
    ensures b.fields["phone"] == JString(s.values.phone)
    ensures b.fields["courseId"] == JNumber(courseId as real)
  {
    Members(map["fullName" := JString(s.values.fullName), "email" := JString(s.values.email),
                "phone" := JString(s.values.phone), "courseId" := JNumber(courseId as real)])
  }

  /** The end of `handleSubmit`. A 2xx reply with `success` clears the three
      inputs; any other JSON reply shows the server's `error`, or a default when
      it has none, and keeps the inputs; a thrown request shows the generic
      message and keeps the inputs. */
  function FinishSubmit(s: FormState, reply: Response): (r: FormState)
    ensures r.status == Success <==> IsOk(reply) && reply.body.success
    ensures r.status == Success ==> r.values == EmptyValues && r.errorMessage == s.errorMessage
    ensures r.status != Success ==> r.status == Error && r.values == s.values
    ensures reply.Uncaught? ==> r.errorMessage == Some(GenericError)
    ensures reply.Reply? && !(IsOk(reply) && reply.body.success) ==>
      r.errorMessage == Some(if reply.body.error.Some? then reply.body.error.value else DefaultError)
  {
    match reply
    case Uncaught => s.(status := Error, errorMessage := Some(GenericError))
    case Reply(status, body) =>
      if !IsOk(reply) || !body.success then
        s.(status := Error, errorMessage := Some(if body.error.Some? then body.error.value else DefaultError))
      else
        s.(status := Success, values := EmptyValues)
  }

  /** A whole submission never leaves the form submitting, and after a success
      there is no error message to show. */
  lemma SubmissionSettles(s: FormState, reply: Response)
    ensures !IsSubmitting(FinishSubmit(BeginSubmit(s), reply))
    ensures FinishSubmit(BeginSubmit(s), reply).status == Success ==>
      FinishSubmit(BeginSubmit(s), reply).errorMessage.None?
    ensures FinishSubmit(BeginSubmit(s), reply).status == Error ==>
      FinishSubmit(BeginSubmit(s), reply).errorMessage.Some?
  {
  }
}
