/** `POST /api/register`: records a learner's registration for a course. */
module RegisterRoute {
  import opened Base
  import opened Json
  import opened Store
  import opened Envelope

  const InvalidJson: string := "Invalid JSON in request body."
  const MissingFields: string := "Missing or invalid fields. Please provide fullName, email, phone, and courseId."
  const InvalidEmail: string := "Please provide a valid email address."
  const SaveFailed: string := "Something went wrong while saving the registration. Please try again later."
  const Saved: string := "Registration saved successfully."

  /** The first check: `fullName`, `email` and `phone` must be truthy and
      `courseId` must be a number. */
  predicate MissingOrInvalid(fields: map<string, Value>)
  {
    || !Truthy(Get(fields, "fullName"))
    || !Truthy(Get(fields, "email"))
    || !Truthy(Get(fields, "phone"))
    || !IsNumber(Get(fields, "courseId"))
  }

  /** Everything the handler decides before touching the store: either the
      response it gives right away, or the arguments of the create call. */
  function Validate(body: Body): (r: Result<RegistrationData, Response>)
    ensures body.Unparseable? ==> r == Err(ErrorReply(400, InvalidJson))
    ensures body.NullBody? ==> r == Err(Uncaught)
    ensures body.Members? && MissingOrInvalid(body.fields) ==> r == Err(ErrorReply(400, MissingFields))
    ensures body.Members? && !MissingOrInvalid(body.fields) ==>
      match body.fields["email"]
      case JString(e) => ('@' in e ==> r.Ok?) && ('@' !in e ==> r == Err(ErrorReply(400, InvalidEmail)))
      case _ => r == Err(Uncaught)
    ensures r.Ok? ==>
      && body.Members? && "fullName" in body.fields && "phone" in body.fields && "courseId" in body.fields
      && r.value.fullName == body.fields["fullName"]
      && body.fields["email"] == JString(r.value.email) && '@' in r.value.email
      && r.value.phone == body.fields["phone"]
      && body.fields["courseId"] == JNumber(r.value.courseId)
  {
    match body
    case Unparseable => Err(ErrorReply(400, InvalidJson))
    // Destructuring `null` throws before the handler's first check.
    case NullBody => Err(Uncaught)
    case Members(fields) =>
      if MissingOrInvalid(fields) then Err(ErrorReply(400, MissingFields))
      else
        match fields["email"]
        case JString(e) =>
          if '@' !in e then Err(ErrorReply(400, InvalidEmail))
          else Ok(RegistrationData(fields["fullName"], e, fields["phone"], fields["courseId"].n))
        // `email.includes` is not a function on a number or a boolean: a TypeError
        // outside the handler's try block.
        case _ => Err(Uncaught)
  }

  /** The handler: validation first, then one create call, then the envelope.
      A refused request leaves the store as it was and its response does not
      depend on the store; a failed create gives a fixed message that reveals
      nothing of the error and leaves the store as the failed call left it; a
      saved registration is echoed back with status 201. */
  function Post(body: Body, db: Db, env: Env): (h: Handled)
    ensures Validate(body).Err? ==> h == Handled(Validate(body).error, db)
    ensures Validate(body).Ok? && CreateRegistration(db, env, Validate(body).value).CreateFailed? ==>
      h == Handled(ErrorReply(500, SaveFailed), CreateRegistration(db, env, Validate(body).value).db)
    ensures Validate(body).Ok? && CreateRegistration(db, env, Validate(body).value).Created? ==>
      var c := CreateRegistration(db, env, Validate(body).value);
      h == Handled(OkReply(201, Some(Saved), SavedRegistration(c.row)), c.db)
  {
    match Validate(body)
    case Err(response) => Handled(response, db)
    case Ok(data) =>
      match CreateRegistration(db, env, data)
      case CreateFailed(db') => Handled(ErrorReply(500, SaveFailed), db')
      case Created(row, db') => Handled(OkReply(201, Some(Saved), SavedRegistration(row)), db')
  }

  /** A registration is saved exactly when the request passes validation, its
      course exists, its name and phone are strings and the store answers; the
      saved row, which the response echoes, holds exactly the posted values and
      is appended to the table. Any other outcome leaves both tables' rows as
      they were. */
  lemma PostSavesPostedValues(body: Body, db: Db, env: Env)
    requires Valid(db)
    ensures var h := Post(body, db, env);
      && (h.response.Reply? && h.response.status == 201 <==>
           && Validate(body).Ok?
           && env.reachable
           && body.fields["fullName"].JString? && body.fields["phone"].JString?
           && IsInteger(body.fields["courseId"].n)
           && HasCourse(db, body.fields["courseId"].n.Floor))
      && (h.response.Reply? && h.response.status == 201 ==>
           && h.response.body.data.SavedRegistration?
           && var row := h.response.body.data.registration;
           && JString(row.fullName) == body.fields["fullName"]
           && JString(row.email) == body.fields["email"]
           && JString(row.phone) == body.fields["phone"]
           && JNumber(row.courseId as real) == body.fields["courseId"]
           && h.db.registrations == db.registrations + [row]
           && Valid(h.db))
      && (!(h.response.Reply? && h.response.status == 201) ==>
           h.db.courses == db.courses && h.db.registrations == db.registrations && Valid(h.db))
  {
    var v := Validate(body);
    if v.Ok? {
      CreateRegistrationKeepsValid(db, env, v.value);
    }
  }

  /** The store is consulted only after validation: two stores answering
      differently give the same response to a request validation refuses. */
  lemma ValidationComesFirst(body: Body, db1: Db, env1: Env, db2: Db, env2: Env)
    requires Validate(body).Err?
    ensures Post(body, db1, env1).response == Post(body, db2, env2).response
    ensures Post(body, db1, env1).db == db1
  {
  }

  // Examples

  /** An empty full name is reported as a missing field even when the email
      has no `@` as well. */
  lemma MissingFieldsBeforeEmailShape(db: Db, env: Env)
    ensures var body := Members(map["fullName" := JString(""), "email" := JString("not-an-email"),
                                    "phone" := JString("123"), "courseId" := JNumber(1.0)]);
      Post(body, db, env).response == ErrorReply(400, MissingFields)
  {
    var fields := map["fullName" := JString(""), "email" := JString("not-an-email"),
                      "phone" := JString("123"), "courseId" := JNumber(1.0)];
    assert Get(fields, "fullName") == Some(JString(""));
  }

  /** An email without `@` is refused with 400. */
  lemma EmailWithoutAt(db: Db, env: Env)
    ensures var body := Members(map["fullName" := JString("Jane Doe"), "email" := JString("not-an-email"),
                                    "phone" := JString("123"), "courseId" := JNumber(1.0)]);
      Post(body, db, env).response == ErrorReply(400, InvalidEmail)
  {
    var fields := map["fullName" := JString("Jane Doe"), "email" := JString("not-an-email"),
                      "phone" := JString("123"), "courseId" := JNumber(1.0)];
    assert !MissingOrInvalid(fields) by {
      assert Get(fields, "fullName") == Some(JString("Jane Doe"));
      assert Get(fields, "email") == Some(JString("not-an-email"));
      assert Get(fields, "phone") == Some(JString("123"));
      assert Get(fields, "courseId") == Some(JNumber(1.0));
    }
    assert '@' !in "not-an-email";
  }

  /** A well-formed registration for course 1, when course 1 exists and the store
      answers, is saved with status 201 and echoes `courseId` 1. */
  lemma RegistrationForExistingCourse(db: Db, env: Env)
    requires env.reachable && HasCourse(db, 1)
    ensures var body := Members(map["fullName" := JString("Jane Doe"), "email" := JString("jane@example.com"),
                                    "phone" := JString("123"), "courseId" := JNumber(1.0)]);
      var r := Post(body, db, env).response;
      r.Reply? && r.status == 201 && r.body.success
      && r.body.data.SavedRegistration? && r.body.data.registration.courseId == 1
  {
    var fields := map["fullName" := JString("Jane Doe"), "email" := JString("jane@example.com"),
                      "phone" := JString("123"), "courseId" := JNumber(1.0)];
    assert !MissingOrInvalid(fields) by {
      assert Get(fields, "fullName") == Some(JString("Jane Doe"));
      assert Get(fields, "email") == Some(JString("jane@example.com"));
      assert Get(fields, "phone") == Some(JString("123"));
      assert Get(fields, "courseId") == Some(JNumber(1.0));
    }
    assert "jane@example.com"[4] == '@';
    assert IsInteger(1.0);
  }
}
