/** End-to-end behaviour: the client pages composed with the handlers they call.
    The JSON a page sends is handed to the handler as the handler's
    `request.json()` reads it, and the handler's response is handed back to the
    page. */
module Flows {
  import opened Base
  import opened Json
  import opened Store
  import opened Envelope
  import AdminCoursesRoute
  import CoursesRoute
  import RegisterRoute
  import AdminCoursesPage
  import RegistrationForm

  /** A course created through the admin API is then found by its slug through
      the public API, with exactly the fields that were posted. */
  lemma CreatedCourseIsFoundBySlug(body: Body, db: Db, env: Env, env2: Env)
    requires Valid(db) && env2.reachable
    requires var r := AdminCoursesRoute.Post(body, db, env).response; r.Reply? && r.status == 201
    ensures var h := AdminCoursesRoute.Post(body, db, env);
      var created := h.response.body.data.course;
      CoursesRoute.Get(Some(created.fields.slug), h.db, env2) == OkReply(200, None, OneCourse(created))
  {
    AdminCoursesRoute.PostCreatesPostedCourse(body, db, env);
    var h := AdminCoursesRoute.Post(body, db, env);
    var created := h.response.body.data.course;
    var n := |db.courses|;
    assert h.db.courses[n] == created;
    assert Truthy(Json.Get(body.fields, AdminCoursesRoute.FieldNames[1]));
    CoursesRoute.LookupIsTheCourseWithThatSlug(created.fields.slug, h.db, env2, n);
  }

  /** The admin create form against the create handler: with all eight fields
      filled, a free slug and a store that answers, the new course, carrying the
      form's values, goes to the front of the list and the form is emptied;
      otherwise the list and the form stay and the create error shows. */
  lemma AdminCreateFlow(s: AdminCoursesPage.PageState, db: Db, env: Env)
    requires s.mode == AdminCoursesPage.Create
    ensures var t := AdminCoursesPage.BeginSubmit(s);
      var reply := AdminCoursesRoute.Post(AdminCoursesPage.RequestBody(t.form), db, env).response;
      var u := AdminCoursesPage.FinishSubmit(t, reply);
      && !u.saving
      && (FormComplete(s.form) && env.reachable && !SlugTaken(db.courses, s.form.slug) ==>
           && u.courses == [Course(db.nextCourseId, s.form, env.now)] + s.courses
           && u.mode == AdminCoursesPage.Create && u.form == AdminCoursesPage.EmptyForm && u.formError.None?)
      && (!(FormComplete(s.form) && env.reachable && !SlugTaken(db.courses, s.form.slug)) ==>
           && u.courses == s.courses && u.form == s.form
           && u.formError == Some(AdminCoursesPage.CreateError))
  {
    var t := AdminCoursesPage.BeginSubmit(s);
    var body := AdminCoursesPage.RequestBody(t.form);
    FormBodyPresence(t.form);
    if AdminCoursesRoute.AllPresent(body.fields) {
      FormBodyData(t.form);
    }
  }

  /** Every one of the eight form values is non-empty. */
  predicate FormComplete(f: CourseFields)
  {
    forall field :: AdminCoursesPage.FieldValue(f, field) != ""
  }

  lemma FormBodyPresence(f: CourseFields)
    ensures var b := AdminCoursesPage.RequestBody(f);
      AdminCoursesRoute.AllPresent(b.fields) <==> FormComplete(f)
  {
    var b := AdminCoursesPage.RequestBody(f);
    assert forall k :: 0 <= k < 8 ==> AdminCoursesRoute.FieldNames[k] == AdminCoursesPage.FieldKey(KeyField(k));
    if FormComplete(f) {
      forall k | 0 <= k < |AdminCoursesRoute.FieldNames|
        ensures Truthy(Json.Get(b.fields, AdminCoursesRoute.FieldNames[k]))
      {
        assert AdminCoursesPage.FieldValue(f, KeyField(k)) != "";
      }
    }
    if AdminCoursesRoute.AllPresent(b.fields) {
      forall field
        ensures AdminCoursesPage.FieldValue(f, field) != ""
      {
        assert Truthy(Json.Get(b.fields, AdminCoursesRoute.FieldNames[FieldIndex(field)]));
      }
    }
  }

  lemma FormBodyData(f: CourseFields)
    requires AdminCoursesRoute.AllPresent(AdminCoursesPage.RequestBody(f).fields)
    ensures TextFields(AdminCoursesRoute.Data(AdminCoursesPage.RequestBody(f).fields)) == Some(f)
  {
    var b := AdminCoursesPage.RequestBody(f);
    assert b.fields["title"] == JString(f.title) && b.fields["slug"] == JString(f.slug);
  }

  /** The form field checked at each position of the handler's list. */
  function KeyField(k: int): AdminCoursesPage.Field
    requires 0 <= k < 8
  {
    [AdminCoursesPage.Title, AdminCoursesPage.Slug, AdminCoursesPage.Category, AdminCoursesPage.Description,
     AdminCoursesPage.Duration, AdminCoursesPage.Schedule, AdminCoursesPage.Location, AdminCoursesPage.Trainer][k]
  }

  function FieldIndex(field: AdminCoursesPage.Field): (k: int)
    ensures 0 <= k < 8 && KeyField(k) == field
  {
    match field
    case Title => 0
    case Slug => 1
    case Category => 2
    case Description => 3
    case Duration => 4
    case Schedule => 5
    case Location => 6
    case Trainer => 7
  }

  /** The initial load of the admin page shows every course, newest first. */
  lemma AdminLoadShowsAllCourses(s: AdminCoursesPage.PageState, db: Db, env: Env)
    requires env.reachable
    ensures var u := AdminCoursesPage.Loaded(s, AdminCoursesRoute.Get(db, env));
      && !u.loading && u.loadError.None?
      && NewestFirst(u.courses) && multiset(u.courses) == multiset(db.courses)
  {
  }

  /** The registration form against the register handler. A complete form for
      an existing course, with an `@` in the email, is saved with exactly the typed
      values and the form is emptied; an email without `@` is refused with the
      server's message and the typed values stay. */
  lemma RegistrationFlow(s: RegistrationForm.FormState, courseId: int, db: Db, env: Env)
    requires s.values.fullName != "" && s.values.email != "" && s.values.phone != ""
    ensures var t := RegistrationForm.BeginSubmit(s);
      var h := RegisterRoute.Post(RegistrationForm.RequestBody(t, courseId), db, env);
      var u := RegistrationForm.FinishSubmit(t, h.response);
      && ('@' !in s.values.email ==>
           && u.status == Error && u.values == s.values
           && u.errorMessage == Some(RegisterRoute.InvalidEmail) && h.db == db)
      && ('@' in s.values.email && env.reachable && HasCourse(db, courseId) ==>
           && u.status == Success && u.values == RegistrationForm.EmptyValues && u.errorMessage.None?
           && h.db.registrations == db.registrations +
                [Registration(db.nextRegistrationId, s.values.fullName, s.values.email, s.values.phone,
                              courseId, env.now)])
  {
    var t := RegistrationForm.BeginSubmit(s);
    var body := RegistrationForm.RequestBody(t, courseId);
    assert Json.Get(body.fields, "fullName") == Some(JString(s.values.fullName));
    assert Json.Get(body.fields, "email") == Some(JString(s.values.email));
    assert Json.Get(body.fields, "phone") == Some(JString(s.values.phone));
    assert Json.Get(body.fields, "courseId") == Some(JNumber(courseId as real));
    assert !RegisterRoute.MissingOrInvalid(body.fields);
    assert IsInteger(courseId as real);
  }

  /** A registration form with an empty name is refused with the missing-fields
      message, whatever the email looks like. */
  lemma EmptyNameFlow(s: RegistrationForm.FormState, courseId: int, db: Db, env: Env)
    requires s.values.fullName == ""
    ensures var t := RegistrationForm.BeginSubmit(s);
      var u := RegistrationForm.FinishSubmit(t, RegisterRoute.Post(RegistrationForm.RequestBody(t, courseId), db, env).response);
      u.status == Error && u.errorMessage == Some(RegisterRoute.MissingFields) && u.values == s.values
  {
    var body := RegistrationForm.RequestBody(RegistrationForm.BeginSubmit(s), courseId);
    assert Json.Get(body.fields, "fullName") == Some(JString(""));
  }
}
