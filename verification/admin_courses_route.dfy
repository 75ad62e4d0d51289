/** `GET` and `POST /api/admin/courses`: the admin list of courses and the
    creation of a course. */
module AdminCoursesRoute {
  import opened Base
  import opened Json
  import opened Store
  import opened Envelope

  const LoadFailed: string := "Failed to load courses."
  const InvalidJson: string := "Invalid JSON in request body."
  const MissingFields: string :=
    "Missing required fields. Please provide title, slug, category, description, duration, schedule, location, and trainer."
  const CourseSaved: string := "Course created successfully."
  const SaveFailed: string := "Failed to create course. Please try again."

  /** Every course, newest first, with status 200; status 500 when the store
      does not answer. */
  function Get(db: Db, env: Env): (r: Response)
    ensures env.reachable ==>
      && r.Reply? && r.status == 200 && r.body.success && r.body.data.CourseList?
      && NewestFirst(r.body.data.courses)
      && multiset(r.body.data.courses) == multiset(db.courses)
    ensures !env.reachable ==> r == ErrorReply(500, LoadFailed)
  {
    if env.reachable then OkReply(200, None, CourseList(FindManyNewestFirst(db.courses)))
    else ErrorReply(500, LoadFailed)
  }

  /** The eight names the handler requires, in the order of its check. */
  const FieldNames: seq<string> :=
    ["title", "slug", "category", "description", "duration", "schedule", "location", "trainer"]

  /** The required-fields check: every one of the eight values must be truthy. */
  predicate AllPresent(fields: map<string, Value>)
  {
    forall k :: 0 <= k < |FieldNames| ==> Truthy(Json.Get(fields, FieldNames[k]))
  }

  /** The `data` object built from the eight checked members. */
  function Data(fields: map<string, Value>): (d: CourseData)
    requires AllPresent(fields)
    ensures Some(d.title) == Json.Get(fields, "title") && Some(d.slug) == Json.Get(fields, "slug")
    ensures Some(d.category) == Json.Get(fields, "category") && Some(d.description) == Json.Get(fields, "description")
    ensures Some(d.duration) == Json.Get(fields, "duration") && Some(d.schedule) == Json.Get(fields, "schedule")
    ensures Some(d.location) == Json.Get(fields, "location") && Some(d.trainer) == Json.Get(fields, "trainer")
  {
    assert Truthy(Json.Get(fields, FieldNames[0])) && Truthy(Json.Get(fields, FieldNames[1]));
    assert Truthy(Json.Get(fields, FieldNames[2])) && Truthy(Json.Get(fields, FieldNames[3]));
    assert Truthy(Json.Get(fields, FieldNames[4])) && Truthy(Json.Get(fields, FieldNames[5]));
    assert Truthy(Json.Get(fields, FieldNames[6])) && Truthy(Json.Get(fields, FieldNames[7]));
    CourseData(fields["title"], fields["slug"], fields["category"], fields["description"],
               fields["duration"], fields["schedule"], fields["location"], fields["trainer"])
  }

  /** The create handler. A malformed body gives 400 before the store is
      touched, a body of `null` throws while it is destructured, a failed create
      gives 500 with a fixed message, and a created course is echoed with 201. */
  function Post(body: Body, db: Db, env: Env): (h: Handled)
    ensures body.Unparseable? ==> h == Handled(ErrorReply(400, InvalidJson), db)
    ensures body.NullBody? ==> h == Handled(Uncaught, db)
    ensures body.Members? && !AllPresent(body.fields) ==> h == Handled(ErrorReply(400, MissingFields), db)
    ensures body.Members? && AllPresent(body.fields) ==>
      var c := CreateCourse(db, env, Data(body.fields));
      && (c.CreateFailed? ==> h == Handled(ErrorReply(500, SaveFailed), c.db))
      && (c.Created? ==> h == Handled(OkReply(201, Some(CourseSaved), OneCourse(c.row)), c.db))
  {
    match body
    case Unparseable => Handled(ErrorReply(400, InvalidJson), db)
    case NullBody => Handled(Uncaught, db)
    case Members(fields) =>
      if !AllPresent(fields) then Handled(ErrorReply(400, MissingFields), db)
      else
        match CreateCourse(db, env, Data(fields))
        case CreateFailed(db') => Handled(ErrorReply(500, SaveFailed), db')
        case Created(row, db') => Handled(OkReply(201, Some(CourseSaved), OneCourse(row)), db')
  }

  /** A course is created exactly when all eight members are non-empty strings,
      the slug is free and the store answers. The new course carries the posted
      text unchanged, a fresh id and the current time, is appended to the table,
      and keeps the table's invariants; any other outcome leaves the rows of both
      tables as they were. */
  lemma PostCreatesPostedCourse(body: Body, db: Db, env: Env)
    requires Valid(db)
    ensures var h := Post(body, db, env);
      && (h.response.Reply? && h.response.status == 201 <==>
           && body.Members? && AllPresent(body.fields) && env.reachable
           && TextFields(Data(body.fields)).Some?
           && !SlugTaken(db.courses, body.fields["slug"].s))
      && (h.response.Reply? && h.response.status == 201 ==>
           && h.response.body.data.OneCourse?
           && var c := h.response.body.data.course;
           && JString(c.fields.title) == body.fields["title"]
           && JString(c.fields.slug) == body.fields["slug"]
           && JString(c.fields.category) == body.fields["category"]
           && JString(c.fields.description) == body.fields["description"]
           && JString(c.fields.duration) == body.fields["duration"]
           && JString(c.fields.schedule) == body.fields["schedule"]
           && JString(c.fields.location) == body.fields["location"]
           && JString(c.fields.trainer) == body.fields["trainer"]
           && c.id == db.nextCourseId && c.createdAt == env.now
           && h.db.courses == db.courses + [c]
           && h.db.registrations == db.registrations
           && Valid(h.db))
      && (!(h.response.Reply? && h.response.status == 201) ==>
           h.db.courses == db.courses && h.db.registrations == db.registrations && Valid(h.db))
  {
    if body.Members? && AllPresent(body.fields) {
      CreateCourseKeepsValid(db, env, Data(body.fields));
    }
  }

  /** Posting a slug that is already in the table never creates a second course
      with it: the rows stay as they were. */
  lemma TakenSlugIsRefused(body: Body, db: Db, env: Env)
    requires body.Members? && "slug" in body.fields && body.fields["slug"].JString?
    requires SlugTaken(db.courses, body.fields["slug"].s)
    ensures Post(body, db, env).db.courses == db.courses
    ensures Post(body, db, env).db.registrations == db.registrations
    ensures Post(body, db, env).response.Reply? && Post(body, db, env).response.status != 201
  {
  }
}
