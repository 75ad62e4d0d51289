/** The database behind the API, seen through the ORM calls the handlers make.
    Each table is a sequence of rows with an autoincrement counter; a call either
    returns or throws. The constraints the handlers rely on without checking them
    themselves are made explicit here: `slug` is unique (the handlers look courses
    up with `findUnique({ where: { slug } })`), a registration must reference an
    existing course, every text column needs a string and `courseId` an integer. */
module Store {
  import opened Base
  import opened Json

  /** The eight descriptive fields of a course, as entered in the admin form. */
  datatype CourseFields = CourseFields(
    title: string,
    slug: string,
    category: string,
    description: string,
    duration: string,
    schedule: string,
    location: string,
    trainer: string)

  /** A course row: a store-assigned id and creation time, and the eight fields. */
  datatype Course = Course(id: int, fields: CourseFields, createdAt: Timestamp)

  /** A registration row. */
  datatype Registration = Registration(
    id: int,
    fullName: string,
    email: string,
    phone: string,
    courseId: int,
    createdAt: Timestamp)

  /** The two tables and their autoincrement counters. */
  datatype Db = Db(
    courses: seq<Course>,
    registrations: seq<Registration>,
    nextCourseId: int,
    nextRegistrationId: int)

  /** What the database does for one request besides reading its tables: whether
      it answers at all, and the time its `now()` default gives new rows. */
  datatype Env = Env(reachable: bool, now: Timestamp)

  // ---------------------------------------------------------------------------
  // Constraints
  // ---------------------------------------------------------------------------

  predicate HasCourse(db: Db, id: int)
  {
    exists i :: 0 <= i < |db.courses| && db.courses[i].id == id
  }

  predicate SlugTaken(courses: seq<Course>, slug: string)
  {
    exists i :: 0 <= i < |courses| && courses[i].fields.slug == slug
  }

  /** The database's invariants: unique slugs, unique ids below the counters, and
      every registration pointing at an existing course. */
  predicate Valid(db: Db)
  {
    && (forall i, j :: 0 <= i < j < |db.courses| ==> db.courses[i].fields.slug != db.courses[j].fields.slug)
    && (forall i :: 0 <= i < |db.courses| ==> db.courses[i].id < db.nextCourseId)
    && (forall i, j :: 0 <= i < j < |db.courses| ==> db.courses[i].id != db.courses[j].id)
    && (forall i :: 0 <= i < |db.registrations| ==> db.registrations[i].id < db.nextRegistrationId)
    && (forall i, j :: 0 <= i < j < |db.registrations| ==> db.registrations[i].id != db.registrations[j].id)
    && (forall i :: 0 <= i < |db.registrations| ==> HasCourse(db, db.registrations[i].courseId))
  }

  // ---------------------------------------------------------------------------
  // Reads
  // ---------------------------------------------------------------------------

  /** `prisma.course.findUnique({ where: { slug } })` */
  function FindUniqueBySlug(courses: seq<Course>, slug: string): (r: Option<Course>)
    ensures r.None? <==> !SlugTaken(courses, slug)
    ensures r.Some? ==> r.value in courses && r.value.fields.slug == slug
  {
    if |courses| == 0 then None
    else if courses[0].fields.slug == slug then Some(courses[0])
    else
      var r := FindUniqueBySlug(courses[1..], slug);
      assert SlugTaken(courses[1..], slug) ==> SlugTaken(courses, slug) by {
        if SlugTaken(courses[1..], slug) {
          var i :| 0 <= i < |courses[1..]| && courses[1..][i].fields.slug == slug;
          assert courses[i + 1].fields.slug == slug;
        }
      }
      r
  }

  /** A list in the order `orderBy: { createdAt: "desc" }` asks for. */
  predicate NewestFirst(cs: seq<Course>)
  {
    forall i, j :: 0 <= i < j < |cs| ==> cs[i].createdAt >= cs[j].createdAt
  }

  function InsertByDate(c: Course, sorted: seq<Course>): (r: seq<Course>)
    requires NewestFirst(sorted)
    ensures NewestFirst(r)
    ensures multiset(r) == multiset(sorted) + multiset{c}
  {
    if |sorted| == 0 then [c]
    else if c.createdAt >= sorted[0].createdAt then [c] + sorted
    else
      var rest := InsertByDate(c, sorted[1..]);
      InsertBelowHead(c, sorted, rest);
      assert sorted == [sorted[0]] + sorted[1..];
      [sorted[0]] + rest
  }

  /** Inserting behind the head of a sorted list keeps everything at most as new
      as the head. */
  lemma InsertBelowHead(c: Course, sorted: seq<Course>, rest: seq<Course>)
    requires NewestFirst(sorted) && |sorted| > 0 && c.createdAt < sorted[0].createdAt
    requires multiset(rest) == multiset(sorted[1..]) + multiset{c}
    ensures forall k :: 0 <= k < |rest| ==> rest[k].createdAt <= sorted[0].createdAt
  {
    forall k | 0 <= k < |rest|
      ensures rest[k].createdAt <= sorted[0].createdAt
    {
      assert rest[k] in multiset(rest);
      if rest[k] != c {
        assert rest[k] in multiset(sorted[1..]);
        var m :| 0 <= m < |sorted[1..]| && sorted[1..][m] == rest[k];
        assert sorted[m + 1] == rest[k];
      }
    }
  }

  /** `prisma.course.findMany({ orderBy: { createdAt: "desc" } })`: the table's
      rows, newest first. Rows created at the same instant come in no order the
      handlers rely on. */
  function FindManyNewestFirst(courses: seq<Course>): (r: seq<Course>)
    ensures NewestFirst(r)
    ensures multiset(r) == multiset(courses)
  {
    if |courses| == 0 then []
    else
      assert courses == [courses[0]] + courses[1..];
      InsertByDate(courses[0], FindManyNewestFirst(courses[1..]))
  }

  // ---------------------------------------------------------------------------
  // Writes
  // ---------------------------------------------------------------------------

  /** The result of a `create` call: the new row and the tables after it, or the
      error the call throws together with the tables after it. A failed call
      leaves the rows as they were, but an `INSERT` the database itself refuses
      (a unique or foreign-key violation) has already drawn the next value of the
      id sequence, which PostgreSQL does not give back. */
  datatype Created<T> = Created(row: T, db: Db) | CreateFailed(db: Db)

  /** The `data` object handed to `prisma.course.create`: the eight values as the
      request carried them. */
  datatype CourseData = CourseData(
    title: Value,
    slug: Value,
    category: Value,
    description: Value,
    duration: Value,
    schedule: Value,
    location: Value,
    trainer: Value)

  /** The eight values as text columns, when every one of them is a string. */
  function TextFields(d: CourseData): (r: Option<CourseFields>)
    ensures r.Some? <==>
      d.title.JString? && d.slug.JString? && d.category.JString? && d.description.JString?
      && d.duration.JString? && d.schedule.JString? && d.location.JString? && d.trainer.JString?
    ensures r.Some? ==> r.value == CourseFields(d.title.s, d.slug.s, d.category.s, d.description.s,
                                                d.duration.s, d.schedule.s, d.location.s, d.trainer.s)
  {
    match (d.title, d.slug, d.category, d.description, d.duration, d.schedule, d.location, d.trainer)
    case (JString(a), JString(b), JString(c), JString(e), JString(f), JString(g), JString(h), JString(k)) =>
      Some(CourseFields(a, b, c, e, f, g, h, k))
    case _ => None
  }

  /** `prisma.course.create({ data })`: throws when the database does not answer
      or a value is not a string, both before any SQL is sent, and when the slug
      is already taken, after the id has been drawn; otherwise appends a row with
      the next id and the current time. */
  function CreateCourse(db: Db, env: Env, d: CourseData): (r: Created<Course>)
    ensures r.Created? <==>
      env.reachable && TextFields(d).Some? && !SlugTaken(db.courses, TextFields(d).value.slug)
    ensures r.Created? ==>
      && r.row == Course(db.nextCourseId, TextFields(d).value, env.now)
      && r.db == db.(courses := db.courses + [r.row], nextCourseId := db.nextCourseId + 1)
    ensures r.CreateFailed? && env.reachable && TextFields(d).Some? ==>
      r.db == db.(nextCourseId := db.nextCourseId + 1)
    ensures r.CreateFailed? && !(env.reachable && TextFields(d).Some?) ==> r.db == db
  {
    if !env.reachable then CreateFailed(db)
    else
      match TextFields(d)
      case None => CreateFailed(db)
      case Some(f) =>
        if SlugTaken(db.courses, f.slug) then CreateFailed(db.(nextCourseId := db.nextCourseId + 1))
        else
          var c := Course(db.nextCourseId, f, env.now);
          Created(c, db.(courses := db.courses + [c], nextCourseId := db.nextCourseId + 1))
  }

  /** The `data` object handed to `prisma.registration.create`. The email has
      already been used as a string by the handler; the other values are as the
      request carried them. */
  datatype RegistrationData = RegistrationData(fullName: Value, email: string, phone: Value, courseId: real)

  predicate IsInteger(n: real)
  {
    n.Floor as real == n
  }

  /** `prisma.registration.create({ data })`: throws when the database does not
      answer, when a name or phone is not a string or when `courseId` is not an
      integer, all before any SQL is sent, and when `courseId` names no course,
      after the id has been drawn; otherwise appends a row with the next id and
      the current time. */
  function CreateRegistration(db: Db, env: Env, d: RegistrationData): (r: Created<Registration>)
    ensures r.Created? <==>
      env.reachable && d.fullName.JString? && d.phone.JString? && IsInteger(d.courseId)
      && HasCourse(db, d.courseId.Floor)
    ensures r.Created? ==>
      && r.row == Registration(db.nextRegistrationId, d.fullName.s, d.email, d.phone.s, d.courseId.Floor, env.now)
      && r.db == db.(registrations := db.registrations + [r.row], nextRegistrationId := db.nextRegistrationId + 1)
    ensures r.CreateFailed? && env.reachable && d.fullName.JString? && d.phone.JString? && IsInteger(d.courseId) ==>
      r.db == db.(nextRegistrationId := db.nextRegistrationId + 1)
    ensures r.CreateFailed? && !(env.reachable && d.fullName.JString? && d.phone.JString? && IsInteger(d.courseId)) ==>
      r.db == db
  {
    if !env.reachable || !d.fullName.JString? || !d.phone.JString? || !IsInteger(d.courseId) then CreateFailed(db)
    else if !HasCourse(db, d.courseId.Floor) then CreateFailed(db.(nextRegistrationId := db.nextRegistrationId + 1))
    else
      var row := Registration(db.nextRegistrationId, d.fullName.s, d.email, d.phone.s, d.courseId.Floor, env.now);
      Created(row, db.(registrations := db.registrations + [row], nextRegistrationId := db.nextRegistrationId + 1))
  }

  // ---------------------------------------------------------------------------
  // Invariants
  // ---------------------------------------------------------------------------

  /** A create call, whether it succeeds or fails, keeps slugs and ids unique
      and every registration's course present, and never changes the rows of the
      registrations table. */
  lemma CreateCourseKeepsValid(db: Db, env: Env, d: CourseData)
    requires Valid(db)
    ensures Valid(CreateCourse(db, env, d).db)
    ensures CreateCourse(db, env, d).db.registrations == db.registrations
  {
    var r := CreateCourse(db, env, d);
    if r.Created? {
      var db' := r.db;
      var n := |db.courses|;
      assert db'.courses[n] == r.row;
      assert forall i :: 0 <= i < n ==> db'.courses[i] == db.courses[i];
      assert !SlugTaken(db.courses, r.row.fields.slug);
      forall k | 0 <= k < |db'.registrations|
        ensures HasCourse(db', db'.registrations[k].courseId)
      {
        var id := db.registrations[k].courseId;
        assert HasCourse(db, id);
        var i :| 0 <= i < n && db.courses[i].id == id;
        assert db'.courses[i].id == id;
      }
    }
  }

  /** A create call, whether it succeeds or fails, keeps ids unique and only
      ever records a registration for an existing course, and never changes the
      courses table. */
  lemma CreateRegistrationKeepsValid(db: Db, env: Env, d: RegistrationData)
    requires Valid(db)
    ensures Valid(CreateRegistration(db, env, d).db)
    ensures CreateRegistration(db, env, d).db.courses == db.courses
  {
    var r := CreateRegistration(db, env, d);
    if r.Created? {
      var db' := r.db;
      var n := |db.registrations|;
      assert db'.registrations[n] == r.row;
      assert forall i :: 0 <= i < n ==> db'.registrations[i] == db.registrations[i];
      assert db'.courses == db.courses;
      forall k | 0 <= k < |db'.registrations|
        ensures HasCourse(db', db'.registrations[k].courseId)
      {
        if k < n {
          assert HasCourse(db, db.registrations[k].courseId);
        }
      }
    }
  }
}
