/** `GET /api/courses`: the public list of courses, or one course by its slug. */
module CoursesRoute {
  import opened Base
  import opened Store
  import opened Envelope

  const NotFound: string := "Course not found"
  const FetchFailed: string := "Something went wrong while fetching courses."

  /** The handler, given the `slug` search parameter (`None` when it is absent).
      An empty slug counts as absent. */
  function Get(slug: Option<string>, db: Db, env: Env): (r: Response)
    ensures !env.reachable ==> r == ErrorReply(500, FetchFailed)
    ensures env.reachable && slug.Some? && slug.value != "" ==>
      if SlugTaken(db.courses, slug.value) then
        && r.Reply? && r.status == 200 && r.body.success && r.body.data.OneCourse?
        && r.body.data.course in db.courses && r.body.data.course.fields.slug == slug.value
      else r == ErrorReply(404, NotFound)
    ensures env.reachable && (slug.None? || slug.value == "") ==>
      && r.Reply? && r.status == 200 && r.body.success && r.body.data.CourseList?
      && NewestFirst(r.body.data.courses) && multiset(r.body.data.courses) == multiset(db.courses)
  {
    if !env.reachable then ErrorReply(500, FetchFailed)
    else if slug.Some? && slug.value != "" then
      match FindUniqueBySlug(db.courses, slug.value)
      case None => ErrorReply(404, NotFound)
      case Some(c) => OkReply(200, None, OneCourse(c))
    else OkReply(200, None, CourseList(FindManyNewestFirst(db.courses)))
  }

  /** With slugs unique, the course a slug lookup returns is the only course in
      the table with that slug. */
  lemma LookupIsTheCourseWithThatSlug(slug: string, db: Db, env: Env, i: int)
    requires Valid(db) && env.reachable && slug != ""
    requires 0 <= i < |db.courses| && db.courses[i].fields.slug == slug
    ensures Get(Some(slug), db, env) == OkReply(200, None, OneCourse(db.courses[i]))
  {
    var r := Get(Some(slug), db, env);
    assert SlugTaken(db.courses, slug);
    var c := r.body.data.course;
    var j :| 0 <= j < |db.courses| && db.courses[j] == c;
    assert j == i;
  }
}
