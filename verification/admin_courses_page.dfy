/** The admin courses page: its list of courses, the create/edit form and the
    handlers that change them. Each handler is a function from the page state
    (and, for the asynchronous ones, the reply the request received) to the next
    state. A request whose `fetch` throws, or whose reply is not JSON, is passed
    as `Uncaught`: the page's helpers throw in both cases. */
module AdminCoursesPage {
  import opened Base
  import opened Json
  import opened Store
  import opened Envelope

  const LoadError: string := "Could not load courses. Please try again."
  const CreateError: string := "Could not create course. Please check the fields and try again."
  const UpdateError: string := "Could not update course. Please check the fields and try again."
  const DeleteAlert: string := "Could not delete the course. Please try again."

  datatype Mode = Create | Edit

  /** The page's `useState` hooks. */
  datatype PageState = PageState(
    courses: seq<Course>,
    loading: bool,
    loadError: Option<string>,
    mode: Mode,
    activeId: Option<int>,
    form: CourseFields,
    formError: Option<string>,
    saving: bool)

  /** The eight keys of the form. */
  datatype Field = Title | Slug | Category | Description | Duration | Schedule | Location | Trainer

  function FieldValue(f: CourseFields, field: Field): string
  {
    match field
    case Title => f.title
    case Slug => f.slug
    case Category => f.category
    case Description => f.description
    case Duration => f.duration
    case Schedule => f.schedule
    case Location => f.location
    case Trainer => f.trainer
  }

  /** `{ ...previous, [field]: value }` */
  function WithField(f: CourseFields, field: Field, value: string): (r: CourseFields)
    ensures FieldValue(r, field) == value
    ensures forall g :: g != field ==> FieldValue(r, g) == FieldValue(f, g)
  {
    match field
    case Title => f.(title := value)
    case Slug => f.(slug := value)
    case Category => f.(category := value)
    case Description => f.(description := value)
    case Duration => f.(duration := value)
    case Schedule => f.(schedule := value)
    case Location => f.(location := value)
    case Trainer => f.(trainer := value)
  }

  /** Two forms that agree on every field are the same form. */
  lemma FieldsDetermineForm(f: CourseFields, g: CourseFields)
    requires forall field :: FieldValue(f, field) == FieldValue(g, field)
    ensures f == g
  {
    assert FieldValue(f, Title) == FieldValue(g, Title);
    assert FieldValue(f, Slug) == FieldValue(g, Slug);
    assert FieldValue(f, Category) == FieldValue(g, Category);
    assert FieldValue(f, Description) == FieldValue(g, Description);
    assert FieldValue(f, Duration) == FieldValue(g, Duration);
    assert FieldValue(f, Schedule) == FieldValue(g, Schedule);
    assert FieldValue(f, Location) == FieldValue(g, Location);
    assert FieldValue(f, Trainer) == FieldValue(g, Trainer);
  }

  const EmptyForm: CourseFields := CourseFields("", "", "", "", "", "", "", "")

  /** The state when the page first renders. */
  const Initial: PageState := PageState([], true, None, Create, None, EmptyForm, None, false)

  /** The page starts loading an empty list, in create mode with every field
      empty and nothing being saved: the form a reset to create mode gives. */
  lemma InitialIsResetCreateForm()
    ensures Initial.loading && Initial.courses == [] && Initial.loadError.None? && !Initial.saving
    ensures forall field :: FieldValue(Initial.form, field) == ""
    ensures ResetFormToCreate(Initial) == Initial
  {
  }

  // ---------------------------------------------------------------------------
  // Loading
  // ---------------------------------------------------------------------------

  /** The initial load: a 2xx reply with `success` and a list replaces the list
      and clears the load error; anything else keeps the list and shows the load
      error. Either way loading ends. */
  function Loaded(s: PageState, reply: Response): (r: PageState)
    ensures !r.loading
    ensures IsOk(reply) && reply.body.success && reply.body.data.CourseList? ==>
      r == s.(courses := reply.body.data.courses, loadError := None, loading := false)
    ensures !(IsOk(reply) && reply.body.success && reply.body.data.CourseList?) ==>
      r == s.(loadError := Some(LoadError), loading := false)
  {
    if IsOk(reply) && reply.body.success && reply.body.data.CourseList? then
      s.(courses := reply.body.data.courses, loadError := None, loading := false)
    else
      s.(loadError := Some(LoadError), loading := false)
  }

  // ---------------------------------------------------------------------------
  // Form
  // ---------------------------------------------------------------------------

  /** Back to an empty create form, leaving the list alone. */
  function ResetFormToCreate(s: PageState): (r: PageState)
    ensures r.mode == Create && r.activeId.None? && r.formError.None?
    ensures forall field :: FieldValue(r.form, field) == ""
    ensures r.courses == s.courses && r.saving == s.saving
    ensures r.loading == s.loading && r.loadError == s.loadError
  {
    s.(mode := Create, activeId := None, form := EmptyForm, formError := None)
  }

  /** Edit mode for `course`, with its eight fields copied into the form. */
  function StartEditing(s: PageState, course: Course): (r: PageState)
    ensures r.mode == Edit && r.activeId == Some(course.id) && r.formError.None?
    ensures forall field :: FieldValue(r.form, field) == FieldValue(course.fields, field)
    ensures r.courses == s.courses && r.saving == s.saving
    ensures r.loading == s.loading && r.loadError == s.loadError
  {
    s.(mode := Edit, activeId := Some(course.id), form := course.fields, formError := None)
  }

  /** One keystroke in one input. */
  function HandleFormChange(s: PageState, field: Field, value: string): (r: PageState)
    ensures FieldValue(r.form, field) == value
    ensures forall g :: g != field ==> FieldValue(r.form, g) == FieldValue(s.form, g)
    ensures r == s.(form := r.form)
  {
    s.(form := WithField(s.form, field, value))
  }

  /** Typing back the value a field already holds changes nothing. */
  lemma ChangeToSameValue(s: PageState, field: Field)
    ensures HandleFormChange(s, field, FieldValue(s.form, field)) == s
  {
    var r := HandleFormChange(s, field, FieldValue(s.form, field));
    FieldsDetermineForm(r.form, s.form);
  }

  /** Only the last of two changes to one field is kept. */
  lemma LastChangeWins(s: PageState, field: Field, a: string, b: string)
    ensures HandleFormChange(HandleFormChange(s, field, a), field, b) == HandleFormChange(s, field, b)
  {
    FieldsDetermineForm(HandleFormChange(HandleFormChange(s, field, a), field, b).form,
                        HandleFormChange(s, field, b).form);
  }

  /** Editing a course and typing nothing gives back that course's fields. */
  lemma EditingShowsTheCourse(s: PageState, course: Course)
    ensures StartEditing(s, course).form == course.fields
  {
    FieldsDetermineForm(StartEditing(s, course).form, course.fields);
  }

  // ---------------------------------------------------------------------------
  // Saving
  // ---------------------------------------------------------------------------

  /** The request `handleSubmit` sends, decided by the mode and the active id. */
  datatype SubmitRequest =
    | CreateRequest(values: CourseFields)
    | UpdateRequest(id: int, values: CourseFields)
    | NoRequest

  function Request(s: PageState): (q: SubmitRequest)
    ensures s.mode == Create ==> q == CreateRequest(s.form)
    ensures s.mode == Edit && s.activeId.Some? ==> q == UpdateRequest(s.activeId.value, s.form)
    ensures s.mode == Edit && s.activeId.None? ==> q == NoRequest
  {
    if s.mode == Create then CreateRequest(s.form)
    else if s.activeId.Some? then UpdateRequest(s.activeId.value, s.form)
    else NoRequest
  }

  /** The JSON body of a create or update request, as the server's
      `request.json()` reads it back: the eight form values as strings. */
  function RequestBody(values: CourseFields): (b: Body)
    ensures b.Members?
    ensures forall field :: FieldKey(field) in b.fields && b.fields[FieldKey(field)] == JString(FieldValue(values, field))
    ensures forall k :: k in b.fields ==> exists field :: k == FieldKey(field)
  {
    assert FieldKey(Title) == "title" && FieldKey(Slug) == "slug";
    assert FieldKey(Category) == "category" && FieldKey(Description) == "description";
    assert FieldKey(Duration) == "duration" && FieldKey(Schedule) == "schedule";
    assert FieldKey(Location) == "location" && FieldKey(Trainer) == "trainer";
    Members(map["title" := JString(values.title), "slug" := JString(values.slug),
                "category" := JString(values.category), "description" := JString(values.description),
                "duration" := JString(values.duration), "schedule" := JString(values.schedule),
                "location" := JString(values.location), "trainer" := JString(values.trainer)])
  }

  /** The JSON member name of each field. */
  function FieldKey(field: Field): string
  {
    match field
    case Title => "title"
    case Slug => "slug"
    case Category => "category"
    case Description => "description"
    case Duration => "duration"
    case Schedule => "schedule"
    case Location => "location"
    case Trainer => "trainer"
  }

  /** The start of `handleSubmit`: saving, with the form error cleared. */
  function BeginSubmit(s: PageState): (r: PageState)
    ensures r.saving && r.formError.None?
    ensures r == s.(saving := true, formError := None)
  {
    s.(saving := true, formError := None)
  }

  /** The course a create or update helper returns: only a 2xx reply with
      `success` and a course in `data`; any other reply makes the helper throw. */
  function SavedCourse(reply: Response): (r: Option<Course>)
    ensures r.Some? <==> IsOk(reply) && reply.body.success && reply.body.data.OneCourse?
    ensures r.Some? ==> r.value == reply.body.data.course
  {
    if IsOk(reply) && reply.body.success && reply.body.data.OneCourse? then Some(reply.body.data.course)
    else None
  }

  /** `previous.map(course => course.id === updated.id ? updated : course)` */
  function ReplaceById(cs: seq<Course>, updated: Course): (r: seq<Course>)
    ensures |r| == |cs|
    ensures forall i :: 0 <= i < |cs| && cs[i].id == updated.id ==> r[i] == updated
    ensures forall i :: 0 <= i < |cs| && cs[i].id != updated.id ==> r[i] == cs[i]
  {
    if |cs| == 0 then []
    else [if cs[0].id == updated.id then updated else cs[0]] + ReplaceById(cs[1..], updated)
  }

  /** Replacing twice with the same course is replacing once. */
  lemma ReplaceByIdIdempotent(cs: seq<Course>, updated: Course)
    ensures ReplaceById(ReplaceById(cs, updated), updated) == ReplaceById(cs, updated)
  {
  }

  /** With ids unique, an update touches exactly the one entry it names. */
  lemma ReplaceByIdTouchesOne(cs: seq<Course>, updated: Course, k: int)
    requires forall i, j :: 0 <= i < j < |cs| ==> cs[i].id != cs[j].id
    requires 0 <= k < |cs| && cs[k].id == updated.id
    ensures ReplaceById(cs, updated) == cs[k := updated]
  {
    var r := ReplaceById(cs, updated);
    forall i | 0 <= i < |cs|
      ensures r[i] == cs[k := updated][i]
    {
      if i != k {
        if i < k {
          assert cs[i].id != cs[k].id;
        } else {
          assert cs[k].id != cs[i].id;
        }
      }
    }
  }

  /** The end of `handleSubmit`, given the state it started from and the reply.
      A created course goes to the front of the list and the form is emptied; an
      updated course replaces the entries with its id, the form staying as it is;
      a failed save keeps the list and the form and shows the message for the
      mode; with no active course in edit mode nothing is sent. Saving ends. */
  function FinishSubmit(s: PageState, reply: Response): (r: PageState)
    ensures !r.saving
    ensures Request(s).CreateRequest? && SavedCourse(reply).Some? ==>
      r == ResetFormToCreate(s).(courses := [SavedCourse(reply).value] + s.courses, saving := false)
    ensures Request(s).UpdateRequest? && SavedCourse(reply).Some? ==>
      r == s.(courses := ReplaceById(s.courses, SavedCourse(reply).value), saving := false)
    ensures !Request(s).NoRequest? && SavedCourse(reply).None? ==>
      r == s.(formError := Some(if s.mode == Create then CreateError else UpdateError), saving := false)
    ensures Request(s).NoRequest? ==> r == s.(saving := false)
  {
    match Request(s)
    case NoRequest => s.(saving := false)
    case _ =>
      match SavedCourse(reply)
      case None => s.(formError := Some(if s.mode == Create then CreateError else UpdateError), saving := false)
      case Some(c) =>
        if s.mode == Create then ResetFormToCreate(s).(courses := [c] + s.courses, saving := false)
        else s.(courses := ReplaceById(s.courses, c), saving := false)
  }

  // ---------------------------------------------------------------------------
  // Deleting
  // ---------------------------------------------------------------------------

  /** `previous.filter(course => course.id !== id)` */
  function RemoveById(cs: seq<Course>, id: int): (r: seq<Course>)
    ensures |r| <= |cs|
    ensures forall c :: c in r <==> c in cs && c.id != id
  {
    if |cs| == 0 then []
    else if cs[0].id == id then RemoveById(cs[1..], id)
    else [cs[0]] + RemoveById(cs[1..], id)
  }

  /** The filter keeps the order of what it keeps: filtering a concatenation
      filters each part in place. */
  lemma {:induction false} RemoveByIdKeepsOrder(a: seq<Course>, b: seq<Course>, id: int)
    ensures RemoveById(a + b, id) == RemoveById(a, id) + RemoveById(b, id)
  {
    if |a| > 0 {
      assert (a + b)[0] == a[0];
      assert (a + b)[1..] == a[1..] + b;
      RemoveByIdKeepsOrder(a[1..], b, id);
      if a[0].id != id {
        assert RemoveById(a + b, id) == [a[0]] + RemoveById(a[1..] + b, id);
        assert RemoveById(a, id) == [a[0]] + RemoveById(a[1..], id);
      }
    } else {
      assert a + b == b;
    }
  }

  /** A list without the id is left exactly as it is. */
  lemma {:induction false} RemoveAbsentId(cs: seq<Course>, id: int)
    requires forall i :: 0 <= i < |cs| ==> cs[i].id != id
    ensures RemoveById(cs, id) == cs
  {
    if |cs| > 0 {
      RemoveAbsentId(cs[1..], id);
    }
  }

  /** The delete reply the helper accepts: 2xx with `success`. */
  predicate Deleted(reply: Response)
  {
    IsOk(reply) && reply.body.success
  }

  /** `handleDeleteCourse`, given the answer to the confirmation dialog and the
      reply: the next state and the alert shown, if any. A refused confirmation
      changes nothing and sends nothing; a successful delete removes every course
      with the id and, when that course was being edited, resets the form; a
      failed delete changes nothing and raises the alert. */
  function HandleDelete(s: PageState, id: int, confirmed: bool, reply: Response): (r: (PageState, Option<string>))
    ensures !confirmed ==> r == (s, None)
    ensures confirmed && !Deleted(reply) ==> r == (s, Some(DeleteAlert))
    ensures confirmed && Deleted(reply) ==>
      && r.1.None?
      && r.0.courses == RemoveById(s.courses, id)
      && (s.activeId == Some(id) ==> r.0 == ResetFormToCreate(s).(courses := r.0.courses))
      && (s.activeId != Some(id) ==> r.0 == s.(courses := r.0.courses))
  {
    if !confirmed then (s, None)
    else if !Deleted(reply) then (s, Some(DeleteAlert))
    else
      var t := s.(courses := RemoveById(s.courses, id));
      (if s.activeId == Some(id) then ResetFormToCreate(t) else t, None)
  }
}
