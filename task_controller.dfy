/**
 * backend/src/controllers/TaskController.ts: the ten request handlers over
 * the task collection. The collection is a `TaskStore` object whose
 * documents the create, update and delete handlers change in place; the
 * clock reading `new Date()` is the parameter `now`.
 */
module TaskController {
  import opened Wrappers
  import opened JsText
  import opened DateHelper
  import opened WeekHelper
  import opened TaskModel
  import opened TaskQueries

  // ---------------------------------------------------------------------
  // Requests and responses
  // ---------------------------------------------------------------------

  /** A `date` value from a request body and what `new Date(text)` makes of it (None: Invalid Date). */
  datatype DateArg = DateArg(text: string, instant: Option<int>)

  /** A JSON request body; None is an absent key. */
  datatype TaskBody = TaskBody(
    title: Option<string>,
    description: Option<string>,
    date: Option<DateArg>,
    startTime: Option<string>,
    endTime: Option<string>,
    status: Option<string>)

  /** `req.query.q`: absent, a string, or something else (an array or an object). */
  datatype QueryParam = Missing | Text(s: string) | NotText

  /** Why a handler answered 500. */
  datatype Cause =
    | Invalid(messages: seq<string>)   // the schema validators' messages
    | DateCast(text: string)           // `date` cast to an Invalid Date

  /** A handler's answer: a success (200 or 201), a refusal (400 or 404), or an error (500). */
  datatype Outcome<T> =
    | Done(status: nat, data: T, notice: Option<string>)   // notice: the `message` of a success
    | Refused(status: nat, message: string)
    | Failed(message: string, cause: Cause)

  /** The HTTP status code sent. */
  function Code<T>(o: Outcome<T>): nat
  {
    match o
    case Done(status, _, _) => status
    case Refused(status, _) => status
    case Failed(_, _) => 500
  }

  /** `data.currentWeek` of the weekly summary. */
  datatype WeekSummary = WeekSummary(
    completed: nat, pending: nat, progress: nat, total: nat, tasks: seq<Entry>)

  /**
   * The summary of a week's tasks: `completed` and `pending` count them by
   * status, `total` is their number and `progress` the rounded percentage
   * done (0 for an empty week).
   */
  function Summarize(tasks: seq<Entry>): (s: WeekSummary)
    ensures s.tasks == tasks && s.total == |tasks|
    ensures s.completed == CountStatus(tasks, Completed) && s.pending == CountStatus(tasks, Pending)
    ensures s.completed + s.pending == s.total
    ensures s.progress <= 100
    ensures s.total == 0 ==> s.progress == 0
    ensures s.total > 0 ==>
              2 * s.total * s.progress <= 200 * s.completed + s.total < 2 * s.total * s.progress + 2 * s.total
  {
    var completed, pending := CountStatus(tasks, Completed), CountStatus(tasks, Pending);
    StatusCountsAddUp(tasks);
    ProgressBounds(completed, |tasks|);
    if |tasks| > 0 then
      ProgressRounds(completed, |tasks|);
      WeekSummary(completed, pending, Progress(completed, |tasks|), |tasks|, tasks)
    else
      WeekSummary(completed, pending, Progress(completed, |tasks|), |tasks|, tasks)
  }

  const MissingFieldsMessage := "Please provide title, date, startTime, and endTime"
  const NotFoundMessage := "Task not found"
  const MissingQueryMessage := "Please provide search query"
  const InvalidStatusMessage := "Please provide valid status (pending or completed)"
  const CreateErrorMessage := "Error creating task"
  const UpdateErrorMessage := "Error updating task"

  // ---------------------------------------------------------------------
  // Guards and the fields handed to the model
  // ---------------------------------------------------------------------

  /** A string value is truthy when present and non-empty. */
  predicate Truthy(o: Option<string>) { o.Some? && o.value != [] }

  predicate TruthyDate(o: Option<DateArg>) { o.Some? && o.value.text != [] }

  /** createTask's guard: title, date, startTime and endTime all truthy. */
  predicate HasRequired(b: TaskBody)
  {
    Truthy(b.title) && TruthyDate(b.date) && Truthy(b.startTime) && Truthy(b.endTime)
  }

  /** What createTask hands to `Task.create`: `description || ''` and status forced to pending. */
  function CreateFields(b: TaskBody, instant: int): TaskFields
  {
    TaskFields(
      b.title,
      Some(if Truthy(b.description) then b.description.value else ""),
      Some(instant),
      b.startTime,
      b.endTime,
      Some(StatusText(Pending)))
  }

  /** A created task is pending whatever status the body carried. */
  lemma CreatedTaskIsPending(b: TaskBody, instant: int)
    ensures CreateDocument(CreateFields(b, instant)).Ok? ==>
              CreateDocument(CreateFields(b, instant)).value.status == Pending
  {
    StatusTextParses(Pending);
  }

  /** Which bodies that pass the guard are also accepted by the schema. */
  lemma CreateAccepted(b: TaskBody, instant: int)
    requires HasRequired(b)
    ensures CreateDocument(CreateFields(b, instant)).Ok? <==>
              && !AllWhitespace(b.title.value) && Utf16Length(Trim(b.title.value)) <= TitleMaxLength
              && (Truthy(b.description) ==> Utf16Length(Trim(b.description.value)) <= DescriptionMaxLength)
              && !AllWhitespace(b.startTime.value) && !AllWhitespace(b.endTime.value)
  {
    var f := CreateFields(b, instant);
    CreateDocumentAccepts(f);
    StatusTextParses(Pending);
    assert Trim("") == "";
  }

  /** updateTask's date: `date ? new Date(date) : undefined`. */
  predicate UpdateDateInvalid(b: TaskBody)
  {
    TruthyDate(b.date) && b.date.value.instant.None?
  }

  /** What updateTask hands to `findByIdAndUpdate`; absent keys stay absent. */
  function UpdateFields(b: TaskBody): TaskFields
  {
    TaskFields(
      b.title,
      b.description,
      if TruthyDate(b.date) then b.date.value.instant else None,
      b.startTime,
      b.endTime,
      b.status)
  }

  /** An empty date in an update leaves the stored date as it was. */
  lemma UpdateIgnoresEmptyDate(t: Task, b: TaskBody)
    requires !TruthyDate(b.date) && UpdateViolations(UpdateFields(b)) == []
    ensures ApplyUpdate(t, UpdateFields(b)).date == t.date
  {
    ApplyUpdateStores(t, UpdateFields(b));
  }

  /** An empty title is passed on by updateTask and refused by the `required` validator. */
  lemma EmptyTitleUpdateRejected(b: TaskBody)
    requires b.title == Some("")
    ensures UpdateViolations(UpdateFields(b)) != []
  {
    UpdateAccepts(UpdateFields(b));
    assert AllWhitespace("");
  }

  /** updateTaskStatus' guard: a truthy status equal to 'pending' or 'completed'. */
  predicate ValidStatusArg(status: Option<string>)
  {
    Truthy(status) && ParseStatus(status.value).Some?
  }

  /** The guard accepts exactly the two wire values of TaskStatus. */
  lemma ValidStatusArgIff(status: Option<string>)
    ensures ValidStatusArg(status) <==> status == Some("pending") || status == Some("completed")
  {
    if status.Some? {
      ParseStatusIff(status.value, Pending);
      ParseStatusIff(status.value, Completed);
    }
  }

  /** The filter of getWeekTasks and getWeeklySummary: the current week's window. */
  function WeekQuery(now: int): Query
  {
    var w := GetCurrentWeekInfo(now);
    DateBetween(w.startDateObj, w.endDateObj)
  }

  /** The window's documents are exactly those dated in the current week. */
  lemma WeekQuerySelects(s: seq<Entry>, now: int)
    ensures forall e :: e in Find(s, WeekQuery(now)) <==> e in s && IsInCurrentWeek(e.task.date, now)
  {
  }

  /** searchTasks' guard: `q` is a non-empty string. */
  predicate HasQuery(q: QueryParam) { q.Text? && q.s != [] }

  // ---------------------------------------------------------------------
  // The collection
  // ---------------------------------------------------------------------

  class TaskStore {
    /** The stored documents by `_id`. */
    var tasks: map<Id, Task>
    /** The next `_id` to hand out; every stored id is below it. */
    var nextId: Id

    ghost predicate Valid()
      reads this
    {
      forall id :: id in tasks ==> id < nextId && ValidTask(tasks[id])
    }

    constructor()
      ensures Valid() && tasks == map[] && nextId == 0
    {
      tasks := map[];
      nextId := 0;
    }

    /** `Task.find()`: every stored document, in natural order. */
    function Entries(): (s: seq<Entry>)
      reads this
      ensures Valid() ==> forall e :: e in s <==> e.id in tasks && tasks[e.id] == e.task
    {
      EntriesBelow(tasks, nextId)
    }

    /** POST /: validate the body, store a new pending task, answer 201 with it. */
    method CreateTask(body: TaskBody) returns (r: Outcome<Entry>)
      requires Valid()
      modifies this
      ensures Valid()
      ensures !HasRequired(body) ==>
                r == Refused(400, MissingFieldsMessage) && tasks == old(tasks) && nextId == old(nextId)
      ensures HasRequired(body) && body.date.value.instant.None? ==>
                r == Failed(CreateErrorMessage, DateCast(body.date.value.text))
                && tasks == old(tasks) && nextId == old(nextId)
      ensures HasRequired(body) && body.date.value.instant.Some? ==>
                var created := CreateDocument(CreateFields(body, body.date.value.instant.value));
                if created.Err? then
                  r == Failed(CreateErrorMessage, Invalid(created.error))
                  && tasks == old(tasks) && nextId == old(nextId)
                else
                  && r == Done(201, Entry(old(nextId), created.value), Some("Task created successfully"))
                  && old(nextId) !in old(tasks)
                  && tasks == old(tasks)[old(nextId) := created.value]
                  && nextId == old(nextId) + 1
      ensures r.Done? ==> r.data.task.status == Pending
    {
      if !HasRequired(body) {
        r := Refused(400, MissingFieldsMessage);
        return;
      }
      var date := body.date.value;
      if date.instant.None? {
        r := Failed(CreateErrorMessage, DateCast(date.text));
        return;
      }
      var fields := CreateFields(body, date.instant.value);
      var created := CreateDocument(fields);
      if created.Err? {
        r := Failed(CreateErrorMessage, Invalid(created.error));
        return;
      }
      CreatedTaskIsPending(body, date.instant.value);
      var id := Save(created.value);
      r := Done(201, Entry(id, created.value), Some("Task created successfully"));
    }

    /** The insert behind `Task.create`: store a valid task under a fresh id. */
    method Save(task: Task) returns (id: Id)
      requires Valid() && ValidTask(task)
      modifies this
      ensures Valid()
      ensures id == old(nextId) && id !in old(tasks)
      ensures tasks == old(tasks)[id := task] && nextId == old(nextId) + 1
    {
      id := nextId;
      tasks := tasks[id := task];
      nextId := nextId + 1;
    }

    /** GET /: every task, by date and then startTime. */
    method GetAllTasks() returns (r: Outcome<seq<Entry>>)
      requires Valid()
      ensures r.Done? && r.status == 200 && r.notice.None?
      ensures Sorted(ByDateThenStartTime, r.data)
      ensures multiset(r.data) == multiset(Entries())
    {
      var all := Entries();
      SortSorted(ByDateThenStartTime, all);
      SortPermutation(ByDateThenStartTime, all);
      r := Done(200, Sort(ByDateThenStartTime, all), None);
    }

    /** GET /today: the tasks dated within the UTC day of `now`, by startTime. */
    method GetTodayTasks(now: int) returns (r: Outcome<seq<Entry>>)
      requires Valid()
      ensures r.Done? && r.status == 200 && r.notice.None?
      ensures Sorted(ByStartTime, r.data)
      ensures multiset(r.data) == multiset(Find(Entries(), DateBetween(GetStartOfDay(now), GetEndOfDay(now))))
      ensures forall e :: e in r.data <==> e in Entries() && Day(e.task.date) == Day(now)
    {
      var found := Find(Entries(), DateBetween(GetStartOfDay(now), GetEndOfDay(now)));
      SortSorted(ByStartTime, found);
      SortPermutation(ByStartTime, found);
      var sorted := Sort(ByStartTime, found);
      SortMembers(ByStartTime, found);
      forall e ensures e in sorted <==> e in Entries() && Day(e.task.date) == Day(now) {
        TodayWindow(e.task.date, now);
      }
      r := Done(200, sorted, None);
    }

    /** GET /week: the tasks dated within the Monday-to-Sunday week of `now`, by date and startTime. */
    method GetWeekTasks(now: int) returns (r: Outcome<seq<Entry>>)
      requires Valid()
      ensures r.Done? && r.status == 200 && r.notice.None?
      ensures Sorted(ByDateThenStartTime, r.data)
      ensures multiset(r.data) == multiset(Find(Entries(), WeekQuery(now)))
      ensures forall e :: e in r.data <==> e in Entries() && IsInCurrentWeek(e.task.date, now)
    {
      var found := Find(Entries(), WeekQuery(now));
      SortSorted(ByDateThenStartTime, found);
      SortPermutation(ByDateThenStartTime, found);
      SortMembers(ByDateThenStartTime, found);
      WeekQuerySelects(Entries(), now);
      r := Done(200, Sort(ByDateThenStartTime, found), None);
    }

    /** GET /summary: the week's tasks with their completed and pending counts and progress. */
    method GetWeeklySummary(now: int) returns (r: Outcome<WeekSummary>)
      requires Valid()
      ensures r.Done? && r.status == 200 && r.notice.None?
      ensures r.data.tasks == Find(Entries(), WeekQuery(now))
      ensures forall e :: e in r.data.tasks <==> e in Entries() && IsInCurrentWeek(e.task.date, now)
      ensures r.data.completed == CountStatus(r.data.tasks, Completed)
      ensures r.data.pending == CountStatus(r.data.tasks, Pending)
      ensures r.data == Summarize(r.data.tasks)
    {
      var found := Find(Entries(), WeekQuery(now));
      WeekQuerySelects(Entries(), now);
      r := Done(200, Summarize(found), None);
    }

    /** GET /search?q=: the tasks whose title or description contains `q`, ignoring case. */
    method SearchTasks(q: QueryParam) returns (r: Outcome<seq<Entry>>)
      requires Valid()
      ensures r.Done? <==> HasQuery(q)
      ensures !HasQuery(q) ==> r == Refused(400, MissingQueryMessage)
      ensures r.Done? ==>
                && r.status == 200 && r.notice.None?
                && Sorted(ByDateThenStartTime, r.data)
                && multiset(r.data) == multiset(Find(Entries(), TextSearch(q.s)))
                && forall e :: e in r.data <==>
                     e in Entries()
                     && (ContainsIgnoringCase(e.task.title, q.s) || ContainsIgnoringCase(e.task.description, q.s))
    {
      if !HasQuery(q) {
        r := Refused(400, MissingQueryMessage);
        return;
      }
      var found := Find(Entries(), TextSearch(q.s));
      SortSorted(ByDateThenStartTime, found);
      SortPermutation(ByDateThenStartTime, found);
      var sorted := Sort(ByDateThenStartTime, found);
      SortMembers(ByDateThenStartTime, found);
      r := Done(200, sorted, None);
    }

    /** GET /:id: the task with that id, or 404. */
    method GetTaskById(id: Id) returns (r: Outcome<Entry>)
      ensures r.Done? <==> id in tasks
      ensures id in tasks ==> r == Done(200, Entry(id, tasks[id]), None)
      ensures id !in tasks ==> r == Refused(404, NotFoundMessage)
    {
      if id !in tasks {
        r := Refused(404, NotFoundMessage);
        return;
      }
      r := Done(200, Entry(id, tasks[id]), None);
    }

    /**
     * PUT /:id: cast and validate the update, then set the present keys of
     * the task with that id. The update is cast and validated before the
     * lookup, so an invalid update answers 500 even for an unknown id.
     */
    method UpdateTask(id: Id, body: TaskBody) returns (r: Outcome<Entry>)
      requires Valid()
      modifies this
      ensures Valid()
      ensures nextId == old(nextId)
      ensures UpdateDateInvalid(body) ==>
                r == Failed(UpdateErrorMessage, DateCast(body.date.value.text)) && tasks == old(tasks)
      ensures !UpdateDateInvalid(body) && UpdateViolations(UpdateFields(body)) != [] ==>
                r == Failed(UpdateErrorMessage, Invalid(UpdateViolations(UpdateFields(body))))
                && tasks == old(tasks)
      ensures !UpdateDateInvalid(body) && UpdateViolations(UpdateFields(body)) == [] ==>
                if id in old(tasks) then
                  var updated := ApplyUpdate(old(tasks)[id], UpdateFields(body));
                  && r == Done(200, Entry(id, updated), Some("Task updated successfully"))
                  && tasks == old(tasks)[id := updated]
                else
                  r == Refused(404, NotFoundMessage) && tasks == old(tasks)
    {
      if UpdateDateInvalid(body) {
        r := Failed(UpdateErrorMessage, DateCast(body.date.value.text));
        return;
      }
      var fields := UpdateFields(body);
      var errors := UpdateViolations(fields);
      if errors != [] {
        r := Failed(UpdateErrorMessage, Invalid(errors));
        return;
      }
      if id !in tasks {
        r := Refused(404, NotFoundMessage);
        return;
      }
      var updated := ApplyUpdate(tasks[id], fields);
      ApplyUpdateKeepsValid(tasks[id], fields);
      tasks := tasks[id := updated];
      r := Done(200, Entry(id, updated), Some("Task updated successfully"));
    }

    /** PATCH /:id/status: set only the status of the task with that id. */
    method UpdateTaskStatus(id: Id, status: Option<string>) returns (r: Outcome<Entry>)
      requires Valid()
      modifies this
      ensures Valid()
      ensures nextId == old(nextId)
      ensures !ValidStatusArg(status) ==> r == Refused(400, InvalidStatusMessage) && tasks == old(tasks)
      ensures ValidStatusArg(status) && id !in old(tasks) ==>
                r == Refused(404, NotFoundMessage) && tasks == old(tasks)
      ensures ValidStatusArg(status) && id in old(tasks) ==>
                var updated := old(tasks)[id].(status := ParseStatus(status.value).value);
                && r == Done(200, Entry(id, updated), Some("Task status updated successfully"))
                && tasks == old(tasks)[id := updated]
    {
      if !ValidStatusArg(status) {
        r := Refused(400, InvalidStatusMessage);
        return;
      }
      if id !in tasks {
        r := Refused(404, NotFoundMessage);
        return;
      }
      var updated := tasks[id].(status := ParseStatus(status.value).value);
      tasks := tasks[id := updated];
      r := Done(200, Entry(id, updated), Some("Task status updated successfully"));
    }

    /** DELETE /:id: remove the task with that id. */
    method DeleteTask(id: Id) returns (r: Outcome<()>)
      requires Valid()
      modifies this
      ensures Valid()
      ensures nextId == old(nextId)
      ensures id in old(tasks) ==>
                r == Done(200, (), Some("Task deleted successfully")) && tasks == old(tasks) - {id}
      ensures id !in old(tasks) ==> r == Refused(404, NotFoundMessage) && tasks == old(tasks)
    {
      if id !in tasks {
        r := Refused(404, NotFoundMessage);
        return;
      }
      tasks := tasks - {id};
      r := Done(200, (), Some("Task deleted successfully"));
    }
  }

  /** A deleted task is gone: fetching it afterwards answers 404. */
  method DeleteThenGet(store: TaskStore, id: Id) returns (deleted: Outcome<()>, fetched: Outcome<Entry>)
    requires store.Valid()
    modifies store
    ensures Code(fetched) == 404
    ensures Code(deleted) == 200 <==> id in old(store.tasks)
  {
    deleted := store.DeleteTask(id);
    fetched := store.GetTaskById(id);
  }

  /** A created task can be fetched by the id in the 201 answer, and it is pending. */
  method CreateThenGet(store: TaskStore, body: TaskBody) returns (created: Outcome<Entry>, fetched: Outcome<Entry>)
    requires store.Valid()
    modifies store
    ensures created.Done? ==> fetched == Done(200, created.data, None) && created.data.task.status == Pending
  {
    created := store.CreateTask(body);
    if created.Done? {
      fetched := store.GetTaskById(created.data.id);
    } else {
      fetched := Refused(404, NotFoundMessage);
    }
  }
}
