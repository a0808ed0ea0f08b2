/**
 * backend/src/models/Task.ts and the TaskStatus enum of
 * backend/src/types/index.ts: the stored task record, the schema's casting
 * (trim, defaults) and validation (required, maxlength, enum), and the
 * `toJSON` transform that renames `_id` to `id`.
 */
module TaskModel {
  import opened Wrappers
  import opened JsText

  /** TaskStatus: the two wire values 'pending' and 'completed'. */
  datatype TaskStatus = Pending | Completed

  function StatusText(s: TaskStatus): string
  {
    match s
    case Pending => "pending"
    case Completed => "completed"
  }

  /** `Object.values(TaskStatus).includes(text)`, returning the member it names. */
  function ParseStatus(text: string): Option<TaskStatus>
  {
    if text == "pending" then Some(Pending)
    else if text == "completed" then Some(Completed)
    else None
  }

  /** A text names a status exactly when it is that status's wire value. */
  lemma ParseStatusIff(text: string, s: TaskStatus)
    ensures ParseStatus(text) == Some(s) <==> text == StatusText(s)
  {
  }

  lemma StatusTextParses(s: TaskStatus)
    ensures ParseStatus(StatusText(s)) == Some(s)
  {
  }

  const TitleMaxLength: nat := 200
  const DescriptionMaxLength: nat := 1000

  /** A stored task; `createdAt`/`updatedAt` are the database's and not modelled. */
  datatype Task = Task(
    title: string,
    description: string,
    date: int,
    startTime: string,
    endTime: string,
    status: TaskStatus)

  /** What the schema guarantees of every stored task. */
  predicate ValidTask(t: Task)
  {
    && Trimmed(t.title) && t.title != [] && Utf16Length(t.title) <= TitleMaxLength
    && Trimmed(t.description) && Utf16Length(t.description) <= DescriptionMaxLength
    && Trimmed(t.startTime) && t.startTime != []
    && Trimmed(t.endTime) && t.endTime != []
  }

  /**
   * The fields handed to the model, on create or as an update: None is an
   * absent (undefined) key. `date` is the instant already cast from the
   * request; `status` is the raw text before the enum check.
   */
  datatype TaskFields = TaskFields(
    title: Option<string>,
    description: Option<string>,
    date: Option<int>,
    startTime: Option<string>,
    endTime: Option<string>,
    status: Option<string>)

  function TrimField(o: Option<string>): Option<string>
  {
    match o
    case None => None
    case Some(s) => Some(Trim(s))
  }

  /** Casting: `trim: true` paths are trimmed; on create, absent paths take their defaults. */
  function Cast(f: TaskFields, withDefaults: bool): (c: TaskFields)
    ensures c.title.Some? == f.title.Some? && c.startTime.Some? == f.startTime.Some? && c.endTime.Some? == f.endTime.Some?
    ensures c.description.Some? == (f.description.Some? || withDefaults) && c.status.Some? == (f.status.Some? || withDefaults)
    ensures c.date == f.date && (f.status.Some? ==> c.status == f.status)
    ensures c.title.Some? ==> Trimmed(c.title.value)
    ensures c.description.Some? ==> Trimmed(c.description.value)
    ensures c.startTime.Some? ==> Trimmed(c.startTime.value)
    ensures c.endTime.Some? ==> Trimmed(c.endTime.value)
  {
    TaskFields(
      TrimField(f.title),
      if withDefaults && f.description.None? then Some("") else TrimField(f.description),
      f.date,
      TrimField(f.startTime),
      TrimField(f.endTime),
      if withDefaults && f.status.None? then Some(StatusText(Pending)) else f.status)
  }

  /** A required string path fails when absent or empty. */
  predicate MissingText(o: Option<string>) { o.None? || o.value == [] }

  predicate TooLong(o: Option<string>, max: nat) { o.Some? && Utf16Length(o.value) > max }

  predicate BadStatus(o: Option<string>) { o.Some? && ParseStatus(o.value).None? }

  /**
   * The validators' messages for cast fields, in schema order. With
   * `onlyPresent` (update validators) the required checks run only for keys
   * the update sets.
   */
  function Violations(c: TaskFields, onlyPresent: bool): seq<string>
  {
    (if (!onlyPresent || c.title.Some?) && MissingText(c.title) then ["Task title is required"] else [])
    + (if TooLong(c.title, TitleMaxLength) then ["Title cannot exceed 200 characters"] else [])
    + (if TooLong(c.description, DescriptionMaxLength) then ["Description cannot exceed 1000 characters"] else [])
    + (if !onlyPresent && c.date.None? then ["Task date is required"] else [])
    + (if (!onlyPresent || c.startTime.Some?) && MissingText(c.startTime) then ["Start time is required"] else [])
    + (if (!onlyPresent || c.endTime.Some?) && MissingText(c.endTime) then ["End time is required"] else [])
    + (if BadStatus(c.status) then ["`" + c.status.value + "` is not a valid enum value for path `status`."] else [])
  }

  /** No validator fails exactly when none of the seven checks applies. */
  lemma ViolationsEmptyIff(c: TaskFields, onlyPresent: bool)
    ensures Violations(c, onlyPresent) == [] <==>
              && !((!onlyPresent || c.title.Some?) && MissingText(c.title))
              && !TooLong(c.title, TitleMaxLength)
              && !TooLong(c.description, DescriptionMaxLength)
              && !(!onlyPresent && c.date.None?)
              && !((!onlyPresent || c.startTime.Some?) && MissingText(c.startTime))
              && !((!onlyPresent || c.endTime.Some?) && MissingText(c.endTime))
              && !BadStatus(c.status)
  {
  }

  /** `Task.create`'s document step: cast with defaults, validate, build the record. */
  function CreateDocument(f: TaskFields): (r: Result<Task, seq<string>>)
    ensures r.Ok? ==> ValidTask(r.value)
  {
    var c := Cast(f, true);
    var errors := Violations(c, false);
    if errors != [] then Err(errors)
    else
      Ok(Task(c.title.value, c.description.value, c.date.value, c.startTime.value,
              c.endTime.value, ParseStatus(c.status.value).value))
  }

  /** Which raw fields `Task.create` accepts, stated on the fields before trimming. */
  lemma CreateDocumentAccepts(f: TaskFields)
    ensures CreateDocument(f).Ok? <==>
              && f.title.Some? && !AllWhitespace(f.title.value)
              && Utf16Length(Trim(f.title.value)) <= TitleMaxLength
              && (f.description.Some? ==> Utf16Length(Trim(f.description.value)) <= DescriptionMaxLength)
              && f.date.Some?
              && f.startTime.Some? && !AllWhitespace(f.startTime.value)
              && f.endTime.Some? && !AllWhitespace(f.endTime.value)
              && (f.status.Some? ==> ParseStatus(f.status.value).Some?)
  {
    ViolationsEmptyIff(Cast(f, true), false);
    if f.title.Some? { TrimEmpty(f.title.value); }
    if f.startTime.Some? { TrimEmpty(f.startTime.value); }
    if f.endTime.Some? { TrimEmpty(f.endTime.value); }
  }

  /** What `Task.create` stores: trimmed texts, '' and 'pending' for absent keys. */
  lemma CreateDocumentStores(f: TaskFields)
    requires CreateDocument(f).Ok?
    ensures var t := CreateDocument(f).value;
            && t.title == Trim(f.title.value)
            && t.description == (if f.description.None? then "" else Trim(f.description.value))
            && t.date == f.date.value
            && t.startTime == Trim(f.startTime.value)
            && t.endTime == Trim(f.endTime.value)
            && t.status == (if f.status.None? then Pending else ParseStatus(f.status.value).value)
  {
  }

  /** A title of whitespace only is non-empty but fails `required` once trimmed. */
  lemma WhitespaceTitleRejected(f: TaskFields)
    requires f.title.Some? && AllWhitespace(f.title.value)
    ensures CreateDocument(f).Err?
  {
    TrimEmpty(f.title.value);
  }

  /** The fields of a stored task, all present. */
  function FieldsOf(t: Task): TaskFields
  {
    TaskFields(Some(t.title), Some(t.description), Some(t.date), Some(t.startTime),
               Some(t.endTime), Some(StatusText(t.status)))
  }

  /** Casting and validation are the identity on a valid stored task. */
  lemma CreateDocumentOfValid(t: Task)
    requires ValidTask(t)
    ensures CreateDocument(FieldsOf(t)) == Ok(t)
  {
    var f := FieldsOf(t);
    assert Cast(f, true) == f by { CastOfValid(t); }
    assert Violations(f, false) == [] by { ViolationsEmptyIff(f, false); }
    StatusTextParses(t.status);
  }

  lemma CastOfValid(t: Task)
    requires Trimmed(t.title) && Trimmed(t.description) && Trimmed(t.startTime) && Trimmed(t.endTime)
    ensures Cast(FieldsOf(t), true) == FieldsOf(t)
  {
    TrimFieldOfTrimmed(t.title);
    TrimFieldOfTrimmed(t.description);
    TrimFieldOfTrimmed(t.startTime);
    TrimFieldOfTrimmed(t.endTime);
  }

  lemma TrimFieldOfTrimmed(s: string)
    requires Trimmed(s)
    ensures TrimField(Some(s)) == Some(s)
  {
    TrimIdempotent(s);
  }

  // ---------------------------------------------------------------------
  // Updates (findByIdAndUpdate with update validators)
  // ---------------------------------------------------------------------

  /** The update validators' messages; empty when the update may be applied. */
  function UpdateViolations(f: TaskFields): seq<string>
  {
    Violations(Cast(f, false), true)
  }

  /** `$set` of the cast keys that are present; absent keys keep their values. */
  function ApplyUpdate(t: Task, f: TaskFields): Task
    requires UpdateViolations(f) == []
  {
    var c := Cast(f, false);
    Task(
      if c.title.Some? then c.title.value else t.title,
      if c.description.Some? then c.description.value else t.description,
      if c.date.Some? then c.date.value else t.date,
      if c.startTime.Some? then c.startTime.value else t.startTime,
      if c.endTime.Some? then c.endTime.value else t.endTime,
      if c.status.Some? then ParseStatus(c.status.value).value else t.status)
  }

  /** An update that passes its validators keeps a valid task valid. */
  lemma ApplyUpdateKeepsValid(t: Task, f: TaskFields)
    requires ValidTask(t) && UpdateViolations(f) == []
    ensures ValidTask(ApplyUpdate(t, f))
  {
    ViolationsEmptyIff(Cast(f, false), true);
  }

  /**
   * What an update stores: each present key its cast value (texts trimmed,
   * status parsed, date as given), each absent key its old value.
   */
  lemma ApplyUpdateStores(t: Task, f: TaskFields)
    requires UpdateViolations(f) == []
    ensures var u := ApplyUpdate(t, f);
            && u.title == (if f.title.Some? then Trim(f.title.value) else t.title)
            && u.description == (if f.description.Some? then Trim(f.description.value) else t.description)
            && u.date == (if f.date.Some? then f.date.value else t.date)
            && u.startTime == (if f.startTime.Some? then Trim(f.startTime.value) else t.startTime)
            && u.endTime == (if f.endTime.Some? then Trim(f.endTime.value) else t.endTime)
            && u.status == (if f.status.Some? then ParseStatus(f.status.value).value else t.status)
  {
  }

  /** Which updates pass their validators, stated on the raw fields. */
  lemma UpdateAccepts(f: TaskFields)
    ensures UpdateViolations(f) == [] <==>
              && (f.title.Some? ==> !AllWhitespace(f.title.value) && Utf16Length(Trim(f.title.value)) <= TitleMaxLength)
              && (f.description.Some? ==> Utf16Length(Trim(f.description.value)) <= DescriptionMaxLength)
              && (f.startTime.Some? ==> !AllWhitespace(f.startTime.value))
              && (f.endTime.Some? ==> !AllWhitespace(f.endTime.value))
              && (f.status.Some? ==> ParseStatus(f.status.value).Some?)
  {
    ViolationsEmptyIff(Cast(f, false), true);
    if f.title.Some? { TrimEmpty(f.title.value); }
    if f.startTime.Some? { TrimEmpty(f.startTime.value); }
    if f.endTime.Some? { TrimEmpty(f.endTime.value); }
  }

  // ---------------------------------------------------------------------
  // toJSON
  // ---------------------------------------------------------------------

  datatype JsonValue = JString(s: string) | JDate(ms: int) | JNumber(n: int) | JObjectId(oid: nat)

  type Document = map<string, JsonValue>

  /** The plain object (`ret`) a stored task becomes before the transform runs. */
  function RawDocument(id: nat, version: nat, t: Task): Document
  {
    map[
      "_id" := JObjectId(id),
      "title" := JString(t.title),
      "description" := JString(t.description),
      "date" := JDate(t.date),
      "startTime" := JString(t.startTime),
      "endTime" := JString(t.endTime),
      "status" := JString(StatusText(t.status)),
      "__v" := JNumber(version)]
  }

  /**
   * The toJSON transform: `ret.id = ret._id; delete ret._id; delete ret.__v`.
   * Assigning an absent `_id` leaves `id` undefined, which JSON drops.
   */
  function ToJson(ret: Document): (r: Document)
    ensures "_id" in ret <==> "id" in r
    ensures "_id" in ret ==> r["id"] == ret["_id"]
    ensures "_id" !in r && "__v" !in r
    ensures forall k :: k in ret && k != "id" && k != "_id" && k != "__v" ==> k in r && r[k] == ret[k]
    ensures forall k :: k in r ==> k == "id" || k in ret
  {
    var withId := if "_id" in ret then ret["id" := ret["_id"]] else ret - {"id"};
    withId - {"_id", "__v"}
  }

  /** The JSON of a stored task: its id under `id` and every schema field as stored. */
  lemma SerializedTask(id: nat, version: nat, t: Task)
    ensures var j := ToJson(RawDocument(id, version, t));
            && j.Keys == {"id", "title", "description", "date", "startTime", "endTime", "status"}
            && j["id"] == JObjectId(id)
            && j["title"] == JString(t.title) && j["description"] == JString(t.description)
            && j["date"] == JDate(t.date)
            && j["startTime"] == JString(t.startTime) && j["endTime"] == JString(t.endTime)
            && j["status"] == JString(StatusText(t.status))
  {
    var ret := RawDocument(id, version, t);
    var j := ToJson(ret);
    assert "title" in ret && "description" in ret && "date" in ret && "startTime" in ret;
    assert "endTime" in ret && "status" in ret;
  }
}
