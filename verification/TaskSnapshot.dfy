/** Saving all tasks as a JSON array and restoring it into an empty manager. */
module TaskSnapshot {
  import opened Arithmetic
  import opened Identifiers
  import opened Json
  import opened Sequences
  import opened TaskGraph
  import opened TaskManager
  import opened Wrappers

  function StatusStr(s: TaskStatus): string {
    match s
    case Pending => "pending"
    case InProgress => "in_progress"
    case Blocked => "blocked"
    case Completed => "completed"
    case Failed => "failed"
    case Cancelled => "cancelled"
  }

  function StatusFromStr(s: string): TaskStatus {
    if s == "in_progress" then InProgress
    else if s == "blocked" then Blocked
    else if s == "completed" then Completed
    else if s == "failed" then Failed
    else if s == "cancelled" then Cancelled
    else Pending
  }

  function PriorityStr(p: TaskPriority): string {
    match p
    case Low => "low"
    case Medium => "medium"
    case High => "high"
    case Critical => "critical"
  }

  function PriorityFromStr(p: string): TaskPriority {
    if p == "low" then Low
    else if p == "high" then High
    else if p == "critical" then Critical
    else Medium
  }

  function Millis(t: int): Json {
    JNumber(TruncDiv(t, NANOS_PER_MILLI) as real)
  }

  function Strings(s: seq<string>): Json {
    JArray(seq(|s|, i requires 0 <= i < |s| => JString(s[i])))
  }

  function WithTime(o: map<string, Json>, key: string, t: Option<int>): map<string, Json> {
    if t.Some? then o[key := Millis(t.value)] else o
  }

  function ToJson(t: Task): Json {
    var o := map[
      "id" := JString(t.id),
      "title" := JString(t.title),
      "description" := JString(t.description),
      "assignee" := JString(t.assignee),
      "creator" := JString(t.creator),
      "status" := JString(StatusStr(t.status)),
      "priority" := JString(PriorityStr(t.priority)),
      "dependencies" := Strings(t.dependencies),
      "tags" := Strings(t.tags),
      "context" := t.context,
      "created_at" := Millis(t.createdAt),
      "updated_at" := Millis(t.updatedAt)];
    JObject(WithTime(WithTime(o, "deadline", t.deadline), "completed_at", t.completedAt))
  }

  // ----- reading: a missing field takes its default, a field of the wrong type throws -----

  function GetString(o: map<string, Json>, key: string, default: string): Result<string> {
    if key !in o then Ok(default)
    else if o[key].JString? then Ok(o[key].s)
    else TypeError
  }

  function GetStrings(o: map<string, Json>, key: string): Result<seq<string>> {
    if key !in o then Ok([])
    else if o[key].JArray? && forall i :: 0 <= i < |o[key].items| ==> o[key].items[i].JString? then
      var items := o[key].items;
      Ok(seq(|items|, i requires 0 <= i < |items| && items[i].JString? => items[i].s))
    else TypeError
  }

  function GetTime(o: map<string, Json>, key: string): Result<int> {
    if key !in o then Ok(0)
    else if o[key].JNumber? then Ok(TruncReal(o[key].n) * NANOS_PER_MILLI)
    else TypeError
  }

  function GetOptionalTime(o: map<string, Json>, key: string): Option<int> {
    if key in o && o[key].JNumber? then Some(TruncReal(o[key].n) * NANOS_PER_MILLI) else None
  }

  function FromJson(j: Json): Result<Task> {
    if !j.JObject? then TypeError
    else
      var o := j.fields;
      var id :- GetString(o, "id", "");
      var title :- GetString(o, "title", "");
      var description :- GetString(o, "description", "");
      var assignee :- GetString(o, "assignee", "");
      var creator :- GetString(o, "creator", "");
      var status :- GetString(o, "status", "pending");
      var priority :- GetString(o, "priority", "medium");
      var dependencies :- GetStrings(o, "dependencies");
      var tags :- GetStrings(o, "tags");
      var context := if "context" in o then o["context"] else JObject(map[]);
      var createdAt :- GetTime(o, "created_at");
      var updatedAt :- GetTime(o, "updated_at");
      Ok(Task(id, title, description, assignee, creator, StatusFromStr(status), PriorityFromStr(priority),
              dependencies, tags, context, createdAt, updatedAt,
              GetOptionalTime(o, "deadline"), GetOptionalTime(o, "completed_at")))
  }

  // ----- one task there and back -----

  function WholeMillis(t: int): int {
    TruncDiv(t, 1_000_000) * 1_000_000
  }

  /** Each time cut to whole milliseconds and nothing else changed. */
  function Truncated(t: Task): Task {
    t.(createdAt := WholeMillis(t.createdAt),
       updatedAt := WholeMillis(t.updatedAt),
       deadline := if t.deadline.Some? then Some(WholeMillis(t.deadline.value)) else None,
       completedAt := if t.completedAt.Some? then Some(WholeMillis(t.completedAt.value)) else None)
  }

  lemma StringsRoundTrip(o: map<string, Json>, key: string, s: seq<string>)
    requires key in o && o[key] == Strings(s)
    ensures GetStrings(o, key) == Ok(s)
  {
    var items := o[key].items;
    assert seq(|items|, i requires 0 <= i < |items| && items[i].JString? => items[i].s) == s;
  }

  lemma TimeRoundTrip(t: int)
    ensures TruncReal(TruncDiv(t, NANOS_PER_MILLI) as real) * NANOS_PER_MILLI == WholeMillis(t)
    ensures WholeMillis(WholeMillis(t)) == WholeMillis(t)
  {
    var n := TruncDiv(t, NANOS_PER_MILLI);
    assert (n as real).Floor == n && (-(n as real)).Floor == -n;
  }

  /** Keys of equal length differ in their first or second character. */
  lemma KeysDiffer()
    ensures "assignee"[0] == 'a' && "priority"[0] == 'p' && "deadline"[0] == 'd'
    ensures "creator"[1] == 'r' && "context"[1] == 'o'
    ensures "created_at"[0] == 'c' && "updated_at"[0] == 'u'
    ensures "dependencies"[0] == 'd' && "completed_at"[0] == 'c'
  {
  }

  lemma StringFields(t: Task)
    ensures var o := ToJson(t).fields;
            && GetString(o, "id", "") == Ok(t.id)
            && GetString(o, "title", "") == Ok(t.title)
            && GetString(o, "description", "") == Ok(t.description)
            && GetString(o, "assignee", "") == Ok(t.assignee)
            && GetString(o, "creator", "") == Ok(t.creator)
            && GetString(o, "status", "pending") == Ok(StatusStr(t.status))
            && GetString(o, "priority", "medium") == Ok(PriorityStr(t.priority))
  {
    KeysDiffer();
  }

  lemma OtherFields(t: Task)
    ensures var o := ToJson(t).fields;
            && "dependencies" in o && o["dependencies"] == Strings(t.dependencies)
            && "tags" in o && o["tags"] == Strings(t.tags)
            && "context" in o && o["context"] == t.context
            && "created_at" in o && o["created_at"] == Millis(t.createdAt)
            && "updated_at" in o && o["updated_at"] == Millis(t.updatedAt)
  {
    KeysDiffer();
  }

  lemma OptionalFields(t: Task)
    ensures var o := ToJson(t).fields;
            && ("deadline" in o <==> t.deadline.Some?)
            && (t.deadline.Some? ==> o["deadline"] == Millis(t.deadline.value))
            && ("completed_at" in o <==> t.completedAt.Some?)
            && (t.completedAt.Some? ==> o["completed_at"] == Millis(t.completedAt.value))
  {
    KeysDiffer();
  }

  lemma NamesRoundTrip(s: TaskStatus, p: TaskPriority)
    ensures StatusFromStr(StatusStr(s)) == s && PriorityFromStr(PriorityStr(p)) == p
  {
  }

  /** Times are saved as numbers of milliseconds. */
  lemma TimesAreSavedInMillis(t: Task)
    ensures var o := ToJson(t).fields;
            && "created_at" in o && o["created_at"] == JNumber(TruncDiv(t.createdAt, 1_000_000) as real)
            && "updated_at" in o && o["updated_at"] == JNumber(TruncDiv(t.updatedAt, 1_000_000) as real)
  {
    OtherFields(t);
  }

  /** from_json undoes to_json up to whole milliseconds, for every task, and never throws on its output. */
  lemma TaskRoundTrip(t: Task)
    ensures FromJson(ToJson(t)) == Ok(Truncated(t))
  {
    var j := ToJson(t);
    StringFields(t);
    OtherFields(t);
    OptionalFields(t);
    NamesRoundTrip(t.status, t.priority);
    StringsRoundTrip(j.fields, "dependencies", t.dependencies);
    StringsRoundTrip(j.fields, "tags", t.tags);
    TimeRoundTrip(t.createdAt);
    TimeRoundTrip(t.updatedAt);
    if t.deadline.Some? { TimeRoundTrip(t.deadline.value); }
    if t.completedAt.Some? { TimeRoundTrip(t.completedAt.value); }
  }

  lemma TruncatedTwice(t: Task)
    ensures Truncated(Truncated(t)) == Truncated(t)
  {
    TimeRoundTrip(t.createdAt);
    TimeRoundTrip(t.updatedAt);
    if t.deadline.Some? { TimeRoundTrip(t.deadline.value); }
    if t.completedAt.Some? { TimeRoundTrip(t.completedAt.value); }
  }

  // ----- reading anything at all -----

  ghost predicate TextOrMissing(o: map<string, Json>, key: string) {
    key in o ==> o[key].JString?
  }

  ghost predicate TextsOrMissing(o: map<string, Json>, key: string) {
    key in o ==> o[key].JArray? && forall item :: item in o[key].items ==> item.JString?
  }

  ghost predicate NumberOrMissing(o: map<string, Json>, key: string) {
    key in o ==> o[key].JNumber?
  }

  /** The types from_json insists on. The deadline and the completion time may be anything. */
  ghost predicate WellTyped(o: map<string, Json>) {
    && TextOrMissing(o, "id") && TextOrMissing(o, "title") && TextOrMissing(o, "description")
    && TextOrMissing(o, "assignee") && TextOrMissing(o, "creator") && TextOrMissing(o, "status")
    && TextOrMissing(o, "priority")
    && TextsOrMissing(o, "dependencies") && TextsOrMissing(o, "tags")
    && NumberOrMissing(o, "created_at") && NumberOrMissing(o, "updated_at")
  }

  lemma TextsReadIff(o: map<string, Json>, key: string)
    ensures GetStrings(o, key).Ok? <==> TextsOrMissing(o, key)
  {
    if key in o && o[key].JArray? {
      assert forall i :: 0 <= i < |o[key].items| ==> o[key].items[i] in o[key].items;
    }
  }

  /** Reading fails exactly on what is not an object or has one of eleven fields of the wrong type. */
  lemma ReadableIff(j: Json)
    ensures FromJson(j).Ok? <==> j.JObject? && WellTyped(j.fields)
  {
    if j.JObject? {
      TextsReadIff(j.fields, "dependencies");
      TextsReadIff(j.fields, "tags");
    }
  }

  /** Each field of what is read, from its own key. */
  ghost predicate ReadFrom(o: map<string, Json>, t: Task, status: string, priority: string) {
    && GetString(o, "id", "") == Ok(t.id) && GetString(o, "title", "") == Ok(t.title)
    && GetString(o, "description", "") == Ok(t.description) && GetString(o, "assignee", "") == Ok(t.assignee)
    && GetString(o, "creator", "") == Ok(t.creator)
    && GetString(o, "status", "pending") == Ok(status) && t.status == StatusFromStr(status)
    && GetString(o, "priority", "medium") == Ok(priority) && t.priority == PriorityFromStr(priority)
    && GetStrings(o, "dependencies") == Ok(t.dependencies) && GetStrings(o, "tags") == Ok(t.tags)
    && t.context == (if "context" in o then o["context"] else JObject(map[]))
    && GetTime(o, "created_at") == Ok(t.createdAt) && GetTime(o, "updated_at") == Ok(t.updatedAt)
    && t.deadline == GetOptionalTime(o, "deadline") && t.completedAt == GetOptionalTime(o, "completed_at")
  }

  lemma ReadFieldByField(o: map<string, Json>) returns (status: string, priority: string)
    requires FromJson(JObject(o)).Ok?
    ensures ReadFrom(o, FromJson(JObject(o)).value, status, priority)
  {
    status, priority := GetString(o, "status", "pending").value, GetString(o, "priority", "medium").value;
  }

  lemma StatusNames(s: string)
    ensures StatusFromStr(s) == InProgress <==> s == "in_progress"
    ensures StatusFromStr(s) == Blocked <==> s == "blocked"
    ensures StatusFromStr(s) == Completed <==> s == "completed"
    ensures StatusFromStr(s) == Failed <==> s == "failed"
    ensures StatusFromStr(s) == Cancelled <==> s == "cancelled"
  {
    assert "completed"[1] == 'o' && "cancelled"[1] == 'a';
  }

  lemma PriorityNames(p: string)
    ensures PriorityFromStr(p) == Low <==> p == "low"
    ensures PriorityFromStr(p) == High <==> p == "high"
    ensures PriorityFromStr(p) == Critical <==> p == "critical"
  {
  }

  lemma PlainDefaults(o: map<string, Json>, t: Task, status: string, priority: string)
    requires ReadFrom(o, t, status, priority)
    ensures ("id" !in o ==> t.id == "") && ("title" !in o ==> t.title == "")
    ensures ("description" !in o ==> t.description == "") && ("assignee" !in o ==> t.assignee == "")
    ensures "creator" !in o ==> t.creator == ""
    ensures ("dependencies" !in o ==> t.dependencies == []) && ("tags" !in o ==> t.tags == [])
    ensures "context" !in o ==> t.context == JObject(map[])
    ensures ("created_at" !in o ==> t.createdAt == 0) && ("updated_at" !in o ==> t.updatedAt == 0)
    ensures "deadline" !in o || !o["deadline"].JNumber? ==> t.deadline == None
    ensures "completed_at" !in o || !o["completed_at"].JNumber? ==> t.completedAt == None
    ensures ("status" !in o ==> status == "pending") && ("priority" !in o ==> priority == "medium")
    ensures "status" in o ==> o["status"] == JString(status)
    ensures "priority" in o ==> o["priority"] == JString(priority)
  {
  }

  /** A missing field takes its default, a missing or unknown status is pending and such a priority medium. */
  lemma MissingTakesDefault(o: map<string, Json>)
    requires FromJson(JObject(o)).Ok?
    ensures var t := FromJson(JObject(o)).value;
            && ("id" !in o ==> t.id == "") && ("title" !in o ==> t.title == "")
            && ("description" !in o ==> t.description == "") && ("assignee" !in o ==> t.assignee == "")
            && ("creator" !in o ==> t.creator == "")
            && ("dependencies" !in o ==> t.dependencies == []) && ("tags" !in o ==> t.tags == [])
            && ("context" !in o ==> t.context == JObject(map[]))
            && ("created_at" !in o ==> t.createdAt == 0) && ("updated_at" !in o ==> t.updatedAt == 0)
            && ("deadline" !in o || !o["deadline"].JNumber? ==> t.deadline == None)
            && ("completed_at" !in o || !o["completed_at"].JNumber? ==> t.completedAt == None)
            && (t.status == InProgress <==> "status" in o && o["status"] == JString("in_progress"))
            && (t.status == Blocked <==> "status" in o && o["status"] == JString("blocked"))
            && (t.status == Completed <==> "status" in o && o["status"] == JString("completed"))
            && (t.status == Failed <==> "status" in o && o["status"] == JString("failed"))
            && (t.status == Cancelled <==> "status" in o && o["status"] == JString("cancelled"))
            && (t.priority == Low <==> "priority" in o && o["priority"] == JString("low"))
            && (t.priority == High <==> "priority" in o && o["priority"] == JString("high"))
            && (t.priority == Critical <==> "priority" in o && o["priority"] == JString("critical"))
  {
    var status, priority := ReadFieldByField(o);
    var t := FromJson(JObject(o)).value;
    PlainDefaults(o, t, status, priority);
    StatusNames(status);
    PriorityNames(priority);
  }

  // ----- the whole map there and back -----

  /** The order in which an unordered map is listed: every key exactly once. */
  ghost predicate Lists(order: seq<Id>, ts: Tasks) {
    NoDuplicates(order) && forall id :: id in order <==> id in ts
  }

  function Saved(ts: Tasks, order: seq<Id>): seq<Json>
    requires forall id :: id in order ==> id in ts
  {
    seq(|order|, i requires 0 <= i < |order| => ToJson(ts[order[i]]))
  }

  /** Each element of the array, read. */
  function Parsed(saved: seq<Json>): seq<Result<Task>> {
    seq(|saved|, i requires 0 <= i < |saved| => FromJson(saved[i]))
  }

  predicate Readable(read: seq<Result<Task>>, n: nat)
    requires n <= |read|
  {
    forall i :: 0 <= i < n ==> read[i].Ok?
  }

  /** The map after the first n elements: the first element that throws ends the restoring. */
  function LoadedUpTo(ts: Tasks, read: seq<Result<Task>>, n: nat): Tasks
    requires n <= |read|
  {
    if n == 0 then ts
    else
      var before := LoadedUpTo(ts, read, n - 1);
      if Readable(read, n) then before[read[n - 1].value.id := read[n - 1].value] else before
  }

  function Loaded(ts: Tasks, saved: seq<Json>): Tasks {
    LoadedUpTo(ts, Parsed(saved), |saved|)
  }

  lemma {:induction false} UnreadableEnds(ts: Tasks, read: seq<Result<Task>>, i: nat, n: nat)
    requires i < n <= |read| && read[i].TypeError?
    ensures LoadedUpTo(ts, read, n) == LoadedUpTo(ts, read, i)
  {
    if i == n - 1 {
    } else {
      UnreadableEnds(ts, read, i, n - 1);
    }
  }

  /** The restore loop of the server, over the manager's own restore_task. */
  method LoadAll(m: Manager, saved: seq<Json>) returns (ok: bool)
    modifies m
    ensures m.tasks == Loaded(old(m.tasks), saved)
    ensures ok == Readable(Parsed(saved), |saved|)
  {
    ghost var read := Parsed(saved);
    for i := 0 to |saved|
      invariant Readable(read, i) && m.tasks == LoadedUpTo(old(m.tasks), read, i)
    {
      var task := FromJson(saved[i]);
      assert task == read[i];
      if task.TypeError? {
        UnreadableEnds(old(m.tasks), read, i, |saved|);
        return false;
      }
      m.RestoreTask(task.value);
    }
    return true;
  }

  /** Element i is the last of the first n that names the id. */
  ghost predicate LastNamed(read: seq<Result<Task>>, n: nat, id: Id, i: nat)
    requires n <= |read| && Readable(read, n)
  {
    i < n && read[i].value.id == id && forall j :: i < j < n ==> read[j].value.id != id
  }

  lemma {:induction false} LastNamedIsLoaded(ts: Tasks, read: seq<Result<Task>>, n: nat, id: Id, i: nat)
    requires n <= |read| && Readable(read, n) && LastNamed(read, n, id, i)
    ensures id in LoadedUpTo(ts, read, n) && LoadedUpTo(ts, read, n)[id] == read[i].value
  {
    if i == n - 1 {
    } else {
      LastNamedIsLoaded(ts, read, n - 1, id, i);
    }
  }

  lemma {:induction false} UnnamedIsKept(ts: Tasks, read: seq<Result<Task>>, n: nat, id: Id)
    requires n <= |read| && Readable(read, n) && forall i :: 0 <= i < n ==> read[i].value.id != id
    ensures id in LoadedUpTo(ts, read, n) <==> id in ts
    ensures id in ts ==> LoadedUpTo(ts, read, n)[id] == ts[id]
  {
    if n == 0 {
    } else {
      UnnamedIsKept(ts, read, n - 1, id);
    }
  }

  /** Restoring stops at the first element that cannot be read and keeps what it restored before: each id has the last
      of those elements that names it, and other ids are as they were. */
  lemma RestoreKeepsWhatItRead(ts: Tasks, saved: seq<Json>, n: nat, id: Id)
    requires n <= |saved| && Readable(Parsed(saved), n) && (n < |saved| ==> FromJson(saved[n]).TypeError?)
    ensures var read, ts' := Parsed(saved), Loaded(ts, saved);
            && (forall i: nat :: LastNamed(read, n, id, i) ==> id in ts' && ts'[id] == read[i].value)
            && ((forall i :: 0 <= i < n ==> read[i].value.id != id) ==>
                  (id in ts' <==> id in ts) && (id in ts ==> ts'[id] == ts[id]))
  {
    var read := Parsed(saved);
    forall i: nat | LastNamed(read, n, id, i)
      ensures id in LoadedUpTo(ts, read, n) && LoadedUpTo(ts, read, n)[id] == read[i].value
    {
      LastNamedIsLoaded(ts, read, n, id, i);
    }
    if forall i :: 0 <= i < n ==> read[i].value.id != id { UnnamedIsKept(ts, read, n, id); }
    if n < |saved| {
      assert read[n] == FromJson(saved[n]);
      UnreadableEnds(ts, read, n, |saved|);
    }
  }

  ghost predicate KeyedById(ts: Tasks) {
    forall id :: id in ts ==> ts[id].id == id
  }

  ghost function TruncatedMap(ts: Tasks, keys: seq<Id>): Tasks {
    map id | id in ts && id in keys :: Truncated(ts[id])
  }

  lemma TruncatedMapSnoc(ts: Tasks, order: seq<Id>, n: nat)
    requires n < |order| && order[n] in ts
    ensures TruncatedMap(ts, order[..n + 1]) == TruncatedMap(ts, order[..n])[order[n] := Truncated(ts[order[n]])]
  {
    assert order[..n + 1] == order[..n] + [order[n]];
  }

  lemma {:induction false} LoadedPrefix(ts: Tasks, order: seq<Id>, read: seq<Result<Task>>, n: nat)
    requires KeyedById(ts) && forall id :: id in order ==> id in ts
    requires n <= |order| == |read|
    requires forall i :: 0 <= i < |order| ==> order[i] in ts && read[i] == Ok(Truncated(ts[order[i]]))
    ensures LoadedUpTo(map[], read, n) == TruncatedMap(ts, order[..n])
  {
    if n == 0 {
    } else {
      LoadedPrefix(ts, order, read, n - 1);
      TruncatedMapSnoc(ts, order, n - 1);
    }
  }

  lemma SavedIsReadable(ts: Tasks, order: seq<Id>)
    requires forall id :: id in order ==> id in ts
    ensures var read := Parsed(Saved(ts, order));
            && |read| == |order|
            && forall i :: 0 <= i < |order| ==> order[i] in ts && read[i] == Ok(Truncated(ts[order[i]]))
  {
    forall i | 0 <= i < |order| ensures FromJson(ToJson(ts[order[i]])) == Ok(Truncated(ts[order[i]])) {
      TaskRoundTrip(ts[order[i]]);
    }
  }

  lemma {:induction false} LoadedIsKeyedById(read: seq<Result<Task>>, n: nat)
    requires n <= |read|
    ensures KeyedById(LoadedUpTo(map[], read, n))
  {
    if n == 0 {
    } else {
      LoadedIsKeyedById(read, n - 1);
    }
  }

  ghost function TruncatedAll(ts: Tasks): Tasks {
    map id | id in ts :: Truncated(ts[id])
  }

  /** In whatever order the map is listed and restored, the empty manager ends with the same map up to whole
      milliseconds if and only if every task was stored under its own id, which every run ensures. */
  lemma SnapshotRoundTripIff(ts: Tasks, order: seq<Id>)
    requires Lists(order, ts)
    ensures Loaded(map[], Saved(ts, order)) == TruncatedAll(ts) <==> KeyedById(ts)
  {
    var read := Parsed(Saved(ts, order));
    SavedIsReadable(ts, order);
    if KeyedById(ts) {
      LoadedPrefix(ts, order, read, |order|);
      assert order[..|order|] == order;
      assert TruncatedMap(ts, order) == TruncatedAll(ts);
    } else {
      var id :| id in ts && ts[id].id != id;
      LoadedIsKeyedById(read, |order|);
      assert TruncatedAll(ts)[id].id != id;
    }
  }

  lemma TruncatingKeepsTheGraph(ts: Tasks)
    requires WellFormed(ts)
    ensures DepsOf(TruncatedAll(ts)) == DepsOf(ts)
    ensures WellFormed(TruncatedAll(ts))
    ensures forall id :: Ready(TruncatedAll(ts), id) <==> Ready(ts, id)
  {
    assert DepsOf(TruncatedAll(ts)) == DepsOf(ts);
  }

  lemma TruncatingAllTwice(ts: Tasks)
    ensures TruncatedAll(TruncatedAll(ts)) == TruncatedAll(ts)
  {
    forall id | id in ts ensures Truncated(Truncated(ts[id])) == Truncated(ts[id]) {
      TruncatedTwice(ts[id]);
    }
  }

  /** What a restart keeps: the edges, hence well-formedness, and the ready set; and a second restart,
      listing the map in any other order, loses nothing more. */
  lemma RestartKeepsTheGraph(ts: Tasks, order: seq<Id>, order': seq<Id>)
    requires WellFormed(ts) && Lists(order, ts) && Lists(order', ts)
    ensures var ts' := Loaded(map[], Saved(ts, order));
            && DepsOf(ts') == DepsOf(ts)
            && WellFormed(ts')
            && (forall id :: Ready(ts', id) <==> Ready(ts, id))
            && (forall id :: id in order' ==> id in ts')
            && Loaded(map[], Saved(ts', order')) == ts'
  {
    SnapshotRoundTripIff(ts, order);
    TruncatingKeepsTheGraph(ts);
    TruncatingAllTwice(ts);
    SnapshotRoundTripIff(TruncatedAll(ts), order');
  }
}
