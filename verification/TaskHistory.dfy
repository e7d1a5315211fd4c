/** What a stored task says, field by field, in terms of the operations of the run. */
module TaskHistory {
  import opened Identifiers
  import opened Json
  import opened TaskGraph
  import opened TaskManager
  import opened Wrappers

  /** Operations that put a whole task under an id. */
  predicate Installs(op: Op) {
    op.Create? || op.Restore? || op.Update?
  }

  function Target(op: Op): Id {
    if op.Restore? then op.task.id else op.id
  }

  /** The operation changes the task stored under the id. */
  ghost predicate Touches(ts: Tasks, op: Op, id: Id) {
    && Target(op) == id && Succeeds(ts, op)
    && (op.AddDependency? ==> op.dep !in ts[id].dependencies)
    && (op.RemoveDependency? ==> op.dep in ts[id].dependencies)
    && (op.AddTag? ==> op.tag !in ts[id].tags)
  }

  /** What changed the task since it was last installed, that first; nothing when it is not stored. */
  ghost function Story(ops: seq<Op>, id: Id): seq<Op> {
    if ops == [] then []
    else
      var front, op := ops[..|ops| - 1], ops[|ops| - 1];
      if !Touches(Run(map[], front), op, id) then Story(front, id)
      else if op.Delete? then []
      else if Installs(op) then [op]
      else Story(front, id) + [op]
  }

  /** The last operation of one kind. */
  ghost function Latest(story: seq<Op>, kind: Op -> bool): Option<Op> {
    if story == [] then None
    else if kind(story[|story| - 1]) then Some(story[|story| - 1])
    else Latest(story[..|story| - 1], kind)
  }

  ghost function AddedTags(story: seq<Op>): seq<string> {
    if story == [] then []
    else
      var op := story[|story| - 1];
      AddedTags(story[..|story| - 1]) + if op.AddTag? then [op.tag] else []
  }

  function TimeOf(op: Op): int {
    match op
    case Create(_, _, _, _, _, _, updatedAt) => updatedAt
    case Restore(task) => task.updatedAt
    case Delete(_) => 0
    case _ => op.now
  }

  /** The task an installing operation puts down. */
  ghost predicate InstalledAs(op: Op, t: Task)
    requires Installs(op)
  {
    match op
    case Create(id, title, creator, description, priority, createdAt, updatedAt) =>
      && t.id == id && t.title == title && t.description == description && t.creator == creator
      && t.priority == priority && t.createdAt == createdAt && t.updatedAt == updatedAt
      && t.assignee == "" && t.status == Pending && t.dependencies == [] && t.tags == []
      && t.context == JNull && t.deadline == None && t.completedAt == None
    case Restore(task) => t == task
    case Update(_, task, now) => t == task.(updatedAt := now)
  }

  predicate Assigns(op: Op) {
    op.Assign?
  }

  predicate WritesStatus(op: Op) {
    op.Assign? || op.SetStatus?
  }

  predicate Completes(op: Op) {
    op.SetStatus? && op.status == Completed
  }

  /** Every field but the dependencies follows from the task installed first and from the operations after it. */
  ghost predicate Explained(t: Task, installed: Task, story: seq<Op>) {
    var given, written := Latest(story, Assigns), Latest(story, WritesStatus);
    var completed := Latest(story, Completes);
    && story != []
    && t.id == installed.id && t.title == installed.title && t.description == installed.description
    && t.creator == installed.creator && t.priority == installed.priority && t.context == installed.context
    && t.createdAt == installed.createdAt && t.deadline == installed.deadline
    && t.assignee == (if given.Some? && given.value.Assign? then given.value.agent else installed.assignee)
    && t.status == (if written.None? then installed.status
                    else if written.value.SetStatus? then written.value.status else InProgress)
    && t.completedAt == (if completed.Some? && completed.value.SetStatus? then Some(completed.value.completedNow)
                         else installed.completedAt)
    && t.tags == installed.tags + AddedTags(story)
    && t.updatedAt == TimeOf(story[|story| - 1])
  }

  lemma {:induction false} RunSnoc(ts: Tasks, ops: seq<Op>, op: Op)
    ensures Run(ts, ops + [op]) == Apply(Run(ts, ops), op)
    decreases |ops|
  {
    if ops == [] {
      assert [] + [op] == [op] && [op][1..] == [];
    } else {
      assert (ops + [op])[0] == ops[0] && (ops + [op])[1..] == ops[1..] + [op];
      RunSnoc(Apply(ts, ops[0]), ops[1..], op);
    }
  }

  lemma LatestSnoc(story: seq<Op>, op: Op, kind: Op -> bool)
    ensures Latest(story + [op], kind) == if kind(op) then Some(op) else Latest(story, kind)
    ensures AddedTags(story + [op]) == AddedTags(story) + if op.AddTag? then [op.tag] else []
  {
    assert (story + [op])[..|story|] == story;
  }

  lemma InstallingExplains(ts: Tasks, op: Op, id: Id)
    requires Touches(ts, op, id) && Installs(op)
    ensures id in Apply(ts, op) && InstalledAs(op, Apply(ts, op)[id])
    ensures Explained(Apply(ts, op)[id], Apply(ts, op)[id], [op])
  {
    assert [op] == [] + [op];
    LatestSnoc([], op, Assigns);
    LatestSnoc([], op, WritesStatus);
    LatestSnoc([], op, Completes);
  }

  lemma TouchingExplains(ts: Tasks, op: Op, id: Id, installed: Task, story: seq<Op>)
    requires Touches(ts, op, id) && !Installs(op) && !op.Delete?
    requires id in ts && Explained(ts[id], installed, story)
    ensures id in Apply(ts, op) && Explained(Apply(ts, op)[id], installed, story + [op])
  {
    LatestSnoc(story, op, Assigns);
    LatestSnoc(story, op, WritesStatus);
    LatestSnoc(story, op, Completes);
    assert installed.tags + AddedTags(story + [op]) == ts[id].tags + if op.AddTag? then [op.tag] else [];
    assert op.AddTag? || ts[id].tags + [] == ts[id].tags;
  }

  lemma NotTouching(ts: Tasks, op: Op, id: Id)
    requires !Touches(ts, op, id)
    ensures id in Apply(ts, op) <==> id in ts
    ensures id in ts ==> Apply(ts, op)[id] == ts[id]
  {
  }

  /** After any run whatever from the empty manager, restores and wholesale updates included: a task is stored exactly
      when it was installed and not deleted since, and each of its fields is what its story says. */
  lemma {:induction false} TaskTellsItsStory(ops: seq<Op>, id: Id)
    ensures var ts, story := Run(map[], ops), Story(ops, id);
            && (id in ts <==> story != [])
            && (id in ts ==>
                  && Installs(story[0])
                  && exists installed :: InstalledAs(story[0], installed) && Explained(ts[id], installed, story))
  {
    if ops == [] {
    } else {
      var front, op := ops[..|ops| - 1], ops[|ops| - 1];
      var ts := Run(map[], front);
      assert ops == front + [op];
      RunSnoc(map[], front, op);
      TaskTellsItsStory(front, id);
      if !Touches(ts, op, id) {
        NotTouching(ts, op, id);
      } else if op.Delete? {
      } else if Installs(op) {
        InstallingExplains(ts, op, id);
      } else {
        var story := Story(front, id);
        var installed :| InstalledAs(story[0], installed) && Explained(ts[id], installed, story);
        TouchingExplains(ts, op, id, installed, story);
      }
    }
  }
}
