/**
 * The Task entity the task router works on. Its schema file is not part of this
 * model; the fields are those the router reads and writes: a trimmed, required
 * description, a completed flag defaulting to false, and a required owner.
 */
module TaskModel {
  import opened Wrappers
  import opened Strings
  import opened Json
  import opened UserModel

  type TaskId = nat

  datatype Task = Task(description: string, completed: bool, owner: UserId)

  /** A task document held in memory; the owner is unset until it is assigned. */
  datatype TaskDoc = TaskDoc(description: string, completed: bool, owner: Option<UserId>, castError: bool)

  datatype TaskError = TaskCastFailed | DescriptionRequired | OwnerRequired | InvalidUpdates | TaskNotFound

  /** The allow-list of the task update handler. */
  const TaskUpdateKeys: seq<string> := ["description", "completed"]

  /** `new Task(...)` before its fields are assigned: `completed` defaults to false. */
  function NewTaskDoc(): TaskDoc {
    TaskDoc("", false, None, false)
  }

  /** A stored task loaded into memory. */
  function LoadTask(t: Task): TaskDoc {
    TaskDoc(t.description, t.completed, Some(t.owner), false)
  }

  predicate IsTaskMiscast(key: string, v: Value) {
    (key == "description" && !v.Text?) || (key == "completed" && !v.Flag?) || (key == "owner" && !v.ObjectId?)
  }

  /** `task[key] = v` through the path's setters; keys outside the schema are ignored. */
  function AssignTask(doc: TaskDoc, key: string, v: Value): TaskDoc {
    if IsTaskMiscast(key, v) then doc.(castError := true)
    else if key == "description" then doc.(description := Trim(v.s))
    else if key == "completed" then doc.(completed := v.b)
    else if key == "owner" then doc.(owner := Some(v.id))
    else doc
  }

  function AssignAllTask(doc: TaskDoc, body: Body): TaskDoc
    decreases |body|
  {
    if body == [] then doc else AssignAllTask(AssignTask(doc, body[0].0, body[0].1), body[1..])
  }

  function DescriptionAfter(doc: TaskDoc, body: Body): string {
    match Lookup(body, "description")
    case Some(Text(s)) => Trim(s)
    case _ => doc.description
  }

  function CompletedAfter(doc: TaskDoc, body: Body): bool {
    match Lookup(body, "completed")
    case Some(Flag(b)) => b
    case _ => doc.completed
  }

  function OwnerAfter(doc: TaskDoc, body: Body): Option<UserId> {
    match Lookup(body, "owner")
    case Some(ObjectId(n)) => Some(n)
    case _ => doc.owner
  }

  predicate AnyTaskMiscast(body: Body) {
    exists i | 0 <= i < |body| :: IsTaskMiscast(body[i].0, body[i].1)
  }

  /** The task document after a body is applied: each supplied field holds its supplied value, the rest is unchanged. */
  function TaskAfter(doc: TaskDoc, body: Body): TaskDoc {
    TaskDoc(DescriptionAfter(doc, body), CompletedAfter(doc, body), OwnerAfter(doc, body),
            doc.castError || AnyTaskMiscast(body))
  }

  lemma AnyTaskMiscastHead(body: Body)
    requires body != []
    ensures AnyTaskMiscast(body) <==> IsTaskMiscast(body[0].0, body[0].1) || AnyTaskMiscast(body[1..])
  {
    if AnyTaskMiscast(body[1..]) {
      var i :| 0 <= i < |body| - 1 && IsTaskMiscast(body[1..][i].0, body[1..][i].1);
      assert body[i + 1] == body[1..][i];
    }
    if AnyTaskMiscast(body) && !IsTaskMiscast(body[0].0, body[0].1) {
      var i :| 0 <= i < |body| && IsTaskMiscast(body[i].0, body[i].1);
      assert body[1..][i - 1] == body[i];
    }
  }

  /** One assignment followed by the rest of the body is the whole body applied at once. */
  lemma {:induction false} TaskStep(doc: TaskDoc, body: Body)
    requires body != [] && DistinctKeys(body)
    ensures TaskAfter(AssignTask(doc, body[0].0, body[0].1), body[1..]) == TaskAfter(doc, body)
  {
    TailLookups(body);
    AnyTaskMiscastHead(body);
    TaskStepCase(doc, body);
  }

  lemma TaskStepCase(doc: TaskDoc, body: Body)
    requires body != []
    requires Lookup(body, body[0].0) == Some(body[0].1) && Lookup(body[1..], body[0].0) == None
    requires forall k :: k != body[0].0 ==> Lookup(body, k) == Lookup(body[1..], k)
    requires AnyTaskMiscast(body) <==> IsTaskMiscast(body[0].0, body[0].1) || AnyTaskMiscast(body[1..])
    ensures TaskAfter(AssignTask(doc, body[0].0, body[0].1), body[1..]) == TaskAfter(doc, body)
  {
    var key, v := body[0].0, body[0].1;
    if IsTaskMiscast(key, v) {
      TaskStepMiscast(doc, body);
    } else if key == "description" {
      assert Lookup(body, "completed") == Lookup(body[1..], "completed");
      assert Lookup(body, "owner") == Lookup(body[1..], "owner");
      TaskStepDescription(doc, body);
    } else if key == "completed" {
      TaskStepCompleted(doc, body);
    } else if key == "owner" {
      TaskStepOwner(doc, body);
    } else {
      TaskStepOther(doc, body);
    }
  }

  lemma TaskStepOther(doc: TaskDoc, body: Body)
    requires body != []
    requires forall k :: k != body[0].0 ==> Lookup(body, k) == Lookup(body[1..], k)
    requires AnyTaskMiscast(body) <==> IsTaskMiscast(body[0].0, body[0].1) || AnyTaskMiscast(body[1..])
    requires body[0].0 !in {"description", "completed", "owner"}
    ensures TaskAfter(AssignTask(doc, body[0].0, body[0].1), body[1..]) == TaskAfter(doc, body)
  {
    var rest := body[1..];
    assert AssignTask(doc, body[0].0, body[0].1) == doc;
    assert Lookup(body, "description") == Lookup(rest, "description");
    assert Lookup(body, "completed") == Lookup(rest, "completed");
    assert Lookup(body, "owner") == Lookup(rest, "owner");
  }

  lemma TaskStepMiscast(doc: TaskDoc, body: Body)
    requires body != []
    requires Lookup(body, body[0].0) == Some(body[0].1) && Lookup(body[1..], body[0].0) == None
    requires forall k :: k != body[0].0 ==> Lookup(body, k) == Lookup(body[1..], k)
    requires AnyTaskMiscast(body) <==> IsTaskMiscast(body[0].0, body[0].1) || AnyTaskMiscast(body[1..])
    requires IsTaskMiscast(body[0].0, body[0].1)
    ensures TaskAfter(AssignTask(doc, body[0].0, body[0].1), body[1..]) == TaskAfter(doc, body)
  {
    var key, v, rest := body[0].0, body[0].1, body[1..];
    var d1 := AssignTask(doc, key, v);
    assert d1 == doc.(castError := true);
    assert DescriptionAfter(d1, rest) == DescriptionAfter(doc, body);
    assert CompletedAfter(d1, rest) == CompletedAfter(doc, body);
    assert OwnerAfter(d1, rest) == OwnerAfter(doc, body);
  }

  lemma TaskStepDescription(doc: TaskDoc, body: Body)
    requires body != [] && body[0].0 == "description" && body[0].1.Text?
    requires Lookup(body, "description") == Some(body[0].1) && Lookup(body[1..], "description") == None
    requires Lookup(body, "completed") == Lookup(body[1..], "completed")
    requires Lookup(body, "owner") == Lookup(body[1..], "owner")
    requires AnyTaskMiscast(body) <==> AnyTaskMiscast(body[1..])
    ensures TaskAfter(AssignTask(doc, body[0].0, body[0].1), body[1..]) == TaskAfter(doc, body)
  {
    var v, rest := body[0].1, body[1..];
    var d1 := doc.(description := Trim(v.s));
    assert AssignTask(doc, "description", v) == d1;
    assert DescriptionAfter(doc, body) == Trim(v.s);
    assert DescriptionAfter(d1, rest) == Trim(v.s);
    assert CompletedAfter(d1, rest) == CompletedAfter(doc, body);
    assert OwnerAfter(d1, rest) == OwnerAfter(doc, body);
  }

  lemma TaskStepCompleted(doc: TaskDoc, body: Body)
    requires body != []
    requires Lookup(body, body[0].0) == Some(body[0].1) && Lookup(body[1..], body[0].0) == None
    requires forall k :: k != body[0].0 ==> Lookup(body, k) == Lookup(body[1..], k)
    requires AnyTaskMiscast(body) <==> IsTaskMiscast(body[0].0, body[0].1) || AnyTaskMiscast(body[1..])
    requires body[0].0 == "completed" && body[0].1.Flag?
    ensures TaskAfter(AssignTask(doc, body[0].0, body[0].1), body[1..]) == TaskAfter(doc, body)
  {
    var key, v, rest := body[0].0, body[0].1, body[1..];
    var d1 := AssignTask(doc, key, v);
    assert d1 == doc.(completed := v.b);
    assert Lookup(body, key) == Some(Flag(v.b));
    assert DescriptionAfter(d1, rest) == DescriptionAfter(doc, body);
    assert CompletedAfter(d1, rest) == CompletedAfter(doc, body);
    assert OwnerAfter(d1, rest) == OwnerAfter(doc, body);
  }

  lemma TaskStepOwner(doc: TaskDoc, body: Body)
    requires body != []
    requires Lookup(body, body[0].0) == Some(body[0].1) && Lookup(body[1..], body[0].0) == None
    requires forall k :: k != body[0].0 ==> Lookup(body, k) == Lookup(body[1..], k)
    requires AnyTaskMiscast(body) <==> IsTaskMiscast(body[0].0, body[0].1) || AnyTaskMiscast(body[1..])
    requires body[0].0 == "owner" && body[0].1.ObjectId?
    ensures TaskAfter(AssignTask(doc, body[0].0, body[0].1), body[1..]) == TaskAfter(doc, body)
  {
    var key, v, rest := body[0].0, body[0].1, body[1..];
    var d1 := AssignTask(doc, key, v);
    assert d1 == doc.(owner := Some(v.id));
    assert Lookup(body, key) == Some(ObjectId(v.id));
    assert DescriptionAfter(d1, rest) == DescriptionAfter(doc, body);
    assert CompletedAfter(d1, rest) == CompletedAfter(doc, body);
    assert OwnerAfter(d1, rest) == OwnerAfter(doc, body);
  }

  /** Assigning the pairs one by one sets exactly the supplied fields to the supplied values. */
  lemma {:induction false} AssignAllTaskIsTaskAfter(doc: TaskDoc, body: Body)
    requires DistinctKeys(body)
    ensures AssignAllTask(doc, body) == TaskAfter(doc, body)
    decreases |body|
  {
    if body == [] {
      assert !AnyTaskMiscast(body);
    } else {
      FirstKeyNotInTail(body);
      AssignAllTaskIsTaskAfter(AssignTask(doc, body[0].0, body[0].1), body[1..]);
      TaskStep(doc, body);
    }
  }

  /** The task validators run on save: no cast failure, a non-empty description, an owner. */
  function ValidateTask(doc: TaskDoc): (r: Result<Task, TaskError>)
    ensures r.Ok? <==> !doc.castError && doc.description != "" && doc.owner.Some?
    ensures r.Ok? ==> r.value == Task(doc.description, doc.completed, doc.owner.value)
  {
    if doc.castError then Err(TaskCastFailed)
    else if doc.description == "" then Err(DescriptionRequired)
    else if doc.owner.None? then Err(OwnerRequired)
    else Ok(Task(doc.description, doc.completed, doc.owner.value))
  }

  /** `Task.deleteMany({ owner })`: exactly the tasks of `owner` go, every other task stays as it was. */
  function PurgeOwner(tasks: map<TaskId, Task>, owner: UserId): (r: map<TaskId, Task>)
    ensures forall t :: t in r <==> t in tasks && tasks[t].owner != owner
    ensures forall t :: t in r ==> r[t] == tasks[t]
  {
    map t | t in tasks && tasks[t].owner != owner :: tasks[t]
  }

  /** `Task.findOne({ _id, owner })`: the task only when both the id and the owner match. */
  function FindOwned(tasks: map<TaskId, Task>, id: TaskId, owner: UserId): (r: Option<Task>)
    ensures r.Some? <==> id in tasks && tasks[id].owner == owner
    ensures r.Some? ==> r.value == tasks[id]
  {
    if id in tasks && tasks[id].owner == owner then Some(tasks[id]) else None
  }

  /** Another user's task is found exactly as often as a task id that does not exist. */
  lemma ForeignTaskLooksMissing(tasks: map<TaskId, Task>, id: TaskId, caller: UserId)
    requires id in tasks && tasks[id].owner != caller
    ensures FindOwned(tasks, id, caller) == FindOwned(tasks - {id}, id, caller) == None
  {
  }

  /** The `match` of the list handler: the owner's tasks, restricted by `completed` when it is given. */
  predicate Listed(t: Task, owner: UserId, completed: Option<bool>) {
    t.owner == owner && (completed.None? || t.completed == completed.value)
  }
}
