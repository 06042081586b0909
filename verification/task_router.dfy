/**
 * The handlers of src/routers/task.js over the store. Every handler receives
 * the caller the auth middleware resolved, a user present in the store, and
 * reaches only that caller's tasks.
 */
module TaskRouter {
  import opened Wrappers
  import opened Strings
  import opened Json
  import opened UserModel
  import opened TaskModel
  import opened Store

  /** One entry of the sort object: the field and 1 (ascending) or -1 (descending). */
  datatype SortSpec = SortSpec(field: string, order: int)

  // ---------------------------------------------------------------- query

  /**
   * `if (req.query.completed) match.completed = req.query.completed === 'true'`:
   * an absent or empty parameter sets no filter; any other text filters, and
   * only the exact text "true" selects the completed tasks.
   */
  function CompletedFilter(query: Option<string>): (r: Option<bool>)
    ensures r.None? <==> query.None? || query.value == ""
    ensures r.Some? ==> (r.value <==> query.value == "true")
  {
    if query.None? || query.value == "" then None else Some(query.value == "true")
  }

  /** What a sort entry means for the text it came from: the field is the text up to the first colon, and the order is descending exactly when `desc` follows as the whole second segment. */
  ghost predicate SortMeans(query: string, spec: SortSpec) {
    && ':' !in spec.field
    && (query == spec.field || spec.field + ":" <= query)
    && (spec.order == -1 || spec.order == 1)
    && (spec.order == -1 <==> query == spec.field + ":desc" || spec.field + ":desc:" <= query)
  }

  /** The sort object of the list handler, built from `sortBy.split(':')`. */
  function SortFrom(query: Option<string>): (r: Option<SortSpec>)
    ensures r.None? <==> query.None? || query.value == ""
    ensures r.Some? ==> SortMeans(query.value, r.value)
  {
    if query.None? || query.value == "" then None
    else
      var parts := Split(query.value, ':');
      SplitMeaning(query.value);
      Some(SortSpec(parts[0], if |parts| > 1 && parts[1] == "desc" then -1 else 1))
  }

  lemma SplitMeaning(q: string)
    ensures var parts := Split(q, ':');
            SortMeans(q, SortSpec(parts[0], if |parts| > 1 && parts[1] == "desc" then -1 else 1))
  {
    var parts := Split(q, ':');
    SplitField(q);
    if |parts| > 1 && parts[1] == "desc" {
      SplitDescending(q);
    }
    if q == parts[0] + ":desc" {
      DescendingSplits(parts[0], q);
    } else if parts[0] + ":desc:" <= q {
      DescendingSplits(parts[0], q);
    }
  }

  /** The first part of a split is the whole text or the text before the first separator. */
  lemma SplitField(q: string)
    ensures var parts := Split(q, ':');
            (|parts| == 1 ==> q == parts[0]) && (|parts| > 1 ==> parts[0] + ":" <= q)
  {
    var parts := Split(q, ':');
    JoinSplit(q, ':');
    if |parts| > 1 {
      assert q == parts[0] + [':'] + Join(parts[1..], ':');
      assert (parts[0] + ":") == q[..|parts[0]| + 1];
    }
  }

  /** A second part `desc` means the text is the field and `:desc`, possibly followed by a colon and more. */
  lemma SplitDescending(q: string)
    requires |Split(q, ':')| > 1 && Split(q, ':')[1] == "desc"
    ensures var field := Split(q, ':')[0];
            q == field + ":desc" || field + ":desc:" <= q
  {
    var parts := Split(q, ':');
    var field := parts[0];
    JoinSplit(q, ':');
    assert q == field + [':'] + Join(parts[1..], ':');
    if |parts| == 2 {
      assert Join(parts[1..], ':') == "desc";
      assert q == field + ":desc";
    } else {
      var tail := Join(parts[2..], ':');
      assert parts[1..][1..] == parts[2..];
      assert Join(parts[1..], ':') == "desc" + [':'] + tail;
      assert q == (field + ":desc:") + tail;
    }
  }

  /** Conversely, a colon-free field followed by `:desc`, alone or before a colon, splits with `desc` second. */
  lemma DescendingSplits(field: string, q: string)
    requires ':' !in field
    requires q == field + ":desc" || field + ":desc:" <= q
    ensures |Split(q, ':')| > 1 && Split(q, ':')[0] == field && Split(q, ':')[1] == "desc"
  {
    SplitNoSeparator("desc", ':');
    if q == field + ":desc" {
      assert q == field + [':'] + "desc";
      SplitAfterSeparatorFree(field, "desc", ':');
    } else {
      var rest := q[|field| + 6..];
      assert q == field + [':'] + ("desc" + [':'] + rest);
      SplitAfterSeparatorFree("desc", rest, ':');
      SplitAfterSeparatorFree(field, "desc" + [':'] + rest, ':');
    }
  }

  /** A colon-free field that the text equals, or starts with before a colon, is the first part of the split. */
  lemma {:induction false} FieldIsFirstPart(q: string, f: string)
    requires ':' !in f && (q == f || f + ":" <= q)
    ensures Split(q, ':')[0] == f
    decreases |f|
  {
    if f == [] {
      if q != [] {
        assert q[0] == ':';
      }
    } else {
      assert q[0] == f[0];
      if q != f {
        assert (f + ":")[1..] == f[1..] + ":";
      }
      FieldIsFirstPart(q[1..], f[1..]);
      assert [f[0]] + f[1..] == f;
    }
  }

  /** Two readings of the same text agree: `SortMeans` fixes the field and the order. */
  lemma {:induction false} SortMeansUnique(q: string, a: SortSpec, b: SortSpec)
    requires SortMeans(q, a) && SortMeans(q, b)
    ensures a == b
  {
    FieldIsFirstPart(q, a.field);
    FieldIsFirstPart(q, b.field);
  }

  /** A `sortBy` without a colon sorts ascending on the whole text. */
  lemma AscendingWithoutColon(q: string)
    requires q != "" && ':' !in q
    ensures SortFrom(Some(q)) == Some(SortSpec(q, 1))
  {
    SortMeansUnique(q, SortFrom(Some(q)).value, SortSpec(q, 1));
  }

  // ---------------------------------------------------------------- handlers

  /** What creating a task from a body yields: its description and flag from the body, its owner the caller. */
  lemma CreatedTask(body: Body, caller: UserId)
    requires DistinctKeys(body)
    ensures var r := ValidateTask(AssignAllTask(NewTaskDoc(), Override(body, "owner", ObjectId(caller))));
            && (r.Ok? <==> !AnyTaskMiscast(Override(body, "owner", ObjectId(caller))) && DescriptionAfter(NewTaskDoc(), body) != "")
            && (r.Ok? ==> r.value == Task(DescriptionAfter(NewTaskDoc(), body), CompletedAfter(NewTaskDoc(), body), caller))
  {
    var full := Override(body, "owner", ObjectId(caller));
    AssignAllTaskIsTaskAfter(NewTaskDoc(), full);
    assert Lookup(full, "description") == Lookup(body, "description");
    assert Lookup(full, "completed") == Lookup(body, "completed");
    assert DescriptionAfter(NewTaskDoc(), full) == DescriptionAfter(NewTaskDoc(), body);
    assert CompletedAfter(NewTaskDoc(), full) == CompletedAfter(NewTaskDoc(), body);
    assert OwnerAfter(NewTaskDoc(), full) == Some(caller);
  }

  /** POST /tasks: the body spread into a new task whose owner is forced to the caller. */
  method CreateTask(db: Db, caller: UserId, id: TaskId, body: Body) returns (r: Result<Task, TaskError>)
    requires db.Valid() && caller in db.users && id !in db.tasks && DistinctKeys(body)
    modifies db
    ensures db.Valid() && db.users == old(db.users)
    ensures r.Ok? <==> (!AnyTaskMiscast(Override(body, "owner", ObjectId(caller))) && DescriptionAfter(NewTaskDoc(), body) != "")
    ensures r.Ok? ==> r.value == Task(DescriptionAfter(NewTaskDoc(), body), CompletedAfter(NewTaskDoc(), body), caller)
                      && db.tasks == old(db.tasks)[id := r.value]
    ensures r.Err? ==> db.tasks == old(db.tasks)
  {
    var full := Override(body, "owner", ObjectId(caller));
    var doc := AssignAllTask(NewTaskDoc(), full);
    CreatedTask(body, caller);
    AssignAllTaskIsTaskAfter(NewTaskDoc(), full);
    assert doc.owner == Some(caller);
    r := db.SaveTask(id, doc);
  }

  /** GET /tasks: the caller's tasks that pass the `completed` filter, and the sort to apply. */
  method ListTasks(db: Db, caller: UserId, completed: Option<string>, sortBy: Option<string>)
    returns (listed: map<TaskId, Task>, sort: Option<SortSpec>)
    ensures forall t :: t in listed <==> t in db.tasks && db.tasks[t].owner == caller
                                         && (completed.None? || completed.value == "" || (db.tasks[t].completed <==> completed.value == "true"))
    ensures forall t :: t in listed ==> listed[t] == db.tasks[t]
    ensures sort.None? <==> sortBy.None? || sortBy.value == ""
    ensures sort.Some? ==> sortBy.Some? && SortMeans(sortBy.value, sort.value)
  {
    var filter := CompletedFilter(completed);
    listed := map t | t in db.tasks && Listed(db.tasks[t], caller, filter) :: db.tasks[t];
    sort := SortFrom(sortBy);
  }

  /** GET /tasks/:id: found only when the id exists and the caller owns it. */
  method GetTask(db: Db, caller: UserId, id: TaskId) returns (r: Result<Task, TaskError>)
    ensures r.Ok? <==> id in db.tasks && db.tasks[id].owner == caller
    ensures r.Ok? ==> r.value == db.tasks[id]
    ensures r.Err? ==> r.error == TaskNotFound
  {
    var found := FindOwned(db.tasks, id, caller);
    if found.None? {
      return Err(TaskNotFound);
    }
    r := Ok(found.value);
  }

  /** `updates.forEach(update => task[update] = req.body[update])`. */
  method ApplyTaskUpdates(doc: TaskDoc, body: Body) returns (d: TaskDoc)
    ensures d == AssignAllTask(doc, body)
  {
    d := doc;
    var i := 0;
    while i < |body|
      invariant 0 <= i <= |body|
      invariant AssignAllTask(d, body[i..]) == AssignAllTask(doc, body)
    {
      assert body[i..][1..] == body[i + 1..];
      d := AssignTask(d, body[i].0, body[i].1);
      i := i + 1;
    }
  }

  /** Assigning only allow-listed keys never touches the owner. */
  lemma {:induction false} AllowedUpdatesKeepOwner(doc: TaskDoc, body: Body)
    requires Every(Keys(body), TaskUpdateKeys)
    ensures AssignAllTask(doc, body).owner == doc.owner
    decreases |body|
  {
    if body != [] {
      assert Keys(body)[0] == body[0].0;
      assert Keys(body[1..]) == Keys(body)[1..];
      AllowedUpdatesKeepOwner(AssignTask(doc, body[0].0, body[0].1), body[1..]);
    }
  }

  /** PATCH /tasks/:id: allow-list, ownership lookup, assignments, then a validating save. */
  method UpdateTask(db: Db, caller: UserId, id: TaskId, body: Body) returns (r: Result<Task, TaskError>)
    requires db.Valid() && caller in db.users
    modifies db
    ensures db.Valid() && db.users == old(db.users)
    ensures !Every(Keys(body), TaskUpdateKeys) ==> r == Err(InvalidUpdates)
    ensures Every(Keys(body), TaskUpdateKeys) && !(id in old(db.tasks) && old(db.tasks)[id].owner == caller) ==> r == Err(TaskNotFound)
    ensures Every(Keys(body), TaskUpdateKeys) && id in old(db.tasks) && old(db.tasks)[id].owner == caller
            ==> r == ValidateTask(AssignAllTask(LoadTask(old(db.tasks)[id]), body))
    ensures r.Ok? ==> id in old(db.tasks) && old(db.tasks)[id].owner == caller
                      && r == ValidateTask(AssignAllTask(LoadTask(old(db.tasks)[id]), body))
                      && r.value.owner == caller
                      && db.tasks == old(db.tasks)[id := r.value]
    ensures r.Err? ==> db.tasks == old(db.tasks)
  {
    if !Every(Keys(body), TaskUpdateKeys) {
      return Err(InvalidUpdates);
    }
    var found := FindOwned(db.tasks, id, caller);
    if found.None? {
      return Err(TaskNotFound);
    }
    var doc := ApplyTaskUpdates(LoadTask(found.value), body);
    AllowedUpdatesKeepOwner(LoadTask(found.value), body);
    r := db.SaveTask(id, doc);
  }

  /** What an accepted task update stores: the supplied fields, the rest of the task as it was. */
  lemma AcceptedTaskUpdate(t: Task, body: Body)
    requires DistinctKeys(body) && Every(Keys(body), TaskUpdateKeys)
    ensures var r := ValidateTask(AssignAllTask(LoadTask(t), body));
            && (r.Ok? <==> !AnyTaskMiscast(body) && DescriptionAfter(LoadTask(t), body) != "")
            && (r.Ok? ==> r.value == Task(DescriptionAfter(LoadTask(t), body), CompletedAfter(LoadTask(t), body), t.owner))
  {
    AssignAllTaskIsTaskAfter(LoadTask(t), body);
    AllowedUpdatesKeepOwner(LoadTask(t), body);
  }

  /** DELETE /tasks/:id: `findOneAndDelete` on the id and the caller together. */
  method DeleteTask(db: Db, caller: UserId, id: TaskId) returns (r: Result<Task, TaskError>)
    requires db.Valid()
    modifies db
    ensures db.Valid() && db.users == old(db.users)
    ensures r.Ok? <==> id in old(db.tasks) && old(db.tasks)[id].owner == caller
    ensures r.Ok? ==> r.value == old(db.tasks)[id] && db.tasks == old(db.tasks) - {id}
    ensures r.Err? ==> r.error == TaskNotFound && db.tasks == old(db.tasks)
  {
    var found := FindOwned(db.tasks, id, caller);
    if found.None? {
      return Err(TaskNotFound);
    }
    db.DeleteTask(id);
    r := Ok(found.value);
  }
}
