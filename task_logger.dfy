/** The task logger (src/task-logger/TaskLogger.ts, class `TaskLogger`) over
    its data file. The object holds what the file holds: the saved tasks, the
    schema version and the time of the last save. Every operation loads the
    list, works on it and, when it changed something, saves it back; ids and
    clock readings are parameters. */
module TaskLogging {
  import opened Wrappers
  import opened Strings
  import opened Tasks

  class TaskLogger {
    /** The tasks of the data file, in file order. */
    var tasks: seq<Task>
    /** The schema version of the data file. */
    var version: string
    /** When the data file was last saved. */
    var lastModified: string

    /** What every save leaves behind: tasks that load back unchanged, the
        current schema version and a timestamp. */
    ghost predicate Valid()
      reads this
    {
      (forall i :: 0 <= i < |tasks| ==> Stable(tasks[i]))
      && version == SchemaVersion && lastModified != []
    }

    /** A logger whose data file does not exist yet: loading gives an empty
        list with the current version, stamped with the time `now`. */
    constructor (now: NonEmpty)
      ensures Valid()
      ensures tasks == [] && version == SchemaVersion && lastModified == now
    {
      tasks := [];
      version := SchemaVersion;
      lastModified := now;
    }

    /** `loadTaskList`: the file's tasks as parsed and normalised. */
    function Load(): (r: seq<Task>)
      reads this
      ensures |r| <= |tasks|
      ensures forall i :: 0 <= i < |r| ==> WellFormed(r[i])
    {
      Snapshot(tasks)
    }

    /** Loading gives back what was saved. */
    lemma LoadIsStored()
      requires Valid()
      ensures Load() == tasks
    {
      SnapshotOfStable(tasks);
    }

    /** `saveTaskList`: the list is normalised once more and written with the
        current schema version and the time of the save. */
    method Save(list: seq<Task>, savedAt: NonEmpty)
      modifies this
      ensures tasks == Snapshot(list) && version == SchemaVersion && lastModified == savedAt
    {
      tasks := Snapshot(list);
      version := SchemaVersion;
      lastModified := savedAt;
    }

    /** `addTask`: checks the trimmed description and creator, then appends a
        pending task with the id `id` created at `createdAt`; `savedAt` is the
        time of the save. A failed check changes nothing. */
    method AddTask(description: string, createdBy: string, id: NonEmpty, createdAt: NonEmpty, savedAt: NonEmpty)
      returns (r: Result<Task, Error>)
      requires Valid()
      modifies this
      ensures Valid()
      ensures CheckNewTask(description, createdBy).Some? ==>
        r == Failure(CheckNewTask(description, createdBy).value)
        && tasks == old(tasks) && version == old(version) && lastModified == old(lastModified)
      ensures CheckNewTask(description, createdBy).None? ==>
        r == Success(NewTask(description, createdBy, id, createdAt))
        && tasks == old(tasks) + [r.value] && lastModified == savedAt
    {
      var trimmedDescription := JsTrim(description);
      var trimmedCreator := JsTrim(createdBy);
      if trimmedDescription == [] {
        return Failure(EmptyDescription);
      }
      if |trimmedDescription| > MaxDescriptionLength {
        return Failure(DescriptionTooLong);
      }
      if trimmedCreator == [] {
        return Failure(MissingCreator);
      }
      var taskList := Load();
      LoadIsStored();
      var task := Task(id, trimmedDescription, Pending, createdAt, None, trimmedCreator);
      NewTaskStable(description, createdBy, id, createdAt);
      taskList := taskList + [task];
      SnapshotOfStable(taskList);
      Save(taskList, savedAt);
      return Success(task);
    }

    /** `listTasks`: the tasks with the given status, or all of them, in
        stored order. */
    function ListTasks(filter: TaskFilter): (r: seq<Task>)
      requires Valid()
      reads this
      ensures r == SelectStatus(tasks, filter)
      ensures filter.All? ==> r == tasks
      ensures forall t :: t in r <==> t in tasks && (filter.All? || t.status == filter.status)
      ensures filter.Only? ==>
        |r| + |SelectStatus(tasks, Only(if filter.status == Pending then Completed else Pending))| == |tasks|
    {
      LoadIsStored();
      SelectAll(tasks);
      SelectPartition(tasks);
      SelectStatus(Load(), filter)
    }

    /** `getTask`: the first task with the trimmed id, if any; a blank id is
        an error. */
    function GetTask(id: string): (r: Result<Option<Task>, Error>)
      requires Valid()
      reads this
      ensures r.Failure? <==> AllIn(id, IsJsSpace)
      ensures r.Failure? ==> r.error == InvalidId
      ensures r.Success? && r.value.Some? ==>
        FindIndex(tasks, JsTrim(id)).Some? && r.value.value == tasks[FindIndex(tasks, JsTrim(id)).value]
      ensures r.Success? && r.value.None? ==> forall j :: 0 <= j < |tasks| ==> tasks[j].id != JsTrim(id)
    {
      LoadIsStored();
      match NormalizeId(id)
      case Failure(e) => Failure(e)
      case Success(normalizedId) =>
        var taskList := Load();
        match FindIndex(taskList, normalizedId)
        case Some(i) => Success(Some(taskList[i]))
        case None => Success(None)
    }

    /** `completeTask`: marks the first task with the trimmed id completed and
        stamps it with `completedAt` if it has no completion time yet; only a
        change is saved, at `savedAt`. */
    method CompleteTask(id: string, completedAt: NonEmpty, savedAt: NonEmpty)
      returns (r: Result<Option<Task>, Error>)
      requires Valid()
      modifies this
      ensures Valid()
      ensures r.Failure? <==> AllIn(id, IsJsSpace)
      ensures r.Failure? ==> r.error == InvalidId
      ensures r.Failure? || r == Success(None) ==>
        tasks == old(tasks) && version == old(version) && lastModified == old(lastModified)
      ensures r.Success? ==> (r.value.None? <==> FindIndex(old(tasks), JsTrim(id)).None?)
      ensures r.Success? && r.value.Some? ==>
        var i := FindIndex(old(tasks), JsTrim(id)).value;
        r.value.value == Complete(old(tasks)[i], completedAt)
        && tasks == old(tasks)[i := r.value.value]
        && (r.value.value == old(tasks)[i] ==> lastModified == old(lastModified))
        && (r.value.value != old(tasks)[i] ==> lastModified == savedAt)
    {
      var normalized := NormalizeId(id);
      if normalized.Failure? {
        return Failure(normalized.error);
      }
      var normalizedId := normalized.value;
      var taskList := Load();
      LoadIsStored();
      var found := FindIndex(taskList, normalizedId);
      if found.None? {
        return Success(None);
      }
      var i := found.value;
      var task := taskList[i];
      var shouldPersist := false;
      if task.status != Completed {
        task := task.(status := Completed, completedAt := Some(completedAt));
        shouldPersist := true;
      } else if NeedsTimestamp(task) {
        task := task.(completedAt := Some(completedAt));
        shouldPersist := true;
      }
      assert task == Complete(taskList[i], completedAt);
      if shouldPersist {
        CompleteStable(taskList[i], completedAt);
        taskList := taskList[i := task];
        SnapshotOfStable(taskList);
        Save(taskList, savedAt);
      }
      return Success(Some(task));
    }

    /** `deleteTask`: removes the first task with the trimmed id and saves;
        `false` and no change when there is none. */
    method DeleteTask(id: string, savedAt: NonEmpty) returns (r: Result<bool, Error>)
      requires Valid()
      modifies this
      ensures Valid()
      ensures r.Failure? <==> AllIn(id, IsJsSpace)
      ensures r.Failure? ==> r.error == InvalidId
      ensures r.Failure? || r == Success(false) ==>
        tasks == old(tasks) && version == old(version) && lastModified == old(lastModified)
      ensures r.Success? ==> (r.value <==> FindIndex(old(tasks), JsTrim(id)).Some?)
      ensures r == Success(true) ==>
        tasks == RemoveAt(old(tasks), FindIndex(old(tasks), JsTrim(id)).value) && lastModified == savedAt
    {
      var normalized := NormalizeId(id);
      if normalized.Failure? {
        return Failure(normalized.error);
      }
      var normalizedId := normalized.value;
      var taskList := Load();
      LoadIsStored();
      var index := FindIndex(taskList, normalizedId);
      if index.None? {
        return Success(false);
      }
      taskList := RemoveAt(taskList, index.value);
      RemoveAtStable(tasks, index.value);
      SnapshotOfStable(taskList);
      Save(taskList, savedAt);
      return Success(true);
    }
  }

  /** Removing a task from a list of stable tasks leaves stable tasks. */
  lemma RemoveAtStable(ts: seq<Task>, i: nat)
    requires i < |ts| && forall k :: 0 <= k < |ts| ==> Stable(ts[k])
    ensures forall k :: 0 <= k < |ts| - 1 ==> Stable(RemoveAt(ts, i)[k])
  {
    var r := RemoveAt(ts, i);
    forall k | 0 <= k < |ts| - 1 ensures Stable(r[k]) {
      if k < i {
        assert r[k] == r[..i][k] == ts[k];
      } else {
        assert r[k] == r[i..][k - i] == ts[k + 1];
      }
    }
  }

  /** `deleteTask` removes exactly the first task with the id: the tasks
      before it and after it keep their order. */
  lemma DeleteRemovesFirstMatch(ts: seq<Task>, id: string)
    requires FindIndex(ts, id).Some?
    ensures var i := FindIndex(ts, id).value;
      var r := RemoveAt(ts, i);
      r[..i] == ts[..i] && r[i..] == ts[i + 1..]
      && (forall j :: 0 <= j < i ==> r[j].id != id)
      && multiset(r) + multiset{ts[i]} == multiset(ts)
  {
    var i := FindIndex(ts, id).value;
    var r := RemoveAt(ts, i);
    assert ts[..i] == r[..i];
    assert ts[i + 1..] == r[i..] by {
      assert ts == r[..i] + [ts[i]] + r[i..];
    }
    assert r == r[..i] + r[i..];
    assert ts == ts[..i] + [ts[i]] + ts[i + 1..];
  }
}
