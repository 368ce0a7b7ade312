/** The values of the task list (src/task-logger/TaskLogger.ts): tasks and
    their status, the validation and normalisation rules applied to every
    record read from or written to the data file, and the pure queries used
    by the logger (lookup by id, filtering by status). */
module Tasks {
  import opened Wrappers
  import opened Strings

  /** JavaScript's `String.prototype.trim` whitespace: the WhiteSpace and
      LineTerminator characters of the language. */
  predicate IsJsSpace(c: char)
  {
    '\t' <= c <= '\r' || c == ' ' || c == '\U{00A0}' || c == '\U{1680}'
    || '\U{2000}' <= c <= '\U{200A}' || c == '\U{2028}' || c == '\U{2029}'
    || c == '\U{202F}' || c == '\U{205F}' || c == '\U{3000}' || c == '\U{FEFF}'
  }

  /** `s.trim()`. */
  function JsTrim(s: string): string
  {
    Trim(s, IsJsSpace)
  }

  /** Characters kept in a stored description. */
  const MaxDescriptionLength: nat := 500

  /** The version written into every saved task list. */
  const SchemaVersion := "1.0.0"

  /** A string that is never empty: the ids and ISO timestamps the logger
      obtains from `randomUUID` and the clock. */
  type NonEmpty = s: string | s != [] witness "0"

  datatype Status = Pending | Completed

  /** The filter of `listTasks`. */
  datatype TaskFilter = All | Only(status: Status)

  datatype Task = Task(
    id: string, description: string, status: Status, createdAt: string,
    completedAt: Option<string>, createdBy: string)

  datatype TaskList = TaskList(tasks: seq<Task>, version: string, lastModified: string)

  /** A record as parsed from the data file, before validation. A field is
      `None` when it is absent or not a string; `NotObject` stands for a
      value that is not an object at all. */
  datatype Candidate =
    | NotObject
    | Record(id: Option<string>, description: Option<string>, status: Option<string>,
             createdAt: Option<string>, completedAt: Option<string>, createdBy: Option<string>)

  /** The whole data file as parsed; `tasks` is `None` when it is not an array. */
  datatype ListCandidate =
    | NotAList
    | ListRecord(tasks: Option<seq<Candidate>>, version: Option<string>, lastModified: Option<string>)

  /** The errors the logger throws. */
  datatype Error = EmptyDescription | DescriptionTooLong | MissingCreator | InvalidId

  /** A string field that is present and not empty (JavaScript truthiness). */
  predicate Filled(f: Option<string>)
  {
    f.Some? && f.value != []
  }

  /** A status other than `completed` or `pending` is read as `pending`. */
  function StatusOf(f: Option<string>): Status
  {
    if f == Some("completed") then Completed else Pending
  }

  /** The candidate has every field that `normalizeTask` insists on. */
  predicate Accepted(c: Candidate)
  {
    c.Record? && Filled(c.id) && c.description.Some? && JsTrim(c.description.value) != []
    && Filled(c.createdAt) && Filled(c.createdBy)
  }

  /** `normalizeTask`: a record with an id, a description that is not blank,
      a creation time and a creator becomes a task whose description is
      trimmed and cut to `MaxDescriptionLength`; anything else is dropped. */
  function NormalizeTask(c: Candidate): (r: Option<Task>)
    ensures r.Some? <==> Accepted(c)
    ensures r.Some? ==> (r.value.id == c.id.value && r.value.createdAt == c.createdAt.value
      && r.value.createdBy == c.createdBy.value && r.value.status == StatusOf(c.status))
    ensures r.Some? ==> r.value.description == Take(JsTrim(c.description.value), MaxDescriptionLength)
    ensures r.Some? ==> r.value.completedAt == if Filled(c.completedAt) then c.completedAt else None
  {
    if !Accepted(c) then None
    else
      Some(Task(c.id.value, Take(JsTrim(c.description.value), MaxDescriptionLength),
        StatusOf(c.status), c.createdAt.value,
        if Filled(c.completedAt) then c.completedAt else None, c.createdBy.value))
  }

  function StatusName(s: Status): string
  {
    match s
    case Pending => "pending"
    case Completed => "completed"
  }

  /** A task as written to the data file and parsed back. */
  function ToCandidate(t: Task): Candidate
  {
    Record(Some(t.id), Some(t.description), Some(StatusName(t.status)), Some(t.createdAt),
      t.completedAt, Some(t.createdBy))
  }

  /** The shape of every task `normalizeTask` produces. */
  predicate WellFormed(t: Task)
  {
    t.id != [] && t.description != [] && |t.description| <= MaxDescriptionLength
    && !IsJsSpace(t.description[0])
    && t.createdAt != [] && t.createdBy != [] && (t.completedAt.Some? ==> t.completedAt.value != [])
  }

  /** A task that survives being saved and loaded again unchanged. */
  predicate Stable(t: Task)
  {
    NormalizeTask(ToCandidate(t)) == Some(t)
  }

  /** What `normalizeTask` returns is well formed. */
  lemma NormalizedWellFormed(c: Candidate)
    requires NormalizeTask(c).Some?
    ensures WellFormed(NormalizeTask(c).value)
  {
    var d := JsTrim(c.description.value);
    var t := NormalizeTask(c).value;
    assert t.description == Take(d, MaxDescriptionLength);
    assert t.description[0] == d[0];
  }

  lemma StatusRoundTrip(s: Status)
    ensures StatusOf(Some(StatusName(s))) == s
  {
    if s == Pending {
      assert StatusName(s) != "completed" by {
        assert StatusName(s)[0] == 'p';
      }
    }
  }

  /** A task is stable exactly when it is well formed and its description has
      no whitespace at the end either. */
  lemma StableIff(t: Task)
    ensures Stable(t) <==> WellFormed(t) && !IsJsSpace(t.description[|t.description| - 1])
  {
    StatusRoundTrip(t.status);
    var c := ToCandidate(t);
    if WellFormed(t) && !IsJsSpace(t.description[|t.description| - 1]) {
      TrimmedFixed(t.description, IsJsSpace);
      assert Accepted(c);
    }
    if Stable(t) {
      NormalizedWellFormed(c);
      var d := JsTrim(t.description);
      assert t.description == Take(d, MaxDescriptionLength);
      assert t.description == d;
    }
  }

  /** Loading a task a second time reaches a fixed point: the first pass may
      cut a long description just after a space, the second pass drops that
      space, and every later pass changes nothing. */
  lemma SecondPassStable(c: Candidate)
    requires NormalizeTask(c).Some?
    ensures NormalizeTask(ToCandidate(NormalizeTask(c).value)).Some?
    ensures Stable(NormalizeTask(ToCandidate(NormalizeTask(c).value)).value)
  {
    var t := NormalizeTask(c).value;
    NormalizedWellFormed(c);
    StatusRoundTrip(t.status);
    var c2 := ToCandidate(t);
    TrimKeeps(t.description, IsJsSpace, t.description[0]);
    assert Accepted(c2);
    var t2 := NormalizeTask(c2).value;
    var d := JsTrim(t.description);
    assert t2.description == d;
    NormalizedWellFormed(c2);
    StableIff(t2);
  }

  /** The first pass is not always a fixed point: a description longer than
      the limit, cut right after a space, loses that space on the next save. */
  lemma FirstPassNotStable(p: string, c: Candidate)
    requires |p| == MaxDescriptionLength - 1 && !IsJsSpace(p[0])
    requires c.Record? && Filled(c.id) && Filled(c.createdAt) && Filled(c.createdBy)
    requires c.description == Some(p + " x")
    ensures NormalizeTask(c).Some? && NormalizeTask(c).value.description == p + " "
    ensures !Stable(NormalizeTask(c).value)
  {
    var d := p + " x";
    TrimmedFixed(d, IsJsSpace);
    assert Accepted(c);
    assert Take(d, MaxDescriptionLength) == p + " ";
    var t := NormalizeTask(c).value;
    StableIff(t);
  }

  /** `tasks.map(normalizeTask).filter(Boolean)`: the accepted candidates,
      normalised, in their original order. */
  function NormalizeAll(cs: seq<Candidate>): (r: seq<Task>)
    ensures |r| <= |cs|
  {
    if cs == [] then []
    else
      match NormalizeTask(cs[0])
      case Some(t) => [t] + NormalizeAll(cs[1..])
      case None => NormalizeAll(cs[1..])
  }

  /** Normalising a concatenation normalises each part. */
  lemma {:induction false} NormalizeAllAppend(a: seq<Candidate>, b: seq<Candidate>)
    ensures NormalizeAll(a + b) == NormalizeAll(a) + NormalizeAll(b)
  {
    if a == [] {
      assert a + b == b;
    } else {
      assert (a + b)[0] == a[0];
      assert (a + b)[1..] == a[1..] + b;
      NormalizeAllAppend(a[1..], b);
    }
  }

  /** Number of candidates `normalizeTask` accepts. */
  function CountAccepted(cs: seq<Candidate>): nat
  {
    if cs == [] then 0 else (if Accepted(cs[0]) then 1 else 0) + CountAccepted(cs[1..])
  }

  /** Exactly the accepted candidates are kept: one task each, and every
      kept task comes from some candidate. */
  lemma {:induction false} NormalizeAllKeepsAccepted(cs: seq<Candidate>)
    ensures |NormalizeAll(cs)| == CountAccepted(cs)
    ensures forall t :: t in NormalizeAll(cs) <==> exists c :: c in cs && NormalizeTask(c) == Some(t)
  {
    if cs != [] {
      NormalizeAllKeepsAccepted(cs[1..]);
      forall t ensures t in NormalizeAll(cs) <==> exists c :: c in cs && NormalizeTask(c) == Some(t) {
        if t in NormalizeAll(cs) && t !in NormalizeAll(cs[1..]) {
          assert NormalizeTask(cs[0]) == Some(t);
        }
        if c :| c in cs && NormalizeTask(c) == Some(t) {
          if c != cs[0] {
            assert c in cs[1..];
          }
        }
      }
    }
  }

  /** The candidates a saved list of tasks becomes when parsed back. */
  function ToCandidates(ts: seq<Task>): (cs: seq<Candidate>)
    ensures |cs| == |ts|
    ensures forall i :: 0 <= i < |ts| ==> cs[i] == ToCandidate(ts[i])
  {
    seq(|ts|, i requires 0 <= i < |ts| => ToCandidate(ts[i]))
  }

  /** The task list written by `saveTaskList`, as it is loaded again: every
      task normalised once more. */
  function Snapshot(ts: seq<Task>): (r: seq<Task>)
    ensures |r| <= |ts|
    ensures forall i :: 0 <= i < |r| ==> WellFormed(r[i])
  {
    NormalizeAllWellFormed(ToCandidates(ts));
    NormalizeAll(ToCandidates(ts))
  }

  /** A list of stable tasks is its own snapshot. */
  lemma {:induction false} SnapshotOfStable(ts: seq<Task>)
    requires forall i :: 0 <= i < |ts| ==> Stable(ts[i])
    ensures Snapshot(ts) == ts
  {
    if ts != [] {
      var cs := ToCandidates(ts);
      assert cs[1..] == ToCandidates(ts[1..]);
      assert NormalizeTask(cs[0]) == Some(ts[0]);
      SnapshotOfStable(ts[1..]);
      assert ts == [ts[0]] + ts[1..];
    }
  }

  /** Whatever a list holds, its snapshot is made of well-formed tasks. */
  lemma {:induction false} NormalizeAllWellFormed(cs: seq<Candidate>)
    ensures forall i :: 0 <= i < |NormalizeAll(cs)| ==> WellFormed(NormalizeAll(cs)[i])
  {
    if cs != [] {
      NormalizeAllWellFormed(cs[1..]);
      if NormalizeTask(cs[0]).Some? {
        NormalizedWellFormed(cs[0]);
      }
    }
  }

  /** `normalizeTaskList`: the accepted tasks of the file, its version or
      `SchemaVersion`, and its last-modified time or the current time. */
  function NormalizeTaskList(input: ListCandidate, now: NonEmpty): (r: TaskList)
    ensures r.version != [] && r.lastModified != []
    ensures input.ListRecord? && Filled(input.version) ==> r.version == input.version.value
    ensures !(input.ListRecord? && Filled(input.version)) ==> r.version == SchemaVersion
    ensures r.tasks == if input.ListRecord? && input.tasks.Some? then NormalizeAll(input.tasks.value) else []
    ensures r.lastModified == if input.ListRecord? && Filled(input.lastModified) then input.lastModified.value else now
  {
    if input.NotAList? then TaskList([], SchemaVersion, now)
    else
      var tasks := if input.tasks.Some? then NormalizeAll(input.tasks.value) else [];
      var lastModified := if Filled(input.lastModified) then input.lastModified.value else now;
      var version := if Filled(input.version) then input.version.value else SchemaVersion;
      TaskList(tasks, version, lastModified)
  }

  /** `normalizeId`: a blank id is an error, any other is trimmed. */
  function NormalizeId(id: string): (r: Result<NonEmpty, Error>)
    ensures r.Failure? <==> AllIn(id, IsJsSpace)
    ensures r.Failure? ==> r.error == InvalidId
    ensures r.Success? ==> r.value == JsTrim(id)
  {
    var t := JsTrim(id);
    if t == [] then Failure(InvalidId) else Success(t)
  }

  /** A normalised id normalises to itself, and has no whitespace at its ends. */
  lemma NormalizeIdIdempotent(id: string)
    requires NormalizeId(id).Success?
    ensures NormalizeId(NormalizeId(id).value) == NormalizeId(id)
    ensures var n := NormalizeId(id).value; !IsJsSpace(n[0]) && !IsJsSpace(n[|n| - 1])
  {
    TrimIdempotent(id, IsJsSpace);
  }

  /** `findIndex` by id: the first task with that id. */
  function FindIndex(ts: seq<Task>, id: string): (r: Option<nat>)
    ensures r.Some? ==> (r.value < |ts| && ts[r.value].id == id
      && forall j :: 0 <= j < r.value ==> ts[j].id != id)
    ensures r.None? <==> forall j :: 0 <= j < |ts| ==> ts[j].id != id
  {
    if ts == [] then None
    else if ts[0].id == id then Some(0)
    else match FindIndex(ts[1..], id)
      case Some(i) => Some(i + 1)
      case None => None
  }

  /** `filter` by status, in stored order. */
  function SelectStatus(ts: seq<Task>, filter: TaskFilter): (r: seq<Task>)
    ensures |r| <= |ts|
    ensures forall t :: t in r <==> t in ts && (filter.All? || t.status == filter.status)
  {
    if ts == [] then []
    else
      var rest := SelectStatus(ts[1..], filter);
      if filter.All? || ts[0].status == filter.status then [ts[0]] + rest else rest
  }

  /** The `all` filter returns every task. */
  lemma {:induction false} SelectAll(ts: seq<Task>)
    ensures SelectStatus(ts, All) == ts
  {
    if ts != [] {
      SelectAll(ts[1..]);
      assert ts == [ts[0]] + ts[1..];
    }
  }

  /** Filtering a concatenation filters each part, so the stored order is kept. */
  lemma {:induction false} SelectAppend(a: seq<Task>, b: seq<Task>, filter: TaskFilter)
    ensures SelectStatus(a + b, filter) == SelectStatus(a, filter) + SelectStatus(b, filter)
  {
    if a == [] {
      assert a + b == b;
    } else {
      assert (a + b)[0] == a[0];
      assert (a + b)[1..] == a[1..] + b;
      SelectAppend(a[1..], b, filter);
    }
  }

  /** Every task is either pending or completed: the two filters split the list. */
  lemma {:induction false} SelectPartition(ts: seq<Task>)
    ensures |SelectStatus(ts, Only(Pending))| + |SelectStatus(ts, Only(Completed))| == |ts|
  {
    if ts != [] {
      SelectPartition(ts[1..]);
    }
  }

  /** `addTask`'s checks, in order: the trimmed description must not be empty
      nor longer than the limit, and the trimmed creator must not be empty. */
  function CheckNewTask(description: string, createdBy: string): (r: Option<Error>)
    ensures r == Some(EmptyDescription) <==> JsTrim(description) == []
    ensures r == Some(DescriptionTooLong) <==> JsTrim(description) != [] && |JsTrim(description)| > MaxDescriptionLength
    ensures r == Some(MissingCreator) <==> (JsTrim(description) != []
      && |JsTrim(description)| <= MaxDescriptionLength && JsTrim(createdBy) == [])
    ensures r.Some? ==> r.value != InvalidId
  {
    var d := JsTrim(description);
    if d == [] then Some(EmptyDescription)
    else if |d| > MaxDescriptionLength then Some(DescriptionTooLong)
    else if JsTrim(createdBy) == [] then Some(MissingCreator)
    else None
  }

  /** The task `addTask` creates once its checks pass. */
  function NewTask(description: string, createdBy: string, id: NonEmpty, createdAt: NonEmpty): (t: Task)
    ensures t.id == id && t.createdAt == createdAt && t.status == Pending && t.completedAt.None?
    ensures t.description == JsTrim(description) && t.createdBy == JsTrim(createdBy)
    ensures CheckNewTask(description, createdBy).None? ==> WellFormed(t)
  {
    Task(id, JsTrim(description), Pending, createdAt, None, JsTrim(createdBy))
  }

  /** A task that passed the checks is stored unchanged by the next save. */
  lemma NewTaskStable(description: string, createdBy: string, id: NonEmpty, createdAt: NonEmpty)
    requires CheckNewTask(description, createdBy).None?
    ensures Stable(NewTask(description, createdBy, id, createdAt))
  {
    var t := NewTask(description, createdBy, id, createdAt);
    var d := JsTrim(description);
    assert t.description == d;
    StableIff(t);
  }

  /** The completed-at field is missing or empty (JavaScript falsiness). */
  predicate NeedsTimestamp(t: Task)
  {
    t.completedAt.None? || t.completedAt.value == []
  }

  /** `completeTask`'s transition on the task it finds. */
  function Complete(t: Task, now: NonEmpty): (r: Task)
    ensures r.status == Completed && r.completedAt.Some? && r.completedAt.value != []
    ensures r.id == t.id && r.description == t.description && r.createdAt == t.createdAt
      && r.createdBy == t.createdBy
    ensures t.status != Completed || NeedsTimestamp(t) ==> r.completedAt == Some(now)
    ensures t.status == Completed && !NeedsTimestamp(t) ==> r == t
  {
    if t.status != Completed then t.(status := Completed, completedAt := Some(now))
    else if NeedsTimestamp(t) then t.(completedAt := Some(now))
    else t
  }

  /** Completing is idempotent: a second call changes nothing, whatever its time. */
  lemma CompleteIdempotent(t: Task, a: NonEmpty, b: NonEmpty)
    ensures Complete(Complete(t, a), b) == Complete(t, a)
  {
  }

  /** Completing a stable task keeps it stable. */
  lemma CompleteStable(t: Task, now: NonEmpty)
    requires Stable(t)
    ensures Stable(Complete(t, now))
  {
    StableIff(t);
    StableIff(Complete(t, now));
  }

  /** `splice(i, 1)`. */
  function RemoveAt(ts: seq<Task>, i: nat): (r: seq<Task>)
    requires i < |ts|
    ensures |r| == |ts| - 1
    ensures ts == r[..i] + [ts[i]] + r[i..]
  {
    var r := ts[..i] + ts[i + 1..];
    assert r[..i] == ts[..i] && r[i..] == ts[i + 1..];
    r
  }
}
