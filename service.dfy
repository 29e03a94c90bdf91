/** The task service: validation and trimming on create, partial update,
    not-found errors, and the projection of rows to transfer objects. */
module Service {
  import opened Wrappers
  import opened Bounds
  import opened Models
  import opened Strings
  import opened Repository

  const TitleEmptyMessage := "Title cannot be empty"
  const DescriptionEmptyMessage := "Description cannot be empty"

  /** The exceptions the service throws: `ArgumentException` with its
      message, and `KeyNotFoundException` ("Task with id {id} not found"). */
  datatype ServiceError = InvalidArgument(message: string) | TaskNotFound(id: TaskId)

  /** `MapToDto`: the row without its `UpdatedAt`. */
  function MapToDto(t: Task): TaskDto
  {
    TaskDto(t.id, t.title, t.description, t.isCompleted, t.createdAt)
  }

  /** Two rows give the same transfer object exactly when they differ at
      most in `UpdatedAt`: every other field is copied, that one dropped. */
  lemma MapToDtoDropsOnlyUpdatedAt(a: Task, b: Task)
    ensures MapToDto(a) == MapToDto(b) <==> a.(updatedAt := b.updatedAt) == b
  {
  }

  /** `Select(MapToDto)`: one transfer object per row, in the same order. */
  function MapToDtos(s: seq<Task>): (r: seq<TaskDto>)
    ensures |r| == |s|
    ensures forall i :: 0 <= i < |s| ==> r[i] == MapToDto(s[i])
  {
    if s == [] then [] else [MapToDto(s[0])] + MapToDtos(s[1..])
  }

  /** Every projection of rows drawn from a table is the projection of one
      of the table's rows. */
  lemma ProjectionsOfRows(tasks: seq<Task>, rows: seq<Task>)
    requires forall t :: t in tasks ==> t in rows
    ensures forall d :: d in MapToDtos(tasks) ==> exists t :: t in rows && MapToDto(t) == d
  {
    var r := MapToDtos(tasks);
    forall d | d in r ensures exists t :: t in rows && MapToDto(t) == d {
      var i :| 0 <= i < |r| && r[i] == d;
      assert tasks[i] in rows && MapToDto(tasks[i]) == d;
    }
  }

  /** If no active row left out of `tasks` is newer than one in it, then no
      active row whose projection is left out is newer than a projection
      kept. */
  lemma ProjectionsKeepNewest(tasks: seq<Task>, rows: seq<Task>)
    requires forall t, u :: t in rows && !t.isCompleted && t !in tasks && u in tasks ==> t.createdAt <= u.createdAt
    ensures forall t, d :: t in rows && !t.isCompleted && MapToDto(t) !in MapToDtos(tasks) && d in MapToDtos(tasks)
              ==> t.createdAt <= d.createdAt
  {
    var r := MapToDtos(tasks);
    forall t, d | t in rows && !t.isCompleted && MapToDto(t) !in r && d in r ensures t.createdAt <= d.createdAt {
      var i :| 0 <= i < |r| && r[i] == d;
      assert t !in tasks by {
        forall k | 0 <= k < |tasks| ensures tasks[k] != t {
          assert r[k] == MapToDto(tasks[k]) && r[k] != MapToDto(t);
        }
      }
      assert tasks[i] in tasks && d.createdAt == tasks[i].createdAt;
    }
  }

  /** The fields `UpdateTaskAsync` assigns from a patch, timestamps aside. */
  function ApplyPatch(t: Task, p: UpdateTaskDto): Task
  {
    t.(title := if p.title.Some? then Trim(DotNet, p.title.value) else t.title,
       description := if p.description.Some? then Trim(DotNet, p.description.value) else t.description,
       isCompleted := if p.isCompleted.Some? then p.isCompleted.value else t.isCompleted)
  }

  /** The patch `MarkTaskAsCompletedAsync` sends: `{ IsCompleted = true }`. */
  const CompletePatch := UpdateTaskDto(None, None, Some(true))

  /** A patch never touches the id or the timestamps. */
  lemma PatchKeepsIdentity(t: Task, p: UpdateTaskDto)
    ensures ApplyPatch(t, p).id == t.id
    ensures ApplyPatch(t, p).createdAt == t.createdAt
    ensures ApplyPatch(t, p).updatedAt == t.updatedAt
  {
  }

  /** A field the patch leaves absent keeps its value; an all-absent patch
      changes nothing. */
  lemma AbsentFieldsUnchanged(t: Task, p: UpdateTaskDto)
    ensures p.title.None? ==> ApplyPatch(t, p).title == t.title
    ensures p.description.None? ==> ApplyPatch(t, p).description == t.description
    ensures p.isCompleted.None? ==> ApplyPatch(t, p).isCompleted == t.isCompleted
    ensures p == UpdateTaskDto(None, None, None) ==> ApplyPatch(t, p) == t
  {
  }

  /** A present text field is stored trimmed: a further trim would not
      change it. */
  lemma PatchedTextIsTrimmed(t: Task, p: UpdateTaskDto)
    ensures p.title.Some? ==> Trim(DotNet, ApplyPatch(t, p).title) == ApplyPatch(t, p).title
    ensures p.description.Some? ==> Trim(DotNet, ApplyPatch(t, p).description) == ApplyPatch(t, p).description
  {
    if p.title.Some? { TrimIdempotent(DotNet, p.title.value); }
    if p.description.Some? { TrimIdempotent(DotNet, p.description.value); }
  }

  /** Applying the same patch twice gives the fields of applying it once. */
  lemma PatchIdempotent(t: Task, p: UpdateTaskDto)
    ensures ApplyPatch(ApplyPatch(t, p), p) == ApplyPatch(t, p)
  {
  }

  /** Completing sets the flag and nothing else. */
  lemma CompletePatchSetsFlagOnly(t: Task)
    ensures ApplyPatch(t, CompletePatch) == t.(isCompleted := true)
  {
  }

  /** Update does not re-check emptiness: a whitespace-only title in a patch
      is stored as the empty string, whatever the other fields. */
  lemma PatchMayEmptyTitle(t: Task, title: string, d: Option<string>, c: Option<bool>)
    requires IsBlank(DotNet, title)
    ensures ApplyPatch(t, UpdateTaskDto(Some(title), d, c)).title == ""
  {
  }

  /** ... and likewise a whitespace-only description. */
  lemma PatchMayEmptyDescription(t: Task, description: string, ti: Option<string>, c: Option<bool>)
    requires IsBlank(DotNet, description)
    ensures ApplyPatch(t, UpdateTaskDto(ti, Some(description), c)).description == ""
  {
  }

  /** The assignments of `UpdateTaskAsync` (Services/TaskService.cs lines
      58-65), one present field at a time. */
  method AssignPatchedFields(found: Task, patch: UpdateTaskDto) returns (task: Task)
    ensures task == ApplyPatch(found, patch)
  {
    task := found;
    if patch.title.Some? {
      task := task.(title := Trim(DotNet, patch.title.value));
    }
    if patch.description.Some? {
      task := task.(description := Trim(DotNet, patch.description.value));
    }
    if patch.isCompleted.Some? {
      task := task.(isCompleted := patch.isCompleted.value);
    }
  }

  class TaskService {
    const repo: TaskRepository

    constructor (repo: TaskRepository)
      ensures this.repo == repo
    {
      this.repo := repo;
    }

    /** `GetRecentTasksAsync(count)`: the projections of the newest active
        rows, newest first, `min(count, #active)` of them. */
    function GetRecentTasksAsync(count: int): (r: seq<TaskDto>)
      reads repo
      ensures |r| == Max(0, Min(count, |Active(repo.rows)|))
      ensures forall i :: 0 <= i < |r| ==> !r[i].isCompleted
      ensures forall i, j :: 0 <= i < j < |r| ==> r[i].createdAt >= r[j].createdAt
      ensures forall d :: d in r ==> exists t :: t in repo.rows && MapToDto(t) == d
      ensures |r| == |repo.GetRecentActiveTasks(count)|
      ensures forall i :: 0 <= i < |r| ==> r[i] == MapToDto(repo.GetRecentActiveTasks(count)[i])
      ensures forall t, d :: t in repo.rows && !t.isCompleted && MapToDto(t) !in r && d in r
                ==> t.createdAt <= d.createdAt
    {
      var tasks := repo.GetRecentActiveTasks(count);
      ProjectionsOfRows(tasks, repo.rows);
      ProjectionsKeepNewest(tasks, repo.rows);
      MapToDtos(tasks)
    }

    /** `GetAllTasksAsync()`: the projection of every committed row, in the
        table's order. */
    function GetAllTasksAsync(): (r: seq<TaskDto>)
      requires repo.Valid()
      reads repo
      ensures |r| == |repo.rows|
      ensures forall i :: 0 <= i < |r| ==> r[i] == MapToDto(repo.rows[i])
    {
      MapToDtos(repo.GetAllTasksAsync())
    }

    /** `GetTaskByIdAsync(id)`: the projection of the row with that id, or
        null when there is none. */
    function GetTaskByIdAsync(id: TaskId): (r: Option<TaskDto>)
      requires repo.Valid()
      reads repo
      ensures r.None? <==> !HasId(repo.rows, id)
      ensures forall t :: t in repo.rows && t.id == id ==> r == Some(MapToDto(t))
    {
      UniqueIdsPrefix(repo.rows, repo.staged);
      assert forall t :: t in repo.rows ==> Find(repo.rows, t.id) == Some(t) by {
        forall t | t in repo.rows ensures Find(repo.rows, t.id) == Some(t) {
          FindUnique(repo.rows, t);
        }
      }
      var found := repo.GetTaskByIdAsync(id);
      if found.None? then None else Some(MapToDto(found.value))
    }

    /** `CreateTaskAsync(dto)`: rejects a null or whitespace-only title, and
        then description, without touching the repository; otherwise stages
        the trimmed, not completed task, saves, and returns its projection. */
    method CreateTaskAsync(dto: CreateTaskDto, freshId: TaskId, createdNow: Instant, updatedNow: Instant)
      returns (r: Result<TaskDto, ServiceError>)
      requires repo.Valid() && repo.IsFreshId(freshId)
      requires repo.clock <= createdNow <= updatedNow
      modifies repo
      ensures repo.Valid()
      ensures r.Success? <==> !IsNullOrWhiteSpace(dto.title) && !IsNullOrWhiteSpace(dto.description)
      ensures IsNullOrWhiteSpace(dto.title) ==> r == Failure(InvalidArgument(TitleEmptyMessage))
      ensures !IsNullOrWhiteSpace(dto.title) && IsNullOrWhiteSpace(dto.description) ==>
                r == Failure(InvalidArgument(DescriptionEmptyMessage))
      ensures r.Failure? ==>
                && repo.rows == old(repo.rows) && repo.staged == old(repo.staged)
                && repo.log == old(repo.log) && repo.clock == old(repo.clock)
      ensures r.Success? ==>
                var stored := Task(freshId, Trim(DotNet, dto.title.value), Trim(DotNet, dto.description.value),
                                   false, createdNow, updatedNow);
                && |stored.title| > 0 && |stored.description| > 0
                && r.value == MapToDto(stored)
                && repo.rows == old(repo.rows) + old(repo.staged) + [stored] && repo.staged == []
                && repo.log == old(repo.log) + [Added(stored), Saved]
                && repo.clock == updatedNow
      ensures old(repo.Stamped()) ==> repo.Stamped()
    {
      if IsNullOrWhiteSpace(dto.title) {
        return Failure(InvalidArgument(TitleEmptyMessage));
      }
      if IsNullOrWhiteSpace(dto.description) {
        return Failure(InvalidArgument(DescriptionEmptyMessage));
      }
      NotBlankTrimsNonEmpty(dto.title);
      NotBlankTrimsNonEmpty(dto.description);
      var task := Task(EmptyId, Trim(DotNet, dto.title.value), Trim(DotNet, dto.description.value),
                       false, MinInstant, MinInstant);
      task := repo.CreateTaskAsync(task, freshId, createdNow, updatedNow);
      repo.SaveAsync();
      r := Success(MapToDto(task));
    }

    /** `UpdateTaskAsync(id, patch)`: not found when no committed row has the
        id, and then nothing is written; otherwise the present fields are
        assigned (text trimmed), the row is written back with a fresh
        `UpdatedAt`, and the unit of work is saved. */
    method UpdateTaskAsync(id: TaskId, patch: UpdateTaskDto, now: Instant)
      returns (r: Result<TaskDto, ServiceError>)
      requires repo.Valid() && repo.clock <= now
      modifies repo
      ensures repo.Valid()
      ensures r.Failure? <==> !HasId(old(repo.rows), id)
      ensures r.Failure? ==>
                && r.error == TaskNotFound(id)
                && repo.rows == old(repo.rows) && repo.staged == old(repo.staged)
                && repo.log == old(repo.log) && repo.clock == old(repo.clock)
      ensures r.Success? ==>
                var stored := ApplyPatch(Find(old(repo.rows), id).value, patch).(updatedAt := now);
                && stored.id == id
                && r.value == MapToDto(stored)
                && repo.rows == ReplaceRow(old(repo.rows), stored) + old(repo.staged) && repo.staged == []
                && repo.log == old(repo.log) + [Modified(stored), Saved]
                && repo.clock == now
      ensures old(repo.Stamped()) ==> repo.Stamped()
    {
      var found := repo.GetTaskByIdAsync(id);
      if found.None? {
        return Failure(TaskNotFound(id));
      }
      ghost var original := found.value;
      assert original in repo.rows + repo.staged;
      var task := AssignPatchedFields(found.value, patch);
      assert task == ApplyPatch(original, patch);
      assert task.id == id && task.createdAt == original.createdAt;
      ghost var rows0, staged0, log0 := repo.rows, repo.staged, repo.log;
      task := repo.UpdateTaskAsync(task, now);
      assert repo.rows == ReplaceRow(rows0, task) && repo.staged == staged0;
      repo.SaveAsync();
      assert repo.rows == ReplaceRow(rows0, task) + staged0;
      assert repo.log == log0 + [Modified(task), Saved];
      r := Success(MapToDto(task));
    }

    /** `MarkTaskAsCompletedAsync(id)`: the update with `{ IsCompleted = true }`;
        the stored row is the old one with the flag set and a fresh `UpdatedAt`. */
    method MarkTaskAsCompletedAsync(id: TaskId, now: Instant)
      returns (r: Result<TaskDto, ServiceError>)
      requires repo.Valid() && repo.clock <= now
      modifies repo
      ensures repo.Valid()
      ensures r.Failure? <==> !HasId(old(repo.rows), id)
      ensures r.Failure? ==>
                && r.error == TaskNotFound(id)
                && repo.rows == old(repo.rows) && repo.staged == old(repo.staged)
                && repo.log == old(repo.log) && repo.clock == old(repo.clock)
      ensures r.Success? ==>
                var stored := Find(old(repo.rows), id).value.(isCompleted := true, updatedAt := now);
                && r.value == MapToDto(stored) && r.value.isCompleted
                && repo.rows == ReplaceRow(old(repo.rows), stored) + old(repo.staged) && repo.staged == []
                && repo.log == old(repo.log) + [Modified(stored), Saved]
                && repo.clock == now
      ensures old(repo.Stamped()) ==> repo.Stamped()
    {
      ghost var found := Find(repo.rows, id);
      if found.Some? {
        CompletePatchSetsFlagOnly(found.value);
      }
      r := UpdateTaskAsync(id, CompletePatch, now);
    }

    /** `DeleteTaskAsync(id)`: not found when no committed row has the id, and
        then nothing is written; otherwise the repository deletes the row
        (and saves). Either way no row has the id afterwards. */
    method DeleteTaskAsync(id: TaskId) returns (r: Result<(), ServiceError>)
      requires repo.Valid()
      modifies repo
      ensures repo.Valid()
      ensures r.Failure? <==> !HasId(old(repo.rows), id)
      ensures r.Failure? ==>
                && r.error == TaskNotFound(id)
                && repo.rows == old(repo.rows) && repo.staged == old(repo.staged)
                && repo.log == old(repo.log)
      ensures r.Success? ==>
                && repo.rows == RemoveRow(old(repo.rows), id) + old(repo.staged) && repo.staged == []
                && repo.log == old(repo.log) + [Removed(id), Saved]
      ensures repo.clock == old(repo.clock)
      ensures GetTaskByIdAsync(id).None?
      ensures old(repo.Stamped()) ==> repo.Stamped()
    {
      var found := repo.GetTaskByIdAsync(id);
      if found.None? {
        return Failure(TaskNotFound(id));
      }
      repo.DeleteTaskAsync(id);
      r := Success(());
    }
  }
}
