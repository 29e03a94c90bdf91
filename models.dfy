/** The task entity and its transfer objects. */
module Models {
  import opened Wrappers

  /** A task identifier (a GUID); 0 stands for `Guid.Empty`. */
  type TaskId = nat

  /** A UTC instant (a `DateTime`); 0 stands for `default(DateTime)`. */
  type Instant = nat

  const EmptyId: TaskId := 0
  const MinInstant: Instant := 0

  /** Column limits of the `task` table. */
  const MaxTitleLength := 255
  const MaxDescriptionLength := 2000

  /** The persisted task. */
  datatype Task = Task(
    id: TaskId,
    title: string,
    description: string,
    isCompleted: bool,
    createdAt: Instant,
    updatedAt: Instant)

  /** The task as the API exposes it: no `updatedAt`. */
  datatype TaskDto = TaskDto(
    id: TaskId,
    title: string,
    description: string,
    isCompleted: bool,
    createdAt: Instant)

  /** The create request; either field may arrive as JSON null. */
  datatype CreateTaskDto = CreateTaskDto(title: Option<string>, description: Option<string>)

  /** The partial update request: an absent field means "leave unchanged". */
  datatype UpdateTaskDto = UpdateTaskDto(
    title: Option<string>,
    description: Option<string>,
    isCompleted: Option<bool>)
}
