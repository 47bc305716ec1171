/** The Version records the clean-up works on, as the tracking service
    returns them (fields `code`, `sg_status_list`, `entity`, `sg_task`,
    `sg_task.Task.step`, `sg_path_to_frames`, `created_at`), and the fixed
    configuration of the script. */
module Versions {

  datatype Option<T> = None | Some(value: T)

  /** The pipeline step linked through the version's task; its `name` may be
      missing from the returned entity. */
  datatype Step = Step(name: Option<string>)

  /** One rendered take of a shot/task. A missing (or falsy) link is `None`. */
  datatype Version = Version(
    code: string,
    status: string,
    entityId: Option<int>,
    taskId: Option<int>,
    step: Option<Step>,
    path: Option<string>,
    createdAt: int)

  /** The (shot entity id, task id) pair a version is grouped under. */
  datatype Key = Key(entityId: int, taskId: int)

  const NA: string := "na"
  const IN_NOTE: string := "innote"
  const NOTE: string := "note"

  /** `excluded_pipeline_steps` as the script initialises it. */
  const DEFAULT_EXCLUDED_STEPS: seq<string> := ["Roto", "Paint", "Prep", "Ingest", "v000"]

  /** The frame path is present and non-empty (Python truthiness). */
  predicate HasPath(v: Version)
  {
    v.path.Some? && v.path.value != []
  }

  /** Both grouping links are present. */
  predicate HasKey(v: Version)
  {
    v.entityId.Some? && v.taskId.Some?
  }

  function KeyOf(v: Version): Key
    requires HasKey(v)
  {
    Key(v.entityId.value, v.taskId.value)
  }

  /** `step.get('name', 'Unknown')`. */
  function StepName(s: Step): string
  {
    match s.name
    case Some(n) => n
    case None => "Unknown"
  }
}
