/** The records the cluster keeps about its workers and tasks. Timestamps are
    whole numbers (seconds); paths are the strings they print as. */
module Model {
  import opened Common

  /** What a worker reports about itself. */
  datatype WorkerStatus = WorkerStatus(
    id: string,
    taskType: string,
    version: string,
    healthy: bool,
    hasTask: bool,
    joinedAt: Option<int>,
    createdAt: int)

  /** The host and port a bridge to the worker is opened to. */
  datatype WorkerConnectionInfo = WorkerConnectionInfo(host: string, port: int)

  /** One registered worker. `currentTaskId` is documented as "set on
      assignment, cleared when done", but nothing in the core maintains it. */
  datatype WorkerRecord = WorkerRecord(
    status: WorkerStatus,
    connection: WorkerConnectionInfo,
    currentTaskId: Option<string>)

  /** Progress reported for one training task; the float progress is left out. */
  datatype TrainingStatus = TrainingStatus(
    taskId: string,
    phase: string,
    description: string,
    isComplete: bool,
    updatedAt: int)

  /** A training task as the task repository returns it; its free-form
      configuration is left out. */
  datatype TrainingTask = TrainingTask(
    id: int,
    name: string,
    baseDir: string,
    inputDir: string,
    taskType: string,
    version: string,
    createdAt: int,
    updatedAt: Option<int>)

  /** The selection test both worker registries use: healthy, no task, right type. */
  predicate IsIdleOfType(r: WorkerRecord, taskType: string) {
    r.status.healthy && !r.status.hasTask && r.status.taskType == taskType
  }
}
