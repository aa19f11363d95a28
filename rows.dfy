/**
 * One row of a project's joined view table. Every column of the three views can be null
 * after the outer join, so every cell is an `Option`; `None` is a null cell.
 * Timestamps are naive (time-zone-free) seconds since a fixed epoch.
 */
module Rows {
  import opened Wrappers

  type Id = string
  type Time = int

  datatype Row = Row(
    projectId: Option<Id>,
    projectLabel: Option<string>,
    subjectId: Option<Id>,
    subjectLabel: Option<string>,
    subjectCreated: Option<Time>,
    sessionId: Option<Id>,
    sessionLabel: Option<string>,
    sessionCreated: Option<Time>,
    acquisitionId: Option<Id>,
    acquisitionLabel: Option<string>,
    fileName: Option<string>,
    fileId: Option<Id>,
    fileCreated: Option<Time>,
    fileType: Option<string>)

  /**
   * One delete call against the platform. The argument is the id cell of the row as it is,
   * so a null id cell is passed on as `None`.
   */
  datatype Action =
    | DeleteSubject(subject: Option<Id>)
    | DeleteSession(session: Option<Id>)
    | DeleteAcquisition(acquisition: Option<Id>)
}
