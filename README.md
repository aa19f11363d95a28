# Deleting empty containers on a Flywheel instance — a Dafny model

The routine in `fw_delete_empty_containers_DataView.py` walks every project of a Flywheel
instance. Flywheel holds data as a hierarchy: project → subject → session → acquisition → file.
For each project the routine reads three tabular views: subjects, sessions, and
acquisitions with their files. It then outer-joins them, so a null trailing column marks a
container with no children. Rows with a creation time in the last 24 hours are dropped. The
routine keeps only the rows without a file name, removes exact duplicate rows, and then
deletes, row by row:

- the subject when the session and acquisition labels are both null;
- the session when only the acquisition label is null;
- the acquisition when both labels are present and the file name is null.

The model has these modules:

- `Rows`: the joined row, all cells optional, and the delete action.
- `Recency`: the 24-hour cutoff and the three timestamp masks.
- `Selection`: the `file.name`-null mask and `drop_duplicates`.
- `Deletion`: the classification of a row, a `Client` class whose delete methods append to
  a call log, and the imperative `DeleteEmptyContainers` loop with its three null flags.
- `Routine`: the per-project decision (skip, fail, or filter and delete), the plan the
  routine is evidently meant to follow, and the main loop `Run`.
- `Scenarios`: concrete projects run through the model.
- `Wrappers` and `Seqs`: `Option`, and "subsequence" and "no duplicates" on sequences.

The filters and the selection are pure functions over `seq<Row>`, as the source's
boolean-mask expressions are. The delete loop and the project loop are methods over the
client object. Each is proved against the specification functions `Deletes`, `PlanProject`
and `RunDeletes`, and the lemmas state what those functions guarantee.

Design choices:

- A null cell is `None`. `drop_duplicates` treats two nulls as equal, and so does `==` on
  `Option`.
- Timestamps are naive integers in seconds, so the cutoff is `now - 86400`. The clock is
  the parameter `now` of `Run`, read once before the first project.
- The id passed to a delete call is the row's id cell as it stands, possibly `None`. The
  source passes the cell through unchecked.
- Two kinds of project make the routine fail on a missing column:
  - A project whose subject view alone has rows (lines 100-101). The table is the subject
    view, and the session mask at line 111 reads a `session.created` column that table does
    not have.
  - A project whose subject and session views have rows but whose file view is empty
    (lines 102-103). The table joins the session and subject views only, and the file mask
    at line 113 reads a `file.created` column that table does not have.

  `Run` stops at the first such project, returns its index, and keeps the deletes already
  issued for earlier projects. Nothing is deleted for that project. Both cases are listed
  under "## Findings". `IntendedPlan` is the plan without these failures, and `PlanProject`
  is defined as `IntendedPlan` for every other project.
- The routine deduplicates whole rows, not container ids. The model claims no bound on how
  often one session id can be deleted, because two different rows can name the same
  session.
- The recency filter reads only subject, session and file creation times. An acquisition
  has no timestamp column, so an empty acquisition made a minute ago under an old session
  is deleted. The model keeps this behaviour.

## Model

| member | source | states |
|---|---|---|
| `Deletion.Classify` | fw_delete_empty_containers_DataView.py:71-85 | a subject delete with the row's subject id exactly when both labels are null, whatever the file name; a session delete with the session id exactly when only the acquisition label is null; an acquisition delete with the acquisition id exactly when both labels are present and the file name is null; nothing exactly when the acquisition label is present and either the session label is null or a file name is present |
| `Deletion.Deletes` | fw_delete_empty_containers_DataView.py:70-85 | the deletes of a table are the rows' classifications in row order, and there are never more deletes than rows |
| `Deletion.DeletesAppend` | fw_delete_empty_containers_DataView.py:70 | the deletes of two tables one after the other are the deletes of the first followed by those of the second |
| `Deletion.DeletesSources` | fw_delete_empty_containers_DataView.py:70-85 | a delete is issued exactly when some row of the table classifies to it: nothing else is deleted |
| `Deletion.Client.constructor` | fw_delete_empty_containers_DataView.py:25 | a fresh client has issued no call |
| `Deletion.Client.DeleteSubject` | fw_delete_empty_containers_DataView.py:81 | appends one subject delete with the given id to the call log and nothing else |
| `Deletion.Client.DeleteSession` | fw_delete_empty_containers_DataView.py:83 | appends one session delete with the given id to the call log and nothing else |
| `Deletion.Client.DeleteAcquisition` | fw_delete_empty_containers_DataView.py:85 | appends one acquisition delete with the given id to the call log and nothing else |
| `Deletion.DeleteEmptyContainers` | fw_delete_empty_containers_DataView.py:69-85 | after the loop, the client's log is its old log followed by the in-order classifications of the rows, at most one delete per row |
| `Recency.Cutoff` | fw_delete_empty_containers_DataView.py:88-89 | the cutoff lies exactly 24 hours (86400 s) before now |
| `Recency.KeepOlder` | fw_delete_empty_containers_DataView.py:109-114 | one mask line keeps only input rows whose timestamp at that level is null or strictly earlier than the cutoff, and never adds rows |
| `Recency.RecencyFilterIsSinglePass` | fw_delete_empty_containers_DataView.py:109-114 | the three successive masks equal one pass that keeps the rows passing all three |
| `Recency.KeepEligibleCount` | fw_delete_empty_containers_DataView.py:109-114 | under the one-pass filter a row passing all three masks keeps every copy and any other row keeps none |
| `Recency.KeepEligibleOrder` | fw_delete_empty_containers_DataView.py:109-114 | the one-pass filter keeps the relative order of the rows |
| `Recency.KeepEligibleSound` | fw_delete_empty_containers_DataView.py:109-114 | every row the one-pass filter keeps passes all three masks |
| `Recency.KeepEligibleIdempotent` | fw_delete_empty_containers_DataView.py:109-114 | the one-pass filter applied to its own output changes nothing |
| `Recency.RecencyFilterRemovesExactlyRecent` | fw_delete_empty_containers_DataView.py:109-114 | a row is removed, all its copies, exactly when some present subject, session or file timestamp is not earlier than the cutoff; otherwise all its copies are kept |
| `Recency.RecencyFilterMembers` | fw_delete_empty_containers_DataView.py:109-114 | a row survives exactly when it is in the input and each of its three timestamps is null or strictly earlier than the cutoff |
| `Recency.RecencyFilterOrder` | fw_delete_empty_containers_DataView.py:109-114 | the surviving rows keep their relative order |
| `Recency.RecencyFilterIdempotent` | fw_delete_empty_containers_DataView.py:109-114 | filtering twice with the same cutoff equals filtering once |
| `Selection.FileLess` | fw_delete_empty_containers_DataView.py:116 | the mask keeps only input rows whose file name is null |
| `Selection.FileLessCount` | fw_delete_empty_containers_DataView.py:116 | a row with a null file name keeps every copy and any other row keeps none |
| `Selection.FileLessOrder` | fw_delete_empty_containers_DataView.py:116 | the mask keeps relative order |
| `Selection.DropDuplicates` | fw_delete_empty_containers_DataView.py:116 | the deduplicated table holds exactly the rows of the input and is no longer than it |
| `Selection.DropDuplicatesDistinct` | fw_delete_empty_containers_DataView.py:116 | no two positions of the deduplicated table hold identical rows |
| `Selection.DropDuplicatesCount` | fw_delete_empty_containers_DataView.py:116 | every row of the input appears exactly once after deduplication |
| `Selection.DropDuplicatesOrder` | fw_delete_empty_containers_DataView.py:116 | the deduplicated table is a subsequence of the input: the copies kept stay in input order |
| `Selection.DropDuplicatesKeepsFirstCopies` | fw_delete_empty_containers_DataView.py:116 | deduplication equals the positional reference that keeps the row at a position exactly when no identical row stands earlier: the first copy of each row is kept, in input order, and every later copy is dropped |
| `Selection.EmptyContainersSpec` | fw_delete_empty_containers_DataView.py:116 | the rows passed on carry no file name, are exactly the distinct file-less rows of the filtered table, each exactly once, with no two identical, in input order, and are the first copies of the file-less rows |
| `Routine.RunsThroughAll` | fw_delete_empty_containers_DataView.py:90-114 | a run passes every project exactly when no project has a non-empty subject view together with an empty file view, the two branches whose table lacks a column the masks read |
| `Routine.IntendedPlanSpec` | fw_delete_empty_containers_DataView.py:97-116 | the intended plan never fails on a column; it skips exactly the projects whose three views are empty and otherwise hands on exactly the distinct rows of the join that carry no file name and have no timestamp at or after the cutoff, with no two identical; it is the routine's plan for every project that does not stop the run |
| `Routine.PlanProjectSpec` | fw_delete_empty_containers_DataView.py:97-116 | a project is skipped exactly when all three views are empty; it fails on the missing `session.created` column exactly when only the subject view has rows, and on the missing `file.created` column exactly when the subject and session views have rows and the file view has none; otherwise the rows handed to the delete routine are exactly the distinct rows of the join that carry no file name and have no timestamp at or after the cutoff, with no two identical |
| `Routine.ProjectDeletesJustified` | fw_delete_empty_containers_DataView.py:97-121 | a project's deletes are exactly the classifications of its file-less rows that pass the recency filter; a skipped project and a project failing on either missing column delete nothing, and no row with a file name or a recent timestamp causes a delete |
| `Routine.RunDeletesJustified` | fw_delete_empty_containers_DataView.py:88-121 | every delete of a run comes from a file-less row, older than the cutoff, of one of the projects |
| `Routine.RunDeletesSnoc` | fw_delete_empty_containers_DataView.py:90 | the deletes of one more project are appended after those of the projects before it |
| `Routine.ProcessProject` | fw_delete_empty_containers_DataView.py:97-121 | one pass of the loop body fails exactly for a subject-only project or a project with subjects and sessions but no file view, and then deletes nothing; otherwise it appends exactly the project's planned deletes to the log, and none when the selection is empty |
| `Routine.Run` | fw_delete_empty_containers_DataView.py:88-121 | with one cutoff `now - 24h` for all projects, the log receives in project order the planned deletes of every project processed; the run stops at, and reports, the first project whose table lacks a column the masks read, keeping earlier deletes, and otherwise completes |
| `Scenarios.OldEmptySession` | fw_delete_empty_containers_DataView.py:97-121 | a subject with one session holding a file and one session without acquisitions, all created two days ago, yields exactly one delete, of the empty session, and no subject delete |
| `Scenarios.RecentEmptySession` | fw_delete_empty_containers_DataView.py:109-114 | the same project with the empty session created an hour ago yields no delete |
| `Scenarios.EmptyProject` | fw_delete_empty_containers_DataView.py:97-99 | a project whose three views are empty is skipped and yields no delete |
| `Scenarios.NoFileViewStops` | fw_delete_empty_containers_DataView.py:102-103 | a project with one old subject holding one old empty session and no files fails on the missing `file.created` column and yields no delete |
| `Scenarios.NoFileViewRun` | fw_delete_empty_containers_DataView.py:88-114 | a run over that one project stops at index 0 with an empty call log |
| `Scenarios.SubjectOnlyStops` | fw_delete_empty_containers_DataView.py:100-101 | a project with one old subject and no sessions or files fails on the missing `session.created` column and yields no delete |
| `Scenarios.IntendedNoFileView` | fw_delete_empty_containers_DataView.py:80-83 | under the intended plan the project without files has exactly its empty session deleted |
| `Scenarios.IntendedSubjectOnly` | fw_delete_empty_containers_DataView.py:80-81 | under the intended plan the project with only a subject has exactly that empty subject deleted |

## Left out

- Client creation from the `FLYWHEEL_API_TOKEN` environment variable (line 25): the client is an object passed in, and its delete calls are recorded in a log.
- The three view definitions (lines 27-67), `fw.projects.iter()`, `find_first` by label and `read_view_dataframe` (lines 90-96). These are network calls to the vendor SDK. A project's views arrive as three emptiness flags plus the already-joined table, in iteration order. A label lookup that would find a different project of the same label is not modelled.
- The pandas outer `merge` (lines 103-106) is library behaviour. The joined table is an input. In the branches at lines 100-103 only the columns' absence matters, and the model records it as the failure on `session.created` or `file.created`.
- The model assumes that in the branch at lines 104-106 the joined table carries every column the masks read, also when the session or subject view is empty there. Whether an empty view frame from the platform carries its columns is not modelled.
- Datetime parsing and `tz_localize(None)` (lines 109-114): timestamps are integers that are already naive and comparable.
- Console output (lines 91, 118, 121).
- Failures of the delete calls, and of the network, are not modelled. In the source they end the whole run like the missing-column failure; in the model every delete call succeeds.
- The `KeyError` raised at line 111 or line 113 ends the process in the source. In the model `Run` returns that project's index instead.

## Findings

| source | as written | input that shows it | evidently intended | confidence | as-written member | corrected member |
|---|---|---|---|---|---|---|
| fw_delete_empty_containers_DataView.py:102-113 | a project with subjects and sessions but no files becomes the session-subject join, which has no `file.created` column, so the file mask raises `KeyError` and the run ends | one project whose only subject, created two days ago, has one session without acquisitions, created two days ago | the empty session is deleted and the run goes on | not executed | `Scenarios.NoFileViewRun` | `Routine.IntendedPlanSpec`, `Scenarios.IntendedNoFileView` |
| fw_delete_empty_containers_DataView.py:100-111 | a project with subjects only becomes the subject view, which has no `session.created` column, so the session mask raises `KeyError` and the run ends | one project whose only subject, created two days ago, has no sessions | the empty subject is deleted and the run goes on | not executed | `Scenarios.SubjectOnlyStops` | `Routine.IntendedPlanSpec`, `Scenarios.IntendedSubjectOnly` |
