# JobTrack in Dafny

A model of the state behind JobTrack, a single-page job-application tracker. The
page keeps two things in its session: a job table and a generic checklist.

- **The job table** is an ordered list of rows over a fixed 14-column schema.
  The first five columns describe the application: ID, job title, company,
  status and date. The other nine are checklist flags. A session starts with an
  empty table. An uploaded file replaces the table, but only if its header names
  every required column; otherwise the page lists the missing columns and keeps
  the table. The add-job form appends a row with all nine flags off, unless the
  ID is already taken. The update form rewrites the nine flags of the first row
  with the chosen ID.
- **The generic checklist** has nine named tasks, each ticked or not, all
  unticked at first. The page shows progress as a count and a whole percentage.
  It lists the completed tasks and the pending tasks in checklist order, and it
  can reset every tick.

Files:

- `sequences.dfy`: module `Sequences`. The order-keeping subsequence relation
  and three lemmas about it.
- `schema.dfy`: module `Schema`. The required headers, the typed record, the
  header test and the missing-header list.
- `jobs.dfy`: module `JobTable`. Specification functions for the table, and the
  class `Table` whose methods `Upload`, `AddJob` and `UpdateJob` change its
  `rows` field.
- `checklist.dfy`: module `SessionChecklist`. Progress, the completed/pending
  split, and the class `Checklist` whose methods tick, reset and list tasks.

In three places the code does less than a tracker of this kind might be expected to do, and the model follows the code:

- ID uniqueness is not an invariant of the table. An upload takes the file's
  rows as they are, duplicate IDs included (JobTrack.py:22-23). Only adding a
  job checks the ID. `AddKeepsIdsUnique` and `UpdateKeepsIdsUnique` show that
  these two operations preserve uniqueness when it already holds.
- Updating a job has no "not found" error. The job selector lists only IDs that
  are in the table, so the selected ID is always present (JobTrack.py:92-96).
  On an empty table the selector returns `None`, no row matches, and
  `.iloc[0]` raises `IndexError`: the page crashes instead of reporting an
  error. `Table.UpdateJob` requires the ID to be present, which excludes that
  crashing case.
- The checklist has no single-task toggle. Each time the page is shown, every
  checkbox's value is stored back in task order (JobTrack.py:135-137, 155).
  `Checklist.Apply` models that step.

Row labels: both `read_csv` and `concat(..., ignore_index=True)` number the rows
0, 1, 2, …. So the label `row.name` used in the update (JobTrack.py:111-119) is
the row's position, and the model uses positions.

## Model

| member | source | states |
|---|---|---|
| `Schema.HasHeaders` | JobTrack.py:22 | The header test passes exactly when the set of required names is contained in the set of the file's column names. |
| `Schema.RequiredHeadersDistinct` | JobTrack.py:5-10 | No required column name occurs twice, so `MissingIsUnique` applies to the schema's own list. |
| `Schema.Missing` | JobTrack.py:22-28 | The missing-header list holds exactly the required names absent from the file's columns. It keeps their order in the required list. It is empty exactly when the upload passes the header test. |
| `Schema.MissingIsUnique` | JobTrack.py:28 | Given a duplicate-free required list, any order-keeping list holding exactly the absent required names equals the missing-header list. So "exactly these, in this order" determines the list. |
| `Schema.HeaderTestIgnoresOrderAndExtras` | JobTrack.py:22 | Adding extra columns never makes a passing header fail. Reordering the columns never changes the verdict. |
| `Schema.SchemaHeaderPasses` | JobTrack.py:5-10 | A file whose header is exactly the 14 required names passes, with no missing names. |
| `JobTable.IdColumn` | JobTrack.py:67 | The ID column has one entry per row, and entry i is row i's ID. This is the column the add form's membership test reads and the update form's selector lists. |
| `JobTable.NewRow` | JobTrack.py:70-85 | A new row carries the form's ID, title, company, status and date, with all nine flags off. |
| `JobTable.FirstIndexOf` | JobTrack.py:96 | For an ID in the ID column, this is the position of a row with that ID, and no earlier row has it. |
| `JobTable.FirstIndexFollowsIds` | JobTrack.py:96 | Two tables with the same ID column select the same row for any present ID. |
| `JobTable.WithChecks` | JobTrack.py:96-119 | An update sets the selected row's nine flags to the submitted values and keeps its five descriptive fields. Every other row is unchanged, and so are the ID column and the row count. |
| `JobTable.UpdateLastWins` | JobTrack.py:111-119 | After an update the ID is still present. A second update of the same ID gives the same table as the second update alone. |
| `JobTable.UpdateWithCurrentFlagsIsIdentity` | JobTrack.py:100-119 | Submitting the form with the checkboxes left at the row's current values leaves the table unchanged. |
| `JobTable.UpdateKeepsIdsUnique` | JobTrack.py:111-119 | If the IDs were unique before an update, they are unique after it. |
| `JobTable.AddKeepsIdsUnique` | JobTrack.py:67-86 | If the IDs were unique before, appending a row with a new ID keeps them unique. |
| `JobTable.AddThenSelect` | JobTrack.py:86-96 | After an add, the new ID selects the new last row. Every ID already present still selects the row it selected before. |
| `JobTable.Table.constructor` | JobTrack.py:36-37 | A session starts with an empty table. |
| `JobTable.Table.Upload` | JobTrack.py:20-30 | The upload succeeds exactly when every required header is among the file's columns. On success the table becomes exactly the uploaded rows. On failure it returns the missing-header list, which is non-empty, and leaves the table unchanged. |
| `JobTable.Table.AddJob` | JobTrack.py:66-86 | The add succeeds exactly when the ID is not yet in the ID column. On success the old rows stay in order and the new row is appended last. On failure the table is unchanged. |
| `JobTable.Table.UpdateJob` | JobTrack.py:96-119 | For an ID present in the table, the new table is the old one with the first matching row's flags replaced. `WithChecks` spells out that change. |
| `SessionChecklist.AllPending` | JobTrack.py:124-134 | The given task names in the same order, none ticked. This is both the initial checklist and the result of a reset. |
| `SessionChecklist.CountDone` | JobTrack.py:138 | The completed count is at most the task count. It is 0 exactly when no task is ticked, and it equals the task count exactly when every task is ticked. |
| `SessionChecklist.Percent` | JobTrack.py:140 | The percentage is 100·done/total rounded down: p·total ≤ 100·done < (p+1)·total. It lies between 0 and 100. It is 0 exactly when 100·done < total, and 100 exactly when every task is done. |
| `SessionChecklist.ProgressOf` | JobTrack.py:138-140 | For a non-empty checklist the progress is (ticked count, task count, percentage). The percentage is `Percent` of the count and the total, that is, the rounded-down ratio. It is at most 100. It is 100 exactly when every task is ticked, and 0 exactly when 100·completed < total. |
| `SessionChecklist.NamesWhere` | JobTrack.py:148-154 | A name is listed exactly when some task with that name has the requested tick. |
| `SessionChecklist.NamesWhereKeepsOrder` | JobTrack.py:148-154 | The completed list and the pending list each keep the checklist's order. |
| `SessionChecklist.CompletedPendingPartition` | JobTrack.py:148-154 | Together the completed and pending lists name every task. Their lengths add up to the task count, and the completed list has as many entries as the progress count. With distinct task names, no name is in both lists. |
| `SessionChecklist.ResetProgress` | JobTrack.py:143-144 | After a reset the progress reads 0 out of the same task count, 0 percent, and the completed list is empty. |
| `SessionChecklist.DefaultProgress` | JobTrack.py:124-140 | The initial checklist reads 0 out of 9 tasks, 0 percent. |
| `SessionChecklist.NineTaskPercents` | JobTrack.py:140 | With nine tasks, the percentage for 0 to 9 completed tasks is 0, 11, 22, 33, 44, 55, 66, 77, 88, 100. |
| `SessionChecklist.Checklist.constructor` | JobTrack.py:124-134 | A session without a stored checklist starts with the nine default tasks in order, none ticked. |
| `SessionChecklist.Checklist.ValidShape` | JobTrack.py:124-154 | The checklist the session holds always has nine tasks with distinct names. So its completed and pending lists never share a name. |
| `SessionChecklist.Checklist.Apply` | JobTrack.py:135-155 | The loop at lines 135-137 and the write-back at line 155. Each task keeps its name and position and takes the tick its checkbox now shows. The task names stay the nine defaults. |
| `SessionChecklist.Checklist.Reset` | JobTrack.py:143-144 | Every tick is cleared, and the names and their order stay the same. |
| `SessionChecklist.Checklist.TasksWhere` | JobTrack.py:148-154 | The loop collects exactly `NamesWhere` of the current tasks: with `true` the completed list, with `false` the pending list. |

## Left out

- Rendering, widgets and control flow are not modelled: titles, forms, sidebar
  messages, the menu, `st.stop` and `experimental_rerun`. Only each action's
  effect on the session state is modelled.
- Reading the uploaded CSV (JobTrack.py:21) and writing `job_data.csv`
  (JobTrack.py:52) are library calls and are not modelled. An upload is given
  as its header row and its rows, already parsed. No export/import round trip
  is claimed.
- A missing upload (`uploaded_file is None`, JobTrack.py:20) changes nothing,
  so it has no member.
- Table.Upload: the source keeps the uploaded frame whole, extra columns
  included. The typed `Record` has only the schema's columns, so the model
  drops extra columns after the header test. It also cannot hold a status
  outside the four choices, or a value of another type.
- The library may read IDs from a CSV as numbers while the form gives text,
  which changes the membership test at JobTrack.py:67. The model treats every
  ID as a string.
- The date is an uninterpreted (year, month, day) triple. The date picker's
  rules are not modelled.
- The mapping from the update form's checkbox labels to column names
  (JobTrack.py:100-108) is not modelled. The nine flags are the fields of
  `Checks`.
- Table.UpdateJob: the source writes the nine flags one cell at a time, and the
  model writes them in one step. The page cannot observe the states in between.
- SessionChecklist.Percent: the source computes `int((done / total) * 100)` in
  floating point, and the model uses the integer floor `(100 * done) / total`.
  For nine tasks the float values are 0, 11.1…, 22.2…, …, 88.8…, 100.0, which
  truncate to the values `NineTaskPercents` lists. Floating point is not
  modelled.
