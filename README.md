# Job-queue scheduler: a Dafny model

The scheduler keeps its jobs in one SQLite table, `job_queue`. Each job
belongs to a target app and device. It holds an ordered dict of pending
events, mapping each event name to the token that is sent for it. The job
also stores the epoch time of its next execution, the bounds of the delay
between two events (in hours) and a status.

The `process_job_queue` function runs one scan:

- It reads every pending job whose time has come, however long ago that was.
- For each such job it sends the job's first event.
- It then deletes that event from the job.
- If that was the last event, the job is completed. Otherwise the job is
  rescheduled a random delay after the *current* clock. Time when the
  scheduler was not running is never caught up.

The model has four modules:

- `Events` (`events.dfy`): the events column. It is a sequence of
  (name, token) pairs with distinct names, which is a Python dict in
  insertion order. It defines the dict operations the scan uses: the keys,
  lookup, and delete.
- `Store` (`store.dfy`): the table of `app/database.py`.
  - The class `JobStore` holds a `map<int, Row>` and the AUTOINCREMENT
    counter.
  - Its members are `init_db` (the constructor), `add_job`, `get_due_jobs`
    (a function that reads the store) and `update_job`.
  - The methods keep the invariant `Valid()`. It says every row sits under
    its own id, every id lies between 1 and the counter, and every events
    column is a dict.
- `Processor` (`processor.dfy`): `process_job_queue` of `app/logic.py`.
  - It is written as the loop of the source: one `UpdateJob` per due job.
  - The loop is proved against `Pass`, the function that describes a
    whole scan, row by row.
- `Properties` (`properties.dfy`): what holds across one or many scans.
  - An idle scan answers "idle" and changes nothing.
  - A scan removes exactly one event from each due job that still has one,
    whatever the old due time. A due job with no events left is only
    marked completed.
  - A new due time lies within the delay bounds, counted from the clock.
  - Events run in insertion order.
  - A job with N events is completed exactly when it has been due in N scans.
    After that it is never touched again.

The environment is passed in as parameters:

- `now` is the time `get_due_jobs` reads.
- `tick(id)` gives, for job `id`, the clock reading at `app/logic.py:72`
  and the delay drawn by `random.uniform`.
- `execute` stands for `execute_single_request`. Its `response` is never
  used. Its `status` only feeds the Discord log, which is left out.
- The out-parameter `sent` of `ProcessJobQueue` is a ghost trace of the calls
  made. `process_job_queue` returns only the summary.

## Model

| member | source | states |
|---|---|---|
| Store.JobStore.constructor | app/database.py:7-23 | init_db creates an empty job table whose AUTOINCREMENT counter is 0; the store invariant holds |
| Store.JobStore.AddJob | app/database.py:25-32 | add_job inserts exactly one new row: fresh id one above the counter and above every id in use, the given columns, status pending (the column default at database.py:21), events kept as given; all other rows unchanged; invariant kept |
| Store.JobStore.GetDueJobs | app/database.py:34-40 | get_due_jobs returns exactly the rows that are pending with next_execution_ts <= now (no lower limit on lateness), each once, in ascending id order, each equal to the stored row |
| Store.DueRows | app/database.py:40 | the due query over an id range: every returned row is a stored due row in the range, every stored due row in the range is returned, ids strictly ascending |
| Store.JobStore.UpdateJob | app/database.py:42-49 | update_job makes the table the result of the UPDATE on row id; the counter and the invariant are kept |
| Store.IsDue | app/database.py:40 | definition of the WHERE clause: status pending and next_execution_ts at or before now, with no lower bound; DueRows and GetDueJobs are proved exact with respect to it |
| Store.Updated | app/database.py:45-49 | definition of the UPDATE on row id as a new table; what it changes and keeps is proved in UpdateEffect and UpdateIdempotent |
| Store.UpdateEffect | app/database.py:45-49 | the UPDATE sets events_pending, next_execution_ts and status of row id and keeps its eight other columns; other rows and the set of ids are unchanged; a missing id changes nothing |
| Store.UpdateIdempotent | app/database.py:42-49 | issuing the same update_job twice leaves the same table as issuing it once |
| Events.Position | app/logic.py:38 | a key of the dict sits at a position whose entry has that name and no earlier entry has it |
| Events.Get | app/logic.py:38 | events[name] is the token stored with that name |
| Events.Delete | app/logic.py:57 | del events[name] removes exactly the entry of that name and keeps the others in order |
| Events.DeleteAt | app/logic.py:57 | after the deletion, entry k is entry k of the old dict before the removed position and entry k+1 after it |
| Events.DeleteKeepsDistinct | app/logic.py:57 | the result of del is still a dict: names stay distinct |
| Events.DeleteRemovesName | app/logic.py:57 | after del the name is no longer a key |
| Events.DeleteKeepsOthers | app/logic.py:57 | an entry remains after del exactly when it was there and has another name |
| Events.DeleteFirst | app/logic.py:36-57 | taking the first key, looking it up and deleting it yields the first token and exactly the later entries |
| Processor.Within | app/logic.py:67 | definition of the range of random.uniform(delay_min, delay_max): between the smaller and the larger bound; the hypothesis of RescheduleWithinBounds |
| Processor.Rescheduled | app/logic.py:72 | definition of the new due time: the clock reading plus the drawn delay times 3600 seconds, never the old due time; its bounds are proved in RescheduleWithinBounds |
| Processor.NextRow | app/logic.py:32-77 | definition of the row one iteration writes back: no events or only one left gives events [], time 0 and completed; otherwise the first event goes and the job stays pending at Rescheduled; proved to keep the dict invariant in NextRowKeepsDict, and the loop is proved to write it in ProcessJobQueue and Pass |
| Processor.Processed | app/logic.py:24-82 | definition of processed_count: one per handled job that had an event (the empty case continues before the increment); characterised in ProcessedCountsCalls and ProcessedIsNonEmpty |
| Processor.Requests | app/logic.py:36-46 | definition of the calls made: the app token, the first event's token, the device and the platform of each job that had an event, in order; ProcessJobQueue proves its trace equals it |
| Processor.Outcome | app/logic.py:21-84 | definition of the returned dict: idle when no job was due, otherwise active with the processed count; its key names and values are proved in IdleScan and ActiveScan |
| Processor.ProcessJobQueue | app/logic.py:13-84 | process_job_queue fetches the due jobs once and handles each in order. The new table is Pass of the old one. The answer is idle when no job was due, otherwise active with the number of jobs that had an event. The calls made are exactly the first event of each of those jobs, in order. The counter is kept |
| Processor.Pass | app/logic.py:26-82 | a scan keeps the set of ids and the invariant; each due row becomes its NextRow and every other row stays as it was |
| Processor.ScanEffect | app/logic.py:19-82 | handling the list returned by the due query in order gives each due row its NextRow and leaves the non-due rows alone |
| Processor.AfterJobsAt | app/logic.py:26-82 | handling distinct stored rows one UPDATE at a time gives each handled row its NextRow and leaves the others unchanged |
| Processor.AfterJobsKeys | app/logic.py:26-82 | the updates of a scan neither add nor remove rows |
| Processor.NextRowKeepsDict | app/logic.py:56-77 | the row written back keeps its id and its events column stays a dict |
| Properties.ProcessedCountsCalls | app/logic.py:24-82 | the processed count is at most the number of due jobs and equals the number of requests sent |
| Properties.ProcessedIsNonEmpty | app/logic.py:24-82 | the processed count equals the number of due jobs whose event dict was non-empty |
| Properties.IdleScan | app/logic.py:19-22 | with no due row the answer is idle with jobs_processed 0, and the scan leaves the table unchanged |
| Properties.ActiveScan | app/logic.py:82-84 | with due rows the answer is active, under the key processed, with a count of at most the number of due jobs |
| Properties.NoCatchUp | app/logic.py:13-72 | a due job loses exactly its first event in one scan, and the row after the scan does not depend on how late the job was |
| Properties.RescheduleWithinBounds | app/logic.py:64-77 | a due job with more than one event stays pending, and its new due time lies between delay_min and delay_max hours after the clock reading |
| Properties.Run | app/logic.py:13-84 | any series of scans keeps the set of ids and the store invariant |
| Properties.CompletedStays | app/logic.py:59-61 | a completed job is never due again under the due query (pending only, app/database.py:40): no later scan changes it |
| Properties.RunKeepsColumns | app/database.py:42-49 | scans never change a row's id, app, platform, device, token, delay bounds or owner |
| Properties.Converges | app/logic.py:26-82 | a pending job with N events is due in at most N scans. After c due scans it holds exactly its events from the c-th onwards, and it is completed exactly when c = N |
| Properties.OrderPreserved | app/logic.py:36-57 | events execute in insertion order: before its k-th due scan a job is pending and its first pending event is its k-th event |

## Left out

- `app/main.py` (the web routes that send single events by hand) is not part of this model. It does not call `process_job_queue`.
- Calls of `execute_single_request` are not modelled: it is the `execute` parameter. Its `response` is unused by the scan; its `status` feeds only the Discord message and colour (`app/logic.py:49-54`), which are left out.
- `log_to_discord` is left out. It is only a notification and does not affect the table or the answer.
- The datetime string at `app/logic.py:74` is left out. It is computed but never used.
- SQLite connections, the DDL text and I/O errors are left out. `CREATE TABLE IF NOT EXISTS` is modelled as creating an empty table; calling `init_db` on an existing database, which keeps the old rows, is not modelled.
- The JSON encoding of the events column is left out. `json.dumps` and `json.loads` are the identity on the pair sequence, so their round trip holds by construction. A completed row is written with the JSON list `[]` (`app/logic.py:33, 61`), not an object; in the model that value is the empty sequence.
- Floating point is left out. Times and delays are reals, so rounding in `delay_hours * 3600` and in the comparison with `now` is not modelled.
- `time.time()` and `random.uniform` are not modelled; they are the parameters `now` and `tick`.
- Processor.ProcessJobQueue: does not require the drawn delay to lie in the bounds, because the scan works for any draw. The bound is a hypothesis of `RescheduleWithinBounds`, taken from the contract of `random.uniform`.
- The row order of the due query is left out. SQL gives no order; the model fixes ascending id, which is SQLite's rowid order.
- Concurrency is left out: two scans never run at once in the model.
- The status column is an enumeration of the two values the code writes. The free text a database could hold is not modelled.
- Store.JobStore.UpdateJob: has no default for its status argument, whereas `update_job` defaults `status` to `'pending'` (`app/database.py:42`). Every call in the scan passes the status explicitly (`app/logic.py:33, 61, 77`), so no call relies on the default.
- Store.JobStore.AddJob: returns nothing, as `add_job` does. The new id is the new value of `lastId`.
- Quirks of the code that the model keeps:
  - A completed job is written with the empty JSON list `[]`, not an empty object (`app/logic.py:33, 61`).
  - The loop has no per-job error handling (`app/logic.py:26-82`). An exception in a call would end the whole scan; exceptions are not modelled.
  - The idle answer names its count `jobs_processed` (`app/logic.py:22`), while the active answer uses `processed` (`app/logic.py:84`).
