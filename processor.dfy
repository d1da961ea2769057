/** process_job_queue of app/logic.py: one scan of the due jobs. Each due job
    has its first pending event executed and deleted, whatever the execution
    returned; the job is then completed, or rescheduled a random number of
    hours after the current time (never after its old due time, so time the
    scheduler was not running is not caught up). */
module Processor {
  import opened Events
  import opened Store

  /** What the environment supplies while one job is handled: the clock
      reading taken for the new due time and the delay in hours drawn by
      random.uniform. */
  datatype Tick = Tick(clock: real, delayHours: real)

  /** The arguments of one call of execute_single_request. */
  datatype Request = Request(appToken: string, eventToken: string, deviceId: string, platform: string)

  /** The dict process_job_queue returns. The idle answer names its count
      "jobs_processed", the active one "processed". */
  datatype Summary = Idle | Active(processed: nat) {
    function StatusText(): string {
      if Idle? then "idle" else "active"
    }
    function CountKey(): string {
      if Idle? then "jobs_processed" else "processed"
    }
    function Count(): nat {
      if Idle? then 0 else processed
    }
  }

  function Lo(a: real, b: real): real { if a <= b then a else b }
  function Hi(a: real, b: real): real { if a <= b then b else a }

  /** random.uniform(a, b) lies between a and b, whichever of them is smaller. */
  predicate Within(d: real, a: real, b: real) {
    Lo(a, b) <= d <= Hi(a, b)
  }

  /** The new due time of a rescheduled job: the clock plus the delay in seconds. */
  function Rescheduled(tick: Tick): real {
    tick.clock + tick.delayHours * 3600.0
  }

  /** The row as one iteration of the loop leaves it: an empty events column
      (the defensive case) or a last event completes the job with an empty
      list and time 0; otherwise the first event is gone and the job is due
      again after the drawn delay. */
  function NextRow(r: Row, tick: Tick): Row {
    if |r.events| <= 1 then r.(events := [], nextTs := 0.0, status := Completed)
    else r.(events := r.events[1..], nextTs := Rescheduled(tick), status := Pending)
  }

  /** One iteration keeps the row's id and leaves a dict in its events column. */
  lemma NextRowKeepsDict(r: Row, tick: Tick)
    requires DistinctNames(r.events)
    ensures NextRow(r, tick).id == r.id && DistinctNames(NextRow(r, tick).events)
  {
    if |r.events| > 1 {
      var tail := r.events[1..];
      forall i, j | 0 <= i < j < |tail| ensures tail[i].0 != tail[j].0 {
        assert tail[i] == r.events[i + 1] && tail[j] == r.events[j + 1];
      }
    }
  }

  /** The table after the loop has handled `jobs`, in order, each by one
      UPDATE of its row. */
  function AfterJobs(t: map<int, Row>, jobs: seq<Row>, tick: int -> Tick): map<int, Row> {
    if jobs == [] then t
    else
      var last := jobs[|jobs| - 1];
      var n := NextRow(last, tick(last.id));
      Updated(AfterJobs(t, jobs[..|jobs| - 1], tick), last.id, n.events, n.nextTs, n.status)
  }

  /** The jobs counted as processed: those with at least one event. */
  function Processed(jobs: seq<Row>): nat {
    if jobs == [] then 0
    else Processed(jobs[..|jobs| - 1]) + (if |jobs[|jobs| - 1].events| > 0 then 1 else 0)
  }

  /** The calls made, in order: the first event of every job that has one. */
  function Requests(jobs: seq<Row>): seq<Request> {
    if jobs == [] then []
    else
      var last := jobs[|jobs| - 1];
      Requests(jobs[..|jobs| - 1])
        + (if |last.events| > 0
           then [Request(last.appToken, last.events[0].1, last.deviceId, last.platform)]
           else [])
  }

  /** What a scan of `jobs` returns. */
  function Outcome(jobs: seq<Row>): Summary {
    if jobs == [] then Idle else Active(Processed(jobs))
  }

  /** Ids occur at most once in `jobs`. */
  predicate DistinctIds(jobs: seq<Row>) {
    forall j, k :: 0 <= j < k < |jobs| ==> jobs[j].id != jobs[k].id
  }

  /** Job `id` is among `jobs`. */
  predicate Listed(jobs: seq<Row>, id: int) {
    exists k :: 0 <= k < |jobs| && jobs[k].id == id
  }

  /** Handling jobs neither adds nor removes rows. */
  lemma {:induction false} AfterJobsKeys(t: map<int, Row>, jobs: seq<Row>, tick: int -> Tick)
    ensures AfterJobs(t, jobs, tick).Keys == t.Keys
  {
    if jobs != [] {
      AfterJobsKeys(t, jobs[..|jobs| - 1], tick);
    }
  }

  /** Handling distinct rows of `t` one after the other: a handled row ends up
      as its NextRow, every other row stays as it was. */
  lemma {:induction false} AfterJobsAt(t: map<int, Row>, jobs: seq<Row>, tick: int -> Tick, id: int)
    requires id in t
    requires forall k :: 0 <= k < |jobs| ==> jobs[k].id in t && t[jobs[k].id] == jobs[k]
    requires DistinctIds(jobs)
    ensures id in AfterJobs(t, jobs, tick)
    ensures AfterJobs(t, jobs, tick)[id] == if Listed(jobs, id) then NextRow(t[id], tick(id)) else t[id]
  {
    if jobs != [] {
      var init := jobs[..|jobs| - 1];
      var last := jobs[|jobs| - 1];
      assert forall k :: 0 <= k < |init| ==> init[k] == jobs[k];
      AfterJobsAt(t, init, tick, id);
      AfterJobsKeys(t, init, tick);
      if last.id == id {
        assert !Listed(init, id);
        assert Listed(jobs, id);
      } else {
        assert Listed(jobs, id) == Listed(init, id) by {
          if Listed(jobs, id) {
            var k :| 0 <= k < |jobs| && jobs[k].id == id;
            assert init[k].id == id;
          }
        }
      }
    }
  }

  /** A scan changes exactly the due rows, each to its NextRow. */
  lemma ScanEffect(t: map<int, Row>, lastId: int, now: real, tick: int -> Tick, id: int)
    requires Consistent(t, lastId) && id in t
    ensures id in AfterJobs(t, DueRows(t, now, 1, lastId + 1), tick)
    ensures AfterJobs(t, DueRows(t, now, 1, lastId + 1), tick)[id]
              == if IsDue(t[id], now) then NextRow(t[id], tick(id)) else t[id]
  {
    var due := DueRows(t, now, 1, lastId + 1);
    assert DistinctIds(due) by {
      forall j, k | 0 <= j < k < |due| ensures due[j].id != due[k].id {
        assert due[j].id < due[k].id;
      }
    }
    AfterJobsAt(t, due, tick, id);
    if IsDue(t[id], now) {
      assert 1 <= id <= lastId;
      assert t[id] in due;
      var k :| 0 <= k < |due| && due[k] == t[id];
      assert due[k].id == id;
    }
  }

  /** One whole scan of the table as the processor performs it. */
  function Pass(t: map<int, Row>, lastId: int, now: real, tick: int -> Tick): (u: map<int, Row>)
    requires Consistent(t, lastId)
    ensures u.Keys == t.Keys
    ensures forall id :: id in t ==> u[id] == if IsDue(t[id], now) then NextRow(t[id], tick(id)) else t[id]
    ensures Consistent(u, lastId)
  {
    var u := AfterJobs(t, DueRows(t, now, 1, lastId + 1), tick);
    AfterJobsKeys(t, DueRows(t, now, 1, lastId + 1), tick);
    forall id | id in t
      ensures u[id] == if IsDue(t[id], now) then NextRow(t[id], tick(id)) else t[id]
      ensures u[id].id == id && DistinctNames(u[id].events)
    {
      ScanEffect(t, lastId, now, tick, id);
      NextRowKeepsDict(t[id], tick(id));
    }
    u
  }

  /** Helper for the loop of ProcessJobQueue: AfterJobs, Processed and
      Requests, unfolded by one job. */
  lemma ScanStep(t: map<int, Row>, jobs: seq<Row>, i: nat, tick: int -> Tick)
    requires i < |jobs|
    ensures var n := NextRow(jobs[i], tick(jobs[i].id));
            AfterJobs(t, jobs[..i + 1], tick) == Updated(AfterJobs(t, jobs[..i], tick), jobs[i].id, n.events, n.nextTs, n.status)
    ensures Processed(jobs[..i + 1]) == Processed(jobs[..i]) + if |jobs[i].events| > 0 then 1 else 0
    ensures Requests(jobs[..i + 1]) == Requests(jobs[..i]) +
              if |jobs[i].events| > 0
              then [Request(jobs[i].appToken, jobs[i].events[0].1, jobs[i].deviceId, jobs[i].platform)]
              else []
  {
    assert jobs[..i + 1][..i] == jobs[..i] && jobs[..i + 1][i] == jobs[i];
  }

  /** process_job_queue. `now` is the time read by get_due_jobs; `tick(id)`
      is what the clock and random.uniform give while job `id` is handled;
      `execute` stands for execute_single_request; its answer only feeds the
      Discord log, which is not modelled. `sent` is a ghost trace of the
      calls made, not a value the function returns. */
  method ProcessJobQueue(store: JobStore, now: real, tick: int -> Tick,
                         execute: (string, string, string, string) -> (int, string))
    returns (summary: Summary, ghost sent: seq<Request>)
    requires store.Valid()
    modifies store
    ensures store.Valid() && store.lastId == old(store.lastId)
    ensures store.table == Pass(old(store.table), old(store.lastId), now, tick)
    ensures summary == Outcome(old(store.GetDueJobs(now)))
    ensures sent == Requests(old(store.GetDueJobs(now)))
  {
    var jobs := store.GetDueJobs(now);
    if |jobs| == 0 {
      return Idle, [];
    }
    ghost var t0 := store.table;
    var processedCount := 0;
    sent := [];
    for i := 0 to |jobs|
      invariant store.Valid() && store.lastId == old(store.lastId)
      invariant store.table == AfterJobs(t0, jobs[..i], tick)
      invariant processedCount == Processed(jobs[..i])
      invariant sent == Requests(jobs[..i])
    {
      var job := jobs[i];
      ScanStep(t0, jobs, i, tick);
      var events := job.events;
      if |events| == 0 {
        store.UpdateJob(job.id, [], 0.0, Completed);
        continue;
      }
      var name := Keys(events)[0];
      var token := Get(events, name);
      var request := Request(job.appToken, token, job.deviceId, job.platform);
      var response := execute(request.appToken, request.eventToken, request.deviceId, request.platform);
      sent := sent + [request];
      events := Delete(events, name);
      DeleteFirst(job.events);
      if |events| == 0 {
        store.UpdateJob(job.id, [], 0.0, Completed);
      } else {
        DeleteKeepsDistinct(job.events, name);
        var nextTs := Rescheduled(tick(job.id));
        store.UpdateJob(job.id, events, nextTs, Pending);
      }
      processedCount := processedCount + 1;
    }
    assert jobs[..|jobs|] == jobs;
    summary := Active(processedCount);
  }
}
