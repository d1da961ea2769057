/** What the scheduler promises across calls of process_job_queue: one event
    per due job per scan however late the scan runs, new due times counted
    from the clock and inside the delay bounds, events consumed in insertion
    order, and completion after as many due scans as the job had events. */
module Properties {
  import opened Events
  import opened Store
  import opened Processor

  /** At most one job is counted per due row, and the count is the number of
      calls made. */
  lemma {:induction false} ProcessedCountsCalls(jobs: seq<Row>)
    ensures Processed(jobs) <= |jobs|
    ensures Processed(jobs) == |Requests(jobs)|
  {
    if jobs != [] {
      ProcessedCountsCalls(jobs[..|jobs| - 1]);
    }
  }

  /** The count equals the number of rows that still had an event. */
  lemma {:induction false} ProcessedIsNonEmpty(jobs: seq<Row>)
    ensures Processed(jobs) == |set k | 0 <= k < |jobs| && |jobs[k].events| > 0|
  {
    if jobs != [] {
      var init := jobs[..|jobs| - 1];
      ProcessedIsNonEmpty(init);
      var before := set k | 0 <= k < |init| && |init[k].events| > 0;
      var after := set k | 0 <= k < |jobs| && |jobs[k].events| > 0;
      if |jobs[|jobs| - 1].events| > 0 {
        assert after == before + {|jobs| - 1};
      } else {
        assert after == before;
      }
    }
  }

  /** A scan with no due job answers idle with count 0 under the key
      "jobs_processed" and leaves every row as it was. */
  lemma IdleScan(t: map<int, Row>, lastId: int, now: real, tick: int -> Tick)
    requires Consistent(t, lastId)
    requires forall id :: id in t ==> !IsDue(t[id], now)
    ensures Outcome(DueRows(t, now, 1, lastId + 1)) == Idle
    ensures Idle.Count() == 0 && Idle.StatusText() == "idle" && Idle.CountKey() == "jobs_processed"
    ensures Pass(t, lastId, now, tick) == t
  {
  }

  /** A scan with due jobs answers active, under the key "processed". */
  lemma ActiveScan(jobs: seq<Row>)
    requires jobs != []
    ensures Outcome(jobs).StatusText() == "active" && Outcome(jobs).CountKey() == "processed"
    ensures Outcome(jobs).Count() == Processed(jobs) <= |jobs|
  {
    ProcessedCountsCalls(jobs);
  }

  /** A due row loses exactly its first event in one scan, whatever the
      execution answered and however far in the past its due time was: the
      row after the scan does not depend on its old due time. */
  lemma NoCatchUp(t: map<int, Row>, lastId: int, now: real, tick: int -> Tick, id: int, late: real)
    requires Consistent(t, lastId) && id in t && IsDue(t[id], now) && |t[id].events| > 0
    requires late <= now
    ensures Pass(t, lastId, now, tick)[id].events == t[id].events[1..]
    ensures Consistent(t[id := t[id].(nextTs := late)], lastId)
    ensures Pass(t[id := t[id].(nextTs := late)], lastId, now, tick)[id] == Pass(t, lastId, now, tick)[id]
  {
    var t' := t[id := t[id].(nextTs := late)];
    assert Consistent(t', lastId);
    assert IsDue(t'[id], now);
  }

  /** A rescheduled job is due again after its drawn delay counted from the
      clock reading, so between delay_min and delay_max hours after it. */
  lemma RescheduleWithinBounds(t: map<int, Row>, lastId: int, now: real, tick: int -> Tick, id: int)
    requires Consistent(t, lastId) && id in t && IsDue(t[id], now) && |t[id].events| > 1
    requires Within(tick(id).delayHours, t[id].delayMin, t[id].delayMax)
    ensures Pass(t, lastId, now, tick)[id].status == Pending
    ensures tick(id).clock + 3600.0 * Lo(t[id].delayMin, t[id].delayMax)
            <= Pass(t, lastId, now, tick)[id].nextTs
            <= tick(id).clock + 3600.0 * Hi(t[id].delayMin, t[id].delayMax)
  {
  }

  /** One call of process_job_queue: the time get_due_jobs reads, and what
      the clock and random.uniform give for each job. */
  datatype Scan = Scan(now: real, tick: int -> Tick)

  /** The table after a series of scans. */
  function Run(t: map<int, Row>, lastId: int, scans: seq<Scan>): (u: map<int, Row>)
    requires Consistent(t, lastId)
    ensures Consistent(u, lastId) && u.Keys == t.Keys
    decreases |scans|
  {
    if scans == [] then t
    else Run(Pass(t, lastId, scans[0].now, scans[0].tick), lastId, scans[1..])
  }

  /** In how many of `scans` row `id` was due. */
  function DueCount(t: map<int, Row>, lastId: int, scans: seq<Scan>, id: int): nat
    requires Consistent(t, lastId) && id in t
    decreases |scans|
  {
    if scans == [] then 0
    else (if IsDue(t[id], scans[0].now) then 1 else 0)
         + DueCount(Pass(t, lastId, scans[0].now, scans[0].tick), lastId, scans[1..], id)
  }

  /** A completed row is never due again, so no scan touches it. */
  lemma {:induction false} CompletedStays(t: map<int, Row>, lastId: int, scans: seq<Scan>, id: int)
    requires Consistent(t, lastId) && id in t && t[id].status == Completed
    ensures Run(t, lastId, scans)[id] == t[id]
    ensures DueCount(t, lastId, scans, id) == 0
    decreases |scans|
  {
    if scans != [] {
      var next := Pass(t, lastId, scans[0].now, scans[0].tick);
      assert next[id] == t[id];
      CompletedStays(next, lastId, scans[1..], id);
    }
  }

  /** Scans change only the events, next time and status of a row: its id,
      target, token, delay bounds and owner stay as add_job wrote them. */
  lemma {:induction false} RunKeepsColumns(t: map<int, Row>, lastId: int, scans: seq<Scan>, id: int)
    requires Consistent(t, lastId) && id in t
    ensures Run(t, lastId, scans)[id].(events := t[id].events, nextTs := t[id].nextTs, status := t[id].status) == t[id]
    decreases |scans|
  {
    if scans != [] {
      var next := Pass(t, lastId, scans[0].now, scans[0].tick);
      assert next[id].(events := t[id].events, nextTs := t[id].nextTs, status := t[id].status) == t[id];
      RunKeepsColumns(next, lastId, scans[1..], id);
    }
  }

  /** A pending job with N events executes them in insertion order, one per
      scan in which it is due, and is completed exactly when it has been due
      in N scans. */
  lemma {:induction false} Converges(t: map<int, Row>, lastId: int, scans: seq<Scan>, id: int)
    requires Consistent(t, lastId) && id in t
    requires t[id].status == Pending && |t[id].events| > 0
    ensures DueCount(t, lastId, scans, id) <= |t[id].events|
    ensures Run(t, lastId, scans)[id].events == t[id].events[DueCount(t, lastId, scans, id)..]
    ensures Run(t, lastId, scans)[id].status == Completed <==> DueCount(t, lastId, scans, id) == |t[id].events|
    decreases |scans|
  {
    if scans != [] {
      var s := scans[0];
      var next := Pass(t, lastId, s.now, s.tick);
      assert Run(t, lastId, scans) == Run(next, lastId, scans[1..]);
      var c := DueCount(next, lastId, scans[1..], id);
      if !IsDue(t[id], s.now) {
        assert DueCount(t, lastId, scans, id) == c;
        assert next[id] == t[id];
        Converges(next, lastId, scans[1..], id);
      } else {
        assert DueCount(t, lastId, scans, id) == 1 + c;
        assert next[id] == NextRow(t[id], s.tick(id));
        if |t[id].events| == 1 {
          CompletedStays(next, lastId, scans[1..], id);
        } else {
          Converges(next, lastId, scans[1..], id);
          assert t[id].events[1..][c..] == t[id].events[1 + c..];
        }
      }
    }
  }

  /** Insertion order is execution order: at the k-th scan in which the job
      is due it executes its k-th event. */
  lemma OrderPreserved(t: map<int, Row>, lastId: int, scans: seq<Scan>, id: int)
    requires Consistent(t, lastId) && id in t
    requires t[id].status == Pending && |t[id].events| > 0
    requires DueCount(t, lastId, scans, id) < |t[id].events|
    ensures Run(t, lastId, scans)[id].status == Pending
    ensures |Run(t, lastId, scans)[id].events| == |t[id].events| - DueCount(t, lastId, scans, id)
    ensures Run(t, lastId, scans)[id].events[0] == t[id].events[DueCount(t, lastId, scans, id)]
  {
    Converges(t, lastId, scans, id);
  }
}
