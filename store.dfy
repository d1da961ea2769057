/** The durable job table of app/database.py: one row per job, with an
    auto-increment id, the ordered dict of pending events, the next execution
    time, the delay bounds and a status. The SQLite table is a map from id to
    row, and the AUTOINCREMENT counter is a field of its own. */
module Store {
  import opened Events

  /** The status column; the code only ever writes 'pending' and 'completed'. */
  datatype Status = Pending | Completed

  /** One row of job_queue. Times are seconds since the epoch, the delay
      bounds are hours. */
  datatype Row = Row(
    id: int,
    appName: string,
    platform: string,
    deviceId: string,
    appToken: string,
    events: seq<Entry>,
    nextTs: real,
    delayMin: real,
    delayMax: real,
    username: string,
    status: Status)

  /** The WHERE clause of the due query: pending, and due at or before `now`,
      however long ago. */
  predicate IsDue(r: Row, now: real) {
    r.status == Pending && r.nextTs <= now
  }

  /** Every row sits under its own id and its events column holds a dict. */
  predicate WellFormed(t: map<int, Row>) {
    forall id :: id in t ==> t[id].id == id && DistinctNames(t[id].events)
  }

  /** A table together with its AUTOINCREMENT counter: well formed, and every
      id handed out and not above the counter. */
  predicate Consistent(t: map<int, Row>, lastId: int) {
    WellFormed(t) && lastId >= 0 && forall id :: id in t ==> 1 <= id <= lastId
  }

  /** The due rows with ids in [lo, hi), in ascending id order (the order in
      which SQLite scans a table by rowid). */
  function DueRows(t: map<int, Row>, now: real, lo: int, hi: int): (rows: seq<Row>)
    requires WellFormed(t)
    decreases hi - lo
    ensures forall k :: 0 <= k < |rows| ==>
              lo <= rows[k].id < hi && rows[k].id in t && t[rows[k].id] == rows[k] && IsDue(rows[k], now)
    ensures forall id :: lo <= id < hi && id in t && IsDue(t[id], now) ==> t[id] in rows
    ensures forall j, k :: 0 <= j < k < |rows| ==> rows[j].id < rows[k].id
  {
    if hi <= lo then []
    else
      var rest := DueRows(t, now, lo, hi - 1);
      if hi - 1 in t && IsDue(t[hi - 1], now) then rest + [t[hi - 1]] else rest
  }

  /** The UPDATE statement on row `id`. */
  function Updated(t: map<int, Row>, id: int, ev: seq<Entry>, ts: real, st: Status): map<int, Row> {
    if id in t then t[id := t[id].(events := ev, nextTs := ts, status := st)] else t
  }

  /** The UPDATE replaces the events, next time and status of row `id` and
      nothing else: the other columns of that row and all other rows stay,
      and when no row has that id the table is unchanged. */
  lemma UpdateEffect(t: map<int, Row>, id: int, ev: seq<Entry>, ts: real, st: Status)
    ensures Updated(t, id, ev, ts, st).Keys == t.Keys
    ensures id !in t ==> Updated(t, id, ev, ts, st) == t
    ensures forall k :: k in t && k != id ==> Updated(t, id, ev, ts, st)[k] == t[k]
    ensures id in t ==> var u := Updated(t, id, ev, ts, st)[id];
              u.events == ev && u.nextTs == ts && u.status == st
              && u.id == t[id].id && u.appName == t[id].appName
              && u.platform == t[id].platform && u.deviceId == t[id].deviceId
              && u.appToken == t[id].appToken && u.delayMin == t[id].delayMin
              && u.delayMax == t[id].delayMax && u.username == t[id].username
  {
  }

  /** Running the same UPDATE twice leaves the table as running it once. */
  lemma UpdateIdempotent(t: map<int, Row>, id: int, ev: seq<Entry>, ts: real, st: Status)
    ensures Updated(Updated(t, id, ev, ts, st), id, ev, ts, st) == Updated(t, id, ev, ts, st)
  {
  }

  /** The job_queue table. */
  class JobStore {
    var table: map<int, Row>
    /** The AUTOINCREMENT counter: the largest id ever handed out. */
    var lastId: int

    ghost predicate Valid()
      reads this
    {
      Consistent(table, lastId)
    }

    /** init_db: an empty table. */
    constructor ()
      ensures Valid() && table == map[] && lastId == 0
    {
      table := map[];
      lastId := 0;
    }

    /** add_job: one new pending row under a fresh id larger than every id in
        use; the other rows stay as they were. */
    method AddJob(appName: string, platform: string, deviceId: string, appToken: string,
                  events: seq<Entry>, nextTs: real, delayMin: real, delayMax: real,
                  username: string)
      requires Valid()
      requires DistinctNames(events)
      modifies this
      ensures Valid()
      ensures lastId == old(lastId) + 1 && lastId !in old(table)
      ensures forall id :: id in old(table) ==> id < lastId
      ensures table == old(table)[lastId := Row(lastId, appName, platform, deviceId, appToken,
                                                events, nextTs, delayMin, delayMax, username, Pending)]
    {
      lastId := lastId + 1;
      table := table[lastId := Row(lastId, appName, platform, deviceId, appToken,
                                    events, nextTs, delayMin, delayMax, username, Pending)];
    }

    /** get_due_jobs: exactly the pending rows whose next time is at or before
        `now`, each once, in ascending id order. */
    function GetDueJobs(now: real): (jobs: seq<Row>)
      reads this
      requires Valid()
      ensures forall k :: 0 <= k < |jobs| ==>
                jobs[k].id in table && table[jobs[k].id] == jobs[k] && IsDue(jobs[k], now)
      ensures forall id :: id in table && IsDue(table[id], now) ==> table[id] in jobs
      ensures forall j, k :: 0 <= j < k < |jobs| ==> jobs[j].id < jobs[k].id
    {
      DueRows(table, now, 1, lastId + 1)
    }

    /** update_job: replaces the three mutable columns of row `id`. */
    method UpdateJob(id: int, ev: seq<Entry>, ts: real, st: Status)
      requires Valid()
      requires DistinctNames(ev)
      modifies this
      ensures Valid() && lastId == old(lastId)
      ensures table == Updated(old(table), id, ev, ts, st)
    {
      table := Updated(table, id, ev, ts, st);
    }
  }
}
