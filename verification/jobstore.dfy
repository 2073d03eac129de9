/**
 * The durable job store adapter and the in-process cache (`get_task`,
 * `update_task`, `stop_task`, `get_active_tasks`, `create_investigation`).
 * The table is a map from `job_id` to the stored record; the monitor's
 * state is that map, the cache of records read or written, and the set of
 * notification keys already used.
 */
module JobStore {
  import opened Options
  import opened Json
  import L = JobLog

  datatype Monitor = Monitor(store: map<string, Item>, cache: map<string, Item>, notified: set<string>)

  /** The status attribute holds `"complete"`. */
  predicate IsComplete(item: Item) {
    "status" in item && item["status"] == Str("complete")
  }

  /** `task.get('status') == 'open'`. */
  predicate IsOpen(item: Item) {
    "status" in item && item["status"] == Str("open")
  }

  /**
   * What the sequential model keeps true of the store: every record is stored
   * under its own `job_id` and no stored record holds a float.
   */
  ghost predicate Valid(m: Monitor) {
    && (forall k :: k in m.store ==> "job_id" in m.store[k] && m.store[k]["job_id"] == Str(k))
    && (forall k :: k in m.store ==> NoFloat(Dict(m.store[k])))
  }

  /** Every cache entry is the stored record of its job. */
  ghost predicate CacheAgrees(m: Monitor) {
    forall k :: k in m.cache ==> k in m.store && m.cache[k] == m.store[k]
  }

  /** The monitor a fresh process starts with, over an empty table. */
  function Empty(): (m: Monitor)
    ensures Valid(m) && CacheAgrees(m)
  {
    Monitor(map[], map[], {})
  }

  /** `get_task`: read the stored record and refresh its cache entry; nothing when it is missing. */
  function GetTask(m: Monitor, id: string): (r: (Option<Item>, Monitor))
    ensures r.1.store == m.store && r.1.notified == m.notified
    ensures id !in m.store ==> r.0 == None && r.1 == m
    ensures id in m.store ==> r.0 == Some(m.store[id]) && r.1.cache == m.cache[id := m.store[id]]
  {
    if id in m.store then (Some(m.store[id]), m.(cache := m.cache[id := m.store[id]]))
    else (None, m)
  }

  /** Reading a job twice gives what reading it once gives, and leaves the monitor as one read does. */
  lemma GetTaskTwice(m: Monitor, id: string)
    ensures GetTask(GetTask(m, id).1, id) == GetTask(m, id)
  {
    if id in m.store {
      var c := m.cache[id := m.store[id]];
      assert c[id := m.store[id]] == c;
    }
  }

  /** Reading keeps the invariant and the cache's agreement with the store. */
  lemma GetTaskValid(m: Monitor, id: string)
    ensures Valid(m) ==> Valid(GetTask(m, id).1)
    ensures CacheAgrees(m) ==> CacheAgrees(GetTask(m, id).1)
  {
  }

  /** The attributes `update_task` may set; an absent one is left alone. */
  datatype Updates = Updates(status: Option<Value>, prompt: Option<Value>)

  /** The record after applying `u` and stamping `updated_at`. */
  function Apply(task: Item, u: Updates, now: string): Item {
    var t1 := if u.status.Some? then task["status" := u.status.value] else task;
    var t2 := if u.prompt.Some? then t1["prompt" := u.prompt.value] else t1;
    t2["updated_at" := Str(now)]
  }

  /**
   * `update_task`: false with nothing written when the record is missing (or is an
   * empty, falsy dict); otherwise the converted record is written and the cache
   * holds the record before conversion.
   */
  function UpdateTask(m: Monitor, id: string, u: Updates, now: string): (r: (bool, Monitor))
    ensures r.1.notified == m.notified
    ensures r.0 <==> id in m.store && m.store[id] != map[]
    ensures !r.0 ==> r.1.store == m.store
    ensures r.1.store.Keys == m.store.Keys
  {
    var (task, m1) := GetTask(m, id);
    if task.None? || task.value == map[] then (false, m1)
    else
      var t := Apply(task.value, u, now);
      (true, Monitor(m1.store[id := ConvertItem(t)], m1.cache[id := t], m1.notified))
  }

  /** The updates hold no float. */
  predicate FloatFreeUpdates(u: Updates) {
    (u.status.Some? ==> NoFloat(u.status.value)) && (u.prompt.Some? ==> NoFloat(u.prompt.value))
  }

  /** The attributes an update names, besides `updated_at`. */
  function Touched(u: Updates): set<string> {
    (if u.status.Some? then {"status"} else {}) + (if u.prompt.Some? then {"prompt"} else {})
  }

  /**
   * Applying an update sets what it names, stamps `updated_at`, and keeps every
   * other attribute.
   */
  lemma ApplySpec(task: Item, u: Updates, now: string)
    ensures var t := Apply(task, u, now);
      && t.Keys == task.Keys + {"updated_at"} + Touched(u)
      && (forall a :: a in task && a !in Touched(u) && a != "updated_at" ==> t[a] == task[a])
      && t["updated_at"] == Str(now)
      && (u.status.Some? ==> t["status"] == u.status.value)
      && (u.prompt.Some? ==> t["prompt"] == u.prompt.value)
  {
  }

  /** Applying float-free updates to a float-free record adds no float, and keeps its `job_id`. */
  lemma ApplyFloatFree(task: Item, u: Updates, now: string)
    requires NoFloat(Dict(task)) && FloatFreeUpdates(u)
    ensures NoFloat(Dict(Apply(task, u, now)))
    ensures "job_id" in task ==> "job_id" in Apply(task, u, now) && Apply(task, u, now)["job_id"] == task["job_id"]
  {
  }

  /** Writing a float-free record under its own id keeps the invariant. */
  lemma WriteValid(m: Monitor, id: string, item: Item, cache: map<string, Item>)
    requires Valid(m)
    requires "job_id" in item && item["job_id"] == Str(id)
    requires NoFloat(Dict(item))
    ensures Valid(Monitor(m.store[id := item], cache, m.notified))
  {
  }

  /** Writing the same record to the store and the cache keeps them in agreement. */
  lemma WriteAgrees(m: Monitor, id: string, item: Item)
    requires CacheAgrees(m)
    ensures CacheAgrees(Monitor(m.store[id := item], m.cache[id := item], m.notified))
  {
  }

  /**
   * A successful update writes the updated record itself (it holds no float to
   * convert) to both the store and the cache.
   */
  lemma UpdateTaskStore(m: Monitor, id: string, u: Updates, now: string)
    requires id in m.store ==> NoFloat(Dict(m.store[id]))
    requires FloatFreeUpdates(u)
    ensures var r := UpdateTask(m, id, u, now);
      r.1.store == (if r.0 then m.store[id := Apply(m.store[id], u, now)] else m.store)
      && (r.0 ==> r.1.cache == m.cache[id := Apply(m.store[id], u, now)])
  {
    if id in m.store {
      ApplyFloatFree(m.store[id], u, now);
      ConvertItemFloatFree(Apply(m.store[id], u, now));
    }
  }

  /**
   * On a valid state an update finds exactly the stored jobs, leaves the
   * store's records alone when it finds none, and keeps the invariant.
   */
  lemma UpdateTaskSpec(m: Monitor, id: string, u: Updates, now: string)
    requires Valid(m)
    requires FloatFreeUpdates(u)
    ensures var r := UpdateTask(m, id, u, now);
      && (r.0 <==> id in m.store)
      && r.1.store == (if r.0 then m.store[id := Apply(m.store[id], u, now)] else m.store)
      && (r.0 ==> r.1.cache == m.cache[id := Apply(m.store[id], u, now)])
      && Valid(r.1)
  {
    UpdateTaskStore(m, id, u, now);
    if id in m.store {
      var task := m.store[id];
      assert "job_id" in task;
      ApplyFloatFree(task, u, now);
      WriteValid(m, id, Apply(task, u, now), UpdateTask(m, id, u, now).1.cache);
    }
  }

  /** An update keeps the cache in agreement with the store. */
  lemma UpdateTaskAgrees(m: Monitor, id: string, u: Updates, now: string)
    requires Valid(m) && CacheAgrees(m)
    requires FloatFreeUpdates(u)
    ensures CacheAgrees(UpdateTask(m, id, u, now).1)
  {
    UpdateTaskStore(m, id, u, now);
    GetTaskValid(m, id);
    if id in m.store {
      WriteAgrees(m, id, Apply(m.store[id], u, now));
    }
  }

  /** `stop_task`: the normal update path with status `complete` and nothing else. */
  function StopTask(m: Monitor, id: string, now: string): (bool, Monitor) {
    UpdateTask(m, id, StopUpdates, now)
  }

  /** The updates `stop_task` asks for. */
  const StopUpdates := Updates(Some(Str("complete")), None)

  /** Stopping finds exactly the stored jobs, leaves every other record alone, and keeps the invariant. */
  lemma {:induction false} StopTaskSpec(m: Monitor, id: string, now: string)
    requires Valid(m)
    ensures StopTask(m, id, now).0 <==> id in m.store
    ensures forall k :: k in m.store && k != id ==> StopTask(m, id, now).1.store[k] == m.store[k]
    ensures Valid(StopTask(m, id, now).1)
  {
    assert FloatFreeUpdates(StopUpdates);
    UpdateTaskSpec(m, id, StopUpdates, now);
    var r := UpdateTask(m, id, StopUpdates, now);
    if r.0 {
      assert r.1.store == m.store[id := Apply(m.store[id], StopUpdates, now)];
    } else {
      assert r.1.store == m.store;
    }
  }

  /** Stopping a stored, non-empty job leaves it complete. */
  lemma {:induction false} StopTaskCompletes(m: Monitor, id: string, now: string)
    requires id in m.store && m.store[id] != map[] && NoFloat(Dict(m.store[id]))
    ensures IsComplete(StopTask(m, id, now).1.store[id])
  {
    UpdateTaskStore(m, id, StopUpdates, now);
    assert Apply(m.store[id], StopUpdates, now)["status"] == Str("complete");
  }

  /** Stopping changes no attribute of the record but `status` and `updated_at`. */
  lemma StopTaskKeeps(m: Monitor, id: string, now: string)
    requires id in m.store && NoFloat(Dict(m.store[id]))
    ensures forall a :: a in m.store[id] && a != "status" && a != "updated_at" ==>
              StopTask(m, id, now).1.store[id][a] == m.store[id][a]
  {
    UpdateTaskStore(m, id, StopUpdates, now);
    var task := m.store[id];
    assert Apply(task, StopUpdates, now) == task["status" := Str("complete")]["updated_at" := Str(now)];
  }

  /**
   * `get_active_tasks`: the cached records whose status is `open`, by job id.
   * With the cache in agreement, these are the stored open jobs this process
   * has read or written.
   */
  function GetActiveTasks(m: Monitor): (r: map<string, Item>)
    ensures forall k :: k in r <==> k in m.cache && IsOpen(m.cache[k])
    ensures forall k :: k in r ==> r[k] == m.cache[k]
    ensures CacheAgrees(m) ==>
      && (forall k :: k in r ==> k in m.store && r[k] == m.store[k] && IsOpen(m.store[k]))
      && (forall k :: k in m.cache && k in m.store && IsOpen(m.store[k]) ==> k in r)
  {
    map k | k in m.cache && IsOpen(m.cache[k]) :: m.cache[k]
  }

  /** The id a new job gets: the caller's when given and non-empty, else a generated one. */
  function NewJobId(jobId: Option<string>, uuid: string): (id: string)
    ensures jobId.Some? && jobId.value != "" ==> id == jobId.value
    ensures jobId.None? || jobId.value == "" ==> id == "investigation-" + uuid
  {
    if jobId.None? || jobId.value == "" then "investigation-" + uuid else jobId.value
  }

  /** A new job's id is never empty, and handing it back as the caller's id keeps it. */
  lemma NewJobIdKept(jobId: Option<string>, uuid: string, uuid': string)
    ensures NewJobId(jobId, uuid) != ""
    ensures NewJobId(Some(NewJobId(jobId, uuid)), uuid') == NewJobId(jobId, uuid)
  {
  }

  /** The record `create_investigation` writes: its log is stamped `created`, its `updated_at` is `now`. */
  function NewRecord(id: string, question: string, context: seq<(string, string)>, created: string, now: string): Item {
    map["job_id" := Str(id), "status" := Str("open"),
        "prompt" := Str(L.CreatePrompt(question, context, created)), "updated_at" := Str(now)]
  }

  /**
   * `create_investigation`: writes an open record with the initial log under the
   * new id (replacing any record already there) and caches it. `uuid` stands
   * for `uuid4()`; `created` and `now` for the two separate readings of
   * `utcnow().isoformat()`, the first in the log, the second in `updated_at`.
   */
  function CreateInvestigation(m: Monitor, question: string, context: seq<(string, string)>,
                               jobId: Option<string>, uuid: string, created: string, now: string): (r: (string, Monitor))
    ensures r.0 == NewJobId(jobId, uuid)
    ensures r.1.store == m.store[r.0 := NewRecord(r.0, question, context, created, now)]
    ensures r.1.cache == m.cache[r.0 := NewRecord(r.0, question, context, created, now)]
    ensures r.1.notified == m.notified
  {
    var id := NewJobId(jobId, uuid);
    var item := NewRecord(id, question, context, created, now);
    assert NoFloat(Dict(item));
    ConvertItemFloatFree(item);
    (id, Monitor(m.store[id := ConvertItem(item)], m.cache[id := item], m.notified))
  }

  /** Creating keeps the invariant and the cache's agreement, and the new job is open. */
  lemma CreateInvestigationValid(m: Monitor, question: string, context: seq<(string, string)>,
                                 jobId: Option<string>, uuid: string, created: string, now: string)
    ensures var r := CreateInvestigation(m, question, context, jobId, uuid, created, now);
      && (Valid(m) ==> Valid(r.1))
      && (CacheAgrees(m) ==> CacheAgrees(r.1))
      && IsOpen(r.1.store[r.0])
  {
    var id := NewJobId(jobId, uuid);
    var item := NewRecord(id, question, context, created, now);
    assert NoFloat(Dict(item));
    if Valid(m) {
      WriteValid(m, id, item, m.cache[id := item]);
    }
    if CacheAgrees(m) {
      WriteAgrees(m, id, item);
    }
  }
}
