/**
 * The iteration engine: the backend choice and the simulator
 * (`_simulate_llm_investigation`), one job's iteration (`_process_investigation`,
 * `_update_investigation`) and the master poll over the open jobs
 * (`_poll_active_investigations`).
 */
module Engine {
  import opened Options
  import opened Text
  import opened Json
  import opened JobStore
  import I = Interpreter
  import L = JobLog
  import P = Pages

  /** What the generation backend returns: its standard output, or a failure of any kind. */
  datatype BackendResult = Output(stdout: string) | Failed

  /**
   * The environment of the engine: the raw `USE_REAL_LLM` setting (absent when
   * unset), the backend called with the full prompt, and the natural-language
   * patterns of the interpreter.
   */
  datatype Config = Config(useRealLlm: Option<string>, backend: string -> BackendResult, h: I.Heuristics)

  /** `os.environ.get('USE_REAL_LLM', 'false').lower() == 'true'`. */
  predicate UseRealBackend(setting: Option<string>) {
    Lower(setting.GetOr("false")) == "true"
  }

  /** The simulator's scripted reply for an iteration number: a status token, then the scripted text. */
  function SimulatedReplyText(iteration: nat): string {
    if iteration < 3 then I.StatusToken(I.Continuing) + ContinuingScript(iteration)
    else I.StatusToken(I.Complete) + CompleteScript
  }

  /** What the simulator says after `[STATUS:CONTINUING]` in its first three iterations. */
  function ContinuingScript(iteration: nat): string {
    "\n[ACTION:Analyzing metrics for iteration " + NatToString(iteration + 1) + "]\n"
    + "[FINDING:metric_" + NatToString(iteration) + "=value_" + NatToString(iteration) + "]\n"
    + "[FINDING:progress=" + NatToString((iteration + 1) * 33) + "%]\n\n"
    + "Based on the current findings, I need to continue gathering more data to identify the root cause."
  }

  /** What the simulator says after `[STATUS:COMPLETE]` from the fourth iteration on. */
  const CompleteScript: string :=
    "\n[ACTION:Investigation complete - root cause identified]\n"
    + "[FINDING:root_cause=High latency detected in service X]\n"
    + "[FINDING:recommendation=Scale up instances]\n"
    + "[FINDING:confidence=85%]\n"
    + "[ANSWER:The deployment issue is caused by high latency in service X. Recommend scaling up instances.]\n\n"
    + "The investigation has identified that service X is experiencing high latency under load."

  /** The simulator's reply opens with its status token, so the first three iterations continue and later ones complete. */
  lemma SimulatedStatus(h: I.Heuristics, iteration: nat)
    ensures I.Parse(h, SimulatedReplyText(iteration)).status == (if iteration < 3 then I.Continuing else I.Complete)
  {
    if iteration < 3 {
      I.OpeningStatus(I.Continuing, ContinuingScript(iteration));
    } else {
      I.OpeningStatus(I.Complete, CompleteScript);
    }
  }

  /**
   * The interpreted reply to a prompt: the real backend's stripped output when it
   * is selected and succeeds, otherwise the simulator at the iteration the caller
   * passes.
   */
  function InvestigationReply(cfg: Config, prompt: string, iteration: nat): I.Reply {
    if UseRealBackend(cfg.useRealLlm) && cfg.backend(prompt).Output? then
      I.Parse(cfg.h, Strip(cfg.backend(prompt).stdout))
    else
      I.Parse(cfg.h, SimulatedReplyText(iteration))
  }

  /** Iteration 0 is what every job iteration passes. */
  const Iteration: nat := 0

  /** Without a working real backend, the reply in the first three iterations is `continuing`. */
  lemma {:induction false} SimulatorContinues(cfg: Config, prompt: string, iteration: nat)
    requires iteration < 3
    requires !UseRealBackend(cfg.useRealLlm) || cfg.backend(prompt).Failed?
    ensures InvestigationReply(cfg, prompt, iteration).status == I.Continuing
    ensures InvestigationReply(cfg, prompt, iteration).answer.None?
  {
    var r := I.Parse(cfg.h, SimulatedReplyText(iteration));
    assert InvestigationReply(cfg, prompt, iteration) == r;
    SimulatedStatus(cfg.h, iteration);
  }

  /** The status `_update_investigation` writes: `complete` for a complete reply, the stored one otherwise. */
  function NextStatus(stored: Value, r: I.Reply): (v: Value)
    ensures v == Str("complete") <==> r.status == I.Complete || stored == Str("complete")
    ensures r.status == I.Continuing ==> v == stored
  {
    if r.status == I.Complete then Str("complete") else stored
  }

  /** The updates one iteration asks for: the next status and the log with one entry appended. */
  function IterationUpdates(task: Item, r: I.Reply, log: string, ts: string): Updates
    requires "status" in task
  {
    Updates(Some(NextStatus(task["status"], r)), Some(Str(L.AppendEntry(log, ts, r))))
  }

  /**
   * `_update_investigation`: reread the job; nothing more happens when it is
   * missing, empty or has no `status` (the KeyError is caught by the caller);
   * otherwise write the next status and `log` with one entry appended. `ts` is
   * the entry's time stamp, `now` the time of the write.
   */
  function UpdateInvestigation(m: Monitor, id: string, r: I.Reply, log: string, ts: string, now: string): Monitor {
    var (task, m1) := GetTask(m, id);
    if task.None? || task.value == map[] || "status" !in task.value then m1
    else UpdateTask(m1, id, IterationUpdates(task.value, r, log, ts), now).1
  }

  /** Whether an iteration of job `id` writes: it exists and has a status. */
  predicate Writes(m: Monitor, id: string) {
    id in m.store && "status" in m.store[id]
  }

  /** The record an iteration of job `id` writes, when it writes. */
  function IterationRecord(m: Monitor, id: string, r: I.Reply, log: string, ts: string, now: string): Item
    requires Writes(m, id)
  {
    Apply(m.store[id], IterationUpdates(m.store[id], r, log, ts), now)
  }

  /** An iteration that writes stores its record under its job, in the store and the cache, and nothing else. */
  lemma UpdateInvestigationWrite(m: Monitor, id: string, r: I.Reply, log: string, ts: string, now: string)
    requires Writes(m, id) && NoFloat(Dict(m.store[id]))
    ensures UpdateInvestigation(m, id, r, log, ts, now)
              == Monitor(m.store[id := IterationRecord(m, id, r, log, ts, now)],
                         m.cache[id := IterationRecord(m, id, r, log, ts, now)], m.notified)
  {
    var m1 := GetTask(m, id).1;
    var t := m.store[id];
    var u := IterationUpdates(t, r, log, ts);
    var rec := IterationRecord(m, id, r, log, ts, now);
    assert m1.store == m.store && m1.cache == m.cache[id := t] && m1.notified == m.notified;
    assert FloatFreeUpdates(u) by {
      assert NoFloat(t["status"]);
    }
    assert UpdateInvestigation(m, id, r, log, ts, now) == UpdateTask(m1, id, u, now).1;
    UpdateTaskStore(m1, id, u, now);
    assert m1.cache[id := rec] == m.cache[id := rec];
  }

  /** What an iteration does to the monitor: one write of the iteration record, or only the reread. */
  lemma UpdateInvestigationEffect(m: Monitor, id: string, r: I.Reply, log: string, ts: string, now: string)
    requires id in m.store ==> NoFloat(Dict(m.store[id]))
    ensures Writes(m, id) ==>
              (UpdateInvestigation(m, id, r, log, ts, now)
                 == Monitor(m.store[id := IterationRecord(m, id, r, log, ts, now)],
                            m.cache[id := IterationRecord(m, id, r, log, ts, now)], m.notified))
    ensures !Writes(m, id) ==> UpdateInvestigation(m, id, r, log, ts, now) == GetTask(m, id).1
  {
    if Writes(m, id) {
      UpdateInvestigationWrite(m, id, r, log, ts, now);
    }
  }

  /** The iteration record holds no float and keeps the job's `job_id`. */
  lemma {:induction false} IterationRecordFloatFree(m: Monitor, id: string, r: I.Reply, log: string, ts: string, now: string)
    requires Writes(m, id) && NoFloat(Dict(m.store[id]))
    ensures NoFloat(Dict(IterationRecord(m, id, r, log, ts, now)))
    ensures "job_id" in m.store[id] ==>
              && "job_id" in IterationRecord(m, id, r, log, ts, now)
              && IterationRecord(m, id, r, log, ts, now)["job_id"] == m.store[id]["job_id"]
  {
    var task := m.store[id];
    assert NoFloat(task["status"]);
    ApplyFloatFree(task, IterationUpdates(task, r, log, ts), now);
  }

  /** An iteration keeps the invariant. */
  lemma UpdateInvestigationValid(m: Monitor, id: string, r: I.Reply, log: string, ts: string, now: string)
    requires Valid(m)
    ensures Valid(UpdateInvestigation(m, id, r, log, ts, now))
  {
    assert id in m.store ==> NoFloat(Dict(m.store[id]));
    UpdateInvestigationEffect(m, id, r, log, ts, now);
    if Writes(m, id) {
      var rec := IterationRecord(m, id, r, log, ts, now);
      IterationRecordFloatFree(m, id, r, log, ts, now);
      WriteValid(m, id, rec, m.cache[id := rec]);
    } else {
      GetTaskValid(m, id);
    }
  }

  /**
   * The record an iteration writes holds the next status, the appended log and
   * the write time, and otherwise the attributes the job had.
   */
  lemma IterationRecordSpec(m: Monitor, id: string, r: I.Reply, log: string, ts: string, now: string)
    requires Writes(m, id)
    ensures var t, task := IterationRecord(m, id, r, log, ts, now), m.store[id];
      && t["status"] == NextStatus(task["status"], r)
      && t["prompt"] == Str(L.AppendEntry(log, ts, r))
      && t["updated_at"] == Str(now)
      && (forall a :: a in task && a != "status" && a != "prompt" && a != "updated_at" ==> t[a] == task[a])
  {
  }

  /** The log a job's iteration starts from: its `prompt`, empty when absent, nothing when not a string. */
  function ScannedLog(job: Item): Option<string> {
    var v := if "prompt" in job then job["prompt"] else Str("");
    if v.Str? then Some(v.s) else None
  }

  /** The reply one iteration obtains for a log. */
  function IterationReply(cfg: Config, log: string): I.Reply {
    InvestigationReply(cfg, L.InvestigationPrompt(log), Iteration)
  }

  /**
   * The write half of an iteration, for a reply already obtained: an id that is
   * not a string names no job the reread can find, so nothing more happens.
   */
  function Iterate(m: Monitor, id: Value, r: I.Reply, log: string, ts: string, now: string): Monitor {
    if id.Str? then UpdateInvestigation(m, id.s, r, log, ts, now) else m
  }

  /**
   * `_process_investigation` for a job as the scan returned it: a log that is
   * not a string stops the iteration (the TypeError is caught); otherwise the
   * reply for the log is obtained and written.
   */
  function ProcessInvestigation(cfg: Config, m: Monitor, id: Value, job: Item, ts: string, now: string): Monitor {
    match ScannedLog(job)
    case None => m
    case Some(log) => Iterate(m, id, IterationReply(cfg, log), log, ts, now)
  }

  /**
   * For any reply, one iteration keeps the set of jobs, never touches another
   * job and never reopens a complete one.
   */
  lemma {:induction false} UpdateInvestigationSpec(m: Monitor, id: string, r: I.Reply, log: string, ts: string, now: string)
    requires id in m.store ==> NoFloat(Dict(m.store[id]))
    ensures var m' := UpdateInvestigation(m, id, r, log, ts, now);
      && m'.store.Keys == m.store.Keys
      && m'.notified == m.notified
      && (forall k :: k in m.store && k != id ==> m'.store[k] == m.store[k])
      && (forall k :: k in m.store && IsComplete(m.store[k]) ==> IsComplete(m'.store[k]))
  {
    var m' := UpdateInvestigation(m, id, r, log, ts, now);
    if Writes(m, id) {
      var rec := IterationRecord(m, id, r, log, ts, now);
      assert m'.store == m.store[id := rec] && m'.notified == m.notified by {
        UpdateInvestigationWrite(m, id, r, log, ts, now);
      }
      assert IsComplete(m.store[id]) ==> IsComplete(rec) by {
        IterationRecordSpec(m, id, r, log, ts, now);
      }
    } else {
      assert m' == GetTask(m, id).1;
    }
  }

  /** For any reply, the write half keeps the invariant and the set of jobs, touches only its job and reopens nothing. */
  lemma IterateSpec(m: Monitor, id: Value, r: I.Reply, log: string, ts: string, now: string)
    requires Valid(m)
    ensures var m' := Iterate(m, id, r, log, ts, now);
      && Valid(m')
      && m'.store.Keys == m.store.Keys
      && m'.notified == m.notified
      && (forall k :: k in m.store && Str(k) != id ==> m'.store[k] == m.store[k])
      && (forall k :: k in m.store && IsComplete(m.store[k]) ==> IsComplete(m'.store[k]))
  {
    if id.Str? {
      UpdateInvestigationValid(m, id.s, r, log, ts, now);
      assert id.s in m.store ==> NoFloat(Dict(m.store[id.s]));
      UpdateInvestigationSpec(m, id.s, r, log, ts, now);
    }
  }

  /**
   * One job's iteration keeps the invariant and the set of jobs, never touches
   * another job, and never reopens a complete one.
   */
  lemma ProcessInvestigationSpec(cfg: Config, m: Monitor, id: Value, job: Item, ts: string, now: string)
    requires Valid(m)
    ensures var m' := ProcessInvestigation(cfg, m, id, job, ts, now);
      && Valid(m')
      && m'.store.Keys == m.store.Keys
      && m'.notified == m.notified
      && (forall k :: k in m.store && Str(k) != id ==> m'.store[k] == m.store[k])
      && (forall k :: k in m.store && IsComplete(m.store[k]) ==> IsComplete(m'.store[k]))
  {
    if ScannedLog(job).Some? {
      var log := ScannedLog(job).value;
      IterateSpec(m, id, IterationReply(cfg, log), log, ts, now);
    }
  }

  /** For a `continuing` reply an iteration changes no job's status. */
  lemma ContinuingKeepsStatus(m: Monitor, id: string, r: I.Reply, log: string, ts: string, now: string)
    requires id in m.store ==> NoFloat(Dict(m.store[id]))
    requires r.status == I.Continuing
    ensures var m' := UpdateInvestigation(m, id, r, log, ts, now);
      forall k :: k in m.store && "status" in m.store[k] ==>
        k in m'.store && "status" in m'.store[k] && m'.store[k]["status"] == m.store[k]["status"]
  {
    UpdateInvestigationEffect(m, id, r, log, ts, now);
    if Writes(m, id) {
      IterationRecordSpec(m, id, r, log, ts, now);
    }
  }

  /** Without a working real backend, every job iteration's reply is `continuing`. */
  lemma {:induction false} SimulatedIterationContinues(cfg: Config, log: string)
    requires !UseRealBackend(cfg.useRealLlm) || forall p :: cfg.backend(p).Failed?
    ensures IterationReply(cfg, log).status == I.Continuing
  {
    var prompt := L.InvestigationPrompt(log);
    assert !UseRealBackend(cfg.useRealLlm) || cfg.backend(prompt).Failed?;
    SimulatorContinues(cfg, prompt, Iteration);
  }

  /** Every job of `m` that has a status still has it, unchanged, in `m'`. */
  predicate SameStatuses(m: Monitor, m': Monitor) {
    forall k :: k in m.store && "status" in m.store[k] ==>
      k in m'.store && "status" in m'.store[k] && m'.store[k]["status"] == m.store[k]["status"]
  }

  lemma SameStatusesTrans(a: Monitor, b: Monitor, c: Monitor)
    requires SameStatuses(a, b) && SameStatuses(b, c)
    ensures SameStatuses(a, c)
  {
  }

  /** The iteration of `job` falls back to the simulator: no real backend is selected, or it fails on the job's prompt. */
  predicate FallsBackToSimulator(cfg: Config, job: Item) {
    ScannedLog(job).Some? ==>
      !UseRealBackend(cfg.useRealLlm) || cfg.backend(L.InvestigationPrompt(ScannedLog(job).value)).Failed?
  }

  /** The write half of an iteration keeps every status for a `continuing` reply. */
  lemma IterateKeepsStatus(m: Monitor, id: Value, r: I.Reply, log: string, ts: string, now: string)
    requires Valid(m)
    requires r.status == I.Continuing
    ensures SameStatuses(m, Iterate(m, id, r, log, ts, now))
  {
    if id.Str? {
      assert id.s in m.store ==> NoFloat(Dict(m.store[id.s]));
      ContinuingKeepsStatus(m, id.s, r, log, ts, now);
    }
  }

  /** A job iteration that falls back to the simulator gets a `continuing` reply. */
  lemma FallbackContinues(cfg: Config, log: string)
    requires !UseRealBackend(cfg.useRealLlm) || cfg.backend(L.InvestigationPrompt(log)).Failed?
    ensures IterationReply(cfg, log).status == I.Continuing
  {
    SimulatorContinues(cfg, L.InvestigationPrompt(log), Iteration);
  }

  /**
   * A simulated job never completes by itself: when the iteration falls back to
   * the simulator, one job's iteration leaves every stored status as it was.
   */
  lemma {:induction false} SimulatedProcessKeepsStatus(cfg: Config, m: Monitor, id: Value, job: Item, ts: string, now: string)
    requires Valid(m)
    requires FallsBackToSimulator(cfg, job)
    ensures SameStatuses(m, ProcessInvestigation(cfg, m, id, job, ts, now))
  {
    match ScannedLog(job)
    case None =>
    case Some(log) =>
      FallbackContinues(cfg, log);
      IterateKeepsStatus(m, id, IterationReply(cfg, log), log, ts, now);
  }

  /** An iteration on a job whose stored log is `log` leaves exactly one entry appended to it. */
  lemma {:induction false} UpdateAppends(m: Monitor, id: string, r: I.Reply, log: string, ts: string, now: string)
    requires Writes(m, id) && NoFloat(Dict(m.store[id]))
    requires "prompt" in m.store[id] && m.store[id]["prompt"] == Str(log)
    ensures var m' := UpdateInvestigation(m, id, r, log, ts, now);
      id in m'.store && "prompt" in m'.store[id] && m'.store[id]["prompt"] == Str(log + L.Entry(ts, r))
  {
    UpdateInvestigationWrite(m, id, r, log, ts, now);
    IterationRecordSpec(m, id, r, log, ts, now);
  }

  /**
   * When the scanned log is the stored one, an iteration leaves the stored log
   * extended by exactly one entry, the one for its reply.
   */
  lemma IterationAppends(cfg: Config, m: Monitor, id: string, job: Item, ts: string, now: string)
    requires Writes(m, id) && NoFloat(Dict(m.store[id])) && ScannedLog(job).Some?
    requires "prompt" in m.store[id] && m.store[id]["prompt"] == Str(ScannedLog(job).value)
    ensures var log, m' := ScannedLog(job).value, ProcessInvestigation(cfg, m, Str(id), job, ts, now);
      && id in m'.store && "prompt" in m'.store[id]
      && m'.store[id]["prompt"] == Str(log + L.Entry(ts, IterationReply(cfg, log)))
  {
    var log := ScannedLog(job).value;
    UpdateAppends(m, id, IterationReply(cfg, log), log, ts, now);
  }

  /**
   * `_poll_active_investigations` on the first response of the scan for open
   * jobs: the jobs are taken in order until one lacks a `job_id`, whose KeyError
   * ends the tick. `clock` gives the successive clock readings; job `i` uses
   * readings `2i` and `2i + 1`. Returns the monitor and the ids taken.
   */
  method MasterPoll(cfg: Config, m: Monitor, first: P.Page, clock: nat -> string)
    returns (m': Monitor, ids: seq<Value>)
    requires Valid(m)
    ensures Valid(m')
    ensures m'.store.Keys == m.store.Keys && m'.notified == m.notified
    ensures |ids| <= |first.items|
    ensures forall i :: 0 <= i < |ids| ==> "job_id" in first.items[i] && ids[i] == first.items[i]["job_id"]
    ensures |ids| < |first.items| ==> "job_id" !in first.items[|ids|]
    ensures forall k :: k in m.store && Str(k) !in ids ==> m'.store[k] == m.store[k]
    ensures forall k :: k in m.store && IsComplete(m.store[k]) ==> IsComplete(m'.store[k])
    ensures !UseRealBackend(cfg.useRealLlm) ==> SameStatuses(m, m')
  {
    m' := m;
    ids := [];
    var jobs := first.items;
    var i := 0;
    while i < |jobs| && "job_id" in jobs[i]
      invariant 0 <= i <= |jobs| && |ids| == i
      invariant Valid(m')
      invariant m'.store.Keys == m.store.Keys && m'.notified == m.notified
      invariant forall j :: 0 <= j < i ==> "job_id" in jobs[j] && ids[j] == jobs[j]["job_id"]
      invariant forall k :: k in m.store && Str(k) !in ids ==> m'.store[k] == m.store[k]
      invariant forall k :: k in m.store && IsComplete(m.store[k]) ==> IsComplete(m'.store[k])
      invariant !UseRealBackend(cfg.useRealLlm) ==> SameStatuses(m, m')
    {
      var id := jobs[i]["job_id"];
      ProcessInvestigationSpec(cfg, m', id, jobs[i], clock(2 * i), clock(2 * i + 1));
      var next := ProcessInvestigation(cfg, m', id, jobs[i], clock(2 * i), clock(2 * i + 1));
      if !UseRealBackend(cfg.useRealLlm) {
        SimulatedProcessKeepsStatus(cfg, m', id, jobs[i], clock(2 * i), clock(2 * i + 1));
        SameStatusesTrans(m, m', next);
      }
      m' := next;
      ids := ids + [id];
      i := i + 1;
    }
  }
}
