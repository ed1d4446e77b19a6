/**
 * rssbox/modules/heartbeat.py: a worker announces that it is alive by upserting its
 * document in the `workers` collection with the current time, once at start and then
 * every 30 seconds from a scheduled job. The clock is a parameter; of the scheduler
 * only its table of jobs is modelled.
 */
module Heartbeats {
  import opened Common
  import opened Store

  /** The interval of the heartbeat job, in seconds. */
  const Interval: int := 30

  const Prefix: string := "heartbeat-"

  /** `heartbeat_id`: the scheduler job id of worker `id`. */
  function HeartbeatId(id: Id): (r: string)
    ensures |r| == |Prefix| + |id|
    ensures r[..|Prefix|] == Prefix && r[|Prefix|..] == id
  {
    Prefix + id
  }

  /** Distinct workers get distinct job ids. */
  lemma HeartbeatIdInjective(a: Id, b: Id)
    requires HeartbeatId(a) == HeartbeatId(b)
    ensures a == b
  {
    assert a == HeartbeatId(a)[|Prefix|..];
  }

  /** `heartbeat()` on the workers collection: an upsert of `last_heartbeat` for `id` alone. */
  function Beaten(workers: map<Id, Worker>, id: Id, now: int): (r: map<Id, Worker>)
    ensures r.Keys == workers.Keys + {id}
    ensures r[id] == Worker(now)
    ensures forall k :: k in workers && k != id ==> r[k] == workers[k]
  {
    workers[id := Worker(now)]
  }

  /** `delete_one({"_id": id})` on the workers collection. */
  function Removed(workers: map<Id, Worker>, id: Id): (r: map<Id, Worker>)
    ensures r.Keys == workers.Keys - {id}
    ensures forall k :: k in r ==> r[k] == workers[k]
  {
    workers - {id}
  }

  /** A scheduled job: the worker whose `heartbeat` it calls, and its interval. */
  datatype Job = Job(worker: Id, seconds: int)

  /** The scheduler's jobs, by job id. */
  class Scheduler {
    var jobs: map<string, Job>

    constructor (jobs: map<string, Job>)
      ensures this.jobs == jobs
    {
      this.jobs := jobs;
    }
  }

  class Heartbeat {
    const id: Id
    const db: Database
    const scheduler: Scheduler

    /**
     * `Heartbeat(id, client, scheduler)`: `start_heartbeat()` beats once, so the
     * worker's document exists when construction returns, then schedules the beat
     * every 30 seconds under `heartbeat_id`. The scheduler refuses a second job with
     * the same id, which is why a free id is required.
     */
    constructor (id: Id, db: Database, scheduler: Scheduler, now: int)
      requires HeartbeatId(id) !in scheduler.jobs
      modifies db`workers, scheduler`jobs
      ensures this.id == id && this.db == db && this.scheduler == scheduler
      ensures db.workers == Beaten(old(db.workers), id, now)
      ensures id in db.workers && db.workers[id].lastHeartbeat == now
      ensures scheduler.jobs == old(scheduler.jobs)[HeartbeatId(id) := Job(id, Interval)]
    {
      this.id := id;
      this.db := db;
      this.scheduler := scheduler;
      new;
      StartHeartbeat(now);
    }

    /** `start_heartbeat()`: one beat now, then the job. */
    method StartHeartbeat(now: int)
      requires HeartbeatId(id) !in scheduler.jobs
      modifies db`workers, scheduler`jobs
      ensures db.workers == Beaten(old(db.workers), id, now)
      ensures scheduler.jobs == old(scheduler.jobs)[HeartbeatId(id) := Job(id, Interval)]
    {
      Beat(now);
      scheduler.jobs := scheduler.jobs[HeartbeatId(id) := Job(id, Interval)];
    }

    /** `heartbeat()`: this worker's `last_heartbeat` becomes `now`; no other worker changes. */
    method Beat(now: int)
      modifies db`workers
      ensures db.workers == Beaten(old(db.workers), id, now)
    {
      db.workers := db.workers[id := Worker(now)];
    }

    /**
     * `stop_heartbeat()`: the job is removed, then this worker's document is deleted.
     * Removing a job that is not scheduled raises (JobLookupError) before the delete.
     */
    method StopHeartbeat() returns (ok: bool)
      modifies db`workers, scheduler`jobs
      ensures ok <==> HeartbeatId(id) in old(scheduler.jobs)
      ensures ok ==> scheduler.jobs == old(scheduler.jobs) - {HeartbeatId(id)} &&
                     db.workers == Removed(old(db.workers), id)
      ensures !ok ==> scheduler.jobs == old(scheduler.jobs) && db.workers == old(db.workers)
    {
      ok := HeartbeatId(id) in scheduler.jobs;
      if ok {
        scheduler.jobs := scheduler.jobs - {HeartbeatId(id)};
        db.workers := db.workers - {id};
      }
    }
  }
}
