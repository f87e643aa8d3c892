/**
 Admission of run requests (peserver/src/lb.rs, peserver/src/worker.rs, perunner/src/worker.rs): the
 balancer's and the worker's semaphores, the bounded queue, and the pool threads, as steps that may
 interleave in any way, clients that give up included.
 */
module Admission {
  import opened Bytes

  type Id = nat

  /** Where a request stands while its client waits for it. */
  datatype Phase = Waiting | Admitted | Submitted | Replied

  datatype Config = Config(threads: nat, balancerMax: nat) {
    /** `max_conn` of the worker, and the capacity of its queue. */
    function MaxConn(): nat {
      2 * threads
    }
  }

  /**
   Requests whose client still waits are in `phases` and hold a balancer permit, and from `Admitted` on
   a worker permit. A job in the queue or on a thread that is not in `phases` was abandoned.
   */
  datatype State = State(
    balancerFree: nat, workerFree: nat, advertised: nat, phases: map<Id, Phase>, queue: seq<Id>,
    running: map<nat, Id>, exited: set<nat>, arrived: set<Id>, submitted: set<Id>, replies: map<Id, nat>)

  function Initial(c: Config): State {
    State(c.balancerMax, 0, 0, map[], [], map[], {}, {}, {}, map[])
  }

  datatype Step =
    | Advertise             // the balancer learns the worker's limit
    | Arrive(id: Id)        // a request that gets a balancer permit
    | GiveUp(id: Id)        // no worker permit within the timeout
    | Admit(id: Id)         // a worker permit: the request is forwarded
    | Refuse(id: Id)        // the worker answers with an error before submitting
    | Submit(id: Id)        // into the queue
    | Take(thread: nat)     // a thread takes the first job
    | Reply(thread: nat)    // the job is done and its result sent
    | Respond(id: Id)       // the client has its answer
    | Abandon(id: Id)       // the client goes away

  function Release(s: State, id: Id): State
    requires id in s.phases
  {
    s.(phases := s.phases - {id}, balancerFree := s.balancerFree + 1,
       workerFree := if s.phases[id].Waiting? then s.workerFree else s.workerFree + 1)
  }

  function Apply(c: Config, s: State, step: Step): Option<State> {
    match step
    case Advertise =>
      if s.advertised == 0 then Some(s.(advertised := c.MaxConn(), workerFree := s.workerFree + c.MaxConn())) else None
    case Arrive(id) =>
      if s.balancerFree > 0 && id !in s.arrived then
        Some(Entered(s, id))
      else None
    case GiveUp(id) => if InPhase(s, id, Waiting) then Some(Release(s, id)) else None
    case Admit(id) =>
      if InPhase(s, id, Waiting) && s.workerFree > 0 then
        Some(Forwarded(s, id))
      else None
    case Refuse(id) => if InPhase(s, id, Admitted) then Some(Release(s, id)) else None
    case Submit(id) =>
      if InPhase(s, id, Admitted) then
        // a full queue is an error to the client
        if |s.queue| < c.MaxConn() then Some(Enqueued(s, id)) else Some(Release(s, id))
      else None
    case Take(t) =>
      if t < c.threads && t !in s.running && t !in s.exited && s.queue != [] then
        Some(s.(queue := s.queue[1..], running := s.running[t := s.queue[0]]))
      else None
    case Reply(t) => if t in s.running then Some(Answered(s, t)) else None
    case Respond(id) => if InPhase(s, id, Replied) then Some(Release(s, id)) else None
    case Abandon(id) => if id in s.phases then Some(Release(s, id)) else None
  }

  function Entered(s: State, id: Id): State
    requires s.balancerFree > 0
  {
    s.(balancerFree := s.balancerFree - 1, phases := s.phases[id := Waiting], arrived := s.arrived + {id})
  }

  function Forwarded(s: State, id: Id): State
    requires s.workerFree > 0
  {
    s.(workerFree := s.workerFree - 1, phases := s.phases[id := Admitted])
  }

  function Enqueued(s: State, id: Id): State {
    s.(queue := s.queue + [id], phases := s.phases[id := Submitted], submitted := s.submitted + {id})
  }

  predicate InPhase(s: State, id: Id, p: Phase) {
    id in s.phases && s.phases[id] == p
  }

  /** A thread sends its result; when nobody listens it ends. */
  function Answered(s: State, t: nat): State
    requires t in s.running
  {
    var id := s.running[t];
    if id in s.phases then
      s.(running := s.running - {t}, phases := s.phases[id := Replied],
         replies := s.replies[id := (if id in s.replies then s.replies[id] else 0) + 1])
    else s.(running := s.running - {t}, exited := s.exited + {t})
  }

  // ---------- the invariant ----------

  /** Requests that hold a worker permit. */
  function Holding(s: State): set<Id> {
    Holders(s.phases)
  }

  function Holders(phases: map<Id, Phase>): set<Id> {
    set id | id in phases && !phases[id].Waiting?
  }

  /** Every permit is free or held by exactly one request. */
  predicate PermitsConserved(c: Config, s: State) {
    && s.balancerFree + |s.phases| == c.balancerMax
    && s.workerFree + |Holding(s)| == s.advertised <= c.MaxConn()
  }

  /** The job is in the queue or on a thread. */
  predicate AtWorker(s: State, id: Id) {
    id in s.queue || exists t :: t in s.running && s.running[t] == id
  }

  /** What holds of each request. */
  predicate RequestOk(s: State, id: Id) {
    && (id in s.phases || AtWorker(s, id) || id in s.replies ==> id in s.arrived)
    && (id in s.phases ==> (s.phases[id].Submitted? <==> AtWorker(s, id)))
    && (id in s.phases ==> (id in s.replies <==> s.phases[id].Replied?))
    && (AtWorker(s, id) ==> id !in s.replies)
    && (id in s.replies ==> s.replies[id] == 1)
  }

  predicate NoRepeats(q: seq<Id>) {
    forall i, j :: 0 <= i < j < |q| ==> q[i] != q[j]
  }

  /** A job is in one place only. */
  predicate JobsOk(s: State) {
    && NoRepeats(s.queue)
    && (forall t :: t in s.running ==> s.running[t] !in s.queue)
    && (forall t, u :: t in s.running && u in s.running && s.running[t] == s.running[u] ==> t == u)
  }

  /** Threads that run a job or have ended are threads of the pool, and none does both. */
  predicate ThreadsOk(c: Config, s: State) {
    && (forall t :: t in s.running ==> t < c.threads && t !in s.exited)
    && (forall t :: t in s.exited ==> t < c.threads)
  }

  ghost predicate Invariant(c: Config, s: State) {
    PermitsConserved(c, s) && JobsOk(s) && ThreadsOk(c, s) && forall id :: RequestOk(s, id)
  }

  // ---------- every step keeps it ----------

  lemma ReleaseKeepsPermits(c: Config, s: State, id: Id)
    requires PermitsConserved(c, s) && id in s.phases
    ensures PermitsConserved(c, Release(s, id))
  {
    var s' := Release(s, id);
    assert s'.phases.Keys == s.phases.Keys - {id};
    assert Holding(s') == Holding(s) - {id};
  }

  lemma PermitsKept(c: Config, s: State, step: Step)
    requires Invariant(c, s) && Apply(c, s, step).Some?
    ensures PermitsConserved(c, Apply(c, s, step).value)
  {
    hide JobsOk, AtWorker, PermitsConserved, Release, Enqueued, Answered;
    match step
    case Advertise => AdvertiseKeeps(c, s);
    case Arrive(id) =>
      assert RequestOk(s, id);
      ArriveKeeps(c, s, id);
    case Admit(id) => AdmitKeeps(c, s, id);
    case Submit(id) =>
      EnqueueKeeps(c, s, id);
      ReleaseKeepsPermits(c, s, id);
    case Take(_) => QueueKeeps(c, s, Apply(c, s, step).value);
    case Reply(t) => AnswerKeepsPermits(c, s, t);
    case GiveUp(id) => ReleaseKeepsPermits(c, s, id);
    case Refuse(id) => ReleaseKeepsPermits(c, s, id);
    case Respond(id) => ReleaseKeepsPermits(c, s, id);
    case Abandon(id) => ReleaseKeepsPermits(c, s, id);
  }

  lemma AdvertiseKeeps(c: Config, s: State)
    requires PermitsConserved(c, s) && s.advertised == 0
    ensures PermitsConserved(c, s.(advertised := c.MaxConn(), workerFree := s.workerFree + c.MaxConn()))
  {
    hide Holders;
  }

  lemma ArriveKeeps(c: Config, s: State, id: Id)
    requires PermitsConserved(c, s) && s.balancerFree > 0 && id !in s.phases
    ensures PermitsConserved(c, Entered(s, id))
  {
    hide Holders;
    PhaseChange(s.phases, id, Waiting);
    assert Holding(s) - {id} == Holding(s);
  }

  lemma AdmitKeeps(c: Config, s: State, id: Id)
    requires PermitsConserved(c, s) && InPhase(s, id, Waiting) && s.workerFree > 0
    ensures PermitsConserved(c, Forwarded(s, id))
  {
    hide Holders;
    PhaseChange(s.phases, id, Admitted);
  }

  lemma EnqueueKeeps(c: Config, s: State, id: Id)
    requires PermitsConserved(c, s) && InPhase(s, id, Admitted)
    ensures PermitsConserved(c, Enqueued(s, id))
  {
    hide Holders;
    PhaseChange(s.phases, id, Submitted);
    assert Holding(s) + {id} == Holding(s);
  }

  lemma QueueKeeps(c: Config, s: State, s': State)
    requires PermitsConserved(c, s) && s'.phases == s.phases && s'.balancerFree == s.balancerFree
    requires s'.workerFree == s.workerFree && s'.advertised == s.advertised
    ensures PermitsConserved(c, s')
  {
    hide Holders;
  }

  lemma PhaseChange(phases: map<Id, Phase>, id: Id, p: Phase)
    ensures |phases[id := p]| == |phases| + (if id in phases then 0 else 1)
    ensures Holders(phases[id := p]) == if p.Waiting? then Holders(phases) - {id} else Holders(phases) + {id}
    ensures id in Holders(phases) <==> id in phases && !phases[id].Waiting?
  {
    KeysAfter(phases, id, p);
  }

  lemma KeysAfter<K, V>(m: map<K, V>, k: K, v: V)
    ensures |m[k := v]| == |m| + (if k in m then 0 else 1)
  {
    assert m[k := v].Keys == m.Keys + {k};
  }

  lemma KeysWithout<K, V>(m: map<K, V>, k: K)
    requires k in m
    ensures |m - {k}| == |m| - 1
  {
    assert (m - {k}).Keys == m.Keys - {k};
  }

  lemma AnswerKeepsPermits(c: Config, s: State, t: nat)
    requires PermitsConserved(c, s) && t in s.running && RequestOk(s, s.running[t])
    ensures PermitsConserved(c, Answered(s, t))
  {
    var id, s' := s.running[t], Answered(s, t);
    assert AtWorker(s, id);
    if id in s.phases {
      assert s'.phases.Keys == s.phases.Keys;
    }
    assert Holding(s') == Holding(s);
  }

  lemma JobsKept(c: Config, s: State, step: Step)
    requires Invariant(c, s) && Apply(c, s, step).Some?
    ensures JobsOk(Apply(c, s, step).value)
  {
    hide PermitsConserved;
    var s' := Apply(c, s, step).value;
    match step
    case Submit(id) => assert RequestOk(s, id);
    case Take(t) =>
      forall i, j | 0 <= i < j < |s'.queue| ensures s'.queue[i] != s'.queue[j] {
        assert s.queue[i + 1] != s.queue[j + 1];
      }
      forall u | u in s'.running ensures s'.running[u] !in s'.queue {
        assert u != t ==> s.running[u] !in s.queue;
        forall i | 0 <= i < |s'.queue| ensures s'.queue[i] != s'.running[u] {
          assert s.queue[0] != s.queue[i + 1];
        }
      }
    case _ =>
  }

  lemma ThreadsKept(c: Config, s: State, step: Step)
    requires ThreadsOk(c, s) && Apply(c, s, step).Some?
    ensures ThreadsOk(c, Apply(c, s, step).value)
  {
  }

  lemma RequestKept(c: Config, s: State, step: Step, id: Id)
    requires Invariant(c, s) && Apply(c, s, step).Some?
    ensures RequestOk(Apply(c, s, step).value, id)
  {
    hide PermitsConserved, AtWorker, JobsOk, ThreadsOk;
    assert RequestOk(s, id);
    match step
    case Submit(k) =>
      assert RequestOk(s, k);
      SubmitKept(s, k, id);
      SameWorker(s, Release(s, k), id);
      OthersKept(s, Release(s, k), id);
    case Take(t) =>
      WorkerAfterTake(s, t, id);
      OthersKept(s, Apply(c, s, step).value, id);
    case Reply(t) =>
      assert RequestOk(s, s.running[t]);
      ReplyKept(s, t, id);
    case _ =>
      SameWorker(s, Apply(c, s, step).value, id);
      OthersKept(s, Apply(c, s, step).value, id);
  }

  /** A step that leaves the jobs where they are, and a request's phase on the same side of the worker. */
  lemma OthersKept(s: State, s': State, id: Id)
    requires RequestOk(s, id) && (AtWorker(s', id) <==> AtWorker(s, id)) && s'.replies == s.replies
    requires id in s.arrived ==> id in s'.arrived
    requires id in s'.phases && id !in s.phases ==> id !in s.arrived && id in s'.arrived && s'.phases[id].Waiting?
    requires id in s'.phases && id in s.phases ==>
      (s'.phases[id].Submitted? <==> s.phases[id].Submitted?) && (s'.phases[id].Replied? <==> s.phases[id].Replied?)
    ensures RequestOk(s', id)
  {
    hide AtWorker;
  }

  lemma SubmitKept(s: State, k: Id, id: Id)
    requires RequestOk(s, id) && RequestOk(s, k) && InPhase(s, k, Admitted)
    ensures RequestOk(Enqueued(s, k), id)
  {
    hide AtWorker;
    WorkerAfterSubmit(s, k, id);
  }

  lemma ReplyKept(s: State, t: nat, id: Id)
    requires RequestOk(s, id) && t in s.running && RequestOk(s, s.running[t]) && JobsOk(s)
    ensures RequestOk(Answered(s, t), id)
  {
    hide AtWorker, JobsOk;
    WorkerAfterReply(s, t, id);
    AnsweredFields(s, t);
  }

  lemma WorkerAfterSubmit(s: State, k: Id, id: Id)
    ensures AtWorker(Enqueued(s, k), id) <==> AtWorker(s, id) || id == k
  {
  }

  lemma WorkerAfterTake(s: State, t: nat, id: Id)
    requires s.queue != [] && t !in s.running
    ensures AtWorker(s.(queue := s.queue[1..], running := s.running[t := s.queue[0]]), id) <==> AtWorker(s, id)
  {
    var s' := s.(queue := s.queue[1..], running := s.running[t := s.queue[0]]);
    assert s'.running[t] == s.queue[0];
    assert s.queue == [s.queue[0]] + s.queue[1..];
    if u :| u in s.running && s.running[u] == id { assert s'.running[u] == id; }
  }

  lemma WorkerAfterReply(s: State, t: nat, id: Id)
    requires JobsOk(s) && t in s.running
    ensures AtWorker(Answered(s, t), id) <==> AtWorker(s, id) && id != s.running[t]
  {
    var s' := Answered(s, t);
    if u :| u in s.running && s.running[u] == id && u != t { assert s'.running[u] == id; }
  }

  lemma StepKeeps(c: Config, s: State, step: Step)
    requires Invariant(c, s) && Apply(c, s, step).Some?
    ensures Invariant(c, Apply(c, s, step).value)
  {
    hide Apply, RequestOk, ThreadsOk;
    PermitsKept(c, s, step);
    JobsKept(c, s, step);
    ThreadsKept(c, s, step);
    forall id ensures RequestOk(Apply(c, s, step).value, id) { RequestKept(c, s, step, id); }
  }

  // ---------- whole runs ----------

  function Run(c: Config, steps: seq<Step>): Option<State> {
    if steps == [] then Some(Initial(c))
    else
      match Run(c, steps[..|steps| - 1])
      case None => None
      case Some(s) => Apply(c, s, steps[|steps| - 1])
  }

  /** In every reachable state permits are conserved and every job is in one place with at most one reply. */
  lemma {:induction false} AlwaysInvariant(c: Config, steps: seq<Step>)
    requires Run(c, steps).Some?
    ensures Invariant(c, Run(c, steps).value)
  {
    hide Apply;
    if steps == [] {
      InitialInvariant(c);
    } else {
      var n := |steps| - 1;
      AlwaysInvariant(c, steps[..n]);
      StepKeeps(c, Run(c, steps[..n]).value, steps[n]);
    }
  }

  lemma InitialInvariant(c: Config)
    ensures Invariant(c, Initial(c))
  {
    assert Holding(Initial(c)) == {};
  }

  /** Requests in flight never exceed two for each thread, nor all requests the balancer's limit. */
  lemma NeverTooMany(c: Config, steps: seq<Step>)
    requires Run(c, steps).Some?
    ensures var s := Run(c, steps).value; |Holding(s)| <= 2 * c.threads && |s.phases| <= c.balancerMax
  {
    AlwaysInvariant(c, steps);
  }

  /** The job was submitted by a client that has gone away. */
  predicate Abandoned(s: State, id: Id) {
    AtWorker(s, id) && id !in s.phases
  }

  function Jobs(q: seq<Id>): set<Id> {
    set x | x in q
  }

  /** A request finds the queue full only when an abandoned job is in it. */
  lemma FullOnlyIfAbandoned(c: Config, s: State, id: Id)
    requires Invariant(c, s) && InPhase(s, id, Admitted) && |s.queue| >= c.MaxConn()
    ensures exists i :: 0 <= i < |s.queue| && Abandoned(s, s.queue[i])
  {
    if forall i :: 0 <= i < |s.queue| ==> !Abandoned(s, s.queue[i]) {
      var jobs := Jobs(s.queue);
      JobsCounted(s.queue);
      forall x | x in jobs ensures x in Holding(s) && x != id {
        assert RequestOk(s, x) && RequestOk(s, id) && AtWorker(s, x);
      }
      Smaller(jobs + {id}, Holding(s));
      assert false;
    }
  }

  lemma Smaller(a: set<Id>, b: set<Id>)
    requires a <= b
    ensures |a| <= |b|
  {
    assert b == a + (b - a);
  }

  lemma {:induction false} JobsCounted(q: seq<Id>)
    requires NoRepeats(q)
    ensures |Jobs(q)| == |q|
  {
    if q != [] {
      var rest := q[1..];
      forall i, j | 0 <= i < j < |rest| ensures rest[i] != rest[j] { assert q[i + 1] != q[j + 1]; }
      JobsCounted(rest);
      forall i | 0 <= i < |rest| ensures rest[i] != q[0] { assert q[i + 1] != q[0]; }
      assert Jobs(q) == {q[0]} + Jobs(rest);
    }
  }

  // ---------- when no client goes away ----------

  predicate NobodyLeaves(steps: seq<Step>) {
    forall i :: 0 <= i < |steps| ==> !steps[i].Abandon?
  }

  /** Every submitted job is still at the worker or has its reply; no thread has ended. */
  ghost predicate Attended(s: State) {
    s.exited == {} && forall id :: RequestAttended(s, id)
  }

  predicate RequestAttended(s: State, id: Id) {
    !Abandoned(s, id) && (id in s.submitted ==> AtWorker(s, id) || id in s.replies)
  }

  lemma NoneAbandoned(s: State)
    requires Attended(s)
    ensures forall id :: !Abandoned(s, id)
  {
    forall id ensures !Abandoned(s, id) { assert RequestAttended(s, id); }
  }

  lemma SameWorker(s: State, s': State, id: Id)
    requires s'.queue == s.queue && s'.running == s.running
    ensures AtWorker(s', id) <==> AtWorker(s, id)
  {
  }

  lemma AttendedKept(c: Config, s: State, step: Step)
    requires Invariant(c, s) && Attended(s) && Apply(c, s, step).Some? && !step.Abandon?
    ensures Attended(Apply(c, s, step).value)
  {
    hide PermitsConserved, JobsOk;
    var s' := Apply(c, s, step).value;
    forall id ensures RequestAttended(s', id) {
      assert RequestOk(s, id) && RequestAttended(s, id);
      match step
      case Submit(k) => WorkerAfterSubmit(s, k, id);
      case Take(t) => WorkerAfterTake(s, t, id);
      case Reply(t) => WorkerAfterReply(s, t, id); assert AtWorker(s, s.running[t]) && RequestAttended(s, s.running[t]);
      case _ => SameWorker(s, s', id);
    }
    if step.Reply? { assert AtWorker(s, s.running[step.thread]) && RequestAttended(s, s.running[step.thread]); }
  }

  lemma {:induction false} AlwaysAttended(c: Config, steps: seq<Step>)
    requires Run(c, steps).Some? && NobodyLeaves(steps)
    ensures Invariant(c, Run(c, steps).value) && Attended(Run(c, steps).value)
  {
    hide Apply, Invariant;
    AlwaysInvariant(c, steps);
    if steps != [] {
      var n := |steps| - 1;
      AlwaysAttended(c, steps[..n]);
      AttendedKept(c, Run(c, steps[..n]).value, steps[n]);
    }
  }

  /** With no client going away, a request never finds the queue full. */
  lemma QueueNeverFull(c: Config, steps: seq<Step>, id: Id)
    requires Run(c, steps).Some? && NobodyLeaves(steps) && InPhase(Run(c, steps).value, id, Admitted)
    ensures |Run(c, steps).value.queue| < c.MaxConn()
  {
    AlwaysAttended(c, steps);
    var s := Run(c, steps).value;
    NoneAbandoned(s);
    if |s.queue| >= c.MaxConn() {
      FullOnlyIfAbandoned(c, s, id);
    }
  }

  /** With no client going away, a submitted job that has left the worker has got exactly one reply. */
  lemma OneReplyEach(c: Config, steps: seq<Step>, id: Id)
    requires Run(c, steps).Some? && NobodyLeaves(steps) && id in Run(c, steps).value.submitted
    ensures var s := Run(c, steps).value; AtWorker(s, id) || (id in s.replies && s.replies[id] == 1)
  {
    AlwaysAttended(c, steps);
    assert RequestOk(Run(c, steps).value, id) && RequestAttended(Run(c, steps).value, id);
  }

  /** The state after more steps. */
  function Continue(c: Config, s: State, steps: seq<Step>): Option<State>
    decreases |steps|
  {
    if steps == [] then Some(s)
    else
      match Apply(c, s, steps[0])
      case None => None
      case Some(next) => Continue(c, next, steps[1..])
  }

  predicate OnlyThreads(steps: seq<Step>) {
    forall i :: 0 <= i < |steps| ==> steps[i].Take? || steps[i].Reply?
  }

  // ---------- when clients go away ----------

  /** Jobs in the queue or on a thread. */
  function WorkerJobs(s: State): set<Id> {
    Jobs(s.queue) + s.running.Values
  }

  /** Jobs at the worker whose client has gone away. */
  function AbandonedJobs(s: State): set<Id> {
    WorkerJobs(s) - s.phases.Keys
  }

  /** Threads that have ended, and jobs that will end one. */
  function Losses(s: State): nat {
    |s.exited| + |AbandonedJobs(s)|
  }

  lemma WorkerJobsAre(s: State, id: Id)
    ensures id in WorkerJobs(s) <==> AtWorker(s, id)
  {
    if t :| t in s.running && s.running[t] == id { assert id in s.running.Values; }
  }

  /** Losses grow only when a client goes away whose job is at the worker. */
  lemma LossesStep(c: Config, s: State, step: Step)
    requires Invariant(c, s) && Apply(c, s, step).Some?
    ensures Losses(Apply(c, s, step).value)
            == Losses(s) + (if step.Abandon? && InPhase(s, step.id, Submitted) then 1 else 0)
  {
    hide PermitsConserved, JobsOk, ThreadsOk, RequestOk, Losses, Release, Answered, Enqueued;
    match step
    case Abandon(id) =>
      assert RequestOk(s, id);
      AbandonLoss(s, id);
    case Reply(t) => AnswerLoss(c, s, t);
    case _ => LossesKept(c, s, step);
  }

  lemma LossesKept(c: Config, s: State, step: Step)
    requires Invariant(c, s) && Apply(c, s, step).Some? && !step.Abandon? && !step.Reply?
    ensures Losses(Apply(c, s, step).value) == Losses(s)
  {
    hide Invariant, AbandonedJobs, InPhase;
    var s' := Apply(c, s, step).value;
    forall k ensures k in AbandonedJobs(s') <==> k in AbandonedJobs(s) { LossKept(c, s, step, k); }
    assert AbandonedJobs(s') == AbandonedJobs(s);
  }

  lemma LossKept(c: Config, s: State, step: Step, id: Id)
    requires Invariant(c, s) && Apply(c, s, step).Some? && !step.Abandon? && !step.Reply?
    ensures id in AbandonedJobs(Apply(c, s, step).value) <==> id in AbandonedJobs(s)
  {
    hide PermitsConserved, JobsOk, WorkerJobs, AtWorker;
    var s' := Apply(c, s, step).value;
    assert RequestOk(s, id);
    WorkerJobsAre(s, id);
    WorkerJobsAre(s', id);
    match step
    case Submit(k) =>
      WorkerAfterSubmit(s, k, id);
      SameWorker(s, Release(s, k), id);
    case Take(t) => WorkerAfterTake(s, t, id);
    case _ => SameWorker(s, s', id);
  }

  lemma AbandonLoss(s: State, id: Id)
    requires id in s.phases && RequestOk(s, id)
    ensures Losses(Release(s, id)) == Losses(s) + (if InPhase(s, id, Submitted) then 1 else 0)
  {
    hide AtWorker, WorkerJobs;
    var s' := Release(s, id);
    WorkerJobsAre(s, id);
    SameJobs(s, s');
    var jobs := WorkerJobs(s);
    assert s'.phases.Keys == s.phases.Keys - {id};
    assert jobs - s'.phases.Keys == jobs - s.phases.Keys + (if id in jobs then {id} else {});
  }

  lemma SameJobs(s: State, s': State)
    requires s'.queue == s.queue && s'.running == s.running
    ensures WorkerJobs(s') == WorkerJobs(s)
  {
  }

  lemma AnswerLoss(c: Config, s: State, t: nat)
    requires JobsOk(s) && ThreadsOk(c, s) && t in s.running
    ensures Losses(Answered(s, t)) == Losses(s)
  {
    hide AbandonedJobs, Answered, AtWorker, JobsOk;
    var id, jobs := s.running[t], AbandonedJobs(s);
    AnsweredFields(s, t);
    AnsweredJobs(s, t);
    assert |jobs - {id}| == |jobs| - (if id in jobs then 1 else 0);
  }

  lemma AnsweredJobs(s: State, t: nat)
    requires JobsOk(s) && t in s.running
    ensures AbandonedJobs(Answered(s, t)) == AbandonedJobs(s) - {s.running[t]}
    ensures s.running[t] in AbandonedJobs(s) <==> s.running[t] !in s.phases
  {
    hide WorkerJobs, Answered, AtWorker, JobsOk;
    var id, s' := s.running[t], Answered(s, t);
    AnsweredFields(s, t);
    forall k ensures k in AbandonedJobs(s') <==> k in AbandonedJobs(s) && k != id {
      WorkerJobsAre(s, k);
      WorkerJobsAre(s', k);
      WorkerAfterReply(s, t, k);
    }
    WorkerJobsAre(s, id);
  }

  lemma AnsweredFields(s: State, t: nat)
    requires t in s.running
    ensures Answered(s, t).phases.Keys == s.phases.Keys && AtWorker(s, s.running[t])
    ensures Answered(s, t).running == s.running - {t} && Answered(s, t).queue == s.queue
    ensures Answered(s, t).exited == if s.running[t] in s.phases then s.exited else s.exited + {t}
  {
  }

  function Abandons(steps: seq<Step>): nat {
    if steps == [] then 0
    else Abandons(steps[..|steps| - 1]) + (if steps[|steps| - 1].Abandon? then 1 else 0)
  }

  /** In every run no more threads have ended than clients have gone away. */
  lemma {:induction false} EndedAtMostAbandoned(c: Config, steps: seq<Step>)
    requires Run(c, steps).Some?
    ensures Losses(Run(c, steps).value) <= Abandons(steps)
    ensures |Run(c, steps).value.exited| <= Abandons(steps)
  {
    hide Apply, Invariant, AbandonedJobs;
    if steps == [] {
      NoLossYet(c);
    } else {
      var n := |steps| - 1;
      EndedAtMostAbandoned(c, steps[..n]);
      AlwaysInvariant(c, steps[..n]);
      LossesStep(c, Run(c, steps[..n]).value, steps[n]);
    }
  }

  lemma NoLossYet(c: Config)
    ensures Losses(Initial(c)) == 0
  {
    assert AbandonedJobs(Initial(c)) == {};
  }

  predicate AllEnded(c: Config, s: State) {
    forall t :: 0 <= t < c.threads ==> t in s.exited
  }

  function FirstThreads(n: nat): (r: set<nat>)
    ensures |r| == n && forall t :: t in r <==> 0 <= t < n
  {
    if n == 0 then {} else FirstThreads(n - 1) + {n - 1}
  }

  /** Once all threads have ended nothing that happens later adds a reply. */
  lemma {:induction false} NoMoreReplies(c: Config, s: State, steps: seq<Step>)
    requires Invariant(c, s) && AllEnded(c, s) && Continue(c, s, steps).Some?
    ensures Continue(c, s, steps).value.replies == s.replies && AllEnded(c, Continue(c, s, steps).value)
    decreases |steps|
  {
    hide PermitsConserved, JobsOk, RequestOk;
    if steps != [] {
      StepKeeps(c, s, steps[0]);
      NoMoreReplies(c, Apply(c, s, steps[0]).value, steps[1..]);
    }
  }

  /** The pool stops for good only after as many clients have gone away as it has threads. */
  lemma PoolOutlives(c: Config, steps: seq<Step>)
    requires Run(c, steps).Some? && AllEnded(c, Run(c, steps).value)
    ensures Abandons(steps) >= c.threads
  {
    hide Run;
    EndedAtMostAbandoned(c, steps);
    Smaller(FirstThreads(c.threads), Run(c, steps).value.exited);
  }

  /** Nothing is queued, or a thread will be left after every abandoned job has ended one. */
  predicate Enough(c: Config, s: State) {
    s.queue == [] || Losses(s) < c.threads
  }

  /** No thread can do anything. */
  ghost predicate Stuck(c: Config, s: State) {
    forall t :: Apply(c, s, Take(t)).None? && Apply(c, s, Reply(t)).None?
  }

  /** The client waits for the job, or the job has its reply. */
  predicate Served(s: State, id: Id) {
    InPhase(s, id, Submitted) || id in s.replies
  }

  function Work(s: State): nat {
    2 * |s.queue| + |s.running|
  }

  lemma ThreadStep(c: Config, s: State, step: Step)
    requires Invariant(c, s) && Enough(c, s) && Apply(c, s, step).Some? && (step.Take? || step.Reply?)
    ensures var s' := Apply(c, s, step).value;
      && Invariant(c, s') && Enough(c, s') && Work(s') < Work(s) && s'.submitted == s.submitted
      && forall id :: Served(s, id) ==> Served(s', id)
  {
    hide Invariant, Losses, JobsOk, AtWorker;
    StepKeeps(c, s, step);
    LossesStep(c, s, step);
    Shrinks(c, s, step);
  }

  lemma Shrinks(c: Config, s: State, step: Step)
    requires Apply(c, s, step).Some? && (step.Take? || step.Reply?)
    ensures Work(Apply(c, s, step).value) < Work(s)
  {
    hide Answered, InPhase;
    if step.Take? {
      KeysAfter(s.running, step.thread, s.queue[0]);
    } else {
      KeysWithout(s.running, step.thread);
      AnsweredFields(s, step.thread);
    }
  }

  lemma StuckMeansDone(c: Config, s: State, id: Id)
    requires Invariant(c, s) && Enough(c, s) && Stuck(c, s)
    ensures s.queue == [] && s.running == map[]
    ensures Served(s, id) ==> id in s.replies && s.replies[id] == 1
  {
    hide PermitsConserved, JobsOk, AbandonedJobs;
    assert RequestOk(s, id);
    forall t ensures t !in s.running { assert Apply(c, s, Reply(t)).None?; }
    if s.queue != [] {
      forall t | 0 <= t < c.threads ensures t in s.exited { assert Apply(c, s, Take(t)).None?; }
      Smaller(FirstThreads(c.threads), s.exited);
    }
  }

  /**
   However the threads are scheduled they come to an end, and then every job whose client waits has been
   answered once, as long as the abandoned jobs leave a thread to do it.
   */
  lemma {:induction false} ThreadsFinish(c: Config, s: State, steps: seq<Step>)
    requires Invariant(c, s) && Enough(c, s) && OnlyThreads(steps) && Continue(c, s, steps).Some?
    ensures |steps| <= Work(s)
    ensures var end := Continue(c, s, steps).value;
      Stuck(c, end) ==>
        && end.queue == [] && end.running == map[] && end.submitted == s.submitted
        && forall id :: Served(s, id) ==> id in end.replies && end.replies[id] == 1
    decreases |steps|
  {
    hide Apply, Invariant, Enough, Served, Work, Stuck;
    if steps == [] {
      if Stuck(c, s) {
        StuckMeansDone(c, s, 0);
        forall id ensures Served(s, id) ==> id in s.replies && s.replies[id] == 1
        {
          StuckMeansDone(c, s, id);
        }
      }
    } else {
      assert steps[0].Take? || steps[0].Reply?;
      ThreadStep(c, s, steps[0]);
      ThreadsFinish(c, Apply(c, s, steps[0]).value, steps[1..]);
    }
  }

  /** With no client going away the threads' end means a reply to every job ever submitted. */
  lemma AllAnswered(c: Config, steps: seq<Step>, more: seq<Step>)
    requires Run(c, steps).Some? && NobodyLeaves(steps) && OnlyThreads(more)
    requires Continue(c, Run(c, steps).value, more).Some? && Stuck(c, Continue(c, Run(c, steps).value, more).value)
    ensures var s := Run(c, steps).value; var end := Continue(c, s, more).value;
      forall id :: id in s.submitted ==> id in end.replies && end.replies[id] == 1
  {
    hide Run, Apply, PermitsConserved, JobsOk, Stuck;
    var s := Run(c, steps).value;
    AlwaysAttended(c, steps);
    AttendedIsEnough(c, s);
    ThreadsFinish(c, s, more);
    forall id | id in s.submitted ensures Served(s, id) {
      assert RequestAttended(s, id) && RequestOk(s, id);
    }
  }

  lemma AttendedIsEnough(c: Config, s: State)
    requires Invariant(c, s) && Attended(s)
    ensures Enough(c, s)
  {
    hide PermitsConserved, JobsOk;
    forall id ensures id !in AbandonedJobs(s) {
      WorkerJobsAre(s, id);
      assert RequestAttended(s, id);
    }
    assert AbandonedJobs(s) == {};
    if s.queue != [] { ThreadsExist(c, s); }
  }

  /** A queue with a waiting client's job belongs to a pool with threads. */
  lemma ThreadsExist(c: Config, s: State)
    requires Invariant(c, s) && Attended(s) && s.queue != []
    ensures c.threads > 0
  {
    var id := s.queue[0];
    assert AtWorker(s, id) && RequestAttended(s, id) && RequestOk(s, id);
    assert id in Holding(s);
  }

  /** With the queue at its limit, one client going away is enough: the next request admitted finds it full. */
  lemma AbandonedMakesFull(c: Config, s: State, gone: Id, id: Id)
    requires Invariant(c, s) && |s.queue| == c.MaxConn() && gone in s.phases && gone in s.queue && id !in s.arrived
    ensures var s' := Continue(c, s, [Abandon(gone), Arrive(id), Admit(id)]);
      s'.Some? && FindsFull(c, s'.value, id)
  {
    hide Holders, JobsOk, PermitsConserved;
    assert RequestOk(s, gone) && AtWorker(s, gone);
    var s1 := Release(s, gone);
    var s2 := Entered(s1, id);
    var s3 := Forwarded(s2, id);
    var steps := [Abandon(gone), Arrive(id), Admit(id)];
    assert steps[1..] == [Arrive(id), Admit(id)];
    assert [Arrive(id), Admit(id)][1..] == [Admit(id)] && [Admit(id)][1..] == [];
    assert Continue(c, s3, []) == Some(s3);
    assert Continue(c, s2, [Admit(id)]) == Some(s3);
    assert Continue(c, s1, [Arrive(id), Admit(id)]) == Some(s3);
  }

  /** An admitted request that is turned away because the queue is full. */
  predicate FindsFull(c: Config, s: State, id: Id) {
    InPhase(s, id, Admitted) && |s.queue| == c.MaxConn() && Apply(c, s, Submit(id)) == Some(Release(s, id))
  }

  /** After `n` requests that were all submitted and none taken. */
  predicate Filled(c: Config, s: State, n: nat) {
    && |s.queue| == n && s.advertised == c.MaxConn() && s.workerFree == c.MaxConn() - n
    && s.balancerFree == c.balancerMax - n
    && (forall id :: id in s.arrived ==> id < n)
    && (n > 0 ==> 0 in s.phases && 0 in s.queue)
  }

  lemma Snoc(c: Config, steps: seq<Step>, step: Step)
    requires Run(c, steps).Some?
    ensures Run(c, steps + [step]) == Apply(c, Run(c, steps).value, step)
  {
    hide Apply;
    assert (steps + [step])[..|steps|] == steps;
  }

  lemma {:induction false} Fill(c: Config, n: nat) returns (steps: seq<Step>)
    requires 0 < c.threads && n <= c.MaxConn() <= c.balancerMax
    ensures Run(c, steps).Some? && Filled(c, Run(c, steps).value, n) && Abandons(steps) == 0
  {
    hide Run, Abandons;
    if n == 0 {
      steps := [Advertise];
      Started(c);
    } else {
      var before := Fill(c, n - 1);
      steps := before + [Arrive(n - 1)] + [Admit(n - 1)] + [Submit(n - 1)];
      Snoc(c, before, Arrive(n - 1));
      Snoc(c, before + [Arrive(n - 1)], Admit(n - 1));
      Snoc(c, before + [Arrive(n - 1)] + [Admit(n - 1)], Submit(n - 1));
      AbandonsSnoc(before, Arrive(n - 1));
      AbandonsSnoc(before + [Arrive(n - 1)], Admit(n - 1));
      AbandonsSnoc(before + [Arrive(n - 1)] + [Admit(n - 1)], Submit(n - 1));
    }
  }

  lemma Started(c: Config)
    requires 0 < c.threads
    ensures Run(c, [Advertise]).Some? && Filled(c, Run(c, [Advertise]).value, 0) && Abandons([Advertise]) == 0
  {
    Snoc(c, [], Advertise);
    AbandonsSnoc([], Advertise);
    assert [] + [Advertise] == [Advertise];
  }

  lemma AbandonsSnoc(steps: seq<Step>, step: Step)
    ensures Abandons(steps + [step]) == Abandons(steps) + (if step.Abandon? then 1 else 0)
  {
    assert (steps + [step])[..|steps|] == steps;
  }

  lemma {:induction false} RunOn(c: Config, steps: seq<Step>, more: seq<Step>)
    requires Run(c, steps).Some?
    ensures Run(c, steps + more) == Continue(c, Run(c, steps).value, more)
    decreases |more|
  {
    hide Apply;
    if more == [] {
      assert steps + more == steps;
    } else {
      Snoc(c, steps, more[0]);
      assert steps + more == (steps + [more[0]]) + more[1..];
      if Run(c, steps + [more[0]]).Some? {
        RunOn(c, steps + [more[0]], more[1..]);
      } else {
        NoneStays(c, steps + [more[0]], more[1..]);
      }
    }
  }

  lemma {:induction false} NoneStays(c: Config, steps: seq<Step>, more: seq<Step>)
    requires Run(c, steps).None?
    ensures Run(c, steps + more).None?
    decreases |more|
  {
    hide Apply;
    if more == [] {
      assert steps + more == steps;
    } else {
      var n := |more| - 1;
      NoneStays(c, steps, more[..n]);
      assert (steps + more)[..|steps + more| - 1] == steps + more[..n];
    }
  }

  /** Some run in which a single client goes away ends with an admitted request that finds the queue full. */
  lemma FullIsReached(c: Config) returns (steps: seq<Step>, id: Id)
    requires 0 < c.threads && c.MaxConn() <= c.balancerMax
    ensures Run(c, steps).Some? && FindsFull(c, Run(c, steps).value, id) && Abandons(steps) == 1
  {
    hide Run, Continue, Abandons, Invariant, FindsFull;
    var n := c.MaxConn();
    var fill := Fill(c, n);
    var more := [Abandon(0), Arrive(n), Admit(n)];
    AlwaysInvariant(c, fill);
    AbandonedMakesFull(c, Run(c, fill).value, 0, n);
    RunOn(c, fill, more);
    steps, id := fill + more, n;
    assert fill + more == fill + [Abandon(0)] + [Arrive(n)] + [Admit(n)];
    AbandonsSnoc(fill, Abandon(0));
    AbandonsSnoc(fill + [Abandon(0)], Arrive(n));
    AbandonsSnoc(fill + [Abandon(0)] + [Arrive(n)], Admit(n));
  }

  // ---------- learning the worker's limit ----------

  const TRIES: nat := 20

  /** The limit from the first try that succeeds, if one does. */
  function FirstAnswer(tries: seq<Option<nat>>): nat {
    if tries == [] then 0 else if tries[0].Some? then tries[0].value else FirstAnswer(tries[1..])
  }

  /** `Workers::start` for one worker: however often it asks, permits are added once at most. */
  method LearnLimit(tries: seq<Option<nat>>) returns (added: nat, asked: nat)
    requires |tries| == TRIES
    ensures added == FirstAnswer(tries) && asked <= TRIES
    ensures asked < TRIES ==> asked > 0 && tries[asked - 1].Some?
    ensures forall k :: 0 <= k < asked - 1 ==> tries[k].None?
  {
    added, asked := 0, 0;
    assert tries[0..] == tries;
    while asked < TRIES
      invariant 0 <= asked <= TRIES && added == 0 && forall k :: 0 <= k < asked ==> tries[k].None?
      invariant FirstAnswer(tries) == FirstAnswer(tries[asked..])
    {
      asked := asked + 1;
      assert tries[asked - 1..][1..] == tries[asked..];
      if tries[asked - 1].Some? {
        added := added + tries[asked - 1].value;
        return;
      }
    }
  }
}
