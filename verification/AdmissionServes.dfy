/**
 Progress of admission (peserver/src/lb.rs, peserver/src/worker.rs, perunner/src/worker.rs): every request can
 be brought to its end with all permits free again, a new one is served, and jobs are taken in their order.
 */
module AdmissionServes {
  import opened Bytes
  import opened Admission

  /** Nobody new arrives and no client goes away. */
  predicate Quiet(steps: seq<Step>) {
    forall i :: 0 <= i < |steps| ==> QuietStep(steps[i])
  }

  predicate QuietStep(step: Step) {
    step.GiveUp? || step.Refuse? || step.Take? || step.Reply? || step.Respond?
  }

  lemma {:induction false} ContinueJoin(c: Config, s: State, step: Step, rest: seq<Step>)
    requires Apply(c, s, step).Some?
    ensures Continue(c, s, [step] + rest) == Continue(c, Apply(c, s, step).value, rest)
  {
    hide Apply;
    assert ([step] + rest)[0] == step && ([step] + rest)[1..] == rest;
  }

  /** What is left to do before nobody waits. */
  function Left(s: State): nat {
    Work(s) + |s.phases|
  }

  lemma {:induction false} FewerPhases(s: State, id: Id)
    requires id in s.phases
    ensures |Release(s, id).phases| < |s.phases|
  {
    assert (s.phases - {id}).Keys == s.phases.Keys - {id};
    assert |s.phases.Keys| == |s.phases| && |(s.phases - {id}).Keys| == |s.phases - {id}|;
  }

  /** A step that can be taken while somebody waits. */
  ghost predicate Useful(c: Config, s: State, step: Step) {
    QuietStep(step) && Apply(c, s, step).Some?
  }

  lemma SomethingToDo(c: Config, s: State) returns (step: Step)
    requires Invariant(c, s) && Enough(c, s) && s.phases != map[]
    ensures Useful(c, s, step)
  {
    hide PermitsConserved, JobsOk, AbandonedJobs;
    var id :| id in s.phases;
    assert RequestOk(s, id);
    match s.phases[id]
    case Waiting => step := GiveUp(id);
    case Admitted => step := Refuse(id);
    case Replied => step := Respond(id);
    case Submitted =>
      if t :| t in s.running {
        step := Reply(t);
      } else {
        var t := FreeThread(c, s);
        step := Take(t);
      }
  }

  lemma FreeThread(c: Config, s: State) returns (t: nat)
    requires Invariant(c, s) && Enough(c, s) && s.queue != [] && s.running == map[]
    ensures t < c.threads && t !in s.exited
  {
    hide PermitsConserved, JobsOk, RequestOk, AbandonedJobs;
    var all := FirstThreads(c.threads);
    if all <= s.exited { Smaller(all, s.exited); }
    t :| t in all && t !in s.exited;
  }

  lemma QuietKeeps(c: Config, s: State, step: Step)
    requires Invariant(c, s) && Enough(c, s) && Useful(c, s, step)
    ensures var s' := Apply(c, s, step).value;
      && Invariant(c, s') && Enough(c, s') && Left(s') < Left(s)
      && forall id :: Served(s, id) ==> Served(s', id)
  {
    hide Invariant, Losses, JobsOk, AtWorker, Work;
    if step.Take? || step.Reply? {
      ThreadStep(c, s, step);
      SamePhases(c, s, step);
    } else {
      StepKeeps(c, s, step);
      LossesStep(c, s, step);
      FewerPhases(s, step.id);
      SameWork(s, step.id);
    }
  }

  lemma SamePhases(c: Config, s: State, step: Step)
    requires Apply(c, s, step).Some? && (step.Take? || step.Reply?)
    ensures |Apply(c, s, step).value.phases| == |s.phases|
  {
    var p, q := s.phases, Apply(c, s, step).value.phases;
    assert p.Keys == q.Keys;
    assert |p.Keys| == |p| && |q.Keys| == |q|;
  }

  lemma SameWork(s: State, id: Id)
    requires id in s.phases
    ensures Work(Release(s, id)) == Work(s)
  {
  }

  /**
   As long as abandoned jobs leave a thread, everybody who waits can be brought to an end, with no client going
   away; then every permit is free again, and every submitted job has been answered.
   */
  lemma {:induction false} Drains(c: Config, s: State) returns (steps: seq<Step>, end: State)
    requires Invariant(c, s) && Enough(c, s)
    ensures Quiet(steps) && Continue(c, s, steps) == Some(end) && end.phases == map[]
    ensures end.balancerFree == c.balancerMax && end.workerFree == end.advertised
    ensures forall id :: Served(s, id) ==> id in end.replies && end.replies[id] == 1
    decreases Left(s)
  {
    hide Invariant, Enough, Left, Apply, Useful;
    if s.phases == map[] {
      steps, end := [], s;
      EmptyIsFree(c, s);
    } else {
      var step := SomethingToDo(c, s);
      QuietKeeps(c, s, step);
      UsefulIs(c, s, step);
      var rest;
      rest, end := Drains(c, Apply(c, s, step).value);
      steps := [step] + rest;
      ContinueJoin(c, s, step, rest);
      forall i | 0 <= i < |steps| ensures QuietStep(steps[i]) {
        if i > 0 { assert steps[i] == rest[i - 1]; }
      }
    }
  }

  lemma UsefulIs(c: Config, s: State, step: Step)
    requires Useful(c, s, step)
    ensures QuietStep(step) && Apply(c, s, step).Some?
  {
  }

  lemma EmptyIsFree(c: Config, s: State)
    requires Invariant(c, s) && s.phases == map[]
    ensures s.balancerFree == c.balancerMax && s.workerFree == s.advertised
    ensures forall id :: Served(s, id) ==> id in s.replies && s.replies[id] == 1
  {
    hide JobsOk, ThreadsOk;
    assert Holding(s) == {};
    forall id | Served(s, id) ensures s.replies[id] == 1 { assert RequestOk(s, id); }
  }

  /** A new request that finds permits and room is served: one reply, and all permits free in the end. */
  lemma Serves(c: Config, s: State, id: Id) returns (steps: seq<Step>, end: State)
    requires Invariant(c, s) && Losses(s) < c.threads && id !in s.arrived
    requires s.balancerFree > 0 && s.workerFree > 0 && |s.queue| < 2 * c.threads
    ensures Continue(c, s, [Arrive(id), Admit(id), Submit(id)] + steps) == Some(end) && Quiet(steps)
    ensures id in end.replies && end.replies[id] == 1 && end.phases == map[]
    ensures end.balancerFree == c.balancerMax && end.workerFree == end.advertised
  {
    hide Invariant, Losses, Apply;
    var s1, s2, s3 := Submits(c, s, id);
    steps, end := Drains(c, s3);
    assert Served(s3, id);
    Threefold(c, s, Arrive(id), Admit(id), Submit(id), steps);
  }

  lemma Submits(c: Config, s: State, id: Id) returns (s1: State, s2: State, s3: State)
    requires Invariant(c, s) && Losses(s) < c.threads && id !in s.arrived
    requires s.balancerFree > 0 && s.workerFree > 0 && |s.queue| < 2 * c.threads
    ensures Invariant(c, s3) && Enough(c, s3) && InPhase(s3, id, Submitted)
    ensures Apply(c, s, Arrive(id)) == Some(s1) && Apply(c, s1, Admit(id)) == Some(s2)
    ensures Apply(c, s2, Submit(id)) == Some(s3)
  {
    hide Invariant, Losses;
    s1, s2, s3 := Entered(s, id), Forwarded(Entered(s, id), id), Enqueued(Forwarded(Entered(s, id), id), id);
    StepKeeps(c, s, Arrive(id));
    StepKeeps(c, s1, Admit(id));
    StepKeeps(c, s2, Submit(id));
    LossesStep(c, s, Arrive(id));
    LossesStep(c, s1, Admit(id));
    LossesStep(c, s2, Submit(id));
  }

  lemma Threefold(c: Config, s: State, a: Step, b: Step, d: Step, rest: seq<Step>)
    requires Apply(c, s, a).Some? && Apply(c, Apply(c, s, a).value, b).Some?
    requires Apply(c, Apply(c, Apply(c, s, a).value, b).value, d).Some?
    ensures Continue(c, s, [a, b, d] + rest)
            == Continue(c, Apply(c, Apply(c, Apply(c, s, a).value, b).value, d).value, rest)
  {
    hide Apply;
    ContinueJoin(c, s, a, [b, d] + rest);
    ContinueJoin(c, Apply(c, s, a).value, b, [d] + rest);
    ContinueJoin(c, Apply(c, Apply(c, s, a).value, b).value, d, rest);
    assert [a, b, d] + rest == [a] + ([b, d] + rest) && [b, d] + rest == [b] + ([d] + rest);
  }

  // ---------- first in, first out ----------

  /** What is left of the queue is its end, before what came later. */
  ghost predicate InOrder(before: seq<Id>, after: seq<Id>) {
    exists k :: 0 <= k <= |before| && before[k..] <= after
  }

  /** Jobs leave the queue in the order they came in, whatever else happens. */
  lemma {:induction false} FirstInFirstOut(c: Config, s: State, steps: seq<Step>)
    requires Continue(c, s, steps).Some?
    ensures InOrder(s.queue, Continue(c, s, steps).value.queue)
    decreases |steps|
  {
    hide InOrder;
    if steps == [] {
      StillThere(s.queue, s.queue);
    } else {
      var s' := Apply(c, s, steps[0]).value;
      FirstInFirstOut(c, s', steps[1..]);
      OneStep(c, s, steps[0]);
      OrderJoins(s.queue, s'.queue, Continue(c, s', steps[1..]).value.queue);
    }
  }

  lemma StillThere(q: seq<Id>, after: seq<Id>)
    requires q <= after
    ensures InOrder(q, after)
  {
    assert q[0..] == q;
  }

  lemma OneStep(c: Config, s: State, step: Step)
    requires Apply(c, s, step).Some?
    ensures InOrder(s.queue, Apply(c, s, step).value.queue)
  {
    var q := Apply(c, s, step).value.queue;
    if step.Take? {
      assert s.queue[1..] <= q;
    } else {
      assert s.queue[0..] <= q;
    }
  }

  lemma OrderJoins(a: seq<Id>, b: seq<Id>, d: seq<Id>)
    requires InOrder(a, b) && InOrder(b, d)
    ensures InOrder(a, d)
  {
    var k :| 0 <= k <= |a| && a[k..] <= b;
    var l :| 0 <= l <= |b| && b[l..] <= d;
    if k + l <= |a| {
      assert a[k + l..] == a[k..][l..] && a[k..][l..] <= b[l..];
      assert a[k + l..] <= d;
    } else {
      assert a[|a|..] == [];
      assert a[|a|..] <= d;
    }
  }
}
