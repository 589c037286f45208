/** The relayer's in-memory job queue (services/relayer/queue/index.ts:23-111) as a step system.
    Every piece of code between two awaits is one atomic step; steps interleave in any order. */
module Queue {
  import opened Results

  type JobId = string

  datatype JobState = Queued | Submitting | Submitted | Confirmed | Failed

  datatype RelayJob = RelayJob(state: JobState, attempts: nat, txid: Option<string>, error: Option<string>)

  /** What callers outside the queue patch; they never touch `attempts`. */
  datatype Patch = Patch(state: Option<JobState>, txid: Option<string>, error: Option<string>)

  /** Where the asynchronous drain loop is suspended. */
  datatype Phase = Idle | Handling(id: JobId) | Requeueing(id: JobId) | Burying(id: JobId)

  /** The queue's fields, the suspended loop, and a history: every entry put into the pending list, every
      job handed to the handler, and every job it completed, each in order. */
  datatype State = State(
    jobs: map<JobId, RelayJob>, pending: seq<JobId>, dead: seq<JobId>, handlerSet: bool, draining: bool, closed: bool,
    phase: Phase, joined: seq<JobId>, taken: seq<JobId>, completed: seq<JobId>)

  datatype Event =
    | Add(id: JobId)
    | Process
    | Close
    | Update(id: JobId, patch: Patch)
    | HandlerReturned
    | HandlerThrew(message: string)
    | Resume

  const NEW_JOB := RelayJob(Queued, 0, None, None)

  function Patched(job: RelayJob, patch: Patch): RelayJob
  {
    RelayJob(patch.state.GetOr(job.state), job.attempts,
             if patch.txid.Some? then patch.txid else job.txid, if patch.error.Some? then patch.error else job.error)
  }

  /** The head of the drain loop: take the next known job, or stop draining. */
  function Advance(s: State): State
    decreases |s.pending|
  {
    if s.pending == [] || s.closed then s.(phase := Idle, draining := false)
    else
      var id, rest := s.pending[0], s.pending[1..];
      if id !in s.jobs then Advance(s.(pending := rest))
      else s.(pending := rest, phase := Handling(id), taken := s.taken + [id])
  }

  function Drain(s: State): State
  {
    if s.draining || !s.handlerSet || s.closed then s else Advance(s.(draining := true))
  }

  /** `pending.push(id)`. */
  function Joined(s: State, id: JobId): State
  {
    s.(pending := s.pending + [id], joined := s.joined + [id])
  }

  function Threw(s: State, maxAttempts: int, id: JobId, message: string): State
    requires id in s.jobs
  {
    var job := s.jobs[id];
    var attempts := job.attempts + 1;
    if attempts < maxAttempts
    then s.(jobs := s.jobs[id := job.(attempts := attempts, state := Queued)], phase := Requeueing(id))
    else s.(jobs := s.jobs[id := job.(attempts := attempts, state := Failed, error := Some(message))],
            phase := Burying(id))
  }

  function Step(s: State, maxAttempts: int, e: Event): State
  {
    match e
    case Add(id) =>
      if id in s.jobs then s else Drain(Joined(s.(jobs := s.jobs[id := NEW_JOB]), id))
    case Process => Drain(s.(handlerSet := true))
    case Close => s.(closed := true)
    case Update(id, patch) => if id in s.jobs then s.(jobs := s.jobs[id := Patched(s.jobs[id], patch)]) else s
    case HandlerReturned =>
      if s.phase.Handling? then Advance(s.(completed := s.completed + [s.phase.id])) else s
    case HandlerThrew(message) =>
      if s.phase.Handling? && s.phase.id in s.jobs then Threw(s, maxAttempts, s.phase.id, message) else s
    case Resume =>
      if s.phase.Requeueing? then Advance(Joined(s, s.phase.id))
      else if s.phase.Burying? then Advance(s.(dead := s.dead + [s.phase.id]))
      else s
  }

  const EMPTY := State(map[], [], [], false, false, false, Idle, [], [], [])

  function Run(s: State, maxAttempts: int, es: seq<Event>): State
  {
    if es == [] then s else Step(Run(s, maxAttempts, es[..|es| - 1]), maxAttempts, es[|es| - 1])
  }

  class MemoryQueue {
    const maxAttempts: int
    var jobs: map<JobId, RelayJob>
    var pending: seq<JobId>
    var dead: seq<JobId>
    var handlerSet: bool
    var draining: bool
    var closed: bool
    var phase: Phase
    ghost var joined: seq<JobId>
    ghost var taken: seq<JobId>
    ghost var completed: seq<JobId>

    ghost function Model(): State
      reads this
    {
      State(jobs, pending, dead, handlerSet, draining, closed, phase, joined, taken, completed)
    }

    constructor (maxAttempts: int)
      ensures Model() == EMPTY && this.maxAttempts == maxAttempts
    {
      this.maxAttempts := maxAttempts;
      jobs, pending, dead, handlerSet, draining, closed, phase := map[], [], [], false, false, false, Idle;
      joined, taken, completed := [], [], [];
    }

    method AddJob(id: JobId)
      requires id !in jobs
      modifies this
      ensures Model() == Step(old(Model()), maxAttempts, Add(id))
    {
      jobs := jobs[id := NEW_JOB];
      pending := pending + [id];
      joined := joined + [id];
      StartDrain();
    }

    method SetHandler()
      modifies this
      ensures Model() == Step(old(Model()), maxAttempts, Process)
    {
      handlerSet := true;
      StartDrain();
    }

    method CloseQueue()
      modifies this
      ensures Model() == Step(old(Model()), maxAttempts, Close)
    {
      closed := true;
    }

    method UpdateJob(id: JobId, patch: Patch)
      modifies this
      ensures Model() == Step(old(Model()), maxAttempts, Update(id, patch))
    {
      if id in jobs { jobs := jobs[id := Patched(jobs[id], patch)]; }
    }

    method StartDrain()
      modifies this
      ensures Model() == Drain(old(Model()))
    {
      if draining || !handlerSet || closed { return; }
      draining := true;
      DrainLoop();
    }

    /** The loop up to its next await. */
    method DrainLoop()
      modifies this
      ensures Model() == Advance(old(Model()))
    {
      while pending != [] && !closed
        invariant Advance(Model()) == Advance(old(Model()))
        decreases |pending|
      {
        var id := pending[0];
        pending := pending[1..];
        if id in jobs {
          phase := Handling(id);
          taken := taken + [id];
          return;
        }
      }
      phase := Idle;
      draining := false;
    }

    method OnReturned()
      requires phase.Handling?
      modifies this
      ensures Model() == Step(old(Model()), maxAttempts, HandlerReturned)
    {
      completed := completed + [phase.id];
      DrainLoop();
    }

    method OnThrew(message: string)
      requires phase.Handling? && phase.id in jobs
      modifies this
      ensures Model() == Step(old(Model()), maxAttempts, HandlerThrew(message))
    {
      var id := phase.id;
      var current := jobs[id];
      var attempts := current.attempts + 1;
      if attempts < maxAttempts {
        jobs := jobs[id := current.(attempts := attempts, state := Queued)];
        phase := Requeueing(id);
      } else {
        jobs := jobs[id := current.(attempts := attempts, state := Failed, error := Some(message))];
        phase := Burying(id);
      }
    }

    /** The update has settled: put the job back, or bury it, and go on. */
    method OnResume()
      requires phase.Requeueing? || phase.Burying?
      modifies this
      ensures Model() == Step(old(Model()), maxAttempts, Resume)
    {
      if phase.Requeueing? {
        pending := pending + [phase.id];
        joined := joined + [phase.id];
      } else {
        dead := dead + [phase.id];
      }
      DrainLoop();
    }

    /** The dead letters: the jobs behind the dead ids, in order of burial. */
    method DeadLetter() returns (r: seq<RelayJob>)
      ensures (forall i :: 0 <= i < |dead| ==> dead[i] in jobs) ==>
                |r| == |dead| && forall i :: 0 <= i < |dead| ==> r[i] == jobs[dead[i]]
    {
      r := [];
      for k := 0 to |dead|
        invariant (forall i :: 0 <= i < |dead| ==> dead[i] in jobs) ==>
                    |r| == k && forall i :: 0 <= i < k ==> r[i] == jobs[dead[i]]
      {
        if dead[k] in jobs { r := r + [jobs[dead[k]]]; }
      }
    }
  }

  // ---- what every step keeps ----

  function Budget(maxAttempts: int): nat
  {
    if maxAttempts < 1 then 1 else maxAttempts
  }

  ghost function InHand(phase: Phase): multiset<JobId>
  {
    if phase.Idle? then multiset{} else multiset{phase.id}
  }

  ghost function TimesHandled(s: State, id: JobId): nat
  {
    multiset(s.taken)[id]
  }

  /** First in, first out: the jobs handed over so far, followed by those still pending, are all that ever joined. */
  ghost predicate Fifo(s: State)
  {
    s.joined == s.taken + s.pending
  }

  /** Each job is in exactly one place: pending, in hand, dead, or completed. */
  ghost predicate OnePlace(s: State)
  {
    multiset(s.pending) + InHand(s.phase) + multiset(s.dead) + multiset(s.completed) == multiset(s.jobs.Keys)
  }

  /** No wakeup is lost: an open queue with a handler that is not draining has nothing to drain. */
  ghost predicate NoLostWakeup(s: State)
  {
    !s.closed && s.handlerSet && !s.draining ==> s.pending == []
  }

  // The attempts recorded for a job are the failed hand-overs it had; what is waiting has budget left.

  ghost predicate Waiting(s: State, ids: seq<JobId>, budget: nat)
  {
    forall id :: id in ids ==> id in s.jobs && TimesHandled(s, id) == s.jobs[id].attempts < budget
  }

  ghost predicate Buried(s: State, ids: seq<JobId>, budget: nat)
  {
    forall id :: id in ids ==> id in s.jobs && TimesHandled(s, id) == s.jobs[id].attempts == budget
  }

  ghost predicate Finished(s: State, ids: seq<JobId>, budget: nat)
  {
    forall id :: id in ids ==> id in s.jobs && TimesHandled(s, id) == s.jobs[id].attempts + 1 <= budget
  }

  ghost predicate InHandAccounted(s: State, budget: nat)
  {
    match s.phase
    case Idle => true
    case Handling(id) => Finished(s, [id], budget)
    case Requeueing(id) => Waiting(s, [id], budget)
    case Burying(id) => Buried(s, [id], budget)
  }

  ghost predicate Accounted(s: State, budget: nat)
  {
    && Waiting(s, s.pending, budget) && InHandAccounted(s, budget) && Buried(s, s.dead, budget)
    && Finished(s, s.completed, budget)
    && (forall id :: id in s.taken ==> id in s.jobs)
  }

  ghost predicate Inv(s: State, maxAttempts: int)
  {
    OnePlace(s) && Fifo(s) && NoLostWakeup(s) && Accounted(s, Budget(maxAttempts)) && (s.draining <==> !s.phase.Idle?)
  }

  /** Taking the head of the queue in hand. */
  ghost function Taken(s: State): State
    requires s.pending != []
  {
    var id := s.pending[0];
    s.(pending := s.pending[1..], phase := Handling(id), taken := s.taken + [id])
  }

  lemma TakenHasOnePlace(s: State)
    requires s.pending != [] && s.phase.Idle? && OnePlace(s)
    ensures OnePlace(Taken(s)) && s.pending[0] in s.jobs
    ensures var id := s.pending[0]; id !in s.pending[1..] && id !in s.dead && id !in s.completed
  {
    var id, rest := s.pending[0], s.pending[1..];
    assert s.pending == [id] + rest;
    assert multiset(s.pending) == multiset{id} + multiset(rest);
    assert id in multiset(s.jobs.Keys) && multiset(s.jobs.Keys)[id] == 1;
    Absent(rest, id);
    Absent(s.dead, id);
    Absent(s.completed, id);
  }

  lemma Absent(ids: seq<JobId>, id: JobId)
    ensures multiset(ids)[id] == 0 <==> id !in ids
  {
    if id in ids { assert id in multiset(ids); }
    if id in multiset(ids) { assert id in ids; }
  }

  lemma TakenIsAccounted(s: State, budget: nat)
    requires s.pending != [] && s.phase.Idle? && OnePlace(s) && Accounted(s, budget)
    ensures Accounted(Taken(s), budget)
  {
    hide OnePlace;
    TakenHasOnePlace(s);
    var t := Taken(s);
    assert forall x :: x != s.pending[0] ==> TimesHandled(t, x) == TimesHandled(s, x);
    assert forall x :: x in t.pending ==> x in s.pending;
    assert s.pending[0] in s.pending;
  }

  /** The loop head, entered with the previous job already put away. */
  lemma AdvanceKeepsInv(s: State, maxAttempts: int)
    requires s.draining && Fifo(s) && Accounted(s.(phase := Idle), Budget(maxAttempts)) && OnePlace(s.(phase := Idle))
    ensures Inv(Advance(s), maxAttempts)
  {
    hide OnePlace, Accounted;
    var idle := s.(phase := Idle);
    if s.pending == [] || s.closed {
      SameBooks(idle, Advance(s), Budget(maxAttempts));
    } else {
      TakenHasOnePlace(idle);
      TakenIsAccounted(idle, Budget(maxAttempts));
      assert Advance(s) == Taken(idle);
      assert s.pending == [s.pending[0]] + s.pending[1..];
    }
  }

  /** The invariant's clauses do not look at the flags. */
  lemma SameBooks(s: State, t: State, budget: nat)
    requires t == s.(draining := t.draining, handlerSet := t.handlerSet, closed := t.closed)
    ensures OnePlace(s) == OnePlace(t)
    ensures Accounted(s, budget) ==> Accounted(t, budget)
  {}

  lemma DrainKeepsInv(s: State, maxAttempts: int)
    requires OnePlace(s) && Fifo(s) && Accounted(s, Budget(maxAttempts)) && (s.draining <==> !s.phase.Idle?)
    ensures Inv(Drain(s), maxAttempts)
  {
    hide OnePlace, Accounted, Advance;
    if !s.draining && s.handlerSet && !s.closed {
      SameBooks(s, s.(draining := true), Budget(maxAttempts));
      AdvanceKeepsInv(s.(draining := true), maxAttempts);
    }
  }

  /** Books of other jobs survive a change to one job that is none of theirs. */
  lemma OthersUnchanged(s: State, t: State, ids: seq<JobId>, budget: nat)
    requires forall x :: x in ids && x in s.jobs ==>
               x in t.jobs && t.jobs[x].attempts == s.jobs[x].attempts && TimesHandled(t, x) == TimesHandled(s, x)
    ensures Waiting(s, ids, budget) ==> Waiting(t, ids, budget)
    ensures Buried(s, ids, budget) ==> Buried(t, ids, budget)
    ensures Finished(s, ids, budget) ==> Finished(t, ids, budget)
  {
    hide TimesHandled;
  }

  lemma OneMore(s: State, ids: seq<JobId>, id: JobId, budget: nat)
    ensures Waiting(s, ids, budget) && Waiting(s, [id], budget) ==> Waiting(s, ids + [id], budget)
    ensures Buried(s, ids, budget) && Buried(s, [id], budget) ==> Buried(s, ids + [id], budget)
    ensures Finished(s, ids, budget) && Finished(s, [id], budget) ==> Finished(s, ids + [id], budget)
  {
    hide TimesHandled;
    assert id in [id];
    assert forall x :: x in ids + [id] ==> x in ids || x == id;
  }

  lemma AddKeepsInv(s: State, maxAttempts: int, id: JobId)
    requires Inv(s, maxAttempts) && id !in s.jobs
    ensures Inv(Step(s, maxAttempts, Add(id)), maxAttempts)
  {
    var t := Joined(s.(jobs := s.jobs[id := NEW_JOB]), id);
    assert OnePlace(t) by {
      assert t.jobs.Keys == s.jobs.Keys + {id};
      assert multiset(t.jobs.Keys) == multiset(s.jobs.Keys) + multiset{id};
    }
    AddedIsAccounted(s, t, id, Budget(maxAttempts));
    hide OnePlace, Accounted;
    DrainKeepsInv(t, maxAttempts);
  }

  lemma AddedIsAccounted(s: State, t: State, id: JobId, budget: nat)
    requires Accounted(s, budget) && id !in s.jobs && budget > 0
    requires t == Joined(s.(jobs := s.jobs[id := NEW_JOB]), id)
    ensures Accounted(t, budget)
  {
    OthersUnchanged(s, t, s.pending, budget);
    OthersUnchanged(s, t, s.dead, budget);
    OthersUnchanged(s, t, s.completed, budget);
    if !s.phase.Idle? { OthersUnchanged(s, t, [s.phase.id], budget); }
    Absent(t.taken, id);
    OneMore(t, s.pending, id, budget);
  }

  lemma UpdateKeepsInv(s: State, maxAttempts: int, id: JobId, patch: Patch)
    requires Inv(s, maxAttempts) && id in s.jobs
    ensures Inv(Step(s, maxAttempts, Update(id, patch)), maxAttempts)
  {
    var t := Step(s, maxAttempts, Update(id, patch));
    assert t.jobs.Keys == s.jobs.Keys;
    assert forall x :: x in s.jobs ==> t.jobs[x].attempts == s.jobs[x].attempts;
  }

  /** The id in hand is nowhere else. */
  lemma InHandOnly(s: State)
    requires OnePlace(s) && !s.phase.Idle?
    ensures s.phase.id in s.jobs && s.phase.id !in s.pending && s.phase.id !in s.dead && s.phase.id !in s.completed
  {
    var id := s.phase.id;
    assert id in InHand(s.phase);
    assert id in multiset(s.jobs.Keys) && multiset(s.jobs.Keys)[id] == 1;
    Absent(s.pending, id);
    Absent(s.dead, id);
    Absent(s.completed, id);
  }

  lemma ReturnKeepsInv(s: State, maxAttempts: int)
    requires Inv(s, maxAttempts) && s.phase.Handling?
    ensures Inv(Step(s, maxAttempts, HandlerReturned), maxAttempts)
  {
    var t := s.(completed := s.completed + [s.phase.id]);
    PutAway(s, t.(phase := Idle), Budget(maxAttempts));
    hide OnePlace, Accounted;
    AdvanceKeepsInv(t, maxAttempts);
  }

  /** Putting the job in hand where its phase says keeps the books. */
  lemma PutAway(s: State, t: State, budget: nat)
    requires OnePlace(s) && Accounted(s, budget) && !s.phase.Idle?
    requires t == match s.phase
                  case Handling(id) => s.(completed := s.completed + [id], phase := Idle)
                  case Requeueing(id) => Joined(s, id).(phase := Idle)
                  case Burying(id) => s.(dead := s.dead + [id], phase := Idle)
    ensures OnePlace(t) && Accounted(t, budget)
  {
    hide Waiting, Buried, Finished;
    OneMore(s, s.pending, s.phase.id, budget);
    OneMore(s, s.dead, s.phase.id, budget);
    OneMore(s, s.completed, s.phase.id, budget);
    SameJobs(s, t, t.pending, budget);
    SameJobs(s, t, t.dead, budget);
    SameJobs(s, t, t.completed, budget);
  }

  lemma SameJobs(s: State, t: State, ids: seq<JobId>, budget: nat)
    requires s.jobs == t.jobs && s.taken == t.taken
    ensures Waiting(s, ids, budget) == Waiting(t, ids, budget)
    ensures Buried(s, ids, budget) == Buried(t, ids, budget)
    ensures Finished(s, ids, budget) == Finished(t, ids, budget)
  {
    assert forall x :: TimesHandled(s, x) == TimesHandled(t, x);
  }

  lemma ThrowKeepsInv(s: State, maxAttempts: int, message: string)
    requires Inv(s, maxAttempts) && s.phase.Handling?
    ensures Inv(Step(s, maxAttempts, HandlerThrew(message)), maxAttempts)
  {
    hide Step, Waiting, Buried, Finished, InHandAccounted, Budget, OnePlace, Fifo, NoLostWakeup;
    InHandOnly(s);
    var t, budget := Step(s, maxAttempts, HandlerThrew(message)), Budget(maxAttempts);
    ThrowKeepsPlaces(s, maxAttempts, message);
    OthersUnchanged(s, t, s.pending, budget);
    OthersUnchanged(s, t, s.dead, budget);
    OthersUnchanged(s, t, s.completed, budget);
    ThrownIsAccounted(s, maxAttempts, message);
  }

  lemma ThrowKeepsPlaces(s: State, maxAttempts: int, message: string)
    requires Inv(s, maxAttempts) && s.phase.Handling? && s.phase.id in s.jobs
    ensures var t := Step(s, maxAttempts, HandlerThrew(message));
            && OnePlace(t) && Fifo(t) && NoLostWakeup(t) && (t.draining <==> !t.phase.Idle?)
            && t.pending == s.pending && t.dead == s.dead && t.completed == s.completed && t.taken == s.taken
            && t.jobs == s.jobs[s.phase.id := t.jobs[s.phase.id]]
  {
    hide Accounted;
    var t := Step(s, maxAttempts, HandlerThrew(message));
    assert t.jobs.Keys == s.jobs.Keys && InHand(t.phase) == InHand(s.phase);
  }

  lemma ThrownIsAccounted(s: State, maxAttempts: int, message: string)
    requires s.phase.Handling? && InHandAccounted(s, Budget(maxAttempts))
    ensures s.phase.id in s.jobs && InHandAccounted(Step(s, maxAttempts, HandlerThrew(message)), Budget(maxAttempts))
  {
    assert s.phase.id in [s.phase.id];
  }

  lemma ResumeKeepsInv(s: State, maxAttempts: int)
    requires Inv(s, maxAttempts) && (s.phase.Requeueing? || s.phase.Burying?)
    ensures Inv(Step(s, maxAttempts, Resume), maxAttempts)
  {
    hide OnePlace, Accounted;
    var id := s.phase.id;
    var t := if s.phase.Requeueing? then Joined(s, id) else s.(dead := s.dead + [id]);
    PutAway(s, t.(phase := Idle), Budget(maxAttempts));
    AdvanceKeepsInv(t, maxAttempts);
  }

  lemma StepKeepsInv(s: State, maxAttempts: int, e: Event)
    requires Inv(s, maxAttempts)
    ensures Inv(Step(s, maxAttempts, e), maxAttempts)
  {
    hide OnePlace, Accounted, Advance;
    match e
    case Add(id) => if id !in s.jobs { AddKeepsInv(s, maxAttempts, id); }
    case Process =>
      SameBooks(s, s.(handlerSet := true), Budget(maxAttempts));
      DrainKeepsInv(s.(handlerSet := true), maxAttempts);
    case Close => SameBooks(s, s.(closed := true), Budget(maxAttempts));
    case Update(id, patch) => if id in s.jobs { UpdateKeepsInv(s, maxAttempts, id, patch); }
    case HandlerReturned => if s.phase.Handling? { ReturnKeepsInv(s, maxAttempts); }
    case HandlerThrew(message) => if s.phase.Handling? { ThrowKeepsInv(s, maxAttempts, message); }
    case Resume => if s.phase.Requeueing? || s.phase.Burying? { ResumeKeepsInv(s, maxAttempts); }
  }

  /** Every reachable state, under every interleaving: one place per job, hand-overs in the order of joining,
      no lost wakeup, and no job handed over more than max(1, maxAttempts) times; a dead one exactly that often. */
  lemma {:induction false} QueueSafety(maxAttempts: int, es: seq<Event>)
    ensures Inv(Run(EMPTY, maxAttempts, es), maxAttempts)
    ensures var s := Run(EMPTY, maxAttempts, es);
            && (forall id :: TimesHandled(s, id) <= Budget(maxAttempts))
            && (forall id :: id in s.dead ==> TimesHandled(s, id) == Budget(maxAttempts))
  {
    if es != [] {
      hide Inv, Step;
      QueueSafety(maxAttempts, es[..|es| - 1]);
      StepKeepsInv(Run(EMPTY, maxAttempts, es[..|es| - 1]), maxAttempts, es[|es| - 1]);
    }
    var s := Run(EMPTY, maxAttempts, es);
    forall id ensures TimesHandled(s, id) <= Budget(maxAttempts) { WithinBudget(s, maxAttempts, id); }
    DeadUsedBudget(s, maxAttempts);
  }

  lemma WithinBudget(s: State, maxAttempts: int, id: JobId)
    requires Inv(s, maxAttempts)
    ensures TimesHandled(s, id) <= Budget(maxAttempts)
  {
    if id in s.taken {
      assert id in multiset(s.jobs.Keys);
      if id in s.pending || id in s.dead || id in s.completed {
      } else {
        Absent(s.pending, id);
        Absent(s.dead, id);
        Absent(s.completed, id);
        assert id in InHand(s.phase);
        assert id in [s.phase.id];
      }
    }
  }

  lemma DeadUsedBudget(s: State, maxAttempts: int)
    requires Inv(s, maxAttempts)
    ensures forall id :: id in s.dead ==> TimesHandled(s, id) == Budget(maxAttempts)
  {}

  // ---- progress ----

  /** Hand-overs still possible for the waiting jobs. */
  ghost function Remaining(jobs: map<JobId, RelayJob>, ids: seq<JobId>, budget: nat): int
  {
    if ids == [] then 0
    else
      var n := |ids| - 1;
      Remaining(jobs, ids[..n], budget) + (if ids[n] in jobs then budget - jobs[ids[n]].attempts else 0)
  }

  ghost function Measure(s: State, maxAttempts: int): int
  {
    var b := Budget(maxAttempts);
    Remaining(s.jobs, s.pending, b)
    + (if (s.phase.Handling? || s.phase.Requeueing?) && s.phase.id in s.jobs then b - s.jobs[s.phase.id].attempts
       else 0)
  }

  lemma {:induction false} RemainingSplit(jobs: map<JobId, RelayJob>, a: seq<JobId>, c: seq<JobId>, budget: nat)
    ensures Remaining(jobs, a + c, budget) == Remaining(jobs, a, budget) + Remaining(jobs, c, budget)
  {
    if c == [] {
      assert a + c == a;
    } else {
      var n := |c| - 1;
      RemainingSplit(jobs, a, c[..n], budget);
      assert (a + c)[..|a + c| - 1] == a + c[..n];
    }
  }

  lemma {:induction false} RemainingFrame(jobs: map<JobId, RelayJob>, jobs': map<JobId, RelayJob>, ids: seq<JobId>,
                                          budget: nat)
    requires forall id :: id in ids ==> id in jobs && id in jobs' && jobs[id].attempts == jobs'[id].attempts
    ensures Remaining(jobs, ids, budget) == Remaining(jobs', ids, budget)
  {
    if ids != [] { RemainingFrame(jobs, jobs', ids[..|ids| - 1], budget); }
  }

  lemma {:induction false} RemainingNonNegative(jobs: map<JobId, RelayJob>, ids: seq<JobId>, budget: nat)
    requires forall id :: id in ids ==> id in jobs && jobs[id].attempts < budget
    ensures Remaining(jobs, ids, budget) >= 0
  {
    if ids != [] { RemainingNonNegative(jobs, ids[..|ids| - 1], budget); }
  }

  lemma {:induction false} AdvanceKeepsMeasure(s: State, maxAttempts: int)
    requires forall id :: id in s.pending ==> id in s.jobs
    ensures Measure(Advance(s), maxAttempts) == Remaining(s.jobs, s.pending, Budget(maxAttempts))
  {
    if s.pending != [] && !s.closed {
      var id, rest := s.pending[0], s.pending[1..];
      assert s.pending == [id] + rest;
      RemainingSplit(s.jobs, [id], rest, Budget(maxAttempts));
      assert [id][..0] == [];
    }
  }

  lemma MeasureNonNegative(s: State, maxAttempts: int)
    requires Inv(s, maxAttempts)
    ensures Measure(s, maxAttempts) >= 0
  {
    RemainingNonNegative(s.jobs, s.pending, Budget(maxAttempts));
    if s.phase.Handling? || s.phase.Requeueing? { assert s.phase.id in [s.phase.id]; }
  }

  function Cost(e: Event): nat { if e.HandlerReturned? || e.HandlerThrew? then 1 else 0 }

  /** Each outcome of a handler uses up at least one unit; only an added job brings new ones. */
  lemma StepMeasure(s: State, maxAttempts: int, e: Event)
    requires Inv(s, maxAttempts) && (Cost(e) == 1 ==> s.phase.Handling?)
    ensures Measure(Step(s, maxAttempts, e), maxAttempts) + Cost(e)
            <= Measure(s, maxAttempts) + if e.Add? && e.id !in s.jobs then Budget(maxAttempts) else 0
  {
    hide Inv, Measure, Advance, Budget, Threw;
    match e
    case Add(id) => if id !in s.jobs { AddMeasure(s, maxAttempts, id); }
    case Process => WakeMeasure(s, maxAttempts);
    case Close => FlagsMeasure(s, s.(closed := true), maxAttempts);
    case Update(id, patch) => if id in s.jobs { UpdateMeasure(s, maxAttempts, id, patch); }
    case HandlerReturned => ReturnMeasure(s, maxAttempts);
    case HandlerThrew(message) => ThrowMeasure(s, maxAttempts, message);
    case Resume => ResumeMeasure(s, maxAttempts);
  }

  lemma FlagsMeasure(s: State, t: State, maxAttempts: int)
    requires t == s.(draining := t.draining, handlerSet := t.handlerSet, closed := t.closed)
    ensures Measure(t, maxAttempts) == Measure(s, maxAttempts)
  {}

  /** A waiting entry at the end of the list counts for what its job has left. */
  lemma JoinMeasure(jobs: map<JobId, RelayJob>, pending: seq<JobId>, id: JobId, budget: nat)
    requires id in jobs
    ensures Remaining(jobs, pending + [id], budget) == Remaining(jobs, pending, budget) + budget - jobs[id].attempts
  {
    assert (pending + [id])[..|pending|] == pending;
  }

  lemma PendingKnown(s: State, maxAttempts: int)
    requires Inv(s, maxAttempts)
    ensures forall id :: id in s.pending ==> id in s.jobs
    ensures s.draining <==> !s.phase.Idle?
    ensures !s.phase.Idle? ==> s.phase.id in s.jobs && s.phase.id !in s.pending
    ensures s.phase.Handling? ==> s.jobs[s.phase.id].attempts < Budget(maxAttempts)
    ensures s.phase.Burying? ==> s.jobs[s.phase.id].attempts <= Budget(maxAttempts)
  {
    if !s.phase.Idle? {
      InHandOnly(s);
      assert s.phase.id in [s.phase.id];
    }
  }

  lemma AddMeasure(s: State, maxAttempts: int, id: JobId)
    requires Inv(s, maxAttempts) && id !in s.jobs
    ensures Measure(Step(s, maxAttempts, Add(id)), maxAttempts) <= Measure(s, maxAttempts) + Budget(maxAttempts)
  {
    hide Inv, Advance, Remaining;
    PendingKnown(s, maxAttempts);
    var b, t := Budget(maxAttempts), Joined(s.(jobs := s.jobs[id := NEW_JOB]), id);
    RemainingFrame(s.jobs, t.jobs, s.pending, b);
    JoinMeasure(t.jobs, s.pending, id, b);
    AdvanceKeepsMeasure(t.(draining := true), maxAttempts);
  }

  lemma WakeMeasure(s: State, maxAttempts: int)
    requires Inv(s, maxAttempts)
    ensures Measure(Step(s, maxAttempts, Process), maxAttempts) <= Measure(s, maxAttempts)
  {
    hide Inv, Advance, Remaining;
    PendingKnown(s, maxAttempts);
    AdvanceKeepsMeasure(s.(handlerSet := true, draining := true), maxAttempts);
  }

  lemma UpdateMeasure(s: State, maxAttempts: int, id: JobId, patch: Patch)
    requires Inv(s, maxAttempts) && id in s.jobs
    ensures Measure(Step(s, maxAttempts, Update(id, patch)), maxAttempts) == Measure(s, maxAttempts)
  {
    hide Inv, Remaining;
    PendingKnown(s, maxAttempts);
    RemainingFrame(s.jobs, Step(s, maxAttempts, Update(id, patch)).jobs, s.pending, Budget(maxAttempts));
  }

  lemma ReturnMeasure(s: State, maxAttempts: int)
    requires Inv(s, maxAttempts) && s.phase.Handling?
    ensures Measure(Step(s, maxAttempts, HandlerReturned), maxAttempts) < Measure(s, maxAttempts)
  {
    hide Inv, Advance, Remaining;
    PendingKnown(s, maxAttempts);
    AdvanceKeepsMeasure(s.(completed := s.completed + [s.phase.id]), maxAttempts);
  }

  lemma ThrowMeasure(s: State, maxAttempts: int, message: string)
    requires Inv(s, maxAttempts) && s.phase.Handling?
    ensures Measure(Step(s, maxAttempts, HandlerThrew(message)), maxAttempts) < Measure(s, maxAttempts)
  {
    hide Inv, Remaining;
    PendingKnown(s, maxAttempts);
    RemainingFrame(s.jobs, Step(s, maxAttempts, HandlerThrew(message)).jobs, s.pending, Budget(maxAttempts));
  }

  lemma ResumeMeasure(s: State, maxAttempts: int)
    requires Inv(s, maxAttempts)
    ensures Measure(Step(s, maxAttempts, Resume), maxAttempts) <= Measure(s, maxAttempts)
  {
    hide Inv, Advance, Remaining;
    PendingKnown(s, maxAttempts);
    if s.phase.Requeueing? {
      JoinMeasure(s.jobs, s.pending, s.phase.id, Budget(maxAttempts));
      AdvanceKeepsMeasure(Joined(s, s.phase.id), maxAttempts);
    } else if s.phase.Burying? {
      AdvanceKeepsMeasure(s.(dead := s.dead + [s.phase.id]), maxAttempts);
    }
  }

  /** Handler outcomes only come from a handler at work. */
  ghost predicate Feasible(maxAttempts: int, es: seq<Event>)
  {
    es == [] || (Feasible(maxAttempts, es[..|es| - 1])
                 && (Cost(es[|es| - 1]) == 1 ==> Run(EMPTY, maxAttempts, es[..|es| - 1]).phase.Handling?))
  }

  function Outcomes(es: seq<Event>): nat
  {
    if es == [] then 0 else Outcomes(es[..|es| - 1]) + Cost(es[|es| - 1])
  }

  function Adds(es: seq<Event>): nat
  {
    if es == [] then 0 else Adds(es[..|es| - 1]) + (if es[|es| - 1].Add? then 1 else 0)
  }

  /** Draining ends: over any run the handler finishes at most max(1, maxAttempts) times per job added,
      so after the last addition only finitely many hand-overs are left, at most the measure. */
  lemma {:induction false} DrainTerminates(maxAttempts: int, es: seq<Event>)
    requires Feasible(maxAttempts, es)
    ensures 0 <= Measure(Run(EMPTY, maxAttempts, es), maxAttempts)
    ensures Outcomes(es) + Measure(Run(EMPTY, maxAttempts, es), maxAttempts) <= Budget(maxAttempts) * Adds(es)
  {
    Reachable(maxAttempts, es);
    if es == [] {
      assert Measure(EMPTY, maxAttempts) == 0;
    } else {
      hide Step, Measure, Inv, Budget;
      var rest, e := es[..|es| - 1], es[|es| - 1];
      DrainTerminates(maxAttempts, rest);
      StepUsesBudget(maxAttempts, rest, e);
      OneMoreAdd(Budget(maxAttempts), Adds(rest));
    }
  }

  lemma Reachable(maxAttempts: int, es: seq<Event>)
    ensures Inv(Run(EMPTY, maxAttempts, es), maxAttempts) && Measure(Run(EMPTY, maxAttempts, es), maxAttempts) >= 0
  {
    hide Run, Step, Measure, TimesHandled, Inv;
    QueueSafety(maxAttempts, es);
    MeasureNonNegative(Run(EMPTY, maxAttempts, es), maxAttempts);
  }

  lemma StepUsesBudget(maxAttempts: int, rest: seq<Event>, e: Event)
    requires Cost(e) == 1 ==> Run(EMPTY, maxAttempts, rest).phase.Handling?
    ensures var s := Run(EMPTY, maxAttempts, rest);
            Measure(Step(s, maxAttempts, e), maxAttempts) + Cost(e)
            <= Measure(s, maxAttempts) + if e.Add? then Budget(maxAttempts) else 0
  {
    hide Run, Step, Measure, Inv, Budget;
    Reachable(maxAttempts, rest);
    StepMeasure(Run(EMPTY, maxAttempts, rest), maxAttempts, e);
  }

  lemma OneMoreAdd(b: nat, n: nat)
    ensures b * (n + 1) == b * n + b
  {}

  // ---- what a job reports ----

  /** No caller outside the queue has patched a job. */
  ghost predicate Unpatched(es: seq<Event>, id: JobId)
  {
    forall e :: e in es ==> !(e.Update? && e.id == id)
  }

  /** What the handler last threw over a job. */
  ghost function LastThrow(maxAttempts: int, es: seq<Event>, id: JobId): Option<string>
  {
    if es == [] then None
    else
      var before, e := es[..|es| - 1], es[|es| - 1];
      if e.HandlerThrew? && Run(EMPTY, maxAttempts, before).phase == Handling(id) then Some(e.message)
      else LastThrow(maxAttempts, before, id)
  }

  ghost predicate GivenUp(s: State, id: JobId)
  {
    id in s.dead || s.phase == Burying(id)
  }

  /** A job given up says so, and why; any other is queued and reports no error, whatever was thrown before. */
  ghost predicate Reports(s: State, id: JobId, lastThrow: Option<string>)
  {
    id in s.jobs ==>
      var job := s.jobs[id];
      && job.txid == None
      && (if GivenUp(s, id) then job.state == Failed && job.error.Some? && job.error == lastThrow
          else job.state == Queued && job.error == None)
  }

  /** The loop head looks at no report. */
  lemma AdvanceReports(s: State, t: State, id: JobId, lastThrow: Option<string>)
    requires t == Advance(s) && (forall x :: x in s.pending ==> x in s.jobs)
    requires id in s.jobs ==>
               var job := s.jobs[id];
               && job.txid == None
               && (if id in s.dead then job.state == Failed && job.error.Some? && job.error == lastThrow
                   else job.state == Queued && job.error == None)
    ensures Reports(t, id, lastThrow)
  {
    hide Advance;
    if s.pending != [] { assert s.pending[0] in s.pending; }
    HeadOnlyTakes(s);
  }

  lemma HeadOnlyTakes(s: State)
    requires s.pending != [] ==> s.pending[0] in s.jobs
    ensures var t := Advance(s); t.jobs == s.jobs && t.dead == s.dead && (t.phase.Idle? || t.phase.Handling?)
  {}

  lemma StepReports(s: State, maxAttempts: int, e: Event, id: JobId, before: Option<string>, after: Option<string>)
    requires Inv(s, maxAttempts) && Reports(s, id, before) && !(e.Update? && e.id == id)
    requires after == if e.HandlerThrew? && s.phase == Handling(id) then Some(e.message) else before
    ensures Reports(Step(s, maxAttempts, e), id, after)
  {
    hide Inv, Advance;
    PendingKnown(s, maxAttempts);
    match e
    case Add(x) =>
      if x !in s.jobs {
        NotGivenUp(s, maxAttempts, x);
        var t := Joined(s.(jobs := s.jobs[x := NEW_JOB]), x);
        if !s.draining { AdvanceReports(t.(draining := true), Advance(t.(draining := true)), id, after); }
      }
    case Process =>
      var t := s.(handlerSet := true, draining := true);
      if !s.draining { AdvanceReports(t, Advance(t), id, after); }
    case Close =>
    case Update(_, _) =>
    case HandlerReturned =>
      if s.phase.Handling? {
        var t := s.(completed := s.completed + [s.phase.id]);
        AdvanceReports(t, Advance(t), id, after);
      }
    case HandlerThrew(message) => if s.phase.Handling? { InHandNotDead(s, maxAttempts); }
    case Resume =>
      if s.phase.Requeueing? {
        InHandNotDead(s, maxAttempts);
        var t := Joined(s, s.phase.id);
        AdvanceReports(t, Advance(t), id, after);
      } else if s.phase.Burying? {
        var t := s.(dead := s.dead + [s.phase.id]);
        AdvanceReports(t, Advance(t), id, after);
      }
  }

  lemma NotGivenUp(s: State, maxAttempts: int, id: JobId)
    requires Inv(s, maxAttempts) && id !in s.jobs
    ensures !GivenUp(s, id)
  {
    if !s.phase.Idle? { InHandOnly(s); }
  }

  lemma InHandNotDead(s: State, maxAttempts: int)
    requires Inv(s, maxAttempts) && !s.phase.Idle?
    ensures s.phase.id in s.jobs && s.phase.id !in s.dead
  {
    InHandOnly(s);
  }

  /** Over every run that leaves a job unpatched: dead, it is failed with the last message thrown over it;
      otherwise it is queued and reports no error. */
  lemma {:induction false} EveryJobReports(maxAttempts: int, es: seq<Event>, id: JobId)
    requires Unpatched(es, id)
    ensures Reports(Run(EMPTY, maxAttempts, es), id, LastThrow(maxAttempts, es, id))
  {
    if es != [] {
      hide Reports, Step, Inv;
      var before, e := es[..|es| - 1], es[|es| - 1];
      EveryJobReports(maxAttempts, before, id);
      Reachable(maxAttempts, before);
      StepReports(Run(EMPTY, maxAttempts, before), maxAttempts, e, id,
                  LastThrow(maxAttempts, before, id), LastThrow(maxAttempts, es, id));
    }
  }

  /** The dead letters of a run without patches: one failed job for each dead id, with its last message. */
  lemma DeadLettersReport(maxAttempts: int, es: seq<Event>, k: nat)
    requires var s := Run(EMPTY, maxAttempts, es); k < |s.dead| && Unpatched(es, s.dead[k])
    ensures var s := Run(EMPTY, maxAttempts, es);
            var id := s.dead[k];
            && id in s.jobs && s.jobs[id].state == Failed && s.jobs[id].attempts == Budget(maxAttempts)
            && s.jobs[id].error.Some? && s.jobs[id].error == LastThrow(maxAttempts, es, id)
  {
    hide Run, Step;
    Reachable(maxAttempts, es);
    EveryJobReports(maxAttempts, es, Run(EMPTY, maxAttempts, es).dead[k]);
  }

  /** A patch sets what it names on its own job, and nothing else anywhere. */
  lemma PatchSetsNamed(s: State, maxAttempts: int, id: JobId, patch: Patch)
    requires id in s.jobs
    ensures var t := Step(s, maxAttempts, Update(id, patch));
            && t == s.(jobs := t.jobs) && t.jobs.Keys == s.jobs.Keys
            && (forall x :: x in s.jobs && x != id ==> t.jobs[x] == s.jobs[x])
            && t.jobs[id].attempts == s.jobs[id].attempts
            && (patch.state.Some? ==> t.jobs[id].state == patch.state.value)
            && (patch.state.None? ==> t.jobs[id].state == s.jobs[id].state)
            && t.jobs[id].txid == (if patch.txid.Some? then patch.txid else s.jobs[id].txid)
            && t.jobs[id].error == (if patch.error.Some? then patch.error else s.jobs[id].error)
  {}

  /** A throw has the last word on its own job, whatever was patched before: with budget left the job is queued again
      and keeps its other reports, otherwise it is failed with the message. No other job changes. */
  lemma ThrowOverwrites(maxAttempts: int, es: seq<Event>, message: string)
    requires Run(EMPTY, maxAttempts, es).phase.Handling?
    ensures var s, t := Run(EMPTY, maxAttempts, es), Run(EMPTY, maxAttempts, es + [HandlerThrew(message)]);
            var id := s.phase.id;
            && id in s.jobs && t.jobs.Keys == s.jobs.Keys
            && (forall x :: x in s.jobs && x != id ==> t.jobs[x] == s.jobs[x])
            && var last := TimesHandled(s, id) >= maxAttempts;
            && t.jobs[id].attempts == TimesHandled(s, id) == TimesHandled(t, id)
            && t.jobs[id].txid == s.jobs[id].txid
            && t.jobs[id].state == (if last then Failed else Queued)
            && t.jobs[id].error == (if last then Some(message) else s.jobs[id].error)
            && t.phase == (if last then Burying(id) else Requeueing(id))
  {
    hide Run, OnePlace, Fifo, NoLostWakeup;
    Reachable(maxAttempts, es);
    LastStep(maxAttempts, es + [HandlerThrew(message)]);
    assert (es + [HandlerThrew(message)])[..|es|] == es;
    assert Run(EMPTY, maxAttempts, es).phase.id in [Run(EMPTY, maxAttempts, es).phase.id];
  }

  /** Nothing is handed over before there is a handler, and none without a job having been added. */
  lemma {:induction false} HandlerComesFirst(maxAttempts: int, es: seq<Event>)
    ensures var s := Run(EMPTY, maxAttempts, es);
            && (s.handlerSet <==> Process in es) && (s.closed <==> Close in es)
            && (Process !in es ==> s.taken == [] && s.phase.Idle?)
            && (forall id :: id in s.jobs <==> Add(id) in es)
  {
    if es != [] {
      hide Run, Step;
      var before, e := es[..|es| - 1], es[|es| - 1];
      HandlerComesFirst(maxAttempts, before);
      assert Run(EMPTY, maxAttempts, es)
             == Step(Run(EMPTY, maxAttempts, before), maxAttempts, e) by { LastStep(maxAttempts, es); }
      StepFlags(Run(EMPTY, maxAttempts, before), maxAttempts, e);
      assert es == before + [e];
    } else {
      LastStep(maxAttempts, es);
    }
  }

  lemma LastStep(maxAttempts: int, es: seq<Event>)
    ensures es == [] ==> Run(EMPTY, maxAttempts, es) == EMPTY
    ensures es != [] ==>
              Run(EMPTY, maxAttempts, es) == Step(Run(EMPTY, maxAttempts, es[..|es| - 1]), maxAttempts, es[|es| - 1])
  {}

  lemma {:induction false} AdvanceFlags(s: State)
    ensures var t := Advance(s); t.handlerSet == s.handlerSet && t.closed == s.closed && t.jobs == s.jobs
    decreases |s.pending|
  {
    if s.pending != [] && !s.closed && s.pending[0] !in s.jobs { AdvanceFlags(s.(pending := s.pending[1..])); }
  }

  lemma StepFlags(s: State, maxAttempts: int, e: Event)
    ensures var t := Step(s, maxAttempts, e);
            && t.handlerSet == (s.handlerSet || e == Process) && t.closed == (s.closed || e == Close)
            && (forall id :: id in t.jobs <==> id in s.jobs || e == Add(id))
            && (!t.handlerSet && s.phase.Idle? ==> t.phase.Idle? && t.taken == s.taken)
  {
    hide Advance;
    match e
    case Add(id) => AdvanceFlags(Joined(s.(jobs := s.jobs[id := NEW_JOB]), id).(draining := true));
    case Process => AdvanceFlags(s.(handlerSet := true, draining := true));
    case HandlerReturned => if s.phase.Handling? { AdvanceFlags(s.(completed := s.completed + [s.phase.id])); }
    case Resume =>
      if s.phase.Requeueing? { AdvanceFlags(Joined(s, s.phase.id)); }
      else if s.phase.Burying? { AdvanceFlags(s.(dead := s.dead + [s.phase.id])); }
    case _ =>
  }

  /** When an open queue with a handler comes to rest, every job is completed or dead. */
  lemma AtRestAllSettled(maxAttempts: int, es: seq<Event>)
    requires var s := Run(EMPTY, maxAttempts, es); s.handlerSet && !s.closed && s.phase.Idle?
    ensures var s := Run(EMPTY, maxAttempts, es); multiset(s.dead) + multiset(s.completed) == multiset(s.jobs.Keys)
  {
    QueueSafety(maxAttempts, es);
  }

  /** After `close` no further job is handed over, whatever happens next; jobs added from then on wait. */
  lemma {:induction false} ClosedStaysQuiet(s: State, maxAttempts: int, es: seq<Event>)
    requires s.closed
    ensures Run(s, maxAttempts, es).closed && Run(s, maxAttempts, es).taken == s.taken
  {
    if es != [] {
      hide Step;
      ClosedStaysQuiet(s, maxAttempts, es[..|es| - 1]);
      ClosedStepQuiet(Run(s, maxAttempts, es[..|es| - 1]), maxAttempts, es[|es| - 1]);
    }
  }

  lemma ClosedStepQuiet(s: State, maxAttempts: int, e: Event)
    requires s.closed
    ensures Step(s, maxAttempts, e).closed && Step(s, maxAttempts, e).taken == s.taken
  {
    hide Advance;
    if e.HandlerReturned? && s.phase.Handling? { ClosedAdvance(s.(completed := s.completed + [s.phase.id])); }
    if e.Resume? && s.phase.Requeueing? { ClosedAdvance(Joined(s, s.phase.id)); }
    if e.Resume? && s.phase.Burying? { ClosedAdvance(s.(dead := s.dead + [s.phase.id])); }
  }

  lemma ClosedAdvance(s: State)
    requires s.closed
    ensures Advance(s) == s.(phase := Idle, draining := false)
  {}
}
