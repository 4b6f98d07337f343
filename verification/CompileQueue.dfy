/**
 The compile queue of the LaTeX controller (web/src/lib/latex.js): one running
 job, one queued request, cancellation tokens, and promise callbacks that run
 later than the calls they belong to.

 A job's settlement (`then` or `catch`) and its `finally` are separate steps;
 every other call may come between them.
 */
module QueueSteps {
  import opened Basics

  /** What a caller's promise has settled to; a promise settles once. */
  datatype Outcome = Pending | Resolved(job: nat) | Failed(job: nat) | Superseded | NoProject

  datatype Phase = InFlight | Settled | Finished

  /** A started job; `tree` is the number of the compile call whose tree it compiles. */
  datatype Job = Job(generation: nat, project: Option<int>, epoch: nat, tree: nat, waiting: seq<nat>, cancelled: bool,
                     phase: Phase)

  datatype Request = Request(tree: nat, manual: bool, waiting: seq<nat>)

  /** One value of `lastResult`. */
  datatype Publication = Publication(epoch: nat, project: Option<int>, generation: nat, job: nat)

  /**
   The module's variables; `jobs` holds every token ever made, `outcomes` every
   caller's promise, `published` every value `lastResult` has had, and `epoch`
   counts the project changes.
   */
  datatype State = State(
    project: Option<int>, running: bool, queued: Option<Request>,
    activeToken: Option<nat>, activeCallbacks: Option<seq<nat>>,
    jobGeneration: nat, newestResolved: int,
    jobs: seq<Job>, outcomes: seq<Outcome>, published: seq<Publication>, epoch: nat)

  const INITIAL := State(None, false, None, None, None, 0, -1, [], [], [], 0)

  /** Settles those of the callers that have not settled yet. */
  function Settle(outcomes: seq<Outcome>, callers: seq<nat>, o: Outcome): (r: seq<Outcome>)
    ensures |r| == |outcomes|
  {
    seq(|outcomes|, c requires 0 <= c < |outcomes| => if c in callers && outcomes[c] == Pending then o else outcomes[c])
  }

  /** Starts the queued request when nothing runs. */
  function Pump(s: State): State {
    if s.running || s.queued.None? then s
    else
      var request := s.queued.value;
      var job := Job(s.jobGeneration + 1, s.project, s.epoch, request.tree, request.waiting, false, InFlight);
      s.(queued := None, running := true, jobGeneration := s.jobGeneration + 1,
         activeToken := Some(|s.jobs|), activeCallbacks := Some(request.waiting), jobs := s.jobs + [job])
  }

  /** A compile call by the next caller, who brings the newest tree. */
  function Compile(s: State, manual: bool): State {
    var caller := |s.outcomes|;
    if s.project.None? then s.(outcomes := s.outcomes + [NoProject])
    else
      var request := match s.queued
        case Some(stale) => Request(caller, manual || stale.manual, stale.waiting + [caller])
        case None => Request(caller, manual, [caller]);
      Pump(s.(outcomes := s.outcomes + [Pending], queued := Some(request)))
  }

  /** Rejects and drops the queued request, then rejects and abandons the running job. */
  function Cancel(s: State): State {
    Pump(DropActive(DropQueued(s)))
  }

  function DropQueued(s: State): State {
    match s.queued
    case Some(request) => s.(outcomes := Settle(s.outcomes, request.waiting, Superseded), queued := None)
    case None => s
  }

  function DropActive(s: State): State {
    match s.activeToken
    case Some(t) =>
      if t < |s.jobs| && !s.jobs[t].cancelled then
        s.(jobs := s.jobs[t := s.jobs[t].(cancelled := true)],
           outcomes := match s.activeCallbacks
                       case Some(callers) => Settle(s.outcomes, callers, Superseded)
                       case None => s.outcomes,
           activeCallbacks := None, running := false, activeToken := None)
      else s
    case None => s
  }

  /** Names the project; a different project drops everything and restarts the generations. */
  function Configure(s: State, project: Option<int>): State {
    if s.project == project then s
    else
      var dropped := Cancel(s.(project := project));
      dropped.(jobGeneration := 0, newestResolved := -1, epoch := s.epoch + 1)
  }

  /** The job's promise resolved: `then` publishes and answers, unless the token is cancelled. */
  function Then(s: State, t: nat): State
    requires t < |s.jobs|
  {
    var job := s.jobs[t];
    var settled := s.(jobs := s.jobs[t := job.(phase := Settled)]);
    if job.cancelled then settled
    else
      var answered := settled.(outcomes := Settle(s.outcomes, job.waiting, Resolved(t)));
      if job.generation >= s.newestResolved then
        answered.(newestResolved := job.generation,
                  published := s.published + [Publication(job.epoch, job.project, job.generation, t)])
      else answered
  }

  /** The job's promise rejected: `catch` rejects the callers, unless the token is cancelled. */
  function Catch(s: State, t: nat): State
    requires t < |s.jobs|
  {
    var job := s.jobs[t];
    var settled := s.(jobs := s.jobs[t := job.(phase := Settled)]);
    if job.cancelled then settled else settled.(outcomes := Settle(s.outcomes, job.waiting, Failed(t)))
  }

  /** `finally` frees the queue only if the job is still the active one, then starts what is queued. */
  function Finally(s: State, t: nat): State
    requires t < |s.jobs|
  {
    var finished := s.(jobs := s.jobs[t := s.jobs[t].(phase := Finished)]);
    Pump(if s.activeToken == Some(t) then finished.(running := false, activeToken := None, activeCallbacks := None)
         else finished)
  }

  datatype Event =
    | CompileCall(manual: bool) | CancelCall | SettingsCall | ConfigureCall(project: Option<int>)
    | JobResolved(job: nat) | JobRejected(job: nat) | JobFinally(job: nat)

  /** A job settles once while in flight; its `finally` runs once, after that. */
  predicate Enabled(s: State, e: Event) {
    match e
    case JobResolved(t) => t < |s.jobs| && s.jobs[t].phase == InFlight
    case JobRejected(t) => t < |s.jobs| && s.jobs[t].phase == InFlight
    case JobFinally(t) => t < |s.jobs| && s.jobs[t].phase == Settled
    case _ => true
  }

  function Step(s: State, e: Event): State
    requires Enabled(s, e)
  {
    match e
    case CompileCall(manual) => Compile(s, manual)
    case CancelCall => Cancel(s)
    case SettingsCall => Cancel(s)
    case ConfigureCall(project) => Configure(s, project)
    case JobResolved(t) => Then(s, t)
    case JobRejected(t) => Catch(s, t)
    case JobFinally(t) => Finally(s, t)
  }

  /** A run: the states after each event, in any order the callbacks and calls may come. */
  ghost predicate IsRun(states: seq<State>, events: seq<Event>) {
    && |states| == |events| + 1 && states[0] == INITIAL
    && forall i :: 0 <= i < |events| ==> Enabled(states[i], events[i]) && states[i + 1] == Step(states[i], events[i])
  }
}

module QueueSafety {
  import opened Basics
  import opened QueueSteps

  /** An uncancelled job whose callbacks have not all run. */
  predicate Live(job: Job) { !job.cancelled && job.phase != Finished }

  ghost predicate WaitsIn(waiting: seq<nat>, s: State) {
    && (forall i :: 0 <= i < |waiting| ==> waiting[i] < |s.outcomes|)
    && (forall i, j :: 0 <= i < j < |waiting| ==> waiting[i] != waiting[j])
  }

  /** The flags, the token and the callbacks describe one live job, or none. */
  ghost predicate OneLiveJob(s: State) {
    && (s.running <==> s.activeToken.Some?)
    && (s.activeToken.Some? ==>
          s.activeToken.value < |s.jobs| && Live(s.jobs[s.activeToken.value])
          && s.activeCallbacks == Some(s.jobs[s.activeToken.value].waiting))
    && (s.activeToken.None? ==> s.activeCallbacks.None?)
    && (forall t :: 0 <= t < |s.jobs| && Live(s.jobs[t]) ==> s.activeToken == Some(t))
  }

  /** Nothing waits in the queue while nothing runs. */
  ghost predicate QueueMoves(s: State) { s.queued.Some? ==> s.running }

  function QueuedCallers(s: State): seq<nat> {
    match s.queued case Some(request) => request.waiting case None => []
  }

  ghost predicate Separate(x: seq<nat>, y: seq<nat>) { forall c :: c in x ==> c !in y }

  /** Nobody in the list asked for a tree newer than the one the list will be answered with. */
  ghost predicate NotNewer(waiting: seq<nat>, tree: nat) { forall c :: c in waiting ==> c <= tree }

  /** The queued tree is the one that the last caller brought. */
  ghost predicate IsNewest(request: Request) {
    request.waiting != [] && request.tree == request.waiting[|request.waiting| - 1]
  }

  /** Callers of different lists are different, and no list is answered with a tree older than a caller's own. */
  ghost predicate CallersApart(s: State) {
    && WaitsIn(QueuedCallers(s), s)
    && (s.queued.Some? ==> NotNewer(s.queued.value.waiting, s.queued.value.tree) && IsNewest(s.queued.value))
    && (forall t :: 0 <= t < |s.jobs| ==> JobCallers(s, s.jobs[t]))
    && (forall t, u :: 0 <= t < u < |s.jobs| ==> Separate(s.jobs[t].waiting, s.jobs[u].waiting))
  }

  ghost predicate JobCallers(s: State, job: Job) {
    WaitsIn(job.waiting, s) && NotNewer(job.waiting, job.tree) && Separate(job.waiting, QueuedCallers(s))
  }

  /** The caller is in the queue, or waits for the live job that has not settled. */
  ghost predicate StillWaiting(s: State, c: nat) { c in QueuedCallers(s) || WaitsForJob(s, c) }

  ghost predicate WaitsForJob(s: State, c: nat) {
    exists t :: 0 <= t < |s.jobs| && Live(s.jobs[t]) && s.jobs[t].phase == InFlight && c in s.jobs[t].waiting
  }

  /** A promise is unsettled exactly while its caller is still waiting; answers come from the caller's own job. */
  ghost predicate OutcomesRight(s: State) {
    forall c :: 0 <= c < |s.outcomes| ==> OutcomeRight(s, c)
  }

  ghost predicate OutcomeRight(s: State, c: nat)
    requires c < |s.outcomes|
  {
    && (s.outcomes[c] == Pending <==> StillWaiting(s, c))
    && (s.outcomes[c].Resolved? || s.outcomes[c].Failed? ==>
          s.outcomes[c].job < |s.jobs| && c in s.jobs[s.outcomes[c].job].waiting)
  }

  /** Live jobs carry the newest generation, which is not published before they settle. */
  ghost predicate JobGenerations(s: State) {
    && s.newestResolved <= s.jobGeneration
    && (forall t :: 0 <= t < |s.jobs| && Live(s.jobs[t]) ==>
          && s.jobs[t].generation == s.jobGeneration && s.jobs[t].epoch == s.epoch && s.jobs[t].project == s.project
          && (s.jobs[t].phase == InFlight ==> s.newestResolved < s.jobGeneration))
  }

  /** Published generations strictly increase within a project, and belong to it. */
  ghost predicate Publications(s: State) {
    && (forall i :: 0 <= i < |s.published| ==>
          && s.published[i].epoch <= s.epoch
          && (s.published[i].epoch == s.epoch ==>
                s.published[i].generation <= s.newestResolved && s.published[i].project == s.project))
    && (forall i, j :: 0 <= i < j < |s.published| ==> Before(s.published[i], s.published[j]))
  }

  ghost predicate Before(p: Publication, q: Publication) {
    p.epoch < q.epoch || (p.epoch == q.epoch && p.project == q.project && p.generation < q.generation)
  }

  ghost predicate Base(s: State) {
    && OneLiveJob(s) && CallersApart(s) && OutcomesRight(s)
    && JobGenerations(s) && Publications(s) && (s.queued.Some? ==> s.project.Some?)
  }

  ghost predicate Inv(s: State) { Base(s) && QueueMoves(s) }

  // ----- Every step keeps the invariant -----

  lemma PumpKeeps(s: State)
    requires Base(s)
    ensures Inv(Pump(s))
  {
    var r := Pump(s);
    if r != s {
      var t := |s.jobs|;
      assert forall u :: 0 <= u < t ==> r.jobs[u] == s.jobs[u];
      forall c: nat | c < |r.outcomes| ensures OutcomeRight(r, c) {
        assert OutcomeRight(s, c);
        if c in QueuedCallers(s) { assert Live(r.jobs[t]) && c in r.jobs[t].waiting; }
      }
    }
  }

  lemma EnqueueKeeps(s: State, manual: bool)
    requires Inv(s) && s.project.Some?
    ensures var caller := |s.outcomes|;
            var waiting := QueuedCallers(s) + [caller];
            Base(s.(outcomes := s.outcomes + [Pending], queued := Some(Request(caller, manual, waiting))))
  {
    var caller := |s.outcomes|;
    var waiting := QueuedCallers(s) + [caller];
    var r := s.(outcomes := s.outcomes + [Pending], queued := Some(Request(caller, manual, waiting)));
    forall t | 0 <= t < |s.jobs| ensures JobCallers(r, s.jobs[t]) { assert JobCallers(s, s.jobs[t]); }
    forall c: nat | c < |r.outcomes| ensures OutcomeRight(r, c) {
      if c < caller { assert OutcomeRight(s, c); }
    }
  }

  lemma CompileKeeps(s: State, manual: bool)
    requires Inv(s)
    ensures Inv(Compile(s, manual))
  {
    if s.project.Some? {
      var all := manual || (s.queued.Some? && s.queued.value.manual);
      EnqueueKeeps(s, all);
      var caller := |s.outcomes|;
      var r := s.(outcomes := s.outcomes + [Pending],
          queued := Some(Request(caller, all, QueuedCallers(s) + [caller])));
      assert [] + [caller] == [caller];
      PumpKeeps(r);
      assert Compile(s, manual) == Pump(r);
    } else {
      var r := Compile(s, manual);
      forall t | 0 <= t < |s.jobs| ensures JobCallers(r, s.jobs[t]) { assert JobCallers(s, s.jobs[t]); }
      forall c: nat | c < |r.outcomes| ensures OutcomeRight(r, c) {
        if c < |s.outcomes| { assert OutcomeRight(s, c); }
      }
    }
  }

  lemma DropQueuedKeeps(s: State)
    requires Base(s)
    ensures Base(DropQueued(s)) && DropQueued(s).queued.None?
  {
    var r := DropQueued(s);
    if s.queued.Some? {
      forall c: nat | c < |r.outcomes| ensures OutcomeRight(r, c) {
        assert OutcomeRight(s, c);
      }
    }
  }

  lemma DropActiveKeeps(s: State)
    requires Base(s) && s.queued.None?
    ensures Base(DropActive(s)) && DropActive(s).queued.None? && !DropActive(s).running
  {
    var r := DropActive(s);
    if s.activeToken.Some? {
      var t := s.activeToken.value;
      assert forall u :: 0 <= u < |s.jobs| && u != t ==> r.jobs[u] == s.jobs[u];
      forall c: nat | c < |r.outcomes| ensures OutcomeRight(r, c) {
        assert OutcomeRight(s, c);
      }
    }
  }

  lemma CancelKeeps(s: State)
    requires Base(s)
    ensures Inv(Cancel(s)) && !Cancel(s).running && Cancel(s).queued.None?
  {
    DropQueuedKeeps(s);
    DropActiveKeeps(DropQueued(s));
    PumpKeeps(DropActive(DropQueued(s)));
  }

  lemma ThenKeeps(s: State, t: nat)
    requires Inv(s) && t < |s.jobs| && s.jobs[t].phase == InFlight
    ensures Inv(Then(s, t))
  {
    var r := Then(s, t);
    assert forall u :: 0 <= u < |s.jobs| && u != t ==> r.jobs[u] == s.jobs[u];
    assert r.jobs[t].waiting == s.jobs[t].waiting;
    forall c: nat | c < |r.outcomes| ensures OutcomeRight(r, c) {
      assert OutcomeRight(s, c);
    }
  }

  lemma CatchKeeps(s: State, t: nat)
    requires Inv(s) && t < |s.jobs| && s.jobs[t].phase == InFlight
    ensures Inv(Catch(s, t))
  {
    var r := Catch(s, t);
    assert forall u :: 0 <= u < |s.jobs| && u != t ==> r.jobs[u] == s.jobs[u];
    assert r.jobs[t].waiting == s.jobs[t].waiting;
    forall c: nat | c < |r.outcomes| ensures OutcomeRight(r, c) {
      assert OutcomeRight(s, c);
    }
  }

  lemma FinishedKeeps(s: State, t: nat)
    requires Inv(s) && t < |s.jobs| && s.jobs[t].phase == Settled
    ensures var finished := s.(jobs := s.jobs[t := s.jobs[t].(phase := Finished)]);
      Base(if s.activeToken == Some(t) then finished.(running := false, activeToken := None, activeCallbacks := None)
           else finished)
  {
    var finished := s.(jobs := s.jobs[t := s.jobs[t].(phase := Finished)]);
    var r := if s.activeToken == Some(t) then finished.(running := false, activeToken := None, activeCallbacks := None)
             else finished;
    assert forall u :: 0 <= u < |s.jobs| && u != t ==> r.jobs[u] == s.jobs[u];
    assert r.jobs[t].waiting == s.jobs[t].waiting;
    forall c: nat | c < |r.outcomes| ensures OutcomeRight(r, c) {
      assert OutcomeRight(s, c);
    }
  }

  lemma FinallyKeeps(s: State, t: nat)
    requires Inv(s) && t < |s.jobs| && s.jobs[t].phase == Settled
    ensures Inv(Finally(s, t))
  {
    hide Base, Pump;
    FinishedKeeps(s, t);
    var finished := s.(jobs := s.jobs[t := s.jobs[t].(phase := Finished)]);
    PumpKeeps(if s.activeToken == Some(t) then finished.(running := false, activeToken := None, activeCallbacks := None)
              else finished);
  }

  lemma StepKeeps(s: State, e: Event)
    requires Inv(s) && Enabled(s, e)
    ensures Inv(Step(s, e))
  {
    match e
    case CompileCall(manual) => CompileKeeps(s, manual);
    case CancelCall => CancelKeeps(s);
    case SettingsCall => CancelKeeps(s);
    case ConfigureCall(project) => ConfigureKeeps(s, project);
    case JobResolved(t) => ThenKeeps(s, t);
    case JobRejected(t) => CatchKeeps(s, t);
    case JobFinally(t) => FinallyKeeps(s, t);
  }

  /** Naming another project mid-run is safe because everything is dropped before the generations restart. */
  lemma ConfigureKeeps(s: State, project: Option<int>)
    requires Inv(s)
    ensures Inv(Configure(s, project))
  {
    if s.project != project {
      CancelKeeps(s);
      var d, r := Cancel(s), Configure(s, project);
      assert r == d.(project := project, jobGeneration := 0, newestResolved := -1, epoch := s.epoch + 1);
      forall c: nat | c < |r.outcomes| ensures OutcomeRight(r, c) {
        assert OutcomeRight(d, c);
      }
    }
  }

  // ----- What one event does, in terms of who waits and what runs -----

  /** The event discards the running job and the queue. */
  ghost predicate Discards(s: State, e: Event) {
    e.CancelCall? || e.SettingsCall? || (e.ConfigureCall? && e.project != s.project)
  }

  /** The event answers caller c, and how: the job's own result or error, or that the call was discarded. */
  ghost predicate Settles(s: State, e: Event, c: nat, o: Outcome) {
    match e
    case JobResolved(t) => t < |s.jobs| && !s.jobs[t].cancelled && c in s.jobs[t].waiting && o == Resolved(t)
    case JobRejected(t) => t < |s.jobs| && !s.jobs[t].cancelled && c in s.jobs[t].waiting && o == Failed(t)
    case JobFinally(_) => false
    case CompileCall(_) => c == |s.outcomes| && s.project.None? && o == NoProject
    case _ => Discards(s, e) && c < |s.outcomes| && s.outcomes[c] == Pending && o == Superseded
  }

  /** A compile call has a promise of its own; a promise is settled by the events that settle it, and by no others. */
  ghost predicate OutcomesAfter(s: State, e: Event, r: State) {
    && |r.outcomes| == |s.outcomes| + (if e.CompileCall? then 1 else 0)
    && forall c: nat :: c < |r.outcomes| ==> OutcomeAfter(s, e, c, r.outcomes[c])
  }

  ghost predicate OutcomeAfter(s: State, e: Event, c: nat, now: Outcome) {
    if c < |s.outcomes| && s.outcomes[c] != Pending then now == s.outcomes[c]
    else forall o :: o != Pending ==> (now == o <==> Settles(s, e, c, o))
  }

  /** Only the live job is cancelled, only by discarding; a job's own callbacks move it on; the rest of it stays. */
  ghost predicate JobAfter(s: State, e: Event, t: nat, was: Job, now: Job) {
    && now.generation == was.generation && now.project == was.project && now.epoch == was.epoch
    && now.tree == was.tree && now.waiting == was.waiting
    && now.cancelled == (was.cancelled || (Discards(s, e) && Live(was)))
    && now.phase == match e
                    case JobResolved(u) => if u == t then Settled else was.phase
                    case JobRejected(u) => if u == t then Settled else was.phase
                    case JobFinally(u) => if u == t then Finished else was.phase
                    case _ => was.phase
  }

  /** Who waits in the queue once the event has come, before anything starts. */
  ghost function CallersNow(s: State, e: Event): seq<nat> {
    if Discards(s, e) then []
    else if e.CompileCall? && s.project.Some? then QueuedCallers(s) + [|s.outcomes|]
    else QueuedCallers(s)
  }

  /** Some live job is neither discarded nor done with the event. */
  ghost predicate StaysBusy(s: State, e: Event) {
    exists t :: 0 <= t < |s.jobs| && Live(s.jobs[t]) && !Discards(s, e) && e != JobFinally(t)
  }

  /** The queue starts as one job exactly when nobody stays busy: all its callers, with the last one's tree. */
  ghost predicate JobsAfter(s: State, e: Event, r: State) {
    var waiting := CallersNow(s, e);
    var starts := waiting != [] && !StaysBusy(s, e);
    && |r.jobs| == |s.jobs| + (if starts then 1 else 0)
    && (forall t :: 0 <= t < |s.jobs| ==> JobAfter(s, e, t, s.jobs[t], r.jobs[t]))
    && QueuedCallers(r) == (if starts then [] else waiting)
    && (r.queued.Some? && e.CompileCall? ==>
          r.queued.value.manual == (e.manual || (s.queued.Some? && s.queued.value.manual)))
    && (starts ==>
          var tree := waiting[|waiting| - 1];
          r.jobs[|s.jobs|] == Job(s.jobGeneration + 1, s.project, s.epoch, tree, waiting, false, InFlight))
  }

  /** Exactly a result that is not cancelled is published. */
  ghost predicate PublishedAfter(s: State, e: Event, r: State) {
    r.published == s.published
                   + if e.JobResolved? && e.job < |s.jobs| && !s.jobs[e.job].cancelled
                     then [Publication(s.epoch, s.project, s.jobs[e.job].generation, e.job)] else []
  }

  /** A configure call names its project; naming another one begins a new epoch. */
  ghost predicate ProjectAfter(s: State, e: Event, r: State) {
    && r.project == (if e.ConfigureCall? then e.project else s.project)
    && r.epoch == s.epoch + if r.project == s.project then 0 else 1
  }

  ghost predicate IsStep(s: State, e: Event, r: State) {
    OutcomesAfter(s, e, r) && JobsAfter(s, e, r) && PublishedAfter(s, e, r) && ProjectAfter(s, e, r)
  }

  /** What an event does to the callers before the queue moves. */
  lemma PumpIs(s: State)
    requires Base(s)
    ensures var r := Pump(s);
      && r.outcomes == s.outcomes && r.published == s.published && r.project == s.project && r.epoch == s.epoch
      && var waiting, starts := QueuedCallers(s), QueuedCallers(s) != [] && !s.running;
         && |r.jobs| == |s.jobs| + (if starts then 1 else 0) && r.jobs[..|s.jobs|] == s.jobs
         && QueuedCallers(r) == (if starts then [] else waiting) && r.queued == (if starts then None else s.queued)
         && (starts ==>
               var tree := waiting[|waiting| - 1];
               r.jobs[|s.jobs|] == Job(s.jobGeneration + 1, s.project, s.epoch, tree, waiting, false, InFlight))
  {
    hide OutcomesRight, JobGenerations, Publications;
  }

  /** The one live job, and whether it stays. */
  lemma BusyIs(s: State, e: Event)
    requires OneLiveJob(s)
    ensures StaysBusy(s, e) <==> s.running && !Discards(s, e) && e != JobFinally(s.activeToken.value)
  {
    if s.running { assert Live(s.jobs[s.activeToken.value]); }
  }

  /** The state with a new caller queued, and what is left of the call once it is pumped. */
  function Enqueued(s: State, manual: bool): State {
    var caller := |s.outcomes|;
    var all := manual || (s.queued.Some? && s.queued.value.manual);
    s.(outcomes := s.outcomes + [Pending], queued := Some(Request(caller, all, QueuedCallers(s) + [caller])))
  }

  lemma CompileEnqueues(s: State, manual: bool)
    requires Inv(s) && s.project.Some?
    ensures Compile(s, manual) == Pump(Enqueued(s, manual)) && Base(Enqueued(s, manual))
  {
    EnqueueKeeps(s, manual || (s.queued.Some? && s.queued.value.manual));
    hide Pump, Base;
    assert [] + [|s.outcomes|] == [|s.outcomes|];
  }

  lemma CompileIs(s: State, manual: bool)
    requires Inv(s)
    ensures IsStep(s, CompileCall(manual), Compile(s, manual))
  {
    hide Pump, OutcomesRight, JobGenerations, Publications, CallersApart;
    var e := CompileCall(manual);
    BusyIs(s, e);
    var r := Compile(s, manual);
    if s.project.Some? {
      CompileEnqueues(s, manual);
      var q := Enqueued(s, manual);
      PumpIs(q);
      hide Compile, Base, Inv;
      forall t | 0 <= t < |s.jobs| ensures JobAfter(s, e, t, s.jobs[t], r.jobs[t]) {
        assert r.jobs[t] == r.jobs[..|s.jobs|][t];
      }
    }
  }

  lemma CancelIs(s: State, e: Event)
    requires Inv(s)
    requires e.CancelCall? || e.SettingsCall? || (e.ConfigureCall? && e.project != s.project)
    ensures var r := Cancel(s);
            && OutcomesAfter(s, e, r) && JobsAfter(s, e, r) && PublishedAfter(s, e, r)
            && r.project == s.project && r.epoch == s.epoch
  {
    CancelOutcomes(s, e);
    CancelJobs(s, e);
  }

  lemma CancelOutcomes(s: State, e: Event)
    requires Inv(s) && Discards(s, e)
    ensures OutcomesAfter(s, e, Cancel(s))
  {
    CancelExtends(s);
    CancelKeeps(s);
    var r := Cancel(s);
    assert |r.outcomes| == |s.outcomes|;
    hide Cancel, OneLiveJob, CallersApart, JobGenerations, Publications;
    forall c: nat | c < |r.outcomes| ensures OutcomeAfter(s, e, c, r.outcomes[c]) {
      CancelAnswers(s, c);
    }
  }

  lemma CancelAnswers(s: State, c: nat)
    requires Inv(s) && c < |s.outcomes|
    ensures |Cancel(s).outcomes| == |s.outcomes|
    ensures Cancel(s).outcomes[c] == if s.outcomes[c] == Pending then Superseded else s.outcomes[c]
  {
    hide JobGenerations, Publications;
    assert OutcomeRight(s, c);
  }

  lemma CancelJobs(s: State, e: Event)
    requires Inv(s) && Discards(s, e)
    ensures var r := Cancel(s);
            JobsAfter(s, e, r) && PublishedAfter(s, e, r) && r.project == s.project && r.epoch == s.epoch
  {
    hide OutcomesRight, JobGenerations, Publications, CallersApart;
    BusyIs(s, e);
  }

  lemma ConfigureIs(s: State, project: Option<int>)
    requires Inv(s)
    ensures IsStep(s, ConfigureCall(project), Configure(s, project))
  {
    var e := ConfigureCall(project);
    BusyIs(s, e);
    if s.project != project {
      CancelIs(s, e);
      var d, r := Cancel(s), Configure(s, project);
      assert r == d.(project := project, jobGeneration := 0, newestResolved := -1, epoch := s.epoch + 1);
    }
  }

  lemma SettleIs(s: State, t: nat, e: Event, r: State)
    requires Inv(s) && t < |s.jobs| && s.jobs[t].phase == InFlight
    requires (e == JobResolved(t) && r == Then(s, t)) || (e == JobRejected(t) && r == Catch(s, t))
    ensures IsStep(s, e, r)
  {
    BusyIs(s, e);
    forall c: nat | c < |r.outcomes| ensures OutcomeAfter(s, e, c, r.outcomes[c]) {
      assert OutcomeRight(s, c);
      if !s.jobs[t].cancelled && c in s.jobs[t].waiting { assert WaitsForJob(s, c); }
    }
    if e.JobResolved? && !s.jobs[t].cancelled { ResultIsAlwaysNewest(s, t); }
  }

  lemma FinallyIs(s: State, t: nat)
    requires Inv(s) && t < |s.jobs| && s.jobs[t].phase == Settled
    ensures IsStep(s, JobFinally(t), Finally(s, t))
  {
    hide OutcomesRight, JobGenerations, Publications, CallersApart;
    var e, r := JobFinally(t), Finally(s, t);
    BusyIs(s, e);
    var finished := s.(jobs := s.jobs[t := s.jobs[t].(phase := Finished)]);
    var q := if s.activeToken == Some(t) then finished.(running := false, activeToken := None, activeCallbacks := None)
             else finished;
    FinishedKeeps(s, t);
    assert r == Pump(q);
    hide Pump, Base;
    PumpIs(q);
    forall u | 0 <= u < |s.jobs| ensures JobAfter(s, e, u, s.jobs[u], r.jobs[u]) {
      assert r.jobs[u] == r.jobs[..|s.jobs|][u];
    }
  }

  /** Every event does exactly this to callers, jobs, queue, results and project. */
  lemma StepIs(s: State, e: Event)
    requires Inv(s) && Enabled(s, e)
    ensures IsStep(s, e, Step(s, e))
  {
    match e
    case CompileCall(manual) => CompileIs(s, manual);
    case CancelCall => CancelIs(s, e);
    case SettingsCall => CancelIs(s, e);
    case ConfigureCall(project) => ConfigureIs(s, project);
    case JobResolved(t) => SettleIs(s, t, e, Then(s, t));
    case JobRejected(t) => SettleIs(s, t, e, Catch(s, t));
    case JobFinally(t) => FinallyIs(s, t);
  }

  // ----- What the invariant says about whole runs -----

  /** Every state of every run satisfies the invariant. */
  lemma {:induction false} RunsAreSafe(states: seq<State>, events: seq<Event>, i: nat)
    requires IsRun(states, events) && i < |states|
    ensures Inv(states[i])
  {
    if i > 0 {
      RunsAreSafe(states, events, i - 1);
      StepKeeps(states[i - 1], events[i - 1]);
    }
  }

  /** At most one job runs that is not cancelled, and `running` says whether there is one. */
  lemma AtMostOneLive(s: State, t: nat, u: nat)
    requires Inv(s) && t < |s.jobs| && u < |s.jobs| && Live(s.jobs[t]) && Live(s.jobs[u])
    ensures t == u && s.running && s.activeToken == Some(t)
  {
  }

  /** Every unsettled caller waits in exactly one place: the queue, or one live job that has not settled. */
  lemma UnsettledWaitsOnce(s: State, c: nat)
    requires Inv(s) && c < |s.outcomes|
    ensures s.outcomes[c] == Pending <==> (c in QueuedCallers(s)) != WaitsForJob(s, c)
  {
    assert OutcomeRight(s, c);
    if WaitsForJob(s, c) {
      var t :| 0 <= t < |s.jobs| && Live(s.jobs[t]) && s.jobs[t].phase == InFlight && c in s.jobs[t].waiting;
      assert JobCallers(s, s.jobs[t]);
    }
  }

  /** When every started job has run its callbacks, nobody is left waiting. */
  lemma NobodyIsForgotten(s: State, c: nat)
    requires Inv(s) && c < |s.outcomes|
    requires forall t :: 0 <= t < |s.jobs| ==> s.jobs[t].phase == Finished
    ensures s.outcomes[c] != Pending && s.queued.None? && !s.running
  {
    assert OutcomeRight(s, c);
  }

  /** A late `finally` of a job that is no longer active frees nothing and starts nothing. */
  lemma LateFinallyIsHarmless(s: State, t: nat)
    requires Inv(s) && t < |s.jobs| && s.activeToken != Some(t)
    ensures Finally(s, t) == s.(jobs := s.jobs[t := s.jobs[t].(phase := Finished)])
  {
  }

  /** The generation comparison before publishing never fails: an uncancelled result is always the newest. */
  lemma ResultIsAlwaysNewest(s: State, t: nat)
    requires Inv(s) && t < |s.jobs| && s.jobs[t].phase == InFlight && !s.jobs[t].cancelled
    ensures s.jobs[t].generation > s.newestResolved
    ensures Then(s, t).published
         == s.published + [Publication(s.epoch, s.project, s.jobGeneration, t)]
  {
    assert Live(s.jobs[t]);
  }

  /** What one step can never undo. */
  ghost predicate Extends(s: State, r: State) {
    && |s.outcomes| <= |r.outcomes| && |s.jobs| <= |r.jobs|
    && (forall c :: 0 <= c < |s.outcomes| && s.outcomes[c] != Pending ==> r.outcomes[c] == s.outcomes[c])
    && (forall t :: 0 <= t < |s.jobs| ==> Continues(s.jobs[t], r.jobs[t]))
    && s.published <= r.published
    && (forall t, k :: 0 <= t < |s.jobs| && s.jobs[t].cancelled && |s.published| <= k < |r.published| ==>
          r.published[k].job != t)
  }

  /** The same job later: only its cancellation and its phase may have moved on. */
  ghost predicate Continues(was: Job, job: Job) {
    && job == was.(cancelled := job.cancelled, phase := job.phase)
    && (was.cancelled ==> job.cancelled)
  }

  lemma ExtendsTransitive(x: State, y: State, z: State)
    requires Extends(x, y) && Extends(y, z)
    ensures Extends(x, z)
  {
    forall t | 0 <= t < |x.jobs| ensures Continues(x.jobs[t], z.jobs[t]) {
      assert Continues(x.jobs[t], y.jobs[t]) && Continues(y.jobs[t], z.jobs[t]);
    }
    forall t, k | 0 <= t < |x.jobs| && x.jobs[t].cancelled && |x.published| <= k < |z.published|
      ensures z.published[k].job != t
    {
      assert Continues(x.jobs[t], y.jobs[t]);
      if k < |y.published| { assert z.published[k] == y.published[k]; }
    }
  }

  lemma PumpExtends(s: State)
    ensures Extends(s, Pump(s))
  {
  }

  lemma CancelExtends(s: State)
    ensures Extends(s, Cancel(s))
  {
    assert Extends(s, DropQueued(s));
    DropActiveExtends(DropQueued(s));
    PumpExtends(DropActive(DropQueued(s)));
    hide Pump, DropActive, DropQueued;
    ExtendsTransitive(s, DropQueued(s), DropActive(DropQueued(s)));
    ExtendsTransitive(s, DropActive(DropQueued(s)), Cancel(s));
  }

  lemma DropActiveExtends(s: State)
    ensures Extends(s, DropActive(s))
  {
  }

  lemma CompileExtends(s: State, manual: bool)
    ensures Extends(s, Compile(s, manual))
  {
    if s.project.Some? {
      var caller := |s.outcomes|;
      var request := match s.queued
        case Some(stale) => Request(caller, manual || stale.manual, stale.waiting + [caller])
        case None => Request(caller, manual, [caller]);
      var r := s.(outcomes := s.outcomes + [Pending], queued := Some(request));
      assert Extends(s, r);
      PumpExtends(r);
      hide Pump;
      ExtendsTransitive(s, r, Pump(r));
    }
  }

  lemma CallbackExtends(s: State, t: nat)
    requires t < |s.jobs|
    ensures Extends(s, Then(s, t)) && Extends(s, Catch(s, t)) && Extends(s, Finally(s, t))
  {
    assert Extends(s, Then(s, t)) && Extends(s, Catch(s, t));
    var finished := s.(jobs := s.jobs[t := s.jobs[t].(phase := Finished)]);
    var r := if s.activeToken == Some(t) then finished.(running := false, activeToken := None, activeCallbacks := None)
             else finished;
    assert Extends(s, r);
    PumpExtends(r);
    hide Pump, Then, Catch;
    ExtendsTransitive(s, r, Pump(r));
  }

  lemma StepExtends(s: State, e: Event)
    requires Enabled(s, e)
    ensures Extends(s, Step(s, e))
  {
    hide Compile, Cancel, Then, Catch, Finally, Extends;
    match e
    case CompileCall(manual) => CompileExtends(s, manual);
    case CancelCall => CancelExtends(s);
    case SettingsCall => CancelExtends(s);
    case ConfigureCall(project) => ConfigureExtends(s, project);
    case JobResolved(t) => CallbackExtends(s, t);
    case JobRejected(t) => CallbackExtends(s, t);
    case JobFinally(t) => CallbackExtends(s, t);
  }

  lemma ConfigureExtends(s: State, project: Option<int>)
    ensures Extends(s, Configure(s, project))
  {
    hide Cancel;
    CancelExtends(s.(project := project));
  }

  lemma ExtendsItself(s: State)
    ensures Extends(s, s)
  {
  }

  lemma {:induction false} RunExtends(states: seq<State>, events: seq<Event>, i: nat, j: nat)
    requires IsRun(states, events) && i <= j < |states|
    ensures Extends(states[i], states[j])
    decreases j
  {
    hide Step, Extends, Enabled;
    if i == j {
      ExtendsItself(states[i]);
    } else {
      RunExtends(states, events, i, j - 1);
      assert Enabled(states[j - 1], events[j - 1]) && states[j] == Step(states[j - 1], events[j - 1]);
      StepExtends(states[j - 1], events[j - 1]);
      ExtendsTransitive(states[i], states[j - 1], states[j]);
    }
  }

  /** A settled promise never changes, in any interleaving. */
  lemma SettledOnce(states: seq<State>, events: seq<Event>, i: nat, j: nat, c: nat)
    requires IsRun(states, events) && i <= j < |states| && c < |states[i].outcomes|
    requires states[i].outcomes[c] != Pending
    ensures c < |states[j].outcomes| && states[j].outcomes[c] == states[i].outcomes[c]
  {
    RunExtends(states, events, i, j);
  }

  /** Once cancelled, a job never again becomes the last result. */
  lemma CancelledNeverPublishes(states: seq<State>, events: seq<Event>, i: nat, j: nat, t: nat, k: nat)
    requires IsRun(states, events) && i <= j < |states|
    requires t < |states[i].jobs| && states[i].jobs[t].cancelled
    requires |states[i].published| <= k < |states[j].published|
    ensures states[j].published[k].job != t
  {
    RunExtends(states, events, i, j);
  }

  /** Within one project the last result's generation strictly increases over the whole run. */
  lemma GenerationsIncrease(states: seq<State>, events: seq<Event>, i: nat, x: nat, y: nat)
    requires IsRun(states, events) && i < |states| && x < y < |states[i].published|
    requires states[i].published[x].epoch == states[i].published[y].epoch
    ensures states[i].published[x].project == states[i].published[y].project
    ensures states[i].published[x].generation < states[i].published[y].generation
  {
    RunsAreSafe(states, events, i);
    assert Before(states[i].published[x], states[i].published[y]);
  }

  lemma SettledIsNotSettledAgain(s: State, e: Event, c: nat, o: Outcome)
    requires Inv(s) && Enabled(s, e) && c < |s.outcomes| && s.outcomes[c] != Pending
    ensures !Settles(s, e, c, o)
  {
    assert OutcomeRight(s, c);
    if (e.JobResolved? || e.JobRejected?) && Settles(s, e, c, o) { WaitsInFlight(s, e.job, c); }
  }

  lemma WaitsInFlight(s: State, t: nat, c: nat)
    requires t < |s.jobs| && !s.jobs[t].cancelled && s.jobs[t].phase == InFlight && c in s.jobs[t].waiting
    ensures WaitsForJob(s, c)
  {
  }

  lemma NotYetThere(s: State, e: Event, r: State, c: nat, o: Outcome)
    requires Inv(s) && Enabled(s, e) && OutcomesAfter(s, e, r) && c >= |r.outcomes|
    ensures !Settles(s, e, c, o)
  {
    if e.JobResolved? || e.JobRejected? { assert JobCallers(s, s.jobs[e.job]); }
  }

  /**
   A caller ends as resolved, failed, discarded or without a project exactly
   when an event of the run settled the call that way: its own uncancelled
   job's result or error, a discarding call while it waited, or its own call
   before a project was named.
   */
  lemma {:induction false} SettledBy(states: seq<State>, events: seq<Event>, i: nat, c: nat, o: Outcome)
    requires IsRun(states, events) && i < |states| && c < |states[i].outcomes| && o != Pending
    ensures states[i].outcomes[c] == o <==> exists j :: 0 <= j < i && Settles(states[j], events[j], c, o)
    decreases i
  {
    hide Inv, Step, Settles, JobsAfter, PublishedAfter, ProjectAfter, Enabled;
    if i > 0 {
      var s, e, now := states[i - 1], events[i - 1], states[i];
      RunsAreSafe(states, events, i - 1);
      assert Enabled(s, e) && now == Step(s, e);
      StepIs(s, e);
      assert OutcomeAfter(s, e, c, now.outcomes[c]);
      if c < |s.outcomes| {
        SettledBy(states, events, i - 1, c, o);
        if s.outcomes[c] != Pending { SettledIsNotSettledAgain(s, e, c, o); }
      } else {
        forall j | 0 <= j < i - 1 ensures !Settles(states[j], events[j], c, o) {
          RunExtends(states, events, j + 1, i - 1);
          RunsAreSafe(states, events, j);
          assert Enabled(states[j], events[j]) && states[j + 1] == Step(states[j], events[j]);
          StepIs(states[j], events[j]);
          NotYetThere(states[j], events[j], states[j + 1], c, o);
        }
      }
    }
  }

  /** Nobody is answered with a tree older than the one they brought. */
  lemma AnswersAreFresh(states: seq<State>, events: seq<Event>, i: nat, c: nat)
    requires IsRun(states, events) && i < |states| && c < |states[i].outcomes| && states[i].outcomes[c].Resolved?
    ensures var t := states[i].outcomes[c].job;
            t < |states[i].jobs| && c in states[i].jobs[t].waiting && c <= states[i].jobs[t].tree
  {
    RunsAreSafe(states, events, i);
    assert OutcomeRight(states[i], c);
    assert JobCallers(states[i], states[i].jobs[states[i].outcomes[c].job]);
  }
}

module CompileController {
  import opened Basics
  import opened QueueSafety
  import opened QueueSteps

  /** The module variables of the controller, changed in place by every call and every callback. */
  class Controller {
    var project: Option<int>
    var running: bool
    var queued: Option<Request>
    var activeToken: Option<nat>
    var activeCallbacks: Option<seq<nat>>
    var jobGeneration: nat
    var newestResolved: int
    // What the closures hold on to: the tokens, the promises, and the values `lastResult` has had.
    var jobs: seq<Job>
    var outcomes: seq<Outcome>
    var published: seq<Publication>
    var epoch: nat

    function View(): State
      reads this
    {
      State(project, running, queued, activeToken, activeCallbacks, jobGeneration, newestResolved,
            jobs, outcomes, published, epoch)
    }

    constructor ()
      ensures View() == INITIAL
    {
      project, running, queued, activeToken, activeCallbacks := None, false, None, None, None;
      jobGeneration, newestResolved := 0, -1;
      jobs, outcomes, published, epoch := [], [], [], 0;
    }

    method PumpQueue()
      modifies this
      ensures View() == Pump(old(View()))
    {
      if running || queued.None? { return; }
      var request := queued.value;
      queued := None;
      running := true;
      jobGeneration := jobGeneration + 1;
      var mine := jobGeneration;
      var token := |jobs|;
      jobs := jobs + [Job(mine, project, epoch, request.tree, request.waiting, false, InFlight)];
      activeToken := Some(token);
      activeCallbacks := Some(request.waiting);
    }

    /** The returned number is the caller's promise. */
    method CompileTree(manual: bool) returns (caller: nat)
      modifies this
      ensures caller == old(|outcomes|) && View() == Compile(old(View()), manual)
    {
      caller := |outcomes|;
      if project.None? {
        outcomes := outcomes + [NoProject];
        return;
      }
      outcomes := outcomes + [Pending];
      if queued.Some? {
        var stale := queued.value;
        queued := Some(Request(caller, manual || stale.manual, stale.waiting + [caller]));
      } else {
        queued := Some(Request(caller, manual, [caller]));
      }
      PumpQueue();
    }

    method CancelAll()
      modifies this
      ensures View() == Cancel(old(View()))
    {
      if queued.Some? {
        outcomes := Settle(outcomes, queued.value.waiting, Superseded);
        queued := None;
      }
      if activeToken.Some? && activeToken.value < |jobs| && !jobs[activeToken.value].cancelled {
        var t := activeToken.value;
        jobs := jobs[t := jobs[t].(cancelled := true)];
        if activeCallbacks.Some? { outcomes := Settle(outcomes, activeCallbacks.value, Superseded); }
        activeCallbacks := None;
        running := false;
        activeToken := None;
      }
      PumpQueue();
    }

    method ConfigureProject(next: Option<int>)
      modifies this
      ensures View() == Configure(old(View()), next)
    {
      var changed := next != project;
      project := next;
      if changed {
        CancelAll();
        jobGeneration := 0;
        newestResolved := -1;
        epoch := epoch + 1;
      }
    }

    /** The `then` callback of job t. */
    method JobThen(t: nat)
      requires t < |jobs|
      modifies this
      ensures View() == Then(old(View()), t)
    {
      var job := jobs[t];
      jobs := jobs[t := job.(phase := Settled)];
      if job.cancelled { return; }
      if job.generation >= newestResolved {
        newestResolved := job.generation;
        published := published + [Publication(job.epoch, job.project, job.generation, t)];
      }
      outcomes := Settle(outcomes, job.waiting, Resolved(t));
    }

    /** The `catch` callback of job t. */
    method JobCatch(t: nat)
      requires t < |jobs|
      modifies this
      ensures View() == Catch(old(View()), t)
    {
      var job := jobs[t];
      jobs := jobs[t := job.(phase := Settled)];
      if job.cancelled { return; }
      outcomes := Settle(outcomes, job.waiting, Failed(t));
    }

    /** The `finally` callback of job t. */
    method JobFinallyDone(t: nat)
      requires t < |jobs|
      modifies this
      ensures View() == Finally(old(View()), t)
    {
      jobs := jobs[t := jobs[t].(phase := Finished)];
      if activeToken == Some(t) {
        running := false;
        activeToken := None;
        activeCallbacks := None;
      }
      PumpQueue();
    }

    /** One event of a run, carried out by the method that handles it. */
    method Handle(e: Event)
      requires Enabled(View(), e)
      modifies this
      ensures View() == Step(old(View()), e)
      ensures Inv(old(View())) ==> Inv(View()) && IsStep(old(View()), e, View())
    {
      ghost var was := View();
      if Inv(was) {
        StepIs(was, e);
        StepKeeps(was, e);
      }
      hide Inv, IsStep;
      match e
      case CompileCall(manual) => var _ := CompileTree(manual);
      case CancelCall => CancelAll();
      case SettingsCall => CancelAll();
      case ConfigureCall(next) => ConfigureProject(next);
      case JobResolved(t) => JobThen(t);
      case JobRejected(t) => JobCatch(t);
      case JobFinally(t) => JobFinallyDone(t);
    }
  }
}
