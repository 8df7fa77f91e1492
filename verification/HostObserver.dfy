/**
 * The smoke-test host observer, scripts/workflow-smoke-host-observer.ts: the worker `run`,
 * any number of `stop` calls and the Docker daemon, interleaved at every await. One event is
 * what happens between two awaits, or one thing the outside world does.
 */
module HostObserver {

  import opened Wrappers

  datatype Action = PublicTrust | Snapshot

  type Container = nat
  type Nonce = nat
  type Generation = nat

  /** What a look at the request file finds. */
  datatype Poll = Absent | Unreadable | Malformed | Request(action: Action, nonce: Nonce)

  /** What loading the lease file gives. */
  datatype Lease = NoLease | Lease(active: bool, generation: Generation)

  datatype Response = Response(action: Action, nonce: Nonce, generation: Generation)

  // ---------------------------------------------------------------------
  // removeHelper
  // ---------------------------------------------------------------------

  /** Where a call to `removeHelper` stands; it keeps the id it first read. */
  datatype Removal = Removing(id: Container) | Checking(id: Container) | Finished(ok: bool)

  /** The runtime's answers to `remove` and to the inspection after it. */
  datatype Reply = Removed | Refused | Gone | Present

  function StartRemoval(helper: Option<Container>): Removal {
    if helper.None? then Finished(true) else Removing(helper.value)
  }

  /** The daemon answers truthfully: only a container that does not exist is reported gone. */
  predicate CanReply(r: Removal, reply: Reply, alive: set<Container>) {
    match r
    case Removing(_) => reply.Removed? || reply.Refused?
    case Checking(id) => reply.Present? || reply.Refused? || (reply.Gone? && id !in alive)
    case Finished(_) => false
  }

  function AfterReply(r: Removal, reply: Reply): Removal
    requires !r.Finished?
  {
    if reply.Removed? then Checking(r.id) else Finished(reply.Gone?)
  }

  /** `if (this.helperId === id) this.helperId = undefined`, once the inspection found nothing. */
  function HelperAfterReply(helper: Option<Container>, r: Removal, reply: Reply): Option<Container>
    requires !r.Finished?
  {
    if r.Checking? && reply.Gone? && helper == Some(r.id) then None else helper
  }

  // ---------------------------------------------------------------------
  // The state
  // ---------------------------------------------------------------------

  datatype Worker =
    | Polling
    | Observing(action: Action, nonce: Nonce, generation: Generation)
    | Creating(nonce: Nonce, generation: Generation, spawned: Option<Container>)
    | Probing(nonce: Nonce, generation: Generation)
    | Cleaning(nonce: Nonce, generation: Generation, removal: Removal, passed: bool)
    | Observed(action: Action, nonce: Nonce, generation: Generation)
    | Done

  /** A call of `stop`: its first removal, the wait for the worker, its second removal. */
  datatype Stop =
    | First(removal: Removal)
    | Second(removal: Removal, clean: bool)
    | Resolved
    | Threw

  datatype State = State(
    stopped: bool, helper: Option<Container>, generation: Option<Generation>,
    completed: set<Action>, nonces: set<Nonce>, failed: bool,
    worker: Worker, stops: map<nat, Stop>, responses: seq<Response>,
    created: set<Container>,   // every helper the daemon ever made
    alive: set<Container>,     // those that exist now
    named: set<Container>,     // every id `helper` ever held
    seenGone: set<Container>)  // those an inspection reported gone

  const INITIAL := State(false, None, None, {}, {}, false, Polling, map[], [], {}, {}, {}, {})

  function Fail(s: State): State {
    s.(failed := true, worker := Done)
  }

  // ---------------------------------------------------------------------
  // The worker's steps
  // ---------------------------------------------------------------------

  /** One turn of the loop, up to the first await inside `observe`. */
  function PollOnce(s: State, poll: Poll, lease: Lease): State {
    if s.stopped then s.(worker := Done)
    else match poll
      case Absent => s
      case Unreadable => Fail(s)
      case Malformed => Fail(s)
      case Request(action, nonce) =>
        if nonce in s.nonces then s
        else if action in s.completed then Fail(s)
        else
          var t := s.(nonces := s.nonces + {nonce});
          if lease.NoLease? || !lease.active || (s.generation.Some? && s.generation.value != lease.generation)
          then Fail(t)
          else t.(generation := Some(lease.generation), worker := Observing(action, nonce, lease.generation))
  }

  function Inspected(s: State, passed: bool): State
    requires s.worker.Observing?
  {
    var w := s.worker;
    if !passed then Fail(s)
    else if w.action.PublicTrust? then s.(worker := Observed(PublicTrust, w.nonce, w.generation))
    else s.(worker := Creating(w.nonce, w.generation, None))
  }

  /** The end of the try block: what it settled on, and the removal its finally block starts. */
  function StartCleaning(s: State, nonce: Nonce, generation: Generation, passed: bool): State {
    Settle(s.(worker := Cleaning(nonce, generation, StartRemoval(s.helper), passed)))
  }

  /** A finished removal ends the finally block. */
  function Settle(s: State): State
    requires s.worker.Cleaning?
  {
    var w := s.worker;
    if !w.removal.Finished? then s
    else if w.passed && w.removal.ok then s.(worker := Observed(Snapshot, w.nonce, w.generation))
    else Fail(s)
  }

  /** createQualificationObserverContainer has ended; it may have thrown after the daemon made one. */
  function CreateEnds(s: State, returned: bool): State
    requires s.worker.Creating? && (returned ==> s.worker.spawned.Some?)
  {
    var w := s.worker;
    if !returned then StartCleaning(s, w.nonce, w.generation, false)
    else
      var t := s.(helper := w.spawned, named := s.named + {w.spawned.value});
      if s.stopped then StartCleaning(t, w.nonce, w.generation, true)
      else t.(worker := Probing(w.nonce, w.generation))
  }

  /** After `observe` has returned. */
  function Conclude(s: State, lease: Lease, written: bool): State
    requires s.worker.Observed?
  {
    var w := s.worker;
    if s.stopped then s.(worker := Done)
    else if lease.NoLease? || !lease.active || lease.generation != w.generation then Fail(s)
    else
      var t := s.(completed := s.completed + {w.action});
      if written
      then t.(worker := Polling, responses := s.responses + [Response(w.action, w.nonce, w.generation)])
      else Fail(t)
  }

  function ReplyToWorker(s: State, reply: Reply): State
    requires s.worker.Cleaning? && CanReply(s.worker.removal, reply, s.alive)
  {
    var r := s.worker.removal;
    Settle(s.(worker := s.worker.(removal := AfterReply(r, reply)),
              helper := HelperAfterReply(s.helper, r, reply),
              seenGone := if reply.Gone? then s.seenGone + {r.id} else s.seenGone))
  }

  // ---------------------------------------------------------------------
  // The steps of stop
  // ---------------------------------------------------------------------

  function SettleStop(s: State, k: nat): State
    requires k in s.stops
  {
    var p := s.stops[k];
    if p.Second? && p.removal.Finished?
    then s.(stops := s.stops[k := if p.clean && p.removal.ok && !s.failed then Resolved else Threw])
    else s
  }

  function StopCalled(s: State, k: nat): State {
    s.(stopped := true, stops := s.stops[k := First(StartRemoval(s.helper))])
  }

  /** `await this.worker` is over and the second removal starts. */
  function StopGoesOn(s: State, k: nat): State
    requires k in s.stops && s.stops[k].First? && s.stops[k].removal.Finished?
  {
    SettleStop(s.(stops := s.stops[k := Second(StartRemoval(s.helper), s.stops[k].removal.ok)]), k)
  }

  predicate Removes(p: Stop) {
    (p.First? || p.Second?) && !p.removal.Finished?
  }

  function ReplyToStop(s: State, k: nat, reply: Reply): State
    requires k in s.stops && Removes(s.stops[k]) && CanReply(s.stops[k].removal, reply, s.alive)
  {
    var r := s.stops[k].removal;
    SettleStop(s.(stops := s.stops[k := s.stops[k].(removal := AfterReply(r, reply))],
                  helper := HelperAfterReply(s.helper, r, reply),
                  seenGone := if reply.Gone? then s.seenGone + {r.id} else s.seenGone), k)
  }

  // ---------------------------------------------------------------------
  // Interleavings
  // ---------------------------------------------------------------------

  datatype Event =
    | WorkerPolls(poll: Poll, lease: Lease)
    | WorkerInspected(passed: bool)
    | DaemonCreates(id: Container)
    | WorkerCreated(returned: bool)
    | WorkerProbed(passed: bool)
    | WorkerReply(reply: Reply)
    | WorkerConcludes(lease: Lease, written: bool)
    | StopIsCalled(k: nat)
    | StopReply(k: nat, reply: Reply)
    | StopResumes(k: nat)
    | Vanishes(id: Container)

  predicate Enabled(s: State, e: Event) {
    match e
    case WorkerPolls(_, _) => s.worker.Polling?
    case WorkerInspected(_) => s.worker.Observing?
    case DaemonCreates(id) => s.worker.Creating? && s.worker.spawned.None? && id !in s.created
    case WorkerCreated(returned) => s.worker.Creating? && (returned ==> s.worker.spawned.Some?)
    case WorkerProbed(_) => s.worker.Probing?
    case WorkerReply(reply) => s.worker.Cleaning? && CanReply(s.worker.removal, reply, s.alive)
    case WorkerConcludes(_, _) => s.worker.Observed?
    case StopIsCalled(k) => k !in s.stops
    case StopReply(k, reply) => k in s.stops && Removes(s.stops[k]) && CanReply(s.stops[k].removal, reply, s.alive)
    case StopResumes(k) => k in s.stops && s.stops[k].First? && s.stops[k].removal.Finished? && s.worker.Done?
    case Vanishes(id) => true
  }

  function Apply(s: State, e: Event): State
    requires Enabled(s, e)
  {
    match e
    case WorkerPolls(poll, lease) => PollOnce(s, poll, lease)
    case WorkerInspected(passed) => Inspected(s, passed)
    case DaemonCreates(id) =>
      s.(worker := s.worker.(spawned := Some(id)), created := s.created + {id}, alive := s.alive + {id})
    case WorkerCreated(returned) => CreateEnds(s, returned)
    case WorkerProbed(passed) => StartCleaning(s, s.worker.nonce, s.worker.generation, passed)
    case WorkerReply(reply) => ReplyToWorker(s, reply)
    case WorkerConcludes(lease, written) => Conclude(s, lease, written)
    case StopIsCalled(k) => StopCalled(s, k)
    case StopReply(k, reply) => ReplyToStop(s, k, reply)
    case StopResumes(k) => StopGoesOn(s, k)
    case Vanishes(id) => s.(alive := s.alive - {id})
  }

  // ---------------------------------------------------------------------
  // The invariant
  // ---------------------------------------------------------------------

  /** The helper has been asked for: its action is under way past the request, over, or failed. */
  predicate PastCreation(s: State) {
    || (s.worker.Creating? && s.worker.spawned.Some?)
    || s.worker.Probing? || s.worker.Cleaning? || s.worker.Done?
    || (s.worker.Observed? && s.worker.action.Snapshot?)
    || Snapshot in s.completed
  }

  /** A create call that threw after the daemon made a container; the run fails with it. */
  predicate Lost(s: State) {
    s.failed || (s.worker.Cleaning? && !s.worker.passed)
  }

  /** Where each container made is known from. */
  ghost predicate Traced(s: State) {
    && s.named <= s.created
    && (forall id :: id in s.created ==>
          id in s.named || Lost(s) || (s.worker.Creating? && s.worker.spawned == Some(id)))
    && (s.worker.Creating? && s.worker.spawned.Some? ==> s.worker.spawned.value in s.created)
    && (forall id :: id in s.named ==> s.helper == Some(id) || id in s.seenGone)
    && (s.helper.Some? ==> s.helper.value in s.named)
    && s.seenGone !! s.alive && s.seenGone <= s.named
    && s.alive <= s.created
  }

  ghost predicate OneHelper(s: State) {
    && (forall a, b :: a in s.created && b in s.created ==> a == b)
    && (s.created != {} ==> PastCreation(s))
  }

  /** The worker's removal, if any, is of an id that was once named. */
  predicate RemovalNamed(r: Removal, named: set<Container>) {
    r.Finished? || r.id in named
  }

  predicate StopSafe(s: State, p: Stop) {
    && (p.First? || p.Second? ==> RemovalNamed(p.removal, s.named))
    && (p.Second? ==> s.worker.Done? && !p.removal.Finished?)
    && (p.Resolved? ==> s.worker.Done? && !s.failed && s.alive == {})
    && s.stopped
  }

  ghost predicate Protocol(s: State) {
    && (s.worker.Cleaning? ==> RemovalNamed(s.worker.removal, s.named) && !s.worker.removal.Finished?)
    && (forall k {:trigger s.stops[k]} :: k in s.stops ==> StopSafe(s, s.stops[k]))
    && (s.failed ==> s.worker.Done?)
  }

  /** A snapshot that passed had its helper made, and seen gone. */
  ghost predicate SnapshotDone(s: State) {
    s.named != {} && s.named <= s.seenGone
  }

  ghost predicate Answered(responses: seq<Response>, a: Action) {
    exists i :: 0 <= i < |responses| && responses[i].action == a
  }

  ghost predicate Consistent(
    responses: seq<Response>, generation: Option<Generation>, completed: set<Action>, nonces: set<Nonce>)
  {
    && (forall r :: r in responses ==> generation == Some(r.generation) && r.action in completed && r.nonce in nonces)
    && (forall i, j :: 0 <= i < j < |responses| ==>
          responses[i].action != responses[j].action && responses[i].nonce != responses[j].nonce)
  }

  ghost predicate Records(s: State) {
    && Consistent(s.responses, s.generation, s.completed, s.nonces)
    && (!s.failed ==> forall a :: a in s.completed ==> Answered(s.responses, a))
  }

  function Current(w: Worker): Option<(Action, Nonce, Generation)> {
    match w
    case Observing(a, n, g) => Some((a, n, g))
    case Creating(n, g, _) => Some((Snapshot, n, g))
    case Probing(n, g) => Some((Snapshot, n, g))
    case Cleaning(n, g, _, _) => Some((Snapshot, n, g))
    case Observed(a, n, g) => Some((a, n, g))
    case _ => None
  }

  ghost predicate UnderWay(s: State) {
    Current(s.worker).Some? ==>
      var (a, n, g) := Current(s.worker).value;
      && a !in s.completed && s.generation == Some(g) && n in s.nonces
      && (forall r :: r in s.responses ==> r.nonce != n)
  }

  ghost predicate SnapshotKept(s: State) {
    && (s.worker.Probing? ==> s.named != {})
    && (s.worker.Cleaning? && s.worker.passed ==> s.named != {})
    && (s.worker.Observed? && s.worker.action.Snapshot? ==> SnapshotDone(s))
    && (Snapshot in s.completed ==> SnapshotDone(s))
  }

  ghost predicate Safe(s: State) {
    Traced(s) && OneHelper(s) && Protocol(s) && Records(s) && UnderWay(s) && SnapshotKept(s)
  }

  lemma InitialIsSafe()
    ensures Safe(INITIAL)
  {
  }

  lemma ConcludeKeepsRecords(s: State, lease: Lease, written: bool)
    requires Records(s) && UnderWay(s) && s.worker.Observed?
    ensures Records(Conclude(s, lease, written))
  {
    var t := Conclude(s, lease, written);
    if !t.failed && !s.stopped {
      var n := |s.responses|;
      assert t.responses[n].action == s.worker.action;
      forall a | a in t.completed ensures Answered(t.responses, a) {
        if a != s.worker.action {
          assert Answered(s.responses, a);
          var i :| 0 <= i < n && s.responses[i].action == a;
          assert t.responses[i].action == a;
        }
      }
    }
  }

  predicate IsStopEvent(e: Event) {
    e.StopIsCalled? || e.StopReply? || e.StopResumes? || e.Vanishes?
  }

  lemma StopKeepsTraced(s: State, e: Event)
    requires Traced(s) && Protocol(s) && Enabled(s, e) && IsStopEvent(e)
    ensures Traced(Apply(s, e))
  {
  }

  lemma WorkerKeepsTraced(s: State, e: Event)
    requires Traced(s) && OneHelper(s) && Protocol(s) && UnderWay(s) && Enabled(s, e) && !IsStopEvent(e)
    ensures Traced(Apply(s, e))
  {
  }

  lemma StepKeepsTraced(s: State, e: Event)
    requires Traced(s) && OneHelper(s) && Protocol(s) && UnderWay(s) && Enabled(s, e)
    ensures Traced(Apply(s, e))
  {
    if IsStopEvent(e) { StopKeepsTraced(s, e); } else { WorkerKeepsTraced(s, e); }
  }

  lemma StepKeepsOneHelper(s: State, e: Event)
    requires OneHelper(s) && UnderWay(s) && Enabled(s, e)
    ensures OneHelper(Apply(s, e))
  {
  }

  lemma StepKeepsProtocol(s: State, e: Event)
    requires Traced(s) && OneHelper(s) && Protocol(s) && Enabled(s, e)
    ensures Protocol(Apply(s, e))
  {
  }

  /** Everything but a conclusion leaves the responses alone. */
  lemma QuietStep(s: State, e: Event)
    requires Enabled(s, e) && !e.WorkerConcludes?
    ensures var t := Apply(s, e);
      && t.responses == s.responses && t.completed == s.completed && s.nonces <= t.nonces
      && (t.generation == s.generation || s.generation.None?) && (s.failed ==> t.failed)
  {
  }

  lemma StepKeepsRecords(s: State, e: Event)
    requires Records(s) && UnderWay(s) && Enabled(s, e)
    ensures Records(Apply(s, e))
  {
    if e.WorkerConcludes? { ConcludeKeepsRecords(s, e.lease, e.written); } else { QuietStep(s, e); }
  }

  lemma PollKeepsUnderWay(s: State, poll: Poll, lease: Lease)
    requires Consistent(s.responses, s.generation, s.completed, s.nonces) && s.worker.Polling?
    ensures UnderWay(PollOnce(s, poll, lease))
  {
  }

  /** Within one request the worker goes on with the same action, nonce and generation. */
  lemma SameRequest(s: State, e: Event)
    requires Enabled(s, e) && !e.WorkerPolls?
    ensures Current(Apply(s, e).worker).None? || Current(Apply(s, e).worker) == Current(s.worker)
    ensures !e.WorkerConcludes? ==> Apply(s, e).generation == s.generation
    ensures e.WorkerConcludes? ==> Current(Apply(s, e).worker).None?
  {
  }

  lemma StepKeepsUnderWay(s: State, e: Event)
    requires UnderWay(s) && Records(s) && Enabled(s, e)
    ensures UnderWay(Apply(s, e))
  {
    if e.WorkerPolls? {
      PollKeepsUnderWay(s, e.poll, e.lease);
    } else {
      SameRequest(s, e);
      if !e.WorkerConcludes? { QuietStep(s, e); }
    }
  }

  lemma StepKeepsSnapshotKept(s: State, e: Event)
    requires Traced(s) && OneHelper(s) && Protocol(s) && SnapshotKept(s) && Enabled(s, e)
    ensures SnapshotKept(Apply(s, e))
  {
  }

  lemma StepKeepsSafe(s: State, e: Event)
    requires Safe(s) && Enabled(s, e)
    ensures Safe(Apply(s, e))
  {
    StepKeepsTraced(s, e);
    StepKeepsOneHelper(s, e);
    StepKeepsProtocol(s, e);
    StepKeepsRecords(s, e);
    StepKeepsUnderWay(s, e);
    StepKeepsSnapshotKept(s, e);
  }

  // ---------------------------------------------------------------------
  // Every run
  // ---------------------------------------------------------------------

  predicate CanRun(s: State, events: seq<Event>)
    decreases |events|
  {
    events == [] || (Enabled(s, events[0]) && CanRun(Apply(s, events[0]), events[1..]))
  }

  function Ran(s: State, events: seq<Event>): State
    requires CanRun(s, events)
    decreases |events|
  {
    if events == [] then s else Ran(Apply(s, events[0]), events[1..])
  }

  lemma {:induction false} RunsAreSafe(s: State, events: seq<Event>)
    requires Safe(s) && CanRun(s, events)
    ensures Safe(Ran(s, events))
    decreases |events|
  {
    if events != [] {
      StepKeepsSafe(s, events[0]);
      RunsAreSafe(Apply(s, events[0]), events[1..]);
    }
  }

  lemma ReachableIsSafe(events: seq<Event>, s: State)
    requires CanRun(INITIAL, events) && s == Ran(INITIAL, events)
    ensures Safe(s)
  {
    InitialIsSafe();
    RunsAreSafe(INITIAL, events);
  }

  /** At most one helper container is ever created. */
  lemma AtMostOneHelper(events: seq<Event>, s: State)
    requires CanRun(INITIAL, events) && s == Ran(INITIAL, events)
    ensures |s.created| <= 1 && s.alive <= s.created
  {
    ReachableIsSafe(events, s);
    if s.created != {} {
      var a :| a in s.created;
      assert s.created == {a};
    }
  }

  /** The id is given up only when the container has been looked for and found gone. */
  lemma ForgottenOnlyWhenGone(events: seq<Event>, s: State, e: Event)
    requires CanRun(INITIAL, events) && s == Ran(INITIAL, events) && Enabled(s, e)
    requires s.helper.Some? && Apply(s, e).helper != s.helper
    ensures Apply(s, e).helper.None?
    ensures s.helper.value !in s.alive && s.helper.value in Apply(s, e).seenGone
    ensures e == WorkerReply(Gone) || (e.StopReply? && e.reply == Gone)
  {
    ReachableIsSafe(events, s);
    StepKeepsSafe(s, e);
  }

  lemma {:induction false} NothingComesAfter(s: State, more: seq<Event>)
    requires CanRun(s, more) && s.worker.Done? && s.alive == {}
    ensures Ran(s, more).alive == {}
    decreases |more|
  {
    if more != [] {
      NothingComesAfter(Apply(s, more[0]), more[1..]);
    }
  }

  /** When some `stop` has resolved no helper exists, and none does whatever happens later. */
  lemma ResolvedStopLeavesNoHelper(events: seq<Event>, s: State, k: nat, more: seq<Event>)
    requires CanRun(INITIAL, events) && s == Ran(INITIAL, events)
    requires k in s.stops && s.stops[k].Resolved? && CanRun(s, more)
    ensures s.alive == {} && Ran(s, more).alive == {} && !s.failed
  {
    ReachableIsSafe(events, s);
    assert StopSafe(s, s.stops[k]);
    NothingComesAfter(s, more);
  }

  /** All responses carry one generation, and answer different actions and nonces. */
  lemma ResponsesAgree(events: seq<Event>, s: State, i: nat, j: nat)
    requires CanRun(INITIAL, events) && s == Ran(INITIAL, events)
    requires i < j < |s.responses|
    ensures s.responses[i].generation == s.responses[j].generation
    ensures s.responses[i].action != s.responses[j].action
    ensures s.responses[i].nonce != s.responses[j].nonce
  {
    ReachableIsSafe(events, s);
    assert s.responses[i] in s.responses && s.responses[j] in s.responses;
  }

  /** assertComplete does not throw. */
  predicate AssertsComplete(s: State) {
    !s.failed && PublicTrust in s.completed && Snapshot in s.completed
  }

  /** A complete run answered exactly both actions, under one generation; its helper was made and is gone. */
  lemma CompleteMeansBothProved(events: seq<Event>, s: State)
    requires CanRun(INITIAL, events) && s == Ran(INITIAL, events) && AssertsComplete(s)
    ensures |s.responses| == 2
    ensures Answered(s.responses, PublicTrust) && Answered(s.responses, Snapshot)
    ensures s.responses[0].generation == s.responses[1].generation
    ensures exists id :: s.created == {id} && id in s.seenGone && id !in s.alive
  {
    ReachableIsSafe(events, s);
    assert Answered(s.responses, PublicTrust) && Answered(s.responses, Snapshot);
    TwoActionsTwoResponses(s.responses);
    assert s.responses[0] in s.responses && s.responses[1] in s.responses;
    var id :| id in s.named;
    assert s.created == {id};
  }

  lemma TwoActionsTwoResponses(responses: seq<Response>)
    requires Answered(responses, PublicTrust) && Answered(responses, Snapshot)
    requires forall i, j :: 0 <= i < j < |responses| ==> responses[i].action != responses[j].action
    ensures |responses| == 2
  {
    assert |responses| >= 2;
    var first, second, last := responses[0].action, responses[1].action, responses[|responses| - 1].action;
    assert last == first || last == second;
  }

  /** stop settles: once the worker is over, it can always go on until it resolves or throws. */
  lemma StopNotStuck(events: seq<Event>, s: State, k: nat) returns (e: Event)
    requires CanRun(INITIAL, events) && s == Ran(INITIAL, events)
    requires k in s.stops && !s.stops[k].Resolved? && !s.stops[k].Threw? && s.worker.Done?
    ensures Enabled(s, e) && (e.StopReply? || e.StopResumes?) && e.k == k
  {
    ReachableIsSafe(events, s);
    assert StopSafe(s, s.stops[k]);
    if s.stops[k].removal.Finished? {
      e := StopResumes(k);
    } else {
      e := StopReply(k, Refused);
    }
  }
}
