/**
 * The relay's accept loop and handlers, docker/nested-relay/main.go: serve, handle, and the
 * goroutines a handler starts, as interleaved steps over a semaphore channel, a WaitGroup,
 * a buffered results channel and two connections a stream.
 */
module Relay {

  // ---------------------------------------------------------------------
  // One handler
  // ---------------------------------------------------------------------

  datatype Direction = Up | Down

  /** Where `handle` and its deferred calls stand; the deferred calls run last-in first-out. */
  datatype Pc =
    | Dialing | Injecting
    | WaitFirst | CloseDown | CloseUp | WaitSecond
    | StopWatcher | DropUp | DropDown
    | Release | SignalDone | Gone

  function Place(pc: Pc): nat {
    match pc
    case Dialing => 0 case Injecting => 1
    case WaitFirst => 2 case CloseDown => 3 case CloseUp => 4 case WaitSecond => 5
    case StopWatcher => 6 case DropUp => 7 case DropDown => 8
    case Release => 9 case SignalDone => 10 case Gone => 11
  }

  datatype Copier = Idle | Running | Ready | Sent

  /** The goroutine that closes both connections when the context ends. */
  datatype Watcher = Absent | Watching | ClosesDown | ClosesUp | Ended

  datatype Handler = Handler(
    pc: Pc, up: Copier, down: Copier, watcher: Watcher,
    results: seq<Direction>, received: seq<Direction>)
  {
    function Of(d: Direction): Copier { if d.Up? then up else down }

    function With(d: Direction, c: Copier): Handler {
      if d.Up? then this.(up := c) else this.(down := c)
    }
  }

  const RESULT_CAPACITY := 2

  const FRESH := Handler(Dialing, Idle, Idle, Absent, [], [])

  datatype Move =
    | DialFails | Dials | InjectFails | Injects
    | CopyEnds(d: Direction) | Sends(d: Direction) | Receives
    | Proceeds
    | WatcherWakes | WatcherCloses | WatcherEnds

  /** What the channels and the program counter permit. */
  predicate Can(h: Handler, m: Move, cancelled: bool, tokens: int) {
    match m
    case DialFails => h.pc.Dialing?
    case Dials => h.pc.Dialing?
    case InjectFails => h.pc.Injecting?
    case Injects => h.pc.Injecting?
    case CopyEnds(d) => h.Of(d).Running?
    case Sends(d) => h.Of(d).Ready? && |h.results| < RESULT_CAPACITY
    case Receives => (h.pc.WaitFirst? || h.pc.WaitSecond?) && h.results != []
    case Proceeds =>
      h.pc.CloseDown? || h.pc.CloseUp? || h.pc.StopWatcher? || h.pc.DropUp? || h.pc.DropDown?
      || (h.pc.Release? && tokens > 0) || h.pc.SignalDone?
    case WatcherWakes => h.watcher.Watching? && cancelled
    case WatcherCloses => h.watcher.ClosesDown? || h.watcher.ClosesUp?
    case WatcherEnds => h.watcher.Watching? && Place(h.pc) > Place(StopWatcher)
  }

  function Next(pc: Pc): Pc {
    match pc
    case CloseDown => CloseUp
    case CloseUp => WaitSecond
    case StopWatcher => DropUp
    case DropUp => DropDown
    case DropDown => Release
    case Release => SignalDone
    case SignalDone => Gone
    case other => other
  }

  function After(h: Handler, m: Move, cancelled: bool, tokens: int): Handler
    requires Can(h, m, cancelled, tokens)
  {
    match m
    case DialFails => h.(pc := DropDown)
    case Dials => h.(pc := Injecting, watcher := Watching)
    case InjectFails => h.(pc := StopWatcher)
    case Injects => h.(pc := WaitFirst, up := Running, down := Running)
    case CopyEnds(d) => h.With(d, Ready)
    case Sends(d) => h.With(d, Sent).(results := h.results + [d])
    case Receives =>
      h.(pc := if h.pc.WaitFirst? then CloseDown else StopWatcher,
         results := h.results[1..], received := h.received + [h.results[0]])
    case Proceeds => h.(pc := Next(h.pc))
    case WatcherWakes => h.(watcher := ClosesDown)
    case WatcherCloses => h.(watcher := if h.watcher.ClosesDown? then ClosesUp else Ended)
    case WatcherEnds => h.(watcher := Ended)
  }

  predicate ClosesDownstream(h: Handler, m: Move) {
    (m.Proceeds? && (h.pc.CloseDown? || h.pc.DropDown?)) || (m.WatcherCloses? && h.watcher.ClosesDown?)
  }

  predicate ClosesUpstream(h: Handler, m: Move) {
    (m.Proceeds? && (h.pc.CloseUp? || h.pc.DropUp?)) || (m.WatcherCloses? && h.watcher.ClosesUp?)
  }

  /** <-r.sem */
  predicate ReleasesToken(h: Handler, m: Move) {
    m.Proceeds? && h.pc.Release?
  }

  /** handlers.Done() */
  predicate Finishes(h: Handler, m: Move) {
    m.Proceeds? && h.pc.SignalDone?
  }

  /** The program counter only advances, and passes no obligation without meeting it. */
  predicate Advances(h: Handler, m: Move, n: Handler) {
    && Place(h.pc) <= Place(n.pc)
    && (m.Dials? ==> n.pc.Injecting?)
    && (Place(h.pc) <= Place(DropDown) < Place(n.pc) ==> ClosesDownstream(h, m))
    && (Place(Injecting) <= Place(h.pc) <= Place(DropUp) < Place(n.pc) ==> ClosesUpstream(h, m))
    && (Place(h.pc) <= Place(Release) < Place(n.pc) <==> ReleasesToken(h, m))
    && (Place(h.pc) < Place(Gone) == Place(n.pc) <==> Finishes(h, m))
  }

  lemma MovesAdvance(h: Handler, m: Move, cancelled: bool, tokens: int)
    requires HandlerSafe(h) && Can(h, m, cancelled, tokens)
    ensures Advances(h, m, After(h, m, cancelled, tokens))
  {
  }

  function Put(c: Copier): nat { if c.Sent? then 1 else 0 }

  /** Every result put on the channel is still there or was received, once. */
  predicate ResultsKept(h: Handler) {
    && (forall d :: d in h.received + h.results <==> h.Of(d).Sent?)
    && |h.received| + |h.results| == Put(h.up) + Put(h.down)
  }

  predicate HandlerSafe(h: Handler) {
    && ResultsKept(h)
    && (h.up.Idle? <==> h.down.Idle?)
    && (Place(h.pc) < Place(WaitFirst) ==> h.up.Idle?)
    && (Place(WaitFirst) <= Place(h.pc) <= Place(WaitSecond) ==> !h.up.Idle?)
    && (Place(h.pc) <= Place(WaitFirst) ==> h.received == [])
    && (Place(WaitFirst) < Place(h.pc) <= Place(WaitSecond) ==> |h.received| == 1)
    && (Place(h.pc) > Place(WaitSecond) ==> |h.received| == if h.up.Idle? then 0 else 2)
  }

  lemma FreshIsSafe()
    ensures HandlerSafe(FRESH)
  {
  }

  lemma SendKeepsResults(h: Handler, d: Direction)
    requires ResultsKept(h) && h.Of(d).Ready?
    ensures ResultsKept(h.With(d, Sent).(results := h.results + [d]))
  {
    var n := h.With(d, Sent).(results := h.results + [d]);
    assert n.received + n.results == (h.received + h.results) + [d];
  }

  lemma ReceiveKeepsResults(h: Handler, pc: Pc)
    requires ResultsKept(h) && h.results != []
    ensures ResultsKept(h.(pc := pc, results := h.results[1..], received := h.received + [h.results[0]]))
  {
    assert h.received + h.results == (h.received + [h.results[0]]) + h.results[1..];
  }

  lemma MoveKeepsResults(h: Handler, m: Move, cancelled: bool, tokens: int)
    requires HandlerSafe(h) && Can(h, m, cancelled, tokens)
    ensures ResultsKept(After(h, m, cancelled, tokens))
  {
    if m.Sends? {
      SendKeepsResults(h, m.d);
    } else if m.Receives? {
      ReceiveKeepsResults(h, if h.pc.WaitFirst? then CloseDown else StopWatcher);
    } else {
      var n := After(h, m, cancelled, tokens);
      assert n.received == h.received && n.results == h.results;
    }
  }

  lemma MoveKeepsHandlerSafe(h: Handler, m: Move, cancelled: bool, tokens: int)
    requires HandlerSafe(h) && Can(h, m, cancelled, tokens)
    ensures HandlerSafe(After(h, m, cancelled, tokens))
  {
    MoveKeepsResults(h, m, cancelled, tokens);
  }

  /** Each handler that starts copying receives one result of each direction, and no other. */
  lemma TwoResultsEach(h: Handler)
    requires HandlerSafe(h) && Place(h.pc) > Place(WaitSecond) && !h.up.Idle?
    ensures h.received == [Up, Down] || h.received == [Down, Up]
    ensures h.results == [] && h.up.Sent? && h.down.Sent?
  {
    assert h.received + h.results == h.received;
    assert Up in h.received && Down in h.received;
  }

  /** The results channel is large enough: a finished copy can always send at once. */
  lemma NoSenderBlocks(h: Handler, d: Direction, cancelled: bool, tokens: int)
    requires HandlerSafe(h) && h.Of(d).Ready?
    ensures Can(h, Sends(d), cancelled, tokens)
  {
  }

  /** A handler that is not gone can always move, or a copy of its own still runs. */
  lemma HandlerNotStuck(h: Handler, cancelled: bool, tokens: int) returns (m: Move)
    requires HandlerSafe(h) && !h.pc.Gone? && tokens > 0
    ensures Can(h, m, cancelled, tokens)
    ensures !m.WatcherWakes? && !m.WatcherCloses? && !m.WatcherEnds?
    ensures m.CopyEnds? ==> (h.pc.WaitFirst? || h.pc.WaitSecond?) && h.results == []
  {
    if h.pc.Dialing? { return Dials; }
    if h.pc.Injecting? { return Injects; }
    if h.pc.WaitFirst? || h.pc.WaitSecond? {
      if h.results != [] { return Receives; }
      if h.up.Ready? { return Sends(Up); }
      if h.down.Ready? { return Sends(Down); }
      if h.up.Running? { return CopyEnds(Up); }
      return CopyEnds(Down);
    }
    return Proceeds;
  }

  function CopierRank(c: Copier): nat {
    match c case Idle => 3 case Running => 2 case Ready => 1 case Sent => 0
  }

  function WatcherRank(w: Watcher): nat {
    match w case Absent => 4 case Watching => 3 case ClosesDown => 2 case ClosesUp => 1 case Ended => 0
  }

  function Rank(h: Handler): nat {
    (11 - Place(h.pc)) + CopierRank(h.up) + CopierRank(h.down) + WatcherRank(h.watcher)
  }

  /** No handler moves for ever: each move uses up some of a finite rank. */
  lemma MoveLowersRank(h: Handler, m: Move, cancelled: bool, tokens: int)
    requires HandlerSafe(h) && Can(h, m, cancelled, tokens)
    requires Place(h.pc) < Place(Injecting) ==> h.watcher.Absent?
    ensures Rank(After(h, m, cancelled, tokens)) < Rank(h)
  {
  }

  // ---------------------------------------------------------------------
  // The whole relay
  // ---------------------------------------------------------------------

  /** Where `serve` stands, with the connection in its hands. */
  datatype Server =
    | Accepting | Selecting(c: nat) | Rejecting(c: nat) | Acquired(c: nat) | Counted(c: nat)
    | AcceptFailed | Waiting(failed: bool) | Returned(failed: bool)

  datatype State = State(
    cancelled: bool, server: Server,
    tokens: int,                 // len(r.sem)
    count: int,                  // the WaitGroup's counter
    handlers: map<nat, Handler>, // by connection
    accepted: set<nat>,
    downstreams: set<nat>,       // accepted connections that are open
    upstreams: set<nat>)         // dialled connections that are open

  const INITIAL := State(false, Accepting, 0, 0, map[], {}, {}, {})

  datatype Event =
    | Cancel
    | Accept(c: nat, allowed: bool) | AcceptFails | ReadsContext
    | TakeToken | AtCapacity | CloseRejected | Add | Spawn | WaitEnds
    | Handle(id: nat, m: Move)

  predicate Enabled(max: nat, s: State, e: Event) {
    match e
    case Cancel => true
    case Accept(c, _) => s.server.Accepting? && c !in s.accepted
    case AcceptFails => s.server.Accepting?
    case ReadsContext => s.server.AcceptFailed?
    case TakeToken => s.server.Selecting? && s.tokens < max
    case AtCapacity => s.server.Selecting? && s.tokens >= max
    case CloseRejected => s.server.Rejecting?
    case Add => s.server.Acquired?
    case Spawn => s.server.Counted?
    case WaitEnds => s.server.Waiting? && s.count == 0
    case Handle(id, m) => id in s.handlers && Can(s.handlers[id], m, s.cancelled, s.tokens)
  }

  function Apply(max: nat, s: State, e: Event): State
    requires Enabled(max, s, e)
  {
    match e
    case Cancel => s.(cancelled := true)
    case Accept(c, allowed) =>
      s.(server := if allowed then Selecting(c) else Rejecting(c),
         accepted := s.accepted + {c}, downstreams := s.downstreams + {c})
    case AcceptFails => s.(server := AcceptFailed)
    case ReadsContext => s.(server := Waiting(!s.cancelled))
    case TakeToken => s.(server := Acquired(s.server.c), tokens := s.tokens + 1)
    case AtCapacity => s.(server := Rejecting(s.server.c))
    case CloseRejected => s.(server := Accepting, downstreams := s.downstreams - {s.server.c})
    case Add => s.(server := Counted(s.server.c), count := s.count + 1)
    case Spawn => s.(server := Accepting, handlers := s.handlers[s.server.c := FRESH])
    case WaitEnds => s.(server := Returned(s.server.failed))
    case Handle(id, m) => Handled(s, id, m, After(s.handlers[id], m, s.cancelled, s.tokens))
  }

  /** The effects of a handler's move on what it shares with the rest. */
  function Handled(s: State, id: nat, m: Move, n: Handler): State
    requires id in s.handlers
  {
    var h := s.handlers[id];
    s.(handlers := s.handlers[id := n],
       tokens := if ReleasesToken(h, m) then s.tokens - 1 else s.tokens,
       count := if Finishes(h, m) then s.count - 1 else s.count,
       downstreams := if ClosesDownstream(h, m) then s.downstreams - {id} else s.downstreams,
       upstreams := if m.Dials? then s.upstreams + {id}
                    else if ClosesUpstream(h, m) then s.upstreams - {id}
                    else s.upstreams)
  }

  /** The handlers whose token is still in the semaphore. */
  function Holding(handlers: map<nat, Handler>): set<nat> {
    set id | id in handlers && Place(handlers[id].pc) <= Place(Release)
  }

  /** The handlers the WaitGroup still waits for. */
  function Unfinished(handlers: map<nat, Handler>): set<nat> {
    set id | id in handlers && !handlers[id].pc.Gone?
  }

  predicate InHand(s: State, c: nat) {
    match s.server
    case Selecting(x) => x == c
    case Rejecting(x) => x == c
    case Acquired(x) => x == c
    case Counted(x) => x == c
    case _ => false
  }

  /** An open connection is in the accept loop's hands or a handler has yet to drop it. */
  ghost predicate Accounted(s: State) {
    && (forall id :: id in s.handlers ==> id in s.accepted && !InHand(s, id))
    && (forall c :: InHand(s, c) ==> c in s.accepted)
    && (forall c :: c in s.downstreams ==>
          InHand(s, c) || (c in s.handlers && Place(s.handlers[c].pc) <= Place(DropDown)))
    && (forall c :: c in s.upstreams ==>
          c in s.handlers && Place(Injecting) <= Place(s.handlers[c].pc) <= Place(DropUp))
  }

  predicate Counting(max: nat, s: State) {
    && s.tokens == |Holding(s.handlers)| + (if s.server.Acquired? || s.server.Counted? then 1 else 0)
    && s.tokens <= max
    && s.count == |Unfinished(s.handlers)| + (if s.server.Counted? then 1 else 0)
    && (s.server.Returned? ==> s.count == 0)
  }

  predicate HandlersSafe(s: State) {
    forall id :: id in s.handlers ==>
      HandlerSafe(s.handlers[id]) && (s.handlers[id].pc.Dialing? ==> s.handlers[id].watcher.Absent?)
  }

  ghost predicate Safe(max: nat, s: State) {
    HandlersSafe(s) && Accounted(s) && Counting(max, s)
  }

  lemma InitialIsSafe(max: nat)
    ensures Safe(max, INITIAL)
  {
  }

  lemma PutSafe(s: State, id: nat, n: Handler)
    requires HandlersSafe(s) && HandlerSafe(n) && (n.pc.Dialing? ==> n.watcher.Absent?)
    ensures HandlersSafe(s.(handlers := s.handlers[id := n]))
  {
  }

  lemma StepKeepsHandlers(max: nat, s: State, e: Event)
    requires Safe(max, s) && Enabled(max, s, e)
    ensures HandlersSafe(Apply(max, s, e))
  {
    if e.Handle? {
      PutSafe(s, e.id, After(s.handlers[e.id], e.m, s.cancelled, s.tokens)) by {
        MoveKeepsHandlerSafe(s.handlers[e.id], e.m, s.cancelled, s.tokens);
      }
    }
    if e.Spawn? { FreshIsSafe(); }
  }

  lemma HandledKeepsAccounted(s: State, id: nat, m: Move, n: Handler)
    requires Accounted(s) && id in s.handlers && Advances(s.handlers[id], m, n)
    ensures Accounted(Handled(s, id, m, n))
  {
  }

  lemma StepKeepsAccounted(max: nat, s: State, e: Event)
    requires Safe(max, s) && Enabled(max, s, e)
    ensures Accounted(Apply(max, s, e))
  {
    if e.Handle? {
      MovesAdvance(s.handlers[e.id], e.m, s.cancelled, s.tokens);
      HandledKeepsAccounted(s, e.id, e.m, After(s.handlers[e.id], e.m, s.cancelled, s.tokens));
    } else {
      LoopKeepsAccounted(max, s, e);
    }
  }

  lemma LoopKeepsAccounted(max: nat, s: State, e: Event)
    requires Accounted(s) && Enabled(max, s, e) && !e.Handle?
    ensures Accounted(Apply(max, s, e))
  {
  }

  lemma HandledKeepsHolding(handlers: map<nat, Handler>, id: nat, n: Handler)
    requires id in handlers && Place(handlers[id].pc) <= Place(n.pc)
    ensures |Holding(handlers[id := n])| == |Holding(handlers)| -
      (if Place(handlers[id].pc) <= Place(Release) < Place(n.pc) then 1 else 0)
  {
    var after := handlers[id := n];
    if Place(handlers[id].pc) <= Place(Release) < Place(n.pc) {
      assert Holding(after) == Holding(handlers) - {id};
    } else {
      assert Holding(after) == Holding(handlers);
    }
  }

  lemma HandledKeepsUnfinished(handlers: map<nat, Handler>, id: nat, n: Handler)
    requires id in handlers && Place(handlers[id].pc) <= Place(n.pc)
    ensures |Unfinished(handlers[id := n])| == |Unfinished(handlers)| -
      (if Place(handlers[id].pc) < Place(Gone) == Place(n.pc) then 1 else 0)
  {
    var after := handlers[id := n];
    if Place(handlers[id].pc) < Place(Gone) == Place(n.pc) {
      assert Unfinished(after) == Unfinished(handlers) - {id};
    } else {
      assert Unfinished(after) == Unfinished(handlers);
    }
  }

  lemma HandledKeepsCounting(max: nat, s: State, id: nat, m: Move, n: Handler)
    requires Counting(max, s) && id in s.handlers && Advances(s.handlers[id], m, n)
    requires Finishes(s.handlers[id], m) ==> s.count > 0
    ensures Counting(max, Handled(s, id, m, n))
  {
    HandledKeepsHolding(s.handlers, id, n);
    HandledKeepsUnfinished(s.handlers, id, n);
  }

  /** The counter never goes negative. */
  lemma FinisherIsCounted(max: nat, s: State, id: nat)
    requires Counting(max, s) && id in s.handlers && !s.handlers[id].pc.Gone?
    ensures s.count > 0
  {
    assert id in Unfinished(s.handlers);
  }

  lemma LoopKeepsCounting(max: nat, s: State, e: Event)
    requires Counting(max, s) && Enabled(max, s, e) && !e.Handle?
    requires forall c :: InHand(s, c) ==> c !in s.handlers
    ensures Counting(max, Apply(max, s, e))
  {
    if e.Spawn? {
      var after := s.handlers[s.server.c := FRESH];
      assert Holding(after) == Holding(s.handlers) + {s.server.c};
      assert Unfinished(after) == Unfinished(s.handlers) + {s.server.c};
    }
  }

  lemma StepKeepsCounting(max: nat, s: State, e: Event)
    requires Safe(max, s) && Enabled(max, s, e)
    ensures Counting(max, Apply(max, s, e))
  {
    if e.Handle? {
      MovesAdvance(s.handlers[e.id], e.m, s.cancelled, s.tokens);
      if Finishes(s.handlers[e.id], e.m) { FinisherIsCounted(max, s, e.id); }
      HandledKeepsCounting(max, s, e.id, e.m, After(s.handlers[e.id], e.m, s.cancelled, s.tokens));
    } else {
      LoopKeepsCounting(max, s, e);
    }
  }

  lemma StepKeepsSafe(max: nat, s: State, e: Event)
    requires Safe(max, s) && Enabled(max, s, e)
    ensures Safe(max, Apply(max, s, e))
  {
    StepKeepsHandlers(max, s, e);
    StepKeepsAccounted(max, s, e);
    StepKeepsCounting(max, s, e);
  }

  // ---------------------------------------------------------------------
  // Runs
  // ---------------------------------------------------------------------

  /** The events can happen one after another, from `s`. */
  predicate CanRun(max: nat, s: State, events: seq<Event>)
    decreases |events|
  {
    events == [] || (Enabled(max, s, events[0]) && CanRun(max, Apply(max, s, events[0]), events[1..]))
  }

  function Ran(max: nat, s: State, events: seq<Event>): State
    requires CanRun(max, s, events)
    decreases |events|
  {
    if events == [] then s else Ran(max, Apply(max, s, events[0]), events[1..])
  }

  lemma {:induction false} RunsAreSafe(max: nat, s: State, events: seq<Event>)
    requires Safe(max, s) && CanRun(max, s, events)
    ensures Safe(max, Ran(max, s, events))
    decreases |events|
  {
    if events != [] {
      StepKeepsSafe(max, s, events[0]);
      RunsAreSafe(max, Apply(max, s, events[0]), events[1..]);
    }
  }

  /** In every reachable state the tokens are the running handlers, never more than the limit. */
  lemma TokensAreRunningHandlers(max: nat, events: seq<Event>, s: State)
    requires CanRun(max, INITIAL, events) && s == Ran(max, INITIAL, events)
    ensures s.tokens == |Holding(s.handlers)| + (if s.server.Acquired? || s.server.Counted? then 1 else 0)
    ensures |Holding(s.handlers)| <= s.tokens <= max
    ensures Holding(s.handlers) <= Unfinished(s.handlers)
  {
    InitialIsSafe(max);
    RunsAreSafe(max, INITIAL, events);
    HoldersAreCounted(max, s);
  }

  lemma HoldersAreCounted(max: nat, s: State)
    requires Counting(max, s)
    ensures |Holding(s.handlers)| <= s.tokens <= max && Holding(s.handlers) <= Unfinished(s.handlers)
  {
  }

  /** When serve has returned nothing is left running or open. */
  lemma ReturnLeavesNothing(max: nat, events: seq<Event>)
    requires CanRun(max, INITIAL, events)
    requires Ran(max, INITIAL, events).server.Returned?
    ensures var s := Ran(max, INITIAL, events);
      && (forall id :: id in s.handlers ==> s.handlers[id].pc.Gone?)
      && s.downstreams == {} && s.upstreams == {} && s.tokens == 0
  {
    InitialIsSafe(max);
    RunsAreSafe(max, INITIAL, events);
    var s := Ran(max, INITIAL, events);
    NothingUnfinished(s.handlers);
  }

  lemma NothingUnfinished(handlers: map<nat, Handler>)
    requires |Unfinished(handlers)| == 0
    ensures forall id :: id in handlers ==> handlers[id].pc.Gone?
    ensures Holding(handlers) == {}
  {
    forall id | id in handlers ensures handlers[id].pc.Gone? {
      assert id !in Unfinished(handlers);
    }
  }

  /** An accepted connection is closed once neither the loop nor its handler has it. */
  lemma DroppedMeansClosed(max: nat, events: seq<Event>, c: nat)
    requires CanRun(max, INITIAL, events)
    requires !InHand(Ran(max, INITIAL, events), c)
    requires var hs := Ran(max, INITIAL, events).handlers; c in hs ==> Place(hs[c].pc) > Place(DropDown)
    ensures c !in Ran(max, INITIAL, events).downstreams && c !in Ran(max, INITIAL, events).upstreams
  {
    InitialIsSafe(max);
    RunsAreSafe(max, INITIAL, events);
  }

  /**
   * No deadlock: unless serve has returned, either the accept loop can go on, or it waits
   * and some handler can, so that the wait ends (each move lowers that handler's rank).
   */
  lemma NeverStuck(max: nat, events: seq<Event>) returns (e: Event)
    requires CanRun(max, INITIAL, events)
    requires !Ran(max, INITIAL, events).server.Returned?
    ensures var s := Ran(max, INITIAL, events);
      Enabled(max, s, e) && !e.Cancel? && (e.Handle? ==> s.server.Waiting?)
  {
    InitialIsSafe(max);
    RunsAreSafe(max, INITIAL, events);
    var s := Ran(max, INITIAL, events);
    match s.server
    case Accepting => e := AcceptFails;
    case AcceptFailed => e := ReadsContext;
    case Selecting(_) => e := if s.tokens < max then TakeToken else AtCapacity;
    case Rejecting(_) => e := CloseRejected;
    case Acquired(_) => e := Add;
    case Counted(_) => e := Spawn;
    case Waiting(_) =>
      e := WaitGoesOn(max, s);
  }

  lemma WaitGoesOn(max: nat, s: State) returns (e: Event)
    requires HandlersSafe(s) && Counting(max, s) && s.server.Waiting?
    ensures Enabled(max, s, e) && (e.WaitEnds? || e.Handle?)
  {
    if s.count == 0 {
      e := WaitEnds;
    } else {
      var id := SomeUnfinished(s);
      var h := s.handlers[id];
      if h.pc.SignalDone? {
        e := Handle(id, Proceeds);
      } else {
        assert id in Holding(s.handlers);
        var m := HandlerNotStuck(h, s.cancelled, s.tokens);
        e := Handle(id, m);
      }
    }
  }

  lemma SomeUnfinished(s: State) returns (id: nat)
    requires |Unfinished(s.handlers)| != 0
    ensures id in s.handlers && !s.handlers[id].pc.Gone?
  {
    id :| id in Unfinished(s.handlers);
  }

  /** In every run a stream that copies ends with one result from each direction, and no copy blocks. */
  lemma StreamsGetBothResults(max: nat, events: seq<Event>, id: nat)
    requires CanRun(max, INITIAL, events) && id in Ran(max, INITIAL, events).handlers
    ensures var s := Ran(max, INITIAL, events); var h := s.handlers[id];
      && (forall d :: h.Of(d).Ready? ==> Enabled(max, s, Handle(id, Sends(d))))
      && (Place(h.pc) > Place(WaitSecond) && !h.up.Idle? ==>
            (h.received == [Up, Down] || h.received == [Down, Up]) && h.results == [])
  {
    InitialIsSafe(max);
    RunsAreSafe(max, INITIAL, events);
    var s := Ran(max, INITIAL, events);
    var h := s.handlers[id];
    assert HandlerSafe(h);
    forall d | h.Of(d).Ready? ensures Enabled(max, s, Handle(id, Sends(d))) {
      NoSenderBlocks(h, d, s.cancelled, s.tokens);
    }
    if Place(h.pc) > Place(WaitSecond) && !h.up.Idle? { TwoResultsEach(h); }
  }

  // ---------------------------------------------------------------------
  // The wait ends
  // ---------------------------------------------------------------------

  ghost function TotalRank(handlers: map<nat, Handler>): nat
    decreases |handlers|
  {
    if handlers == map[] then 0
    else
      var id :| id in handlers;
      Rank(handlers[id]) + TotalRank(handlers - {id})
  }

  lemma {:induction false} TakeOut(handlers: map<nat, Handler>, id: nat)
    requires id in handlers
    ensures TotalRank(handlers) == Rank(handlers[id]) + TotalRank(handlers - {id})
    decreases |handlers|
  {
    var k :| k in handlers && TotalRank(handlers) == Rank(handlers[k]) + TotalRank(handlers - {k});
    if k != id {
      TakeOut(handlers - {k}, id);
      TakeOut(handlers - {id}, k);
      assert handlers - {k} - {id} == handlers - {id} - {k};
    }
  }

  lemma MoveLowersTotal(s: State, id: nat, m: Move)
    requires HandlersSafe(s) && id in s.handlers && Can(s.handlers[id], m, s.cancelled, s.tokens)
    ensures TotalRank(s.handlers[id := After(s.handlers[id], m, s.cancelled, s.tokens)]) < TotalRank(s.handlers)
  {
    var n := After(s.handlers[id], m, s.cancelled, s.tokens);
    MoveLowersRank(s.handlers[id], m, s.cancelled, s.tokens);
    LowerTotal(s.handlers, id, n);
  }

  lemma LowerTotal(handlers: map<nat, Handler>, id: nat, n: Handler)
    requires id in handlers && Rank(n) < Rank(handlers[id])
    ensures TotalRank(handlers[id := n]) < TotalRank(handlers)
  {
    TakeOut(handlers, id);
    TakeOut(handlers[id := n], id);
    assert handlers[id := n] - {id} == handlers - {id};
  }

  function Moves(events: seq<Event>): nat {
    if events == [] then 0 else (if events[0].Handle? then 1 else 0) + Moves(events[1..])
  }

  /** Once serve waits, only so many more moves are possible, whatever their order. */
  lemma {:induction false} WaitIsBounded(max: nat, s: State, events: seq<Event>)
    requires Safe(max, s) && CanRun(max, s, events) && (s.server.Waiting? || s.server.Returned?)
    ensures Moves(events) <= TotalRank(s.handlers)
    decreases |events|
  {
    if events != [] {
      var e := events[0];
      StepKeepsSafe(max, s, e);
      if e.Handle? { MoveLowersTotal(s, e.id, e.m); }
      WaitIsBounded(max, Apply(max, s, e), events[1..]);
    }
  }

  /** The context ended before serve, once Accept had failed, asked it. */
  predicate CancelledFirst(events: seq<Event>) {
    exists i, j :: 0 <= i < j < |events| && events[i].Cancel? && events[j].ReadsContext?
  }

  /** serve returns nil exactly when the context had ended before ctx.Err() was read, if only after Accept failed. */
  lemma ReturnsNilIffCancelledFirst(max: nat, events: seq<Event>)
    requires CanRun(max, INITIAL, events) && Ran(max, INITIAL, events).server.Returned?
    ensures !Ran(max, INITIAL, events).server.failed <==> CancelledFirst(events)
  {
    VerdictFollows(max, INITIAL, events);
  }

  predicate Serving(s: State) {
    !s.server.Waiting? && !s.server.Returned?
  }

  lemma {:induction false} VerdictFollows(max: nat, s: State, events: seq<Event>)
    requires CanRun(max, s, events) && Serving(s) && Ran(max, s, events).server.Returned?
    ensures !Ran(max, s, events).server.failed <==> s.cancelled || CancelledFirst(events)
    decreases |events|
  {
    if events != [] {
      var next, rest := Apply(max, s, events[0]), events[1..];
      if events[0].ReadsContext? {
        VerdictStands(max, next, rest);
        assert forall j :: 0 < j < |events| ==> events[j] == rest[j - 1];
      } else {
        VerdictFollows(max, next, rest);
        ContextMustBeRead(max, next, rest);
        FirstOrLater(events);
      }
    }
  }

  /** Once serve waits, its verdict stands and the context is not asked again. */
  lemma {:induction false} VerdictStands(max: nat, s: State, events: seq<Event>)
    requires CanRun(max, s, events) && !Serving(s)
    ensures var t := Ran(max, s, events); !Serving(t) && t.server.failed == s.server.failed
    ensures forall j :: 0 <= j < |events| ==> !events[j].ReadsContext?
    decreases |events|
  {
    if events != [] {
      VerdictStands(max, Apply(max, s, events[0]), events[1..]);
      forall j | 0 <= j < |events| ensures !events[j].ReadsContext? {
        if j > 0 { assert events[j] == events[1..][j - 1]; }
      }
    }
  }

  lemma {:induction false} ContextMustBeRead(max: nat, s: State, events: seq<Event>)
    requires CanRun(max, s, events) && Serving(s) && Ran(max, s, events).server.Returned?
    ensures exists j :: 0 <= j < |events| && events[j].ReadsContext?
    decreases |events|
  {
    if events != [] && !events[0].ReadsContext? {
      ContextMustBeRead(max, Apply(max, s, events[0]), events[1..]);
      var j :| 0 <= j < |events[1..]| && events[1..][j].ReadsContext?;
      assert events[j + 1].ReadsContext?;
    }
  }

  lemma FirstOrLater(events: seq<Event>)
    requires events != [] && !events[0].ReadsContext?
    requires exists j :: 0 <= j < |events[1..]| && events[1..][j].ReadsContext?
    ensures CancelledFirst(events) <==> events[0].Cancel? || CancelledFirst(events[1..])
  {
    var rest := events[1..];
    var last :| 0 <= last < |rest| && rest[last].ReadsContext?;
    assert events[last + 1].ReadsContext?;
    if i, j :| 0 <= i < j < |events| && events[i].Cancel? && events[j].ReadsContext? {
      if i > 0 { assert rest[i - 1].Cancel? && rest[j - 1].ReadsContext?; }
    }
    if i, j :| 0 <= i < j < |rest| && rest[i].Cancel? && rest[j].ReadsContext? {
      assert events[i + 1].Cancel? && events[j + 1].ReadsContext?;
    }
  }
}
