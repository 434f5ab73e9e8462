/** A streaming request tells each of its handlers that the stream is complete when no data
    is being parsed any more. */
module StreamCompletion {
  import opened Wrappers

  /** Stands for one registered stream handler. */
  type Id = nat

  /** The part of a data stream request guarded by its own lock. */
  datatype StreamMutableState = StreamMutableState(
    streams: seq<Id>,
    numberOfExecutingStreams: int,
    enqueuedCompletionEvents: seq<Id>)

  /** Work on its way through the queues. */
  datatype Work =
    | Deliver(streams: seq<Id>)          // hands received data to the parsers
    | Parse(id: Id)                      // one parser execution, up to its update of the count
    | EnqueueCompletions(ids: seq<Id>)   // completion events put off until now

  function AfterReceive(s: StreamMutableState): StreamMutableState {
    s.(numberOfExecutingStreams := s.numberOfExecutingStreams + |s.streams|)
  }

  function AfterUpdate(s: StreamMutableState): StreamMutableState {
    var n := s.numberOfExecutingStreams - 1;
    s.(numberOfExecutingStreams := n, enqueuedCompletionEvents := if n == 0 then [] else s.enqueuedCompletionEvents)
  }

  function UpdateDispatches(s: StreamMutableState): seq<Work> {
    if s.numberOfExecutingStreams == 1 && s.enqueuedCompletionEvents != []
    then [EnqueueCompletions(s.enqueuedCompletionEvents)]
    else []
  }

  function AfterCompletion(s: StreamMutableState, id: Id): StreamMutableState {
    if s.numberOfExecutingStreams == 0 then s
    else s.(enqueuedCompletionEvents := s.enqueuedCompletionEvents + [id])
  }

  class DataStreamRequest {
    var streams: seq<Id>
    var numberOfExecutingStreams: int
    var enqueuedCompletionEvents: seq<Id>
    /** What has been dispatched to the underlying queue, and the handlers told so far. */
    var underlyingQueue: seq<Work>
    var completed: seq<Id>

    function Value(): StreamMutableState
      reads this
    {
      StreamMutableState(streams, numberOfExecutingStreams, enqueuedCompletionEvents)
    }

    constructor ()
      ensures Value() == StreamMutableState([], 0, []) && underlyingQueue == [] && completed == []
    {
      streams, numberOfExecutingStreams, enqueuedCompletionEvents, underlyingQueue, completed := [], 0, [], [], [];
    }

    method ResponseStream(id: Id)
      modifies this
      ensures Value() == old(Value()).(streams := old(streams) + [id])
      ensures underlyingQueue == old(underlyingQueue) && completed == old(completed)
    {
      streams := streams + [id];
    }

    method DidReceive()
      modifies this
      ensures Value() == AfterReceive(old(Value())) && completed == old(completed)
      ensures underlyingQueue == old(underlyingQueue) + [Deliver(old(streams))]
    {
      numberOfExecutingStreams := numberOfExecutingStreams + |streams|;
      var localStreams := streams;
      underlyingQueue := underlyingQueue + [Deliver(localStreams)];
    }

    /** The completion that the handler's response serializer hands over. */
    method StreamDidComplete(id: Id)
      modifies this
      ensures Value() == AfterCompletion(old(Value()), id) && underlyingQueue == old(underlyingQueue)
      ensures completed == old(completed) + (if old(numberOfExecutingStreams) == 0 then [id] else [])
    {
      if numberOfExecutingStreams != 0 {
        enqueuedCompletionEvents := enqueuedCompletionEvents + [id];
        return;
      }
      completed := completed + [id];
    }

    method UpdateAndCompleteIfPossible()
      modifies this
      ensures Value() == AfterUpdate(old(Value())) && completed == old(completed)
      ensures underlyingQueue == old(underlyingQueue) + UpdateDispatches(old(Value()))
    {
      numberOfExecutingStreams := numberOfExecutingStreams - 1;
      if numberOfExecutingStreams != 0 || |enqueuedCompletionEvents| == 0 { return; }
      var completionEvents := enqueuedCompletionEvents;
      underlyingQueue := underlyingQueue + [EnqueueCompletions(completionEvents)];
      enqueuedCompletionEvents := [];
    }
  }

  // ------------------------------------------------------- everything interleaved

  /** `finished` holds once the response serializers have begun to hand over completions,
      those of the handlers in `ready`. */
  datatype World = World(s: StreamMutableState, work: seq<Work>, completed: seq<Id>, ready: set<Id>, finished: bool)

  datatype Action =
    | Register(id: Id)
    | Receive
    | Complete(id: Id)
    | Proceed(i: nat)

  /** A completion is handed over at most once. */
  predicate Enabled(w: World, a: Action) {
    match a
    case Complete(id) => id !in w.ready
    case Proceed(i) => i < |w.work|
    case _ => true
  }

  function Parses(ids: seq<Id>): (ws: seq<Work>)
    ensures |ws| == |ids|
  {
    if ids == [] then [] else [Parse(ids[0])] + Parses(ids[1..])
  }

  function Step(w: World, a: Action): World
    requires Enabled(w, a)
  {
    match a
    case Register(id) => w.(s := w.s.(streams := w.s.streams + [id]))
    case Receive => w.(s := AfterReceive(w.s), work := w.work + [Deliver(w.s.streams)])
    case Complete(id) =>
      World(AfterCompletion(w.s, id), w.work, w.completed + (if w.s.numberOfExecutingStreams == 0 then [id] else []),
            w.ready + {id}, true)
    case Proceed(i) =>
      var others := w.work[..i] + w.work[i + 1..];
      match w.work[i]
      case Deliver(ids) => w.(work := others + Parses(ids))
      case Parse(_) => w.(s := AfterUpdate(w.s), work := others + UpdateDispatches(w.s))
      case EnqueueCompletions(ids) => w.(work := others, completed := w.completed + ids)
  }

  function Run(w: World, actions: seq<Action>): Option<World>
    decreases |actions|
  {
    if actions == [] then Some(w)
    else if Enabled(w, actions[0]) then Run(Step(w, actions[0]), actions[1..])
    else None
  }

  predicate Initial(w: World) {
    w == World(StreamMutableState([], 0, []), [], [], {}, false)
  }

  // ------------------------------------------------------------------- the count

  /** Parser executions that a list of work still has to do. */
  function Executions(ws: seq<Work>): nat {
    if ws == [] then 0
    else
      (match ws[0] case Deliver(ids) => |ids| case Parse(_) => 1 case EnqueueCompletions(_) => 0) + Executions(ws[1..])
  }

  function Occurrences(ids: seq<Id>, id: Id): nat {
    if ids == [] then 0 else Occurrences(ids[1..], id) + (if ids[0] == id then 1 else 0)
  }

  /** How often a list of work will tell a handler of its completion. */
  function Times(ws: seq<Work>, id: Id): nat {
    if ws == [] then 0
    else Times(ws[1..], id) + (if ws[0].EnqueueCompletions? then Occurrences(ws[0].ids, id) else 0)
  }

  function PutOff(ws: seq<Work>): nat {
    if ws == [] then 0 else PutOff(ws[1..]) + (if ws[0].EnqueueCompletions? then 1 else 0)
  }

  function Places(w: World, id: Id): nat {
    Occurrences(w.s.enqueuedCompletionEvents, id) + Times(w.work, id) + Occurrences(w.completed, id)
  }

  /** The count is that of the parser executions still to come; completions wait only as
      long as there are some, and each one handed over is in exactly one place. */
  ghost predicate Invariant(w: World) {
    && w.s.numberOfExecutingStreams == Executions(w.work)
    && (w.s.numberOfExecutingStreams == 0 ==> w.s.enqueuedCompletionEvents == [])
    && (forall id :: Places(w, id) == if id in w.ready then 1 else 0)
  }

  lemma {:induction false} Together(a: seq<Work>, b: seq<Work>, id: Id)
    ensures Executions(a + b) == Executions(a) + Executions(b)
    ensures Times(a + b, id) == Times(a, id) + Times(b, id)
    ensures PutOff(a + b) == PutOff(a) + PutOff(b)
  {
    if a == [] {
      assert a + b == b;
    } else {
      assert (a + b)[1..] == a[1..] + b;
      Together(a[1..], b, id);
    }
  }

  lemma {:induction false} One(work: Work, id: Id)
    ensures Executions([work])
         == (match work case Deliver(ids) => |ids| case Parse(_) => 1 case EnqueueCompletions(_) => 0)
    ensures Times([work], id) == (if work.EnqueueCompletions? then Occurrences(work.ids, id) else 0)
    ensures PutOff([work]) == (if work.EnqueueCompletions? then 1 else 0)
  {
    assert [work][1..] == [];
  }

  lemma {:induction false} TakenOut(ws: seq<Work>, i: nat, id: Id)
    requires i < |ws|
    ensures var others := ws[..i] + ws[i + 1..];
            && Executions(ws) == Executions(others) + Executions([ws[i]])
            && Times(ws, id) == Times(others, id) + Times([ws[i]], id)
            && PutOff(ws) == PutOff(others) + PutOff([ws[i]])
  {
    assert ws == ws[..i] + ([ws[i]] + ws[i + 1..]);
    Together(ws[..i], [ws[i]] + ws[i + 1..], id);
    Together([ws[i]], ws[i + 1..], id);
    Together(ws[..i], ws[i + 1..], id);
  }

  lemma {:induction false} OccurAppended(xs: seq<Id>, ys: seq<Id>, id: Id)
    ensures Occurrences(xs + ys, id) == Occurrences(xs, id) + Occurrences(ys, id)
  {
    if xs == [] {
      assert xs + ys == ys;
    } else {
      assert (xs + ys)[1..] == xs[1..] + ys;
      OccurAppended(xs[1..], ys, id);
    }
  }

  lemma {:induction false} ParsesCount(ids: seq<Id>, id: Id)
    ensures Executions(Parses(ids)) == |ids| && Times(Parses(ids), id) == 0 && PutOff(Parses(ids)) == 0
  {
    if ids != [] {
      ParsesCount(ids[1..], id);
      assert Parses(ids)[1..] == Parses(ids[1..]);
    }
  }

  /** What one step does to the count and to the places of one completion. */
  lemma {:induction false} StepCounts(w: World, a: Action, id: Id)
    requires Invariant(w) && Enabled(w, a)
    ensures var w' := Step(w, a);
            && w'.s.numberOfExecutingStreams == Executions(w'.work)
            && (w'.s.numberOfExecutingStreams == 0 ==> w'.s.enqueuedCompletionEvents == [])
            && Places(w', id) == Places(w, id) + (if a == Complete(id) then 1 else 0)
  {
    match a
    case Register(_) =>
    case Receive =>
      Together(w.work, [Deliver(w.s.streams)], id);
      One(Deliver(w.s.streams), id);
    case Complete(x) =>
      OccurAppended(w.s.enqueuedCompletionEvents, [x], id);
      OccurAppended(w.completed, [x], id);
      OccurAppended(w.completed, [], id);
      assert w.completed + [] == w.completed;
      assert [x][1..] == [];
    case Proceed(i) =>
      var others := w.work[..i] + w.work[i + 1..];
      TakenOut(w.work, i, id);
      One(w.work[i], id);
      match w.work[i] {
        case Deliver(ids) =>
          Together(others, Parses(ids), id);
          ParsesCount(ids, id);
        case Parse(_) =>
          Together(others, UpdateDispatches(w.s), id);
          if UpdateDispatches(w.s) != [] { One(UpdateDispatches(w.s)[0], id); }
        case EnqueueCompletions(ids) =>
          OccurAppended(w.completed, ids, id);
      }
  }

  lemma {:induction false} StepKeeps(w: World, a: Action)
    requires Invariant(w) && Enabled(w, a)
    ensures Invariant(Step(w, a)) && w.completed <= Step(w, a).completed
  {
    var w' := Step(w, a);
    forall id
      ensures Places(w', id) == if id in w'.ready then 1 else 0
    {
      StepCounts(w, a, id);
      assert Places(w, id) == if id in w.ready then 1 else 0;
    }
    StepCounts(w, a, 0);
  }

  /** Under every interleaving the count is that of the parser executions still pending. */
  lemma {:induction false} RunKeeps(w: World, actions: seq<Action>)
    requires Invariant(w) && Run(w, actions).Some?
    ensures var w' := Run(w, actions).value;
            Invariant(w') && w'.s.numberOfExecutingStreams == Executions(w'.work) && w.completed <= w'.completed
    decreases |actions|
  {
    if actions != [] {
      StepKeeps(w, actions[0]);
      RunKeeps(Step(w, actions[0]), actions[1..]);
    }
  }

  lemma {:induction false} InitiallyHolds(w: World)
    requires Initial(w)
    ensures Invariant(w) && CompletionsLast(w)
  {
    forall id
      ensures Places(w, id) == 0
    {}
  }

  /** No handler is told twice; when no work is left each that was to be told has been. */
  lemma {:induction false} CompletedOnce(w: World, actions: seq<Action>, id: Id)
    requires Initial(w) && Run(w, actions).Some?
    ensures var w' := Run(w, actions).value;
            && w'.s.numberOfExecutingStreams == Executions(w'.work)
            && Occurrences(w'.completed, id) <= (if id in w'.ready then 1 else 0)
            && (w'.work == [] ==> Occurrences(w'.completed, id) == (if id in w'.ready then 1 else 0))
  {
    InitiallyHolds(w);
    RunKeeps(w, actions);
    var w' := Run(w, actions).value;
    assert Places(w', id) == if id in w'.ready then 1 else 0;
  }

  // -------------------------------------------------- all data reaches all handlers

  /** How often a handler still has to parse what has been received. */
  function Owed(ws: seq<Work>, id: Id): nat {
    if ws == [] then 0
    else
      Owed(ws[1..], id)
      + (match ws[0] case Deliver(ids) => Occurrences(ids, id) case Parse(x) => (if x == id then 1 else 0) case _ => 0)
  }

  /** How often a handler parses something in the course of the actions. */
  function Parsed(w: World, actions: seq<Action>, id: Id): nat
    requires Run(w, actions).Some?
    decreases |actions|
  {
    if actions == [] then 0
    else
      var a := actions[0];
      (if a.Proceed? && w.work[a.i] == Parse(id) then 1 else 0) + Parsed(Step(w, a), actions[1..], id)
  }

  /** How often data is received while the handler is registered. */
  function Received(w: World, actions: seq<Action>, id: Id): nat
    requires Run(w, actions).Some?
    decreases |actions|
  {
    if actions == [] then 0
    else
      (if actions[0].Receive? then Occurrences(w.s.streams, id) else 0)
        + Received(Step(w, actions[0]), actions[1..], id)
  }

  lemma {:induction false} OwedTogether(a: seq<Work>, b: seq<Work>, id: Id)
    ensures Owed(a + b, id) == Owed(a, id) + Owed(b, id)
  {
    if a == [] {
      assert a + b == b;
    } else {
      assert (a + b)[1..] == a[1..] + b;
      OwedTogether(a[1..], b, id);
    }
  }

  lemma {:induction false} OwedOne(work: Work, id: Id)
    ensures Owed([work], id)
         == match work case Deliver(ids) => Occurrences(ids, id) case Parse(x) => (if x == id then 1 else 0) case _ => 0
  {
    assert [work][1..] == [];
  }

  lemma {:induction false} ParsesOwed(ids: seq<Id>, id: Id)
    ensures Owed(Parses(ids), id) == Occurrences(ids, id)
  {
    if ids != [] {
      assert Parses(ids)[1..] == Parses(ids[1..]);
      ParsesOwed(ids[1..], id);
    }
  }

  lemma {:induction false} OwedWithout(ws: seq<Work>, i: nat, id: Id)
    requires i < |ws|
    ensures Owed(ws, id) == Owed(ws[..i] + ws[i + 1..], id) + Owed([ws[i]], id)
  {
    assert ws == ws[..i] + ([ws[i]] + ws[i + 1..]);
    OwedTogether(ws[..i], [ws[i]] + ws[i + 1..], id);
    OwedTogether([ws[i]], ws[i + 1..], id);
    OwedTogether(ws[..i], ws[i + 1..], id);
  }

  lemma {:induction false} StepOwes(w: World, a: Action, id: Id)
    requires Enabled(w, a)
    ensures Owed(Step(w, a).work, id) + (if a.Proceed? && w.work[a.i] == Parse(id) then 1 else 0)
         == Owed(w.work, id) + (if a.Receive? then Occurrences(w.s.streams, id) else 0)
  {
    if a.Receive? {
      OwedTogether(w.work, [Deliver(w.s.streams)], id);
      OwedOne(Deliver(w.s.streams), id);
    } else if a.Proceed? {
      var others := w.work[..a.i] + w.work[a.i + 1..];
      OwedWithout(w.work, a.i, id);
      OwedOne(w.work[a.i], id);
      match w.work[a.i]
      case Deliver(ids) =>
        OwedTogether(others, Parses(ids), id);
        ParsesOwed(ids, id);
      case Parse(_) =>
        OwedTogether(others, UpdateDispatches(w.s), id);
        if UpdateDispatches(w.s) != [] { OwedOne(UpdateDispatches(w.s)[0], id); }
      case EnqueueCompletions(_) =>
    }
  }

  /** Every handler parses all data received since it was registered, each exactly once, but
      for what it still has to parse. */
  lemma {:induction false} AllDataIsParsed(w: World, actions: seq<Action>, id: Id)
    requires Run(w, actions).Some?
    ensures Owed(Run(w, actions).value.work, id) + Parsed(w, actions, id) == Owed(w.work, id) + Received(w, actions, id)
    decreases |actions|
  {
    if actions != [] {
      StepOwes(w, actions[0], id);
      AllDataIsParsed(Step(w, actions[0]), actions[1..], id);
    }
  }

  // ------------------------------------------------------------- told in order

  /** The handlers whose completions have been put off, in the order in which they are on
      their way or still wait. */
  function OnTheWay(ws: seq<Work>): seq<Id> {
    if ws == [] then [] else (if ws[0].EnqueueCompletions? then ws[0].ids else []) + OnTheWay(ws[1..])
  }

  function Backlog(w: World): seq<Id> { OnTheWay(w.work) + w.s.enqueuedCompletionEvents }

  lemma {:induction false} OnTheWayTogether(a: seq<Work>, b: seq<Work>)
    ensures OnTheWay(a + b) == OnTheWay(a) + OnTheWay(b)
  {
    if a == [] {
      assert a + b == b;
      assert [] + OnTheWay(b) == OnTheWay(b);
    } else {
      assert (a + b)[1..] == a[1..] + b;
      OnTheWayTogether(a[1..], b);
    }
  }

  lemma {:induction false} OnTheWayOne(work: Work)
    ensures OnTheWay([work]) == if work.EnqueueCompletions? then work.ids else []
  {
    assert [work][1..] == [];
  }

  lemma {:induction false} NoneOnTheWay(ids: seq<Id>)
    ensures OnTheWay(Parses(ids)) == []
  {
    if ids != [] {
      assert Parses(ids)[1..] == Parses(ids[1..]);
      NoneOnTheWay(ids[1..]);
    }
  }

  /** None of the work before place i tells handlers. */
  predicate NoneBefore(ws: seq<Work>, i: nat) { forall j | 0 <= j < i && j < |ws| :: !ws[j].EnqueueCompletions? }

  lemma {:induction false} NothingBefore(ws: seq<Work>, i: nat)
    requires i <= |ws| && NoneBefore(ws, i)
    ensures OnTheWay(ws[..i]) == []
  {
    if i > 0 {
      assert ws[..i][1..] == ws[1..][..i - 1];
      NothingBefore(ws[1..], i - 1);
    }
  }

  lemma {:induction false} TakenFromWay(ws: seq<Work>, i: nat)
    requires i < |ws| && (ws[i].EnqueueCompletions? ==> NoneBefore(ws, i))
    ensures OnTheWay(ws) == (if ws[i].EnqueueCompletions? then ws[i].ids else []) + OnTheWay(ws[..i] + ws[i + 1..])
  {
    var before, behind := ws[..i], ws[i + 1..];
    assert ws == before + ([ws[i]] + behind);
    OnTheWayTogether(before, [ws[i]] + behind);
    OnTheWayTogether([ws[i]], behind);
    OnTheWayTogether(before, behind);
    OnTheWayOne(ws[i]);
    if ws[i].EnqueueCompletions? { NothingBefore(ws, i); }
  }

  lemma {:induction false} NothingAdded(ids: seq<Id>)
    ensures ids + [] == ids && [] + ids == ids
  {}

  lemma {:induction false} ToldFirst(completed: seq<Id>, ids: seq<Id>, others: seq<Id>, enqueued: seq<Id>)
    ensures completed + ids + (others + enqueued) == completed + (ids + others + enqueued)
  {}

  lemma {:induction false} UpdateKeepsBacklog(s: StreamMutableState, others: seq<Work>)
    ensures OnTheWay(others + UpdateDispatches(s)) + AfterUpdate(s).enqueuedCompletionEvents
         == OnTheWay(others) + s.enqueuedCompletionEvents
  {
    OnTheWayTogether(others, UpdateDispatches(s));
    NothingAdded(OnTheWay(others));
    if UpdateDispatches(s) != [] {
      OnTheWayOne(UpdateDispatches(s)[0]);
      NothingAdded(OnTheWay(others) + s.enqueuedCompletionEvents);
    }
  }

  lemma {:induction false} ParsesKeepBacklog(ids: seq<Id>, others: seq<Work>)
    ensures OnTheWay(others + Parses(ids)) == OnTheWay(others)
  {
    OnTheWayTogether(others, Parses(ids));
    NoneOnTheWay(ids);
    NothingAdded(OnTheWay(others));
  }

  lemma {:induction false} ProceedInOrder(w: World, i: nat)
    requires i < |w.work| && (w.work[i].EnqueueCompletions? ==> NoneBefore(w.work, i))
    ensures var w' := Step(w, Proceed(i));
            && w'.completed + Backlog(w') == w.completed + Backlog(w)
            && w.completed <= w'.completed
  {
    var others := w.work[..i] + w.work[i + 1..];
    TakenFromWay(w.work, i);
    NothingAdded(OnTheWay(others));
    match w.work[i]
    case Deliver(ids) => ParsesKeepBacklog(ids, others);
    case Parse(_) => UpdateKeepsBacklog(w.s, others);
    case EnqueueCompletions(ids) => ToldFirst(w.completed, ids, OnTheWay(others), w.s.enqueuedCompletionEvents);
  }

  /** As long as what has been dispatched to tell handlers goes on in the order of dispatching,
      as on a serial queue, handlers whose completions are put off are told in the order in
      which the completions were handed over. */
  lemma {:induction false} ToldInOrder(w: World, a: Action)
    requires Enabled(w, a)
    requires a.Proceed? && w.work[a.i].EnqueueCompletions? ==> NoneBefore(w.work, a.i)
    ensures var w' := Step(w, a);
            if a.Complete? then
              if w.s.numberOfExecutingStreams == 0
              then w'.completed == w.completed + [a.id] && Backlog(w') == Backlog(w)
              else w'.completed == w.completed && Backlog(w') == Backlog(w) + [a.id]
            else w.completed <= w'.completed && w'.completed + Backlog(w') == w.completed + Backlog(w)
  {
    match a
    case Proceed(i) => ProceedInOrder(w, i);
    case Receive =>
      OnTheWayTogether(w.work, [Deliver(w.s.streams)]);
      OnTheWayOne(Deliver(w.s.streams));
    case _ =>
  }

  // ------------------------------------------------------- completions come last

  /** Data may be received while no completion that was put off is on its way, or when there
      is no handler to parse it. */
  predicate Harmless(w: World) { PutOff(w.work) == 0 || w.s.streams == [] }

  predicate Allowed(w: World, a: Action) { Enabled(w, a) && (a.Receive? ==> Harmless(w)) }

  predicate ReceivesHarmlessly(w: World, actions: seq<Action>)
    decreases |actions|
  {
    actions == [] || (Allowed(w, actions[0]) && ReceivesHarmlessly(Step(w, actions[0]), actions[1..]))
  }

  /** Whenever a handler is told of its completion, no parser execution is pending. */
  predicate CompletesWhenIdle(w: World, actions: seq<Action>)
    requires Run(w, actions).Some?
    decreases |actions|
  {
    actions == [] ||
    (var w' := Step(w, actions[0]);
     (w'.completed != w.completed ==> Executions(w.work) == 0) && CompletesWhenIdle(w', actions[1..]))
  }

  /** Completions that were put off are on their way only when parsing has ended, and are
      never none. */
  ghost predicate CompletionsLast(w: World) {
    (PutOff(w.work) > 0 ==> w.s.numberOfExecutingStreams == 0) && SomeCompletions(w.work)
  }

  predicate SomeCompletions(ws: seq<Work>) {
    ws == [] || ((ws[0].EnqueueCompletions? ==> ws[0].ids != []) && SomeCompletions(ws[1..]))
  }

  lemma {:induction false} SomeTogether(a: seq<Work>, b: seq<Work>)
    ensures SomeCompletions(a + b) <==> SomeCompletions(a) && SomeCompletions(b)
  {
    if a == [] {
      assert a + b == b;
    } else {
      assert (a + b)[1..] == a[1..] + b;
      SomeTogether(a[1..], b);
    }
  }

  lemma {:induction false} OnlyParses(ids: seq<Id>)
    ensures SomeCompletions(Parses(ids))
  {
    if ids != [] {
      OnlyParses(ids[1..]);
      assert Parses(ids)[1..] == Parses(ids[1..]);
    }
  }

  lemma {:induction false} StepKeepsSome(w: World, a: Action)
    requires SomeCompletions(w.work) && Enabled(w, a)
    ensures SomeCompletions(Step(w, a).work)
  {
    if a.Receive? {
      SomeTogether(w.work, [Deliver(w.s.streams)]);
    } else if a.Proceed? {
      var i := a.i;
      var others := w.work[..i] + w.work[i + 1..];
      assert w.work == w.work[..i] + ([w.work[i]] + w.work[i + 1..]);
      SomeTogether(w.work[..i], [w.work[i]] + w.work[i + 1..]);
      SomeTogether([w.work[i]], w.work[i + 1..]);
      SomeTogether(w.work[..i], w.work[i + 1..]);
      match w.work[i] {
        case Deliver(ids) =>
          OnlyParses(ids);
          SomeTogether(others, Parses(ids));
        case Parse(_) => SomeTogether(others, UpdateDispatches(w.s));
        case EnqueueCompletions(_) =>
      }
    }
  }

  lemma {:induction false} StepKeepsLast(w: World, a: Action)
    requires Invariant(w) && CompletionsLast(w) && Allowed(w, a)
    ensures CompletionsLast(Step(w, a))
    ensures Step(w, a).completed != w.completed ==> Executions(w.work) == 0
  {
    StepKeeps(w, a);
    StepKeepsSome(w, a);
    if a.Receive? {
      Together(w.work, [Deliver(w.s.streams)], 0);
      One(Deliver(w.s.streams), 0);
    } else if a.Proceed? {
      var others := w.work[..a.i] + w.work[a.i + 1..];
      TakenOut(w.work, a.i, 0);
      One(w.work[a.i], 0);
      match w.work[a.i] {
        case Deliver(ids) =>
          Together(others, Parses(ids), 0);
          ParsesCount(ids, 0);
        case Parse(_) =>
          Together(others, UpdateDispatches(w.s), 0);
          if UpdateDispatches(w.s) != [] { One(UpdateDispatches(w.s)[0], 0); }
        case EnqueueCompletions(_) =>
      }
    }
  }

  lemma {:induction false} RunKeepsLast(w: World, actions: seq<Action>)
    requires Invariant(w) && CompletionsLast(w) && ReceivesHarmlessly(w, actions)
    ensures Run(w, actions).Some? && CompletesWhenIdle(w, actions)
    ensures Invariant(Run(w, actions).value) && CompletionsLast(Run(w, actions).value)
    decreases |actions|
  {
    if actions != [] {
      StepKeeps(w, actions[0]);
      StepKeepsLast(w, actions[0]);
      RunKeepsLast(Step(w, actions[0]), actions[1..]);
    }
  }

  /** When all data is received harmlessly, a handler is told of its completion only when no
      parser execution is pending. */
  lemma {:induction false} CompletionsComeLast(w: World, actions: seq<Action>)
    requires Initial(w) && ReceivesHarmlessly(w, actions)
    ensures Run(w, actions).Some? && CompletesWhenIdle(w, actions)
  {
    InitiallyHolds(w);
    RunKeepsLast(w, actions);
  }

  /** If data is received harmlessly from here on, handlers are told when idle. */
  ghost predicate StaysLast(w: World, actions: seq<Action>) {
    ReceivesHarmlessly(w, actions) ==> Run(w, actions).Some? && CompletesWhenIdle(w, actions)
  }

  lemma {:induction false} PutOffFound(ws: seq<Work>) returns (i: nat)
    requires PutOff(ws) > 0 && SomeCompletions(ws)
    ensures i < |ws| && ws[i].EnqueueCompletions? && ws[i].ids != []
  {
    if ws[0].EnqueueCompletions? {
      i := 0;
    } else {
      var j := PutOffFound(ws[1..]);
      i := j + 1;
    }
  }

  /** Data that comes while a completion that was put off is on its way is overtaken by it:
      the next step may tell a handler while parser executions are pending. */
  lemma {:induction false} OvertakesLateData(w: World, i: nat)
    requires Invariant(w) && w.s.streams != []
    requires i < |w.work| && w.work[i].EnqueueCompletions? && w.work[i].ids != []
    ensures var w1 := Step(w, Receive);
            Step(w1, Proceed(i)).completed != w1.completed && Executions(w1.work) > 0
  {
    Together(w.work, [Deliver(w.s.streams)], 0);
    One(Deliver(w.s.streams), 0);
    var w1 := Step(w, Receive);
    assert w1.work[i] == w.work[i];
    assert |w1.completed + w.work[i].ids| > |w1.completed|;
  }

  lemma {:induction false} TellsEarly(w: World, a: Action)
    requires Allowed(w, a) && Step(w, a).completed != w.completed && Executions(w.work) > 0
    ensures !StaysLast(w, [a])
  {
    assert [a][1..] == [];
    assert ReceivesHarmlessly(Step(w, a), []);
    assert Run(Step(w, a), []) == Some(Step(w, a));
    assert ReceivesHarmlessly(w, [a]);
    if Run(w, [a]).Some? { assert !CompletesWhenIdle(w, [a]); }
  }

  /** Receiving data is harmless if and only if no handler can be told while a parser
      execution is pending, as long as nothing is received harmfully after it. */
  lemma {:induction false} HarmlessExactly(w: World)
    requires Invariant(w) && CompletionsLast(w)
    ensures Harmless(w) <==> forall actions :: StaysLast(Step(w, Receive), actions)
  {
    var w1 := Step(w, Receive);
    if Harmless(w) {
      StepKeeps(w, Receive);
      StepKeepsLast(w, Receive);
      forall actions
        ensures StaysLast(w1, actions)
      {
        if ReceivesHarmlessly(w1, actions) { RunKeepsLast(w1, actions); }
      }
    } else {
      var i := PutOffFound(w.work);
      OvertakesLateData(w, i);
      TellsEarly(w1, Proceed(i));
    }
  }

  /** Five steps lead to a world in which receiving data is not harmless: a handler is
      registered, data is on its way to it, its completion is put off and then dispatched. */
  lemma {:induction false} HarmIsReached(w: World, id: Id) returns (w': World)
    requires Initial(w)
    ensures Run(w, [Register(id), Receive, Complete(id), Proceed(0), Proceed(0)]) == Some(w') && !Harmless(w')
  {
    var p := Proceed(0);
    var w1 := Step(w, Register(id));
    assert w1.s.streams == [id] && w1.work == [];
    var w2 := Step(Step(w1, Receive), Complete(id));
    assert w2.work == [Deliver([id])] && w2.s.enqueuedCompletionEvents == [id];
    var w3 := Step(w2, p);
    assert Parses([id]) == [Parse(id)];
    assert w3.work == [Parse(id)];
    w' := Step(w3, p);
    assert w'.work == [EnqueueCompletions([id])];
    One(w'.work[0], 0);
    assert Run(w', []) == Some(w');
    RunFrom(w3, p, []);
    RunFrom(w2, p, [p]);
    RunFrom(Step(w1, Receive), Complete(id), [p, p]);
    RunFrom(w1, Receive, [Complete(id), p, p]);
    RunFrom(w, Register(id), [Receive, Complete(id), p, p]);
  }

  lemma {:induction false} RunFrom(w: World, a: Action, actions: seq<Action>)
    requires Enabled(w, a)
    ensures Run(w, [a] + actions) == Run(Step(w, a), actions)
  {
    assert ([a] + actions)[1..] == actions;
  }

  // ----------------------------------------------------- data before the completions

  /** No data is received after the request has finished. */
  predicate DataComesFirst(w: World, actions: seq<Action>)
    decreases |actions|
  {
    actions == [] ||
    (Enabled(w, actions[0]) && (actions[0].Receive? ==> !w.finished)
     && DataComesFirst(Step(w, actions[0]), actions[1..]))
  }

  /** Only a finished request has completions to put off. */
  predicate FinishedFirst(w: World) {
    PutOff(w.work) > 0 || w.s.enqueuedCompletionEvents != [] ==> w.finished
  }

  lemma {:induction false} StepKeepsFinished(w: World, a: Action)
    requires FinishedFirst(w) && Enabled(w, a)
    ensures FinishedFirst(Step(w, a))
  {
    if a.Receive? {
      Together(w.work, [Deliver(w.s.streams)], 0);
      One(Deliver(w.s.streams), 0);
    } else if a.Proceed? {
      var others := w.work[..a.i] + w.work[a.i + 1..];
      TakenOut(w.work, a.i, 0);
      match w.work[a.i]
      case Deliver(ids) =>
        Together(others, Parses(ids), 0);
        ParsesCount(ids, 0);
      case Parse(_) =>
        Together(others, UpdateDispatches(w.s), 0);
      case EnqueueCompletions(_) =>
    }
  }

  lemma {:induction false} DataFirstIsHarmless(w: World, actions: seq<Action>)
    requires FinishedFirst(w) && DataComesFirst(w, actions)
    ensures ReceivesHarmlessly(w, actions)
    decreases |actions|
  {
    if actions != [] {
      StepKeepsFinished(w, actions[0]);
      DataFirstIsHarmless(Step(w, actions[0]), actions[1..]);
    }
  }

  /** With no data after the request has finished, all data is received harmlessly. */
  lemma {:induction false} NoLateData(w: World, actions: seq<Action>)
    requires Initial(w) && DataComesFirst(w, actions)
    ensures Run(w, actions).Some? && CompletesWhenIdle(w, actions)
  {
    DataFirstIsHarmless(w, actions);
    CompletionsComeLast(w, actions);
  }
}
