/** The life cycle of a request and the chain of its response serializers: each serializer
    runs when the one before it has completed, and all completions are called at the end. */
module ResponseSerializers {
  import opened Wrappers

  /** Stands for one appended serializer and for the completion it hands over. */
  type Id = nat

  datatype State = Initialized | Resumed | Suspended | Cancelled | Finished {
    predicate CanTransitionTo(to: State) {
      match (this, to)
      case (Initialized, _) => true
      case (_, Initialized) => false
      case (Cancelled, _) => false
      case (Finished, _) => false
      case (Resumed, Cancelled) => true
      case (Suspended, Cancelled) => true
      case (Resumed, Suspended) => true
      case (Suspended, Resumed) => true
      case (Suspended, Suspended) => false
      case (Resumed, Resumed) => false
      case (_, Finished) => true
    }
  }

  datatype MutableState = MutableState(
    state: State,
    responseSerializers: seq<Id>,
    responseSerializerCompletions: seq<Id>,
    processingFinished: bool,
    isFinishing: bool)

  /** Work under way outside the lock. */
  datatype Work =
    | Process          // about to look for the next serializer
    | Drain            // has found none, and is about to collect the completions
    | Running(id: Id)  // a serializer dispatched to its queue
    | Asking(id: Id)   // one that has failed and waits for the verdict on a retry

  /** Calls of the request's own methods that are dispatched to its queue. They may be made
      at any time later on. */
  datatype Call = CallFinish | CallResume

  // -------------------------------------------------------- what the methods do

  function AfterTransition(s: MutableState, to: State): MutableState {
    if s.state.CanTransitionTo(to) then s.(state := to) else s
  }

  function AfterAppend(s: MutableState, id: Id): MutableState {
    s.(responseSerializers := s.responseSerializers + [id], state := if s.state.Finished? then Resumed else s.state)
  }

  function AppendDispatches(s: MutableState): seq<Work> { if s.processingFinished then [Process] else [] }

  function NextSerializer(s: MutableState): Option<Id> {
    var index := |s.responseSerializerCompletions|;
    if index < |s.responseSerializers| then Some(s.responseSerializers[index]) else None
  }

  function AfterDrain(s: MutableState): MutableState {
    AfterTransition(s, Finished).(responseSerializers := [], responseSerializerCompletions := [],
                                  processingFinished := true, isFinishing := false)
  }

  function AfterCompletion(s: MutableState, id: Id): MutableState {
    s.(responseSerializerCompletions := s.responseSerializerCompletions + [id])
  }

  function AfterReset(s: MutableState): MutableState { s.(isFinishing := false, responseSerializerCompletions := []) }

  class Request {
    var state: State
    var responseSerializers: seq<Id>
    var responseSerializerCompletions: seq<Id>
    var processingFinished: bool
    var isFinishing: bool
    /** What has been dispatched to the queues, and the completions called, in order. */
    var dispatched: seq<Work>
    var called: seq<Id>
    var calls: seq<Call>

    function Value(): MutableState
      reads this
    {
      MutableState(state, responseSerializers, responseSerializerCompletions, processingFinished, isFinishing)
    }

    constructor ()
      ensures Value() == MutableState(Initialized, [], [], false, false) && dispatched == [] && called == []
           && calls == []
    {
      state, responseSerializers, responseSerializerCompletions := Initialized, [], [];
      processingFinished, isFinishing, dispatched, called, calls := false, false, [], [], [];
    }

    method Finish()
      modifies this
      ensures var s := old(Value());
              if s.isFinishing then Value() == s && dispatched == old(dispatched) && called == old(called)
              else Processed(s.(isFinishing := true), old(dispatched), old(called))
      ensures calls == old(calls)
    {
      if isFinishing { return; }
      isFinishing := true;
      ProcessNextResponseSerializer();
    }

    method AppendResponseSerializer(id: Id)
      modifies this
      ensures Value() == AfterAppend(old(Value()), id) && called == old(called)
      ensures dispatched == old(dispatched) + AppendDispatches(old(Value()))
      ensures calls == old(calls) + (if state.CanTransitionTo(Resumed) then [CallResume] else [])
    {
      responseSerializers := responseSerializers + [id];
      if state == Finished { state := Resumed; }
      if processingFinished { dispatched := dispatched + [Process]; }
      if state.CanTransitionTo(Resumed) { calls := calls + [CallResume]; }
    }

    method NextResponseSerializer() returns (next: Option<Id>)
      ensures next == NextSerializer(Value())
    {
      next := None;
      var responseSerializerIndex := |responseSerializerCompletions|;
      if responseSerializerIndex < |responseSerializers| {
        next := Some(responseSerializers[responseSerializerIndex]);
      }
    }

    /** What processing the next serializer from a state s leads to. */
    ghost predicate Processed(s: MutableState, dispatchedBefore: seq<Work>, calledBefore: seq<Id>)
      reads this
    {
      match NextSerializer(s)
      case Some(id) => Value() == s && dispatched == dispatchedBefore + [Running(id)] && called == calledBefore
      case None =>
        Value() == AfterDrain(s) && dispatched == dispatchedBefore
          && called == calledBefore + s.responseSerializerCompletions
    }

    method ProcessNextResponseSerializer()
      modifies this
      ensures Processed(old(Value()), old(dispatched), old(called)) && calls == old(calls)
    {
      var next := NextResponseSerializer();
      if next.Some? {
        dispatched := dispatched + [Running(next.value)];
        return;
      }
      var completions := responseSerializerCompletions;
      responseSerializers, responseSerializerCompletions := [], [];
      if state.CanTransitionTo(Finished) { state := Finished; }
      processingFinished := true;
      isFinishing := false;
      for i := 0 to |completions|
        invariant called == old(called) + completions[..i]
        invariant Value() == AfterDrain(old(Value())) && dispatched == old(dispatched) && calls == old(calls)
      {
        called := called + [completions[i]];
      }
    }

    method ResponseSerializerDidComplete(id: Id)
      modifies this
      ensures Processed(AfterCompletion(old(Value()), id), old(dispatched), old(called)) && calls == old(calls)
    {
      responseSerializerCompletions := responseSerializerCompletions + [id];
      ProcessNextResponseSerializer();
    }

    method Reset()
      modifies this
      ensures Value() == AfterReset(old(Value()))
      ensures dispatched == old(dispatched) && called == old(called) && calls == old(calls)
    {
      isFinishing := false;
      responseSerializerCompletions := [];
    }

    /** Without a task that could still complete, cancelling itself sees to it that the
        request finishes. */
    method Cancel(taskIsRunning: bool)
      modifies this
      ensures Value() == AfterTransition(old(Value()), Cancelled) && dispatched == old(dispatched)
           && called == old(called)
      ensures calls == old(calls)
            + (if old(state).CanTransitionTo(Cancelled) && !taskIsRunning then [CallFinish] else [])
    {
      if !state.CanTransitionTo(Cancelled) { return; }
      state := Cancelled;
      if !taskIsRunning { calls := calls + [CallFinish]; }
    }

    method Suspend()
      modifies this
      ensures Value() == AfterTransition(old(Value()), Suspended)
      ensures dispatched == old(dispatched) && called == old(called) && calls == old(calls)
    {
      if !state.CanTransitionTo(Suspended) { return; }
      state := Suspended;
    }

    method Resume()
      modifies this
      ensures Value() == AfterTransition(old(Value()), Resumed)
      ensures dispatched == old(dispatched) && called == old(called) && calls == old(calls)
    {
      if !state.CanTransitionTo(Resumed) { return; }
      state := Resumed;
    }
  }

  // ------------------------------------------------------- everything interleaved

  /** A request, the work under way, the completions called and all serializers ever
      appended, both in order, and how many retries are about to reset the request. */
  datatype World = World(s: MutableState, work: seq<Work>, called: seq<Id>, appended: seq<Id>, resetting: nat)

  datatype Action =
    | Append(id: Id)
    | Finish
    | Transition(to: State)            // cancel, suspend and resume
    | Retry                            // the session looks whether the request to retry is cancelled
    | Reset                            // and, if it has not been then, resets it
    | Proceed(i: nat, verdict: Verdict)

  /** What becomes of a serializer: it completes, it asks whether to retry, or the answer is
      that it shall be. */
  datatype Verdict = Completes | Asks | Retries

  predicate Enabled(w: World, a: Action) {
    match a
    case Append(id) => id !in w.appended
    case Finish => true
    case Transition(to) => to == Cancelled || to == Suspended || to == Resumed
    case Retry => true
    case Reset => w.resetting > 0
    case Proceed(i, verdict) =>
      && i < |w.work|
      && (|| verdict == Completes
          || (verdict == Asks && w.work[i].Running?)
          || (verdict == Retries && w.work[i].Asking?))
  }

  function Replaced(work: seq<Work>, i: nat, others: seq<Work>): seq<Work>
    requires i < |work|
  {
    work[..i] + others + work[i + 1..]
  }

  function Step(w: World, a: Action): World
    requires Enabled(w, a)
  {
    match a
    case Append(id) =>
      World(AfterAppend(w.s, id), w.work + AppendDispatches(w.s), w.called, w.appended + [id], w.resetting)
    case Finish =>
      if w.s.isFinishing then w else w.(s := w.s.(isFinishing := true), work := w.work + [Process])
    case Transition(to) => w.(s := AfterTransition(w.s, to))
    case Retry => if w.s.state.Cancelled? then w else w.(resetting := w.resetting + 1)
    case Reset => w.(s := AfterReset(w.s), resetting := w.resetting - 1)
    case Proceed(i, verdict) =>
      match w.work[i]
      case Process =>
        (match NextSerializer(w.s)
         case Some(id) => w.(work := Replaced(w.work, i, [Running(id)]))
         case None => w.(work := Replaced(w.work, i, [Drain])))
      case Drain =>
        World(AfterDrain(w.s), Replaced(w.work, i, []), w.called + w.s.responseSerializerCompletions, w.appended,
              w.resetting)
      case Running(id) =>
        if verdict.Asks? then w.(work := Replaced(w.work, i, [Asking(id)]))
        else w.(s := AfterCompletion(w.s, id), work := Replaced(w.work, i, [Process]))
      case Asking(id) =>
        if verdict.Retries? then w.(work := Replaced(w.work, i, []))
        else w.(s := AfterCompletion(w.s, id), work := Replaced(w.work, i, [Process]))
  }

  function Run(w: World, actions: seq<Action>): Option<World>
    decreases |actions|
  {
    if actions == [] then Some(w)
    else if Enabled(w, actions[0]) then Run(Step(w, actions[0]), actions[1..])
    else None
  }

  predicate Initial(w: World) {
    w == World(MutableState(Initialized, [], [], false, false), [], [], [], 0)
  }

  // --------------------------------------------------------------- cancelled for good

  /** No method leaves the cancelled state. */
  lemma {:induction false} CancelledForGood(w: World, actions: seq<Action>)
    requires w.s.state == Cancelled && Run(w, actions).Some?
    ensures Run(w, actions).value.s.state == Cancelled
    decreases |actions|
  {
    if actions != [] { CancelledForGood(Step(w, actions[0]), actions[1..]); }
  }

  /** What becomes of the state: a request resumes and suspends as long as it is neither
      cancelled nor finished, cancelling takes effect unless it is finished, the drain finishes
      it unless it is cancelled, and one more serializer reopens it when it is finished. */
  lemma {:induction false} StateChanges(w: World, a: Action)
    requires Enabled(w, a)
    ensures var s, s' := w.s.state, Step(w, a).s.state;
            && (a == Transition(Resumed) ==> s' == if s == Cancelled || s == Finished then s else Resumed)
            && (a == Transition(Suspended) ==> s' == if s == Cancelled || s == Finished then s else Suspended)
            && (a == Transition(Cancelled) ==> s' == if s == Finished then s else Cancelled)
            && (a.Proceed? && w.work[a.i] == Drain ==> s' == if s == Cancelled then s else Finished)
            && (a.Append? ==> s' == if s == Finished then Resumed else s)
            && (!a.Append? && !a.Transition? && !(a.Proceed? && w.work[a.i] == Drain) ==> s' == s)
  {
    if a == Transition(Resumed) || a == Transition(Suspended) || a == Transition(Cancelled) {
      match w.s.state
      case Initialized =>
      case Resumed =>
      case Suspended =>
      case Cancelled =>
      case Finished =>
    }
  }

  /** A finished request has been drained, and its chain is empty. */
  predicate FinishedIsDrained(w: World) {
    w.s.state == Finished ==> w.s.processingFinished && w.s.responseSerializers == []
  }

  lemma {:induction false} FinishedMeansDrained(w: World, actions: seq<Action>)
    requires FinishedIsDrained(w) && Run(w, actions).Some?
    ensures FinishedIsDrained(Run(w, actions).value)
    decreases |actions|
  {
    if actions != [] { FinishedMeansDrained(Step(w, actions[0]), actions[1..]); }
  }

  // ---------------------------------------------------------------- an orderly chain

  /** What the chain needs of those who act on it. A serializer may be appended while
      nothing is at work, or before the first drain while one thing is and that is not the
      drain. Finish may be called while the request is finishing, nothing is at work or all
      serializers have completed. A retry may reset the request while nothing is at work, no
      serializer has completed or the next one is only being looked for. */
  predicate Orderly(w: World, a: Action) {
    var n := |w.s.responseSerializerCompletions|;
    match a
    case Append(_) => w.work == [] || (!w.s.processingFinished && |w.work| == 1 && w.work[0] != Drain)
    case Finish => w.s.isFinishing || w.work == [] || n == |w.s.responseSerializers|
    case Reset => w.work == [] || n == 0 || w.work == [Process]
    case _ => true
  }

  /** All actions are orderly where they happen. */
  predicate RunIsOrderly(w: World, actions: seq<Action>)
    decreases |actions|
  {
    actions == [] ||
    (Enabled(w, actions[0]) && Orderly(w, actions[0]) && RunIsOrderly(Step(w, actions[0]), actions[1..]))
  }

  /** What has been called and what is still in the chain are the serializers in the order
      of their appending; the completions are those of the first serializers of the chain,
      and the next one is at work, alone unless all have completed. */
  predicate Invariant(w: World) {
    var n := |w.s.responseSerializerCompletions|;
    && w.called + w.s.responseSerializers == w.appended
    && n <= |w.s.responseSerializers|
    && w.s.responseSerializerCompletions == w.s.responseSerializers[..n]
    && (|w.work| <= 1 || n == |w.s.responseSerializers|)
    && (!w.s.processingFinished ==> w.called == [])
    && forall i | 0 <= i < |w.work| :: AtWork(w.s, w.work[i])
  }

  predicate Distinct(ids: seq<Id>) { forall i, j | 0 <= i < j < |ids| :: ids[i] != ids[j] }

  predicate AtWork(s: MutableState, work: Work) {
    var n := |s.responseSerializerCompletions|;
    match work
    case Process => true
    case Drain => n == |s.responseSerializers|
    case Running(id) => n < |s.responseSerializers| && id == s.responseSerializers[n]
    case Asking(id) => n < |s.responseSerializers| && id == s.responseSerializers[n]
  }

  lemma {:induction false} ProceedKeeps(w: World, i: nat, verdict: Verdict)
    requires Invariant(w) && Enabled(w, Proceed(i, verdict))
    ensures Invariant(Step(w, Proceed(i, verdict))) && w.called <= Step(w, Proceed(i, verdict)).called
  {
    var s := w.s;
    var n := |s.responseSerializerCompletions|;
    assert AtWork(s, w.work[i]);
    match w.work[i]
    case Process =>
    case Drain => assert w.called + s.responseSerializerCompletions + [] == w.appended;
    case _ =>
      assert |w.work| == 1;
      if verdict.Completes? {
        assert s.responseSerializers[..n] + [s.responseSerializers[n]] == s.responseSerializers[..n + 1];
      }
  }

  lemma {:induction false} StepKeeps(w: World, a: Action)
    requires Invariant(w) && Enabled(w, a) && Orderly(w, a)
    ensures Invariant(Step(w, a)) && w.called <= Step(w, a).called
  {
    match a
    case Append(id) =>
      assert w.called + (w.s.responseSerializers + [id]) == w.called + w.s.responseSerializers + [id];
    case Proceed(i, verdict) => ProceedKeeps(w, i, verdict);
    case _ =>
  }

  lemma {:induction false} RunKeeps(w: World, actions: seq<Action>)
    requires Invariant(w) && RunIsOrderly(w, actions)
    ensures Run(w, actions).Some? && Invariant(Run(w, actions).value) && w.called <= Run(w, actions).value.called
    decreases |actions|
  {
    if actions != [] {
      StepKeeps(w, actions[0]);
      RunKeeps(Step(w, actions[0]), actions[1..]);
    }
  }

  lemma {:induction false} AppendedAreDistinct(w: World, actions: seq<Action>)
    requires Distinct(w.appended) && Run(w, actions).Some?
    ensures Distinct(Run(w, actions).value.appended)
    decreases |actions|
  {
    if actions != [] {
      assert Step(w, actions[0]).appended == if actions[0].Append? then w.appended + [actions[0].id] else w.appended;
      AppendedAreDistinct(Step(w, actions[0]), actions[1..]);
    }
  }

  /** Completions are called in the order in which their serializers were appended, each at
      most once, and only all together when all have completed. */
  lemma {:induction false} CalledInOrder(w: World, actions: seq<Action>)
    requires Initial(w) && RunIsOrderly(w, actions)
    ensures Run(w, actions).Some?
    ensures var w' := Run(w, actions).value;
            && w'.called <= w'.appended && Distinct(w'.called)
            && (!w'.s.processingFinished ==> w'.called == [])
            && (w'.s.responseSerializers == [] ==> w'.called == w'.appended)
  {
    RunKeeps(w, actions);
    AppendedAreDistinct(w, actions);
  }

  /** The drain calls the completion of every serializer appended, in order. */
  lemma {:induction false} DrainCallsAll(w: World, i: nat)
    requires Invariant(w) && i < |w.work| && w.work[i] == Drain
    ensures var w' := Step(w, Proceed(i, Completes));
            w'.called == w.called + w.s.responseSerializers && w'.called == w'.appended
  {
    assert AtWork(w.s, w.work[i]);
  }

  // ----------------------------------------------------------- orderly, and no less

  /** No serializer is lost or out of turn: each one appended has been called or is in the
      chain, those completed are the first of the chain, and none is at work twice. */
  ghost predicate Sound(w: World) {
    && w.called + w.s.responseSerializers == w.appended
    && w.s.responseSerializerCompletions <= w.s.responseSerializers
    && forall i, j | 0 <= i < j < |w.work| :: !SameSerializer(w.work[i], w.work[j])
  }

  predicate SameSerializer(x: Work, y: Work) {
    (x.Running? || x.Asking?) && (y.Running? || y.Asking?) && x.id == y.id
  }

  /** Whatever orderly steps come next, they lead to a sound world. */
  ghost predicate StaysSound(w: World, actions: seq<Action>) {
    RunIsOrderly(w, actions) ==> Run(w, actions).Some? && Sound(Run(w, actions).value)
  }

  lemma {:induction false} InvariantIsSound(w: World)
    requires Invariant(w)
    ensures Sound(w)
  {
    forall i, j | 0 <= i < j < |w.work|
      ensures !SameSerializer(w.work[i], w.work[j])
    {
      assert AtWork(w.s, w.work[i]);
    }
  }

  lemma {:induction false} RunsOn(w: World, a: Action, actions: seq<Action>)
    requires Enabled(w, a)
    ensures Run(w, [a] + actions) == Run(Step(w, a), actions)
    ensures Orderly(w, a) && RunIsOrderly(Step(w, a), actions) ==> RunIsOrderly(w, [a] + actions)
  {
    assert ([a] + actions)[1..] == actions;
  }

  /** A drain that meets serializers it has no completions for drops them. */
  lemma {:induction false} DrainDrops(w: World, i: nat) returns (actions: seq<Action>)
    requires i < |w.work| && w.work[i] == Drain
    requires w.called + w.s.responseSerializerCompletions != w.appended
    ensures !StaysSound(w, actions)
  {
    var p := Proceed(i, Completes);
    RunsOn(w, p, []);
    assert Step(w, p).called + [] == w.called + w.s.responseSerializerCompletions;
    actions := [p] + [];
  }

  /** Of two works, one looks for the next serializer and the other one does too or is at
      work on it already: then both are at work on it. */
  lemma {:induction false} TwiceAtWork(w: World) returns (actions: seq<Action>)
    requires |w.work| >= 2 && w.work[1] == Process && NextSerializer(w.s).Some?
    requires var id := NextSerializer(w.s).value;
             w.work[0] == Process || w.work[0] == Running(id) || w.work[0] == Asking(id)
    ensures !StaysSound(w, actions)
  {
    var id, p, q := NextSerializer(w.s).value, Proceed(0, Completes), Proceed(1, Completes);
    var w1 := Step(w, q);
    assert w1.work[0] == w.work[0] && w1.work[1] == Running(id);
    if w.work[0] == Process {
      var w2 := Step(w1, p);
      assert w2.work[0] == Running(id) && w2.work[1] == Running(id);
      assert SameSerializer(w2.work[0], w2.work[1]);
      RunsOn(w1, p, []);
      RunsOn(w, q, [p] + []);
      actions := [q] + ([p] + []);
    } else {
      assert SameSerializer(w1.work[0], w1.work[1]);
      RunsOn(w, q, []);
      actions := [q] + [];
    }
  }

  /** A serializer that completes after the completions before it have been thrown away
      stands in for the first one. */
  lemma {:induction false} OutOfTurn(w: World) returns (actions: seq<Action>)
    requires w.work != [] && (w.work[0].Running? || w.work[0].Asking?) && w.s.responseSerializerCompletions == []
    requires w.s.responseSerializers != [] && w.s.responseSerializers[0] != w.work[0].id
    ensures !StaysSound(w, actions)
  {
    var p := Proceed(0, Completes);
    var w1 := Step(w, p);
    assert w1.s.responseSerializerCompletions[0] == w.work[0].id;
    RunsOn(w, p, []);
    actions := [p] + [];
  }

  /** So what is appended when the chain has found its end but has not been drained is
      neither called nor left to be. */
  lemma {:induction false} LostWhileDraining(w: World, i: nat, id: Id)
    requires Invariant(w) && i < |w.work| && w.work[i] == Drain && Enabled(w, Append(id))
    ensures var w' := Step(Step(w, Append(id)), Proceed(i, Completes));
            w'.s.responseSerializers == [] && id in w'.appended && id !in w'.called
  {
    assert AtWork(w.s, w.work[i]);
    assert Step(w, Append(id)).appended[|w.appended|] == id;
    assert w.called + w.s.responseSerializerCompletions == w.appended;
  }

  lemma {:induction false} AppendGoesWrong(w: World, id: Id) returns (actions: seq<Action>)
    requires Invariant(w) && Enabled(w, Append(id)) && !Orderly(w, Append(id))
    ensures !StaysSound(Step(w, Append(id)), actions)
  {
    var w' := Step(w, Append(id));
    assert AtWork(w.s, w.work[0]);
    assert NextSerializer(w'.s).Some?;
    if i :| 0 <= i < |w.work| && w.work[i] == Drain {
      assert AtWork(w.s, w.work[i]);
      assert w'.called + w'.s.responseSerializerCompletions == w.appended;
      actions := DrainDrops(w', i);
    } else {
      if |w.work| >= 2 { assert AtWork(w.s, w.work[1]); }
      actions := TwiceAtWork(w');
    }
  }

  lemma {:induction false} FinishGoesWrong(w: World) returns (actions: seq<Action>)
    requires Invariant(w) && !Orderly(w, Finish)
    ensures !StaysSound(Step(w, Finish), actions)
  {
    assert AtWork(w.s, w.work[0]);
    actions := TwiceAtWork(Step(w, Finish));
  }

  lemma {:induction false} ResetGoesWrong(w: World) returns (actions: seq<Action>)
    requires Invariant(w) && Distinct(w.appended) && Enabled(w, Reset) && !Orderly(w, Reset)
    ensures !StaysSound(Step(w, Reset), actions)
  {
    var w', ids, n := Step(w, Reset), w.s.responseSerializers, |w.s.responseSerializerCompletions|;
    assert AtWork(w.s, w.work[0]);
    if i :| 0 <= i < |w.work| && w.work[i] == Drain {
      assert w'.called + [] == w.called;
      assert |w.appended| == |w.called| + |ids|;
      actions := DrainDrops(w', i);
    } else if |w.work| >= 2 {
      assert AtWork(w.s, w.work[1]);
      actions := TwiceAtWork(w');
    } else {
      assert w.appended[|w.called|] == ids[0] && w.appended[|w.called| + n] == ids[n];
      actions := OutOfTurn(w');
    }
  }

  /** A step is orderly if and only if no orderly steps after it can lose a serializer, put
      one out of turn, or set one to work twice. */
  lemma {:induction false} OrderlyExactly(w: World, a: Action)
    requires Invariant(w) && Distinct(w.appended) && Enabled(w, a)
    ensures Orderly(w, a) <==> forall actions :: StaysSound(Step(w, a), actions)
  {
    if Orderly(w, a) {
      StepKeeps(w, a);
      forall actions
        ensures StaysSound(Step(w, a), actions)
      {
        if RunIsOrderly(Step(w, a), actions) {
          RunKeeps(Step(w, a), actions);
          InvariantIsSound(Run(Step(w, a), actions).value);
        }
      }
    } else {
      var actions;
      match a {
        case Append(id) => actions := AppendGoesWrong(w, id);
        case Finish => actions := FinishGoesWrong(w);
        case Reset => actions := ResetGoesWrong(w);
      }
      assert !StaysSound(Step(w, a), actions);
    }
  }

  // ------------------------------------------------------------------------ retries

  /** A retry throws the completions gathered so far away uncalled, and the chain begins
      again with its first serializer. */
  lemma {:induction false} RetryStartsOver(w: World)
    requires Invariant(w) && w.work == [] && !w.s.state.Cancelled? && w.s.responseSerializers != []
    ensures var w' := Step(Step(Step(Step(w, Retry), Reset), Finish), Proceed(0, Completes));
            && w'.called == w.called && w'.s.responseSerializerCompletions == []
            && w'.work == [Running(w.s.responseSerializers[0])]
  {
    var w1 := Step(Step(w, Retry), Reset);
    var w2 := Step(w1, Finish);
    assert w2.work == [Process];
  }

  /** From the look for the next serializer on, the chain can go through to its end, where
      all its completions are called. */
  lemma {:induction false} ChainRunsThrough(w: World) returns (actions: seq<Action>)
    requires Invariant(w) && w.work == [Process]
    ensures Run(w, actions).Some? && Run(w, actions).value.called == w.appended
    decreases |w.s.responseSerializers| - |w.s.responseSerializerCompletions|
  {
    var p := Proceed(0, Completes);
    var w1 := Step(w, p);
    StepKeeps(w, p);
    var w2 := Step(w1, p);
    if NextSerializer(w.s).Some? {
      assert w1.work == [Running(NextSerializer(w.s).value)];
      StepKeeps(w1, p);
      assert w2.work == [Process];
      var others := ChainRunsThrough(w2);
      RunsOn(w1, p, others);
      RunsOn(w, p, [p] + others);
      actions := [p] + ([p] + others);
    } else {
      assert w1.work == [Drain];
      DrainCallsAll(w1, 0);
      assert Run(w2, []) == Some(w2);
      RunsOn(w1, p, []);
      RunsOn(w, p, [p] + []);
      actions := [p] + ([p] + []);
    }
  }

  /** So can any work under way. */
  lemma {:induction false} WorkRunsThrough(w: World) returns (actions: seq<Action>)
    requires Invariant(w) && w.work != []
    ensures Run(w, actions).Some? && Run(w, actions).value.called == w.appended
  {
    var p := Proceed(0, Completes);
    var w1 := Step(w, p);
    assert AtWork(w.s, w.work[0]);
    StepKeeps(w, p);
    if w.work[0] == Drain {
      DrainCallsAll(w, 0);
      assert Run(w1, []) == Some(w1);
      RunsOn(w, p, []);
      actions := [p] + [];
    } else if w.work[0] == Process && NextSerializer(w.s).None? {
      assert w1.work[0] == Drain;
      DrainCallsAll(w1, 0);
      var w2 := Step(w1, p);
      assert Run(w2, []) == Some(w2);
      RunsOn(w1, p, []);
      RunsOn(w, p, [p] + []);
      actions := [p] + ([p] + []);
    } else if w.work[0] == Process {
      assert w.work == [Process];
      actions := ChainRunsThrough(w);
    } else {
      assert w1.work == [Process];
      var others := ChainRunsThrough(w1);
      RunsOn(w, p, others);
      actions := [p] + others;
    }
  }

  /** Some completion is called in the course of the actions. */
  predicate CallsSome(w: World, actions: seq<Action>) {
    Run(w, actions).Some? && Run(w, actions).value.called != w.called
  }

  /** Cancelled while it counts as finishing, with nothing at work, no retry that has passed
      its look at the state already, and before the first drain. */
  predicate Stuck(w: World) {
    w.s.state.Cancelled? && w.s.isFinishing && !w.s.processingFinished && w.work == [] && w.resetting == 0
  }

  /** Then no retry takes place any more, and since the request still counts as finishing,
      nothing that can happen calls any of its completions. */
  lemma {:induction false} StuckForGood(w: World, actions: seq<Action>)
    requires Stuck(w) && Run(w, actions).Some?
    ensures Stuck(Run(w, actions).value) && Run(w, actions).value.called == w.called
    decreases |actions|
  {
    if actions != [] { StuckForGood(Step(w, actions[0]), actions[1..]); }
  }

  function Unused(ids: seq<Id>): (r: Id)
    ensures forall i | 0 <= i < |ids| :: ids[i] < r
  {
    if ids == [] then 0
    else
      var last := ids[|ids| - 1];
      var r := Unused(ids[..|ids| - 1]);
      if last < r then r else last + 1
  }

  /** A chain at rest that is not stuck can be set to work again: by finish, by a retry, or by
      appending one more serializer to it. */
  lemma {:induction false} SetToWork(w: World) returns (prefix: seq<Action>, w': World)
    requires Invariant(w) && w.work == [] && !Stuck(w)
    ensures Run(w, prefix) == Some(w') && Invariant(w') && w'.work != [] && w'.called == w.called
         && w.appended <= w'.appended
  {
    if !w.s.isFinishing {
      w' := OneStep(w, Finish);
      prefix := [Finish];
    } else if w.resetting > 0 {
      var w1 := OneStep(w, Reset);
      w' := OneStep(w1, Finish);
      RunsOn(w, Reset, [Finish]);
      prefix := [Reset] + [Finish];
    } else if w.s.processingFinished {
      var id := Unused(w.appended);
      w' := OneStep(w, Append(id));
      prefix := [Append(id)];
    } else {
      var w1 := OneStep(w, Retry);
      var w2 := OneStep(w1, Reset);
      w' := OneStep(w2, Finish);
      RunsOn(w1, Reset, [Finish]);
      RunsOn(w, Retry, [Reset] + [Finish]);
      prefix := [Retry] + ([Reset] + [Finish]);
    }
  }

  lemma {:induction false} OneStep(w: World, a: Action) returns (w': World)
    requires Invariant(w) && Enabled(w, a) && Orderly(w, a)
    ensures w' == Step(w, a) && Invariant(w') && Run(w, [a]) == Some(w')
  {
    w' := Step(w, a);
    StepKeeps(w, a);
    assert [a][1..] == [];
    assert Run(w', []) == Some(w');
  }

  lemma {:induction false} RunInTwo(w: World, xs: seq<Action>, ys: seq<Action>)
    requires Run(w, xs).Some?
    ensures Run(w, xs + ys) == Run(Run(w, xs).value, ys)
    decreases |xs|
  {
    if xs == [] {
      assert xs + ys == ys;
    } else {
      assert (xs + ys)[1..] == xs[1..] + ys;
      RunInTwo(Step(w, xs[0]), xs[1..], ys);
    }
  }

  /** All that the chain holds can be called. */
  lemma {:induction false} AllCanBeCalled(w: World) returns (actions: seq<Action>)
    requires Invariant(w) && !Stuck(w)
    ensures Run(w, actions).Some? && w.appended <= Run(w, actions).value.called
  {
    if w.work != [] {
      actions := WorkRunsThrough(w);
    } else {
      var prefix, w' := SetToWork(w);
      var others := WorkRunsThrough(w');
      RunInTwo(w, prefix, others);
      actions := prefix + others;
    }
  }

  /** A chain can still call completions if and only if it is not stuck; and if it can, it can
      call those of all serializers appended. */
  lemma {:induction false} CallsUnlessStuck(w: World)
    requires Invariant(w) && w.s.responseSerializers != []
    ensures (exists actions :: CallsSome(w, actions)) <==> !Stuck(w)
    ensures !Stuck(w) ==> exists actions :: CallsSome(w, actions) && w.appended <= Run(w, actions).value.called
  {
    if Stuck(w) {
      forall actions
        ensures !CallsSome(w, actions)
      {
        if Run(w, actions).Some? { StuckForGood(w, actions); }
      }
    } else {
      var actions := AllCanBeCalled(w);
      assert |w.appended| > |w.called|;
      assert CallsSome(w, actions);
    }
  }

  /** It takes one failed serializer whose retry is decided on and a call of cancel before
      the retry looks at the state. */
  lemma {:induction false} GetsStuck(w: World, id: Id)
    requires Initial(w)
    ensures var w1 := Step(Step(w, Append(id)), Finish);
            var w2 := Step(Step(Step(w1, Proceed(0, Completes)), Proceed(0, Asks)), Proceed(0, Retries));
            Invariant(w2) && w2.s.responseSerializers == [id] && Stuck(Step(w2, Transition(Cancelled)))
  {
    var w1 := Step(Step(w, Append(id)), Finish);
    assert w1.work == [Process];
    var w2 := Step(w1, Proceed(0, Completes));
    assert w2.work == [Running(id)];
    var w3 := Step(w2, Proceed(0, Asks));
    assert w3.work == [Asking(id)];
  }
}
