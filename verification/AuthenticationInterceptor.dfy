/** Requests that need a fresh credential wait for one refresh, whoever asks for it. */
module AuthenticationInterceptor {
  import opened Wrappers

  /** Stands for one submitted completion closure. */
  type Id = nat
  type Credential = nat

  datatype RefreshWindow = RefreshWindow(interval: real, maximumAttempts: int)

  datatype AuthError = MissingCredential | ExcessiveRefresh | RefreshFailed(code: nat)

  datatype AdaptResult = Adapt(credential: Credential) | DoNotAdapt(error: AuthError) | AdaptDeferred

  /** What a completion is called with. */
  datatype Outcome =
    | Adapted(credential: Credential)
    | NotAdapted(error: AuthError)
    | Retry
    | DoNotRetry
    | DoNotRetryWithError(error: AuthError)

  datatype RefreshResult = Success(credential: Credential) | Failure(error: AuthError)

  /** Work that goes on outside the lock. */
  datatype Work =
    | Adapting(id: Id)                           // a call of adapt that has not taken the lock yet
    | Retrying(id: Id)                           // a call of retry that has not read the credential yet
    | Checked(id: Id, credential: Credential)    // one that has, and is about to take the lock
    | Completing(id: Id, outcome: Outcome)       // a completion about to be called
    | StartRefresh(credential: Credential)       // a block that will call the authenticator
    | AwaitResult                                // a refresh the authenticator has not answered

  /** The part guarded by the lock. */
  datatype MutableState = MutableState(
    credential: Option<Credential>,
    isRefreshing: bool,
    refreshTimestamps: seq<real>,
    refreshWindow: Option<RefreshWindow>,
    adaptOperations: seq<Id>,
    requestsToRetry: seq<Id>)

  /** A state and the work dispatched on the way to it. */
  datatype Locked = Locked(state: MutableState, dispatched: seq<Work>)

  // ----------------------------------------------------- what happens under the lock

  /** How many of the timestamps are not before `from`. */
  function CountSince(timestamps: seq<real>, from: real): (n: nat)
    ensures n <= |timestamps|
  {
    if timestamps == [] then 0
    else CountSince(timestamps[..|timestamps| - 1], from) + (if from <= timestamps[|timestamps| - 1] then 1 else 0)
  }

  predicate Excessive(s: MutableState, now: real) {
    s.refreshWindow.Some? &&
    CountSince(s.refreshTimestamps, now - s.refreshWindow.value.interval) >= s.refreshWindow.value.maximumAttempts
  }

  function AdaptAgain(ids: seq<Id>): (r: seq<Work>)
    ensures |r| == |ids|
  {
    if ids == [] then [] else [Adapting(ids[0])] + AdaptAgain(ids[1..])
  }

  function CompleteAll(ids: seq<Id>, outcome: Outcome): (r: seq<Work>)
    ensures |r| == |ids|
  {
    if ids == [] then [] else [Completing(ids[0], outcome)] + CompleteAll(ids[1..], outcome)
  }

  lemma {:induction false} DispatchedInOrder(ids: seq<Id>, outcome: Outcome)
    ensures forall i | 0 <= i < |ids| :: AdaptAgain(ids)[i] == Adapting(ids[i])
    ensures forall i | 0 <= i < |ids| :: CompleteAll(ids, outcome)[i] == Completing(ids[i], outcome)
  {
    if ids != [] {
      DispatchedInOrder(ids[1..], outcome);
      forall i | 0 <= i < |ids|
        ensures AdaptAgain(ids)[i] == Adapting(ids[i]) && CompleteAll(ids, outcome)[i] == Completing(ids[i], outcome)
      {
        if i > 0 {
          assert AdaptAgain(ids)[i] == AdaptAgain(ids[1..])[i - 1];
          assert CompleteAll(ids, outcome)[i] == CompleteAll(ids[1..], outcome)[i - 1];
        }
      }
    }
  }

  function Drained(s: MutableState): MutableState {
    s.(isRefreshing := false, adaptOperations := [], requestsToRetry := [])
  }

  function AfterSuccess(s: MutableState, credential: Credential): Locked {
    Locked(Drained(s).(credential := Some(credential)),
           AdaptAgain(s.adaptOperations) + CompleteAll(s.requestsToRetry, Retry))
  }

  function AfterFailure(s: MutableState, error: AuthError): Locked {
    Locked(Drained(s),
           CompleteAll(s.adaptOperations, NotAdapted(error))
           + CompleteAll(s.requestsToRetry, DoNotRetryWithError(error)))
  }

  function AfterResult(s: MutableState, result: RefreshResult): Locked {
    match result
    case Success(credential) => AfterSuccess(s, credential)
    case Failure(error) => AfterFailure(s, error)
  }

  /** A refresh is checked for at one reading of the clock and recorded at a later one. */
  function AfterRefresh(s: MutableState, credential: Credential, checkedAt: real, startedAt: real): Locked {
    if Excessive(s, checkedAt) then AfterFailure(s, ExcessiveRefresh)
    else Locked(s.(refreshTimestamps := s.refreshTimestamps + [startedAt], isRefreshing := true),
                [StartRefresh(credential)])
  }

  function AfterAdapt(s: MutableState, id: Id, requiresRefresh: bool, checkedAt: real, startedAt: real): Locked {
    if s.isRefreshing then Locked(s.(adaptOperations := s.adaptOperations + [id]), [])
    else if s.credential.None? then Locked(s, [Completing(id, NotAdapted(MissingCredential))])
    else if requiresRefresh then
      AfterRefresh(s.(adaptOperations := s.adaptOperations + [id]), s.credential.value, checkedAt, startedAt)
    else Locked(s, [Completing(id, Adapted(s.credential.value))])
  }

  function AfterRetry(s: MutableState, id: Id, credential: Credential, checkedAt: real, startedAt: real): Locked {
    var queued := s.(requestsToRetry := s.requestsToRetry + [id]);
    if s.isRefreshing then Locked(queued, []) else AfterRefresh(queued, credential, checkedAt, startedAt)
  }

  /** What a call of retry does before it takes the lock. It reads the credential on its
      own, so this may change before the lock is taken. */
  function BeforeRetry(s: MutableState, id: Id, failedAuthentication: bool, isCurrent: bool): Work {
    if !failedAuthentication then Completing(id, DoNotRetry)
    else if s.credential.None? then Completing(id, DoNotRetryWithError(MissingCredential))
    else if !isCurrent then Completing(id, Retry)
    else Checked(id, s.credential.value)
  }

  // ------------------------------------------------------------------- the class

  class Interceptor {
    var credential: Option<Credential>
    var isRefreshing: bool
    var refreshTimestamps: seq<real>
    const refreshWindow: Option<RefreshWindow>
    var adaptOperations: seq<Id>
    var requestsToRetry: seq<Id>
    /** All that has been dispatched to the queue. */
    var queue: seq<Work>

    function Value(): MutableState
      reads this
    {
      MutableState(credential, isRefreshing, refreshTimestamps, refreshWindow, adaptOperations, requestsToRetry)
    }

    constructor (credential: Option<Credential>, refreshWindow: Option<RefreshWindow>)
      ensures Value() == MutableState(credential, false, [], refreshWindow, [], []) && queue == []
    {
      this.credential, this.refreshWindow := credential, refreshWindow;
      isRefreshing, refreshTimestamps, adaptOperations, requestsToRetry, queue := false, [], [], [], [];
    }

    method IsRefreshExcessive(now: real) returns (excessive: bool)
      ensures excessive == Excessive(Value(), now)
    {
      if refreshWindow.None? { return false; }
      var refreshWindowMin := now - refreshWindow.value.interval;
      var attempts := 0;
      for i := 0 to |refreshTimestamps|
        invariant attempts == CountSince(refreshTimestamps[..i], refreshWindowMin)
      {
        assert refreshTimestamps[..i + 1][..i] == refreshTimestamps[..i];
        if refreshWindowMin <= refreshTimestamps[i] { attempts := attempts + 1; }
      }
      assert refreshTimestamps[..|refreshTimestamps|] == refreshTimestamps;
      return attempts >= refreshWindow.value.maximumAttempts;
    }

    method HandleRefreshSuccess(newCredential: Credential)
      modifies this
      ensures var r := AfterSuccess(old(Value()), newCredential);
              Value() == r.state && queue == old(queue) + r.dispatched
      ensures credential == Some(newCredential) && !isRefreshing && adaptOperations == [] && requestsToRetry == []
      ensures var n, k := |old(queue)|, |old(adaptOperations)|;
              && |queue| == n + k + |old(requestsToRetry)| && queue[..n] == old(queue)
              && (forall i | 0 <= i < k :: queue[n + i] == Adapting(old(adaptOperations)[i]))
              && (forall i | 0 <= i < |old(requestsToRetry)| ::
                    queue[n + k + i] == Completing(old(requestsToRetry)[i], Retry))
    {
      DispatchedInOrder(adaptOperations, Retry);
      DispatchedInOrder(requestsToRetry, Retry);
      credential := Some(newCredential);
      var operations, requests := adaptOperations, requestsToRetry;
      adaptOperations, requestsToRetry := [], [];
      isRefreshing := false;
      queue := queue + (AdaptAgain(operations) + CompleteAll(requests, Retry));
    }

    method HandleRefreshFailure(error: AuthError)
      modifies this
      ensures var r := AfterFailure(old(Value()), error);
              Value() == r.state && queue == old(queue) + r.dispatched
      ensures credential == old(credential) && !isRefreshing && adaptOperations == [] && requestsToRetry == []
      ensures var n, k := |old(queue)|, |old(adaptOperations)|;
              && |queue| == n + k + |old(requestsToRetry)| && queue[..n] == old(queue)
              && (forall i | 0 <= i < k :: queue[n + i] == Completing(old(adaptOperations)[i], NotAdapted(error)))
              && (forall i | 0 <= i < |old(requestsToRetry)| ::
                    queue[n + k + i] == Completing(old(requestsToRetry)[i], DoNotRetryWithError(error)))
    {
      DispatchedInOrder(adaptOperations, NotAdapted(error));
      DispatchedInOrder(requestsToRetry, DoNotRetryWithError(error));
      var operations, requests := adaptOperations, requestsToRetry;
      adaptOperations, requestsToRetry := [], [];
      isRefreshing := false;
      queue := queue + (CompleteAll(operations, NotAdapted(error))
                        + CompleteAll(requests, DoNotRetryWithError(error)));
    }

    /** The closure handed to the authenticator. */
    method DidRefresh(result: RefreshResult)
      modifies this
      ensures var r := AfterResult(old(Value()), result);
              Value() == r.state && queue == old(queue) + r.dispatched
    {
      match result
      case Success(newCredential) => HandleRefreshSuccess(newCredential);
      case Failure(error) => HandleRefreshFailure(error);
    }

    method Refresh(current: Credential, checkedAt: real, startedAt: real)
      modifies this
      ensures var r := AfterRefresh(old(Value()), current, checkedAt, startedAt);
              Value() == r.state && queue == old(queue) + r.dispatched
    {
      var excessive := IsRefreshExcessive(checkedAt);
      if excessive {
        HandleRefreshFailure(ExcessiveRefresh);
        return;
      }
      refreshTimestamps := refreshTimestamps + [startedAt];
      isRefreshing := true;
      queue := queue + [StartRefresh(current)];
    }

    /** The closure that adapt runs under the lock. What it does not defer is completed at
        once by the caller. */
    method AdaptInsideLock(id: Id, requiresRefresh: bool, checkedAt: real, startedAt: real)
      returns (result: AdaptResult)
      modifies this
      ensures var r := AfterAdapt(old(Value()), id, requiresRefresh, checkedAt, startedAt);
              && Value() == r.state
              && match result
                 case AdaptDeferred => queue == old(queue) + r.dispatched
                 case Adapt(c) => queue == old(queue) && r.dispatched == [Completing(id, Adapted(c))]
                 case DoNotAdapt(e) => queue == old(queue) && r.dispatched == [Completing(id, NotAdapted(e))]
    {
      if isRefreshing {
        adaptOperations := adaptOperations + [id];
        return AdaptDeferred;
      }
      if credential.None? { return DoNotAdapt(MissingCredential); }
      if requiresRefresh {
        adaptOperations := adaptOperations + [id];
        Refresh(credential.value, checkedAt, startedAt);
        return AdaptDeferred;
      }
      return Adapt(credential.value);
    }

    /** The closure that retry runs under the lock. */
    method RetryInsideLock(id: Id, current: Credential, checkedAt: real, startedAt: real)
      modifies this
      ensures var r := AfterRetry(old(Value()), id, current, checkedAt, startedAt);
              Value() == r.state && queue == old(queue) + r.dispatched
    {
      requestsToRetry := requestsToRetry + [id];
      if isRefreshing { return; }
      Refresh(current, checkedAt, startedAt);
    }
  }

  // ------------------------------------------------------- everything interleaved

  /** The interceptor, all work on its way, the completions called so far and those ever
      submitted, and the clock. */
  datatype World = World(state: MutableState, pending: seq<Work>, completed: seq<Work>, submitted: set<Id>, now: real)

  datatype Action =
    | CallAdapt(id: Id)
    | CallRetry(id: Id)
    | SetCredential(credential: Option<Credential>)
    /** The i-th pending work goes on. What it learns from outside is in the other
        parameters: the two readings of the clock, what the authenticator says. */
    | Proceed(i: nat, requiresRefresh: bool, failedAuthentication: bool, isCurrent: bool,
              checkedAt: real, startedAt: real, result: RefreshResult)

  predicate Enabled(w: World, a: Action) {
    match a
    case CallAdapt(id) => id !in w.submitted
    case CallRetry(id) => id !in w.submitted
    case SetCredential(_) => true
    case Proceed(i, _, _, _, checkedAt, startedAt, _) => i < |w.pending| && w.now <= checkedAt <= startedAt
  }

  function Without(s: seq<Work>, i: nat): seq<Work>
    requires i < |s|
  {
    s[..i] + s[i + 1..]
  }

  function Step(w: World, a: Action): World
    requires Enabled(w, a)
  {
    match a
    case CallAdapt(id) => w.(pending := w.pending + [Adapting(id)], submitted := w.submitted + {id})
    case CallRetry(id) => w.(pending := w.pending + [Retrying(id)], submitted := w.submitted + {id})
    case SetCredential(c) => w.(state := w.state.(credential := c))
    case Proceed(i, requiresRefresh, failedAuthentication, isCurrent, checkedAt, startedAt, result) =>
      var work, r := w.pending[i], AfterWork(w.state, w.pending[i], a);
      World(r.state, Without(w.pending, i) + r.dispatched, w.completed + Called(work), w.submitted, startedAt)
  }

  /** What becomes of one piece of work. */
  function AfterWork(s: MutableState, work: Work, a: Action): Locked
    requires a.Proceed?
  {
    match work
    case Adapting(id) => AfterAdapt(s, id, a.requiresRefresh, a.checkedAt, a.startedAt)
    case Retrying(id) => Locked(s, [BeforeRetry(s, id, a.failedAuthentication, a.isCurrent)])
    case Checked(id, c) => AfterRetry(s, id, c, a.checkedAt, a.startedAt)
    case Completing(_, _) => Locked(s, [])
    case StartRefresh(_) => Locked(s, [AwaitResult])
    case AwaitResult => AfterResult(s, a.result)
  }

  function Called(work: Work): seq<Work> { if work.Completing? then [work] else [] }

  predicate Initial(w: World) {
    && !w.state.isRefreshing && w.state.adaptOperations == [] && w.state.requestsToRetry == []
      && w.state.refreshTimestamps == []
    && w.pending == [] && w.completed == [] && w.submitted == {}
  }

  function Run(w: World, actions: seq<Action>): Option<World>
    decreases |actions|
  {
    if actions == [] then Some(w)
    else if Enabled(w, actions[0]) then Run(Step(w, actions[0]), actions[1..])
    else None
  }

  // ------------------------------------------------------------------ conservation

  /** Whether a piece of work will call a completion, and how often a list of work will. */
  predicate Calls(work: Work, id: Id) { !IsRefresh(work) && work.id == id }

  predicate IsRefresh(work: Work) { work.StartRefresh? || work.AwaitResult? }

  function Times(ws: seq<Work>, id: Id): nat {
    if ws == [] then 0 else Times(ws[1..], id) + (if Calls(ws[0], id) then 1 else 0)
  }

  function Refreshes(ws: seq<Work>): nat {
    if ws == [] then 0 else Refreshes(ws[1..]) + (if IsRefresh(ws[0]) then 1 else 0)
  }

  function Occurrences(ids: seq<Id>, id: Id): nat {
    if ids == [] then 0 else Occurrences(ids[1..], id) + (if ids[0] == id then 1 else 0)
  }

  /** How often a completion waits in the queues of the locked state. */
  function Held(s: MutableState, id: Id): nat {
    Occurrences(s.adaptOperations, id) + Occurrences(s.requestsToRetry, id)
  }

  /** Every submitted completion is in exactly one place, and no other is anywhere. */
  ghost predicate Conserved(w: World) {
    forall id :: Places(w, id) == if id in w.submitted then 1 else 0
  }

  function Places(w: World, id: Id): nat { Held(w.state, id) + Times(w.pending, id) + Times(w.completed, id) }

  predicate Quiet(s: MutableState) { !s.isRefreshing ==> s.adaptOperations == [] && s.requestsToRetry == [] }

  function Flag(s: MutableState): nat { if s.isRefreshing then 1 else 0 }

  ghost predicate Invariant(w: World) {
    Conserved(w) && Quiet(w.state) && Refreshes(w.pending) == Flag(w.state)
  }

  lemma {:induction false} Together(a: seq<Work>, b: seq<Work>, id: Id)
    ensures Times(a + b, id) == Times(a, id) + Times(b, id) && Refreshes(a + b) == Refreshes(a) + Refreshes(b)
  {
    if a == [] {
      assert a + b == b;
    } else {
      assert (a + b)[1..] == a[1..] + b;
      Together(a[1..], b, id);
    }
  }

  lemma {:induction false} One(w: Work, id: Id)
    ensures Times([w], id) == (if Calls(w, id) then 1 else 0) && Refreshes([w]) == (if IsRefresh(w) then 1 else 0)
  {
    assert [w][1..] == [];
  }

  lemma {:induction false} OccursAtEnd(ids: seq<Id>, last: Id, id: Id)
    ensures Occurrences(ids + [last], id) == Occurrences(ids, id) + (if last == id then 1 else 0)
  {
    if ids == [] {
      assert ids + [last] == [last];
    } else {
      assert (ids + [last])[1..] == ids[1..] + [last];
      OccursAtEnd(ids[1..], last, id);
    }
  }

  lemma {:induction false} TakenOut(ws: seq<Work>, i: nat, id: Id)
    requires i < |ws|
    ensures Times(ws, id) == Times(Without(ws, i), id) + Times([ws[i]], id)
    ensures Refreshes(ws) == Refreshes(Without(ws, i)) + Refreshes([ws[i]])
  {
    assert ws == ws[..i] + ([ws[i]] + ws[i + 1..]);
    Between(ws[..i], [ws[i]], ws[i + 1..], id);
  }

  lemma {:induction false} Between(a: seq<Work>, x: seq<Work>, b: seq<Work>, id: Id)
    ensures Times(a + (x + b), id) == Times(a + b, id) + Times(x, id)
    ensures Refreshes(a + (x + b)) == Refreshes(a + b) + Refreshes(x)
  {
    Together(a, x + b, id);
    Together(x, b, id);
    Together(a, b, id);
  }

  lemma {:induction false} AllDispatched(ids: seq<Id>, outcome: Outcome, id: Id)
    ensures Times(AdaptAgain(ids), id) == Times(CompleteAll(ids, outcome), id) == Occurrences(ids, id)
    ensures Refreshes(AdaptAgain(ids)) == Refreshes(CompleteAll(ids, outcome)) == 0
  {
    if ids != [] {
      AllDispatched(ids[1..], outcome, id);
      assert AdaptAgain(ids)[1..] == AdaptAgain(ids[1..]);
      assert CompleteAll(ids, outcome)[1..] == CompleteAll(ids[1..], outcome);
    }
  }

  /** Nothing held before is lost or doubled, and with those elsewhere there is a refresh
      on its way exactly when the flag says so. */
  predicate Kept(id: Id, held: nat, elsewhere: nat, r: Locked) {
    Held(r.state, id) + Times(r.dispatched, id) == held && Quiet(r.state)
      && elsewhere + Refreshes(r.dispatched) == Flag(r.state)
  }

  lemma {:induction false} ResultConserves(s: MutableState, result: RefreshResult, id: Id)
    ensures Kept(id, Held(s, id), 0, AfterResult(s, result))
  {
    match result
    case Success(c) =>
      AllDispatched(s.adaptOperations, DoNotRetry, id);
      AllDispatched(s.requestsToRetry, Outcome.Retry, id);
      Together(AdaptAgain(s.adaptOperations), CompleteAll(s.requestsToRetry, Outcome.Retry), id);
    case Failure(e) =>
      AllDispatched(s.adaptOperations, NotAdapted(e), id);
      AllDispatched(s.requestsToRetry, DoNotRetryWithError(e), id);
      Together(CompleteAll(s.adaptOperations, NotAdapted(e)), CompleteAll(s.requestsToRetry, DoNotRetryWithError(e)),
               id);
  }

  lemma {:induction false} RefreshConserves(s: MutableState, credential: Credential, checkedAt: real, startedAt: real,
                                            id: Id)
    ensures Kept(id, Held(s, id), 0, AfterRefresh(s, credential, checkedAt, startedAt))
  {
    if Excessive(s, checkedAt) {
      ResultConserves(s, Failure(ExcessiveRefresh), id);
    } else {
      One(StartRefresh(credential), id);
    }
  }

  lemma {:induction false} AdaptConserves(s: MutableState, x: Id, requiresRefresh: bool, checkedAt: real,
                                          startedAt: real, id: Id)
    requires Quiet(s)
    ensures Kept(id, Held(s, id) + (if x == id then 1 else 0), Flag(s),
                 AfterAdapt(s, x, requiresRefresh, checkedAt, startedAt))
  {
    OccursAtEnd(s.adaptOperations, x, id);
    if !s.isRefreshing {
      if s.credential.Some? && requiresRefresh {
        RefreshConserves(s.(adaptOperations := s.adaptOperations + [x]), s.credential.value, checkedAt, startedAt, id);
      } else {
        One(AfterAdapt(s, x, requiresRefresh, checkedAt, startedAt).dispatched[0], id);
      }
    }
  }

  lemma {:induction false} RetryConserves(s: MutableState, x: Id, credential: Credential, checkedAt: real,
                                          startedAt: real, id: Id)
    requires Quiet(s)
    ensures Kept(id, Held(s, id) + (if x == id then 1 else 0), Flag(s),
                 AfterRetry(s, x, credential, checkedAt, startedAt))
  {
    OccursAtEnd(s.requestsToRetry, x, id);
    if !s.isRefreshing {
      RefreshConserves(s.(requestsToRetry := s.requestsToRetry + [x]), credential, checkedAt, startedAt, id);
    }
  }

  lemma {:induction false} WorkConserves(s: MutableState, work: Work, a: Action, elsewhere: nat, id: Id)
    requires a.Proceed? && Quiet(s) && elsewhere + Refreshes([work]) == Flag(s)
    ensures var r := AfterWork(s, work, a);
            && Held(r.state, id) + Times(r.dispatched, id) + Times(Called(work), id) == Held(s, id) + Times([work], id)
            && Quiet(r.state) && elsewhere + Refreshes(r.dispatched) == Flag(r.state)
  {
    One(work, id);
    match work {
      case Adapting(x) => AdaptConserves(s, x, a.requiresRefresh, a.checkedAt, a.startedAt, id);
      case Retrying(x) => One(BeforeRetry(s, x, a.failedAuthentication, a.isCurrent), id);
      case Checked(x, c) => RetryConserves(s, x, c, a.checkedAt, a.startedAt, id);
      case Completing(_, _) =>
      case StartRefresh(_) => One(AwaitResult, id);
      case AwaitResult => ResultConserves(s, a.result, id);
    }
  }

  lemma {:induction false} RunKeeps(w: World, a: Action)
    requires Invariant(w) && Enabled(w, a) && a.Proceed?
    ensures Invariant(Step(w, a))
  {
    var work, rest, w' := w.pending[a.i], Without(w.pending, a.i), Step(w, a);
    forall id
      ensures Places(w', id) == Places(w, id)
      ensures Quiet(w'.state) && Refreshes(w'.pending) == Flag(w'.state)
    {
      TakenOut(w.pending, a.i, id);
      WorkConserves(w.state, work, a, Refreshes(rest), id);
      Together(w.completed, Called(work), id);
      Together(rest, AfterWork(w.state, work, a).dispatched, id);
    }
    assert Places(w', 0) == Places(w, 0);
  }

  lemma {:induction false} CallKeeps(w: World, work: Work, x: Id)
    requires Invariant(w) && x !in w.submitted && (work == Adapting(x) || work == Retrying(x))
    ensures Invariant(w.(pending := w.pending + [work], submitted := w.submitted + {x}))
  {
    var w' := w.(pending := w.pending + [work], submitted := w.submitted + {x});
    forall id
      ensures Places(w', id) == Places(w, id) + (if id == x then 1 else 0)
      ensures Refreshes(w'.pending) == Refreshes(w.pending)
    {
      Together(w.pending, [work], id);
      One(work, id);
    }
    assert Places(w', 0) >= 0;
  }

  lemma {:induction false} StepKeeps(w: World, a: Action)
    requires Invariant(w) && Enabled(w, a)
    ensures Invariant(Step(w, a)) && w.completed <= Step(w, a).completed
  {
    match a
    case CallAdapt(id) => CallKeeps(w, Adapting(id), id);
    case CallRetry(id) => CallKeeps(w, Retrying(id), id);
    case SetCredential(_) =>
    case Proceed(_, _, _, _, _, _, _) => RunKeeps(w, a);
  }

  /** Whatever happens in whatever order: each completion submitted is in exactly one place
      and stays called once it has been; without a refresh nothing waits; and at most one
      refresh is on its way. */
  lemma {:induction false} RunConserves(w: World, actions: seq<Action>)
    requires Invariant(w) && Run(w, actions).Some?
    ensures var w' := Run(w, actions).value; Invariant(w') && w.completed <= w'.completed
    decreases |actions|
  {
    if actions != [] {
      StepKeeps(w, actions[0]);
      RunConserves(Step(w, actions[0]), actions[1..]);
    }
  }

  /** No completion is called twice, and when no work is left, every one has been called. */
  lemma {:induction false} CompletedOnce(w: World, actions: seq<Action>, id: Id)
    requires Initial(w) && Run(w, actions).Some?
    ensures var w' := Run(w, actions).value;
            && Times(w'.completed, id) <= (if id in w'.submitted then 1 else 0)
            && (w'.pending == [] ==>
                  !w'.state.isRefreshing && Times(w'.completed, id) == (if id in w'.submitted then 1 else 0))
  {
    InitiallyConserved(w);
    RunConserves(w, actions);
    var w' := Run(w, actions).value;
    assert Places(w', id) == if id in w'.submitted then 1 else 0;
  }

  lemma {:induction false} InitiallyConserved(w: World)
    requires Initial(w)
    ensures Invariant(w)
  {
    forall id
      ensures Places(w, id) == 0
    {}
  }

  /** Work that waits for the answer to a refresh is the only work that may hold back. */
  lemma {:induction false} WaitingMeansRefreshing(w: World, actions: seq<Action>)
    requires Initial(w) && Run(w, actions).Some?
    ensures var w' := Run(w, actions).value;
            w'.state.adaptOperations != [] || w'.state.requestsToRetry != [] ==>
              exists i :: 0 <= i < |w'.pending| && IsRefresh(w'.pending[i])
  {
    InitiallyConserved(w);
    RunConserves(w, actions);
    var w' := Run(w, actions).value;
    if w'.state.isRefreshing { var i := RefreshFound(w'.pending); }
  }

  lemma {:induction false} RefreshFound(ws: seq<Work>) returns (i: nat)
    requires Refreshes(ws) > 0
    ensures i < |ws| && IsRefresh(ws[i])
  {
    if IsRefresh(ws[0]) {
      i := 0;
    } else {
      var j := RefreshFound(ws[1..]);
      i := j + 1;
    }
  }

  // ---------------------------------------------------------------- refresh window

  function CountWithin(timestamps: seq<real>, from: real, to: real): (n: nat)
  {
    if timestamps == [] then 0
    else
      CountWithin(timestamps[..|timestamps| - 1], from, to)
      + (if from <= timestamps[|timestamps| - 1] <= to then 1 else 0)
  }

  /** Each refresh was started when there was room for it in the window before it. */
  predicate Spaced(timestamps: seq<real>, window: RefreshWindow) {
    forall j {:trigger RoomFor(timestamps, window, j)} | 0 <= j < |timestamps| :: RoomFor(timestamps, window, j)
  }

  predicate RoomFor(timestamps: seq<real>, window: RefreshWindow, j: nat)
    requires j < |timestamps|
  {
    CountSince(timestamps[..j], timestamps[j] - window.interval) < window.maximumAttempts
  }

  lemma {:induction false} LaterCountsFewer(timestamps: seq<real>, from: real, later: real)
    requires from <= later
    ensures CountSince(timestamps, later) <= CountSince(timestamps, from)
    decreases |timestamps|
  {
    if timestamps != [] { LaterCountsFewer(timestamps[..|timestamps| - 1], from, later); }
  }

  lemma {:induction false} WithinIsSince(timestamps: seq<real>, from: real, to: real)
    ensures CountWithin(timestamps, from, to) <= CountSince(timestamps, from)
    decreases |timestamps|
  {
    if timestamps != [] { WithinIsSince(timestamps[..|timestamps| - 1], from, to); }
  }

  lemma {:induction false} SpacedPrefix(timestamps: seq<real>, window: RefreshWindow, n: nat)
    requires Spaced(timestamps, window) && n <= |timestamps|
    ensures Spaced(timestamps[..n], window)
  {
    forall j | 0 <= j < n
      ensures RoomFor(timestamps[..n], window, j)
    {
      assert RoomFor(timestamps, window, j);
      assert timestamps[..n][..j] == timestamps[..j];
    }
  }

  /** In no window of the given length were more refreshes started than allowed. */
  lemma {:induction false} WindowBound(timestamps: seq<real>, window: RefreshWindow, t: real)
    requires Spaced(timestamps, window)
    ensures CountWithin(timestamps, t - window.interval, t)
         <= if window.maximumAttempts > 0 then window.maximumAttempts else 0
    decreases |timestamps|
  {
    if timestamps != [] {
      var n := |timestamps| - 1;
      var before, last := timestamps[..n], timestamps[n];
      assert RoomFor(timestamps, window, n);
      if last <= t {
        WithinIsSince(before, t - window.interval, t);
        LaterCountsFewer(before, last - window.interval, t - window.interval);
      } else {
        SpacedPrefix(timestamps, window, n);
        WindowBound(before, window, t);
      }
    }
  }

  lemma {:induction false} StartKeepsSpaced(s: MutableState, credential: Credential, checkedAt: real, startedAt: real)
    requires s.refreshWindow.Some? && Spaced(s.refreshTimestamps, s.refreshWindow.value) && checkedAt <= startedAt
    ensures var s' := AfterRefresh(s, credential, checkedAt, startedAt).state;
            s'.refreshWindow == s.refreshWindow && Spaced(s'.refreshTimestamps, s.refreshWindow.value)
  {
    if !Excessive(s, checkedAt) {
      var ts, window := s.refreshTimestamps, s.refreshWindow.value;
      LaterCountsFewer(ts, checkedAt - window.interval, startedAt - window.interval);
      SpacedAppends(ts, window, startedAt);
    }
  }

  lemma {:induction false} SpacedAppends(timestamps: seq<real>, window: RefreshWindow, last: real)
    requires Spaced(timestamps, window) && CountSince(timestamps, last - window.interval) < window.maximumAttempts
    ensures Spaced(timestamps + [last], window)
  {
    var all := timestamps + [last];
    forall j | 0 <= j < |all|
      ensures RoomFor(all, window, j)
    {
      assert all[..j] == timestamps[..j];
      if j < |timestamps| { assert RoomFor(timestamps, window, j); } else { assert timestamps[..j] == timestamps; }
    }
  }

  lemma {:induction false} StepKeepsSpaced(w: World, a: Action)
    requires Enabled(w, a) && w.state.refreshWindow.Some?
          && Spaced(w.state.refreshTimestamps, w.state.refreshWindow.value)
    ensures var s' := Step(w, a).state;
            s'.refreshWindow == w.state.refreshWindow && Spaced(s'.refreshTimestamps, w.state.refreshWindow.value)
  {
    if a.Proceed? {
      var s := w.state;
      match w.pending[a.i]
      case Adapting(id) =>
        if s.credential.Some? {
          StartKeepsSpaced(s.(adaptOperations := s.adaptOperations + [id]), s.credential.value, a.checkedAt,
                           a.startedAt);
        }
      case Checked(id, c) =>
        StartKeepsSpaced(s.(requestsToRetry := s.requestsToRetry + [id]), c, a.checkedAt, a.startedAt);
      case _ =>
    }
  }

  lemma {:induction false} RunKeepsSpaced(w: World, actions: seq<Action>)
    requires Run(w, actions).Some? && w.state.refreshWindow.Some?
          && Spaced(w.state.refreshTimestamps, w.state.refreshWindow.value)
    ensures var s' := Run(w, actions).value.state;
            s'.refreshWindow == w.state.refreshWindow && Spaced(s'.refreshTimestamps, w.state.refreshWindow.value)
    decreases |actions|
  {
    if actions != [] {
      StepKeepsSpaced(w, actions[0]);
      RunKeepsSpaced(Step(w, actions[0]), actions[1..]);
    }
  }

  /** Over every run and at every time t: the refreshes started in the window up to t are at
      most as many as the window allows. */
  lemma {:induction false} RefreshesAreBounded(w: World, actions: seq<Action>, t: real)
    requires Initial(w) && w.state.refreshWindow.Some? && Run(w, actions).Some?
    ensures var window := w.state.refreshWindow.value;
            CountWithin(Run(w, actions).value.state.refreshTimestamps, t - window.interval, t)
            <= if window.maximumAttempts > 0 then window.maximumAttempts else 0
  {
    RunKeepsSpaced(w, actions);
    WindowBound(Run(w, actions).value.state.refreshTimestamps, w.state.refreshWindow.value, t);
  }

  // ------------------------------------------------------------- a stale credential

  /** Every retry about to take the lock has read the credential there still is. */
  ghost predicate Current(w: World) {
    forall i | 0 <= i < |w.pending| && w.pending[i].Checked? :: Some(w.pending[i].credential) == w.state.credential
  }

  ghost predicate SomeChecked(w: World) { exists i :: 0 <= i < |w.pending| && w.pending[i].Checked? }

  /** The credential is not replaced between a retry's reading it and its taking the lock. */
  ghost predicate Undisturbed(w: World, a: Action)
    requires Enabled(w, a)
  {
    SomeChecked(w) ==> Step(w, a).state.credential == w.state.credential
  }

  ghost predicate UndisturbedRun(w: World, actions: seq<Action>)
    decreases |actions|
  {
    actions == [] ||
    (Enabled(w, actions[0]) && Undisturbed(w, actions[0]) && UndisturbedRun(Step(w, actions[0]), actions[1..]))
  }

  /** Some of the work is the start of a refresh of another credential than the given one. */
  predicate RefreshOfAnother(ws: seq<Work>, credential: Option<Credential>) {
    ws != [] && ((ws[0].StartRefresh? && Some(ws[0].credential) != credential) || RefreshOfAnother(ws[1..], credential))
  }

  /** The step dispatches a refresh of a credential that is not the current one. */
  predicate StartsStale(w: World, a: Action) {
    a.Proceed? && Enabled(w, a) &&
    var r := AfterWork(w.state, w.pending[a.i], a);
    RefreshOfAnother(r.dispatched, r.state.credential)
  }

  predicate RefreshesStale(w: World, actions: seq<Action>)
    decreases |actions|
  {
    actions != [] && Enabled(w, actions[0]) &&
    (StartsStale(w, actions[0]) || RefreshesStale(Step(w, actions[0]), actions[1..]))
  }

  /** Refreshes are allowed at all. */
  predicate Allows(s: MutableState) { s.refreshWindow.Some? ==> s.refreshWindow.value.maximumAttempts > 0 }

  lemma {:induction false} NoRefreshes(ws: seq<Work>, credential: Option<Credential>)
    requires forall i | 0 <= i < |ws| :: !ws[i].StartRefresh?
    ensures !RefreshOfAnother(ws, credential)
  {
    if ws != [] { NoRefreshes(ws[1..], credential); }
  }

  /** The answer to a refresh dispatches neither refreshes nor retries about to lock. */
  lemma {:induction false} ResultDispatches(s: MutableState, result: RefreshResult)
    ensures var ws := AfterResult(s, result).dispatched;
            && (forall i | 0 <= i < |ws| :: ws[i].Adapting? || ws[i].Completing?)
            && !RefreshOfAnother(ws, AfterResult(s, result).state.credential)
  {
    match result {
      case Success(c) =>
        DispatchedInOrder(s.adaptOperations, DoNotRetry);
        DispatchedInOrder(s.requestsToRetry, Outcome.Retry);
      case Failure(e) =>
        DispatchedInOrder(s.adaptOperations, NotAdapted(e));
        DispatchedInOrder(s.requestsToRetry, DoNotRetryWithError(e));
    }
    NoRefreshes(AfterResult(s, result).dispatched, AfterResult(s, result).state.credential);
  }

  /** A refresh under the lock leaves the credential and dispatches no retries. */
  lemma {:induction false} RefreshDispatches(s: MutableState, c: Credential, checkedAt: real, startedAt: real)
    ensures var r := AfterRefresh(s, c, checkedAt, startedAt);
            && r.state.credential == s.credential
            && (forall i | 0 <= i < |r.dispatched| :: !r.dispatched[i].Checked?)
            && (RefreshOfAnother(r.dispatched, s.credential) <==> !Excessive(s, checkedAt) && Some(c) != s.credential)
  {
    if Excessive(s, checkedAt) {
      ResultDispatches(s, Failure(ExcessiveRefresh));
    } else {
      assert [StartRefresh(c)][1..] == [];
    }
  }

  /** What one piece of work dispatches, and what it does to the credential. */
  lemma {:induction false} WorkDispatches(s: MutableState, work: Work, a: Action)
    requires a.Proceed? && (work.Checked? ==> Some(work.credential) == s.credential)
    ensures var r := AfterWork(s, work, a);
            && !RefreshOfAnother(r.dispatched, r.state.credential)
            && (forall i | 0 <= i < |r.dispatched| && r.dispatched[i].Checked? ::
                  Some(r.dispatched[i].credential) == s.credential == r.state.credential)
  {
    var ws := AfterWork(s, work, a).dispatched;
    match work
    case Adapting(x) =>
      var queued := s.(adaptOperations := s.adaptOperations + [x]);
      if s.credential.Some? { RefreshDispatches(queued, s.credential.value, a.checkedAt, a.startedAt); }
      if s.isRefreshing || s.credential.None? || !a.requiresRefresh { NoRefreshes(ws, s.credential); }
    case Checked(x, c) =>
      RefreshDispatches(s.(requestsToRetry := s.requestsToRetry + [x]), c, a.checkedAt, a.startedAt);
    case AwaitResult => ResultDispatches(s, a.result);
    case _ => NoRefreshes(ws, s.credential);
  }

  lemma {:induction false} UndisturbedStep(w: World, a: Action)
    requires Current(w) && Enabled(w, a) && Undisturbed(w, a)
    ensures Current(Step(w, a)) && !StartsStale(w, a)
  {
    if a.Proceed? { WorkDispatches(w.state, w.pending[a.i], a); }
  }

  /** A disturbance makes a retry that was about to lock stale, since it is not that retry
      that replaces the credential. */
  lemma {:induction false} DisturbedStep(w: World, a: Action)
    requires Current(w) && Enabled(w, a) && !Undisturbed(w, a)
    ensures !Current(Step(w, a))
  {
    var i :| 0 <= i < |w.pending| && w.pending[i].Checked?;
    if a.Proceed? {
      if w.pending[a.i].Checked? {
        RefreshDispatches(w.state.(requestsToRetry := w.state.requestsToRetry + [w.pending[a.i].id]),
                          w.pending[a.i].credential, a.checkedAt, a.startedAt);
      }
      Remains(w, a, i);
    }
  }

  /** Other work stays where it is. */
  lemma {:induction false} Remains(w: World, a: Action, i: nat)
    requires Enabled(w, a) && a.Proceed? && i < |w.pending| && i != a.i
    ensures var k := if i < a.i then i else i - 1;
            k < |Step(w, a).pending| && Step(w, a).pending[k] == w.pending[i]
  {}

  // ------------------------------------------------------ how it comes to be refreshed

  function Latest(timestamps: seq<real>): real {
    if timestamps == [] then 0.0
    else
      var before, last := Latest(timestamps[..|timestamps| - 1]), timestamps[|timestamps| - 1];
      if last > before then last else before
  }

  lemma {:induction false} NoneSince(timestamps: seq<real>, from: real)
    requires from > Latest(timestamps)
    ensures CountSince(timestamps, from) == 0
    decreases |timestamps|
  {
    if timestamps != [] { NoneSince(timestamps[..|timestamps| - 1], from); }
  }

  /** After some time a refresh is no longer excessive. */
  lemma {:induction false} InTime(s: MutableState, now: real) returns (t: real)
    requires Allows(s)
    ensures t >= now && !Excessive(s, t)
  {
    t := now;
    if s.refreshWindow.Some? {
      var late := Latest(s.refreshTimestamps) + s.refreshWindow.value.interval + 1.0;
      if late > t { t := late; }
      NoneSince(s.refreshTimestamps, t - s.refreshWindow.value.interval);
    }
  }

  lemma {:induction false} StaleLocks(w: World, i: nat) returns (actions: seq<Action>)
    requires Allows(w.state) && !w.state.isRefreshing
    requires i < |w.pending| && w.pending[i].Checked? && Some(w.pending[i].credential) != w.state.credential
    ensures UndisturbedRun(w, actions) && RefreshesStale(w, actions)
  {
    var queued := w.state.(requestsToRetry := w.state.requestsToRetry + [w.pending[i].id]);
    var t := InTime(queued, w.now);
    var a := Proceed(i, false, true, true, t, t, Failure(MissingCredential));
    RefreshDispatches(queued, w.pending[i].credential, t, t);
    actions := [a];
    assert actions[1..] == [];
  }

  /** The refresh under way fails, and then the stale retry takes the lock. */
  lemma {:induction false} StaleAfterFailure(w: World, i: nat, j: nat) returns (actions: seq<Action>)
    requires Allows(w.state) && j < |w.pending| && w.pending[j] == AwaitResult
    requires i < |w.pending| && w.pending[i].Checked? && Some(w.pending[i].credential) != w.state.credential
    ensures UndisturbedRun(w, actions) && RefreshesStale(w, actions)
  {
    var a := Proceed(j, false, true, true, w.now, w.now, Failure(MissingCredential));
    Remains(w, a, i);
    var others := StaleLocks(Step(w, a), if i < j then i else i - 1);
    actions := [a] + others;
  }

  lemma {:induction false} StaleRefreshes(w: World) returns (actions: seq<Action>)
    requires Invariant(w) && Allows(w.state) && !Current(w)
    ensures UndisturbedRun(w, actions) && RefreshesStale(w, actions)
  {
    var i :| 0 <= i < |w.pending| && w.pending[i].Checked? && Some(w.pending[i].credential) != w.state.credential;
    if !w.state.isRefreshing {
      actions := StaleLocks(w, i);
    } else {
      var j := RefreshFound(w.pending);
      if w.pending[j] == AwaitResult {
        actions := StaleAfterFailure(w, i, j);
      } else {
        var a := Proceed(j, false, true, true, w.now, w.now, Failure(MissingCredential));
        var w1 := Step(w, a);
        Remains(w, a, i);
        assert w1.pending[|w1.pending| - 1] == AwaitResult;
        var others := StaleAfterFailure(w1, if i < j then i else i - 1, |w1.pending| - 1);
        actions := [a] + others;
      }
    }
  }

  lemma {:induction false} UndisturbedRunIsCurrent(w: World, actions: seq<Action>)
    requires Current(w) && UndisturbedRun(w, actions)
    ensures !RefreshesStale(w, actions)
    decreases |actions|
  {
    if actions != [] {
      UndisturbedStep(w, actions[0]);
      UndisturbedRunIsCurrent(Step(w, actions[0]), actions[1..]);
    }
  }

  /** With a window that allows no refresh none is ever started. */
  lemma {:induction false} NoneAllowed(w: World, actions: seq<Action>)
    requires !Allows(w.state)
    ensures !RefreshesStale(w, actions)
    decreases |actions|
  {
    if actions != [] && Enabled(w, actions[0]) {
      var a, s := actions[0], w.state;
      if a.Proceed? {
        match w.pending[a.i]
        case Adapting(x) => NothingStarts(s, w.pending[a.i], a);
        case Checked(x, c) => NothingStarts(s, w.pending[a.i], a);
        case AwaitResult => ResultDispatches(s, a.result);
        case _ => NoRefreshes(AfterWork(s, w.pending[a.i], a).dispatched, s.credential);
      }
      NoneAllowed(Step(w, a), actions[1..]);
    }
  }

  lemma {:induction false} NothingStarts(s: MutableState, work: Work, a: Action)
    requires !Allows(s) && a.Proceed? && (work.Adapting? || work.Checked?)
    ensures var r := AfterWork(s, work, a); !RefreshOfAnother(r.dispatched, r.state.credential)
  {
    var r := AfterWork(s, work, a);
    match work
    case Adapting(x) =>
      var queued := s.(adaptOperations := s.adaptOperations + [x]);
      if s.credential.Some? { RefreshDispatches(queued, s.credential.value, a.checkedAt, a.startedAt); }
      if s.isRefreshing || s.credential.None? || !a.requiresRefresh { NoRefreshes(r.dispatched, s.credential); }
    case Checked(x, c) =>
      RefreshDispatches(s.(requestsToRetry := s.requestsToRetry + [x]), c, a.checkedAt, a.startedAt);
  }

  /** No refresh of a replaced credential follows from here while the credential stays
      undisturbed. */
  ghost predicate StaysCurrent(w: World, actions: seq<Action>) {
    UndisturbedRun(w, actions) ==> !RefreshesStale(w, actions)
  }

  /** A credential already replaced can come to be refreshed, with no further disturbance, if
      and only if a retry about to lock holds it, and refreshes are allowed at all. */
  lemma {:induction false} CurrentExactly(w: World)
    requires Invariant(w)
    ensures Current(w) || !Allows(w.state) <==> forall actions :: StaysCurrent(w, actions)
  {
    if Current(w) {
      forall actions
        ensures StaysCurrent(w, actions)
      {
        if UndisturbedRun(w, actions) { UndisturbedRunIsCurrent(w, actions); }
      }
    } else if !Allows(w.state) {
      forall actions
        ensures StaysCurrent(w, actions)
      {
        NoneAllowed(w, actions);
      }
    } else {
      var actions := StaleRefreshes(w);
      assert !StaysCurrent(w, actions);
    }
  }

  /** From a world in which all that has been read is current, a step keeps it so if and only
      if it does not replace the credential under a retry about to lock. */
  lemma {:induction false} DisturbedExactly(w: World, a: Action)
    requires Invariant(w) && Current(w) && Enabled(w, a)
    ensures Current(Step(w, a)) <==> Undisturbed(w, a)
    ensures Undisturbed(w, a) || !Allows(w.state) <==> forall actions :: StaysCurrent(Step(w, a), actions)
  {
    if Undisturbed(w, a) { UndisturbedStep(w, a); } else { DisturbedStep(w, a); }
    StepKeeps(w, a);
    assert Step(w, a).state.refreshWindow == w.state.refreshWindow;
    CurrentExactly(Step(w, a));
  }

  /** From the start on, while the credential is never replaced under a retry about to lock,
      only the current credential is ever refreshed. */
  lemma {:induction false} RefreshesAreCurrent(w: World, actions: seq<Action>)
    requires Initial(w) && UndisturbedRun(w, actions)
    ensures !RefreshesStale(w, actions)
  {
    UndisturbedRunIsCurrent(w, actions);
  }

  /** The i-th work of a world goes on, with a failed authentication to report and a
      successful refresh to answer with, if it asks. */
  function Go(w: World, i: nat, renewed: Credential): Action {
    Proceed(i, false, true, true, w.now, w.now, Success(renewed))
  }

  /** It does happen: a retry that read the credential just before a refresh replaced it
      starts another refresh, of the credential that has been replaced. */
  lemma {:induction false} RefreshesAgain(w: World, used: Credential, renewed: Credential)
    returns (actions: seq<Action>)
    requires Initial(w) && w.state.credential == Some(used) && w.state.refreshWindow.None? && used != renewed
    ensures var r := Run(w, actions);
            r.Some? && r.value.state.credential == Some(renewed) && r.value.state.isRefreshing
              && StartRefresh(used) in r.value.pending
  {
    var prefix, w' := BothRead(w, used, renewed);
    var others := SecondRefreshes(w', used, renewed);
    RunInTwo(w, prefix, others);
    actions := prefix + others;
  }

  lemma {:induction false} BothRead(w: World, used: Credential, renewed: Credential)
    returns (actions: seq<Action>, w': World)
    requires Initial(w) && w.state.credential == Some(used)
    ensures Run(w, actions) == Some(w') && w'.pending == [Checked(0, used), Checked(1, used)] && w'.state == w.state
  {
    var w1 := Step(w, CallRetry(0));
    var w2 := Step(w1, CallRetry(1));
    assert w2.pending == [Retrying(0), Retrying(1)];
    var a := Go(w2, 0, renewed);
    var w3 := Step(w2, a);
    assert w3.pending == [Retrying(1), Checked(0, used)];
    w' := Step(w3, a);
    assert Run(w', []) == Some(w');
    RunFrom(w3, a, []);
    RunFrom(w2, a, [a] + []);
    RunFrom(w1, CallRetry(1), [a] + ([a] + []));
    RunFrom(w, CallRetry(0), [CallRetry(1)] + ([a] + ([a] + [])));
    actions := [CallRetry(0)] + ([CallRetry(1)] + ([a] + ([a] + [])));
  }

  lemma {:induction false} SecondRefreshes(w: World, used: Credential, renewed: Credential)
    returns (actions: seq<Action>)
    requires w.pending == [Checked(0, used), Checked(1, used)] && !w.state.isRefreshing && w.state.refreshWindow.None?
    ensures var r := Run(w, actions);
            r.Some? && r.value.state.credential == Some(renewed) && r.value.state.isRefreshing
              && StartRefresh(used) in r.value.pending
  {
    var first, second := Go(w, 0, renewed), Go(w, 1, renewed);
    var w1 := Step(w, first);
    assert w1.pending == [Checked(1, used), StartRefresh(used)] && w1.state.isRefreshing;
    var w2 := Step(w1, second);
    assert w2.pending == [Checked(1, used), AwaitResult];
    var w3 := Step(w2, second);
    assert w3.pending[0] == Checked(1, used) && w3.state.credential == Some(renewed) && !w3.state.isRefreshing;
    var w4 := Step(w3, first);
    assert w4.pending[|w4.pending| - 1] == StartRefresh(used);
    assert Run(w4, []) == Some(w4);
    RunFrom(w3, first, []);
    RunFrom(w2, second, [first] + []);
    RunFrom(w1, second, [second] + ([first] + []));
    RunFrom(w, first, [second] + ([second] + ([first] + [])));
    actions := [first] + ([second] + ([second] + ([first] + [])));
  }

  lemma {:induction false} RunFrom(w: World, a: Action, actions: seq<Action>)
    requires Enabled(w, a)
    ensures Run(w, [a] + actions) == Run(Step(w, a), actions)
  {
    assert ([a] + actions)[1..] == actions;
  }

  lemma {:induction false} RunInTwo(w: World, xs: seq<Action>, ys: seq<Action>)
    requires Run(w, xs).Some?
    ensures Run(w, xs + ys) == Run(Run(w, xs).value, ys)
    decreases |xs|
  {
    if xs == [] {
      assert xs + ys == ys;
    } else {
      assert (xs + ys)[1..] == xs[1..] + ys;
      RunInTwo(Step(w, xs[0]), xs[1..], ys);
    }
  }
}
