/** What the completions handed to the interceptor are called with, over all runs. */
module AuthenticationOutcomes {
  import opened Wrappers
  import opened AuthenticationInterceptor

  // ------------------------------------------------------------------ what is due

  /** The work asks for a refresh when there have been too many. */
  predicate AsksTooOften(s: MutableState, work: Work, a: Action)
    requires a.Proceed?
  {
    && !s.isRefreshing && Excessive(s, a.checkedAt)
    && ((work.Adapting? && s.credential.Some? && a.requiresRefresh) || work.Checked?)
  }

  predicate AsksFor(work: Work, id: Id) { (work.Adapting? || work.Checked?) && work.id == id }

  /** The step is the reason to call the completion with that outcome. A request is adapted
      with the credential of that moment, when no refresh is on its way and none is needed. It
      is retried after a successful refresh it waited for, or when it was authenticated with an
      earlier credential, and not retried without an error when it did not fail for its
      authentication. An error is the one that a failed refresh came back with, or says that
      there is no credential or that there have been too many refreshes. */
  predicate Due(w: World, a: Action, id: Id, outcome: Outcome) {
    a.Proceed? && Enabled(w, a) &&
    var s, work := w.state, w.pending[a.i];
    match outcome
    case Adapted(c) => work == Adapting(id) && !s.isRefreshing && s.credential == Some(c) && !a.requiresRefresh
    case DoNotRetry => work == Retrying(id) && !a.failedAuthentication
    case Retry =>
      || (work == Retrying(id) && a.failedAuthentication && s.credential.Some? && !a.isCurrent)
      || (work == AwaitResult && a.result.Success? && id in s.requestsToRetry)
    case NotAdapted(e) =>
      || (e == MissingCredential && work == Adapting(id) && !s.isRefreshing && s.credential.None?)
      || (work == AwaitResult && a.result == Failure(e) && id in s.adaptOperations)
      || (e == ExcessiveRefresh && AsksTooOften(s, work, a)
          && (id in s.adaptOperations || (work.Adapting? && AsksFor(work, id))))
    case DoNotRetryWithError(e) =>
      || (e == MissingCredential && work == Retrying(id) && a.failedAuthentication && s.credential.None?)
      || (work == AwaitResult && a.result == Failure(e) && id in s.requestsToRetry)
      || (e == ExcessiveRefresh && AsksTooOften(s, work, a)
          && (id in s.requestsToRetry || (work.Checked? && AsksFor(work, id))))
  }

  // ------------------------------------------------------------------- a single step

  lemma {:induction false} InAll(ids: seq<Id>, outcome: Outcome, work: Work)
    ensures work in CompleteAll(ids, outcome) <==> work.Completing? && work.id in ids && work.outcome == outcome
    ensures work in AdaptAgain(ids) <==> work.Adapting? && work.id in ids
  {
    DispatchedInOrder(ids, outcome);
    if work.Completing? && work.id in ids && work.outcome == outcome {
      var i :| 0 <= i < |ids| && ids[i] == work.id;
      assert CompleteAll(ids, outcome)[i] == work;
    }
    if work.Adapting? && work.id in ids {
      var i :| 0 <= i < |ids| && ids[i] == work.id;
      assert AdaptAgain(ids)[i] == work;
    }
  }

  lemma {:induction false} ResultCompletes(s: MutableState, result: RefreshResult, id: Id, outcome: Outcome)
    ensures Completing(id, outcome) in AfterResult(s, result).dispatched
       <==> match result
            case Success(_) => outcome == Retry && id in s.requestsToRetry
            case Failure(e) =>
              || (outcome == NotAdapted(e) && id in s.adaptOperations)
              || (outcome == DoNotRetryWithError(e) && id in s.requestsToRetry)
  {
    match result
    case Success(_) =>
      InAll(s.adaptOperations, Retry, Completing(id, outcome));
      InAll(s.requestsToRetry, Retry, Completing(id, outcome));
    case Failure(e) =>
      InAll(s.adaptOperations, NotAdapted(e), Completing(id, outcome));
      InAll(s.requestsToRetry, DoNotRetryWithError(e), Completing(id, outcome));
  }

  lemma {:induction false} RefreshCompletes(s: MutableState, c: Credential, checkedAt: real, startedAt: real, id: Id,
                                            outcome: Outcome)
    ensures Completing(id, outcome) in AfterRefresh(s, c, checkedAt, startedAt).dispatched
       <==> Excessive(s, checkedAt)
            && (|| (outcome == NotAdapted(ExcessiveRefresh) && id in s.adaptOperations)
                || (outcome == DoNotRetryWithError(ExcessiveRefresh) && id in s.requestsToRetry))
  {
    if Excessive(s, checkedAt) { ResultCompletes(s, Failure(ExcessiveRefresh), id, outcome); }
  }

  /** A step dispatches exactly the completions that it makes due. */
  lemma {:induction false} DispatchesDue(w: World, a: Action, id: Id, outcome: Outcome)
    requires Enabled(w, a) && a.Proceed?
    ensures Completing(id, outcome) in AfterWork(w.state, w.pending[a.i], a).dispatched <==> Due(w, a, id, outcome)
  {
    var s := w.state;
    match w.pending[a.i]
    case Adapting(x) =>
      if !s.isRefreshing && s.credential.Some? && a.requiresRefresh {
        var queued := s.(adaptOperations := s.adaptOperations + [x]);
        RefreshCompletes(queued, s.credential.value, a.checkedAt, a.startedAt, id, outcome);
      }
    case Checked(x, c) =>
      if !s.isRefreshing {
        var queued := s.(requestsToRetry := s.requestsToRetry + [x]);
        RefreshCompletes(queued, c, a.checkedAt, a.startedAt, id, outcome);
      }
    case AwaitResult => ResultCompletes(s, a.result, id, outcome);
    case _ =>
  }

  /** A completion with its outcome has been decided on: it is on its way or has been called. */
  predicate Decided(w: World, id: Id, outcome: Outcome) {
    Completing(id, outcome) in w.pending || Completing(id, outcome) in w.completed
  }

  lemma {:induction false} StepDecides(w: World, a: Action, id: Id, outcome: Outcome)
    requires Enabled(w, a)
    ensures Decided(Step(w, a), id, outcome) <==> Decided(w, id, outcome) || Due(w, a, id, outcome)
  {
    if a.Proceed? {
      DispatchesDue(w, a, id, outcome);
    }
  }

  // ----------------------------------------------------------------------- all runs

  /** Some step of the run makes the completion due with that outcome. */
  predicate DueIn(w: World, actions: seq<Action>, id: Id, outcome: Outcome)
    decreases |actions|
  {
    actions != [] && Enabled(w, actions[0]) &&
    (Due(w, actions[0], id, outcome) || DueIn(Step(w, actions[0]), actions[1..], id, outcome))
  }

  lemma {:induction false} RunDecides(w: World, actions: seq<Action>, id: Id, outcome: Outcome)
    requires Run(w, actions).Some?
    ensures Decided(Run(w, actions).value, id, outcome)
       <==> Decided(w, id, outcome) || DueIn(w, actions, id, outcome)
    decreases |actions|
  {
    if actions != [] {
      StepDecides(w, actions[0], id, outcome);
      RunDecides(Step(w, actions[0]), actions[1..], id, outcome);
    }
  }

  /** Over every run, a completion is called with an outcome, or is about to be, if and only
      if some step of the run made it due with that outcome; and no more than one outcome is
      ever decided on for it. */
  lemma {:induction false} OutcomesAreDue(w: World, actions: seq<Action>, id: Id, outcome: Outcome)
    requires Initial(w) && Run(w, actions).Some?
    ensures var w' := Run(w, actions).value;
            && (Decided(w', id, outcome) <==> DueIn(w, actions, id, outcome))
            && (forall other :: Decided(w', id, outcome) && Decided(w', id, other) ==> other == outcome)
  {
    RunDecides(w, actions, id, outcome);
    InitiallyConserved(w);
    RunConserves(w, actions);
    var w' := Run(w, actions).value;
    forall other | Decided(w', id, outcome) && Decided(w', id, other)
      ensures other == outcome
    {
      OneOutcome(w', id, outcome, other);
    }
  }

  lemma {:induction false} CountedOnce(ws: seq<Work>, id: Id, work: Work)
    requires work in ws && Calls(work, id)
    ensures Times(ws, id) > 0
  {
    if ws[0] != work { CountedOnce(ws[1..], id, work); }
  }

  lemma {:induction false} CountedTwice(ws: seq<Work>, id: Id, x: Work, y: Work)
    requires x in ws && y in ws && x != y && Calls(x, id) && Calls(y, id)
    ensures Times(ws, id) > 1
  {
    if ws[0] == x {
      CountedOnce(ws[1..], id, y);
    } else if ws[0] == y {
      CountedOnce(ws[1..], id, x);
    } else {
      CountedTwice(ws[1..], id, x, y);
    }
  }

  lemma {:induction false} OneOutcome(w: World, id: Id, x: Outcome, y: Outcome)
    requires Invariant(w) && Decided(w, id, x) && Decided(w, id, y)
    ensures x == y
  {
    var p, q := Completing(id, x), Completing(id, y);
    assert Places(w, id) <= 1;
    if x != y {
      if p in w.pending { CountedOnce(w.pending, id, p); } else { CountedOnce(w.completed, id, p); }
      if q in w.pending { CountedOnce(w.pending, id, q); } else { CountedOnce(w.completed, id, q); }
      if p in w.pending && q in w.pending {
        CountedTwice(w.pending, id, p, q);
      } else if p in w.completed && q in w.completed {
        CountedTwice(w.completed, id, p, q);
      }
    }
  }

  // --------------------------------------------------------------- starting a refresh

  /** A step starts a refresh of a credential exactly when there is none, when there have not
      been too many, and when a request asks for it: one to be adapted with a credential that
      needs a refresh, or one to be retried that has read that credential. */
  lemma {:induction false} RefreshStarts(w: World, a: Action, c: Credential)
    requires Enabled(w, a) && a.Proceed?
    ensures var s, work, r := w.state, w.pending[a.i], AfterWork(w.state, w.pending[a.i], a);
            StartRefresh(c) in r.dispatched
            <==> && !s.isRefreshing && !Excessive(s, a.checkedAt) && r.state.isRefreshing
                 && r.state.refreshTimestamps == s.refreshTimestamps + [a.startedAt]
                 && (|| (work.Adapting? && s.credential == Some(c) && a.requiresRefresh)
                     || (work.Checked? && work.credential == c))
  {
    var s, r := w.state, AfterWork(w.state, w.pending[a.i], a);
    match w.pending[a.i]
    case Adapting(x) =>
      if !s.isRefreshing && s.credential.Some? && a.requiresRefresh && Excessive(s, a.checkedAt) {
        NoStart(s.(adaptOperations := s.adaptOperations + [x]), Failure(ExcessiveRefresh), c);
      }
    case Checked(x, _) =>
      if !s.isRefreshing && Excessive(s, a.checkedAt) {
        NoStart(s.(requestsToRetry := s.requestsToRetry + [x]), Failure(ExcessiveRefresh), c);
      }
    case AwaitResult => NoStart(s, a.result, c);
    case _ =>
  }

  lemma {:induction false} NoStart(s: MutableState, result: RefreshResult, c: Credential)
    ensures StartRefresh(c) !in AfterResult(s, result).dispatched
  {
    ResultDispatches(s, result);
  }

  /** What an answer leaves behind: with a new credential the requests to adapt start over. */
  lemma {:induction false} AdaptsAgain(w: World, a: Action, id: Id)
    requires Enabled(w, a) && a.Proceed? && w.pending[a.i] == AwaitResult
    ensures var w' := Step(w, a);
            && !w'.state.isRefreshing && w'.state.adaptOperations == [] && w'.state.requestsToRetry == []
            && w'.state.credential == (if a.result.Success? then Some(a.result.credential) else w.state.credential)
            && (Adapting(id) in w'.pending
                <==> Adapting(id) in w.pending || (a.result.Success? && id in w.state.adaptOperations))
  {
    var s := w.state;
    match a.result
    case Success(_) =>
      InAll(s.adaptOperations, Retry, Adapting(id));
      InAll(s.requestsToRetry, Retry, Adapting(id));
    case Failure(e) =>
      InAll(s.adaptOperations, NotAdapted(e), Adapting(id));
      InAll(s.requestsToRetry, DoNotRetryWithError(e), Adapting(id));
  }

  // --------------------------------------------------------------------- too many

  function Within(timestamps: seq<real>, from: real): set<nat> {
    set i: nat | i < |timestamps| && timestamps[i] >= from
  }

  lemma {:induction false} CountsAll(timestamps: seq<real>, from: real)
    ensures CountSince(timestamps, from) == |Within(timestamps, from)|
    decreases |timestamps|
  {
    if timestamps == [] {
      assert Within(timestamps, from) == {};
    } else {
      var n := |timestamps| - 1;
      var before := timestamps[..n];
      CountsAll(before, from);
      assert Within(timestamps, from) == Within(before, from) + (if timestamps[n] >= from then {n} else {});
      assert n !in Within(before, from);
    }
  }

  /** There have been too many refreshes exactly when a window is set and at least as many as
      it allows have been started in the interval that ends now. */
  lemma {:induction false} ExcessiveExactly(s: MutableState, now: real)
    ensures Excessive(s, now)
       <==> && s.refreshWindow.Some?
            && |Within(s.refreshTimestamps,
                       now - s.refreshWindow.value.interval)| >= s.refreshWindow.value.maximumAttempts
  {
    if s.refreshWindow.Some? { CountsAll(s.refreshTimestamps, now - s.refreshWindow.value.interval); }
  }
}
