/** The frontend's HTTP client and its session-refresh coordinator: a response
    interceptor that, on the expiry signal (401 with detail ACCESS_TOKEN_EXPIRED),
    issues one refresh call, queues every other expiring request while that call
    is in flight, and then releases or rejects the queue.

    The model is a one-thread event model: `RequestFailed` is the interceptor
    receiving an error response, `RefreshAnswered` is the refresh call's answer.
    Promise settlements and other observable effects are appended to `effects`. */
module AxiosClient {
  import opened Wrappers

  /** A request configuration; `retry` is the `_retry` mark. */
  datatype Request = Request(url: string, retry: bool, tag: nat)

  /** The error response body, when there is a response; `detail` is None unless it is a string. */
  datatype ErrorBody = ErrorBody(status: int, detail: Option<string>)

  /** An AxiosError: a failed request, with or without a response. */
  datatype Failure = Failure(response: Option<ErrorBody>)

  /** What the coordinator does observably. */
  datatype Effect =
    | RefreshSent                           // POST /auth/refresh issued
    | Resolved(request: Request)            // a queued continuation resolved: that request is replayed
    | Rejected(request: Request, failure: Failure)  // a caller's promise rejects with `failure`
    | Resent(request: Request)              // the request that started the refresh is replayed
    | RedirectToLogin                       // window.location.href = '/auth/login'

  /** What the interceptor decides for one error response. */
  datatype Decision = PassThrough | Enqueue | StartRefresh

  const ExpiredDetail := "ACCESS_TOKEN_EXPIRED"
  const RefreshPath := "/auth/refresh"

  /** The refresh call: a fresh configuration for POST /auth/refresh, never marked `_retry`. */
  const RefreshRequest := Request(RefreshPath, false, 0)

  /** The endpoints that the comment at the top of the refresh branch says should be skipped. */
  const AuthEndpoints: set<string> := {"/auth/login", "/auth/register", "/auth/refresh"}

  /** The session expiry signal: status 401 with the string detail ACCESS_TOKEN_EXPIRED. */
  predicate IsExpirySignal(f: Failure) {
    f.response.Some? && f.response.value.status == 401 && f.response.value.detail == Some(ExpiredDetail)
  }

  /** The interceptor's decision. `guard` adds the exclusion of the auth endpoints that
      the source announces in a comment but does not implement; the source runs with
      guard = false. */
  function Decide(req: Request, f: Failure, isRefreshing: bool, guard: bool): (d: Decision)
    ensures d == StartRefresh <==> IsExpirySignal(f) && !req.retry && !isRefreshing && !(guard && req.url in AuthEndpoints)
    ensures d == Enqueue <==> IsExpirySignal(f) && !req.retry && isRefreshing && !(guard && req.url in AuthEndpoints)
    ensures !guard ==> (d == PassThrough <==> !IsExpirySignal(f) || req.retry)
  {
    if IsExpirySignal(f) && !req.retry && !(guard && req.url in AuthEndpoints) then
      if isRefreshing then Enqueue else StartRefresh
    else
      PassThrough
  }

  /** processQueue's effect on one queued entry. */
  function SettleOne(req: Request, error: Option<Failure>): Effect {
    match error
    case None => Resolved(req)
    case Some(f) => Rejected(req, f)
  }

  /** processQueue's effects on the whole queue, in enqueue order. */
  function Settle(queue: seq<Request>, error: Option<Failure>): seq<Effect>
  {
    if queue == [] then [] else Settle(queue[..|queue| - 1], error) + [SettleOne(queue[|queue| - 1], error)]
  }

  /** Every queued entry is settled once, in enqueue order: all resolved when there
      is no error, all rejected with that error otherwise. */
  lemma {:induction false} SettleInOrder(queue: seq<Request>, error: Option<Failure>)
    ensures |Settle(queue, error)| == |queue|
    ensures forall i :: 0 <= i < |queue| ==> Settle(queue, error)[i] == SettleOne(queue[i], error)
    ensures error.None? ==> forall i :: 0 <= i < |queue| ==> Settle(queue, error)[i] == Resolved(queue[i])
    ensures error.Some? ==> forall i :: 0 <= i < |queue| ==> Settle(queue, error)[i] == Rejected(queue[i], error.value)
  {
    if queue != [] {
      SettleInOrder(queue[..|queue| - 1], error);
    }
  }

  /** The module-level state of the client: `isRefreshing`, `failedQueue`, plus the
      refresh that is awaited and the log of effects. */
  class Coordinator {
    /** Whether the auth endpoints are excluded from the refresh path (false in the source). */
    const guard: bool
    var isRefreshing: bool
    var failedQueue: seq<Request>
    /** The request that started the current refresh, waiting in the interceptor's try block. */
    var starter: Option<Request>
    /** Whether the refresh call has been sent and not answered. */
    var refreshInFlight: bool
    var effects: seq<Effect>

    ghost predicate Valid()
      reads this
    {
      && (isRefreshing <==> starter.Some?)
      && (refreshInFlight ==> isRefreshing)
      && (!isRefreshing ==> failedQueue == [])
      && (starter.Some? ==> starter.value.retry)
      && (forall i :: 0 <= i < |failedQueue| ==> !failedQueue[i].retry)
    }

    /** The refresh has been answered but the queue was never drained and never will be:
        only the refresh's own answer drains it. */
    predicate Stuck()
      reads this
    {
      isRefreshing && !refreshInFlight
    }

    constructor (guard: bool)
      ensures Valid() && this.guard == guard
      ensures !isRefreshing && failedQueue == [] && effects == [] && !refreshInFlight
    {
      this.guard := guard;
      isRefreshing := false;
      failedQueue := [];
      starter := None;
      refreshInFlight := false;
      effects := [];
    }

    /** processQueue: settles every queued entry in order and empties the queue. */
    method ProcessQueue(error: Option<Failure>)
      modifies this`failedQueue, this`effects
      ensures failedQueue == []
      ensures effects == old(effects) + Settle(old(failedQueue), error)
    {
      var i := 0;
      while i < |failedQueue|
        invariant 0 <= i <= |failedQueue|
        invariant failedQueue == old(failedQueue)
        invariant effects == old(effects) + Settle(failedQueue[..i], error)
      {
        assert failedQueue[..i + 1][..i] == failedQueue[..i];
        effects := effects + [SettleOne(failedQueue[i], error)];
        i := i + 1;
      }
      assert failedQueue[..i] == failedQueue;
      failedQueue := [];
    }

    /** The response interceptor receiving the error `f` for request `req`. */
    method RequestFailed(req: Request, f: Failure) returns (d: Decision)
      requires Valid()
      modifies this
      ensures Valid()
      ensures d == Decide(req, f, old(isRefreshing), guard)
      ensures d == PassThrough ==>
        effects == old(effects) + [Rejected(req, f)] && failedQueue == old(failedQueue)
        && isRefreshing == old(isRefreshing) && starter == old(starter) && refreshInFlight == old(refreshInFlight)
      ensures d == Enqueue ==>
        failedQueue == old(failedQueue) + [req] && effects == old(effects)
        && isRefreshing && starter == old(starter) && refreshInFlight == old(refreshInFlight)
      ensures d == StartRefresh ==>
        isRefreshing && refreshInFlight && starter == Some(req.(retry := true))
        && failedQueue == [] && effects == old(effects) + [RefreshSent]
      ensures old(isRefreshing) ==> RefreshSent !in effects[|old(effects)|..]
      ensures old(Stuck()) ==> Stuck()
    {
      d := Decide(req, f, isRefreshing, guard);
      match d {
        case PassThrough =>
          effects := effects + [Rejected(req, f)];
        case Enqueue =>
          failedQueue := failedQueue + [req];
        case StartRefresh =>
          starter := Some(req.(retry := true));
          isRefreshing := true;
          refreshInFlight := true;
          effects := effects + [RefreshSent];
      }
    }

    /** The answer to the refresh call: None for success, Some(f) for an error response.
        An error goes through the same interceptor as any request before the refresh
        call's promise settles. */
    method RefreshAnswered(answer: Option<Failure>)
      requires Valid() && refreshInFlight
      modifies this
      ensures Valid() && !refreshInFlight
      ensures answer.None? ==>
        !isRefreshing && failedQueue == []
        && effects == old(effects) + Settle(old(failedQueue), None) + [Resent(old(starter).value)]
      ensures answer.Some? && Decide(RefreshRequest, answer.value, true, guard) == Enqueue ==>
        Stuck() && failedQueue == old(failedQueue) + [RefreshRequest] && effects == old(effects)
      ensures answer.Some? && Decide(RefreshRequest, answer.value, true, guard) != Enqueue ==>
        !isRefreshing && failedQueue == []
        && effects == old(effects) + Settle(old(failedQueue), answer) + [RedirectToLogin, Rejected(old(starter).value, answer.value)]
    {
      refreshInFlight := false;
      var original := starter.value;
      match answer {
        case None =>
          ProcessQueue(None);
          effects := effects + [Resent(original)];
          isRefreshing := false;
          starter := None;
        case Some(f) =>
          var d := Decide(RefreshRequest, f, isRefreshing, guard);
          if d == Enqueue {
            // the refresh call's own failure waits behind itself
            failedQueue := failedQueue + [RefreshRequest];
          } else {
            ProcessQueue(Some(f));
            effects := effects + [RedirectToLogin, Rejected(original, f)];
            isRefreshing := false;
            starter := None;
          }
      }
    }
  }

  /** As written, an expired refresh token answers the refresh call with the expiry
      signal, and the interceptor queues that call behind the refresh it belongs to. */
  lemma ExpiredRefreshQueuedBehindItself(f: Failure)
    requires IsExpirySignal(f)
    ensures Decide(RefreshRequest, f, true, false) == Enqueue
  {
  }

  /** With the auth endpoints excluded, the refresh call's answer is never queued,
      so every refresh settles and drains the queue. */
  lemma GuardedRefreshNeverQueued(f: Failure, isRefreshing: bool)
    ensures Decide(RefreshRequest, f, isRefreshing, true) == PassThrough
  {
  }

  /** A queued request is replayed without the `_retry` mark, so if its replay
      expires again when no refresh is running it starts a new refresh. */
  lemma ReplayCanRefreshAgain(q: Request, f: Failure, guard: bool)
    requires !q.retry && IsExpirySignal(f) && !(guard && q.url in AuthEndpoints)
    ensures Decide(q, f, false, guard) == StartRefresh
  {
  }

  /** A request already marked `_retry` never starts or joins a refresh. */
  lemma RetriedRequestPassesThrough(req: Request, f: Failure, isRefreshing: bool, guard: bool)
    requires req.retry
    ensures Decide(req, f, isRefreshing, guard) == PassThrough
  {
  }

  /** Two requests expire together, then the refresh call itself answers with the
      expiry signal: as written the client stops in a state where the queue holds
      the second request and the refresh call, and nothing will drain it. */
  method ExpiredRefreshScenario() returns (c: Coordinator)
    ensures c.Stuck() && c.Valid()
    ensures c.failedQueue == [Request("/bookmark/list", false, 2), RefreshRequest]
    ensures c.effects == [RefreshSent]
  {
    var expired := Failure(Some(ErrorBody(401, Some(ExpiredDetail))));
    c := new Coordinator(false);
    var d1 := c.RequestFailed(Request("/bookmark/stats", false, 1), expired);
    var d2 := c.RequestFailed(Request("/bookmark/list", false, 2), expired);
    c.RefreshAnswered(Some(expired));
  }

  /** The same events with the auth endpoints excluded: the refresh failure rejects
      the queue, redirects once and rejects the request that started the refresh. */
  method GuardedRefreshScenario() returns (c: Coordinator)
    ensures !c.isRefreshing && c.failedQueue == [] && c.Valid()
    ensures c.effects == [RefreshSent,
      Rejected(Request("/bookmark/list", false, 2), Failure(Some(ErrorBody(401, Some(ExpiredDetail))))),
      RedirectToLogin,
      Rejected(Request("/bookmark/stats", true, 1), Failure(Some(ErrorBody(401, Some(ExpiredDetail)))))]
  {
    var expired := Failure(Some(ErrorBody(401, Some(ExpiredDetail))));
    c := new Coordinator(true);
    var d1 := c.RequestFailed(Request("/bookmark/stats", false, 1), expired);
    var d2 := c.RequestFailed(Request("/bookmark/list", false, 2), expired);
    c.RefreshAnswered(Some(expired));
  }
}
