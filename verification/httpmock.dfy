/** The HTTP mock matcher: per test, an ordered queue of expected requests.
    Every intercepted request takes the head off the queue, matched or not;
    a match is answered with the canned response and recorded as called,
    anything else is recorded as unhandled. */
module HttpMock {
  import opened Wrappers

  type TestId = int

  datatype Response = Response(status: int, body: string)

  /** One expected request with its canned response; `entity` is the expected body. */
  datatype Expectation = Expectation(httpMethod: string, url: string, entity: Option<string>, response: Response)

  /** An intercepted request; `body` is absent for requests without one. */
  datatype Request = Request(httpMethod: string, url: string, body: Option<string>)

  /** What is recorded for a request nothing matched. */
  datatype Unhandled = Unhandled(httpMethod: string, url: string, entity: Option<string>, response: Response)

  /** The results `getMockResults` reports for a test. */
  datatype MockResults = MockResults(called: seq<Expectation>, unhandled: seq<Unhandled>)

  /** `getTestId()`: the current test's number minus one, when that number is
      truthy; `None` stands for both a missing number and 0. */
  function GetTestId(current: Option<int>): (r: Option<TestId>)
    ensures r.Some? <==> current.Some? && current.value != 0
    ensures r.Some? ==> r.value + 1 == current.value
  {
    if current.Some? && current.value != 0 then Some(current.value - 1) else None
  }

  /** A JavaScript-falsy expected entity: absent or empty. */
  predicate Falsy(entity: Option<string>)
  {
    entity.None? || entity.value == ""
  }

  /** Whether `q` matches expectation `m`: same method and URL; for `POST` and
      `PUT` also a falsy expected entity or one equal to the request body. */
  predicate Satisfies(q: Request, m: Expectation)
  {
    && q.httpMethod == m.httpMethod
    && q.url == m.url
    && ((q.httpMethod == "POST" || q.httpMethod == "PUT") ==> Falsy(m.entity) || m.entity == q.body)
  }

  /** The record for a request nothing matched: its method, URL and body,
      with a 200 status and an empty body. */
  function UnhandledRecord(q: Request): Unhandled
  {
    Unhandled(q.httpMethod, q.url, q.body, Response(200, ""))
  }

  /** The effect of one request on the queue: what matched, and the queue left. */
  datatype Step = Step(matched: Option<Expectation>, rest: seq<Expectation>)

  /** One intercepted request: `requests.shift()` removes the head whatever
      happens next; the request matches only that head. */
  function Handle(queue: seq<Expectation>, q: Request): (s: Step)
    ensures s.rest == if queue == [] then [] else queue[1..]
    ensures s.matched.Some? <==> queue != [] && Satisfies(q, queue[0])
    ensures s.matched.Some? ==> s.matched.value == queue[0]
  {
    if queue == [] then Step(None, [])
    else if Satisfies(q, queue[0]) then Step(Some(queue[0]), queue[1..])
    else Step(None, queue[1..])
  }

  /** What a run of requests leaves behind: called and unhandled records in
      arrival order, and the rest of the queue. */
  datatype Run = Run(called: seq<Expectation>, unhandled: seq<Unhandled>, rest: seq<Expectation>)

  /** The requests `reqs`, handled one after another against `queue`. */
  function Replay(queue: seq<Expectation>, reqs: seq<Request>): Run
    decreases |reqs|
  {
    if reqs == [] then Run([], [], queue)
    else
      var before := Replay(queue, reqs[..|reqs| - 1]);
      var q := reqs[|reqs| - 1];
      var step := Handle(before.rest, q);
      match step.matched
      case Some(m) => Run(before.called + [m], before.unhandled, step.rest)
      case None => Run(before.called, before.unhandled + [UnhandledRecord(q)], step.rest)
  }

  function Min(a: nat, b: nat): nat
  {
    if a <= b then a else b
  }

  /** Each request consumes exactly one queue entry (none once it is empty)
      and leaves exactly one record. */
  lemma {:induction false} ReplayConsumesOnePerRequest(queue: seq<Expectation>, reqs: seq<Request>)
    ensures Replay(queue, reqs).rest == queue[Min(|reqs|, |queue|)..]
    ensures |Replay(queue, reqs).called| + |Replay(queue, reqs).unhandled| == |reqs|
    decreases |reqs|
  {
    if reqs != [] {
      ReplayConsumesOnePerRequest(queue, reqs[..|reqs| - 1]);
    }
  }

  /** Handling one more request extends the run by one step. */
  lemma ReplayOneMore(queue: seq<Expectation>, reqs: seq<Request>, q: Request)
    ensures var before := Replay(queue, reqs);
            var step := Handle(before.rest, q);
            Replay(queue, reqs + [q]) ==
              if step.matched.Some? then Run(before.called + [step.matched.value], before.unhandled, step.rest)
              else Run(before.called, before.unhandled + [UnhandledRecord(q)], step.rest)
  {
    assert (reqs + [q])[..|reqs|] == reqs;
  }

  /** The request that arrives after `prefix` faces the expectation at
      position `|prefix|`, whatever happened before: it is called when it
      satisfies that expectation and unhandled otherwise. */
  lemma ReplayIsPositional(queue: seq<Expectation>, prefix: seq<Request>, q: Request)
    ensures var before := Replay(queue, prefix);
            var after := Replay(queue, prefix + [q]);
            if |prefix| < |queue| && Satisfies(q, queue[|prefix|]) then
              after.called == before.called + [queue[|prefix|]] && after.unhandled == before.unhandled
            else
              after.called == before.called && after.unhandled == before.unhandled + [UnhandledRecord(q)]
  {
    ReplayConsumesOnePerRequest(queue, prefix);
    ReplayOneMore(queue, prefix, q);
  }

  /** Requests that arrive in the expected order are all called, in that
      order, and none is unhandled. */
  lemma {:induction false} ReplayInOrder(queue: seq<Expectation>, reqs: seq<Request>)
    requires |reqs| <= |queue|
    requires forall i :: 0 <= i < |reqs| ==> Satisfies(reqs[i], queue[i])
    ensures Replay(queue, reqs).called == queue[..|reqs|]
    ensures Replay(queue, reqs).unhandled == []
    decreases |reqs|
  {
    if reqs != [] {
      var n := |reqs| - 1;
      ReplayInOrder(queue, reqs[..n]);
      ReplayConsumesOnePerRequest(queue, reqs[..n]);
      assert queue[..n] + [queue[n]] == queue[..n + 1];
    }
  }

  /** Swapping two expected requests makes both unhandled: the first faces
      the wrong head, and so does the second. */
  lemma SwappedPairBothUnhandled(a: Expectation, b: Expectation, qa: Request, qb: Request)
    requires Satisfies(qa, a) && Satisfies(qb, b)
    requires !Satisfies(qb, a) && !Satisfies(qa, b)
    ensures Replay([a, b], [qb, qa]).called == []
    ensures Replay([a, b], [qb, qa]).unhandled == [UnhandledRecord(qb), UnhandledRecord(qa)]
    ensures Replay([a, b], [qa, qb]).called == [a, b]
  {
    assert Replay([a, b], []) == Run([], [], [a, b]);
    ReplayOneMore([a, b], [], qb);
    assert [] + [qb] == [qb];
    assert Replay([a, b], [qb]) == Run([], [UnhandledRecord(qb)], [b]);
    ReplayOneMore([a, b], [qb], qa);
    assert [qb] + [qa] == [qb, qa];
    ReplayInOrder([a, b], [qa, qb]);
    assert [a, b][..2] == [a, b];
  }

  /** The interception `mockHttpRequests` installs: the test it records for
      and what is left of its queue. */
  datatype Interception = Interception(test: TestId, queue: seq<Expectation>)

  /** The matcher's process-wide state. */
  class MockServer {
    var interception: Option<Interception>
    var called: map<TestId, seq<Expectation>>
    var unhandled: map<TestId, seq<Unhandled>>

    /** Since the interception was installed: its full queue, the requests
        seen, and the results its test already had. */
    ghost var armedQueue: seq<Expectation>
    ghost var seen: seq<Request>
    ghost var calledBefore: seq<Expectation>
    ghost var unhandledBefore: seq<Unhandled>

    /** The installed interception's lists exist and hold the earlier results
        followed by the replay of the requests seen against its queue. */
    ghost predicate Valid()
      reads this
    {
      interception.Some? ==>
        var t := interception.value.test;
        var run := Replay(armedQueue, seen);
        && t in called && t in unhandled
        && interception.value.queue == run.rest
        && called[t] == calledBefore + run.called
        && unhandled[t] == unhandledBefore + run.unhandled
    }

    constructor ()
      ensures Valid()
      ensures interception.None? && called == map[] && unhandled == map[]
    {
      interception := None;
      called := map[];
      unhandled := map[];
      armedQueue, seen, calledBefore, unhandledBefore := [], [], [], [];
    }

    /** `mockHttpRequests(test)`: installs the interception for `test` with a
        fresh copy of its queue, creating its result lists only if absent. */
    method MockHttpRequests(test: TestId, requests: seq<Expectation>)
      requires Valid()
      modifies this
      ensures Valid()
      ensures interception == Some(Interception(test, requests))
      ensures called == if test in old(called) then old(called) else old(called)[test := []]
      ensures unhandled == if test in old(unhandled) then old(unhandled) else old(unhandled)[test := []]
      ensures seen == [] && armedQueue == requests
      ensures calledBefore == called[test] && unhandledBefore == unhandled[test]
    {
      if test !in called {
        called := called[test := []];
      }
      if test !in unhandled {
        unhandled := unhandled[test := []];
      }
      interception := Some(Interception(test, requests));
      armedQueue, seen := requests, [];
      calledBefore, unhandledBefore := called[test], unhandled[test];
    }

    /** The interception handler for one request. `Some` is the canned
        response of a match; `None` lets the request through unanswered.
        Without an interception nothing is recorded. */
    method Intercept(q: Request) returns (response: Option<Response>)
      requires Valid()
      modifies this
      ensures Valid()
      ensures armedQueue == old(armedQueue) && calledBefore == old(calledBefore) && unhandledBefore == old(unhandledBefore)
      ensures old(interception).None? ==>
                && response.None? && interception == old(interception) && seen == old(seen)
                && called == old(called) && unhandled == old(unhandled)
      ensures old(interception).Some? ==>
                var t := old(interception).value.test;
                var step := Handle(old(interception).value.queue, q);
                && interception == Some(Interception(t, step.rest))
                && seen == old(seen) + [q]
                && (step.matched.Some? ==>
                      && response == Some(step.matched.value.response)
                      && called == old(called)[t := old(called)[t] + [step.matched.value]]
                      && unhandled == old(unhandled))
                && (step.matched.None? ==>
                      && response.None?
                      && called == old(called)
                      && unhandled == old(unhandled)[t := old(unhandled)[t] + [UnhandledRecord(q)]])
    {
      match interception
      case None =>
        response := None;
      case Some(Interception(t, queue)) =>
        var step := Handle(queue, q);
        ghost var before := Replay(armedQueue, seen);
        ReplayOneMore(armedQueue, seen, q);
        ghost var after := Replay(armedQueue, seen + [q]);
        interception := Some(Interception(t, step.rest));
        seen := seen + [q];
        match step.matched
        case Some(m) =>
          assert after.called == before.called + [m];
          assert calledBefore + after.called == (calledBefore + before.called) + [m];
          called := called[t := called[t] + [m]];
          response := Some(m.response);
        case None =>
          assert after.unhandled == before.unhandled + [UnhandledRecord(q)];
          assert unhandledBefore + after.unhandled == (unhandledBefore + before.unhandled) + [UnhandledRecord(q)];
          unhandled := unhandled[t := unhandled[t] + [UnhandledRecord(q)]];
          response := None;
    }

    /** `getMockResults(test)`: the lists in arrival order, or empty lists for
        a test that never installed an interception. */
    function GetMockResults(test: TestId): (r: MockResults)
      reads this
      ensures test in called ==> r.called == called[test]
      ensures test !in called ==> r.called == []
      ensures test in unhandled ==> r.unhandled == unhandled[test]
      ensures test !in unhandled ==> r.unhandled == []
    {
      MockResults(
        if test in called then called[test] else [],
        if test in unhandled then unhandled[test] else [])
    }
  }
}
