/**
 * The update worker: a single loop that takes update requests one at a time,
 * in the order they were submitted, runs the updater on each request's
 * import path pattern and sends the result on that request's own result
 * channel before it takes the next request.
 *
 * The updater (`go get -u` on the workspace) is a parameter: a function from
 * the workspace state and a pattern to the new workspace state and the error
 * it returned. The request channel is the sequence of requests.
 */
module UpdateWorker {
  import opened Wrappers

  /** A request to update the packages matching a pattern, with the channel its result goes to. */
  datatype UpdateRequest = UpdateRequest(importPathPattern: string, resultChan: nat)

  /** The error updater.Update returns; None stands for nil. */
  type UpdateError = Option<string>

  /** A result sent on a result channel. */
  datatype Delivery = Delivery(resultChan: nat, err: UpdateError)

  /**
   * Serving `requests` one at a time from `workspace`: the final workspace
   * and the results sent, in order.
   */
  function Serve<W>(workspace: W, requests: seq<UpdateRequest>, update: (W, string) -> (W, UpdateError)): (W, seq<Delivery>)
  {
    if requests == [] then (workspace, [])
    else
      var served := Serve(workspace, requests[..|requests| - 1], update);
      var last := requests[|requests| - 1];
      var outcome := update(served.0, last.importPathPattern);
      (outcome.0, served.1 + [Delivery(last.resultChan, outcome.1)])
  }

  /**
   * Request i gets exactly one result, on its own channel, and that result is
   * what the updater returns for its pattern on the workspace left by the
   * requests submitted before it.
   */
  lemma {:induction false} ServeAnswersEachRequest<W>(workspace: W, requests: seq<UpdateRequest>,
                                                      update: (W, string) -> (W, UpdateError))
    ensures var delivered := Serve(workspace, requests, update).1;
      && |delivered| == |requests|
      && forall i :: 0 <= i < |requests| ==>
           && delivered[i].resultChan == requests[i].resultChan
           && delivered[i].err == update(Serve(workspace, requests[..i], update).0, requests[i].importPathPattern).1
  {
    if requests != [] {
      var init, last := requests[..|requests| - 1], requests[|requests| - 1];
      ServeAnswersEachRequest(workspace, init, update);
      var served := Serve(workspace, init, update);
      var delivered := Serve(workspace, requests, update).1;
      assert delivered == served.1 + [Delivery(last.resultChan, update(served.0, last.importPathPattern).1)];
      forall i | 0 <= i < |requests|
        ensures delivered[i].resultChan == requests[i].resultChan
        ensures delivered[i].err == update(Serve(workspace, requests[..i], update).0, requests[i].importPathPattern).1
      {
        if i < |init| {
          assert init[..i] == requests[..i];
        } else {
          assert requests[..i] == init;
        }
      }
    }
  }

  /**
   * Serving is strictly sequential: serving `a` and then `b` is serving
   * `a + b`; no request of `b` starts before every request of `a` has its
   * result.
   */
  lemma {:induction false} ServeSequential<W>(workspace: W, a: seq<UpdateRequest>, b: seq<UpdateRequest>,
                                              update: (W, string) -> (W, UpdateError))
    ensures var first := Serve(workspace, a, update);
            var second := Serve(first.0, b, update);
      Serve(workspace, a + b, update) == (second.0, first.1 + second.1)
    decreases |b|
  {
    if b == [] {
      var first := Serve(workspace, a, update);
      assert a + b == a;
      assert Serve(first.0, b, update) == (first.0, []);
      assert first.1 + [] == first.1;
    } else {
      var init, last := b[..|b| - 1], b[|b| - 1];
      assert (a + b)[..|a + b| - 1] == a + init;
      assert (a + b)[|a + b| - 1] == last;
      ServeSequential(workspace, a, init, update);
      var first := Serve(workspace, a, update);
      var mid := Serve(first.0, init, update);
      var outcome := update(mid.0, last.importPathPattern);
      assert Serve(first.0, b, update) == (outcome.0, mid.1 + [Delivery(last.resultChan, outcome.1)]);
      var d := Delivery(last.resultChan, outcome.1);
      assert Serve(workspace, a + b, update) == (outcome.0, (first.1 + mid.1) + [d]);
      assert (first.1 + mid.1) + [d] == first.1 + (mid.1 + [d]);
    }
  }

  /** How many of `delivered` went to channel `c`. */
  function DeliveriesTo(delivered: seq<Delivery>, c: nat): nat
  {
    if delivered == [] then 0
    else DeliveriesTo(delivered[..|delivered| - 1], c) + if delivered[|delivered| - 1].resultChan == c then 1 else 0
  }

  lemma {:induction false} DeliveriesToAbsent(delivered: seq<Delivery>, c: nat)
    requires forall i :: 0 <= i < |delivered| ==> delivered[i].resultChan != c
    ensures DeliveriesTo(delivered, c) == 0
  {
    if delivered != [] {
      DeliveriesToAbsent(delivered[..|delivered| - 1], c);
    }
  }

  lemma {:induction false} DeliveriesToOnce(delivered: seq<Delivery>, k: nat)
    requires k < |delivered|
    requires forall i, j :: 0 <= i < j < |delivered| ==> delivered[i].resultChan != delivered[j].resultChan
    ensures DeliveriesTo(delivered, delivered[k].resultChan) == 1
  {
    var init := delivered[..|delivered| - 1];
    var c := delivered[k].resultChan;
    if k == |delivered| - 1 {
      DeliveriesToAbsent(init, c);
    } else {
      DeliveriesToOnce(init, k);
    }
  }

  /**
   * When every request has its own result channel (each handler makes a new
   * one), every channel receives exactly one result.
   */
  lemma ServeFulfilsEachChannelOnce<W>(workspace: W, requests: seq<UpdateRequest>,
                                       update: (W, string) -> (W, UpdateError), k: nat)
    requires k < |requests|
    requires forall i, j :: 0 <= i < j < |requests| ==> requests[i].resultChan != requests[j].resultChan
    ensures DeliveriesTo(Serve(workspace, requests, update).1, requests[k].resultChan) == 1
  {
    ServeAnswersEachRequest(workspace, requests, update);
    DeliveriesToOnce(Serve(workspace, requests, update).1, k);
  }

  /** The patterns of `requests`, in order. */
  function Patterns(requests: seq<UpdateRequest>): (patterns: seq<string>)
    ensures |patterns| == |requests|
    ensures forall i :: 0 <= i < |requests| ==> patterns[i] == requests[i].importPathPattern
  {
    seq(|requests|, i requires 0 <= i < |requests| => requests[i].importPathPattern)
  }

  /**
   * An updater that only records the pattern it is called with. Serving with
   * it leaves the log of every call made: one per request, with that
   * request's pattern, in submission order, and each call answers nil.
   */
  lemma {:induction false} ServeCallsUpdaterOncePerRequest(log: seq<string>, requests: seq<UpdateRequest>)
    ensures var served := Serve(log, requests, (w: seq<string>, pattern: string) => (w + [pattern], None));
      && served.0 == log + Patterns(requests)
      && forall i :: 0 <= i < |served.1| ==> served.1[i].err == None
  {
    var update := (w: seq<string>, pattern: string) => (w + [pattern], None);
    if requests != [] {
      var init := requests[..|requests| - 1];
      ServeCallsUpdaterOncePerRequest(log, init);
      assert Patterns(requests) == Patterns(init) + [requests[|requests| - 1].importPathPattern];
      assert Serve(log, requests, update).0 == Serve(log, init, update).0 + [requests[|requests| - 1].importPathPattern];
    }
  }

  /** The worker loop: serves the requests one at a time, in order. */
  method RunUpdateWorker<W>(workspace: W, requests: seq<UpdateRequest>, update: (W, string) -> (W, UpdateError))
    returns (delivered: seq<Delivery>, final: W)
    ensures delivered == Serve(workspace, requests, update).1
    ensures final == Serve(workspace, requests, update).0
  {
    delivered, final := [], workspace;
    for i := 0 to |requests|
      invariant final == Serve(workspace, requests[..i], update).0
      invariant delivered == Serve(workspace, requests[..i], update).1
    {
      var request := requests[i];
      assert requests[..i + 1][..i] == requests[..i];
      var outcome := update(final, request.importPathPattern);
      final := outcome.0;
      delivered := delivered + [Delivery(request.resultChan, outcome.1)];
    }
    assert requests[..|requests|] == requests;
  }
}
