/** The submission loop of downloadImages: one export request per grid
    instant, in grid order, collecting the returned export ids and counting
    the replies that are not JSON objects. */
module Submission {
  import opened Wrappers
  import opened ExportApi

  /** The export endpoint as an oracle: the reply to the k-th request of the
      batch, given that request. */
  type CreateOracle = (nat, ExportCall) -> CreateReply

  /** The requests of a batch: one per instant, in order, each with the
      wide-angle filter, as downloadImages sends them. */
  function ExportCalls(deviceId: string, grid: seq<int>): (calls: seq<ExportCall>)
    ensures |calls| == |grid|
  {
    if grid == [] then []
    else ExportCalls(deviceId, grid[..|grid| - 1]) + [ExportCall(deviceId, ExportBody(grid[|grid| - 1], true))]
  }

  /** Each request carries its own instant and the wide-angle filter. */
  lemma {:induction false} ExportCallsAt(deviceId: string, grid: seq<int>, k: nat)
    requires k < |grid|
    ensures |ExportCalls(deviceId, grid)| == |grid|
    ensures ExportCalls(deviceId, grid)[k].deviceId == deviceId
    ensures TimeOf(ExportCalls(deviceId, grid)[k].body) == Some(grid[k])
    ensures FiltersOf(ExportCalls(deviceId, grid)[k].body) == [WideAngleCorrection]
    decreases |grid|
  {
    if k < |grid| - 1 {
      ExportCallsAt(deviceId, grid[..|grid| - 1], k);
    } else {
      ExportBodyRoundTrip(grid[k], true);
    }
  }

  /** The replies the oracle gives to a sequence of requests. */
  function Replies(create: CreateOracle, calls: seq<ExportCall>): (rs: seq<CreateReply>)
    ensures |rs| == |calls|
  {
    seq(|calls|, k requires 0 <= k < |calls| => create(k, calls[k]))
  }

  /** The id a reply contributes: only an object carrying an "exportId". */
  function IdOf(reply: CreateReply): seq<ExportId>
  {
    if reply.Created? && reply.exportId.Some? then [reply.exportId.value] else []
  }

  /** The collected ids, in the order of the replies. */
  function CollectedIds(rs: seq<CreateReply>): seq<ExportId>
  {
    if rs == [] then [] else CollectedIds(rs[..|rs| - 1]) + IdOf(rs[|rs| - 1])
  }

  /** The number of replies that are not JSON objects. */
  function FailureCount(rs: seq<CreateReply>): nat
  {
    if rs == [] then 0
    else FailureCount(rs[..|rs| - 1]) + (if rs[|rs| - 1].NotAnObject? then 1 else 0)
  }

  /** Every request ends as a collected id, a failure, or neither (an object
      without "exportId", which is silently dropped): so ids plus failures
      never exceed the requests, with equality exactly when no reply is an
      object without an id. */
  lemma {:induction false} SubmissionAccounting(rs: seq<CreateReply>)
    ensures |CollectedIds(rs)| + FailureCount(rs) <= |rs|
    ensures |CollectedIds(rs)| + FailureCount(rs) == |rs| <==>
            forall k :: 0 <= k < |rs| ==> rs[k] != Created(None)
    decreases |rs|
  {
    if rs != [] {
      var init := rs[..|rs| - 1];
      SubmissionAccounting(init);
      if forall k :: 0 <= k < |rs| ==> rs[k] != Created(None) {
        assert forall k :: 0 <= k < |init| ==> init[k] != Created(None) by {
          forall k | 0 <= k < |init| ensures init[k] != Created(None) {
            assert init[k] == rs[k];
          }
        }
      } else if rs[|rs| - 1] != Created(None) {
        var k :| 0 <= k < |rs| && rs[k] == Created(None);
        assert init[k] == rs[k];
      }
    }
  }

  /** Collected ids keep the order of the replies: the ids of two runs of
      replies are the ids of the first followed by those of the second. */
  lemma {:induction false} CollectedIdsAppend(a: seq<CreateReply>, b: seq<CreateReply>)
    ensures CollectedIds(a + b) == CollectedIds(a) + CollectedIds(b)
    decreases |b|
  {
    if b == [] {
      assert a + b == a;
    } else {
      assert (a + b)[..|a + b| - 1] == a + b[..|b| - 1];
      CollectedIdsAppend(a, b[..|b| - 1]);
    }
  }

  /** Every collected id is the "exportId" of some reply. */
  lemma {:induction false} CollectedIdsFromReplies(rs: seq<CreateReply>, id: ExportId)
    requires id in CollectedIds(rs)
    ensures exists k :: 0 <= k < |rs| && rs[k] == Created(Some(id))
    decreases |rs|
  {
    var init := rs[..|rs| - 1];
    if id in CollectedIds(init) {
      CollectedIdsFromReplies(init, id);
      var k :| 0 <= k < |init| && init[k] == Created(Some(id));
      assert rs[k] == init[k];
    } else {
      assert rs[|rs| - 1] == Created(Some(id));
    }
  }

  /** The loop of downloadImages that submits one export per instant. */
  method Submit(deviceId: string, grid: seq<int>, create: CreateOracle)
    returns (calls: seq<ExportCall>, ids: seq<ExportId>, failures: nat)
    ensures calls == ExportCalls(deviceId, grid)
    ensures ids == CollectedIds(Replies(create, calls))
    ensures failures == FailureCount(Replies(create, calls))
  {
    calls, ids, failures := [], [], 0;
    var i := 0;
    while i < |grid|
      invariant 0 <= i <= |grid|
      invariant calls == ExportCalls(deviceId, grid[..i])
      invariant ids == CollectedIds(Replies(create, calls))
      invariant failures == FailureCount(Replies(create, calls))
    {
      var call := ExportCall(deviceId, ExportBody(grid[i], true));
      var reply := create(|calls|, call);
      ghost var before := Replies(create, calls);
      calls := calls + [call];
      assert grid[..i + 1][..i] == grid[..i];
      assert Replies(create, calls) == before + [reply];
      if reply.Created? {
        if reply.exportId.Some? {
          ids := ids + [reply.exportId.value];
        }
      } else {
        failures := failures + 1;
      }
      i := i + 1;
    }
    assert grid[..i] == grid;
  }
}
