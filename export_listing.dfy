/** The status listing of listSoraCamExportImages: it follows the
    "x-soracom-next-key" cursor page by page, accumulating every non-empty
    page and striking the ids it sees off a copy of the requested ids, until
    that worklist is empty. An empty page, or a page with no cursor while ids
    are still outstanding, makes the loop send the same request again, so the
    loop need not end; `fuel` bounds the number of requests and `Stalled` is
    the model's name for "still requesting when the fuel ran out". */
module ExportListing {
  import opened Wrappers
  import opened ExportApi

  /** The query of one listing request. */
  datatype ListQuery = ListQuery(deviceId: string, limit: nat, lastEvaluatedKey: Option<string>)

  /** The listing endpoint as an oracle: the reply to the k-th request of one
      listing, given that request. */
  type ListOracle = (nat, ListQuery) -> PageReply<ExportRecord>

  // ---------------------------------------------------------------------------
  // The worklist
  // ---------------------------------------------------------------------------

  /** Python's `list.remove(x)`: drop the first occurrence of `x`. */
  function RemoveFirst(wl: seq<ExportId>, x: ExportId): (r: seq<ExportId>)
    ensures x in wl ==> |r| == |wl| - 1
    ensures x !in wl ==> r == wl
  {
    if wl == [] then []
    else if wl[0] == x then wl[1..]
    else [wl[0]] + RemoveFirst(wl[1..], x)
  }

  lemma {:induction false} RemoveFirstMultiset(wl: seq<ExportId>, x: ExportId)
    requires x in wl
    ensures multiset(RemoveFirst(wl, x)) == multiset(wl) - multiset{x}
    decreases |wl|
  {
    assert wl == [wl[0]] + wl[1..];
    if wl[0] != x {
      RemoveFirstMultiset(wl[1..], x);
    }
  }

  /** The worklist after the strike loop over one run of records: each record
      whose "exportId" is still in the worklist removes one occurrence. */
  function Strike(wl: seq<ExportId>, items: seq<ExportRecord>): seq<ExportId>
    decreases |items|
  {
    if items == [] then wl
    else
      var x := items[0].exportId;
      Strike(if x.Some? && x.value in wl then RemoveFirst(wl, x.value) else wl, items[1..])
  }

  /** The "exportId"s present in a run of records, in order. */
  function IdsOf(items: seq<ExportRecord>): seq<ExportId>
  {
    if items == [] then []
    else (if items[0].exportId.Some? then [items[0].exportId.value] else []) + IdsOf(items[1..])
  }

  lemma {:induction false} IdsOfMember(items: seq<ExportRecord>, id: ExportId)
    requires id in IdsOf(items)
    ensures exists j :: 0 <= j < |items| && items[j].exportId == Some(id)
    decreases |items|
  {
    if items[0].exportId != Some(id) {
      IdsOfMember(items[1..], id);
      var j :| 0 <= j < |items| - 1 && items[1..][j].exportId == Some(id);
      assert items[j + 1].exportId == Some(id);
    }
  }

  /** Striking is multiset difference: what is left of the worklist is the
      requested ids minus the ids seen. */
  lemma {:induction false} StrikeMultiset(wl: seq<ExportId>, items: seq<ExportRecord>)
    ensures multiset(Strike(wl, items)) == multiset(wl) - multiset(IdsOf(items))
    decreases |items|
  {
    if items != [] {
      var x := items[0].exportId;
      var wl' := if x.Some? && x.value in wl then RemoveFirst(wl, x.value) else wl;
      StrikeMultiset(wl', items[1..]);
      if x.Some? {
        if x.value in wl {
          RemoveFirstMultiset(wl, x.value);
        }
        assert multiset(wl') == multiset(wl) - multiset{x.value};
        assert multiset(IdsOf(items)) == multiset{x.value} + multiset(IdsOf(items[1..]));
      }
    }
  }

  /** The worklist empties exactly when every requested id (with its
      multiplicity) has been seen. */
  lemma StrikeEmpty(wl: seq<ExportId>, items: seq<ExportRecord>)
    ensures Strike(wl, items) == [] <==> multiset(wl) <= multiset(IdsOf(items))
  {
    StrikeMultiset(wl, items);
    if multiset(wl) <= multiset(IdsOf(items)) {
      assert multiset(Strike(wl, items)) == multiset{};
    } else {
      var y :| multiset(wl)[y] > multiset(IdsOf(items))[y];
      assert y in multiset(Strike(wl, items));
    }
  }

  lemma {:induction false} StrikeAppend(wl: seq<ExportId>, a: seq<ExportRecord>, b: seq<ExportRecord>)
    ensures Strike(wl, a + b) == Strike(Strike(wl, a), b)
    decreases |a|
  {
    if a == [] {
      assert a + b == b;
    } else {
      assert (a + b)[0] == a[0];
      assert (a + b)[1..] == a[1..] + b;
      var x := a[0].exportId;
      StrikeAppend(if x.Some? && x.value in wl then RemoveFirst(wl, x.value) else wl, a[1..], b);
    }
  }

  // ---------------------------------------------------------------------------
  // The pagination loop
  // ---------------------------------------------------------------------------

  /** How a listing ends: with the accumulated list (the worklist emptied),
      with an HTTP or transport error (`None` in the source), or still
      requesting when the fuel ran out. */
  datatype ListOutcome = Listed(records: seq<ExportRecord>) | HttpFailed | Stalled

  /** A listing with its trace: the requests sent and the replies received. */
  datatype ListRun = ListRun(outcome: ListOutcome, queries: seq<ListQuery>, replies: seq<PageReply<ExportRecord>>)

  /** The loop state: the next request, the accumulated result, the worklist,
      and the trace so far. */
  datatype Cursor = Cursor(query: ListQuery, acc: seq<ExportRecord>, worklist: seq<ExportId>,
                           queries: seq<ListQuery>, replies: seq<PageReply<ExportRecord>>)

  /** The first request: page size equal to the number of requested ids, no
      cursor. */
  function FirstQuery(deviceId: string, ids: seq<ExportId>): ListQuery
  {
    ListQuery(deviceId, |ids|, None)
  }

  function Start(deviceId: string, ids: seq<ExportId>): Cursor
  {
    Cursor(FirstQuery(deviceId, ids), [], ids, [], [])
  }

  /** The request after a reply: the cursor is taken over only from a
      non-empty list page that carries one; otherwise the same request is
      sent again. */
  function NextQuery(q: ListQuery, reply: PageReply<ExportRecord>): ListQuery
  {
    if Advances(reply) && reply.value.nextKey.Some? then q.(lastEvaluatedKey := reply.value.nextKey) else q
  }

  /** The state after one reply that is a page: the request and the reply
      join the trace, a non-empty page joins the result and strikes its ids
      off the worklist (an empty or non-list page changes neither). */
  function Step(c: Cursor, reply: PageReply<ExportRecord>): Cursor
  {
    Cursor(NextQuery(c.query, reply), c.acc + PageItems(reply), Strike(c.worklist, PageItems(reply)),
           c.queries + [c.query], c.replies + [reply])
  }

  /** The loop as a function of its state, with at most `fuel` more requests.
      It returns once a non-empty page leaves the worklist empty. */
  function Drain(fetch: ListOracle, c: Cursor, fuel: nat): ListRun
    decreases fuel
  {
    if fuel == 0 then ListRun(Stalled, c.queries, c.replies)
    else
      var reply := fetch(|c.queries|, c.query);
      if reply.None? then ListRun(HttpFailed, c.queries + [c.query], c.replies + [reply])
      else
        var n := Step(c, reply);
        if Advances(reply) && |n.worklist| == 0 then ListRun(Listed(n.acc), n.queries, n.replies)
        else Drain(fetch, n, fuel - 1)
  }

  /** listSoraCamExportImages. The worklist is a fresh value (the source's deep
      copy), so the caller's ids are never changed. */
  method ListExportImages(deviceId: string, ids: seq<ExportId>, fetch: ListOracle, fuel: nat)
    returns (run: ListRun)
    ensures run == Drain(fetch, Start(deviceId, ids), fuel)
  {
    var query := FirstQuery(deviceId, ids);
    var ret: seq<ExportRecord> := [];
    var wl := ids;
    var queries: seq<ListQuery> := [];
    var replies: seq<PageReply<ExportRecord>> := [];
    while |queries| < fuel
      invariant |queries| <= fuel
      invariant Drain(fetch, Cursor(query, ret, wl, queries, replies), fuel - |queries|) ==
                Drain(fetch, Start(deviceId, ids), fuel)
    {
      var reply := fetch(|queries|, query);
      queries, replies := queries + [query], replies + [reply];
      if reply.None? {
        run := ListRun(HttpFailed, queries, replies);
        return;
      }
      var page := reply.value;
      if page.body.Some? && |page.body.value| > 0 {
        var data := page.body.value;
        ret := ret + data;
        ghost var before := wl;
        var i := 0;
        while i < |data|
          invariant 0 <= i <= |data|
          invariant wl == Strike(before, data[..i])
        {
          var x := data[i].exportId;
          StrikeAppend(before, data[..i], [data[i]]);
          assert data[..i + 1] == data[..i] + [data[i]];
          if x.Some? && x.value in wl {
            wl := RemoveFirst(wl, x.value);
          }
          i := i + 1;
        }
        assert data[..i] == data;
        if |wl| > 0 {
          if page.nextKey.Some? {
            query := query.(lastEvaluatedKey := page.nextKey);
          }
        } else {
          run := ListRun(Listed(ret), queries, replies);
          return;
        }
      } else {
        assert ret + PageItems(reply) == ret;
      }
    }
    run := ListRun(Stalled, queries, replies);
  }

  // ---------------------------------------------------------------------------
  // What a listing guarantees
  // ---------------------------------------------------------------------------

  /** The request trace follows the protocol, stated from the last request
      back: each reply is the oracle's answer to its request, the first
      request is `FirstQuery`, and each later one is `NextQuery` of the
      request and reply before it. */
  ghost predicate Protocol(deviceId: string, ids: seq<ExportId>, fetch: ListOracle,
                           queries: seq<ListQuery>, replies: seq<PageReply<ExportRecord>>)
    decreases |queries|
  {
    |queries| == |replies| &&
    (|queries| > 0 ==>
      var n := |queries| - 1;
      Protocol(deviceId, ids, fetch, queries[..n], replies[..n]) &&
      replies[n] == fetch(n, queries[n]) &&
      queries[n] == if n == 0 then FirstQuery(deviceId, ids) else NextQuery(queries[n - 1], replies[n - 1]))
  }

  /** Nothing in these replies ended the loop: each was a page, and after
      each non-empty one some requested id was still missing. */
  ghost predicate Continued(ids: seq<ExportId>, replies: seq<PageReply<ExportRecord>>)
    decreases |replies|
  {
    replies != [] ==>
      var n := |replies| - 1;
      Continued(ids, replies[..n]) && replies[n].Some? &&
      (Advances(replies[n]) ==> Strike(ids, Harvest(replies)) != [])
  }

  /** The loop state is the one reached by following the protocol. */
  ghost predicate Traced(deviceId: string, ids: seq<ExportId>, fetch: ListOracle, c: Cursor)
  {
    Protocol(deviceId, ids, fetch, c.queries, c.replies) &&
    c.query == (if |c.queries| == 0 then FirstQuery(deviceId, ids)
                else NextQuery(c.queries[|c.queries| - 1], c.replies[|c.replies| - 1])) &&
    Continued(ids, c.replies) &&
    c.acc == Harvest(c.replies) &&
    c.worklist == Strike(ids, c.acc)
  }

  /** How the run of a listing ends: nothing but its last reply (if it did
      not stall) ended the loop, and an HTTP error is that reply. */
  ghost predicate Ending(ids: seq<ExportId>, run: ListRun)
  {
    if run.outcome.Stalled? then Continued(ids, run.replies)
    else
      var n := |run.replies| - 1;
      n >= 0 && Continued(ids, run.replies[..n]) &&
      (run.outcome.HttpFailed? ==> run.replies[n] == None)
  }

  /** A returned list is everything harvested, its last page was non-empty,
      and it leaves the worklist empty. */
  ghost predicate ListedResult(ids: seq<ExportId>, run: ListRun)
  {
    run.outcome.Listed? ==>
      |run.replies| > 0 && Advances(run.replies[|run.replies| - 1]) &&
      run.outcome.records == Harvest(run.replies) &&
      Strike(ids, run.outcome.records) == []
  }

  /** The trace and the accumulated result after one more request. */
  lemma TracedStep(deviceId: string, ids: seq<ExportId>, fetch: ListOracle, c: Cursor)
    requires Traced(deviceId, ids, fetch, c)
    ensures var reply := fetch(|c.queries|, c.query);
      Protocol(deviceId, ids, fetch, c.queries + [c.query], c.replies + [reply]) &&
      Harvest(c.replies + [reply]) == c.acc + PageItems(reply) &&
      Strike(ids, Harvest(c.replies + [reply])) == Strike(c.worklist, PageItems(reply))
  {
    var reply := fetch(|c.queries|, c.query);
    assert (c.queries + [c.query])[..|c.queries|] == c.queries;
    assert (c.replies + [reply])[..|c.replies|] == c.replies;
    StrikeAppend(ids, c.acc, PageItems(reply));
  }

  /** A reply that is a page and does not end the loop leads to a traced
      state. */
  lemma StepTraced(deviceId: string, ids: seq<ExportId>, fetch: ListOracle, c: Cursor)
    requires Traced(deviceId, ids, fetch, c)
    requires fetch(|c.queries|, c.query).Some?
    requires Advances(fetch(|c.queries|, c.query)) ==>
             Strike(c.worklist, PageItems(fetch(|c.queries|, c.query))) != []
    ensures Traced(deviceId, ids, fetch, Step(c, fetch(|c.queries|, c.query)))
  {
    var reply := fetch(|c.queries|, c.query);
    TracedStep(deviceId, ids, fetch, c);
    assert (c.replies + [reply])[..|c.replies|] == c.replies;
  }

  /** The run a traced state ends with when its next reply ends the loop. */
  lemma EndFacts(deviceId: string, ids: seq<ExportId>, fetch: ListOracle, c: Cursor, fuel: nat)
    requires Traced(deviceId, ids, fetch, c) && fuel > 0
    requires var reply := fetch(|c.queries|, c.query);
      reply.None? || (Advances(reply) && |Strike(c.worklist, PageItems(reply))| == 0)
    ensures Protocol(deviceId, ids, fetch, Drain(fetch, c, fuel).queries, Drain(fetch, c, fuel).replies)
    ensures Ending(ids, Drain(fetch, c, fuel))
    ensures ListedResult(ids, Drain(fetch, c, fuel))
  {
    var reply := fetch(|c.queries|, c.query);
    TracedStep(deviceId, ids, fetch, c);
    assert (c.replies + [reply])[..|c.replies|] == c.replies;
  }

  /** Every run from a traced state follows the protocol. */
  lemma {:induction false} DrainProtocol(deviceId: string, ids: seq<ExportId>, fetch: ListOracle, c: Cursor, fuel: nat)
    requires Traced(deviceId, ids, fetch, c)
    ensures Protocol(deviceId, ids, fetch, Drain(fetch, c, fuel).queries, Drain(fetch, c, fuel).replies)
    decreases fuel
  {
    if fuel > 0 {
      var reply := fetch(|c.queries|, c.query);
      if reply.None? || (Advances(reply) && |Step(c, reply).worklist| == 0) {
        EndFacts(deviceId, ids, fetch, c, fuel);
      } else {
        StepTraced(deviceId, ids, fetch, c);
        DrainProtocol(deviceId, ids, fetch, Step(c, reply), fuel - 1);
      }
    }
  }

  /** Every run from a traced state ends as `Ending` says. */
  lemma {:induction false} DrainEnding(deviceId: string, ids: seq<ExportId>, fetch: ListOracle, c: Cursor, fuel: nat)
    requires Traced(deviceId, ids, fetch, c)
    ensures Ending(ids, Drain(fetch, c, fuel))
    decreases fuel
  {
    if fuel > 0 {
      var reply := fetch(|c.queries|, c.query);
      if reply.None? || (Advances(reply) && |Step(c, reply).worklist| == 0) {
        EndFacts(deviceId, ids, fetch, c, fuel);
      } else {
        StepTraced(deviceId, ids, fetch, c);
        DrainEnding(deviceId, ids, fetch, Step(c, reply), fuel - 1);
      }
    }
  }

  /** Every run from a traced state that returns a list returns what
      `ListedResult` says. */
  lemma {:induction false} DrainListed(deviceId: string, ids: seq<ExportId>, fetch: ListOracle, c: Cursor, fuel: nat)
    requires Traced(deviceId, ids, fetch, c)
    ensures ListedResult(ids, Drain(fetch, c, fuel))
    decreases fuel
  {
    if fuel > 0 {
      var reply := fetch(|c.queries|, c.query);
      if reply.None? || (Advances(reply) && |Step(c, reply).worklist| == 0) {
        EndFacts(deviceId, ids, fetch, c, fuel);
      } else {
        StepTraced(deviceId, ids, fetch, c);
        DrainListed(deviceId, ids, fetch, Step(c, reply), fuel - 1);
      }
    }
  }

  /** A run from any state makes at most `fuel` more requests, exactly
      `fuel` when it stalls. */
  lemma {:induction false} DrainLength(fetch: ListOracle, c: Cursor, fuel: nat)
    ensures var run := Drain(fetch, c, fuel);
      |c.queries| <= |run.queries| <= |c.queries| + fuel &&
      (run.outcome.Stalled? ==> |run.queries| == |c.queries| + fuel)
    decreases fuel
  {
    if fuel > 0 {
      var reply := fetch(|c.queries|, c.query);
      if reply.Some? {
        DrainLength(fetch, Step(c, reply), fuel - 1);
      }
    }
  }

  /** The protocol, request by request. */
  lemma {:induction false} ProtocolAt(deviceId: string, ids: seq<ExportId>, fetch: ListOracle,
                                      queries: seq<ListQuery>, replies: seq<PageReply<ExportRecord>>)
    requires Protocol(deviceId, ids, fetch, queries, replies)
    ensures |queries| == |replies|
    ensures |queries| > 0 ==> queries[0] == FirstQuery(deviceId, ids)
    ensures forall k :: 0 <= k < |queries| ==>
      replies[k] == fetch(k, queries[k]) && queries[k].deviceId == deviceId && queries[k].limit == |ids|
    ensures forall k :: 0 <= k < |queries| - 1 ==> queries[k + 1] == NextQuery(queries[k], replies[k])
    decreases |queries|
  {
    if |queries| > 0 {
      var n := |queries| - 1;
      var qs, rs := queries[..n], replies[..n];
      ProtocolAt(deviceId, ids, fetch, qs, rs);
      assert forall k :: 0 <= k < n ==> queries[k] == qs[k] && replies[k] == rs[k];
    }
  }

  /** Continuing, reply by reply. */
  lemma {:induction false} ContinuedAt(ids: seq<ExportId>, replies: seq<PageReply<ExportRecord>>)
    requires Continued(ids, replies)
    ensures forall k :: 0 <= k < |replies| ==>
      replies[k].Some? && (Advances(replies[k]) ==> Strike(ids, Harvest(replies[..k + 1])) != [])
    decreases |replies|
  {
    if replies != [] {
      var n := |replies| - 1;
      var rs := replies[..n];
      ContinuedAt(ids, rs);
      assert replies[..n + 1] == replies;
      forall k | 0 <= k < n
        ensures replies[k].Some? && (Advances(replies[k]) ==> Strike(ids, Harvest(replies[..k + 1])) != [])
      {
        assert replies[k] == rs[k] && replies[..k + 1] == rs[..k + 1];
      }
    }
  }

  /** Every listing follows the protocol: its requests all go to the device
      with page size `|ids|`, the first without a cursor, each next one
      derived from the reply before it, and at most `fuel` of them, all of
      them when it stalls. Each reply is the oracle's answer. Every reply but
      the last was a page and every non-empty one left some requested id
      outstanding. */
  lemma ListingTrace(deviceId: string, ids: seq<ExportId>, fetch: ListOracle, fuel: nat)
    ensures var run := Drain(fetch, Start(deviceId, ids), fuel);
      var qs, rs := run.queries, run.replies;
      |qs| == |rs| <= fuel &&
      (run.outcome.Stalled? ==> |qs| == fuel) &&
      (|qs| > 0 ==> qs[0] == ListQuery(deviceId, |ids|, None)) &&
      (forall k :: 0 <= k < |qs| ==>
        rs[k] == fetch(k, qs[k]) && qs[k].deviceId == deviceId && qs[k].limit == |ids|) &&
      (forall k :: 0 <= k < |qs| - 1 ==> qs[k + 1] == NextQuery(qs[k], rs[k])) &&
      (forall k :: 0 <= k < |rs| - 1 ==>
        rs[k].Some? && (Advances(rs[k]) ==> Strike(ids, Harvest(rs[..k + 1])) != []))
  {
    var run := Drain(fetch, Start(deviceId, ids), fuel);
    DrainProtocol(deviceId, ids, fetch, Start(deviceId, ids), fuel);
    DrainEnding(deviceId, ids, fetch, Start(deviceId, ids), fuel);
    DrainLength(fetch, Start(deviceId, ids), fuel);
    ProtocolAt(deviceId, ids, fetch, run.queries, run.replies);
    var rs := run.replies;
    if run.outcome.Stalled? {
      ContinuedAt(ids, rs);
    } else {
      var n := |rs| - 1;
      ContinuedAt(ids, rs[..n]);
      forall k | 0 <= k < n
        ensures rs[k].Some? && (Advances(rs[k]) ==> Strike(ids, Harvest(rs[..k + 1])) != [])
      {
        assert rs[k] == rs[..n][k] && rs[..k + 1] == rs[..n][..k + 1];
      }
    }
  }

  /** How a listing ends. A returned list is the concatenation, in fetch
      order, of the non-empty pages fetched, the last reply was such a page,
      and every requested id appears in it as an "exportId", as many times as
      it was requested. An HTTP error is the last reply. A stalled listing
      received only pages. */
  lemma ListingResult(deviceId: string, ids: seq<ExportId>, fetch: ListOracle, fuel: nat)
    ensures var run := Drain(fetch, Start(deviceId, ids), fuel);
      var rs := run.replies;
      (run.outcome.Stalled? ==> forall k :: 0 <= k < |rs| ==> rs[k].Some?) &&
      (run.outcome.HttpFailed? ==> |rs| > 0 && rs[|rs| - 1] == None) &&
      (run.outcome.Listed? ==>
        |rs| > 0 && Advances(rs[|rs| - 1]) &&
        run.outcome.records == Harvest(rs) &&
        multiset(ids) <= multiset(IdsOf(run.outcome.records)) &&
        forall id :: id in ids ==> exists j :: 0 <= j < |run.outcome.records| &&
                                              run.outcome.records[j].exportId == Some(id))
  {
    var run := Drain(fetch, Start(deviceId, ids), fuel);
    DrainEnding(deviceId, ids, fetch, Start(deviceId, ids), fuel);
    DrainListed(deviceId, ids, fetch, Start(deviceId, ids), fuel);
    if run.outcome.Stalled? {
      ContinuedAt(ids, run.replies);
    }
    if run.outcome.Listed? {
      var r := run.outcome.records;
      StrikeEmpty(ids, r);
      forall id | id in ids
        ensures exists j :: 0 <= j < |r| && r[j].exportId == Some(id)
      {
        assert multiset(ids)[id] > 0;
        assert id in multiset(IdsOf(r));
        IdsOfMember(r, id);
      }
    }
  }
}
