/** listSoraCamEventsForDevice and the event filter of downloadEventImages.
    The event listing concatenates non-empty pages, following the
    "x-soracom-next-key" cursor, and returns after the first non-empty page
    without one; an empty or non-list page makes it send the same request
    again, so `fuel` bounds the requests as in the export listing. */
module EventListing {
  import opened Wrappers
  import opened ExportApi

  /** The recorded-event part of an event record. */
  datatype AtomEvent = AtomEvent(eventType: string, recordingStatus: string, startTime: int, endTime: int)
  datatype EventInfo = EventInfo(atomEventV1: Option<AtomEvent>)
  /** One element of an event listing; "eventInfo" may be missing. */
  datatype EventRecord = EventRecord(eventInfo: Option<EventInfo>)

  /** The query of one event-listing request. */
  datatype EventQuery = EventQuery(deviceId: string, limit: nat, from: int, to: int, sort: string,
                                   lastEvaluatedKey: Option<string>)

  /** The event endpoint as an oracle: the reply to the k-th request. */
  type EventOracle = (nat, EventQuery) -> PageReply<EventRecord>

  const EventPageLimit: nat := 10
  const Ascending: string := "asc"

  /** How an event listing ends: with the events, with an HTTP or transport
      error, or still requesting when the fuel ran out. */
  datatype EventOutcome = Events(records: seq<EventRecord>) | EventsFailed | EventsStalled

  datatype EventRun = EventRun(outcome: EventOutcome, queries: seq<EventQuery>, replies: seq<PageReply<EventRecord>>)

  datatype EventCursor = EventCursor(query: EventQuery, acc: seq<EventRecord>,
                                     queries: seq<EventQuery>, replies: seq<PageReply<EventRecord>>)

  /** The first request: ten events per page, ascending, over [from, to]. */
  function FirstEventQuery(deviceId: string, from: int, to: int): EventQuery
  {
    EventQuery(deviceId, EventPageLimit, from, to, Ascending, None)
  }

  function StartEvents(deviceId: string, from: int, to: int): EventCursor
  {
    EventCursor(FirstEventQuery(deviceId, from, to), [], [], [])
  }

  /** A reply is the last one when it is a non-empty page without a cursor. */
  predicate Final(reply: PageReply<EventRecord>)
  {
    Advances(reply) && reply.value.nextKey.None?
  }

  /** The request after a reply: only a non-empty page's cursor is followed. */
  function NextEventQuery(q: EventQuery, reply: PageReply<EventRecord>): EventQuery
  {
    if Advances(reply) && reply.value.nextKey.Some? then q.(lastEvaluatedKey := reply.value.nextKey) else q
  }

  /** The state after a reply that is a page. */
  function EventStep(c: EventCursor, reply: PageReply<EventRecord>): EventCursor
  {
    EventCursor(NextEventQuery(c.query, reply), c.acc + PageItems(reply), c.queries + [c.query], c.replies + [reply])
  }

  /** The loop as a function of its state, with at most `fuel` more requests. */
  function DrainEvents(fetch: EventOracle, c: EventCursor, fuel: nat): EventRun
    decreases fuel
  {
    if fuel == 0 then EventRun(EventsStalled, c.queries, c.replies)
    else
      var reply := fetch(|c.queries|, c.query);
      if reply.None? then EventRun(EventsFailed, c.queries + [c.query], c.replies + [reply])
      else
        var n := EventStep(c, reply);
        if Final(reply) then EventRun(Events(n.acc), n.queries, n.replies)
        else DrainEvents(fetch, n, fuel - 1)
  }

  /** listSoraCamEventsForDevice. */
  method ListEventsForDevice(deviceId: string, from: int, to: int, fetch: EventOracle, fuel: nat)
    returns (run: EventRun)
    ensures run == DrainEvents(fetch, StartEvents(deviceId, from, to), fuel)
  {
    var query := FirstEventQuery(deviceId, from, to);
    var ret: seq<EventRecord> := [];
    var queries: seq<EventQuery> := [];
    var replies: seq<PageReply<EventRecord>> := [];
    while |queries| < fuel
      invariant |queries| <= fuel
      invariant DrainEvents(fetch, EventCursor(query, ret, queries, replies), fuel - |queries|) ==
                DrainEvents(fetch, StartEvents(deviceId, from, to), fuel)
    {
      var reply := fetch(|queries|, query);
      queries, replies := queries + [query], replies + [reply];
      if reply.None? {
        run := EventRun(EventsFailed, queries, replies);
        return;
      }
      var page := reply.value;
      if page.body.Some? && |page.body.value| > 0 {
        ret := ret + page.body.value;
        if page.nextKey.Some? {
          query := query.(lastEvaluatedKey := page.nextKey);
        } else {
          run := EventRun(Events(ret), queries, replies);
          return;
        }
      } else {
        assert ret + PageItems(reply) == ret;
      }
    }
    run := EventRun(EventsStalled, queries, replies);
  }

  // ---------------------------------------------------------------------------
  // What an event listing guarantees
  // ---------------------------------------------------------------------------

  /** The request trace follows the protocol, stated from the last request
      back. */
  ghost predicate EventProtocol(deviceId: string, from: int, to: int, fetch: EventOracle,
                                queries: seq<EventQuery>, replies: seq<PageReply<EventRecord>>)
    decreases |queries|
  {
    |queries| == |replies| &&
    (|queries| > 0 ==>
      var n := |queries| - 1;
      EventProtocol(deviceId, from, to, fetch, queries[..n], replies[..n]) &&
      replies[n] == fetch(n, queries[n]) &&
      queries[n] == if n == 0 then FirstEventQuery(deviceId, from, to)
                    else NextEventQuery(queries[n - 1], replies[n - 1]))
  }

  /** None of these replies ended the loop: each was a page, and none a final
      one. */
  ghost predicate EventsContinued(replies: seq<PageReply<EventRecord>>)
    decreases |replies|
  {
    replies != [] ==>
      var n := |replies| - 1;
      EventsContinued(replies[..n]) && replies[n].Some? && !Final(replies[n])
  }

  ghost predicate EventsTraced(deviceId: string, from: int, to: int, fetch: EventOracle, c: EventCursor)
  {
    EventProtocol(deviceId, from, to, fetch, c.queries, c.replies) &&
    c.query == (if |c.queries| == 0 then FirstEventQuery(deviceId, from, to)
                else NextEventQuery(c.queries[|c.queries| - 1], c.replies[|c.replies| - 1])) &&
    EventsContinued(c.replies) &&
    c.acc == Harvest(c.replies)
  }

  /** How an event run ends: only its last reply (if it did not stall) ended
      the loop; an HTTP error is that reply; returned events are everything
      harvested, and the last reply was a final page. */
  ghost predicate EventsEnding(run: EventRun)
  {
    if run.outcome.EventsStalled? then EventsContinued(run.replies)
    else
      var n := |run.replies| - 1;
      n >= 0 && EventsContinued(run.replies[..n]) &&
      (run.outcome.EventsFailed? ==> run.replies[n] == None) &&
      (run.outcome.Events? ==> Final(run.replies[n]) && run.outcome.records == Harvest(run.replies))
  }

  lemma EventsTracedStep(deviceId: string, from: int, to: int, fetch: EventOracle, c: EventCursor)
    requires EventsTraced(deviceId, from, to, fetch, c)
    ensures var reply := fetch(|c.queries|, c.query);
      EventProtocol(deviceId, from, to, fetch, c.queries + [c.query], c.replies + [reply]) &&
      Harvest(c.replies + [reply]) == c.acc + PageItems(reply) &&
      (c.replies + [reply])[..|c.replies|] == c.replies
  {
    var reply := fetch(|c.queries|, c.query);
    assert (c.queries + [c.query])[..|c.queries|] == c.queries;
    assert (c.replies + [reply])[..|c.replies|] == c.replies;
  }

  lemma EventsStepTraced(deviceId: string, from: int, to: int, fetch: EventOracle, c: EventCursor)
    requires EventsTraced(deviceId, from, to, fetch, c)
    requires fetch(|c.queries|, c.query).Some? && !Final(fetch(|c.queries|, c.query))
    ensures EventsTraced(deviceId, from, to, fetch, EventStep(c, fetch(|c.queries|, c.query)))
  {
    EventsTracedStep(deviceId, from, to, fetch, c);
  }

  lemma EventsEndFacts(deviceId: string, from: int, to: int, fetch: EventOracle, c: EventCursor, fuel: nat)
    requires EventsTraced(deviceId, from, to, fetch, c) && fuel > 0
    requires fetch(|c.queries|, c.query).None? || Final(fetch(|c.queries|, c.query))
    ensures var run := DrainEvents(fetch, c, fuel);
      EventProtocol(deviceId, from, to, fetch, run.queries, run.replies) && EventsEnding(run)
  {
    EventsTracedStep(deviceId, from, to, fetch, c);
  }

  lemma {:induction false} DrainEventsProtocol(deviceId: string, from: int, to: int, fetch: EventOracle,
                                               c: EventCursor, fuel: nat)
    requires EventsTraced(deviceId, from, to, fetch, c)
    ensures var run := DrainEvents(fetch, c, fuel);
      EventProtocol(deviceId, from, to, fetch, run.queries, run.replies)
    decreases fuel
  {
    if fuel > 0 {
      var reply := fetch(|c.queries|, c.query);
      if reply.None? || Final(reply) {
        EventsEndFacts(deviceId, from, to, fetch, c, fuel);
      } else {
        EventsStepTraced(deviceId, from, to, fetch, c);
        DrainEventsProtocol(deviceId, from, to, fetch, EventStep(c, reply), fuel - 1);
      }
    }
  }

  lemma {:induction false} DrainEventsEnding(deviceId: string, from: int, to: int, fetch: EventOracle,
                                             c: EventCursor, fuel: nat)
    requires EventsTraced(deviceId, from, to, fetch, c)
    ensures EventsEnding(DrainEvents(fetch, c, fuel))
    decreases fuel
  {
    if fuel > 0 {
      var reply := fetch(|c.queries|, c.query);
      if reply.None? || Final(reply) {
        EventsEndFacts(deviceId, from, to, fetch, c, fuel);
      } else {
        EventsStepTraced(deviceId, from, to, fetch, c);
        DrainEventsEnding(deviceId, from, to, fetch, EventStep(c, reply), fuel - 1);
      }
    }
  }

  lemma {:induction false} DrainEventsLength(fetch: EventOracle, c: EventCursor, fuel: nat)
    ensures var run := DrainEvents(fetch, c, fuel);
      |c.queries| <= |run.queries| <= |c.queries| + fuel &&
      (run.outcome.EventsStalled? ==> |run.queries| == |c.queries| + fuel)
    decreases fuel
  {
    if fuel > 0 {
      var reply := fetch(|c.queries|, c.query);
      if reply.Some? {
        DrainEventsLength(fetch, EventStep(c, reply), fuel - 1);
      }
    }
  }

  lemma {:induction false} EventProtocolAt(deviceId: string, from: int, to: int, fetch: EventOracle,
                                           queries: seq<EventQuery>, replies: seq<PageReply<EventRecord>>)
    requires EventProtocol(deviceId, from, to, fetch, queries, replies)
    ensures |queries| == |replies|
    ensures |queries| > 0 ==> queries[0] == FirstEventQuery(deviceId, from, to)
    ensures forall k :: 0 <= k < |queries| ==>
      replies[k] == fetch(k, queries[k]) &&
      queries[k] == FirstEventQuery(deviceId, from, to).(lastEvaluatedKey := queries[k].lastEvaluatedKey)
    ensures forall k :: 0 <= k < |queries| - 1 ==> queries[k + 1] == NextEventQuery(queries[k], replies[k])
    decreases |queries|
  {
    if |queries| > 0 {
      var n := |queries| - 1;
      EventProtocolAt(deviceId, from, to, fetch, queries[..n], replies[..n]);
      assert forall k :: 0 <= k < n ==> queries[k] == queries[..n][k] && replies[k] == replies[..n][k];
    }
  }

  lemma {:induction false} EventsContinuedAt(replies: seq<PageReply<EventRecord>>)
    requires EventsContinued(replies)
    ensures forall k :: 0 <= k < |replies| ==> replies[k].Some? && !Final(replies[k])
    decreases |replies|
  {
    if replies != [] {
      var n := |replies| - 1;
      EventsContinuedAt(replies[..n]);
      assert forall k :: 0 <= k < n ==> replies[k] == replies[..n][k];
    }
  }

  /** Every event listing follows the protocol: all its requests go to the
      device for the same window, ten per page, ascending, differing only in
      the cursor; the first has none and each next one takes the cursor of a
      non-empty page before it. At most `fuel` requests are sent, all of them
      when it stalls, and every reply but the last was a page that did not
      end the loop. */
  lemma EventListingTrace(deviceId: string, from: int, to: int, fetch: EventOracle, fuel: nat)
    ensures var run := DrainEvents(fetch, StartEvents(deviceId, from, to), fuel);
      var qs, rs := run.queries, run.replies;
      |qs| == |rs| <= fuel &&
      (run.outcome.EventsStalled? ==> |qs| == fuel) &&
      (|qs| > 0 ==> qs[0] == EventQuery(deviceId, 10, from, to, "asc", None)) &&
      (forall k :: 0 <= k < |qs| ==>
        rs[k] == fetch(k, qs[k]) &&
        qs[k] == EventQuery(deviceId, 10, from, to, "asc", qs[k].lastEvaluatedKey)) &&
      (forall k :: 0 <= k < |qs| - 1 ==> qs[k + 1] == NextEventQuery(qs[k], rs[k])) &&
      (forall k :: 0 <= k < |rs| - 1 ==> rs[k].Some? && !Final(rs[k]))
  {
    var run := DrainEvents(fetch, StartEvents(deviceId, from, to), fuel);
    DrainEventsProtocol(deviceId, from, to, fetch, StartEvents(deviceId, from, to), fuel);
    DrainEventsEnding(deviceId, from, to, fetch, StartEvents(deviceId, from, to), fuel);
    DrainEventsLength(fetch, StartEvents(deviceId, from, to), fuel);
    EventProtocolAt(deviceId, from, to, fetch, run.queries, run.replies);
    var rs := run.replies;
    if run.outcome.EventsStalled? {
      EventsContinuedAt(rs);
    } else {
      var n := |rs| - 1;
      EventsContinuedAt(rs[..n]);
      assert forall k :: 0 <= k < n ==> rs[k] == rs[..n][k];
    }
  }

  /** Returned events are the concatenation, in fetch order, of the
      non-empty pages fetched; there is at least one, and the last page had
      no cursor. So the listing never returns an empty list. An HTTP error is
      the last reply. */
  lemma EventListingResult(deviceId: string, from: int, to: int, fetch: EventOracle, fuel: nat)
    ensures var run := DrainEvents(fetch, StartEvents(deviceId, from, to), fuel);
      var rs := run.replies;
      (run.outcome.EventsFailed? ==> |rs| > 0 && rs[|rs| - 1] == None) &&
      (run.outcome.Events? ==>
        |rs| > 0 && Final(rs[|rs| - 1]) &&
        run.outcome.records == Harvest(rs) && |run.outcome.records| > 0)
  {
    DrainEventsEnding(deviceId, from, to, fetch, StartEvents(deviceId, from, to), fuel);
    var run := DrainEvents(fetch, StartEvents(deviceId, from, to), fuel);
    if run.outcome.Events? {
      var rs := run.replies;
      assert rs == rs[..|rs| - 1] + [rs[|rs| - 1]];
    }
  }

  // ---------------------------------------------------------------------------
  // The event filter of downloadEventImages
  // ---------------------------------------------------------------------------

  /** A recorded motion event whose recording has completed. */
  predicate Eligible(e: EventRecord)
  {
    e.eventInfo.Some? && e.eventInfo.value.atomEventV1.Some? &&
    e.eventInfo.value.atomEventV1.value.eventType == "motion" &&
    e.eventInfo.value.atomEventV1.value.recordingStatus == "completed"
  }

  /** The window one event is exported over: its own start and end. */
  datatype Window = Window(start: int, end: int)

  function WindowOf(e: EventRecord): Window
    requires Eligible(e)
  {
    Window(e.eventInfo.value.atomEventV1.value.startTime, e.eventInfo.value.atomEventV1.value.endTime)
  }

  /** The windows of the eligible events, in listing order. */
  function Windows(events: seq<EventRecord>): seq<Window>
  {
    if events == [] then []
    else
      var e := events[|events| - 1];
      Windows(events[..|events| - 1]) + (if Eligible(e) then [WindowOf(e)] else [])
  }

  /** The filter keeps listing order: the windows of two runs of events are
      those of the first followed by those of the second. */
  lemma {:induction false} WindowsAppend(a: seq<EventRecord>, b: seq<EventRecord>)
    ensures Windows(a + b) == Windows(a) + Windows(b)
    decreases |b|
  {
    if b == [] {
      assert a + b == a;
    } else {
      assert (a + b)[..|a + b| - 1] == a + b[..|b| - 1];
      WindowsAppend(a, b[..|b| - 1]);
    }
  }

  /** A single event gives its own window exactly when it is eligible. */
  lemma WindowsSingle(e: EventRecord)
    ensures Windows([e]) == if Eligible(e) then [WindowOf(e)] else []
  {
    assert [e][..0] == [];
  }

  /** Every eligible event gives a window, and every window is that of an
      eligible event. */
  lemma {:induction false} WindowsExactly(events: seq<EventRecord>)
    ensures forall j :: 0 <= j < |events| && Eligible(events[j]) ==> WindowOf(events[j]) in Windows(events)
    ensures forall w :: w in Windows(events) ==>
      exists j :: 0 <= j < |events| && Eligible(events[j]) && WindowOf(events[j]) == w
    decreases |events|
  {
    if events != [] {
      var n := |events| - 1;
      var init := events[..n];
      WindowsExactly(init);
      assert forall j :: 0 <= j < n ==> events[j] == init[j];
      forall w | w in Windows(events)
        ensures exists j :: 0 <= j < |events| && Eligible(events[j]) && WindowOf(events[j]) == w
      {
        if w in Windows(init) {
          var j :| 0 <= j < n && Eligible(init[j]) && WindowOf(init[j]) == w;
          assert events[j] == init[j];
        }
      }
    }
  }
}
