/** downloadImages and downloadEventImages: the sampling grid, the quota
    gate, the submission loop, the poll, and the download of every listed
    export with a URL; then the same pipeline once per eligible recorded
    event. Downloads are modelled by the local path each one writes. */
module Pipeline {
  import opened Wrappers
  import opened ExportApi
  import opened SoracomUtils
  import opened SampleGrid
  import opened Submission
  import opened ExportListing
  import opened ExportPoller
  import opened EventListing

  /** The remote service as one run of downloadImages sees it: the reply of
      the usage endpoint (`None` for an error or an empty body), the export
      endpoint, the listing endpoint across poll rounds, and the jitter of
      each backoff. */
  datatype Service = Service(usage: Option<Usage>, create: CreateOracle, listing: RoundOracle,
                             jitter: nat -> Jitter)

  /** The quota gate. */
  datatype Gate = UsageMissing | FrameShortage | Admitted

  /** The usage reply admits a grid only when it carries
      `image.remainingFrames` and the grid is no larger. */
  function QuotaGate(usage: Option<Usage>, count: nat): Gate
  {
    if usage.None? || usage.value.image.None? || usage.value.image.value.remainingFrames.None? then UsageMissing
    else if count > usage.value.image.value.remainingFrames.value then FrameShortage
    else Admitted
  }

  /** How downloadImages ends. Only `Downloaded` returns True; under `PollHung`
      the call had not returned within the fuel; every other outcome returns
      None. */
  datatype DownloadOutcome = NoUsage | Shortage | NothingExported | PollFailed | PollHung |
                             Downloaded(paths: seq<string>)

  /** A run of downloadImages with its trace: the grid, the export requests,
      the collected ids, the failure count and the poll, if one ran. */
  datatype DownloadRun = DownloadRun(outcome: DownloadOutcome, grid: seq<int>, calls: seq<ExportCall>,
                                     ids: seq<ExportId>, failures: nat, poll: Option<PollRun>)

  /** What the Python function returns: `Some(true)` for True, `None` for
      None, and nothing at all when it has not returned. */
  function PythonResult(outcome: DownloadOutcome): Option<Option<bool>>
  {
    match outcome
    case PollHung => None
    case Downloaded(_) => Some(Some(true))
    case _ => Some(None)
  }

  /** The local files written for a listing: one per record with a URL, in
      listing order, each named by downloadImage without a sequence prefix. */
  function DownloadTargets(records: seq<ExportRecord>, path: string): seq<string>
  {
    if records == [] then []
    else
      var d := records[|records| - 1];
      DownloadTargets(records[..|records| - 1], path) + (if d.url.Some? then [TargetPath(d.url.value, path, "")] else [])
  }

  /** The download loop of downloadImages. */
  method DownloadAll(records: seq<ExportRecord>, path: string) returns (paths: seq<string>)
    ensures paths == DownloadTargets(records, path)
  {
    paths := [];
    var i := 0;
    while i < |records|
      invariant 0 <= i <= |records|
      invariant paths == DownloadTargets(records[..i], path)
    {
      assert records[..i + 1][..i] == records[..i];
      if records[i].url.Some? {
        paths := paths + [TargetPath(records[i].url.value, path, "")];
      }
      i := i + 1;
    }
    assert records[..i] == records;
  }

  /** downloadImages as a function of its inputs. */
  function DownloadImagesSpec(deviceId: string, st: int, ed: int, it: int, path: string,
                              rule: StopRule, svc: Service, fuel: nat): DownloadRun
    requires it > 0
  {
    var grid := Grid(st, ed, it);
    match QuotaGate(svc.usage, |grid|)
    case UsageMissing => DownloadRun(NoUsage, grid, [], [], 0, None)
    case FrameShortage => DownloadRun(Shortage, grid, [], [], 0, None)
    case Admitted =>
      var calls := ExportCalls(deviceId, grid);
      var rs := Replies(svc.create, calls);
      var ids, failures := CollectedIds(rs), FailureCount(rs);
      if |ids| == 0 then DownloadRun(NothingExported, grid, calls, ids, failures, None)
      else
        var poll := Poll(ids, rule, Rounds(deviceId, ids, svc.listing, fuel), svc.jitter, DownloadMaxAttempt);
        var outcome := match poll.outcome
          case Hung => PollHung
          case TimedOut => PollFailed
          case Ready(l, _) => Downloaded(DownloadTargets(l, path));
        DownloadRun(outcome, grid, calls, ids, failures, Some(poll))
  }

  /** downloadImages. The interval arrives already converted to a positive
      number of milliseconds. */
  method DownloadImages(deviceId: string, st: int, ed: int, it: int, path: string, rule: StopRule, svc: Service, fuel: nat)
    returns (run: DownloadRun)
    requires it > 0
    ensures run == DownloadImagesSpec(deviceId, st, ed, it, path, rule, svc, fuel)
  {
    var grid := Grid(st, ed, it);
    var gate := QuotaGate(svc.usage, |grid|);
    if gate == UsageMissing {
      return DownloadRun(NoUsage, grid, [], [], 0, None);
    }
    if gate == FrameShortage {
      return DownloadRun(Shortage, grid, [], [], 0, None);
    }
    var calls, ids, failures := Submit(deviceId, grid, svc.create);
    if |ids| == 0 {
      return DownloadRun(NothingExported, grid, calls, ids, failures, None);
    }
    var poll := WaitExportImages(deviceId, ids, rule, svc.listing, svc.jitter, DownloadMaxAttempt, fuel);
    if poll.outcome.Hung? {
      return DownloadRun(PollHung, grid, calls, ids, failures, Some(poll));
    }
    if poll.outcome.TimedOut? {
      return DownloadRun(PollFailed, grid, calls, ids, failures, Some(poll));
    }
    var paths := DownloadAll(poll.outcome.records, path);
    run := DownloadRun(Downloaded(paths), grid, calls, ids, failures, Some(poll));
  }

  // ---------------------------------------------------------------------------
  // What downloadImages guarantees
  // ---------------------------------------------------------------------------

  /** The gate: without `image.remainingFrames` in the usage reply, or with
      fewer remaining frames than grid instants, no export request is sent
      and the function returns None. */
  lemma GateBlocksRequests(deviceId: string, st: int, ed: int, it: int, path: string, rule: StopRule, svc: Service, fuel: nat)
    requires it > 0
    ensures var run := DownloadImagesSpec(deviceId, st, ed, it, path, rule, svc, fuel);
      run.grid == Grid(st, ed, it) &&
      (run.outcome.NoUsage? <==>
        svc.usage.None? || svc.usage.value.image.None? || svc.usage.value.image.value.remainingFrames.None?) &&
      (run.outcome.Shortage? <==>
        svc.usage.Some? && svc.usage.value.image.Some? && svc.usage.value.image.value.remainingFrames.Some? &&
        |run.grid| > svc.usage.value.image.value.remainingFrames.value) &&
      (run.outcome.NoUsage? || run.outcome.Shortage? ==>
        run.calls == [] && run.poll == None && PythonResult(run.outcome) == Some(None))
  {
  }

  /** Past the gate, exactly one export request is sent per grid instant, in
      grid order, each asking for its own instant with the wide-angle filter;
      ids plus failures never exceed the requests, and every collected id was
      returned by some request. */
  lemma OneRequestPerInstant(deviceId: string, st: int, ed: int, it: int, path: string, rule: StopRule, svc: Service, fuel: nat)
    requires it > 0
    ensures var run := DownloadImagesSpec(deviceId, st, ed, it, path, rule, svc, fuel);
      !(run.outcome.NoUsage? || run.outcome.Shortage?) ==>
        |run.calls| == |run.grid| &&
        (forall k :: 0 <= k < |run.calls| ==>
          run.calls[k].deviceId == deviceId && TimeOf(run.calls[k].body) == Some(run.grid[k]) &&
          FiltersOf(run.calls[k].body) == [WideAngleCorrection]) &&
        |run.ids| + run.failures <= |run.grid| &&
        (forall id :: id in run.ids ==> exists k :: 0 <= k < |run.calls| &&
                                                    svc.create(k, run.calls[k]) == Created(Some(id)))
  {
    var run := DownloadImagesSpec(deviceId, st, ed, it, path, rule, svc, fuel);
    if !(run.outcome.NoUsage? || run.outcome.Shortage?) {
      var rs := Replies(svc.create, run.calls);
      forall k | 0 <= k < |run.calls|
        ensures run.calls[k].deviceId == deviceId && TimeOf(run.calls[k].body) == Some(run.grid[k]) &&
                FiltersOf(run.calls[k].body) == [WideAngleCorrection]
      {
        ExportCallsAt(deviceId, run.grid, k);
      }
      SubmissionAccounting(rs);
      forall id | id in run.ids
        ensures exists k :: 0 <= k < |run.calls| && svc.create(k, run.calls[k]) == Created(Some(id))
      {
        CollectedIdsFromReplies(rs, id);
      }
    }
  }

  /** No collected id means no poll and a None result; otherwise the poll runs
      over exactly the collected ids with the attempt bound 5. The function
      returns True exactly when that poll was ready, whether or not some
      export reported a degraded status, and then it writes one file per
      listed record with a URL. */
  lemma ReturnsTrueIffReady(deviceId: string, st: int, ed: int, it: int, path: string, rule: StopRule, svc: Service, fuel: nat)
    requires it > 0
    ensures var run := DownloadImagesSpec(deviceId, st, ed, it, path, rule, svc, fuel);
      (run.outcome.NothingExported? <==> !(run.outcome.NoUsage? || run.outcome.Shortage?) && run.ids == []) &&
      (run.outcome.NothingExported? ==> run.poll == None && PythonResult(run.outcome) == Some(None)) &&
      (run.poll.Some? <==> !(run.outcome.NoUsage? || run.outcome.Shortage?) && run.ids != []) &&
      (run.poll.Some? ==>
        run.poll.value == Poll(run.ids, rule, Rounds(deviceId, run.ids, svc.listing, fuel), svc.jitter, DownloadMaxAttempt)) &&
      (PythonResult(run.outcome) == Some(Some(true)) <==> run.poll.Some? && run.poll.value.outcome.Ready?) &&
      (PythonResult(run.outcome) == None <==> run.poll.Some? && run.poll.value.outcome.Hung?) &&
      (run.outcome.Downloaded? ==> run.outcome.paths == DownloadTargets(run.poll.value.outcome.records, path))
  {
  }

  /** A successful run polled at most five times and downloaded a listing
      with exactly one record per collected id, in which every collected id
      appears. */
  lemma DownloadedCoversIds(deviceId: string, st: int, ed: int, it: int, path: string, rule: StopRule, svc: Service, fuel: nat)
    requires it > 0
    ensures var run := DownloadImagesSpec(deviceId, st, ed, it, path, rule, svc, fuel);
      run.outcome.Downloaded? ==>
        var l := run.poll.value.outcome.records;
        1 <= |run.poll.value.rounds| <= 5 &&
        MatchCount(run.ids, l) == |run.ids| &&
        forall id :: id in run.ids ==> exists j :: 0 <= j < |l| && l[j].exportId == Some(id)
  {
    var run := DownloadImagesSpec(deviceId, st, ed, it, path, rule, svc, fuel);
    if run.outcome.Downloaded? {
      var listing := Rounds(deviceId, run.ids, svc.listing, fuel);
      PollSpec(run.ids, rule, listing, svc.jitter, DownloadMaxAttempt);
      ReadyCovers(deviceId, run.ids, rule, svc.listing, svc.jitter, DownloadMaxAttempt, fuel);
    }
  }

  /** A record's URL gives the path `path + "/" + name`, where the name has
      no `?` and no `/`. */
  ghost predicate WrittenFrom(p: string, path: string, d: ExportRecord)
  {
    d.url.Some? && p == TargetPath(d.url.value, path, "") &&
    p == path + "/" + FileName(d.url.value) && '?' !in FileName(d.url.value) && '/' !in FileName(d.url.value)
  }

  /** Each downloaded path is `path + "/" + name`, where the name has no `?`
      and no `/`: one path per listed record with a URL, in listing order. */
  lemma {:induction false} DownloadTargetsShape(records: seq<ExportRecord>, path: string)
    ensures |DownloadTargets(records, path)| <= |records|
    ensures forall p :: p in DownloadTargets(records, path) ==>
      exists j :: 0 <= j < |records| && WrittenFrom(p, path, records[j])
    decreases |records|
  {
    if records != [] {
      var n := |records| - 1;
      DownloadTargetsShape(records[..n], path);
      forall p | p in DownloadTargets(records, path)
        ensures exists j :: 0 <= j < |records| && WrittenFrom(p, path, records[j])
      {
        if p in DownloadTargets(records[..n], path) {
          var j :| 0 <= j < n && WrittenFrom(p, path, records[..n][j]);
          assert records[j] == records[..n][j];
        } else {
          var url := records[n].url.value;
          FileNameShape(url);
          TargetPathShape(url, path, "");
          assert WrittenFrom(p, path, records[n]);
        }
      }
    }
  }

  /** Downloading a listing in two parts writes the first part's files and
      then the second's: the files follow the listing order. */
  lemma {:induction false} DownloadTargetsAppend(a: seq<ExportRecord>, b: seq<ExportRecord>, path: string)
    ensures DownloadTargets(a + b, path) == DownloadTargets(a, path) + DownloadTargets(b, path)
    decreases |b|
  {
    if b == [] {
      assert a + b == a;
    } else {
      var n := |b| - 1;
      DownloadTargetsAppend(a, b[..n], path);
      assert (a + b)[..|a + b| - 1] == a + b[..n];
      assert (a + b)[|a + b| - 1] == b[n];
    }
  }

  /** A single record gives one file exactly when it has a URL. */
  lemma DownloadTargetsSingle(d: ExportRecord, path: string)
    ensures DownloadTargets([d], path) == if d.url.Some? then [TargetPath(d.url.value, path, "")] else []
  {
    assert [d][..0] == [];
  }

  /** Every listed record with a URL has its file written. */
  lemma {:induction false} DownloadTargetsComplete(records: seq<ExportRecord>, path: string)
    ensures forall j :: 0 <= j < |records| && records[j].url.Some? ==>
      TargetPath(records[j].url.value, path, "") in DownloadTargets(records, path)
    decreases |records|
  {
    if records != [] {
      var n := |records| - 1;
      DownloadTargetsComplete(records[..n], path);
      forall j | 0 <= j < |records| && records[j].url.Some?
        ensures TargetPath(records[j].url.value, path, "") in DownloadTargets(records, path)
      {
        if j < n {
          assert records[j] == records[..n][j];
        }
      }
    }
  }

  /** 12:00 to 12:10 at three minutes needs five frames: with three remaining
      nothing is requested. */
  lemma ShortageExample(deviceId: string, path: string, rule: StopRule, svc: Service, fuel: nat)
    requires svc.usage == Some(Usage(Some(ImageUsage(Some(3)))))
    ensures var run := DownloadImagesSpec(deviceId, 43200000, 43800000, 180000, path, rule, svc, fuel);
      run.outcome == Shortage && run.calls == [] && |run.grid| == 5
  {
    TenMinuteWindow();
  }

  /** A service with ten frames left whose first export request returns the
      id "a" and whose second reply is not an object, and whose listing
      always shows "a" still `processing`, without a URL. */
  function PendingService(jitter: nat -> Jitter): Service
  {
    Service(Some(Usage(Some(ImageUsage(Some(10))))),
            (k: nat, c: ExportCall) => if k == 0 then Created(Some("a")) else NotAnObject,
            (r: nat, k: nat, q: ListQuery) => Some(Page(Some([ExportRecord(Some("a"), "processing", None)]), None)),
            jitter)
  }

  /** The two export requests of the one-second window collect just "a". */
  lemma PendingSubmission(deviceId: string, jitter: nat -> Jitter)
    ensures Grid(0, 1000, 180000) == [0, 1000]
    ensures CollectedIds(Replies(PendingService(jitter).create, ExportCalls(deviceId, [0, 1000]))) == ["a"]
  {
    GridShort(0, 1000, 180000);
    var calls := ExportCalls(deviceId, [0, 1000]);
    var rs := Replies(PendingService(jitter).create, calls);
    assert |rs| == 2 && rs[0] == Created(Some("a")) && rs[1] == NotAnObject;
    assert rs[..1] == [Created(Some("a"))];
    assert rs[..1][..0] == [];
    assert CollectedIds(rs[..1]) == ["a"];
    assert CollectedIds(rs) == CollectedIds(rs[..1]) + IdOf(rs[1]);
  }

  /** Every round's listing of "a" returns the one pending record. */
  lemma PendingListing(deviceId: string, jitter: nat -> Jitter, r: nat)
    ensures Rounds(deviceId, ["a"], PendingService(jitter).listing, 1)(r).outcome ==
            Listed([ExportRecord(Some("a"), "processing", None)])
  {
    var rec := ExportRecord(Some("a"), "processing", None);
    var c := Start(deviceId, ["a"]);
    var reply := RoundFetch(PendingService(jitter).listing, r)(|c.queries|, c.query);
    assert reply == Some(Page(Some([rec]), None));
    assert PageItems(reply) == [rec];
    assert Strike(["a"], [rec]) == [] by {
      assert [rec][1..] == [];
    }
  }

  /** The poll over the pending service's listing, under either rule. */
  lemma PendingPoll(deviceId: string, jitter: nat -> Jitter)
    ensures var listing := Rounds(deviceId, ["a"], PendingService(jitter).listing, 1);
      var l := [ExportRecord(Some("a"), "processing", None)];
      Poll(["a"], AsWritten, listing, jitter, DownloadMaxAttempt).outcome == Ready(l, true) &&
      Poll(["a"], SettledOnly, listing, jitter, DownloadMaxAttempt).outcome == TimedOut
  {
    var listing := Rounds(deviceId, ["a"], PendingService(jitter).listing, 1);
    forall r: nat
      ensures listing(r).outcome == Listed([ExportRecord(Some("a"), "processing", None)])
    {
      PendingListing(deviceId, jitter, r);
    }
    PendingExportStopsPoll(listing, jitter);
  }

  /** As written, the export still being prepared ends the poll at once:
      downloadImages returns True having written no file. */
  lemma PendingExportDownloadsNothing(deviceId: string, path: string, jitter: nat -> Jitter)
    ensures DownloadImagesSpec(deviceId, 0, 1000, 180000, path, AsWritten, PendingService(jitter), 1).outcome ==
            Downloaded([])
  {
    var rec := ExportRecord(Some("a"), "processing", None);
    PendingSubmission(deviceId, jitter);
    PendingPoll(deviceId, jitter);
    DownloadTargetsSingle(rec, path);
    var svc := PendingService(jitter);
    assert QuotaGate(svc.usage, 2) == Admitted;
    var poll := Poll(["a"], AsWritten, Rounds(deviceId, ["a"], svc.listing, 1), jitter, DownloadMaxAttempt);
    assert poll.outcome == Ready([rec], true);
  }

  /** Waiting for settled statuses, the same service makes the poll run out of
      attempts, and downloadImages returns None. */
  lemma PendingExportTimesOut(deviceId: string, path: string, jitter: nat -> Jitter)
    ensures DownloadImagesSpec(deviceId, 0, 1000, 180000, path, SettledOnly, PendingService(jitter), 1).outcome ==
            PollFailed
  {
    PendingSubmission(deviceId, jitter);
    PendingPoll(deviceId, jitter);
  }

  /** Waiting for settled statuses, a run that returns True downloaded a
      listing in which every record of a collected id is completed, failed,
      limitExceeded or expired. */
  lemma DownloadedSettled(deviceId: string, st: int, ed: int, it: int, path: string, svc: Service, fuel: nat)
    requires it > 0
    ensures var run := DownloadImagesSpec(deviceId, st, ed, it, path, SettledOnly, svc, fuel);
      run.outcome.Downloaded? ==>
        var l := run.poll.value.outcome.records;
        forall k :: 0 <= k < |l| && Matches(run.ids, l[k]) ==> Settled(l[k].status)
  {
    var run := DownloadImagesSpec(deviceId, st, ed, it, path, SettledOnly, svc, fuel);
    if run.outcome.Downloaded? {
      ReadySettled(run.ids, Rounds(deviceId, run.ids, svc.listing, fuel), svc.jitter, DownloadMaxAttempt);
    }
  }

  // ---------------------------------------------------------------------------
  // downloadEventImages
  // ---------------------------------------------------------------------------

  /** How downloadEventImages ends: `NoEvents` when the event listing fails
      (None), `Processed` when every eligible event went through the pipeline
      (True), and `EventsHung` when the listing or the poll of one pipeline
      run stalled. */
  datatype EventsOutcome = NoEvents | Processed | EventsHung

  datatype EventsRun = EventsRun(outcome: EventsOutcome, listing: EventRun, runs: seq<DownloadRun>)

  /** The pipeline run of the k-th eligible event, on that event's window and
      with the k-th service. */
  function EventPipeline(deviceId: string, it: int, path: string, rule: StopRule, services: nat -> Service, fuel: nat)
    : (nat, Window) -> DownloadRun
    requires it > 0
  {
    (k: nat, w: Window) => DownloadImagesSpec(deviceId, w.start, w.end, it, path, rule, services(k), fuel)
  }

  /** The loop over the listed events from index `i` on, `runs` holding the
      pipeline runs so far. A run whose poll stalled ends the loop. */
  function ProcessFrom(events: seq<EventRecord>, pipeline: (nat, Window) -> DownloadRun,
                       i: nat, runs: seq<DownloadRun>): seq<DownloadRun>
    requires i <= |events|
    decreases |events| - i
  {
    if i == |events| then runs
    else if !Eligible(events[i]) then ProcessFrom(events, pipeline, i + 1, runs)
    else
      var r := pipeline(|runs|, WindowOf(events[i]));
      if r.outcome.PollHung? then runs + [r]
      else ProcessFrom(events, pipeline, i + 1, runs + [r])
  }

  /** downloadEventImages as a function of its inputs. */
  function DownloadEventsSpec(deviceId: string, st: int, ed: int, it: int, path: string, rule: StopRule,
                              events: EventOracle, services: nat -> Service, fuel: nat): EventsRun
    requires it > 0
  {
    var listing := DrainEvents(events, StartEvents(deviceId, st, ed), fuel);
    match listing.outcome
    case EventsFailed => EventsRun(NoEvents, listing, [])
    case EventsStalled => EventsRun(EventsHung, listing, [])
    case Events(rv) =>
      var runs := ProcessFrom(rv, EventPipeline(deviceId, it, path, rule, services, fuel), 0, []);
      var hung := |runs| > 0 && runs[|runs| - 1].outcome.PollHung?;
      EventsRun(if hung then EventsHung else Processed, listing, runs)
  }

  /** downloadEventImages. */
  method DownloadEventImages(deviceId: string, st: int, ed: int, it: int, path: string, rule: StopRule,
                             events: EventOracle, services: nat -> Service, fuel: nat)
    returns (run: EventsRun)
    requires it > 0
    ensures run == DownloadEventsSpec(deviceId, st, ed, it, path, rule, events, services, fuel)
  {
    var listing := ListEventsForDevice(deviceId, st, ed, events, fuel);
    if listing.outcome.EventsFailed? {
      return EventsRun(NoEvents, listing, []);
    }
    if listing.outcome.EventsStalled? {
      return EventsRun(EventsHung, listing, []);
    }
    var rv := listing.outcome.records;
    ghost var pipeline := EventPipeline(deviceId, it, path, rule, services, fuel);
    var runs: seq<DownloadRun> := [];
    var i := 0;
    while i < |rv|
      invariant 0 <= i <= |rv|
      invariant ProcessFrom(rv, pipeline, i, runs) == ProcessFrom(rv, pipeline, 0, [])
      invariant forall k :: 0 <= k < |runs| ==> !runs[k].outcome.PollHung?
    {
      var ts := rv[i];
      if ts.eventInfo.Some? && ts.eventInfo.value.atomEventV1.Some? {
        var atom := ts.eventInfo.value.atomEventV1.value;
        if atom.eventType == "motion" && atom.recordingStatus == "completed" {
          var r := DownloadImages(deviceId, atom.startTime, atom.endTime, it, path, rule, services(|runs|), fuel);
          assert r == pipeline(|runs|, WindowOf(ts));
          runs := runs + [r];
          if r.outcome.PollHung? {
            return EventsRun(EventsHung, listing, runs);
          }
        }
      }
      i := i + 1;
    }
    run := EventsRun(Processed, listing, runs);
  }

  // ---------------------------------------------------------------------------
  // What downloadEventImages guarantees
  // ---------------------------------------------------------------------------

  /** The runs so far are the pipeline runs of the first windows, in order. */
  ghost predicate RunsFollow(ws: seq<Window>, pipeline: (nat, Window) -> DownloadRun, runs: seq<DownloadRun>)
  {
    |runs| <= |ws| &&
    forall k :: 0 <= k < |runs| ==> runs[k] == pipeline(k, ws[k])
  }

  lemma WindowsPrefix(events: seq<EventRecord>, i: nat)
    requires i < |events|
    ensures Windows(events[..i + 1]) ==
            Windows(events[..i]) + (if Eligible(events[i]) then [WindowOf(events[i])] else [])
  {
    assert events[..i + 1][..i] == events[..i];
  }

  /** The window of an eligible event sits in the windows of all events just
      after those of the events before it. */
  lemma WindowAt(events: seq<EventRecord>, i: nat)
    requires i < |events| && Eligible(events[i])
    ensures |Windows(events[..i])| < |Windows(events)|
    ensures Windows(events)[|Windows(events[..i])|] == WindowOf(events[i])
  {
    WindowsPrefix(events, i);
    WindowsAppend(events[..i + 1], events[i + 1..]);
    assert events[..i + 1] + events[i + 1..] == events;
  }

  lemma {:induction false} ProcessFromFollows(events: seq<EventRecord>, pipeline: (nat, Window) -> DownloadRun,
                                              i: nat, runs: seq<DownloadRun>)
    requires i <= |events|
    requires |runs| == |Windows(events[..i])|
    requires RunsFollow(Windows(events), pipeline, runs)
    requires forall k :: 0 <= k < |runs| ==> !runs[k].outcome.PollHung?
    ensures var out := ProcessFrom(events, pipeline, i, runs);
      RunsFollow(Windows(events), pipeline, out) &&
      (forall k :: 0 <= k < |out| - 1 ==> !out[k].outcome.PollHung?) &&
      (|out| < |Windows(events)| ==> |out| > 0 && out[|out| - 1].outcome.PollHung?)
    decreases |events| - i
  {
    if i == |events| {
      assert events[..i] == events;
    } else {
      WindowsPrefix(events, i);
      if !Eligible(events[i]) {
        ProcessFromFollows(events, pipeline, i + 1, runs);
      } else {
        WindowAt(events, i);
        var r := pipeline(|runs|, WindowOf(events[i]));
        var runs' := runs + [r];
        assert forall k :: 0 <= k < |runs| ==> runs'[k] == runs[k];
        if !r.outcome.PollHung? {
          ProcessFromFollows(events, pipeline, i + 1, runs');
        }
      }
    }
  }

  /** downloadEventImages returns None exactly when the event listing fails.
      Otherwise the eligible events (motion, recording completed) go through
      the pipeline one by one in listing order, the k-th on its own window
      with the k-th service, until one run stalls; it returns True
      exactly when none hung, and then every eligible event was processed. */
  lemma EventsProcessedInOrder(deviceId: string, st: int, ed: int, it: int, path: string, rule: StopRule,
                               events: EventOracle, services: nat -> Service, fuel: nat)
    requires it > 0
    ensures var run := DownloadEventsSpec(deviceId, st, ed, it, path, rule, events, services, fuel);
      run.listing == DrainEvents(events, StartEvents(deviceId, st, ed), fuel) &&
      (run.outcome.NoEvents? <==> run.listing.outcome.EventsFailed?) &&
      (run.listing.outcome.EventsStalled? ==> run.outcome.EventsHung? && run.runs == []) &&
      (run.listing.outcome.Events? ==>
        var ws := Windows(run.listing.outcome.records);
        |run.runs| <= |ws| &&
        (forall k :: 0 <= k < |run.runs| ==>
          run.runs[k] == DownloadImagesSpec(deviceId, ws[k].start, ws[k].end, it, path, rule, services(k), fuel)) &&
        (forall k :: 0 <= k < |run.runs| - 1 ==> !run.runs[k].outcome.PollHung?) &&
        (run.outcome.Processed? <==>
          |run.runs| == |ws| && forall k :: 0 <= k < |run.runs| ==> !run.runs[k].outcome.PollHung?))
  {
    var run := DownloadEventsSpec(deviceId, st, ed, it, path, rule, events, services, fuel);
    if run.listing.outcome.Events? {
      var rv := run.listing.outcome.records;
      assert rv[..0] == [];
      ProcessFromFollows(rv, EventPipeline(deviceId, it, path, rule, services, fuel), 0, []);
    }
  }
}
