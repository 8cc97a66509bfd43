/** waitSoraCamExportImages: repeat the status listing with exponential
    backoff until a listing reports, among its records, exactly as many
    records for the requested ids as ids were requested (and, under the
    corrected rule, all of them settled), or the attempts run out. The sleep is a value in the trace (the jitter of each round is a
    parameter), and a listing that stalls leaves the poll without a result
    (`Hung`). */
module ExportPoller {
  import opened Wrappers
  import opened ExportApi
  import opened ExportListing

  /** The listing endpoint across rounds: the reply to the k-th request of
      round r. */
  type RoundOracle = (nat, nat, ListQuery) -> PageReply<ExportRecord>

  /** The random part of one backoff, in milliseconds (`randint(0, 1000)`). */
  type Jitter = j: int | 0 <= j <= 1000

  /** The attempt bound when the caller gives none, and the one downloadImages
      passes. */
  const DefaultMaxAttempt: int := 7
  const DownloadMaxAttempt: int := 5

  /** Whether a record belongs to the requested ids. */
  predicate Matches(ids: seq<ExportId>, d: ExportRecord)
  {
    d.exportId.Some? && d.exportId.value in ids
  }

  /** The number of records that belong to the requested ids. */
  function MatchCount(ids: seq<ExportId>, records: seq<ExportRecord>): (c: nat)
    ensures c <= |records|
  {
    if records == [] then 0
    else MatchCount(ids, records[..|records| - 1]) + (if Matches(ids, records[|records| - 1]) then 1 else 0)
  }

  /** The statuses that mean an export will never be downloadable. */
  predicate Degraded(status: string)
  {
    status == "failed" || status == "limitExceeded" || status == "expired"
  }

  /** No record of the requested ids carries a degraded status. */
  predicate AllCompleted(ids: seq<ExportId>, records: seq<ExportRecord>)
  {
    forall k :: 0 <= k < |records| && Matches(ids, records[k]) ==> !Degraded(records[k].status)
  }

  /** The flag the poll keeps across rounds: no returned listing so far had a
      degraded record of the requested ids. */
  predicate CompletedSoFar(ids: seq<ExportId>, rounds: seq<ListRun>)
  {
    forall k :: 0 <= k < |rounds| && rounds[k].outcome.Listed? ==> AllCompleted(ids, rounds[k].outcome.records)
  }

  /** How a poll ends: with the final listing and whether every export so
      seen completed; out of attempts; or inside a listing that stalled. */
  datatype PollOutcome = Ready(records: seq<ExportRecord>, allCompleted: bool) | TimedOut | Hung

  /** A poll with its trace: the listing of each round and each sleep, in
      milliseconds. */
  datatype PollRun = PollRun(outcome: PollOutcome, rounds: seq<ListRun>, sleeps: seq<int>)

  function Pow2(n: nat): nat
  {
    if n == 0 then 1 else 2 * Pow2(n - 1)
  }

  /** The sleep after an unsuccessful round at a given backoff exponent:
      `2 ** backoff` seconds plus the jitter. */
  function BackoffMillis(backoff: nat, jitter: Jitter): int
  {
    1000 * Pow2(backoff) + jitter
  }

  /** The endpoint as one listing of round `r` sees it. */
  function RoundFetch(fetch: RoundOracle, r: nat): ListOracle
  {
    (k: nat, q: ListQuery) => fetch(r, k, q)
  }

  /** The listing of each round: what listSoraCamExportImages does with the
      endpoint as round `r` sees it. */
  function Rounds(deviceId: string, ids: seq<ExportId>, fetch: RoundOracle, fuel: nat): nat -> ListRun
  {
    (r: nat) => Drain(RoundFetch(fetch, r), Start(deviceId, ids), fuel)
  }

  /** When a returned listing ends the poll. `AsWritten` is the test of the
      source: the listing counts exactly one matching record per requested id,
      whatever their statuses. `SettledOnly` also asks that every matching
      record has a terminal status, so that the outcome of each export is
      known when the poll stops. */
  datatype StopRule = AsWritten | SettledOnly

  /** The statuses after which an export no longer changes. */
  predicate Settled(status: string)
  {
    status == "completed" || Degraded(status)
  }

  /** Every record of the requested ids has a terminal status. */
  predicate AllSettled(ids: seq<ExportId>, records: seq<ExportRecord>)
  {
    forall k :: 0 <= k < |records| && Matches(ids, records[k]) ==> Settled(records[k].status)
  }

  /** A round is decisive when its listing returned and counted exactly one
      matching record per requested id and, under `SettledOnly`, every
      matching record has settled. */
  predicate Decisive(ids: seq<ExportId>, rule: StopRule, run: ListRun)
  {
    run.outcome.Listed? && MatchCount(ids, run.outcome.records) == |ids| &&
    (rule == SettledOnly ==> AllSettled(ids, run.outcome.records))
  }

  /** The smallest number of rounds any poll makes, and the largest. */
  function Attempts(maxAttempt: int): nat
  {
    if maxAttempt < 1 then 1 else maxAttempt
  }

  /** The poll loop as a function of its state: the backoff exponent, the
      completed flag and the trace so far. */
  function PollFrom(ids: seq<ExportId>, rule: StopRule, listing: nat -> ListRun, jitter: nat -> Jitter,
                    maxAttempt: int, backoff: nat, completed: bool,
                    rounds: seq<ListRun>, sleeps: seq<int>): PollRun
    decreases maxAttempt - backoff
  {
    var run := listing(|rounds|);
    var rounds' := rounds + [run];
    if run.outcome.Stalled? then PollRun(Hung, rounds', sleeps)
    else
      var completed' := completed && (run.outcome.Listed? ==> AllCompleted(ids, run.outcome.records));
      if Decisive(ids, rule, run) then PollRun(Ready(run.outcome.records, completed'), rounds', sleeps)
      else
        var sleeps' := sleeps + [BackoffMillis(backoff, jitter(|rounds|))];
        if backoff + 1 > maxAttempt then PollRun(TimedOut, rounds', sleeps')
        else PollFrom(ids, rule, listing, jitter, maxAttempt, backoff + 1, completed', rounds', sleeps')
  }

  /** The poll over given round listings. */
  function Poll(ids: seq<ExportId>, rule: StopRule, listing: nat -> ListRun, jitter: nat -> Jitter, maxAttempt: int): PollRun
  {
    PollFrom(ids, rule, listing, jitter, maxAttempt, 1, true, [], [])
  }

  /** The scan of one returned listing: count the records of the requested
      ids, clear the flag on a degraded one, and note whether every one of
      them has settled. */
  method Tally(ids: seq<ExportId>, l: seq<ExportRecord>, completed: bool)
    returns (nc: nat, completed': bool, settled: bool)
    ensures nc == MatchCount(ids, l)
    ensures completed' == (completed && AllCompleted(ids, l))
    ensures settled == AllSettled(ids, l)
  {
    nc, completed', settled := 0, completed, true;
    var i := 0;
    while i < |l|
      invariant 0 <= i <= |l|
      invariant nc == MatchCount(ids, l[..i])
      invariant completed' == (completed && AllCompleted(ids, l[..i]))
      invariant settled == AllSettled(ids, l[..i])
    {
      var d := l[i];
      assert l[..i + 1][..i] == l[..i];
      assert forall k :: 0 <= k < i ==> l[..i + 1][k] == l[..i][k];
      if d.exportId.Some? && d.exportId.value in ids {
        nc := nc + 1;
        if d.status == "completed" {
        } else if Degraded(d.status) {
          completed' := false;
        } else {
          settled := false;
        }
      }
      i := i + 1;
    }
    assert l[..i] == l;
  }

  /** waitSoraCamExportImages. */
  method WaitExportImages(deviceId: string, ids: seq<ExportId>, rule: StopRule, fetch: RoundOracle, jitter: nat -> Jitter,
                          maxAttempt: int, fuel: nat) returns (run: PollRun)
    ensures run == Poll(ids, rule, Rounds(deviceId, ids, fetch, fuel), jitter, maxAttempt)
  {
    var completed := true;
    var backoff: nat := 1;
    var rounds: seq<ListRun> := [];
    var sleeps: seq<int> := [];
    while true
      invariant backoff == |rounds| + 1
      invariant PollFrom(ids, rule, Rounds(deviceId, ids, fetch, fuel), jitter, maxAttempt, backoff, completed, rounds, sleeps) ==
                Poll(ids, rule, Rounds(deviceId, ids, fetch, fuel), jitter, maxAttempt)
      decreases maxAttempt - backoff
    {
      var listing := ListExportImages(deviceId, ids, RoundFetch(fetch, |rounds|), fuel);
      assert listing == Rounds(deviceId, ids, fetch, fuel)(|rounds|);
      var r := |rounds|;
      rounds := rounds + [listing];
      if listing.outcome.Stalled? {
        run := PollRun(Hung, rounds, sleeps);
        return;
      }
      if listing.outcome.Listed? {
        var l := listing.outcome.records;
        var nc, settled;
        nc, completed, settled := Tally(ids, l, completed);
        if nc == |ids| && (rule == SettledOnly ==> settled) {
          run := PollRun(Ready(l, completed), rounds, sleeps);
          return;
        }
      }
      sleeps := sleeps + [BackoffMillis(backoff, jitter(r))];
      backoff := backoff + 1;
      if backoff > maxAttempt {
        run := PollRun(TimedOut, rounds, sleeps);
        return;
      }
    }
  }

  // ---------------------------------------------------------------------------
  // What a poll guarantees
  // ---------------------------------------------------------------------------

  /** Rounds that neither stalled nor decided, each the listing of its round
      and each followed by the sleep for its exponent (stated from the last
      round back). */
  ghost predicate Retried(ids: seq<ExportId>, rule: StopRule, listing: nat -> ListRun, jitter: nat -> Jitter,
                          rounds: seq<ListRun>, sleeps: seq<int>)
    decreases |rounds|
  {
    |sleeps| == |rounds| &&
    (|rounds| > 0 ==>
      var k := |rounds| - 1;
      Retried(ids, rule, listing, jitter, rounds[..k], sleeps[..k]) &&
      rounds[k] == listing(k) && !rounds[k].outcome.Stalled? && !Decisive(ids, rule, rounds[k]) &&
      sleeps[k] == BackoffMillis(k + 1, jitter(k)))
  }

  /** The shape of a poll's run: every round but the last was retried, the
      last is the listing of its round, and there is one more sleep exactly
      when the poll ran out of attempts. */
  ghost predicate PollShape(ids: seq<ExportId>, rule: StopRule, listing: nat -> ListRun, jitter: nat -> Jitter,
                            maxAttempt: int, run: PollRun)
  {
    var n := |run.rounds| - 1;
    1 <= |run.rounds| <= Attempts(maxAttempt) &&
    n <= |run.sleeps| <= n + 1 &&
    Retried(ids, rule, listing, jitter, run.rounds[..n], run.sleeps[..n]) &&
    run.rounds[n] == listing(n) &&
    (|run.sleeps| == n + 1 <==> run.outcome.TimedOut?)
  }

  /** How a poll's outcome follows from its last round. */
  ghost predicate PollEnd(ids: seq<ExportId>, rule: StopRule, jitter: nat -> Jitter, maxAttempt: int, run: PollRun)
    requires |run.rounds| > 0 && |run.sleeps| >= |run.rounds| - 1
  {
    var n := |run.rounds| - 1;
    (run.outcome.Hung? <==> run.rounds[n].outcome.Stalled?) &&
    (run.outcome.Ready? <==> Decisive(ids, rule, run.rounds[n])) &&
    (run.outcome.Ready? ==>
      run.outcome.records == run.rounds[n].outcome.records &&
      run.outcome.allCompleted == CompletedSoFar(ids, run.rounds)) &&
    (run.outcome.TimedOut? ==>
      |run.rounds| == Attempts(maxAttempt) && |run.sleeps| == n + 1 &&
      run.sleeps[n] == BackoffMillis(n + 1, jitter(n)))
  }

  lemma CompletedSoFarAppend(ids: seq<ExportId>, rounds: seq<ListRun>, run: ListRun)
    ensures CompletedSoFar(ids, rounds + [run]) ==
            (CompletedSoFar(ids, rounds) && (run.outcome.Listed? ==> AllCompleted(ids, run.outcome.records)))
  {
    var rs := rounds + [run];
    assert forall k :: 0 <= k < |rounds| ==> rs[k] == rounds[k];
    assert rs[|rounds|] == run;
  }

  /** The run a state ends with when its next round ends the poll. */
  lemma PollEndsHere(ids: seq<ExportId>, rule: StopRule, listing: nat -> ListRun, jitter: nat -> Jitter,
                     maxAttempt: int, backoff: nat, completed: bool,
                     rounds: seq<ListRun>, sleeps: seq<int>)
    requires backoff == |rounds| + 1 && |rounds| < Attempts(maxAttempt)
    requires Retried(ids, rule, listing, jitter, rounds, sleeps)
    requires completed == CompletedSoFar(ids, rounds)
    requires var r := listing(|rounds|);
      r.outcome.Stalled? || Decisive(ids, rule, r) || backoff + 1 > maxAttempt
    ensures var run := PollFrom(ids, rule, listing, jitter, maxAttempt, backoff, completed, rounds, sleeps);
      PollShape(ids, rule, listing, jitter, maxAttempt, run) && PollEnd(ids, rule, jitter, maxAttempt, run)
  {
    var r := listing(|rounds|);
    var rounds' := rounds + [r];
    assert rounds'[..|rounds|] == rounds;
    CompletedSoFarAppend(ids, rounds, r);
    var sleeps' := sleeps + [BackoffMillis(backoff, jitter(|rounds|))];
    assert sleeps'[..|rounds|] == sleeps;
    var run := PollFrom(ids, rule, listing, jitter, maxAttempt, backoff, completed, rounds, sleeps);
    assert run.rounds == rounds';
    assert run.sleeps == sleeps || run.sleeps == sleeps';
    assert sleeps[..|rounds|] == sleeps;
  }

  /** A round that neither stalls nor decides, with attempts left, leads to a
      state that again satisfies the loop's invariant. */
  lemma PollStep(ids: seq<ExportId>, rule: StopRule, listing: nat -> ListRun, jitter: nat -> Jitter,
                 maxAttempt: int, backoff: nat, completed: bool,
                 rounds: seq<ListRun>, sleeps: seq<int>)
    requires backoff == |rounds| + 1
    requires Retried(ids, rule, listing, jitter, rounds, sleeps)
    requires completed == CompletedSoFar(ids, rounds)
    requires var r := listing(|rounds|); !r.outcome.Stalled? && !Decisive(ids, rule, r)
    ensures var r := listing(|rounds|);
      Retried(ids, rule, listing, jitter, rounds + [r], sleeps + [BackoffMillis(backoff, jitter(|rounds|))]) &&
      (completed && (r.outcome.Listed? ==> AllCompleted(ids, r.outcome.records))) == CompletedSoFar(ids, rounds + [r])
  {
    var r := listing(|rounds|);
    assert (rounds + [r])[..|rounds|] == rounds;
    assert (sleeps + [BackoffMillis(backoff, jitter(|rounds|))])[..|rounds|] == sleeps;
    CompletedSoFarAppend(ids, rounds, r);
  }

  lemma {:induction false} PollFromFacts(ids: seq<ExportId>, rule: StopRule, listing: nat -> ListRun, jitter: nat -> Jitter,
                                         maxAttempt: int, backoff: nat, completed: bool,
                                         rounds: seq<ListRun>, sleeps: seq<int>)
    requires backoff == |rounds| + 1 && |rounds| < Attempts(maxAttempt)
    requires Retried(ids, rule, listing, jitter, rounds, sleeps)
    requires completed == CompletedSoFar(ids, rounds)
    ensures var run := PollFrom(ids, rule, listing, jitter, maxAttempt, backoff, completed, rounds, sleeps);
      PollShape(ids, rule, listing, jitter, maxAttempt, run) && PollEnd(ids, rule, jitter, maxAttempt, run)
    decreases maxAttempt - backoff
  {
    var r := listing(|rounds|);
    if r.outcome.Stalled? || Decisive(ids, rule, r) || backoff + 1 > maxAttempt {
      PollEndsHere(ids, rule, listing, jitter, maxAttempt, backoff, completed, rounds, sleeps);
    } else {
      PollStep(ids, rule, listing, jitter, maxAttempt, backoff, completed, rounds, sleeps);
      var completed' := completed && (r.outcome.Listed? ==> AllCompleted(ids, r.outcome.records));
      PollFromFacts(ids, rule, listing, jitter, maxAttempt, backoff + 1, completed', rounds + [r],
                    sleeps + [BackoffMillis(backoff, jitter(|rounds|))]);
    }
  }

  /** A poll makes at least one and at most `max(1, maxAttempt)` rounds; round
      k is the listing of round k; every round but the last neither stalled
      nor decided and was followed by a sleep of `2 ** (k + 1)` seconds plus
      its jitter. The poll is ready exactly when its last round returned a
      listing with one matching record per id, which it then hands back
      together with whether no returned listing ever had a degraded record;
      it hangs exactly when its last listing stalls; otherwise it has
      used up every attempt and slept once more after the last round. */
  lemma PollSpec(ids: seq<ExportId>, rule: StopRule, listing: nat -> ListRun, jitter: nat -> Jitter, maxAttempt: int)
    ensures var run := Poll(ids, rule, listing, jitter, maxAttempt);
      PollShape(ids, rule, listing, jitter, maxAttempt, run) && PollEnd(ids, rule, jitter, maxAttempt, run)
  {
    PollFromFacts(ids, rule, listing, jitter, maxAttempt, 1, true, [], []);
  }

  /** The retried rounds, round by round. */
  lemma {:induction false} RetriedAt(ids: seq<ExportId>, rule: StopRule, listing: nat -> ListRun, jitter: nat -> Jitter,
                                     rounds: seq<ListRun>, sleeps: seq<int>)
    requires Retried(ids, rule, listing, jitter, rounds, sleeps)
    ensures |sleeps| == |rounds|
    ensures forall k :: 0 <= k < |rounds| ==>
      rounds[k] == listing(k) && !rounds[k].outcome.Stalled? && !Decisive(ids, rule, rounds[k]) &&
      sleeps[k] == BackoffMillis(k + 1, jitter(k))
    decreases |rounds|
  {
    if |rounds| > 0 {
      var k := |rounds| - 1;
      RetriedAt(ids, rule, listing, jitter, rounds[..k], sleeps[..k]);
      assert forall j :: 0 <= j < k ==> rounds[j] == rounds[..k][j] && sleeps[j] == sleeps[..k][j];
    }
  }

  /** Every round before the last was retried; in particular no earlier
      round was decisive. */
  lemma PollRounds(ids: seq<ExportId>, rule: StopRule, listing: nat -> ListRun, jitter: nat -> Jitter, maxAttempt: int)
    ensures var run := Poll(ids, rule, listing, jitter, maxAttempt);
      forall k :: 0 <= k < |run.rounds| ==>
        run.rounds[k] == listing(k) &&
        (k < |run.rounds| - 1 ==> !run.rounds[k].outcome.Stalled? && !Decisive(ids, rule, run.rounds[k]))
  {
    var run := Poll(ids, rule, listing, jitter, maxAttempt);
    PollSpec(ids, rule, listing, jitter, maxAttempt);
    var n := |run.rounds| - 1;
    RetriedAt(ids, rule, listing, jitter, run.rounds[..n], run.sleeps[..n]);
    assert forall k :: 0 <= k < n ==> run.rounds[k] == run.rounds[..n][k];
  }

  lemma Pow2Positive(n: nat)
    ensures Pow2(n) >= 1
  {
  }

  /** Sleep k is `2 ** (k + 1)` seconds plus at most one second, and each
      sleep is longer than the one before. */
  lemma {:induction false} SleepsGrow(ids: seq<ExportId>, rule: StopRule, listing: nat -> ListRun, jitter: nat -> Jitter, maxAttempt: int)
    ensures var s := Poll(ids, rule, listing, jitter, maxAttempt).sleeps;
      (forall k :: 0 <= k < |s| ==> s[k] == BackoffMillis(k + 1, jitter(k))) &&
      (forall k :: 0 <= k < |s| ==> 1000 * Pow2(k + 1) <= s[k] <= 1000 * Pow2(k + 1) + 1000) &&
      (forall k :: 0 <= k < |s| - 1 ==> s[k] < s[k + 1])
  {
    var run := Poll(ids, rule, listing, jitter, maxAttempt);
    PollSpec(ids, rule, listing, jitter, maxAttempt);
    var s, n := run.sleeps, |run.rounds| - 1;
    RetriedAt(ids, rule, listing, jitter, run.rounds[..n], s[..n]);
    forall k | 0 <= k < |s|
      ensures s[k] == BackoffMillis(k + 1, jitter(k))
    {
      if k < n {
        assert s[k] == s[..n][k];
      }
    }
    forall k | 0 <= k < |s| - 1
      ensures s[k] < s[k + 1]
    {
      Pow2Positive(k + 1);
      assert Pow2(k + 2) == 2 * Pow2(k + 1);
    }
  }

  function Sum(s: seq<int>): int
  {
    if s == [] then 0 else Sum(s[..|s| - 1]) + s[|s| - 1]
  }

  /** With the attempt bound downloadImages uses, a poll that runs out of
      attempts has made five rounds and slept five times, 62 to 67 seconds
      in all. */
  lemma DownloadPollTimeout(ids: seq<ExportId>, rule: StopRule, listing: nat -> ListRun, jitter: nat -> Jitter)
    requires Poll(ids, rule, listing, jitter, DownloadMaxAttempt).outcome.TimedOut?
    ensures var run := Poll(ids, rule, listing, jitter, DownloadMaxAttempt);
      |run.rounds| == 5 && |run.sleeps| == 5 && 62000 <= Sum(run.sleeps) <= 67000
  {
    var run := Poll(ids, rule, listing, jitter, DownloadMaxAttempt);
    PollSpec(ids, rule, listing, jitter, DownloadMaxAttempt);
    SleepsGrow(ids, rule, listing, jitter, DownloadMaxAttempt);
    var s := run.sleeps;
    assert Pow2(1) == 2 && Pow2(2) == 4 && Pow2(3) == 8 && Pow2(4) == 16 && Pow2(5) == 32;
    assert s[..1][..0] == [];
    assert s[..2][..1] == s[..1];
    assert s[..3][..2] == s[..2];
    assert s[..4][..3] == s[..3];
    assert s[..5][..4] == s[..4];
    assert s[..5] == s;
    assert Sum(s[..1]) == s[0];
    assert Sum(s[..2]) == s[0] + s[1];
    assert Sum(s[..3]) == s[0] + s[1] + s[2];
    assert Sum(s[..4]) == s[0] + s[1] + s[2] + s[3];
    assert Sum(s) == s[0] + s[1] + s[2] + s[3] + s[4];
  }

  /** Sleeps that each lie in their backoff band add up to between
      `2 ** (n + 1) - 2` seconds and one second more per sleep. */
  lemma {:induction false} SumBounds(s: seq<int>)
    requires forall k :: 0 <= k < |s| ==> 1000 * Pow2(k + 1) <= s[k] <= 1000 * Pow2(k + 1) + 1000
    ensures 1000 * (Pow2(|s| + 1) - 2) <= Sum(s) <= 1000 * (Pow2(|s| + 1) - 2) + 1000 * |s|
    decreases |s|
  {
    if s != [] {
      var n := |s| - 1;
      assert forall k :: 0 <= k < n ==> s[..n][k] == s[k];
      SumBounds(s[..n]);
      assert Pow2(n + 2) == 2 * Pow2(n + 1);
    }
  }

  /** A poll that runs out of attempts has made `max(1, maxAttempt)` rounds
      and slept as often, `2 + 4 + ... + 2 ** rounds` seconds plus up to one
      second of jitter per sleep. */
  lemma TimeoutSleepTotal(ids: seq<ExportId>, rule: StopRule, listing: nat -> ListRun, jitter: nat -> Jitter,
                          maxAttempt: int)
    requires Poll(ids, rule, listing, jitter, maxAttempt).outcome.TimedOut?
    ensures var run := Poll(ids, rule, listing, jitter, maxAttempt); var n := Attempts(maxAttempt);
      |run.rounds| == n && |run.sleeps| == n &&
      1000 * (Pow2(n + 1) - 2) <= Sum(run.sleeps) <= 1000 * (Pow2(n + 1) - 2) + 1000 * n
  {
    PollSpec(ids, rule, listing, jitter, maxAttempt);
    SleepsGrow(ids, rule, listing, jitter, maxAttempt);
    SumBounds(Poll(ids, rule, listing, jitter, maxAttempt).sleeps);
  }

  /** With the default attempt bound, a poll that runs out of attempts has
      made seven rounds and slept 254 to 261 seconds in all. */
  lemma DefaultPollTimeout(ids: seq<ExportId>, rule: StopRule, listing: nat -> ListRun, jitter: nat -> Jitter)
    requires Poll(ids, rule, listing, jitter, DefaultMaxAttempt).outcome.TimedOut?
    ensures var run := Poll(ids, rule, listing, jitter, DefaultMaxAttempt);
      |run.rounds| == 7 && |run.sleeps| == 7 && 254000 <= Sum(run.sleeps) <= 261000
  {
    TimeoutSleepTotal(ids, rule, listing, jitter, DefaultMaxAttempt);
    assert Pow2(8) == 256;
  }

  // ---------------------------------------------------------------------------
  // Stopping on the count alone
  // ---------------------------------------------------------------------------

  /** As written, the first listing that counts one matching record per
      requested id ends the poll, whatever the statuses of those records:
      exports still being prepared count as decided. */
  lemma AsWrittenIgnoresStatus(ids: seq<ExportId>, listing: nat -> ListRun, jitter: nat -> Jitter, maxAttempt: int)
    requires listing(0).outcome.Listed? && MatchCount(ids, listing(0).outcome.records) == |ids|
    ensures var l := listing(0).outcome.records;
      Poll(ids, AsWritten, listing, jitter, maxAttempt) == PollRun(Ready(l, AllCompleted(ids, l)), [listing(0)], [])
  {
  }

  /** One export still `processing`, listed the same way in every round: as
      written the poll is ready after the first round and reports no degraded
      export; waiting for settled statuses it keeps polling and runs out of
      attempts. */
  lemma PendingExportStopsPoll(listing: nat -> ListRun, jitter: nat -> Jitter)
    requires forall r: nat :: listing(r).outcome == Listed([ExportRecord(Some("a"), "processing", None)])
    ensures var l := [ExportRecord(Some("a"), "processing", None)];
      Poll(["a"], AsWritten, listing, jitter, DownloadMaxAttempt) == PollRun(Ready(l, true), [listing(0)], []) &&
      Poll(["a"], SettledOnly, listing, jitter, DownloadMaxAttempt).outcome == TimedOut
  {
    var l := [ExportRecord(Some("a"), "processing", None)];
    assert listing(0).outcome == Listed(l);
    assert MatchCount(["a"], l) == 1 by {
      assert l[..0] == [];
    }
    assert !AllSettled(["a"], l) by {
      assert Matches(["a"], l[0]) && !Settled(l[0].status);
    }
    AsWrittenIgnoresStatus(["a"], listing, jitter, DownloadMaxAttempt);
    assert AllCompleted(["a"], l);
    PollSpec(["a"], SettledOnly, listing, jitter, DownloadMaxAttempt);
    var run := Poll(["a"], SettledOnly, listing, jitter, DownloadMaxAttempt);
    assert run.rounds[|run.rounds| - 1] == listing(|run.rounds| - 1);
  }

  /** Waiting for settled statuses, a ready poll hands back a listing in
      which every record of the requested ids is completed, failed,
      limitExceeded or expired; when no listing reported a degraded record,
      every one of them is completed. */
  lemma ReadySettled(ids: seq<ExportId>, listing: nat -> ListRun, jitter: nat -> Jitter, maxAttempt: int)
    ensures var run := Poll(ids, SettledOnly, listing, jitter, maxAttempt);
      run.outcome.Ready? ==>
        var l := run.outcome.records;
        MatchCount(ids, l) == |ids| &&
        (forall k :: 0 <= k < |l| && Matches(ids, l[k]) ==> Settled(l[k].status)) &&
        (run.outcome.allCompleted ==> forall k :: 0 <= k < |l| && Matches(ids, l[k]) ==> l[k].status == "completed")
  {
    var run := Poll(ids, SettledOnly, listing, jitter, maxAttempt);
    PollSpec(ids, SettledOnly, listing, jitter, maxAttempt);
    if run.outcome.Ready? {
      var n := |run.rounds| - 1;
      assert run.rounds[n].outcome.Listed?;
    }
  }

  // ---------------------------------------------------------------------------
  // The count a returned listing reaches
  // ---------------------------------------------------------------------------

  /** The elements of `xs` that are requested ids, in order. */
  function Keep(xs: seq<ExportId>, ids: seq<ExportId>): seq<ExportId>
  {
    if xs == [] then [] else Keep(xs[..|xs| - 1], ids) + (if xs[|xs| - 1] in ids then [xs[|xs| - 1]] else [])
  }

  lemma {:induction false} KeepAppend(a: seq<ExportId>, b: seq<ExportId>, ids: seq<ExportId>)
    ensures Keep(a + b, ids) == Keep(a, ids) + Keep(b, ids)
    decreases |b|
  {
    if b == [] {
      assert a + b == a;
    } else {
      assert (a + b)[..|a + b| - 1] == a + b[..|b| - 1];
      KeepAppend(a, b[..|b| - 1], ids);
    }
  }

  lemma {:induction false} KeepMultiset(xs: seq<ExportId>, ids: seq<ExportId>, y: ExportId)
    ensures multiset(Keep(xs, ids))[y] == if y in ids then multiset(xs)[y] else 0
    decreases |xs|
  {
    if xs != [] {
      var n := |xs| - 1;
      KeepMultiset(xs[..n], ids, y);
      assert xs == xs[..n] + [xs[n]];
    }
  }

  lemma {:induction false} IdsOfAppend(a: seq<ExportRecord>, b: seq<ExportRecord>)
    ensures IdsOf(a + b) == IdsOf(a) + IdsOf(b)
    decreases |a|
  {
    if a == [] {
      assert a + b == b;
    } else {
      assert (a + b)[0] == a[0] && (a + b)[1..] == a[1..] + b;
      IdsOfAppend(a[1..], b);
    }
  }

  lemma {:induction false} MatchCountKeep(ids: seq<ExportId>, records: seq<ExportRecord>)
    ensures MatchCount(ids, records) == |Keep(IdsOf(records), ids)|
    decreases |records|
  {
    if records != [] {
      var n := |records| - 1;
      var last := records[n];
      MatchCountKeep(ids, records[..n]);
      assert records == records[..n] + [last];
      IdsOfAppend(records[..n], [last]);
      KeepAppend(IdsOf(records[..n]), IdsOf([last]), ids);
      assert IdsOf([last]) == if last.exportId.Some? then [last.exportId.value] else [];
      if last.exportId.Some? {
        assert Keep([last.exportId.value], ids) == Keep([], ids) + (if last.exportId.value in ids then [last.exportId.value] else []);
      }
    }
  }

  lemma MultisetCardinality(a: multiset<ExportId>, b: multiset<ExportId>)
    requires a <= b
    ensures |a| <= |b|
  {
    assert b == a + (b - a);
  }

  /** A listing that saw every requested id counts at least one matching
      record per id: it counts more exactly when some requested id occurs
      in more records than it was requested. */
  lemma MatchCountCovers(ids: seq<ExportId>, records: seq<ExportRecord>)
    requires multiset(ids) <= multiset(IdsOf(records))
    ensures MatchCount(ids, records) >= |ids|
  {
    var kept := Keep(IdsOf(records), ids);
    MatchCountKeep(ids, records);
    forall y
      ensures multiset(ids)[y] <= multiset(kept)[y]
    {
      KeepMultiset(IdsOf(records), ids, y);
    }
    MultisetCardinality(multiset(ids), multiset(kept));
  }

  /** Every returned listing of a round counts at least one matching record per
      requested id, and a decisive one covers every requested id. */
  lemma RoundCount(deviceId: string, ids: seq<ExportId>, fetch: RoundOracle, fuel: nat, r: nat)
    ensures var run := Rounds(deviceId, ids, fetch, fuel)(r);
      run.outcome.Listed? ==>
        MatchCount(ids, run.outcome.records) >= |ids| &&
        forall id :: id in ids ==> exists j :: 0 <= j < |run.outcome.records| &&
                                              run.outcome.records[j].exportId == Some(id)
  {
    ListingResult(deviceId, ids, RoundFetch(fetch, r), fuel);
    var run := Rounds(deviceId, ids, fetch, fuel)(r);
    if run.outcome.Listed? {
      MatchCountCovers(ids, run.outcome.records);
    }
  }

  /** A ready poll hands back a listing with exactly one matching record per
      requested id, in which every requested id appears. */
  lemma ReadyCovers(deviceId: string, ids: seq<ExportId>, rule: StopRule, fetch: RoundOracle, jitter: nat -> Jitter,
                    maxAttempt: int, fuel: nat)
    ensures var run := Poll(ids, rule, Rounds(deviceId, ids, fetch, fuel), jitter, maxAttempt);
      run.outcome.Ready? ==>
        MatchCount(ids, run.outcome.records) == |ids| &&
        forall id :: id in ids ==> exists j :: 0 <= j < |run.outcome.records| &&
                                              run.outcome.records[j].exportId == Some(id)
  {
    var listing := Rounds(deviceId, ids, fetch, fuel);
    var run := Poll(ids, rule, listing, jitter, maxAttempt);
    PollSpec(ids, rule, listing, jitter, maxAttempt);
    RoundCount(deviceId, ids, fetch, fuel, |run.rounds| - 1);
  }
}
