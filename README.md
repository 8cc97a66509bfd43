# Sora-Cam still-image export, modelled in Dafny

This project models the part of the Sora-Cam sample tool that turns recorded
video into still images. It sends requests to the cloud camera service's
image-export API and paginates through its listings.

- **Sampling grid.** Given a window `[start, end]` and an interval,
  `downloadImages` computes the instants to export.
- **Quota gate.** It reads the device's export usage and refuses a grid larger
  than the remaining frame quota.
- **Submission.** It submits one export per instant and collects the returned
  export ids.
- **Polling.** It polls the export listing with exponential backoff until every
  id is accounted for or the attempts run out (`waitSoraCamExportImages` over
  `listSoraCamExportImages`). It then downloads every listed export that has a
  URL.
- **Events.** `downloadEventImages` lists the device's recorded events
  (`listSoraCamEventsForDevice`). It runs the same pipeline once for each motion
  event whose recording completed, on that event's own window.
- **Utilities.** From the utility module, the model covers three things:
  - the local file name `downloadImage` derives from a URL;
  - the ordering check `checkStartEndDatetime`;
  - the format check in `convertFormattedStringDateTime`.

## How the model is built

- **Endpoints as oracles.** Every remote endpoint is a function-valued
  parameter. An export reply is indexed by the request's position in the batch.
  A listing reply is indexed by the request's position in the pagination, and
  for the poller also by the round. A listing reply is `None` for an HTTP or
  transport error. Otherwise it is a `Page` carrying the decoded JSON body and
  the `x-soracom-next-key` header, if present.
- **Loops as methods.** Each loop of the source is a `method` with a `while`
  loop:
  - the submission loop;
  - the two paginations, including the inner strike-out loop;
  - the backoff loop and its tally loop;
  - the download loop;
  - the loop over events.

  Each method is proved equal to a specification function on the inputs. The
  properties the source promises are lemmas about those functions.
- **Fuel for pagination.** The source re-sends the same request when a page is
  empty, is not a list, or lacks the next key while ids are still outstanding.
  Nothing bounds how often it does so, and only a later reply can end the loop.
  So each pagination takes a `fuel` bound on the number of requests. A run that
  uses up its fuel is `Stalled`: it had not returned within `fuel` requests. The
  model says nothing about what further requests would bring.
- **Poll outcomes.** A poll whose listing stalls is `Hung`. In that case
  `downloadImages`, and the `downloadEventImages` that called it, have not
  returned either. `PythonResult` maps every outcome to the Python return value:
  - `True`;
  - `None`;
  - nothing, when the call has not returned.
- **Stop rule.** The poll, `downloadImages` and `downloadEventImages` take a
  `StopRule`. `AsWritten` is the test of the source: the poll stops on the
  matching count alone. `SettledOnly` also waits until every matching export
  has a terminal status; see "## Findings". Every property below holds for
  both rules unless its row names one.
- **Time.** Instants are integer milliseconds. The interval arrives already
  converted to a positive number of milliseconds.

## Model

| member | source | states |
|---|---|---|
| `ExportApi.ExportBody` | export_sample.py:122-125 | the JSON body of an export request: the `imageFilters` key first when the filter is requested, then `time`. It has two keys with the filter and one without |
| `ExportApi.ExportBodyRoundTrip` | export_sample.py:122-125 | the export body asks for exactly the given instant. It carries the `wide_angle_correction` filter exactly when that is requested, and no filter otherwise |
| `ExportApi.PageItems` | export_sample.py:283-284 | a reply adds elements to the result exactly when it is a non-empty list |
| `ExportApi.HarvestAppend` | export_sample.py:284 | the accumulated result of two runs of replies is the first run's result followed by the second's |
| `SampleGrid.Grid` | export_sample.py:392-400 | the list of export instants. It has at least two instants, starts at `start` and ends at `end` |
| `SampleGrid.GridShort` | export_sample.py:392-400 | a span of at most one interval gives exactly `[start, end]` |
| `SampleGrid.GridLong` | export_sample.py:392-398 | a longer span gives `span / it + 2` instants: `start + k*it` for `k = 0..q`, then `end`. The last uniform instant lies within one interval before `end`. `end` repeats the previous instant exactly when the span is a multiple of the interval |
| `SampleGrid.GridOrdered` | export_sample.py:392-400 | for `start < end`, the grid starts at `start` and ends at `end`. Every gap but the last is exactly one interval, the last is at most one, and every instant lies in the window |
| `SampleGrid.GridSorted` | export_sample.py:392-400 | for `start < end`, the grid is sorted |
| `SampleGrid.TenMinuteWindow` | export_sample.py:387-402 | 12:00–12:10 at three minutes gives the five instants 12:00, 12:03, 12:06, 12:09 and 12:10 |
| `SampleGrid.ShortEventWindow` | export_sample.py:399-400 | a one-minute window at three minutes gives its two end points |
| `Submission.ExportCallsAt` | export_sample.py:422-426 | request k goes to the device and asks for grid instant k with the wide-angle filter |
| `Submission.SubmissionAccounting` | export_sample.py:430-435 | collected ids plus failures never exceed the requests. They are equal exactly when no reply is an object without `exportId` |
| `Submission.CollectedIdsAppend` | export_sample.py:430-432 | ids are collected in reply order |
| `Submission.CollectedIdsFromReplies` | export_sample.py:430-432 | every collected id was the `exportId` of some reply |
| `Submission.Submit` | export_sample.py:419-436 | the loop sends one request per instant in grid order. It returns the ids of the replies that are objects with `exportId`, in order, and counts the replies that are not objects |
| `ExportListing.RemoveFirst` | export_sample.py:288-289 | `list.remove` of one id: a present id shortens the worklist by one. The source only removes an id after the `in` test at line 288, so the id is always present there. Python's `list.remove` would raise `ValueError` on an absent id. The clause that an absent id leaves the worklist unchanged is the model's own total extension and is never reached from line 288 |
| `ExportListing.Strike` | export_sample.py:286-289 | the strike-out loop over one page: each record whose `exportId` is still in the worklist removes one occurrence. What it leaves is stated by `StrikeMultiset` and `StrikeEmpty` |
| `ExportListing.RemoveFirstMultiset` | export_sample.py:288-289 | `list.remove` of a present id takes one occurrence out of the worklist's multiset |
| `ExportListing.IdsOfMember` | export_sample.py:286-288 | every id collected from a page is the `exportId` of one of its records |
| `ExportListing.StrikeMultiset` | export_sample.py:286-289 | after striking a page, the worklist is the multiset difference of the requested ids and the ids seen |
| `ExportListing.StrikeEmpty` | export_sample.py:286-291 | the worklist empties exactly when every requested id was seen, with its multiplicity |
| `ExportListing.StrikeAppend` | export_sample.py:286-289 | striking two pages in turn is striking their concatenation |
| `ExportListing.ListExportImages` | export_sample.py:247-317 | the pagination loop with its strike-out loop equals the specification `Drain` from the first query |
| `ExportListing.DrainLength` | export_sample.py:275-305 | a run makes at most `fuel` requests, and exactly `fuel` when it stalls |
| `ExportListing.ListingTrace` | export_sample.py:257-305 | every request goes to the device with `limit = len(ids)`. The first request has no cursor, and each next one takes the next key of a non-empty page before it, or repeats the query. A run makes at most `fuel` requests, all of them when it stalls. Every reply but the last was a page, and a non-empty one left some id outstanding |
| `ExportListing.ListingResult` | export_sample.py:271-317 | a returned list is the concatenation, in fetch order, of the non-empty pages. The last reply was a non-empty page, and every requested id appears in it at least as often as requested. An HTTP error is the last reply. A stalled run received only pages |
| `ExportPoller.MatchCount` | export_sample.py:336-339 | `_nc`: the number of listed records whose `exportId` is a requested id, whatever their status. It never exceeds the number of records |
| `ExportPoller.Decisive` | export_sample.py:350-356 | the test that ends the poll: a returned listing whose matching count equals `len(ids)`. Under `SettledOnly` every matching record must also be completed, failed, limitExceeded or expired. Its consequences are stated by `PollSpec` |
| `ExportPoller.BackoffMillis` | export_sample.py:359 | the sleep `2 ** backoff` seconds plus the jitter, in milliseconds. Its bounds are stated by `SleepsGrow` |
| `ExportPoller.Tally` | export_sample.py:335-347 | the count is the number of listed records whose id was requested. The flag stays true exactly when it was true and no such record is failed, limitExceeded or expired. The third result says whether every such record has a terminal status |
| `ExportPoller.WaitExportImages` | export_sample.py:325-369 | the backoff loop equals the specification `Poll` over the listing rounds |
| `ExportPoller.PollSpec` | export_sample.py:331-365 | the poll makes between 1 and `max(1, MAX_ATTEMPT)` rounds, round k being listing k. A round is decisive when it returned a listing whose matching count equals `len(ids)` and, under `SettledOnly`, every matching record has settled. Every round before the last was retried after its backoff sleep. It is ready exactly when the last round was decisive, and then returns that listing and whether no listing so far held a degraded record. It hangs exactly when the last round stalls. It times out only after all attempts, with one more sleep after the last round |
| `ExportPoller.PollRounds` | export_sample.py:349-367 | every round before the last was retried: it returned no decisive listing |
| `ExportPoller.SleepsGrow` | export_sample.py:358-362 | sleep k is `2^(k+1)` seconds plus the jitter: between `2^(k+1)` and `2^(k+1) + 1` seconds. Each sleep is longer than the one before |
| `ExportPoller.DownloadPollTimeout` | export_sample.py:359-365 | with the bound 5 of downloadImages, a timed-out poll made five rounds and slept five times, 62 to 67 seconds in all |
| `ExportPoller.TimeoutSleepTotal` | export_sample.py:358-365 | a timed-out poll made `max(1, MAX_ATTEMPT)` rounds and as many sleeps. For n sleeps the total lies between `2^(n+1) - 2` seconds and n seconds more |
| `ExportPoller.DefaultPollTimeout` | export_sample.py:325-365 | with the default bound 7, a timed-out poll made seven rounds and slept 254 to 261 seconds in all |
| `ExportPoller.AsWrittenIgnoresStatus` | export_sample.py:336-356 | under `AsWritten`, a first listing whose matching count is `len(ids)` ends the poll at once, whatever the statuses of its records |
| `ExportPoller.PendingExportStopsPoll` | export_sample.py:336-356 | a listing that always shows the one requested export `processing`. `AsWritten` is ready after one round, reporting no degraded export. `SettledOnly` runs out of attempts |
| `ExportPoller.ReadySettled` | export_sample.py:336-356 | under `SettledOnly`, a ready poll's listing has `len(ids)` matches, and every matching record is completed, failed, limitExceeded or expired. When no degraded record was seen, every one of them is completed |
| `ExportPoller.KeepMultiset` | export_sample.py:337-339 | the ids kept by the membership test keep each requested id's multiplicity in the listing |
| `ExportPoller.MatchCountKeep` | export_sample.py:336-339 | the matching count is the number of listed ids that are in the request |
| `ExportPoller.MatchCountCovers` | export_sample.py:336-350 | a listing that saw every requested id counts at least `len(ids)` matches |
| `ExportPoller.RoundCount` | export_sample.py:333-350 | a listing a round returns covers every requested id and counts at least `len(ids)` matches |
| `ExportPoller.ReadyCovers` | export_sample.py:349-356 | a ready poll hands back a listing with exactly `len(ids)` matches, in which every requested id appears |
| `EventListing.ListEventsForDevice` | export_sample.py:172-238 | the event pagination loop equals the specification `DrainEvents` from the first query |
| `EventListing.DrainEventsLength` | export_sample.py:197-226 | a run makes at most `fuel` requests, and exactly `fuel` when it stalls |
| `EventListing.EventListingTrace` | export_sample.py:181-224 | every query carries the device, `limit = 10`, the window and `sort = asc`. Only the cursor changes: there is none at first, then the next key of a non-empty page before it. Every reply but the last was a page that did not end the loop |
| `EventListing.EventListingResult` | export_sample.py:197-238 | returned events are the concatenation, in fetch order, of the non-empty pages. The last page had no next key, and the list is never empty. An HTTP error is the last reply |
| `EventListing.Eligible` | export_sample.py:480-482 | an event is processed when it has `eventInfo.atomEventV1` with type `motion` and recording status `completed`. Its use is stated by `WindowsSingle` |
| `EventListing.Windows` | export_sample.py:479-484 | the windows of the eligible events, in listing order. What it holds is stated by `WindowsExactly` |
| `EventListing.WindowsAppend` | export_sample.py:479-485 | the eligible-event filter keeps listing order |
| `EventListing.WindowsSingle` | export_sample.py:480-484 | one event gives its window exactly when it is a motion event whose recording completed |
| `EventListing.WindowsExactly` | export_sample.py:479-485 | every eligible event gives a window and every window comes from an eligible event |
| `Pipeline.DownloadAll` | export_sample.py:448-453 | the download loop writes exactly the paths of `DownloadTargets`, whose completeness and order are proved by `DownloadTargetsComplete` and `DownloadTargetsAppend` |
| `Pipeline.DownloadTargetsShape` | export_sample.py:448-453 | every written path is `TargetPath` of the URL of some listed record, namely `path + "/" + name` with no `?` and no `/` in the name. There are no more paths than records |
| `Pipeline.DownloadTargetsAppend` | export_sample.py:448-453 | downloading a listing in two parts gives the first part's paths followed by the second's, so the files follow the listing order |
| `Pipeline.DownloadTargetsSingle` | export_sample.py:449-453 | a single record gives one path, its URL's `TargetPath`, when it has a URL, and no path otherwise |
| `Pipeline.DownloadTargetsComplete` | export_sample.py:448-453 | every listed record with a URL has its path among those written |
| `Pipeline.DownloadImages` | export_sample.py:382-457 | downloadImages equals its specification `DownloadImagesSpec`. The grid is followed by the quota gate, the submission loop, the poll with attempt bound 5, and the downloads |
| `Pipeline.QuotaGate` | export_sample.py:409-416 | the gate on the usage reply: a missing reply, `image` or `remainingFrames` stops the run, as does a grid larger than `remainingFrames`. Its effect is stated by `GateBlocksRequests` |
| `Pipeline.GateBlocksRequests` | export_sample.py:404-416 | without `image.remainingFrames` the result is NoUsage, and with fewer frames than instants it is Shortage. Either way no request is sent, nothing is polled and the result is None |
| `Pipeline.OneRequestPerInstant` | export_sample.py:418-437 | past the gate there is exactly one request per grid instant, for that instant, with the filter. Ids plus failures are at most the grid size, and every id came from a reply |
| `Pipeline.ReturnsTrueIffReady` | export_sample.py:439-457 | with no collected id there is no poll and the result is None. Otherwise the poll runs on exactly the collected ids with bound 5. The result is True exactly when the poll is ready, degraded or not, and has not returned exactly when the poll hangs. The paths are those of the ready listing |
| `Pipeline.DownloadedCoversIds` | export_sample.py:439-455 | a True run polled between one and five times, and downloaded a listing with exactly one matching record per id, in which every id appears |
| `Pipeline.ShortageExample` | export_sample.py:404-416 | the five-instant ten-minute grid against three remaining frames is refused before any request |
| `Pipeline.PendingExportDownloadsNothing` | export_sample.py:439-455 | under `AsWritten`, with one export id still `processing` and no URL, downloadImages returns True having written no file |
| `Pipeline.PendingExportTimesOut` | export_sample.py:439-446 | under `SettledOnly`, the same service makes the poll run out of attempts, and downloadImages returns None |
| `Pipeline.DownloadedSettled` | export_sample.py:439-455 | under `SettledOnly`, a run that returns True downloaded a listing in which every record of a collected id has a terminal status |
| `Pipeline.DownloadEventImages` | export_sample.py:469-502 | downloadEventImages equals its specification `DownloadEventsSpec` |
| `Pipeline.WindowAt` | export_sample.py:479-485 | an eligible event's window sits in the list of all windows right after those of the events before it |
| `Pipeline.ProcessFromFollows` | export_sample.py:479-496 | the event loop runs the pipeline on the windows in order. It stops only after a run whose poll stalled |
| `Pipeline.EventsProcessedInOrder` | export_sample.py:469-502 | the result is None exactly when the event listing fails. A stalled listing runs no pipeline and the call has not returned. Otherwise the k-th eligible event's window goes through `downloadImages` with the k-th service state, in listing order. Only the last run may hang, and the result is True exactly when every eligible event was processed and none hung |
| `SoracomUtils.Split` | soracom_utils.py:56-57 | Python's `str.split` with a one-character separator. It always returns at least one piece |
| `SoracomUtils.FileName` | soracom_utils.py:56-57 | `url.split('?')[0].split('/')[-1]`, the base name. Its shape is stated by `FileNameShape` |
| `SoracomUtils.TargetName` | soracom_utils.py:58-59 | the base name with `seq + "_"` in front when the sequence number is non-empty. Stated by `TargetPathShape` |
| `SoracomUtils.TargetPath` | soracom_utils.py:60 | `path + "/" + name`, the file written and returned. Stated by `TargetPathShape` |
| `SoracomUtils.SplitPieces` | soracom_utils.py:56-57 | no piece of `str.split` holds the separator. There is more than one piece exactly when the separator occurs |
| `SoracomUtils.JoinSplit` | soracom_utils.py:56-57 | joining the pieces of a split gives the string back |
| `SoracomUtils.SplitJoin` | soracom_utils.py:56-57 | splitting the join of separator-free pieces gives the pieces back |
| `SoracomUtils.FirstPiece` | soracom_utils.py:56 | `split('?')[0]` is the prefix before the first `?` |
| `SoracomUtils.LastPiece` | soracom_utils.py:57 | `split('/')[-1]` is the suffix after the last `/` |
| `SoracomUtils.FileNameShape` | soracom_utils.py:56-57 | the file name has no `?` and no `/`. It is the last `/`-segment of the URL's part before the first `?` |
| `SoracomUtils.TargetPathShape` | soracom_utils.py:58-60 | the path is `path + "/" + seq + "_" + name` for a non-empty sequence number and `path + "/" + name` otherwise |
| `SoracomUtils.CheckStartEnd` | soracom_utils.py:125-149 | the check passes exactly when both arguments are datetimes, the start is before the end and, when now is given, the end is before now. In that case the start is before now too |
| `SoracomUtils.ConvertFormatted` | soracom_utils.py:90-105 | an accepted string is handed to `strptime` with ` +0900` appended. The two `re.match` patterns are modelled by `MatchesAtStart` over the character classes `DateClasses` (`20[0-9][0-9][01][0-9][0-3][0-9]`) and `TimeClasses` (`[0-2][0-9][0-6][0-9][0-6][0-9]`). A match anchors at the start of the token |
| `SoracomUtils.ConvertAcceptsExactlyWellFormed` | soracom_utils.py:90-116 | `strptime` is reached exactly when the first two space-separated tokens have 8 and 6 characters and fit the date and time patterns. An argument without a space is always rejected, because the appended zone makes a 5-character second token |

## Findings

| source | as written | input that shows it | evidently intended | confidence | as-written member | corrected member |
|---|---|---|---|---|---|---|
| export_sample.py:336-356 | `_nc` counts every listed record of a requested id before its status is looked at. So the poll stops as soon as each export is listed, even while some are still being prepared | the one export id "a" listed as `{"exportId": "a", "status": "processing"}` without a URL: the poll is ready after one round, and downloadImages returns True having written no file | stop only once the outcome of every export can be told, downloadable or not (the comment above the test says so). That means every matching record is completed, failed, limitExceeded or expired | medium; not executed | `Pipeline.PendingExportDownloadsNothing` | `ExportPoller.ReadySettled` |

The corrected poll is `StopRule.SettledOnly`. `Pipeline.PendingExportTimesOut` and `Pipeline.DownloadedSettled` state what it changes for downloadImages. Every other lemma about the poll, downloadImages and downloadEventImages holds for both rules.

## Left out

- HTTP, URL encoding, JSON decoding, authentication headers and logging are not modelled. Each endpoint is an oracle parameter whose reply is the decoded body, or `None` for an HTTP or transport error.
- The sleeps of the backoff are recorded as numbers of milliseconds, not performed. The random jitter `random.randint(0, 1000)` is a parameter function bounded to 0..1000.
- Datetime handling is not modelled: `getUnixtime`, `getDateTimeFromUnixTime`, `strptime`, the Asia/Tokyo zone and the float-seconds interval `int(interval*1000)`. Instants are integer milliseconds, and the interval is assumed already converted to a positive number of milliseconds, which is why `DownloadImages` requires `it > 0`. That requirement excludes both zero and negative intervals. In the source these cases behave as follows:
  - With `_it == 0` the source divides by zero only when `_trange > 0`, at lines 392-394. Otherwise it falls back to `[_st, _ed]`.
  - A negative interval never raises an error. Instead `_q` is at most zero, so the result is silently `[_st, _ed]` or only `[_ed]`.

  Neither case is a meaningful sampling request, so the model does not cover them. The quotient `_q = int(_trange / int(_it))` at line 394 is a true division truncated by `int`. Both operands are positive there (`_trange > _it > 0`), so truncation equals the integer quotient `(end - start) / it` that the model uses. Float rounding of very large spans is not modelled.
- `Pipeline.EventsProcessedInOrder`: the round trip of an event's millisecond times through `datetime` and back is taken as exact. Each event's window is its `startTime` and `endTime` as listed.
- `downloadImage`'s network read, the file write and their exceptions are left out. A download is modelled by the path it writes, and its failure is not modelled.
- `clearDir` and the command-line entry point (argument parsing, the `__main__` block) are not part of this model.
- Python exceptions raised on malformed replies are not modelled:
  - the `TypeError` when the export endpoint replies with an empty body (`'exportId' in None`);
  - a `KeyError` for a record without `status`;
  - a `KeyError` for an `atomEventV1` without `type`, `recordingStatus`, `startTime` or `endTime`;
  - elements of a listing that are not JSON objects.

  Listing elements are modelled as records whose optional keys are `Option` fields.
- `ExportListing.ListExportImages`, `EventListing.ListEventsForDevice`: the unbounded re-requesting of the source is cut off by `fuel`. A run that uses up its fuel is reported as not having returned, so the model says nothing about what a longer run would do.
- `ExportPoller.WaitExportImages`: the wait under `SettledOnly` is the evidently intended behaviour, not the source's. The source always behaves as `AsWritten`.
- `ExportPoller.WaitExportImages`: the degraded-status flag is only logged by the source. The model returns it as the `allCompleted` field of `Ready`, and it does not change the result.
- `ExportPoller.ReadyCovers`: a listing that repeats a requested id counts more matches than `len(ids)`, so such a round is not ready even though every id was seen. The model reproduces this as written.
- `EventListing.EventListingResult`: `downloadEventImages` returns True for an empty event list, but the event listing can never return one. The model keeps the empty-list branch, and the lemma shows it cannot be reached from a successful listing.
- Service state across calls is modelled per call: each `downloadImages` run of the event loop gets its own `Service` value, giving its usage reply and endpoint oracles, indexed by its position among the eligible events.
