/** What the export orchestration exchanges with the cloud camera service:
    the export-request body, the replies of the usage, export and listing
    endpoints, and the generic page of a cursor-paginated listing. Every
    endpoint is an oracle; these types are what an oracle answers. */
module ExportApi {
  import opened Wrappers

  /** An export job identifier assigned by the service. */
  type ExportId = string

  // ---------------------------------------------------------------------------
  // The body of the image-export request (getSoraCamExportImages)
  // ---------------------------------------------------------------------------

  /** One key of the JSON body, in insertion order. */
  datatype BodyField = ImageFilters(filters: seq<string>) | Time(millis: int)

  const WideAngleCorrection: string := "wide_angle_correction"

  /** The body: the optional filter list first, then the export instant. */
  function ExportBody(extime: int, wideAngleCorrection: bool): (body: seq<BodyField>)
    ensures |body| == if wideAngleCorrection then 2 else 1
  {
    (if wideAngleCorrection then [ImageFilters([WideAngleCorrection])] else []) + [Time(extime)]
  }

  /** The instant a body asks for: the value of its first "time" key. */
  function TimeOf(body: seq<BodyField>): Option<int>
  {
    if body == [] then None
    else if body[0].Time? then Some(body[0].millis)
    else TimeOf(body[1..])
  }

  /** The filters a body asks for: those of its first "imageFilters" key. */
  function FiltersOf(body: seq<BodyField>): seq<string>
  {
    if body == [] then []
    else if body[0].ImageFilters? then body[0].filters
    else FiltersOf(body[1..])
  }

  /** Reading a built body back gives the instant and the filters it was
      built from: the wide-angle filter exactly when it was asked for. */
  lemma ExportBodyRoundTrip(extime: int, wideAngleCorrection: bool)
    ensures TimeOf(ExportBody(extime, wideAngleCorrection)) == Some(extime)
    ensures FiltersOf(ExportBody(extime, wideAngleCorrection)) ==
            if wideAngleCorrection then [WideAngleCorrection] else []
  {
    var body := ExportBody(extime, wideAngleCorrection);
    if wideAngleCorrection {
      assert body[1..] == [Time(extime)];
    }
  }

  /** One export request as sent: the device it is addressed to and its body. */
  datatype ExportCall = ExportCall(deviceId: string, body: seq<BodyField>)

  // ---------------------------------------------------------------------------
  // Replies
  // ---------------------------------------------------------------------------

  /** The reply of the export endpoint: anything that is not a JSON object
      (an HTTP or transport error gives `None`, which is not one either), or
      an object that may carry an "exportId". */
  datatype CreateReply = NotAnObject | Created(exportId: Option<ExportId>)

  /** The reply of the usage endpoint: `{image: {remainingFrames: n}}` with
      either key possibly missing. */
  datatype ImageUsage = ImageUsage(remainingFrames: Option<int>)
  datatype Usage = Usage(image: Option<ImageUsage>)

  /** One element of an export listing. */
  datatype ExportRecord = ExportRecord(exportId: Option<ExportId>, status: string, url: Option<string>)

  /** One page of a paginated listing: the decoded JSON body (`None` when it is
      not a list) and the value of the "x-soracom-next-key" header, if any. */
  datatype Page<T> = Page(body: Option<seq<T>>, nextKey: Option<string>)

  /** The reply to one listing request; `None` is an HTTP or transport error. */
  type PageReply<T> = Option<Page<T>>

  /** The reply carries a non-empty list: the only case in which a
      pagination loop extends its result and looks at the next-key header. */
  predicate Advances<T>(reply: PageReply<T>)
  {
    reply.Some? && reply.value.body.Some? && |reply.value.body.value| > 0
  }

  /** The elements a reply contributes to the accumulated result. */
  function PageItems<T>(reply: PageReply<T>): (items: seq<T>)
    ensures |items| > 0 <==> Advances(reply)
  {
    if Advances(reply) then reply.value.body.value else []
  }

  /** The accumulated result of a run of replies: their elements, page by
      page, in the order the pages were fetched. */
  function Harvest<T>(replies: seq<PageReply<T>>): seq<T>
  {
    if replies == [] then []
    else Harvest(replies[..|replies| - 1]) + PageItems(replies[|replies| - 1])
  }

  /** Harvesting is compatible with concatenating runs of replies. */
  lemma {:induction false} HarvestAppend<T>(a: seq<PageReply<T>>, b: seq<PageReply<T>>)
    ensures Harvest(a + b) == Harvest(a) + Harvest(b)
    decreases |b|
  {
    if b != [] {
      var b' := b[..|b| - 1];
      assert (a + b)[..|a + b| - 1] == a + b';
      HarvestAppend(a, b');
    } else {
      assert a + b == a;
    }
  }
}
