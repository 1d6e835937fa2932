/**
 * The events sent to the client over the download channel, and the mapping
 * of the extractor's progress reports to events (`progress_hook` inside
 * `download_video`, main.py).
 */
module Progress {
  import opened Wrappers
  import Catalog

  /** Why a request or a download session ends in an "error" event. */
  datatype ErrorKind =
    | TooManyRequests             // rate limit refused the message
    | InvalidUrl                  // the allow-list refused the URL
    | NoVideoInfo                 // the extractor returned nothing or raised
    | DeclaredTooLarge(size: int) // the declared size exceeds the limit
    | FormatTooLarge(size: int)   // the selected format's size exceeds the limit
    | FileTooLarge(size: int)     // the downloaded file exceeds the limit
    | Fault                       // any other exception

  /** A message from server to client: the `status` tag and its fields. */
  datatype Event =
    | Info
    | Downloading(downloadedBytes: int, totalBytes: int, speed: int, eta: int)
    | Finished
    | Complete(video: Catalog.Video)
    | Error(kind: ErrorKind)

  /** The dictionary the extractor passes to a progress hook. */
  datatype HookReport = HookReport(
    status: Option<string>,
    downloadedBytes: Option<int>,
    totalBytes: Option<int>,
    speed: Option<int>,
    eta: Option<int>)

  /**
   * The event `progress_hook` sends for one report: a "downloading" event
   * with each missing figure taken as 0, exactly `{'status': 'finished'}`
   * for a finished transfer, and nothing for any other status or when the
   * report has no status (the KeyError is logged and swallowed).
   */
  function ProgressHook(d: HookReport): (e: Option<Event>)
    ensures e.Some? <==> d.status == Some("downloading") || d.status == Some("finished")
    ensures e == Some(Finished) <==> d.status == Some("finished")
    ensures d.status == Some("downloading") ==>
      e.Some? && e.value.Downloading? &&
      e.value.downloadedBytes == d.downloadedBytes.GetOr(0) &&
      e.value.totalBytes == d.totalBytes.GetOr(0) &&
      e.value.speed == d.speed.GetOr(0) &&
      e.value.eta == d.eta.GetOr(0)
  {
    if d.status == Some("downloading") then
      Some(Downloading(d.downloadedBytes.GetOr(0), d.totalBytes.GetOr(0), d.speed.GetOr(0), d.eta.GetOr(0)))
    else if d.status == Some("finished") then
      Some(Finished)
    else
      None
  }

  /** The events a whole stream of reports produces, in report order. */
  function HookEvents(reports: seq<HookReport>): (events: seq<Event>)
    ensures |events| <= |reports|
    ensures forall i :: 0 <= i < |events| ==> events[i].Downloading? || events[i].Finished?
    decreases |reports|
  {
    if reports == [] then []
    else
      var last := reports[|reports| - 1];
      HookEvents(reports[..|reports| - 1]) + (match ProgressHook(last) case Some(e) => [e] case None => [])
  }

  /** A single report is relayed as its own event, if it has one. */
  lemma HookEventsSingle(r: HookReport)
    ensures HookEvents([r]) == (if ProgressHook(r).Some? then [ProgressHook(r).value] else [])
  {
    assert [r][..0] == [];
  }

  /** Relaying distributes over concatenation: every report's event is sent, in report order. */
  lemma {:induction false} HookEventsConcat(a: seq<HookReport>, b: seq<HookReport>)
    ensures HookEvents(a + b) == HookEvents(a) + HookEvents(b)
    decreases |b|
  {
    if b == [] {
      assert a + b == a;
    } else {
      var n := |b|;
      assert (a + b)[..|a + b| - 1] == a + b[..n - 1];
      assert (a + b)[|a + b| - 1] == b[n - 1];
      HookEventsConcat(a, b[..n - 1]);
    }
  }
}
