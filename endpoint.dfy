/**
 * The message loop of the download channel (`websocket_endpoint`,
 * main.py): every message is rate-checked first, then its action and URL
 * are inspected, and only an allowed download request starts a session.
 */
module Endpoint {
  import opened Wrappers
  import opened Config
  import opened UrlCheck
  import opened RateLimit
  import opened Progress

  /** A client message: the JSON keys the loop reads. */
  datatype Message = Message(action: Option<string>, url: Option<UrlInput>, formatId: Option<string>)

  /** What the loop does with one message. */
  datatype Step =
    | Reply(event: Event)                          // send an error, go on with the next message
    | Skip                                         // not a download request: nothing is sent
    | StartDownload(url: UrlInput, formatId: string) // run `download_video` under the semaphore
    | Close(event: Event)                          // a missing key raised: send an error, close the channel

  /** The handling of one message once the rate check has said `admitted`. */
  function Dispatch(admitted: bool, msg: Message): (s: Step)
    ensures s == Reply(Error(TooManyRequests)) <==> !admitted
    ensures s.StartDownload? ==> admitted && IsValidUrl(s.url.netloc)
  {
    if !admitted then Reply(Error(TooManyRequests))
    else match msg.action
      case None => Close(Error(Fault))
      case Some(action) =>
        if action != "download" then Skip
        else match msg.url
          case None => Close(Error(Fault))
          case Some(url) =>
            if !IsValidUrl(url.netloc) then Reply(Error(InvalidUrl))
            else StartDownload(url, msg.formatId.GetOr(BestFormat))
  }

  /**
   * The order of the checks: the rate verdict decides first; then a missing
   * key closes the channel, another action is ignored, a refused URL is
   * answered; a session starts exactly for an admitted download request
   * whose URL passes the allow-list.
   */
  lemma DispatchOrder(admitted: bool, msg: Message)
    ensures !admitted ==> Dispatch(admitted, msg) == Reply(Error(TooManyRequests))
    ensures admitted && msg.action.None? ==> Dispatch(admitted, msg) == Close(Error(Fault))
    ensures admitted && msg.action.Some? && msg.action.value != "download" ==> Dispatch(admitted, msg) == Skip
    ensures admitted && msg.action == Some("download") && msg.url.None? ==> Dispatch(admitted, msg) == Close(Error(Fault))
    ensures admitted && msg.action == Some("download") && msg.url.Some? && !IsValidUrl(msg.url.value.netloc) ==>
      Dispatch(admitted, msg) == Reply(Error(InvalidUrl))
    ensures Dispatch(admitted, msg).StartDownload? <==>
      admitted && msg.action == Some("download") && msg.url.Some? && IsValidUrl(msg.url.value.netloc)
    ensures Dispatch(admitted, msg).StartDownload? ==>
      Dispatch(admitted, msg) == StartDownload(msg.url.value, msg.formatId.GetOr(BestFormat))
  {
  }

  /**
   * Quota is spent by every message, whatever it asks for: a client with no
   * live entry whose messages all fall in the window of its first one has
   * every message from the 31st on refused, and its first 30 handled on their
   * own merits.
   */
  lemma EveryMessageSpendsQuota(table: map<string, Entry>, client: string, arrivals: seq<int>, msgs: seq<Message>)
    requires |msgs| == |arrivals|
    requires WithinFirstWindow(arrivals)
    requires !(client in table && Live(table[client], arrivals[0]))
    ensures forall i :: 0 <= i < |msgs| ==>
      Dispatch(Replay(table, client, arrivals).outcomes[i], msgs[i]) ==
        if i < MaxRequestsPerMinute then Dispatch(true, msgs[i]) else Reply(Error(TooManyRequests))
  {
    WindowAdmitsQuota(table, client, arrivals);
  }

  /** Replaying one more arrival extends the verdicts by that call's verdict. */
  lemma ReplayStep(table: map<string, Entry>, client: string, arrivals: seq<int>, i: int)
    requires 0 <= i < |arrivals|
    ensures var before := Replay(table, client, arrivals[..i]);
      var d := Admit(before.table, client, arrivals[i]);
      Replay(table, client, arrivals[..i + 1]) == History(before.outcomes + [d.admitted], d.table)
  {
    assert arrivals[..i + 1][..i] == arrivals[..i];
  }

  /** One pass of the receive loop: the rate check, then the message's own handling. */
  method HandleMessage(manager: DownloadManager, client: string, now: int, msg: Message)
    returns (admitted: bool, step: Step)
    requires manager.Valid()
    modifies manager
    ensures manager.Valid()
    ensures Decision(admitted, manager.requestCounts) == Admit(old(manager.requestCounts), client, now)
    ensures step == Dispatch(admitted, msg)
  {
    admitted := manager.CanDownload(client, now);
    step := Dispatch(admitted, msg);
  }

  /**
   * The receive loop for one connection: `msgs` are the messages received
   * in order until the client disconnects, `arrivals[i]` the time message i
   * is handled. Stops after the first step that closes the channel.
   */
  method Serve(manager: DownloadManager, client: string, arrivals: seq<int>, msgs: seq<Message>)
    returns (steps: seq<Step>)
    requires |arrivals| == |msgs|
    requires manager.Valid()
    modifies manager
    ensures manager.Valid()
    ensures |steps| <= |msgs|
    ensures |steps| < |msgs| ==> |steps| > 0 && steps[|steps| - 1].Close?
    ensures forall i :: 0 <= i < |steps| - 1 ==> !steps[i].Close?
    ensures var h := Replay(old(manager.requestCounts), client, arrivals[..|steps|]);
      manager.requestCounts == h.table &&
      forall i :: 0 <= i < |steps| ==> steps[i] == Dispatch(h.outcomes[i], msgs[i])
  {
    ghost var start := manager.requestCounts;
    ghost var outcomes: seq<bool> := [];
    steps := [];
    var i := 0;
    assert arrivals[..0] == [];
    while i < |msgs|
      invariant 0 <= i <= |msgs| && |steps| == i && |outcomes| == i
      invariant manager.Valid()
      invariant forall j :: 0 <= j < i ==> !steps[j].Close?
      invariant Replay(start, client, arrivals[..i]) == History(outcomes, manager.requestCounts)
      invariant forall j :: 0 <= j < i ==> steps[j] == Dispatch(outcomes[j], msgs[j])
    {
      ReplayStep(start, client, arrivals, i);
      var admitted, step := HandleMessage(manager, client, arrivals[i], msgs[i]);
      outcomes := outcomes + [admitted];
      steps := steps + [step];
      if step.Close? {
        return;
      }
      i := i + 1;
    }
  }
}
