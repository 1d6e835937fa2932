/**
 * The per-client request counter of `DownloadManager.can_download`
 * (utils.py). Each client key maps to the number of requests admitted in its
 * window and the time of the request that opened the window.
 */
module RateLimit {
  import opened Config

  /** One client's record: admitted requests and window start, in seconds. */
  datatype Entry = Entry(count: int, timestamp: int)

  /** The table invariant: every stored count lies in 1..MaxRequestsPerMinute. */
  ghost predicate CountsInRange(table: map<string, Entry>) {
    forall k :: k in table ==> 1 <= table[k].count <= MaxRequestsPerMinute
  }

  /** An entry survives a purge at `now` iff its window opened strictly after now - 60s. */
  predicate Live(e: Entry, now: int) {
    e.timestamp > now - WindowSeconds
  }

  /** The table rebuilt from its live entries only. */
  function Purged(table: map<string, Entry>, now: int): (live: map<string, Entry>)
    ensures forall k :: k in live ==> k in table && live[k] == table[k] && Live(live[k], now)
    ensures forall k :: k in table && Live(table[k], now) ==> k in live
  {
    map k | k in table && Live(table[k], now) :: table[k]
  }

  /** The verdict of one call and the table it leaves behind. */
  datatype Decision = Decision(admitted: bool, table: map<string, Entry>)

  /** Whether the caller's live entry has used up its quota. */
  predicate Exhausted(table: map<string, Entry>, ip: string, now: int) {
    ip in table && Live(table[ip], now) && table[ip].count >= MaxRequestsPerMinute
  }

  /**
   * One call of `can_download(ip)` at time `now` on `table`: purge stale
   * entries of every client, then admit a new client with count 1, admit an
   * existing client under quota by incrementing its count (its window start
   * is kept), and reject an exhausted one.
   */
  function Admit(table: map<string, Entry>, ip: string, now: int): (d: Decision)
    ensures d.admitted <==> !Exhausted(table, ip, now)
    ensures ip in d.table
  {
    var live := Purged(table, now);
    if ip in live then
      if live[ip].count >= MaxRequestsPerMinute then Decision(false, live)
      else Decision(true, live[ip := live[ip].(count := live[ip].count + 1)])
    else
      Decision(true, live[ip := Entry(1, now)])
  }

  /**
   * What one call leaves in the table: only live entries remain; the
   * caller's entry is new with count 1 and timestamp `now` when it had no
   * live one, has its count raised by exactly 1 and its timestamp kept when
   * admitted, and is unchanged when rejected; every other client's entry
   * survives unchanged iff it is live, whoever that client is.
   */
  lemma AdmitEffect(table: map<string, Entry>, ip: string, now: int)
    ensures var d := Admit(table, ip, now);
      && (forall k :: k in d.table ==> Live(d.table[k], now))
      && (!(ip in table && Live(table[ip], now)) ==> d.table[ip] == Entry(1, now))
      && (ip in table && Live(table[ip], now) && d.admitted ==>
            d.table[ip] == Entry(table[ip].count + 1, table[ip].timestamp))
      && (!d.admitted ==> d.table[ip] == table[ip])
      && (forall k :: k != ip ==>
            (k in d.table <==> k in table && Live(table[k], now)) &&
            (k in d.table ==> d.table[k] == table[k]))
  {
  }

  /** Every call keeps the counts of all clients within 1..MaxRequestsPerMinute. */
  lemma AdmitKeepsCountsInRange(table: map<string, Entry>, ip: string, now: int)
    requires CountsInRange(table)
    ensures CountsInRange(Admit(table, ip, now).table)
  {
    var d := Admit(table, ip, now);
    AdmitEffect(table, ip, now);
    forall k | k in d.table
      ensures 1 <= d.table[k].count <= MaxRequestsPerMinute
    {
      if k == ip && ip in table && Live(table[ip], now) && d.admitted {
        assert table[ip].count < MaxRequestsPerMinute;
      }
    }
  }

  /** What a sequence of calls from one client leaves: each call's verdict and the final table. */
  datatype History = History(outcomes: seq<bool>, table: map<string, Entry>)

  /** Calls from `ip` at the successive `times`, starting from `table`, one after another. */
  function Replay(table: map<string, Entry>, ip: string, times: seq<int>): (h: History)
    ensures |h.outcomes| == |times|
    decreases |times|
  {
    if times == [] then History([], table)
    else
      var before := Replay(table, ip, times[..|times| - 1]);
      var d := Admit(before.table, ip, times[|times| - 1]);
      History(before.outcomes + [d.admitted], d.table)
  }

  /** All `times` fall inside the window opened by the first of them. */
  predicate WithinFirstWindow(times: seq<int>) {
    |times| > 0 && forall i :: 0 <= i < |times| ==> times[i] - WindowSeconds < times[0]
  }

  function Min(a: int, b: int): int { if a <= b then a else b }

  /**
   * A client with no live entry, calling repeatedly inside the window its first
   * call opens, is admitted exactly on calls 1..MaxRequestsPerMinute; its entry
   * keeps the first call's timestamp throughout.
   */
  lemma {:induction false} WindowAdmitsQuota(table: map<string, Entry>, ip: string, times: seq<int>)
    requires WithinFirstWindow(times)
    requires !(ip in table && Live(table[ip], times[0]))
    ensures forall i :: 0 <= i < |times| ==> (Replay(table, ip, times).outcomes[i] <==> i < MaxRequestsPerMinute)
    ensures ip in Replay(table, ip, times).table
    ensures Replay(table, ip, times).table[ip] == Entry(Min(|times|, MaxRequestsPerMinute), times[0])
    decreases |times|
  {
    var n := |times|;
    var h := Replay(table, ip, times);
    if n == 1 {
      assert times[..0] == [];
      AdmitEffect(table, ip, times[0]);
    } else {
      var prefix := times[..n - 1];
      assert prefix[0] == times[0];
      assert WithinFirstWindow(prefix) by {
        forall i | 0 <= i < |prefix| ensures prefix[i] - WindowSeconds < prefix[0] {
          assert prefix[i] == times[i];
        }
      }
      WindowAdmitsQuota(table, ip, prefix);
      var before := Replay(table, ip, prefix);
      assert before.table[ip] == Entry(Min(n - 1, MaxRequestsPerMinute), times[0]);
      assert Live(before.table[ip], times[n - 1]);
      AdmitEffect(before.table, ip, times[n - 1]);
      forall i | 0 <= i < n
        ensures h.outcomes[i] <==> i < MaxRequestsPerMinute
      {
        if i < n - 1 {
          assert h.outcomes[i] == before.outcomes[i];
        }
      }
    }
  }

  /**
   * Once a client's window start is 60 seconds or more in the past, its next
   * call is admitted and reopens the window with count 1.
   */
  lemma ExpiredWindowRestarts(table: map<string, Entry>, ip: string, now: int)
    requires ip in table && table[ip].timestamp <= now - WindowSeconds
    ensures Admit(table, ip, now).admitted
    ensures Admit(table, ip, now).table[ip] == Entry(1, now)
  {
    AdmitEffect(table, ip, now);
  }

  /** `DownloadManager` reduced to its rate table (the semaphore is not modelled). */
  class DownloadManager {
    var requestCounts: map<string, Entry>

    ghost predicate Valid()
      reads this
    {
      CountsInRange(requestCounts)
    }

    constructor ()
      ensures Valid() && requestCounts == map[]
    {
      requestCounts := map[];
    }

    /** `can_download(ip)` at time `now`: the verdict and the rebuilt table follow `Admit`. */
    method CanDownload(ip: string, now: int) returns (admitted: bool)
      requires Valid()
      modifies this
      ensures Valid()
      ensures Decision(admitted, requestCounts) == Admit(old(requestCounts), ip, now)
    {
      AdmitKeepsCountsInRange(requestCounts, ip, now);
      requestCounts := map k | k in requestCounts && requestCounts[k].timestamp > now - WindowSeconds :: requestCounts[k];
      if ip in requestCounts {
        if requestCounts[ip].count >= MaxRequestsPerMinute {
          return false;
        }
        requestCounts := requestCounts[ip := requestCounts[ip].(count := requestCounts[ip].count + 1)];
      } else {
        requestCounts := requestCounts[ip := Entry(1, now)];
      }
      return true;
    }
  }
}
