/**
 * The age test of the background task `cleanup_old_files` (utils.py). Times
 * are whole seconds; a file's age is `now - mtime`, and `timedelta.days` is
 * that age divided by one day, rounded down (Dafny's `/` by a positive
 * divisor rounds down too, also for negative ages).
 */
module Cleanup {
  import opened Config

  /** Whole days in an age of `seconds`, rounded toward minus infinity. */
  function AgeDays(seconds: int): int {
    seconds / SecondsPerDay
  }

  /**
   * The file is old enough to delete: its age in whole days exceeds
   * RetentionDays, which holds exactly from eight full days of age on.
   */
  function IsExpired(now: int, mtime: int): (r: bool)
    ensures r <==> now - mtime >= (RetentionDays + 1) * SecondsPerDay
  {
    AgeDays(now - mtime) > RetentionDays
  }

  /** A file 7 days and 23 hours old is kept; one with a future mtime is kept; one 8 days old goes. */
  lemma AgeBoundaries(now: int)
    ensures !IsExpired(now, now - (7 * SecondsPerDay + 23 * 3600))
    ensures forall mtime :: mtime > now ==> !IsExpired(now, mtime)
    ensures IsExpired(now, now - 8 * SecondsPerDay)
  {
  }

  /** One entry of the download directory. */
  datatype DirEntry = DirEntry(name: string, isFile: bool, mtime: int)

  /** The entry is a regular file the sweep deletes at `now`. */
  predicate Doomed(e: DirEntry, now: int) {
    e.isFile && IsExpired(now, e.mtime)
  }

  /** Names of the doomed entries of `entries`, in directory order. */
  function DoomedNames(entries: seq<DirEntry>, now: int): (names: seq<string>)
    ensures |names| <= |entries|
    decreases |entries|
  {
    if entries == [] then []
    else
      var last := entries[|entries| - 1];
      DoomedNames(entries[..|entries| - 1], now) + (if Doomed(last, now) then [last.name] else [])
  }

  /** A name is swept iff some regular file of that name is expired. */
  lemma {:induction false} DoomedNamesExact(entries: seq<DirEntry>, now: int, name: string)
    ensures name in DoomedNames(entries, now) <==>
      exists i :: 0 <= i < |entries| && entries[i].name == name && Doomed(entries[i], now)
    decreases |entries|
  {
    if entries != [] {
      var n := |entries|;
      var prefix := entries[..n - 1];
      DoomedNamesExact(prefix, now, name);
      if exists i :: 0 <= i < n && entries[i].name == name && Doomed(entries[i], now) {
        var i :| 0 <= i < n && entries[i].name == name && Doomed(entries[i], now);
        if i < n - 1 {
          assert prefix[i] == entries[i];
        }
      }
      if exists i :: 0 <= i < n - 1 && prefix[i].name == name && Doomed(prefix[i], now) {
        var i :| 0 <= i < n - 1 && prefix[i].name == name && Doomed(prefix[i], now);
        assert entries[i] == prefix[i];
      }
    }
  }

  /**
   * One pass of the cleanup loop at `now`: visits every directory entry and
   * unlinks each regular file whose age exceeds the retention period. Returns
   * the names it unlinks, in the order it unlinks them.
   */
  method CleanupPass(entries: seq<DirEntry>, now: int) returns (removed: seq<string>)
    ensures removed == DoomedNames(entries, now)
  {
    removed := [];
    var i := 0;
    while i < |entries|
      invariant 0 <= i <= |entries|
      invariant removed == DoomedNames(entries[..i], now)
    {
      var e := entries[i];
      assert entries[..i + 1][..i] == entries[..i];
      if e.isFile && AgeDays(now - e.mtime) > RetentionDays {
        removed := removed + [e.name];
      }
      i := i + 1;
    }
    assert entries[..i] == entries;
  }
}
