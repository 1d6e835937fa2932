/**
 * One download session (`download_video`, main.py): fetch metadata, check
 * the declared sizes, download while relaying progress, check the size of
 * the file on disk, and append a record to the catalog. The extractor, the
 * file system and the clock are inputs.
 */
module Download {
  import opened Wrappers
  import opened Config
  import opened Extractor
  import opened Catalog
  import opened Progress

  /** `info.get('filesize') or info.get('filesize_approx')`. */
  function DeclaredSize(info: VideoMeta): Option<int> {
    if Truthy(info.filesize) then info.filesize else info.filesizeApprox
  }

  /**
   * The declared-size pre-check: the size it rejects, if any. A zero
   * `filesize` falls through to `filesize_approx`; a size equal to the
   * limit passes.
   */
  function DeclaredOversize(info: VideoMeta): (r: Option<int>)
    ensures r.Some? <==>
      (Truthy(info.filesize) && info.filesize.value > MaxFileSize) ||
      (!Truthy(info.filesize) && Truthy(info.filesizeApprox) && info.filesizeApprox.value > MaxFileSize)
    ensures r.Some? ==>
      (r.value > MaxFileSize &&
       r.value == (if Truthy(info.filesize) then info.filesize.value else info.filesizeApprox.value))
  {
    var size := DeclaredSize(info);
    if Truthy(size) && size.value > MaxFileSize then size else None
  }

  /** A declared size equal to the limit passes; a zero `filesize` defers to `filesize_approx`. */
  lemma DeclaredSizeBoundaries(info: VideoMeta)
    ensures info.filesize == Some(MaxFileSize) ==> DeclaredOversize(info).None?
    ensures info.filesize == Some(0) ==>
      DeclaredOversize(info) == DeclaredOversize(info.(filesize := None))
    ensures info.filesize == Some(0) && info.filesizeApprox == Some(MaxFileSize + 1) ==>
      DeclaredOversize(info) == Some(MaxFileSize + 1)
  {
  }

  /** A format entry that the per-format check rejects for the selector `formatId`. */
  predicate OversizeMatch(f: FormatMeta, formatId: string) {
    f.formatId == Some(formatId) && Truthy(f.filesize) && f.filesize.value > MaxFileSize
  }

  /** The size of the first format entry the per-format check rejects, if any. */
  function FirstOversize(formats: seq<FormatMeta>, formatId: string): (r: Option<int>)
    ensures r.None? <==> forall i :: 0 <= i < |formats| ==> !OversizeMatch(formats[i], formatId)
    ensures r.Some? ==>
      exists i :: (0 <= i < |formats| && OversizeMatch(formats[i], formatId) &&
                   formats[i].filesize.value == r.value &&
                   forall j :: 0 <= j < i ==> !OversizeMatch(formats[j], formatId))
    decreases |formats|
  {
    if formats == [] then None
    else if OversizeMatch(formats[0], formatId) then
      assert OversizeMatch(formats[0], formatId) && formats[0].filesize.value == formats[0].filesize.value;
      formats[0].filesize
    else
      var r := FirstOversize(formats[1..], formatId);
      assert forall i :: 1 <= i < |formats| ==> formats[i] == formats[1..][i - 1];
      if r.Some? then
        var i :| 0 <= i < |formats[1..]| && OversizeMatch(formats[1..][i], formatId) &&
          formats[1..][i].filesize.value == r.value &&
          forall j :: 0 <= j < i ==> !OversizeMatch(formats[1..][j], formatId);
        assert OversizeMatch(formats[i + 1], formatId) && formats[i + 1].filesize.value == r.value;
        assert forall j :: 0 <= j < i + 1 ==> !OversizeMatch(formats[j], formatId);
        r
      else r
  }

  /**
   * The loop over `info['formats']` that runs when a format was selected:
   * stops at the first entry with the selected id whose size is known and
   * over the limit, and reports that size.
   */
  method CheckSelectedFormat(formats: seq<FormatMeta>, formatId: string) returns (oversize: Option<int>)
    ensures oversize == FirstOversize(formats, formatId)
  {
    var i := 0;
    while i < |formats|
      invariant 0 <= i <= |formats|
      invariant FirstOversize(formats, formatId) == FirstOversize(formats[i..], formatId)
    {
      var f := formats[i];
      if f.formatId == Some(formatId) {
        var formatSize := f.filesize;
        if Truthy(formatSize) && formatSize.value > MaxFileSize {
          return formatSize;
        }
      }
      assert formats[i..][1..] == formats[i + 1..];
      i := i + 1;
    }
    return None;
  }

  /**
   * The checks made before any download I/O, in the Python code's order: the
   * declared size, then (only for a selector other than "best") the
   * selected format's own size.
   */
  function SizeCheck(formatId: string, info: VideoMeta): (failure: Option<ErrorKind>)
    ensures DeclaredOversize(info).Some? ==> failure == Some(DeclaredTooLarge(DeclaredOversize(info).value))
    ensures DeclaredOversize(info).None? && formatId != BestFormat && FirstOversize(info.formats, formatId).Some? ==>
      failure == Some(FormatTooLarge(FirstOversize(info.formats, formatId).value))
    ensures formatId == BestFormat ==>
      (failure.None? <==> DeclaredOversize(info).None?)
    ensures failure.None? <==>
      DeclaredOversize(info).None? &&
      (formatId == BestFormat || forall i :: 0 <= i < |info.formats| ==> !OversizeMatch(info.formats[i], formatId))
  {
    match DeclaredOversize(info)
    case Some(size) => Some(DeclaredTooLarge(size))
    case None =>
      if formatId != BestFormat then
        match FirstOversize(info.formats, formatId)
        case Some(size) => Some(FormatTooLarge(size))
        case None => None
      else None
  }

  /** With the "best" selector the format list plays no part in the checks. */
  lemma BestIgnoresFormats(info: VideoMeta, formats: seq<FormatMeta>)
    ensures SizeCheck(BestFormat, info) == SizeCheck(BestFormat, info.(formats := formats))
  {
  }

  /**
   * What the downloading extractor call leaves: its `info`, the base name of
   * the output file, that file's size (`None` when it cannot be read), and
   * whether deleting the file would succeed (`os.remove` can raise).
   */
  datatype Downloaded = Downloaded(info: VideoMeta, filename: string, actualSize: Option<int>, removable: bool)

  /** The catalog record of a completed download. */
  function RecordOf(info: VideoMeta, filename: string, size: int, downloadDate: string): (v: Video)
    ensures v.filename == Text(filename) && v.filesize == size && v.downloadDate == downloadDate
  {
    Video(info.title.GetOr("Unknown Title"), info.duration.GetOr(0), info.uploader.GetOr("Unknown Uploader"),
          info.description.GetOr(""), Text(filename), downloadDate, size)
  }

  /** The events a session sends, the catalog file it leaves, and whether it deleted the file. */
  datatype SessionEnd = SessionEnd(events: seq<Event>, catalog: CatalogFile, removed: bool)

  /**
   * A whole session. `probe` is the metadata-only extractor call (`None`
   * when it returns nothing or raises), `reports`
   * the progress reports of the downloading call, `fetched` its result,
   * `downloadDate` the formatted clock, `saveSucceeds` whether writing the
   * catalog file works.
   */
  function Session(formatId: string, probe: Option<VideoMeta>, reports: seq<HookReport>,
                   fetched: Option<Downloaded>, downloadDate: string,
                   file: CatalogFile, saveSucceeds: bool): (s: SessionEnd)
    ensures |s.events| >= 2 && s.events[0] == Info
    ensures forall i :: 1 <= i < |s.events| - 1 ==> s.events[i].Downloading? || s.events[i].Finished?
    ensures s.events[|s.events| - 1].Complete? || s.events[|s.events| - 1].Error?
    ensures s.catalog != file ==> s.events[|s.events| - 1].Complete?
    ensures s.removed ==> s.catalog == file && s.events[|s.events| - 1].Error?
  {
    match probe
    case None => SessionEnd([Info, Error(NoVideoInfo)], file, false)
    case Some(info) =>
      match SizeCheck(formatId, info)
      case Some(failure) => SessionEnd([Info, Error(failure)], file, false)
      case None =>
        var progress := [Info] + HookEvents(reports);
        match fetched
        case None => SessionEnd(progress + [Error(NoVideoInfo)], file, false)
        case Some(d) =>
          match d.actualSize
          case None => SessionEnd(progress + [Error(Fault)], file, false)
          case Some(size) =>
            if size > MaxFileSize then
              if d.removable then SessionEnd(progress + [Error(FileTooLarge(size))], file, true)
              else SessionEnd(progress + [Error(Fault)], file, false)
            else
              var record := RecordOf(d.info, d.filename, size, downloadDate);
              SessionEnd(progress + [Complete(record)], Append(file, record, saveSucceeds), false)
  }

  /**
   * Once the size checks pass, the session sends `info`, then the event of
   * every progress report in report order, then its final event.
   */
  lemma SessionRelaysProgress(formatId: string, info: VideoMeta, reports: seq<HookReport>,
                              fetched: Option<Downloaded>, downloadDate: string,
                              file: CatalogFile, saveSucceeds: bool)
    requires SizeCheck(formatId, info).None?
    ensures var s := Session(formatId, Some(info), reports, fetched, downloadDate, file, saveSucceeds);
      s.events == [Info] + HookEvents(reports) + [s.events[|s.events| - 1]]
  {
  }

  /** A size check failure ends the session before any progress event, with the catalog untouched. */
  lemma RejectedBeforeDownload(formatId: string, info: VideoMeta, reports: seq<HookReport>,
                               fetched: Option<Downloaded>, downloadDate: string,
                               file: CatalogFile, saveSucceeds: bool)
    requires SizeCheck(formatId, info).Some?
    ensures Session(formatId, Some(info), reports, fetched, downloadDate, file, saveSucceeds) ==
      SessionEnd([Info, Error(SizeCheck(formatId, info).value)], file, false)
  {
  }

  /**
   * A downloaded file over the limit is never catalogued. When deleting it
   * works it is gone and the error names its size; when deleting raises, the
   * file stays and that exception is what the client sees.
   */
  lemma OversizeFileDiscarded(formatId: string, info: VideoMeta, reports: seq<HookReport>,
                              d: Downloaded, downloadDate: string, file: CatalogFile, saveSucceeds: bool)
    requires SizeCheck(formatId, info).None?
    requires d.actualSize.Some? && d.actualSize.value > MaxFileSize
    ensures var s := Session(formatId, Some(info), reports, Some(d), downloadDate, file, saveSucceeds);
      s.catalog == file && (s.removed <==> d.removable) &&
      s.events[|s.events| - 1] == (if d.removable then Error(FileTooLarge(d.actualSize.value)) else Error(Fault))
  {
  }

  /**
   * A download within the limit is catalogued: once saved, the catalog reads
   * as before plus exactly one record at the end, carrying the file's name and
   * actual size.
   */
  lemma CompletedSessionExtendsCatalog(formatId: string, info: VideoMeta, reports: seq<HookReport>,
                                       d: Downloaded, downloadDate: string, file: CatalogFile)
    requires SizeCheck(formatId, info).None?
    requires d.actualSize.Some? && d.actualSize.value <= MaxFileSize
    ensures var s := Session(formatId, Some(info), reports, Some(d), downloadDate, file, true);
      var record := s.events[|s.events| - 1].video;
      s.events[|s.events| - 1].Complete? && !s.removed &&
      record.filename == Text(d.filename) && record.filesize == d.actualSize.value &&
      Loaded(s.catalog) == Loaded(file) + [record]
  {
    var record := RecordOf(d.info, d.filename, d.actualSize.value, downloadDate);
    AppendExtends(file, record);
  }

  /** `download_video`, following the Python code step by step. */
  method DownloadVideo(formatId: string, probe: Option<VideoMeta>, reports: seq<HookReport>,
                       fetched: Option<Downloaded>, downloadDate: string,
                       file: CatalogFile, saveSucceeds: bool)
    returns (events: seq<Event>, catalog: CatalogFile, removed: bool)
    ensures SessionEnd(events, catalog, removed) ==
      Session(formatId, probe, reports, fetched, downloadDate, file, saveSucceeds)
  {
    events, catalog, removed := [Info], file, false;
    if probe.None? {
      events := events + [Error(NoVideoInfo)];
      return;
    }
    var info := probe.value;
    var filesize := if Truthy(info.filesize) then info.filesize else info.filesizeApprox;
    if Truthy(filesize) && filesize.value > MaxFileSize {
      events := events + [Error(DeclaredTooLarge(filesize.value))];
      return;
    }
    if formatId != BestFormat {
      var oversize := CheckSelectedFormat(info.formats, formatId);
      if oversize.Some? {
        events := events + [Error(FormatTooLarge(oversize.value))];
        return;
      }
    }
    events := events + HookEvents(reports);
    if fetched.None? {
      events := events + [Error(NoVideoInfo)];
      return;
    }
    var d := fetched.value;
    if d.actualSize.None? {
      events := events + [Error(Fault)];
      return;
    }
    var actualSize := d.actualSize.value;
    if actualSize > MaxFileSize {
      if !d.removable {
        events := events + [Error(Fault)];
        return;
      }
      removed := true;
      events := events + [Error(FileTooLarge(actualSize))];
      return;
    }
    var videoInfo := RecordOf(d.info, d.filename, actualSize, downloadDate);
    var videos := LoadVideosInfo(file);
    videos := videos + [videoInfo];
    if saveSucceeds {
      catalog := Saved(videos);
    }
    events := events + [Complete(videoInfo)];
  }
}
