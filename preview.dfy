/**
 * The preview of a video (`get_video_preview` and the `/api/preview`
 * handler `preview_video`, main.py): the formats offered to the user are
 * those with a known size not above the limit, in the extractor's order.
 */
module Preview {
  import opened Wrappers
  import opened Config
  import opened Extractor
  import opened UrlCheck

  /**
   * `round(bytes / 1024 / 1024, 2)` counted in hundredths of a MiB: the
   * exact quotient rounded to the nearest hundredth, ties to even.
   */
  function SizeMbCenti(bytes: int): (r: int)
    ensures 2 * bytes * 100 - BytesPerMb <= 2 * r * BytesPerMb <= 2 * bytes * 100 + BytesPerMb
  {
    var q := (bytes * 100) / BytesPerMb;
    var rem := (bytes * 100) % BytesPerMb;
    if 2 * rem > BytesPerMb || (2 * rem == BytesPerMb && q % 2 == 1) then q + 1 else q
  }

  /** `MAX_FILE_SIZE / 1024 / 1024` (500.0) in hundredths of a MiB. */
  const LimitMbCenti: int := MaxFileSize / BytesPerMb * 100

  /** A format is offered: its size is known and non-zero, and its rounded size in MiB is within the limit. */
  predicate Offered(f: FormatMeta) {
    Truthy(f.filesize) && SizeMbCenti(f.filesize.value) <= LimitMbCenti
  }

  /** One entry of the preview's `formats` list. */
  datatype FormatOption = FormatOption(
    formatId: Option<string>,
    ext: Option<string>,
    quality: int,
    filesize: int,
    filesizeMbCenti: int,
    formatNote: string)

  /** The entry built for a format with a known size. */
  function Shape(f: FormatMeta): (o: FormatOption)
    requires Truthy(f.filesize)
    ensures o.filesize == f.filesize.value && o.formatId == f.formatId && o.ext == f.ext
  {
    FormatOption(f.formatId, f.ext, f.quality.GetOr(0), f.filesize.value,
                 SizeMbCenti(f.filesize.value), f.formatNote.GetOr(""))
  }

  /** Every size within the byte limit is offered. */
  lemma WithinLimitOffered(f: FormatMeta)
    requires f.filesize.Some? && 0 < f.filesize.value <= MaxFileSize
    ensures Offered(f)
  {
    var b := f.filesize.value;
    assert b * 100 <= LimitMbCenti * BytesPerMb;
    var q := (b * 100) / BytesPerMb;
    assert q <= LimitMbCenti;
    if q == LimitMbCenti {
      assert (b * 100) % BytesPerMb == 0;
    }
  }

  /** A size a full hundredth of a MiB over the limit is never offered. */
  lemma WellOverLimitDropped(f: FormatMeta)
    requires f.filesize.Some? && f.filesize.value >= MaxFileSize + BytesPerMb / 100 + 1
    ensures !Offered(f)
  {
    var b := f.filesize.value;
    assert b * 100 >= (LimitMbCenti + 1) * BytesPerMb;
    assert (b * 100) / BytesPerMb >= LimitMbCenti + 1;
  }

  /** The preview's format list for `formats`, in their order. */
  function OfferedFormats(formats: seq<FormatMeta>): (kept: seq<FormatOption>)
    ensures |kept| <= |formats|
    ensures forall i :: 0 <= i < |kept| ==> kept[i].filesize != 0 && kept[i].filesizeMbCenti <= LimitMbCenti
    decreases |formats|
  {
    if formats == [] then []
    else
      var last := formats[|formats| - 1];
      OfferedFormats(formats[..|formats| - 1]) + (if Offered(last) then [Shape(last)] else [])
  }

  /** Filtering distributes over concatenation: the relative order of offered formats is kept. */
  lemma {:induction false} OfferedFormatsConcat(a: seq<FormatMeta>, b: seq<FormatMeta>)
    ensures OfferedFormats(a + b) == OfferedFormats(a) + OfferedFormats(b)
    decreases |b|
  {
    if b == [] {
      assert a + b == a;
    } else {
      var n := |b|;
      assert (a + b)[..|a + b| - 1] == a + b[..n - 1];
      assert (a + b)[|a + b| - 1] == b[n - 1];
      OfferedFormatsConcat(a, b[..n - 1]);
    }
  }

  /** Exactly the offered formats appear, each shaped from its own format. */
  lemma {:induction false} OfferedFormatsExact(formats: seq<FormatMeta>)
    ensures forall i :: 0 <= i < |formats| && Offered(formats[i]) ==> Shape(formats[i]) in OfferedFormats(formats)
    ensures forall o :: o in OfferedFormats(formats) ==>
      exists i :: 0 <= i < |formats| && Offered(formats[i]) && o == Shape(formats[i])
    decreases |formats|
  {
    if formats != [] {
      var n := |formats|;
      var prefix := formats[..n - 1];
      OfferedFormatsExact(prefix);
      forall i | 0 <= i < n && Offered(formats[i])
        ensures Shape(formats[i]) in OfferedFormats(formats)
      {
        if i < n - 1 { assert prefix[i] == formats[i]; }
      }
      forall o | o in OfferedFormats(formats)
        ensures exists i :: 0 <= i < n && Offered(formats[i]) && o == Shape(formats[i])
      {
        if o in OfferedFormats(prefix) {
          var i :| 0 <= i < n - 1 && Offered(prefix[i]) && o == Shape(prefix[i]);
          assert prefix[i] == formats[i];
        } else {
          assert Offered(formats[n - 1]) && o == Shape(formats[n - 1]);
        }
      }
    }
  }

  /** The format loop of `get_video_preview`: appends each offered format in turn. */
  method CollectFormats(formats: seq<FormatMeta>) returns (kept: seq<FormatOption>)
    ensures kept == OfferedFormats(formats)
  {
    kept := [];
    var i := 0;
    while i < |formats|
      invariant 0 <= i <= |formats|
      invariant kept == OfferedFormats(formats[..i])
    {
      var f := formats[i];
      assert formats[..i + 1][..i] == formats[..i];
      if Truthy(f.filesize) {
        var option := Shape(f);
        if option.filesizeMbCenti <= LimitMbCenti {
          kept := kept + [option];
        }
      }
      i := i + 1;
    }
    assert formats[..i] == formats;
  }

  /** The preview payload. */
  datatype PreviewInfo = PreviewInfo(
    title: string,
    duration: int,
    uploader: string,
    thumbnail: string,
    formats: seq<FormatOption>,
    description: string)

  /**
   * The payload for the extractor's `info`: the Python code's defaults for
   * missing fields, and the offered formats.
   */
  function PreviewOf(meta: VideoMeta): (p: PreviewInfo)
    ensures p.formats == OfferedFormats(meta.formats)
    ensures p.title == meta.title.GetOr("Unknown Title") && p.uploader == meta.uploader.GetOr("Unknown Uploader")
    ensures p.duration == meta.duration.GetOr(0) && p.thumbnail == meta.thumbnail.GetOr("")
    ensures p.description == meta.description.GetOr("")
  {
    PreviewInfo(meta.title.GetOr("Unknown Title"), meta.duration.GetOr(0),
                meta.uploader.GetOr("Unknown Uploader"), meta.thumbnail.GetOr(""),
                OfferedFormats(meta.formats), meta.description.GetOr(""))
  }

  /**
   * `get_video_preview`: `None` when the extractor returns nothing (the
   * Python code raises), otherwise the payload with defaults for missing fields.
   */
  method GetVideoPreview(info: Option<VideoMeta>) returns (preview: Option<PreviewInfo>)
    ensures info.None? <==> preview.None?
    ensures info.Some? ==> preview.value == PreviewOf(info.value)
  {
    if info.None? {
      return None;
    }
    var meta := info.value;
    var formats := CollectFormats(meta.formats);
    preview := Some(PreviewInfo(meta.title.GetOr("Unknown Title"), meta.duration.GetOr(0),
                                meta.uploader.GetOr("Unknown Uploader"), meta.thumbnail.GetOr(""),
                                formats, meta.description.GetOr("")));
  }

  /** The answer of `/api/preview`. */
  datatype PreviewResponse = BadRequest(detail: string) | ServerError | Ok(preview: PreviewInfo)

  const EmptyUrlDetail: string := "URL不能为空"
  const InvalidUrlDetail: string := "无效的URL"

  /**
   * `preview_video`: an absent or empty URL and a URL outside the allow-list
   * are refused with status 400 before the extractor is called; an extractor
   * failure answers 500.
   */
  method PreviewVideo(url: Option<UrlInput>, info: Option<VideoMeta>) returns (response: PreviewResponse)
    ensures (url.None? || url.value.text == "") <==> response == BadRequest(EmptyUrlDetail)
    ensures url.Some? && url.value.text != "" && !IsValidUrl(url.value.netloc) <==> response == BadRequest(InvalidUrlDetail)
    ensures response.Ok? <==> url.Some? && url.value.text != "" && IsValidUrl(url.value.netloc) && info.Some?
    ensures response.Ok? ==> response.preview == PreviewOf(info.value)
    ensures response == ServerError <==> url.Some? && url.value.text != "" && IsValidUrl(url.value.netloc) && info.None?
  {
    if url.None? || url.value.text == "" {
      return BadRequest(EmptyUrlDetail);
    }
    if !IsValidUrl(url.value.netloc) {
      return BadRequest(InvalidUrlDetail);
    }
    var preview := GetVideoPreview(info);
    if preview.None? {
      return ServerError;
    }
    return Ok(preview.value);
  }
}
