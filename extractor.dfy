/**
 * The metadata the external extractor returns, as the dictionaries the
 * downloader reads it from. A key that is absent is `None`; only the keys
 * the downloader reads are kept.
 */
module Extractor {
  import opened Wrappers

  /** One entry of `info['formats']`. */
  datatype FormatMeta = FormatMeta(
    formatId: Option<string>,
    ext: Option<string>,
    quality: Option<int>,
    filesize: Option<int>,
    formatNote: Option<string>)

  /** The `info` dictionary of one video; an absent `formats` key is the empty list. */
  datatype VideoMeta = VideoMeta(
    title: Option<string>,
    duration: Option<int>,
    uploader: Option<string>,
    thumbnail: Option<string>,
    description: Option<string>,
    filesize: Option<int>,
    filesizeApprox: Option<int>,
    formats: seq<FormatMeta>)

  /** Python truthiness of an optional size: present and non-zero. */
  predicate Truthy(size: Option<int>) {
    size.Some? && size.value != 0
  }
}
