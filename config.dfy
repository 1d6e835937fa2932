/** Load-time constants of the downloader (config.py). */
module Config {

  /** Largest accepted video file, in bytes: 500 MiB. */
  const MaxFileSize: int := 500 * 1024 * 1024

  /** Bytes per MiB; the size shown to users is `bytes / 1024 / 1024`. */
  const BytesPerMb: int := 1024 * 1024

  /** Requests a client may make inside one rate window. */
  const MaxRequestsPerMinute: int := 30

  /** Hosts a URL's network location must contain. */
  const AllowedDomains: seq<string> := ["youtube.com", "youtu.be"]

  /** Length of the rate window, in seconds (`timedelta(minutes=1)`). */
  const WindowSeconds: int := 60

  /** Seconds in one day, the unit of `timedelta.days`. */
  const SecondsPerDay: int := 24 * 60 * 60

  /** Downloaded files whose age in whole days exceeds this are deleted. */
  const RetentionDays: int := 7

  /** The format selector used when a download request names none. */
  const BestFormat: string := "best"
}
