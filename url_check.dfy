/**
 * The URL allow-list of `DownloadManager.is_valid_url` (utils.py). The URL
 * is parsed by the standard library's `urlparse`, which is not modelled: its
 * network location is an input, `None` when parsing raised.
 */
module UrlCheck {
  import opened Wrappers
  import opened Config

  /** A URL as received, with the network location `urlparse` gives it (`None` when parsing raised). */
  datatype UrlInput = UrlInput(text: string, netloc: Option<string>)

  /** `needle` occurs in `hay` starting at position `i`. */
  predicate OccursAt(needle: string, hay: string, i: int) {
    0 <= i <= |hay| - |needle| && hay[i..i + |needle|] == needle
  }

  /** `needle` occurs in `hay` at some position (Python's `needle in hay` on strings). */
  ghost predicate IsSubstring(needle: string, hay: string) {
    exists i :: OccursAt(needle, hay, i)
  }

  /** A scan of `hay` for `needle`, one starting position after another. */
  function Contains(needle: string, hay: string): (r: bool)
    ensures r <==> IsSubstring(needle, hay)
    decreases |hay|
  {
    if |needle| > |hay| then false
    else if hay[..|needle|] == needle then assert OccursAt(needle, hay, 0); true
    else
      var r := Contains(needle, hay[1..]);
      assert r ==> IsSubstring(needle, hay) by {
        if r {
          var i :| OccursAt(needle, hay[1..], i);
          assert hay[i + 1..i + 1 + |needle|] == hay[1..][i..i + |needle|];
          assert OccursAt(needle, hay, i + 1);
        }
      }
      assert IsSubstring(needle, hay) ==> r by {
        if IsSubstring(needle, hay) {
          var i :| OccursAt(needle, hay, i);
          assert i != 0;
          assert hay[1..][i - 1..i - 1 + |needle|] == hay[i..i + |needle|];
          assert OccursAt(needle, hay[1..], i - 1);
        }
      }
      r
  }

  /** `any(domain in netloc for domain in domains)`. */
  function AnyDomainIn(domains: seq<string>, netloc: string): (r: bool)
    ensures r <==> exists i :: 0 <= i < |domains| && IsSubstring(domains[i], netloc)
  {
    if domains == [] then false
    else Contains(domains[0], netloc) || AnyDomainIn(domains[1..], netloc)
  }

  /**
   * `is_valid_url`: true iff parsing succeeded and some allowed domain is a
   * substring of the network location. The match is by substring, not by
   * host suffix, so a host that merely contains an allowed domain passes.
   */
  function IsValidUrl(netloc: Option<string>): (r: bool)
    ensures r <==> netloc.Some? && exists i :: 0 <= i < |AllowedDomains| && IsSubstring(AllowedDomains[i], netloc.value)
  {
    match netloc
    case None => false
    case Some(host) => AnyDomainIn(AllowedDomains, host)
  }

  /** The allow-list accepts an allowed host itself. */
  lemma YoutubeAccepted()
    ensures IsValidUrl(Some("youtube.com"))
    ensures IsValidUrl(Some("youtu.be"))
  {
    assert OccursAt(AllowedDomains[0], "youtube.com", 0);
    assert OccursAt(AllowedDomains[1], "youtu.be", 0);
  }

  /** The substring weakness: a foreign host that contains an allowed domain passes. */
  lemma ForeignHostContainingDomainAccepted()
    ensures IsValidUrl(Some("youtube.com.evil.com"))
    ensures IsValidUrl(Some("notyoutube.com.evil.com"))
  {
    assert OccursAt(AllowedDomains[0], "youtube.com.evil.com", 0);
    assert OccursAt(AllowedDomains[0], "notyoutube.com.evil.com", 3);
  }

  /** A host containing no allowed domain, an empty location ("not a url") and a parse failure are refused. */
  lemma OtherHostsRefused()
    ensures !IsValidUrl(Some("evil.com"))
    ensures !IsValidUrl(Some(""))
    ensures !IsValidUrl(None)
  {
    var host := "evil.com";
    forall j ensures !OccursAt(AllowedDomains[1], host, j) {
      if j == 0 {
        assert host[j..j + 8][0] != AllowedDomains[1][0];
      }
    }
    assert !IsSubstring(AllowedDomains[0], host);
    assert !IsSubstring(AllowedDomains[1], host);
  }
}
