/**
 * What the Python probe scripts share: the outcome of one HTTP request and
 * the `https://` defaulting they apply to a bare domain before requesting it.
 */
module Probe {
  import opened Text

  /**
   * One `requests` call as the scripts see it: a response with its status
   * code and body text, or a raised `RequestException`.
   */
  datatype Reply = Response(status: int, text: string) | RequestFailed(message: string)

  /** The URL names its scheme. */
  predicate HasScheme(url: string) {
    StartsWith(url, "http://") || StartsWith(url, "https://")
  }

  /**
   * `format_url` of utils/hop_by_hop_checker.py and the inline defaulting of
   * utils/request_smuggling.py and utils/cloudflare.py: a URL that names its
   * scheme is kept, anything else gets `https://` in front.
   */
  function WithScheme(domain: string): (url: string)
    ensures HasScheme(url)
    ensures HasScheme(domain) ==> url == domain
    ensures !HasScheme(domain) ==> url == "https://" + domain
  {
    if HasScheme(domain) then domain
    else
      assert ("https://" + domain)[..8] == "https://";
      "https://" + domain
  }

  /** Defaulting twice is defaulting once. */
  lemma WithSchemeIdempotent(domain: string)
    ensures WithScheme(WithScheme(domain)) == WithScheme(domain)
  {
  }

  /** The host text survives: dropping the added scheme gives the domain back. */
  lemma WithSchemeKeepsDomain(domain: string)
    requires !HasScheme(domain)
    ensures TrimPrefix(WithScheme(domain), "https://") == domain
  {
  }
}
