/**
 * utils/request_smuggling.py: every target is first given a basic
 * request-smuggling probe and, only when that one is not flagged, three
 * advanced probes (CL.TE, TE.CL, TE.TE). A response is flagged by its status
 * code alone; each flagged probe adds one record to the basic or the
 * advanced log, and each target ends with one verdict line on the console.
 */
module RequestSmuggling {
  import opened Text
  import opened Probe
  import opened ConfFile

  // ---------------------------------------------------------------------
  // Configuration
  // ---------------------------------------------------------------------

  /** Where the two logs go: `LOG_DIR/REQUEST_SMUGGLING_DIR/<file>`. */
  datatype LogSettings = LogSettings(logDir: string, smugglingDir: string, basicFile: string, advancedFile: string)

  /** `config.get(key, default)`. */
  function Get(config: map<string, string>, key: string, default: string): (v: string)
    ensures key in config ==> v == config[key]
    ensures key !in config ==> v == default
  {
    if key in config then config[key] else default
  }

  /** The module-level constants read from `utils.conf`, with their defaults. */
  function LogSettingsOf(config: map<string, string>): (s: LogSettings)
    ensures "LOG_DIR" !in config ==> s.logDir == "logs"
    ensures "REQUEST_SMUGGLING_DIR" !in config ==> s.smugglingDir == "request_smuggling"
    ensures "REQUEST_SMUGGLING_BASIC_FILE" !in config ==> s.basicFile == "request_smuggling_basic.log"
    ensures "REQUEST_SMUGGLING_ADVANCED_FILE" !in config ==> s.advancedFile == "request_smuggling_advanced.log"
    ensures "LOG_DIR" in config ==> s.logDir == config["LOG_DIR"]
    ensures "REQUEST_SMUGGLING_DIR" in config ==> s.smugglingDir == config["REQUEST_SMUGGLING_DIR"]
    ensures "REQUEST_SMUGGLING_BASIC_FILE" in config ==> s.basicFile == config["REQUEST_SMUGGLING_BASIC_FILE"]
    ensures "REQUEST_SMUGGLING_ADVANCED_FILE" in config ==> s.advancedFile == config["REQUEST_SMUGGLING_ADVANCED_FILE"]
  {
    LogSettings(
      Get(config, "LOG_DIR", "logs"),
      Get(config, "REQUEST_SMUGGLING_DIR", "request_smuggling"),
      Get(config, "REQUEST_SMUGGLING_BASIC_FILE", "request_smuggling_basic.log"),
      Get(config, "REQUEST_SMUGGLING_ADVANCED_FILE", "request_smuggling_advanced.log"))
  }

  /** A missing or unreadable `utils.conf` leaves every setting at its default. */
  lemma UnreadableConfDefaults(config: map<string, string>)
    requires config == map[]
    ensures LogSettingsOf(config) ==
      LogSettings("logs", "request_smuggling", "request_smuggling_basic.log", "request_smuggling_advanced.log")
  {
  }

  /** A `utils.conf` holding only `LOG_DIR=value` moves the log directory and nothing else. */
  lemma ConfiguredLogDir(value: string)
    requires CleanValue(value) && '\n' !in value
    ensures LogSettingsOf(Conf(Lines("LOG_DIR" + "=" + value + "\n"), false)) ==
      LogSettings(value, "request_smuggling", "request_smuggling_basic.log", "request_smuggling_advanced.log")
  {
    LogDirConf(value);
    LogDirOnly(value);
  }

  lemma LogDirConf(value: string)
    requires CleanValue(value) && '\n' !in value
    ensures Conf(Lines("LOG_DIR" + "=" + value + "\n"), false) == map["LOG_DIR" := value]
  {
    var key := "LOG_DIR";
    assert CleanKey(key) && '\n' !in key;
    ReadOneAssignment(key, value);
  }

  lemma LogDirOnly(value: string)
    ensures LogSettingsOf(map["LOG_DIR" := value]) ==
      LogSettings(value, "request_smuggling", "request_smuggling_basic.log", "request_smuggling_advanced.log")
  {
    var config := map["LOG_DIR" := value];
    assert |"LOG_DIR"| == 7;
    assert "REQUEST_SMUGGLING_DIR" !in config && "REQUEST_SMUGGLING_BASIC_FILE" !in config &&
      "REQUEST_SMUGGLING_ADVANCED_FILE" !in config;
  }

  // ---------------------------------------------------------------------
  // Probes and the flagging rule
  // ---------------------------------------------------------------------

  /** One probe: its name in the log, its headers (in dict order) and its body. */
  datatype Request = Request(name: string, headers: seq<(string, string)>, body: string)

  const BasicRequest: Request :=
    Request("Basic Check", [("Transfer-Encoding", "chunked"), ("Content-Length", "0")], "")
  const ClTeRequest: Request :=
    Request("CL.TE Test", [("Content-Length", "4"), ("Transfer-Encoding", "chunked")], "0\r\n\r\n")
  const TeClRequest: Request :=
    Request("TE.CL Test", [("Transfer-Encoding", "chunked"), ("Content-Length", "6")], "0\r\n\r\n")
  const TeTeRequest: Request :=
    Request("TE.TE Test", [("Transfer-Encoding", "chunked, identity"), ("Content-Length", "4")], "0\r\n\r\n")

  /** The status codes that flag a response. */
  const SmugglingStatuses: set<int> := {400, 401, 403, 500, 501, 502, 503}

  /** A response is flagged by its status alone; a failed request never is. */
  predicate Flagged(reply: Reply) {
    reply.Response? && reply.status in SmugglingStatuses
  }

  /** What `log_vulnerability` records, less its timestamp and layout. */
  datatype Record = Record(testType: string, target: string, status: int, headers: seq<(string, string)>)

  /**
   * The records one probe of `url` adds to its log: one when its response
   * is flagged, none otherwise. `respond(url, r)` is the outcome of sending
   * `r` to `url`.
   */
  function Report(url: string, r: Request, respond: (string, Request) -> Reply): (recs: seq<Record>)
    ensures recs != [] <==> Flagged(respond(url, r))
    ensures |recs| <= 1
    ensures forall e :: e in recs ==>
      e.testType == r.name && e.target == url && e.status in SmugglingStatuses && e.headers == r.headers
  {
    var reply := respond(url, r);
    if Flagged(reply) then [Record(r.name, url, reply.status, r.headers)] else []
  }

  /**
   * One guarded probe: send `r`, and on a flagged status log it and raise
   * the flag. A failed request (an exception) logs nothing and leaves the
   * flag as it was.
   */
  method RunProbe(url: string, r: Request, respond: (string, Request) -> Reply, log: seq<Record>, vulnerable: bool)
    returns (log': seq<Record>, vulnerable': bool)
    ensures log' == log + Report(url, r, respond)
    ensures vulnerable' <==> vulnerable || Flagged(respond(url, r))
  {
    var reply := respond(url, r);
    log' := log;
    vulnerable' := vulnerable;
    if reply.Response? && reply.status in SmugglingStatuses {
      log' := log + [Record(r.name, url, reply.status, r.headers)];
      vulnerable' := true;
    }
  }

  /** `basic_check`: flagged exactly when the basic probe's status is in the set. */
  method BasicCheck(domain: string, respond: (string, Request) -> Reply, log: seq<Record>)
    returns (vulnerable: bool, log': seq<Record>)
    ensures vulnerable <==> Flagged(respond(WithScheme(domain), BasicRequest))
    ensures log' == log + Report(WithScheme(domain), BasicRequest, respond)
  {
    var url := WithScheme(domain);
    log', vulnerable := RunProbe(url, BasicRequest, respond, log, false);
  }

  /** The records the three advanced probes of `url` add, in the order they are sent. */
  function AdvancedReports(url: string, respond: (string, Request) -> Reply): (recs: seq<Record>)
    ensures recs != [] <==>
      Flagged(respond(url, ClTeRequest)) || Flagged(respond(url, TeClRequest)) || Flagged(respond(url, TeTeRequest))
    ensures |recs| <= 3
    ensures forall e :: e in recs ==> e.target == url && e.status in SmugglingStatuses
  {
    Report(url, ClTeRequest, respond) + Report(url, TeClRequest, respond) + Report(url, TeTeRequest, respond)
  }

  /**
   * `advanced_check`: the three probes run one after another, a failure of
   * one not stopping the next, and the result is true exactly when at least
   * one of them was flagged.
   */
  method AdvancedCheck(domain: string, respond: (string, Request) -> Reply, log: seq<Record>)
    returns (vulnerable: bool, log': seq<Record>)
    ensures vulnerable <==> AdvancedReports(WithScheme(domain), respond) != []
    ensures log' == log + AdvancedReports(WithScheme(domain), respond)
  {
    var url := WithScheme(domain);
    vulnerable := false;
    log', vulnerable := RunProbe(url, ClTeRequest, respond, log, vulnerable);
    log', vulnerable := RunProbe(url, TeClRequest, respond, log', vulnerable);
    log', vulnerable := RunProbe(url, TeTeRequest, respond, log', vulnerable);
  }

  // ---------------------------------------------------------------------
  // The scan
  // ---------------------------------------------------------------------

  /** The two log files and the console, each as the sequence of what was written to it. */
  datatype Logs = Logs(basic: seq<Record>, advanced: seq<Record>, console: seq<string>)

  function Append(a: Logs, b: Logs): Logs {
    Logs(a.basic + b.basic, a.advanced + b.advanced, a.console + b.console)
  }

  /** The console verdict for one target. */
  function Verdict(domain: string, found: bool): string {
    if found then "[!] Potential vulnerability found in " + domain
    else "[-] No vulnerabilities found in " + domain
  }

  /**
   * What checking one target adds: `basic_check(d) or advanced_check(d)`
   * sends the advanced probes only when the basic one is not flagged, so at
   * most one of the two logs grows.
   */
  function TargetLogs(domain: string, respond: (string, Request) -> Reply): (added: Logs)
    ensures Flagged(respond(WithScheme(domain), BasicRequest)) ==> added.advanced == []
    ensures added.basic == [] || added.advanced == []
    ensures added.console == [Verdict(domain, added.basic != [] || added.advanced != [])]
  {
    var url := WithScheme(domain);
    var basic := Report(url, BasicRequest, respond);
    var advanced := if basic != [] then [] else AdvancedReports(url, respond);
    Logs(basic, advanced, [Verdict(domain, basic != [] || advanced != [])])
  }

  /** A target is reported vulnerable exactly when one of its four probes was flagged. */
  lemma TargetFound(domain: string, respond: (string, Request) -> Reply)
    ensures var url := WithScheme(domain);
      TargetLogs(domain, respond).console[0] == Verdict(domain, true) <==>
        Flagged(respond(url, BasicRequest)) || Flagged(respond(url, ClTeRequest)) ||
        Flagged(respond(url, TeClRequest)) || Flagged(respond(url, TeTeRequest))
  {
    var found := "[!] Potential vulnerability found in " + domain;
    var clean := "[-] No vulnerabilities found in " + domain;
    assert found[1] != clean[1];
  }

  /** One iteration of `main`'s loop. */
  method CheckTarget(domain: string, respond: (string, Request) -> Reply, logs: Logs)
    returns (found: bool, logs': Logs)
    ensures logs' == Append(logs, TargetLogs(domain, respond))
    ensures found <==> Flagged(respond(WithScheme(domain), BasicRequest)) ||
                       AdvancedReports(WithScheme(domain), respond) != []
  {
    var basicLog, advancedLog := logs.basic, logs.advanced;
    found, basicLog := BasicCheck(domain, respond, basicLog);
    if !found {
      found, advancedLog := AdvancedCheck(domain, respond, advancedLog);
    }
    logs' := Logs(basicLog, advancedLog, logs.console + [Verdict(domain, found)]);
  }

  /** What a run over `domains` adds, target by target. */
  function RunLogs(domains: seq<string>, respond: (string, Request) -> Reply): (added: Logs)
    ensures |added.console| == |domains|
    decreases |domains|
  {
    if domains == [] then Logs([], [], [])
    else Append(RunLogs(domains[..|domains| - 1], respond), TargetLogs(domains[|domains| - 1], respond))
  }

  /** The console reports each target once, in order, with its own verdict. */
  lemma {:induction false} RunVerdicts(domains: seq<string>, respond: (string, Request) -> Reply, k: nat)
    requires k < |domains|
    ensures RunLogs(domains, respond).console[k] == TargetLogs(domains[k], respond).console[0]
    decreases |domains|
  {
    var front := domains[..|domains| - 1];
    var earlier := RunLogs(front, respond);
    var last := TargetLogs(domains[|domains| - 1], respond);
    var console := earlier.console + last.console;
    assert RunLogs(domains, respond).console == console;
    if k < |front| {
      RunVerdicts(front, respond, k);
      assert front[k] == domains[k];
      assert console[k] == earlier.console[k];
    } else {
      assert k == |earlier.console|;
      assert console[k] == last.console[0];
    }
  }

  /** The loop of `main` over the targets. */
  method Scan(domains: seq<string>, respond: (string, Request) -> Reply, logs: Logs) returns (logs': Logs)
    ensures logs' == Append(logs, RunLogs(domains, respond))
  {
    logs' := logs;
    var i := 0;
    while i < |domains|
      invariant 0 <= i <= |domains|
      invariant logs' == Append(logs, RunLogs(domains[..i], respond))
    {
      ghost var prev := logs';
      var found;
      found, logs' := CheckTarget(domains[i], respond, logs');
      RunLogsExtend(domains, i, respond, logs, prev, logs');
      i := i + 1;
    }
    assert domains[..|domains|] == domains;
  }

  lemma RunLogsExtend(domains: seq<string>, i: nat, respond: (string, Request) -> Reply,
                      logs: Logs, logs1: Logs, logs2: Logs)
    requires i < |domains|
    requires logs1 == Append(logs, RunLogs(domains[..i], respond))
    requires logs2 == Append(logs1, TargetLogs(domains[i], respond))
    ensures logs2 == Append(logs, RunLogs(domains[..i + 1], respond))
  {
    assert domains[..i + 1][..i] == domains[..i];
    AppendAssoc(logs, RunLogs(domains[..i], respond), TargetLogs(domains[i], respond));
  }

  lemma AppendAssoc(a: Logs, b: Logs, c: Logs)
    ensures Append(Append(a, b), c) == Append(a, Append(b, c))
  {
  }

  // ---------------------------------------------------------------------
  // Choosing the targets
  // ---------------------------------------------------------------------

  /** What `main` does before the loop: scan these targets, or stop. */
  datatype Plan = ScanTargets(domains: seq<string>) | UnreadableFile | NoDomains

  /**
   * `main`'s choice of targets. `domain` and `file` are the two options, the
   * empty string standing for an option that is absent (both are falsy);
   * `content` is the file's text, `None` when opening or reading it fails.
   * A given `--domain` wins over `--file`; a failed read stops the run; an
   * empty list stops it too.
   */
  function Targets(domain: string, file: string, content: Option<string>): (p: Plan)
    ensures domain != "" ==> p == ScanTargets([domain])
    ensures domain == "" && file != "" && content.None? ==> p == UnreadableFile
    ensures domain == "" && file == "" ==> p == NoDomains
    ensures p.ScanTargets? ==> p.domains != []
    ensures domain == "" && file != "" && content.Some? ==>
      (p == NoDomains <==> Entries(Lines(content.value), false) == [])
    ensures domain == "" && p.ScanTargets? ==>
      file != "" && content.Some? && p.domains == Entries(Lines(content.value), false)
  {
    var domains :=
      if domain != "" then [domain]
      else if file != "" && content.Some? then Entries(Lines(content.value), false)
      else [];
    if domain == "" && file != "" && content.None? then UnreadableFile
    else if domains == [] then NoDomains
    else ScanTargets(domains)
  }
}
