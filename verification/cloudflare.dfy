/**
 * utils/cloudflare.py: each target is requested once with headers that
 * claim the request comes from the origin itself; a 200 answer is logged
 * as a potential Cloudflare bypass. Targets come from exactly one of
 * `--domain` and `--file`.
 */
module Cloudflare {
  import opened Text
  import opened Probe
  import opened ConfFile

  // ---------------------------------------------------------------------
  // Configuration
  // ---------------------------------------------------------------------

  /** The log file is `LOG_DIR/CLOUDFLARE_DIR/CLOUDFLARE_FILE`. */
  datatype LogSettings = LogSettings(logDir: string, cloudflareDir: string, logFile: string)

  /** The module-level constants read from `utils.conf`, with their defaults. */
  function LogSettingsOf(config: map<string, string>): (s: LogSettings)
    ensures "LOG_DIR" !in config ==> s.logDir == "logs"
    ensures "CLOUDFLARE_DIR" !in config ==> s.cloudflareDir == "cloudflare"
    ensures "CLOUDFLARE_FILE" !in config ==> s.logFile == "cloudflare.log"
    ensures "LOG_DIR" in config ==> s.logDir == config["LOG_DIR"]
    ensures "CLOUDFLARE_DIR" in config ==> s.cloudflareDir == config["CLOUDFLARE_DIR"]
    ensures "CLOUDFLARE_FILE" in config ==> s.logFile == config["CLOUDFLARE_FILE"]
  {
    LogSettings(
      if "LOG_DIR" in config then config["LOG_DIR"] else "logs",
      if "CLOUDFLARE_DIR" in config then config["CLOUDFLARE_DIR"] else "cloudflare",
      if "CLOUDFLARE_FILE" in config then config["CLOUDFLARE_FILE"] else "cloudflare.log")
  }

  /** A missing or unreadable `utils.conf` leaves every setting at its default. */
  lemma UnreadableConfDefaults(config: map<string, string>)
    requires config == map[]
    ensures LogSettingsOf(config) == LogSettings("logs", "cloudflare", "cloudflare.log")
  {
  }

  /** `export LOG_DIR=value`, as a shell file writes it, moves the log directory and nothing else. */
  lemma ExportedLogDir(value: string)
    requires CleanValue(value) && value != [] && 'e' !in value && '\n' !in value
    ensures LogSettingsOf(Conf(Lines("export LOG_DIR=" + value + "\n"), true)) ==
      LogSettings(value, "cloudflare", "cloudflare.log")
  {
    var key := "LOG_DIR";
    var l := "export " + key + "=" + value;
    assert CleanKey(key) && 'e' !in key;
    assert "export LOG_DIR=" + value + "\n" == l + "\n";
    assert '\n' !in l;
    LinesOfLine(l);
    ConfOfOneLine(l, true);
    ExportPrefixRemoved(key, value);
    var config := map[key := value];
    assert "CLOUDFLARE_DIR" !in config && "CLOUDFLARE_FILE" !in config;
  }

  // ---------------------------------------------------------------------
  // The bypass check
  // ---------------------------------------------------------------------

  /** The headers of the probe, in dict order. */
  const BypassHeaders: seq<(string, string)> := [
    ("CF-Connecting-IP", "127.0.0.1"),
    ("X-Forwarded-For", "127.0.0.1"),
    ("X-Forwarded-Proto", "https"),
    ("X-Real-IP", "127.0.0.1")
  ]

  /** Python's `repr` of a dict of plain strings: `{'k': 'v', ...}`. */
  function DictRepr(pairs: seq<(string, string)>): string {
    "{" + Join(PairReprs(pairs), ", ") + "}"
  }

  function PairReprs(pairs: seq<(string, string)>): (r: seq<string>)
    ensures |r| == |pairs|
  {
    seq(|pairs|, k requires 0 <= k < |pairs| => "'" + pairs[k].0 + "': '" + pairs[k].1 + "'")
  }

  /** One record of the `logging` module, by level. */
  datatype LogRecord = Warning(message: string) | Info(message: string) | Error(message: string)

  /** The probe was answered with 200: a potential bypass. */
  predicate Bypassed(reply: Reply) {
    reply.Response? && reply.status == 200
  }

  /** The warning that names `domain`. */
  function BypassWarning(domain: string): LogRecord {
    Warning("Potential Cloudflare bypass vulnerability in " + domain)
  }

  /**
   * What `check_cloudflare_bypass` logs for one target given the reply to
   * its probe: a warning (naming the target as given, not the URL) and two
   * details for a 200 answer, an error for a failed request, and nothing
   * for any other status.
   */
  function BypassLog(domain: string, reply: Reply): (recs: seq<LogRecord>)
    ensures (exists k :: 0 <= k < |recs| && recs[k].Warning?) <==> Bypassed(reply)
    ensures Bypassed(reply) ==> recs[0] == BypassWarning(domain)
    ensures reply.Response? && reply.status != 200 ==> recs == []
    ensures reply.RequestFailed? ==> recs == [Error("Error checking " + domain + ": " + reply.message)]
  {
    match reply
    case Response(status, _) =>
      if status == 200 then
        var recs := [BypassWarning(domain),
                     Info("Headers used: " + DictRepr(BypassHeaders)),
                     Info("Response status: 200")];
        assert recs[0].Warning?;
        recs
      else []
    case RequestFailed(message) => [Error("Error checking " + domain + ": " + message)]
  }

  /**
   * `check_cloudflare_bypass`: the target gets `https://` unless it names
   * its scheme; `respond(url)` is the reply to the probe of `url`.
   */
  method CheckBypass(domain: string, respond: string -> Reply, log: seq<LogRecord>) returns (log': seq<LogRecord>)
    ensures log' == log + BypassLog(domain, respond(WithScheme(domain)))
  {
    var url := WithScheme(domain);
    var reply := respond(url);
    log' := log;
    if reply.Response? {
      if reply.status == 200 {
        log' := log' + [BypassWarning(domain)];
        log' := log' + [Info("Headers used: " + DictRepr(BypassHeaders))];
        log' := log' + [Info("Response status: 200")];
      }
    } else {
      log' := log' + [Error("Error checking " + domain + ": " + reply.message)];
    }
  }

  /** What checking `domains` in turn logs. */
  function ScanLog(domains: seq<string>, respond: string -> Reply): seq<LogRecord>
    decreases |domains|
  {
    if domains == [] then []
    else
      var d := domains[|domains| - 1];
      ScanLog(domains[..|domains| - 1], respond) + BypassLog(d, respond(WithScheme(d)))
  }

  /** A bypass warning is logged for a target exactly when its probe was answered with 200. */
  lemma {:induction false} ScanWarnings(domains: seq<string>, respond: string -> Reply, d: string)
    ensures BypassWarning(d) in ScanLog(domains, respond) <==> d in domains && Bypassed(respond(WithScheme(d)))
    decreases |domains|
  {
    if domains != [] {
      var front := domains[..|domains| - 1];
      var last := domains[|domains| - 1];
      ScanWarnings(front, respond, d);
      BypassLogWarning(last, respond(WithScheme(last)), d);
      assert domains == front + [last];
    }
  }

  /** The warnings of one target name that target, and only when it was bypassed. */
  lemma BypassLogWarning(domain: string, reply: Reply, d: string)
    ensures BypassWarning(d) in BypassLog(domain, reply) <==> domain == d && Bypassed(reply)
  {
    var recs := BypassLog(domain, reply);
    if BypassWarning(d) in recs {
      var k :| 0 <= k < |recs| && recs[k] == BypassWarning(d);
      assert k == 0;
      WarningNames(domain, d);
    }
  }

  /** Different targets give different warnings. */
  lemma WarningNames(a: string, b: string)
    requires "Potential Cloudflare bypass vulnerability in " + a == "Potential Cloudflare bypass vulnerability in " + b
    ensures a == b
  {
    var p := "Potential Cloudflare bypass vulnerability in ";
    assert a == (p + a)[|p|..];
    assert b == (p + b)[|p|..];
  }

  /** The loop over the targets read from the file. */
  method Scan(domains: seq<string>, respond: string -> Reply, log: seq<LogRecord>) returns (log': seq<LogRecord>)
    ensures log' == log + ScanLog(domains, respond)
  {
    log' := log;
    var i := 0;
    while i < |domains|
      invariant 0 <= i <= |domains|
      invariant log' == log + ScanLog(domains[..i], respond)
    {
      ghost var prev := log';
      log' := CheckBypass(domains[i], respond, log');
      ScanLogExtend(domains, i, respond, log, prev, log');
      i := i + 1;
    }
    assert domains[..|domains|] == domains;
  }

  lemma ScanLogExtend(domains: seq<string>, i: nat, respond: string -> Reply,
                      log: seq<LogRecord>, log1: seq<LogRecord>, log2: seq<LogRecord>)
    requires i < |domains|
    requires log1 == log + ScanLog(domains[..i], respond)
    requires log2 == log1 + BypassLog(domains[i], respond(WithScheme(domains[i])))
    ensures log2 == log + ScanLog(domains[..i + 1], respond)
  {
    assert domains[..i + 1][..i] == domains[..i];
  }

  // ---------------------------------------------------------------------
  // Choosing the targets
  // ---------------------------------------------------------------------

  /** Opening and reading the `--file` list: its text, or the reason it failed. */
  datatype FileRead = Opened(text: string) | OpenFailed(reason: string)

  /** How `main` ends: a usage error (exit 2), a read error (exit 1), or the checks of these targets. */
  datatype Outcome = UsageError | ReadError(reason: string) | Checked(domains: seq<string>)

  /**
   * `main`'s choice of targets. `--domain` and `--file` form a required,
   * mutually exclusive group, so exactly one of them must be given; an
   * empty value passes the parser but is falsy, and then nothing is
   * checked. The list file's targets are its stripped, non-blank lines.
   */
  function Targets(domain: Option<string>, file: Option<string>, read: FileRead): (o: Outcome)
    ensures o == UsageError <==> domain.Some? == file.Some?
    ensures domain.Some? && file.None? && domain.value != "" ==> o == Checked([domain.value])
    ensures domain.None? && file.Some? && file.value != "" ==>
      (o.ReadError? <==> read.OpenFailed?) &&
      (read.Opened? ==> o == Checked(Entries(Lines(read.text), false)))
    ensures o.Checked? ==> forall k :: 0 <= k < |o.domains| ==> o.domains[k] != ""
  {
    if domain.Some? == file.Some? then UsageError
    else if domain.Some? then
      if domain.value != "" then Checked([domain.value]) else Checked([])
    else if file.value == "" then Checked([])
    else
      match read
      case OpenFailed(reason) => ReadError(reason)
      case Opened(text) =>
        EntriesShape(Lines(text), false);
        Checked(Entries(Lines(text), false))
  }

  /**
   * `main` after parsing: the chosen targets are checked in turn; a list
   * that cannot be read logs an error and exits with 1; a usage error exits
   * with 2 before anything is logged.
   */
  method Run(domain: Option<string>, file: Option<string>, read: FileRead, respond: string -> Reply)
    returns (exitCode: int, log: seq<LogRecord>)
    ensures var o := Targets(domain, file, read);
      && (o == UsageError ==> exitCode == 2 && log == [])
      && (o.ReadError? ==> exitCode == 1 && log == [Error("Error reading domain file: " + o.reason)])
      && (o.Checked? ==> exitCode == 0 && log == ScanLog(o.domains, respond))
  {
    var o := Targets(domain, file, read);
    log := [];
    match o
    case UsageError =>
      exitCode := 2;
    case ReadError(reason) =>
      log := [Error("Error reading domain file: " + reason)];
      exitCode := 1;
    case Checked(domains) =>
      log := Scan(domains, respond, log);
      exitCode := 0;
  }
}
