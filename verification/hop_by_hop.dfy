/**
 * utils/hop_by_hop_checker.py: each target is requested twice, once plainly
 * and once with hop-by-hop headers; a different status, or failing that a
 * different body, marks it as potentially vulnerable and appends it to up
 * to three result files.
 */
module HopByHop {
  import opened Text
  import opened Probe

  /** The headers of the manipulated request, in dict order. */
  const HopHeaders: seq<(string, string)> := [
    ("Connection", "close"),
    ("X-Forwarded-For", "127.0.0.1"),
    ("Proxy-Connection", "close")
  ]

  // ---------------------------------------------------------------------
  // Result files
  // ---------------------------------------------------------------------

  /** The default names of the three result files, under `logs/hop_by_hop`. */
  const DefaultOutput := "hop_by_hop.txt"
  const DefaultDifferingStatusOutput := "hop_by_hop_differing_status.txt"
  const DefaultStatusesOutput := "hop_by_hop_statuses.txt"

  /**
   * The lines appended to the vulnerabilities file (`--output`), the
   * differing-status file and the statuses file, each without its newline.
   */
  datatype Outputs = Outputs(vulnerable: seq<string>, differingStatus: seq<string>, statuses: seq<string>)

  const NoOutputs := Outputs([], [], [])

  function Append(a: Outputs, b: Outputs): Outputs {
    Outputs(a.vulnerable + b.vulnerable, a.differingStatus + b.differingStatus, a.statuses + b.statuses)
  }

  /** `log_differing_status` and `log_status`: `url | original | hopped`. */
  function StatusLine(url: string, original: int, hopped: int): string {
    url + " | " + IntToString(original) + " | " + IntToString(hopped)
  }

  /** A status line splits back into the URL and the two statuses. */
  lemma StatusLineFields(url: string, original: int, hopped: int)
    requires ' ' !in url
    ensures SplitOn(StatusLine(url, original, hopped), " | ") == [url, IntToString(original), IntToString(hopped)]
  {
    var a, b := IntToString(original), IntToString(hopped);
    NoSpaceInInt(original);
    NoSpaceInInt(hopped);
    assert StatusLine(url, original, hopped) == url + " | " + (a + " | " + b);
    SplitOnCons(url, a + " | " + b, " | ");
    SplitOnCons(a, b, " | ");
    IndexOfAbsent(b, " | ");
  }

  /** Splitting at a first separator whose first character does not occur before it. */
  lemma SplitOnCons(a: string, rest: string, sep: string)
    requires sep != [] && sep[0] !in a
    ensures SplitOn(a + sep + rest, sep) == [a] + SplitOn(rest, sep)
  {
    var s := a + sep + rest;
    assert s[|a|..|a| + |sep|] == sep && s[..|a|] == a && s[|a| + |sep|..] == rest;
    IndexOfAt(s, sep, |a|);
  }

  /** A rendered integer holds no space. */
  lemma NoSpaceInInt(n: int)
    ensures ' ' !in IntToString(n)
  {
    var r := IntToString(n);
    if n < 0 {
      assert r == "-" + DecimalDigits(-n);
    }
    assert forall k :: 0 <= k < |r| ==> r[k] == '-' || IsDigit(r[k]);
  }

  // ---------------------------------------------------------------------
  // The verdict
  // ---------------------------------------------------------------------

  /** What `check_hop_by_hop_vulnerability` logs to the console. */
  datatype Verdict = StatusDiffers(original: int, hopped: int) | ContentDiffers | NoDifference | RequestError(message: string)

  /**
   * The verdict on the plain reply and the manipulated reply. A failed
   * request ends the check (the second request is not sent when the first
   * fails); the status comparison comes before the body comparison.
   */
  function VerdictOf(baseline: Reply, manipulated: Reply): (v: Verdict)
    ensures baseline.RequestFailed? ==> v == RequestError(baseline.message)
    ensures baseline.Response? && manipulated.RequestFailed? ==> v == RequestError(manipulated.message)
    ensures v.StatusDiffers? <==> baseline.Response? && manipulated.Response? && baseline.status != manipulated.status
    ensures v.ContentDiffers? <==>
      baseline.Response? && manipulated.Response? && baseline.status == manipulated.status && baseline.text != manipulated.text
    ensures v.StatusDiffers? ==> v.original == baseline.status && v.hopped == manipulated.status
  {
    if baseline.RequestFailed? then RequestError(baseline.message)
    else if manipulated.RequestFailed? then RequestError(manipulated.message)
    else if baseline.status != manipulated.status then StatusDiffers(baseline.status, manipulated.status)
    else if baseline.text != manipulated.text then ContentDiffers
    else NoDifference
  }

  /**
   * The result lines one check appends: for a differing status, the URL to
   * the vulnerabilities file and the status line to the other two; for a
   * differing body only, the URL and the status line to the vulnerabilities
   * and statuses files; nothing otherwise, and nothing at all under `noLog`.
   */
  function Written(url: string, baseline: Reply, manipulated: Reply, noLog: bool): (w: Outputs)
    ensures noLog ==> w == NoOutputs
    ensures var v := VerdictOf(baseline, manipulated);
      w.vulnerable != [] <==> !noLog && (v.StatusDiffers? || v.ContentDiffers?)
    ensures w.differingStatus != [] <==> !noLog && VerdictOf(baseline, manipulated).StatusDiffers?
    ensures w.vulnerable != [] ==> w.vulnerable == [url] && w.statuses == [StatusLine(url, baseline.status, manipulated.status)]
    ensures w.vulnerable == [] ==> w.statuses == [] && w.differingStatus == []
    ensures w.differingStatus != [] ==> w.differingStatus == w.statuses
  {
    match VerdictOf(baseline, manipulated)
    case StatusDiffers(original, hopped) =>
      if noLog then NoOutputs
      else Outputs([url], [StatusLine(url, original, hopped)], [StatusLine(url, original, hopped)])
    case ContentDiffers =>
      if noLog then NoOutputs
      else Outputs([url], [], [StatusLine(url, baseline.status, manipulated.status)])
    case _ => NoOutputs
  }

  /**
   * `check_hop_by_hop_vulnerability` for one target: `respond(url, hop)` is
   * the reply to the request for `url`, with the hop-by-hop headers when
   * `hop` holds.
   */
  method CheckTarget(subdomain: string, respond: (string, bool) -> Reply, noLog: bool, out: Outputs)
    returns (verdict: Verdict, out': Outputs)
    ensures var url := WithScheme(subdomain);
      var baseline := respond(url, false);
      verdict == VerdictOf(baseline, if baseline.Response? then respond(url, true) else baseline)
    ensures var url := WithScheme(subdomain);
      var baseline := respond(url, false);
      out' == Append(out, Written(url, baseline, if baseline.Response? then respond(url, true) else baseline, noLog))
  {
    var url := WithScheme(subdomain);
    var baseline := respond(url, false);
    out' := out;
    if baseline.RequestFailed? {
      verdict := RequestError(baseline.message);
      return;
    }
    var manipulated := respond(url, true);
    if manipulated.RequestFailed? {
      verdict := RequestError(manipulated.message);
      return;
    }
    if baseline.status != manipulated.status {
      verdict := StatusDiffers(baseline.status, manipulated.status);
      if !noLog {
        var line := StatusLine(url, baseline.status, manipulated.status);
        out' := Outputs(out'.vulnerable + [url], out'.differingStatus + [line], out'.statuses + [line]);
      }
    } else if baseline.text != manipulated.text {
      verdict := ContentDiffers;
      if !noLog {
        var line := StatusLine(url, baseline.status, manipulated.status);
        out' := Outputs(out'.vulnerable + [url], out'.differingStatus, out'.statuses + [line]);
      }
    } else {
      verdict := NoDifference;
    }
  }

  /** Each file takes one line per reported target, so the files read back line by line. */
  lemma WrittenReadsBack(url: string, baseline: Reply, manipulated: Reply, noLog: bool)
    requires '\n' !in url
    ensures var w := Written(url, baseline, manipulated, noLog);
      && Lines(Concat(w.vulnerable, "\n")) == w.vulnerable
      && Lines(Concat(w.statuses, "\n")) == w.statuses
      && Lines(Concat(w.differingStatus, "\n")) == w.differingStatus
  {
    var w := Written(url, baseline, manipulated, noLog);
    if w.statuses != [] {
      var line := w.statuses[0];
      NoNewlineInInt(baseline.status);
      NoNewlineInInt(manipulated.status);
      assert '\n' !in line;
    }
    LinesOfWritten(w.vulnerable);
    LinesOfWritten(w.statuses);
    LinesOfWritten(w.differingStatus);
  }

  lemma NoNewlineInInt(n: int)
    ensures '\n' !in IntToString(n)
  {
    var r := IntToString(n);
    if n < 0 {
      assert r == "-" + DecimalDigits(-n);
    }
    assert forall k :: 0 <= k < |r| ==> r[k] == '-' || IsDigit(r[k]);
  }

  // ---------------------------------------------------------------------
  // Reading the target list
  // ---------------------------------------------------------------------

  /**
   * The characters Python's `str.splitlines()` ends a line at: line feed,
   * carriage return, vertical tab, form feed, the file, group and record
   * separators, next line, and the line and paragraph separators.
   */
  const LineBreaks: set<char> :=
    {'\n', '\r', 11 as char, 12 as char, 28 as char, 29 as char, 30 as char, 133 as char, 8232 as char, 8233 as char}

  /** The length of the first line of `s`: the index of its first line break, or `|s|`. */
  function LineLength(s: string): (n: nat)
    ensures n <= |s|
    ensures forall k :: 0 <= k < n ==> s[k] !in LineBreaks
    ensures n < |s| ==> s[n] in LineBreaks
    decreases |s|
  {
    if s == [] || s[0] in LineBreaks then 0 else 1 + LineLength(s[1..])
  }

  /** The width of the line break at `n`: two for `\r\n`, one otherwise. */
  function BreakWidth(s: string, n: nat): (w: nat)
    requires n < |s|
    ensures 1 <= w && n + w <= |s|
  {
    if s[n] == '\r' && n + 1 < |s| && s[n + 1] == '\n' then 2 else 1
  }

  /**
   * `str.splitlines()`: the lines of `s`, without their line breaks,
   * blank lines kept and no empty piece after a final break. Text-mode
   * reading turns `\r\n` and `\r` into `\n` first, which this split treats
   * alike, so it applies to the file's raw text too.
   */
  function SplitLines(s: string): (r: seq<string>)
    ensures forall k :: 0 <= k < |r| ==> forall c :: c in r[k] ==> c !in LineBreaks
    decreases |s|
  {
    if s == [] then []
    else
      var n := LineLength(s);
      if n == |s| then [s]
      else [s[..n]] + SplitLines(s[n + BreakWidth(s, n)..])
  }

  /** A line without line breaks, followed by `\n`, is split off exactly. */
  lemma SplitLinesCons(x: string, rest: string)
    requires forall c :: c in x ==> c !in LineBreaks
    ensures SplitLines(x + "\n" + rest) == [x] + SplitLines(rest)
  {
    var s := x + "\n" + rest;
    assert s[|x|] == '\n' && s[..|x|] == x && s[|x| + 1..] == rest;
    assert LineLength(s) == |x| by {
      assert s == x + ("\n" + rest);
      LineLengthOf(x, "\n" + rest);
    }
    assert BreakWidth(s, |x|) == 1;
  }

  lemma {:induction false} LineLengthOf(x: string, rest: string)
    requires forall c :: c in x ==> c !in LineBreaks
    requires rest != [] && rest[0] in LineBreaks
    ensures LineLength(x + rest) == |x|
    decreases |x|
  {
    if x != [] {
      assert (x + rest)[1..] == x[1..] + rest;
      LineLengthOf(x[1..], rest);
    } else {
      assert x + rest == rest;
    }
  }

  /**
   * Lines written one per `\n` are read back unchanged, blank ones and
   * surrounding spaces included: `load_subdomains` neither strips nor
   * drops anything.
   */
  lemma {:induction false} SplitLinesOfWritten(xs: seq<string>)
    requires forall k :: 0 <= k < |xs| ==> forall c :: c in xs[k] ==> c !in LineBreaks
    ensures SplitLines(Concat(xs, "\n")) == xs
    decreases |xs|
  {
    if xs != [] {
      SplitLinesOfWritten(xs[1..]);
      SplitLinesCons(xs[0], Concat(xs[1..], "\n"));
      assert Concat(xs, "\n") == xs[0] + "\n" + Concat(xs[1..], "\n");
      assert [xs[0]] + xs[1..] == xs;
    }
  }

  /** A final line without a line break is still a line. */
  lemma SplitLinesLastLine(x: string)
    requires x != [] && forall c :: c in x ==> c !in LineBreaks
    ensures SplitLines(x) == [x]
  {
    LineLengthAll(x);
  }

  lemma {:induction false} LineLengthAll(x: string)
    requires forall c :: c in x ==> c !in LineBreaks
    ensures LineLength(x) == |x|
    decreases |x|
  {
    if x != [] {
      assert x[0] in x;
      LineLengthAll(x[1..]);
    }
  }

  /** What `main` checks: the `--domain` target, else the lines of the `--list` file. */
  datatype Targets = UsageError | ListUnreadable | Check(subdomains: seq<string>)

  /**
   * `main`'s choice of targets. Empty option values count as absent; with
   * neither option the parser exits; a list file that cannot be opened
   * raises; otherwise the file's lines are taken as they are.
   */
  function TargetsOf(domain: string, list: string, content: Option<string>): (t: Targets)
    ensures t == UsageError <==> domain == "" && list == ""
    ensures domain != "" ==> t == Check([domain])
    ensures domain == "" && list != "" ==>
      (t == ListUnreadable <==> content.None?) &&
      (content.Some? ==> t == Check(SplitLines(content.value)))
  {
    if domain == "" && list == "" then UsageError
    else if domain != "" then Check([domain])
    else if content.None? then ListUnreadable
    else Check(SplitLines(content.value))
  }
}
