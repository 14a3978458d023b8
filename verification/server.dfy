/**
 * The observer and run state of the HTTP front end (pkg/server/server.go):
 * the 400-line log ring and the writer that feeds it, the step-status map,
 * the single-flight run guard, the list-name lookup and the
 * append-if-absent rule for scope lists.
 *
 * Each locked section is one atomic method; HTTP, JSON and the goroutine
 * are not modelled. The list files are an `App.Files` value.
 */
module Server {
  import opened Text
  import App

  /** Only `Pending` is visible in the source; other statuses are opaque names. */
  datatype StepStatus = Pending | Reported(name: string)

  datatype Step = Step(id: string, title: string)

  /** One entry of the steps endpoint. */
  datatype StepView = StepView(id: string, title: string, status: StepStatus)

  function StepIds(steps: seq<Step>): set<string> {
    set i | 0 <= i < |steps| :: steps[i].id
  }

  const LogCapacity := 400

  /** The most recent `LogCapacity` lines of a transcript, oldest first. */
  function Recent(transcript: seq<string>): (r: seq<string>)
    ensures |r| <= LogCapacity
    ensures |transcript| <= LogCapacity ==> r == transcript
    ensures |transcript| > LogCapacity ==> |r| == LogCapacity
    ensures forall i :: 0 <= i < |r| ==> r[i] == transcript[|transcript| - |r| + i]
  {
    if |transcript| <= LogCapacity then transcript else transcript[|transcript| - LogCapacity..]
  }

  /** Appending one line and cutting back to the capacity keeps the ring equal to `Recent`. */
  lemma RecentSnoc(transcript: seq<string>, line: string)
    ensures Recent(transcript + [line]) ==
              (var l := Recent(transcript) + [line]; if |l| > LogCapacity then l[|l| - LogCapacity..] else l)
  {
    var t := transcript + [line];
    if |transcript| >= LogCapacity {
      assert Recent(t) == t[|t| - LogCapacity..];
      var l := Recent(transcript) + [line];
      assert l[|l| - LogCapacity..] == t[|t| - LogCapacity..];
    }
  }

  /** A line as `Write` records it: trailing carriage returns removed. */
  function LogLine(segment: string): (r: string)
    ensures |r| <= |segment| && r == segment[..|r|]
    ensures r == [] || r[|r| - 1] != '\r'
    ensures forall i :: |r| <= i < |segment| ==> segment[i] == '\r'
  {
    StripRight(segment, {'\r'})
  }

  function LogLines(segments: seq<string>): (r: seq<string>)
    ensures |r| == |segments|
    ensures forall i :: 0 <= i < |segments| ==> r[i] == LogLine(segments[i])
    decreases |segments|
  {
    if segments == [] then []
    else LogLines(segments[..|segments| - 1]) + [LogLine(segments[|segments| - 1])]
  }

  /** The pieces between line feeds are the lines, and possibly a last empty piece. */
  lemma SegmentsOfLines(p: string)
    ensures var segments, lines := Split(p, '\n'), Lines(p);
      && (|segments| == |lines| || (|segments| == |lines| + 1 && segments[|lines|] == ""))
      && forall k :: 0 <= k < |lines| ==> lines[k] == segments[k]
  {
    LinesOfSplit(p);
  }

  /** Recording the next line extends the transcript by that line's log line. */
  lemma TranscriptStep(t0: seq<string>, lines: seq<string>, i: nat, t1: seq<string>, t2: seq<string>)
    requires i < |lines|
    requires t1 == t0 + LogLines(lines[..i])
    requires t2 == t1 + [LogLine(lines[i])]
    ensures t2 == t0 + LogLines(lines[..i + 1])
  {
    assert lines[..i + 1][..i] == lines[..i];
  }

  /**
   * What one `Write(p)` records: the pieces of `p` between line feeds,
   * without an empty piece after a final line feed, each without trailing
   * carriage returns.
   */
  function Logged(p: string): seq<string> {
    LogLines(Lines(p))
  }

  /** Lines written one per line feed are recorded exactly. */
  lemma LoggedOfLines(xs: seq<string>)
    requires forall k :: 0 <= k < |xs| ==> '\n' !in xs[k] && (xs[k] == [] || xs[k][|xs[k]| - 1] != '\r')
    ensures Logged(Concat(xs, "\n")) == xs
  {
    LinesOfWritten(xs);
  }

  /** Lines written one per CR LF pair are recorded exactly, without the carriage returns. */
  lemma LoggedOfCrlfLines(xs: seq<string>)
    requires forall k :: 0 <= k < |xs| ==> '\n' !in xs[k] && (xs[k] == [] || xs[k][|xs[k]| - 1] != '\r')
    ensures Logged(Concat(xs, "\r\n")) == xs
  {
    var ys := seq(|xs|, i requires 0 <= i < |xs| => xs[i] + "\r");
    ConcatCarriage(xs);
    LinesOfWritten(ys);
    assert Lines(Concat(xs, "\r\n")) == ys;
    forall i | 0 <= i < |xs| ensures LogLine(ys[i]) == xs[i] {
      CarriageStripped(xs[i]);
    }
  }

  lemma CarriageStripped(x: string)
    requires x == [] || x[|x| - 1] != '\r'
    ensures LogLine(x + "\r") == x
  {
    assert (x + "\r")[..|x|] == x;
  }

  lemma {:induction false} ConcatCarriage(xs: seq<string>)
    ensures Concat(xs, "\r\n") == Concat(seq(|xs|, i requires 0 <= i < |xs| => xs[i] + "\r"), "\n")
    decreases |xs|
  {
    if xs != [] {
      var front := xs[..|xs| - 1];
      var x := xs[|xs| - 1];
      var ys := seq(|xs|, i requires 0 <= i < |xs| => xs[i] + "\r");
      var yfront := seq(|front|, i requires 0 <= i < |front| => front[i] + "\r");
      ConcatCarriage(front);
      assert xs == front + [x];
      assert ys == yfront + [x + "\r"];
      ConcatSnoc(front, x, "\r\n");
      ConcatSnoc(yfront, x + "\r", "\n");
    }
  }

  /** The configured scope-list paths. */
  datatype Lists = Lists(
    organizations: string,
    ips: string,
    wildcards: string,
    domains: string,
    apiDomains: string,
    outOfScope: string)

  /** The six list names the lookup accepts, lower-case. */
  const ListNames: set<string> := {"organizations", "ips", "wildcards", "domains", "apidomains", "out_of_scope"}

  /** `listPath`: a case-insensitive lookup of the six list names. */
  function ListPath(lists: Lists, name: string): (r: Option<string>)
    ensures r.Some? <==> ToLower(name) in ListNames
    ensures r.Some? ==> r.value in {lists.organizations, lists.ips, lists.wildcards,
                                    lists.domains, lists.apiDomains, lists.outOfScope}
    ensures ToLower(name) == "organizations" ==> r == Some(lists.organizations)
    ensures ToLower(name) == "ips" ==> r == Some(lists.ips)
    ensures ToLower(name) == "wildcards" ==> r == Some(lists.wildcards)
    ensures ToLower(name) == "domains" ==> r == Some(lists.domains)
    ensures ToLower(name) == "apidomains" ==> r == Some(lists.apiDomains)
    ensures ToLower(name) == "out_of_scope" ==> r == Some(lists.outOfScope)
  {
    var key := ToLower(name);
    if key == "organizations" then Some(lists.organizations)
    else if key == "ips" then Some(lists.ips)
    else if key == "wildcards" then Some(lists.wildcards)
    else if key == "domains" then Some(lists.domains)
    else if key == "apidomains" then Some(lists.apiDomains)
    else if key == "out_of_scope" then Some(lists.outOfScope)
    else None
  }

  /** Names that differ only in ASCII letter case name the same list. */
  lemma ListPathIgnoresCase(lists: Lists, a: string, b: string)
    requires EqualFold(a, b)
    ensures ListPath(lists, a) == ListPath(lists, b)
  {
  }

  /** Mixed-case names reach their list; an unknown name does not. */
  lemma ListPathExamples(lists: Lists)
    ensures ListPath(lists, "Out_Of_Scope") == Some(lists.outOfScope)
    ensures ListPath(lists, "APIDomains") == Some(lists.apiDomains)
    ensures ListPath(lists, "subdomains") == None
  {
    assert ToLower("Out_Of_Scope") == "out_of_scope";
    assert ToLower("APIDomains") == "apidomains";
    assert ToLower("subdomains") == "subdomains";
  }

  /** The entries `readListLines` returns: trimmed, non-blank lines; comments are kept. */
  function ListEntries(fs: App.Files, path: string): seq<string> {
    if path == "" || path !in fs then [] else Entries(Lines(fs[path]), false)
  }

  /** `readListLines`: nothing for an empty path or a missing file. */
  method ReadListLines(fs: App.Files, path: string) returns (lines: seq<string>)
    ensures lines == ListEntries(fs, path)
    ensures forall k :: 0 <= k < |lines| ==> lines[k] != "" && IsTrimmed(lines[k]) && '\n' !in lines[k]
  {
    if path == "" || path !in fs {
      return [];
    }
    var raw := Lines(fs[path]);
    lines := [];
    for i := 0 to |raw|
      invariant lines == Entries(raw[..i], false)
    {
      var line := Trim(raw[i]);
      EntriesStep(raw, i, false);
      if line != "" {
        lines := lines + [line];
      }
    }
    assert raw[..|raw|] == raw;
    EntriesShape(raw, false);
  }

  /** Unlike the pipeline's reader, the list reader keeps `#` lines. */
  lemma ListEntriesKeepComments(fs: App.Files, path: string, comment: string)
    requires path != "" && IsTrimmed(comment) && StartsWith(comment, "#") && '\n' !in comment
    requires fs.Keys == {path} && fs[path] == comment
    ensures ListEntries(fs, path) == [comment]
    ensures App.ScopeLines(fs[path]) == []
  {
    SplitWithout(comment, '\n');
    assert comment != "";
    assert Lines(comment) == [comment];
    TrimOfTrimmed(comment);
  }

  datatype UrlResponse =
    | BadRequest(message: string)
    | Exists
    | Appended
    | InternalError

  /** Some existing entry equals the new one up to ASCII letter case. */
  predicate Listed(entries: seq<string>, entry: string) {
    exists i :: 0 <= i < |entries| && EqualFold(entries[i], entry)
  }

  /** The current content of a list file; a missing file is created empty. */
  function Content(fs: App.Files, path: string): string {
    if path in fs then fs[path] else ""
  }

  /**
   * The append-if-absent rule of `urlHandler`: both fields are required,
   * the list name must be known, the trimmed URL must not be blank; an
   * entry already listed (ignoring case) is reported and nothing is
   * written; otherwise the entry and a line feed are appended. An empty
   * configured path cannot be opened.
   */
  function AddUrl(fs: App.Files, lists: Lists, listType: string, url: string): (r: (UrlResponse, App.Files))
    ensures r.0.BadRequest? <==>
              listType == "" || url == "" || ListPath(lists, listType).None? || Trim(url) == ""
    ensures r.0 != Appended ==> r.1 == fs
    ensures r.0 == Exists <==>
              !r.0.BadRequest? && Listed(ListEntries(fs, ListPath(lists, listType).value), Trim(url))
    ensures r.0 == Appended <==>
              !r.0.BadRequest? && r.0 != Exists && ListPath(lists, listType).value != ""
    ensures r.0 == InternalError <==>
              !r.0.BadRequest? && r.0 != Exists && ListPath(lists, listType).value == ""
    ensures r.0 == Appended ==>
              var dest := ListPath(lists, listType).value;
              dest != "" && r.1 == fs[dest := Content(fs, dest) + Trim(url) + "\n"]
  {
    if listType == "" || url == "" then (BadRequest("list_type and url are required"), fs)
    else
      var dest := ListPath(lists, listType);
      if dest.None? then (BadRequest("unsupported list_type \"" + listType + "\""), fs)
      else
        var entry := Trim(url);
        if entry == "" then (BadRequest("url cannot be empty"), fs)
        else if Listed(ListEntries(fs, dest.value), entry) then (Exists, fs)
        else if dest.value == "" then (InternalError, fs)
        else (Appended, fs[dest.value := Content(fs, dest.value) + entry + "\n"])
  }

  /** The handler's scan of the existing lines. */
  method UrlHandler(fs: App.Files, lists: Lists, listType: string, url: string)
    returns (response: UrlResponse, fs': App.Files)
    ensures (response, fs') == AddUrl(fs, lists, listType, url)
  {
    if listType == "" || url == "" {
      return BadRequest("list_type and url are required"), fs;
    }
    var dest := ListPath(lists, listType);
    if dest.None? {
      return BadRequest("unsupported list_type \"" + listType + "\""), fs;
    }
    var entry := Trim(url);
    if entry == "" {
      return BadRequest("url cannot be empty"), fs;
    }
    var existing := ReadListLines(fs, dest.value);
    var listed := ScanListed(existing, entry);
    if listed {
      return Exists, fs;
    }
    if dest.value == "" {
      return InternalError, fs;
    }
    return Appended, fs[dest.value := Content(fs, dest.value) + entry + "\n"];
  }

  /** The handler's loop over the existing lines, stopping at the first match. */
  method ScanListed(existing: seq<string>, entry: string) returns (listed: bool)
    ensures listed <==> Listed(existing, entry)
  {
    for i := 0 to |existing|
      invariant forall j :: 0 <= j < i ==> !EqualFold(existing[j], entry)
    {
      if EqualFold(existing[i], entry) {
        return true;
      }
    }
    return false;
  }

  /**
   * On a list file that is empty or ends in a line feed, an appended entry
   * becomes the last entry, so adding the same URL (in any case) again is
   * reported as existing and changes nothing.
   */
  lemma AddUrlIdempotent(fs: App.Files, lists: Lists, listType: string, url: string, again: string)
    requires AddUrl(fs, lists, listType, url).0 == Appended
    requires EndsLine(Content(fs, ListPath(lists, listType).value))
    requires '\n' !in url
    requires EqualFold(Trim(again), Trim(url)) && again != ""
    ensures ListEntries(AddUrl(fs, lists, listType, url).1, ListPath(lists, listType).value) ==
              ListEntries(fs, ListPath(lists, listType).value) + [Trim(url)]
    ensures AddUrl(AddUrl(fs, lists, listType, url).1, lists, listType, again) ==
              (Exists, AddUrl(fs, lists, listType, url).1)
  {
    var dest := ListPath(lists, listType).value;
    var fs1 := AddUrl(fs, lists, listType, url).1;
    AddUrlAppendsEntry(fs, lists, listType, url);
    var entries := ListEntries(fs1, dest);
    assert Listed(entries, Trim(again)) by {
      assert entries[|entries| - 1] == Trim(url);
      assert EqualFold(entries[|entries| - 1], Trim(again));
    }
    assert |ToLower(Trim(again))| == |ToLower(Trim(url))|;
  }

  /** The appended entry is read back as the list's last entry. */
  lemma AddUrlAppendsEntry(fs: App.Files, lists: Lists, listType: string, url: string)
    requires AddUrl(fs, lists, listType, url).0 == Appended
    requires EndsLine(Content(fs, ListPath(lists, listType).value))
    requires '\n' !in url
    ensures ListEntries(AddUrl(fs, lists, listType, url).1, ListPath(lists, listType).value) ==
              ListEntries(fs, ListPath(lists, listType).value) + [Trim(url)]
  {
    var dest := ListPath(lists, listType).value;
    var entry := Trim(url);
    var c := Content(fs, dest);
    assert AddUrl(fs, lists, listType, url).1 == fs[dest := c + entry + "\n"];
    assert entry != "" && dest != "";
    EntriesAppendLine(c, entry);
    if dest !in fs {
      assert Lines(c) == [];
    }
  }

  /** A line appended to a file that ends in a line feed is read back as its last entry. */
  lemma EntriesAppendLine(c: string, entry: string)
    requires EndsLine(c) && '\n' !in entry && entry != "" && IsTrimmed(entry)
    ensures Entries(Lines(c + entry + "\n"), false) == Entries(Lines(c), false) + [entry]
  {
    LinesAppendLine(c, entry);
    assert (Lines(c) + [entry])[..|Lines(c)|] == Lines(c);
    TrimOfTrimmed(entry);
  }

  /**
   * A file that does not end in a line feed takes the appended entry on
   * its last line: the two entries are read back as one.
   */
  lemma AddUrlJoinsUnterminatedLine(
    fs: App.Files, lists: Lists, listType: string, dest: string, previous: string, url: string)
    requires listType != "" && ListPath(lists, listType) == Some(dest)
    requires dest != "" && dest in fs && fs[dest] == previous
    requires previous != "" && IsTrimmed(previous) && '\n' !in previous
    requires url != "" && IsTrimmed(url) && '\n' !in url
    requires !EqualFold(previous, url)
    ensures AddUrl(fs, lists, listType, url) == (Appended, fs[dest := previous + url + "\n"])
    ensures ListEntries(fs[dest := previous + url + "\n"], dest) == [previous + url]
  {
    TrimOfTrimmed(url);
    EntriesOfLine(previous, false);
    assert !Listed(ListEntries(fs, dest), url);
    JoinedLineEntries(fs, dest, previous, url);
  }

  lemma JoinedLineEntries(fs: App.Files, dest: string, previous: string, url: string)
    requires dest != ""
    requires previous != "" && IsTrimmed(previous) && '\n' !in previous
    requires url != "" && IsTrimmed(url) && '\n' !in url
    ensures ListEntries(fs[dest := previous + url + "\n"], dest) == [previous + url]
  {
    var joined := previous + url;
    assert joined[0] == previous[0] && joined[|joined| - 1] == url[|url| - 1];
    EntriesOfLine(joined, false);
  }

  /**
   * The server's observable state. `transcript` is every line ever
   * recorded; `logLines` must stay its most recent `LogCapacity` lines.
   */
  class FlowServer {
    const lists: Lists
    var running: bool
    var status: string
    var logLines: seq<string>
    ghost var transcript: seq<string>
    var steps: seq<Step>
    var stepState: map<string, StepStatus>

    ghost predicate Valid()
      reads this
    {
      logLines == Recent(transcript) && stepState.Keys == StepIds(steps)
    }

    /** `New` with `initSteps`: idle, an empty log, every step pending. */
    constructor (flowSteps: seq<Step>, lists: Lists)
      ensures Valid()
      ensures this.lists == lists && steps == flowSteps
      ensures !running && status == "idle" && logLines == [] && transcript == []
      ensures forall id :: id in stepState ==> stepState[id] == Pending
    {
      this.lists := lists;
      running := false;
      status := "idle";
      logLines := [];
      transcript := [];
      steps := flowSteps;
      new;
      stepState := map[];
      InitSteps();
    }

    /** `initSteps`: one pending entry per step id. */
    method InitSteps()
      modifies this
      ensures stepState.Keys == StepIds(steps)
      ensures forall id :: id in stepState ==> stepState[id] == Pending
      ensures steps == old(steps) && logLines == old(logLines) && transcript == old(transcript)
      ensures running == old(running) && status == old(status)
    {
      stepState := map[];
      for i := 0 to |steps|
        invariant steps == old(steps) && logLines == old(logLines) && transcript == old(transcript)
        invariant running == old(running) && status == old(status)
        invariant stepState.Keys == StepIds(steps[..i])
        invariant forall id :: id in stepState ==> stepState[id] == Pending
      {
        assert StepIds(steps[..i + 1]) == StepIds(steps[..i]) + {steps[i].id} by {
          assert steps[..i + 1] == steps[..i] + [steps[i]];
        }
        stepState := stepState[steps[i].id := Pending];
      }
      assert steps[..|steps|] == steps;
    }

    /** `recordLog`: append, then keep only the newest `LogCapacity` lines. */
    method RecordLog(line: string)
      requires Valid()
      modifies this
      ensures Valid()
      ensures transcript == old(transcript) + [line]
      ensures |logLines| <= LogCapacity && logLines[|logLines| - 1] == line
      ensures steps == old(steps) && stepState == old(stepState)
      ensures running == old(running) && status == old(status)
    {
      RecentSnoc(transcript, line);
      logLines := logLines + [line];
      if |logLines| > LogCapacity {
        logLines := logLines[|logLines| - LogCapacity..];
      }
      transcript := transcript + [line];
    }

    /** `Write`: record every line of `p`; always reports all of `p` written. */
    method Write(p: string) returns (n: int, err: Option<string>)
      requires Valid()
      modifies this
      ensures Valid()
      ensures n == |p| && err == None
      ensures transcript == old(transcript) + Logged(p)
      ensures steps == old(steps) && stepState == old(stepState)
      ensures running == old(running) && status == old(status)
    {
      var segments := Split(p, '\n');
      ghost var lines := Lines(p);
      SegmentsOfLines(p);
      for i := 0 to |segments|
        invariant Valid()
        invariant transcript == old(transcript) + LogLines(lines[..if i <= |lines| then i else |lines|])
        invariant steps == old(steps) && stepState == old(stepState)
        invariant running == old(running) && status == old(status)
      {
        if i == |segments| - 1 && segments[i] == "" {
          continue;
        }
        assert i < |lines| && lines[i] == segments[i];
        ghost var before := transcript;
        RecordLog(LogLine(segments[i]));
        TranscriptStep(old(transcript), lines, i, before, transcript);
      }
      assert lines[..|lines|] == lines;
      return |p|, None;
    }

    /** `resetSteps`: every known step back to pending. */
    method ResetSteps()
      requires Valid()
      modifies this
      ensures Valid()
      ensures stepState.Keys == old(stepState).Keys
      ensures forall id :: id in stepState ==> stepState[id] == Pending
      ensures steps == old(steps) && logLines == old(logLines) && transcript == old(transcript)
      ensures running == old(running) && status == old(status)
    {
      for i := 0 to |steps|
        invariant steps == old(steps) && logLines == old(logLines) && transcript == old(transcript)
        invariant running == old(running) && status == old(status)
        invariant stepState.Keys == old(stepState).Keys
        invariant forall j :: 0 <= j < i ==> stepState[steps[j].id] == Pending
      {
        assert steps[i].id in StepIds(steps);
        stepState := stepState[steps[i].id := Pending];
      }
      forall id | id in stepState ensures stepState[id] == Pending {
        var j :| 0 <= j < |steps| && steps[j].id == id;
      }
    }

    /** `updateStep`: only an id that is already known changes, and only it. */
    method UpdateStep(id: string, st: StepStatus)
      requires Valid()
      modifies this
      ensures Valid()
      ensures id in old(stepState) ==> stepState == old(stepState)[id := st]
      ensures id !in old(stepState) ==> stepState == old(stepState)
      ensures steps == old(steps) && logLines == old(logLines) && transcript == old(transcript)
      ensures running == old(running) && status == old(status)
    {
      if id in stepState {
        stepState := stepState[id := st];
      }
    }

    /** The `stepsHandler` snapshot: one entry per step, in step order. */
    method StepsSnapshot() returns (views: seq<StepView>)
      requires Valid()
      ensures |views| == |steps|
      ensures forall i :: 0 <= i < |steps| ==>
                views[i] == StepView(steps[i].id, steps[i].title, stepState[steps[i].id])
    {
      views := [];
      for i := 0 to |steps|
        invariant |views| == i
        invariant forall j :: 0 <= j < i ==>
                    views[j] == StepView(steps[j].id, steps[j].title, stepState[steps[j].id])
      {
        var step := steps[i];
        assert step.id in StepIds(steps);
        views := views + [StepView(step.id, step.title, stepState[step.id])];
      }
    }

    /** `startFlow`: refuse while a run is active; otherwise mark running and reset the steps. */
    method StartFlow() returns (err: Option<string>)
      requires Valid()
      modifies this
      ensures Valid()
      ensures old(running) ==>
                (err == Some("flow already running") &&
                 running && status == old(status) && stepState == old(stepState))
      ensures !old(running) ==>
                (err == None && running && status == "running" &&
                 stepState.Keys == old(stepState).Keys &&
                 forall id :: id in stepState ==> stepState[id] == Pending)
      ensures steps == old(steps) && logLines == old(logLines) && transcript == old(transcript)
    {
      if running {
        return Some("flow already running");
      }
      running := true;
      status := "running";
      ResetSteps();
      return None;
    }

    /**
     * The end of the run goroutine. A failure is logged (through `Write`,
     * after the logger's `header`) and sets an `error: ` status; the
     * deferred block then runs last, so the final status is always the
     * finish time and the error status is lost.
     */
    method FinishFlow(runError: Option<string>, header: string, finishedAt: string)
      requires Valid()
      modifies this
      ensures Valid()
      ensures !running && status == "last run finished at " + finishedAt
      ensures runError.None? ==> transcript == old(transcript)
      ensures runError.Some? ==>
                transcript == old(transcript) + Logged(header + "flow run failed: " + runError.value + "\n")
      ensures steps == old(steps) && stepState == old(stepState)
    {
      if runError.Some? {
        var written, writeError := Write(header + "flow run failed: " + runError.value + "\n");
        status := "error: " + runError.value;
      }
      running := false;
      status := "last run finished at " + finishedAt;
    }
  }

  /**
   * A fresh server starts its flow once, refuses a second start while the
   * first runs, and after a failed run reports the finish time as its status.
   */
  method FailedRunScenario(flowSteps: seq<Step>, lists: Lists, failure: string, finishedAt: string)
    returns (first: Option<string>, second: Option<string>, running: bool, status: string)
    ensures first == None && second == Some("flow already running")
    ensures !running && status == "last run finished at " + finishedAt
  {
    var s := new FlowServer(flowSteps, lists);
    first := s.StartFlow();
    second := s.StartFlow();
    s.FinishFlow(Some(failure), "", finishedAt);
    running, status := s.running, s.status;
  }
}
