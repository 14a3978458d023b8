/**
 * The deterministic part of the recon orchestrator (pkg/app/app.go):
 * scope-list reading, target de-duplication and file-name sanitising, the
 * out-of-scope filter, the FFUF result parser, the robots.txt extractors
 * and routing, the gnmap service classification and summary, and the
 * fail-fast stage sequence of `Run`.
 *
 * Files are values: a `Files` map from path to content stands for the disk,
 * and outputs of external tools (the CSV reader, the regex matches of a
 * gnmap file, each stage's exit status) are parameters.
 */
module App {
  import opened Text

  /** The disk as seen by the pipeline: path to file content. */
  type Files = map<string, string>

  /** `fileExists`: an empty path never exists. */
  predicate FileExists(fs: Files, path: string) {
    path != "" && path in fs
  }

  // ---------------------------------------------------------------------
  // Scope lists
  // ---------------------------------------------------------------------

  datatype ReadError = EmptyPath | NotFound

  datatype LinesResult = LinesOk(lines: seq<string>) | LinesErr(error: ReadError)

  /** The entries `readFileLines` keeps from a file's content. */
  function ScopeLines(content: string): seq<string> {
    Entries(Lines(content), true)
  }

  /** A scope entry: trimmed, not blank, not a comment, one line. */
  predicate CleanEntry(e: string) {
    Kept(e, true) && IsTrimmed(e) && '\n' !in e
  }

  /**
   * `readFileLines`: fails on an empty path or a missing file; otherwise the
   * trimmed lines that are neither blank nor `#` comments, in file order.
   */
  method ReadFileLines(fs: Files, path: string) returns (r: LinesResult)
    ensures path == "" ==> r == LinesErr(EmptyPath)
    ensures path != "" && path !in fs ==> r == LinesErr(NotFound)
    ensures FileExists(fs, path) ==> r == LinesOk(ScopeLines(fs[path]))
    ensures r.LinesOk? ==> forall k :: 0 <= k < |r.lines| ==> CleanEntry(r.lines[k])
  {
    if path == "" {
      return LinesErr(EmptyPath);
    }
    if path !in fs {
      return LinesErr(NotFound);
    }
    var raw := Lines(fs[path]);
    var lines: seq<string> := [];
    var i := 0;
    while i < |raw|
      invariant 0 <= i <= |raw|
      invariant lines == Entries(raw[..i], true)
    {
      var line := Trim(raw[i]);
      if line != "" && !StartsWith(line, "#") {
        lines := lines + [line];
      }
      EntriesStep(raw, i, true);
      i := i + 1;
    }
    assert raw[..i] == raw;
    EntriesShape(raw, true);
    return LinesOk(lines);
  }

  /** Every line of a file that trims to a non-blank, non-comment text is read, and nothing else. */
  lemma ScopeLinesMembers(content: string, x: string)
    ensures x in ScopeLines(content) <==>
              (Kept(x, true) && exists k :: 0 <= k < |Lines(content)| && Trim(Lines(content)[k]) == x)
  {
    EntriesMembers(Lines(content), true, x);
  }

  /** Clean entries written one per line, without a final line feed, read back unchanged. */
  lemma ScopeLinesOfJoined(xs: seq<string>)
    requires forall k :: 0 <= k < |xs| ==> CleanEntry(xs[k])
    ensures ScopeLines(Join(xs, "\n")) == xs
  {
    EntriesOfJoined(xs, true);
  }

  // ---------------------------------------------------------------------
  // Targets
  // ---------------------------------------------------------------------

  /** `contains`: a linear scan for an exact match. */
  method ListContains(slice: seq<string>, value: string) returns (found: bool)
    ensures found <==> value in slice
  {
    var i := 0;
    while i < |slice|
      invariant 0 <= i <= |slice|
      invariant value !in slice[..i]
    {
      if slice[i] == value {
        return true;
      }
      assert slice[..i + 1] == slice[..i] + [slice[i]];
      i := i + 1;
    }
    assert slice[..i] == slice;
    return false;
  }

  /**
   * `unique`: the non-empty values, each once, in ascending byte order.
   * The Go map is the set `seen`; collecting its keys and `sort.Strings`
   * become insertion of each key into an ascending sequence.
   */
  method Unique(values: seq<string>) returns (r: seq<string>)
    ensures StrictlySorted(r)
    ensures forall y :: y in r <==> y in values && y != ""
  {
    var seen: set<string> := {};
    for i := 0 to |values|
      invariant forall y :: y in seen <==> y in values[..i] && y != ""
    {
      if values[i] != "" {
        seen := seen + {values[i]};
      }
      assert values[..i + 1] == values[..i] + [values[i]];
    }
    assert values[..|values|] == values;
    r := SortedList(seen);
  }

  /** The keys of a Go string set, collected and passed through `sort.Strings`. */
  method SortedList(keys: set<string>) returns (r: seq<string>)
    ensures StrictlySorted(r)
    ensures forall y :: y in r <==> y in keys
  {
    r := [];
    var rest := keys;
    while rest != {}
      invariant rest <= keys
      invariant StrictlySorted(r)
      invariant forall y :: y in r <==> y in keys && y !in rest
      decreases |rest|
    {
      var k :| k in rest;
      r := Insert(r, k);
      rest := rest - {k};
    }
  }

  /** No path separator, colon or space: safe as a file name. */
  predicate SafeName(s: string) {
    '/' !in s && ':' !in s && ' ' !in s
  }

  /**
   * `sanitizeFilename`: trim, drop one leading `http://`, then one
   * `https://`, then one `www.`, and turn `/`, `:` and space into `_`.
   */
  function SanitizeFilename(input: string): (r: string)
    ensures SafeName(r)
    ensures |r| <= |input|
  {
    var s := Trim(input);
    var s1 := TrimPrefix(s, "http://");
    var s2 := TrimPrefix(s1, "https://");
    var s3 := TrimPrefix(s2, "www.");
    ReplacedIsSafe(s3);
    ReplaceChar(ReplaceChar(ReplaceChar(s3, '/', '_'), ':', '_'), ' ', '_')
  }

  /** Turning `/`, `:` and space into `_` leaves none of them. */
  lemma ReplacedIsSafe(s: string)
    ensures SafeName(ReplaceChar(ReplaceChar(ReplaceChar(s, '/', '_'), ':', '_'), ' ', '_'))
  {
    var a := ReplaceChar(s, '/', '_');
    var b := ReplaceChar(a, ':', '_');
    var c := ReplaceChar(b, ' ', '_');
    forall i | 0 <= i < |c| ensures c[i] != '/' && c[i] != ':' && c[i] != ' ' {
      assert a[i] != '/';
      assert b[i] != '/' && b[i] != ':';
    }
  }

  /** A host with and without a scheme prefix is saved under the same file name. */
  lemma SanitizeIgnoresScheme(host: string, scheme: string)
    requires scheme == "http://" || scheme == "https://"
    requires host != [] && IsTrimmed(host)
    requires !StartsWith(host, "http://") && !StartsWith(host, "https://")
    ensures SanitizeFilename(scheme + host) == SanitizeFilename(host)
  {
    var s := scheme + host;
    assert IsTrimmed(s);
    TrimOfTrimmed(s);
    TrimOfTrimmed(host);
    SchemeDropped(host, scheme);
    assert TrimPrefix(TrimPrefix(host, "http://"), "https://") == host;
    SanitizeAfterScheme(s, host);
    SanitizeAfterScheme(host, host);
  }

  /** One scheme prefix is dropped, and nothing more from a host without one. */
  lemma SchemeDropped(host: string, scheme: string)
    requires scheme == "http://" || scheme == "https://"
    requires !StartsWith(host, "http://") && !StartsWith(host, "https://")
    ensures TrimPrefix(TrimPrefix(scheme + host, "http://"), "https://") == host
  {
    var s := scheme + host;
    assert s[..|scheme|] == scheme;
    assert s[|scheme|..] == host;
    if scheme == "https://" {
      assert s[4] == 's';
      assert !StartsWith(s, "http://");
    }
  }

  /** The file name depends on the input only through what is left after the schemes. */
  lemma SanitizeAfterScheme(input: string, rest: string)
    requires TrimPrefix(TrimPrefix(Trim(input), "http://"), "https://") == rest
    ensures SanitizeFilename(input)
         == ReplaceChar(ReplaceChar(ReplaceChar(TrimPrefix(rest, "www."), '/', '_'), ':', '_'), ' ', '_')
  {
  }

  /** A name that is already clean is kept as it is. */
  lemma SanitizeKeepsCleanName(s: string)
    requires IsTrimmed(s) && SafeName(s) && !StartsWith(s, "www.")
    ensures SanitizeFilename(s) == s
  {
    TrimOfTrimmed(s);
    SchemeColon(s);
    SanitizeKeepsCleanChars(s);
  }

  lemma SanitizeKeepsCleanChars(s: string)
    requires SafeName(s)
    ensures ReplaceChar(ReplaceChar(ReplaceChar(s, '/', '_'), ':', '_'), ' ', '_') == s
  {
    ReplaceCharAbsent(s, '/', '_');
    ReplaceCharAbsent(s, ':', '_');
    ReplaceCharAbsent(s, ' ', '_');
  }

  /** Both scheme prefixes carry a colon. */
  lemma SchemeColon(s: string)
    ensures StartsWith(s, "http://") ==> s[4] == ':'
    ensures StartsWith(s, "https://") ==> s[5] == ':'
  {
    if StartsWith(s, "http://") {
      assert s[..7][4] == s[4];
    }
    if StartsWith(s, "https://") {
      assert s[..8][5] == s[5];
    }
  }

  /** Exactly one leading `www.` is removed from an otherwise clean name. */
  lemma SanitizeRemovesOneWww(h: string)
    requires h != [] && IsTrimmed(h) && SafeName(h)
    ensures SanitizeFilename("www." + h) == h
  {
    var s := "www." + h;
    assert s[0] == 'w' && s[|s| - 1] == h[|h| - 1];
    TrimOfTrimmed(s);
    StartsWithFirst(s, "http://");
    StartsWithFirst(s, "https://");
    assert s[..4] == "www." && s[4..] == h;
    SanitizeKeepsCleanChars(h);
  }

  /** Hence sanitising is not idempotent: a second pass removes a second `www.`. */
  lemma SanitizeNotIdempotent()
    ensures SanitizeFilename("www.www.a") == "www.a"
    ensures SanitizeFilename(SanitizeFilename("www.www.a")) == "a"
  {
    assert "www." + "www.a" == "www.www.a";
    assert "www." + "a" == "www.a";
    SanitizeRemovesOneWww("www.a");
    SanitizeRemovesOneWww("a");
  }

  // ---------------------------------------------------------------------
  // Out-of-scope filter
  // ---------------------------------------------------------------------

  /** The domains, in order, that are not blank and not listed as out of scope. */
  function InScope(domains: seq<string>, outOfScope: seq<string>): (r: seq<string>)
    decreases |domains|
  {
    if domains == [] then []
    else
      var d := domains[|domains| - 1];
      InScope(domains[..|domains| - 1], outOfScope) + (if d == "" || d in outOfScope then [] else [d])
  }

  lemma {:induction false} InScopeMembers(domains: seq<string>, outOfScope: seq<string>, x: string)
    ensures x in InScope(domains, outOfScope) <==> x in domains && x != "" && x !in outOfScope
    decreases |domains|
  {
    if domains != [] {
      var front := domains[..|domains| - 1];
      InScopeMembers(front, outOfScope, x);
      assert domains == front + [domains[|domains| - 1]];
    }
  }

  /**
   * `filterOutOfScope`: when both lists exist, the domains file is rewritten
   * to hold exactly the in-scope entries (exact, case-sensitive matches are
   * removed), in their old order; otherwise nothing changes.
   */
  method FilterOutOfScope(fs: Files, domainsPath: string, outOfScopePath: string) returns (fs': Files)
    ensures !FileExists(fs, outOfScopePath) || !FileExists(fs, domainsPath) ==> fs' == fs
    ensures FileExists(fs, outOfScopePath) && FileExists(fs, domainsPath) ==>
              fs'.Keys == fs.Keys &&
              (forall p :: p in fs && p != domainsPath ==> fs'[p] == fs[p]) &&
              ScopeLines(fs'[domainsPath]) ==
                InScope(ScopeLines(fs[domainsPath]), ScopeLines(fs[outOfScopePath]))
    ensures FileExists(fs, outOfScopePath) && FileExists(fs, domainsPath) ==>
              var filtered := InScope(ScopeLines(fs[domainsPath]), ScopeLines(fs[outOfScopePath]));
              var written := fs'[domainsPath];
              && written == Join(filtered, "\n")
              && (filtered != [] ==> written[|written| - 1] != '\n')
  {
    if !FileExists(fs, outOfScopePath) || !FileExists(fs, domainsPath) {
      return fs;
    }
    var domains := ReadFileLines(fs, domainsPath);
    var outOfScope := ReadFileLines(fs, outOfScopePath);
    var filtered := KeepInScope(domains.lines, outOfScope.lines);
    InScopeClean(domains.lines, outOfScope.lines);
    ScopeLinesOfJoined(filtered);
    if filtered != [] {
      JoinEndsWithLast(filtered, "\n");
    }
    fs' := fs[domainsPath := Join(filtered, "\n")];
  }

  /** The loop of `filterOutOfScope`: keeps the domains that are neither empty nor listed. */
  method KeepInScope(domains: seq<string>, outOfScope: seq<string>) returns (filtered: seq<string>)
    ensures filtered == InScope(domains, outOfScope)
  {
    filtered := [];
    for i := 0 to |domains|
      invariant filtered == InScope(domains[..i], outOfScope)
    {
      var domain := domains[i];
      var skip := domain == "";
      if !skip {
        skip := ListContains(outOfScope, domain);
      }
      if !skip {
        filtered := filtered + [domain];
      }
      assert domains[..i + 1][..i] == domains[..i];
    }
    assert domains[..|domains|] == domains;
  }

  /** Filtering clean entries leaves clean entries. */
  lemma InScopeClean(domains: seq<string>, outOfScope: seq<string>)
    requires forall k :: 0 <= k < |domains| ==> CleanEntry(domains[k])
    ensures var r := InScope(domains, outOfScope);
      forall k :: 0 <= k < |r| ==> CleanEntry(r[k])
  {
    var r := InScope(domains, outOfScope);
    forall k | 0 <= k < |r| ensures CleanEntry(r[k]) {
      InScopeMembers(domains, outOfScope, r[k]);
    }
  }

  // ---------------------------------------------------------------------
  // FFUF results
  // ---------------------------------------------------------------------

  /** One call of the CSV reader's `Read`: a record, or an error other than end of input. */
  datatype CsvRead = Record(fields: seq<string>) | ReadFault(message: string)

  datatype FfufHit = FfufHit(input: string)

  datatype FfufOutcome =
    | Hits(hits: seq<FfufHit>)
    | NoHits
    | OpenFailed
    | ReadFailed(message: string)

  /** Field 1 of every record with at least two fields, in order. */
  function DataHits(rows: seq<CsvRead>): (r: seq<FfufHit>)
    decreases |rows|
  {
    if rows == [] then []
    else
      var last := rows[|rows| - 1];
      DataHits(rows[..|rows| - 1]) +
        (if last.Record? && |last.fields| >= 2 then [FfufHit(last.fields[1])] else [])
  }

  /** There are no hits exactly when no record has two or more fields. */
  lemma {:induction false} DataHitsEmpty(rows: seq<CsvRead>)
    ensures DataHits(rows) == [] <==>
              forall i :: 0 <= i < |rows| && rows[i].Record? ==> |rows[i].fields| < 2
    decreases |rows|
  {
    if rows != [] {
      var front := rows[..|rows| - 1];
      DataHitsEmpty(front);
      assert forall i :: 0 <= i < |front| ==> front[i] == rows[i];
    }
  }

  /** The message of the first read error in the stream, if any. */
  function FirstFault(stream: seq<CsvRead>): Option<string>
    decreases |stream|
  {
    if stream == [] then None
    else if stream[0].ReadFault? then Some(stream[0].message)
    else FirstFault(stream[1..])
  }

  /** The stream has a read error exactly when `FirstFault` finds one. */
  lemma {:induction false} FirstFaultNone(stream: seq<CsvRead>)
    ensures FirstFault(stream).None? <==> forall i :: 0 <= i < |stream| ==> stream[i].Record?
    decreases |stream|
  {
    if stream != [] {
      FirstFaultNone(stream[1..]);
      assert forall i :: 1 <= i < |stream| ==> stream[1..][i - 1] == stream[i];
    }
  }

  /**
   * `parseFFUFResults`. The file is `None` when it cannot be opened;
   * otherwise it is the sequence of `Read` results before end of input.
   * The first record is the header. A read error fails the parse with that
   * error; records with fewer than two fields are skipped; no hit at all,
   * including an empty or header-only file, is the distinct no-hits outcome.
   */
  method ParseFfufResults(file: Option<seq<CsvRead>>) returns (r: FfufOutcome)
    ensures file.None? <==> r == OpenFailed
    ensures file.Some? && FirstFault(file.value).Some? ==> r == ReadFailed(FirstFault(file.value).value)
    ensures file.Some? && FirstFault(file.value).None? ==>
              (r == NoHits <==> |file.value| <= 1 || DataHits(file.value[1..]) == [])
    ensures file.Some? && FirstFault(file.value).None? && r != NoHits ==>
              r == Hits(DataHits(file.value[1..])) && r.hits != []
  {
    if file.None? {
      return OpenFailed;
    }
    var stream := file.value;
    if |stream| == 0 {
      return NoHits;
    }
    if stream[0].ReadFault? {
      return ReadFailed(stream[0].message);
    }
    var hits: seq<FfufHit> := [];
    var i := 1;
    while i < |stream|
      invariant 1 <= i <= |stream|
      invariant hits == DataHits(stream[1..i])
      invariant FirstFault(stream[i..]) == FirstFault(stream)
    {
      var record := stream[i];
      if record.ReadFault? {
        return ReadFailed(record.message);
      }
      assert stream[i..][1..] == stream[i + 1..];
      assert stream[1..i + 1][..i - 1] == stream[1..i];
      if |record.fields| >= 2 {
        hits := hits + [FfufHit(record.fields[1])];
      }
      i := i + 1;
    }
    assert stream[1..i] == stream[1..];
    if |hits| == 0 {
      return NoHits;
    }
    return Hits(hits);
  }

  /**
   * The stream Go's `csv.Reader` produces with `FieldsPerRecord == 0`: the
   * first record fixes the field count, and a later record with another
   * count is reported as an error.
   */
  function CsvReads(rows: seq<seq<string>>): (r: seq<CsvRead>)
    ensures |r| == |rows|
  {
    if rows == [] then []
    else
      [Record(rows[0])] +
        seq(|rows| - 1, i requires 0 <= i < |rows| - 1 =>
          if |rows[i + 1]| == |rows[0]| then Record(rows[i + 1]) else ReadFault("wrong number of fields"))
  }

  /**
   * A data row shorter than a header of two or more fields is a read error
   * of the CSV reader, so the parse fails rather than skipping the row.
   */
  lemma ShortRowFailsParse(rows: seq<seq<string>>, k: nat)
    requires 0 < k < |rows| && |rows[0]| >= 2 && |rows[k]| < 2
    ensures FirstFault(CsvReads(rows)).Some?
  {
    assert CsvReads(rows)[k].ReadFault?;
    FirstFaultNone(CsvReads(rows));
  }

  /** Rows that all match the header's field count raise no read error. */
  lemma UniformRowsParse(rows: seq<seq<string>>)
    requires forall i :: 0 <= i < |rows| ==> |rows[i]| == |rows[0]|
    ensures FirstFault(CsvReads(rows)).None?
  {
    FirstFaultNone(CsvReads(rows));
  }

  /** `flattenInputs`: the matched input of every hit, position by position. */
  method FlattenInputs(hits: seq<FfufHit>) returns (result: seq<string>)
    ensures |result| == |hits|
    ensures forall i :: 0 <= i < |hits| ==> result[i] == hits[i].input
  {
    var a := new string[|hits|];
    for i := 0 to |hits|
      invariant forall j :: 0 <= j < i ==> a[j] == hits[j].input
    {
      a[i] := hits[i].input;
    }
    result := a[..];
  }

  // ---------------------------------------------------------------------
  // robots.txt
  // ---------------------------------------------------------------------

  /** The value of one line when, trimmed, it starts with `Disallow:`. */
  function DisallowOf(line: string): seq<string> {
    var t := Trim(line);
    if StartsWith(t, "Disallow:") then [Trim(t[|"Disallow:"|..])] else []
  }

  /** The trimmed remainder of every trimmed line that starts with `Disallow:`, in order. */
  function Disallows(lines: seq<string>): (r: seq<string>)
    decreases |lines|
  {
    if lines == [] then []
    else Disallows(lines[..|lines| - 1]) + DisallowOf(lines[|lines| - 1])
  }

  /** `extractDisallows`, over the body split at line feeds. */
  method ExtractDisallows(body: string) returns (result: seq<string>)
    ensures result == Disallows(Split(body, '\n'))
  {
    var lines := Split(body, '\n');
    result := [];
    for i := 0 to |lines|
      invariant result == Disallows(lines[..i])
    {
      var line := Trim(lines[i]);
      DisallowsStep(lines, i);
      if StartsWith(line, "Disallow:") {
        result := result + [Trim(TrimPrefix(line, "Disallow:"))];
      }
    }
    assert lines[..|lines|] == lines;
  }

  /** Reading one more line adds what it disallows, if anything. */
  lemma DisallowsStep(lines: seq<string>, i: nat)
    requires i < |lines|
    ensures var t := Trim(lines[i]);
      Disallows(lines[..i + 1]) ==
        Disallows(lines[..i]) + (if StartsWith(t, "Disallow:") then [Trim(TrimPrefix(t, "Disallow:"))] else [])
  {
    assert lines[..i + 1][..i] == lines[..i];
  }

  /** One `Disallow: p` line per path. */
  function Directives(paths: seq<string>): (r: seq<string>)
    ensures |r| == |paths|
    decreases |paths|
  {
    if paths == [] then []
    else Directives(paths[..|paths| - 1]) + ["Disallow: " + paths[|paths| - 1]]
  }

  /** Line `k` of the body disallows path `k`. */
  lemma {:induction false} DirectiveAt(paths: seq<string>, k: nat)
    requires k < |paths|
    ensures Directives(paths)[k] == "Disallow: " + paths[k]
    decreases |paths|
  {
    var front := paths[..|paths| - 1];
    if k < |front| {
      DirectiveAt(front, k);
    }
  }

  /** The robots body made of those lines. */
  function DisallowBody(paths: seq<string>): string {
    Join(Directives(paths), "\n")
  }

  lemma TrimAfterSpace(p: string)
    requires IsTrimmed(p)
    ensures Trim(" " + p) == p
  {
    if p != [] {
      assert (" " + p)[1..] == p;
    }
  }

  lemma {:induction false} DisallowsOfDirectives(paths: seq<string>)
    requires forall k :: 0 <= k < |paths| ==> IsTrimmed(paths[k])
    ensures Disallows(Directives(paths)) == paths
    decreases |paths|
  {
    if paths != [] {
      var front := paths[..|paths| - 1];
      var p := paths[|paths| - 1];
      DisallowsOfDirectives(front);
      DirectiveLine(p);
      DisallowsSnoc(Directives(front), "Disallow: " + p);
      FrontLast(paths);
    }
  }

  /** One more line adds what it disallows. */
  lemma DisallowsSnoc(lines: seq<string>, line: string)
    ensures Disallows(lines + [line]) == Disallows(lines) + DisallowOf(line)
  {
    assert (lines + [line])[..|lines|] == lines;
  }

  /** A body of `Disallow:` lines gives back exactly its paths, in order. */
  lemma DisallowRoundTrip(paths: seq<string>)
    requires forall k :: 0 <= k < |paths| ==> IsTrimmed(paths[k]) && '\n' !in paths[k]
    ensures Disallows(Split(DisallowBody(paths), '\n')) == paths
  {
    if paths == [] {
      SplitWithout(DisallowBody(paths), '\n');
      return;
    }
    var ls := Directives(paths);
    forall k | 0 <= k < |ls| ensures '\n' !in ls[k] {
      DirectiveAt(paths, k);
    }
    SplitJoin(ls, '\n');
    DisallowsOfDirectives(paths);
  }

  /** One `Disallow: p` line is a directive whose value is `p`. */
  lemma DirectiveLine(p: string)
    requires IsTrimmed(p)
    ensures DisallowOf("Disallow: " + p) == [p]
  {
    if p == [] {
      EmptyDirective();
      assert "Disallow: " + p == "Disallow: ";
    } else {
      var line := "Disallow: " + p;
      assert line[0] == 'D' && line[|line| - 1] == p[|p| - 1];
      TrimOfTrimmed(line);
      assert line[..9] == "Disallow:";
      assert line[|"Disallow:"|..] == " " + p;
      TrimAfterSpace(p);
    }
  }

  lemma EmptyDirective()
    ensures DisallowOf("Disallow: ") == [""]
  {
    assert "Disallow: " == "Disallow:" + " ";
    TrimDropsTrailingSpace("Disallow:");
  }

  /** The directive name is case-sensitive: a lower-case line is not a disallow. */
  lemma DisallowIsCaseSensitive(path: string)
    ensures Disallows(["disallow: " + path]) == []
  {
    var line := "disallow: " + path;
    TrimKeepsFirst(line);
    StartsWithFirst(Trim(line), "Disallow:");
    assert DisallowOf(line) == [];
  }

  /** Go's `strings.SplitN(line, ":", 2)[1]`: the text after the first colon. */
  function AfterFirstColon(line: string): string
    requires Contains(line, ":")
  {
    line[IndexOf(line, ":") + 1..]
  }

  /** The line is a `sitemap:` directive in any letter case. */
  predicate IsSitemapLine(line: string) {
    StartsWith(ToLower(Trim(line)), "sitemap:")
  }

  lemma SitemapLineHasColon(line: string)
    requires IsSitemapLine(line)
    ensures Contains(line, ":")
  {
    var t := Trim(line);
    assert ToLower(t)[..8][7] == ':';
    assert LowerChar(t[7]) == ':';
    assert t[7] in t;
    ContainsChar(line, ':');
  }

  /** The value of the first sitemap directive, or "" when there is none. */
  function Sitemap(lines: seq<string>): string
    decreases |lines|
  {
    if lines == [] then ""
    else if IsSitemapLine(lines[0]) then
      SitemapLineHasColon(lines[0]);
      Trim(AfterFirstColon(lines[0]))
    else Sitemap(lines[1..])
  }

  /** `extractSitemap`, over the body split at line feeds. */
  method ExtractSitemap(body: string) returns (result: string)
    ensures result == Sitemap(Split(body, '\n'))
  {
    var lines := Split(body, '\n');
    var i := 0;
    while i < |lines|
      invariant 0 <= i <= |lines|
      invariant Sitemap(lines[i..]) == Sitemap(lines)
    {
      if StartsWith(ToLower(Trim(lines[i])), "sitemap:") {
        SitemapLineHasColon(lines[i]);
        return Trim(AfterFirstColon(lines[i]));
      }
      assert lines[i..][1..] == lines[i + 1..];
      i := i + 1;
    }
    return "";
  }

  /** A `Sitemap: u` line, with the key in any case, yields `u`. */
  lemma SitemapOfDirective(key: string, u: string, rest: seq<string>)
    requires ToLower(key) == "sitemap"
    requires u != [] && IsTrimmed(u)
    ensures Sitemap([key + ": " + u] + rest) == u
  {
    SitemapKey(key);
    SitemapKeyLine(key, u);
    SitemapFirst(key + ": " + u, rest);
  }

  /** The first line, when it is a sitemap line, decides. */
  lemma SitemapFirst(line: string, rest: seq<string>)
    requires IsSitemapLine(line) && Contains(line, ":")
    ensures Sitemap([line] + rest) == Trim(AfterFirstColon(line))
  {
    assert ([line] + rest)[0] == line;
  }

  /** The letters of `sitemap`, in any case: seven characters, none a colon or a space. */
  lemma SitemapKey(key: string)
    requires ToLower(key) == "sitemap"
    ensures |key| == 7 && key[0] !in Whitespace && ':' !in key
  {
    forall j | 0 <= j < 7 ensures key[j] != ':' {
      assert LowerChar(key[j]) == "sitemap"[j];
    }
    assert LowerChar(key[0]) == 's';
  }

  /** The directive line is trimmed, is a sitemap line and has its first colon after the key. */
  lemma SitemapKeyLine(key: string, u: string)
    requires ToLower(key) == "sitemap" && |key| == 7 && key[0] !in Whitespace && ':' !in key
    requires u != [] && IsTrimmed(u)
    ensures var line := key + ": " + u;
      IsSitemapLine(line) && Contains(line, ":") && Trim(AfterFirstColon(line)) == u
  {
    var line := key + ": " + u;
    assert line[..7] == key && line[7] == ':' && line[|line| - 1] == u[|u| - 1];
    TrimOfTrimmed(line);
    LowerKeyColon(key, line);
    ValueAfterKey(key, u);
  }

  /** After a seven-character key without a colon, `: u` yields `u`. */
  lemma ValueAfterKey(key: string, u: string)
    requires |key| == 7 && ':' !in key && IsTrimmed(u)
    ensures var line := key + ": " + u;
      Contains(line, ":") && Trim(AfterFirstColon(line)) == u
  {
    var line := key + ": " + u;
    assert line[..7] == key;
    IndexOfAt(line, ":", 7);
    assert line[8..] == " " + u;
    TrimAfterSpace(u);
  }

  /** A line that starts with the key and a colon lower-cases to a `sitemap:` prefix. */
  lemma LowerKeyColon(key: string, line: string)
    requires ToLower(key) == "sitemap" && |line| > 7 && line[..7] == key && line[7] == ':'
    ensures StartsWith(ToLower(line), "sitemap:")
  {
    var low := ToLower(line);
    forall j | 0 <= j < 8 ensures low[j] == "sitemap:"[j] {
      if j < 7 {
        assert line[j] == key[j];
        assert LowerChar(key[j]) == "sitemap"[j];
      }
    }
    assert low[..8] == "sitemap:";
  }

  /** `appendToFile`: empty content leaves the file as it was. */
  function AppendToFile(file: string, content: string): (r: string)
    ensures content == "" ==> r == file
    ensures content != "" ==> r == file + content && |r| > |file|
  {
    if content == "" then file else file + content
  }

  datatype Bucket = HitsDir | NoHitsDir

  /** What one fetched robots.txt leaves behind. */
  datatype RobotsFiles = RobotsFiles(hitsLedger: string, sitemaps: string)

  /**
   * One target's routing: both files moved into a bucket, or the second
   * rename of `moveRobotFiles` failed because there was no `.robots.urls`
   * file to move.
   */
  datatype RobotsStep =
    | Moved(bucket: Bucket, urls: string, files: RobotsFiles)
    | MoveFailed(message: string)

  /** The error `os.Rename` returns for a missing source file. */
  const MissingUrlsFile := "rename: no such file or directory"

  /** The sitemaps file after a hit: a non-empty sitemap is appended with a line feed. */
  function RecordSitemap(sitemaps: string, sitemap: string): string {
    if sitemap != "" then AppendToFile(sitemaps, sitemap + "\n") else sitemaps
  }

  /**
   * The body of the `robots` loop after a successful fetch. With no
   * `Disallow:` value the `.robots.urls` file is never written, so moving
   * it to the no-hits directory succeeds only when `urlsPresent` (a file of
   * that name already lies in the robots directory); otherwise the rename
   * error ends the stage. With disallows, the joined values are written as
   * the `.robots.urls` file, both files go to the hits directory, the values
   * are appended to the hits ledger and a non-empty sitemap to the sitemaps
   * file.
   */
  function RouteRobots(body: string, urlsPresent: bool, files: RobotsFiles): (r: RobotsStep)
    ensures r.MoveFailed? <==> Disallows(Split(body, '\n')) == [] && !urlsPresent
    ensures r.MoveFailed? ==> r.message == MissingUrlsFile
    ensures r.Moved? ==> (r.bucket == HitsDir <==> Disallows(Split(body, '\n')) != [])
    ensures r.Moved? && r.bucket == NoHitsDir ==> r.files == files
    ensures r.Moved? && r.bucket == HitsDir ==>
              && r.urls == Join(Disallows(Split(body, '\n')), "\n")
              && r.files.hitsLedger == AppendToFile(files.hitsLedger, r.urls)
              && r.files.sitemaps == RecordSitemap(files.sitemaps, Sitemap(Split(body, '\n')))
  {
    var disallows := Disallows(Split(body, '\n'));
    if disallows == [] then
      if urlsPresent then Moved(NoHitsDir, "", files) else MoveFailed(MissingUrlsFile)
    else
      var urls := Join(disallows, "\n");
      var sitemap := Sitemap(Split(body, '\n'));
      Moved(HitsDir, urls, RobotsFiles(AppendToFile(files.hitsLedger, urls), RecordSitemap(files.sitemaps, sitemap)))
  }

  /** A sitemap is recorded only for a body that also has a `Disallow:` line. */
  lemma SitemapNeedsDisallow(body: string, files: RobotsFiles)
    requires Disallows(Split(body, '\n')) == []
    ensures var r := RouteRobots(body, true, files);
      r.Moved? && r.files.sitemaps == files.sitemaps
  {
  }

  /** What fetching one target's robots.txt gave: no body (the target is skipped), or a body. */
  datatype RobotsFetch =
    | FetchFailed
    | Fetched(body: string, urlsPresent: bool)

  /** The target whose routing ends the stage with an error. */
  predicate Aborts(f: RobotsFetch) {
    f.Fetched? && Disallows(Split(f.body, '\n')) == [] && !f.urlsPresent
  }

  /**
   * The `robots` loop over the fetched targets, in order: failed fetches are
   * skipped, and the first failed move returns its error and ends the loop.
   */
  function RobotsRun(fetches: seq<RobotsFetch>, files: RobotsFiles): (r: (RobotsFiles, Option<string>))
    decreases |fetches|
  {
    if fetches == [] then (files, None)
    else if fetches[0].FetchFailed? then RobotsRun(fetches[1..], files)
    else
      match RouteRobots(fetches[0].body, fetches[0].urlsPresent, files)
      case MoveFailed(message) => (files, Some(message))
      case Moved(_, _, files') => RobotsRun(fetches[1..], files')
  }

  /** The stage fails exactly when some fetched target has no disallows and no `.robots.urls` file. */
  lemma {:induction false} RobotsRunFails(fetches: seq<RobotsFetch>, files: RobotsFiles)
    ensures RobotsRun(fetches, files).1.Some? <==> exists k :: 0 <= k < |fetches| && Aborts(fetches[k])
    ensures RobotsRun(fetches, files).1.Some? ==> RobotsRun(fetches, files).1.value == MissingUrlsFile
    decreases |fetches|
  {
    if fetches != [] {
      if Aborts(fetches[0]) {
        RobotsRunAborts(fetches, files);
      } else {
        RobotsRunPass(fetches, files);
        RobotsRunFails(fetches[1..], Pass(fetches[0], files));
        AbortsShift(fetches);
      }
    }
  }

  /** A first target that aborts ends the run at once, with the missing-file error. */
  lemma RobotsRunAborts(fetches: seq<RobotsFetch>, files: RobotsFiles)
    requires fetches != [] && Aborts(fetches[0])
    ensures RobotsRun(fetches, files) == (files, Some(MissingUrlsFile))
  {
  }

  /** Past a first target that does not abort, an aborting target is one of the others. */
  lemma AbortsShift(fetches: seq<RobotsFetch>)
    requires fetches != [] && !Aborts(fetches[0])
    ensures (exists k :: 0 <= k < |fetches| && Aborts(fetches[k])) <==>
            (exists k :: 0 <= k < |fetches| - 1 && Aborts(fetches[1..][k]))
  {
    if k :| 0 <= k < |fetches| && Aborts(fetches[k]) {
      assert fetches[1..][k - 1] == fetches[k];
    }
    if k :| 0 <= k < |fetches| - 1 && Aborts(fetches[1..][k]) {
      assert fetches[k + 1] == fetches[1..][k];
    }
  }

  /**
   * The files a failing stage leaves: those of the targets before the first
   * aborting one; nothing after it is fetched or recorded.
   */
  lemma {:induction false} RobotsRunStops(fetches: seq<RobotsFetch>, files: RobotsFiles, k: nat)
    requires k < |fetches| && Aborts(fetches[k])
    requires forall j :: 0 <= j < k ==> !Aborts(fetches[j])
    ensures RobotsRun(fetches, files) == (RobotsRun(fetches[..k], files).0, Some(MissingUrlsFile))
    decreases k
  {
    if k == 0 {
      assert fetches[..0] == [];
    } else {
      var rest, files' := fetches[1..], Pass(fetches[0], files);
      assert RobotsRun(fetches, files) == RobotsRun(rest, files') by {
        RobotsRunPass(fetches, files);
      }
      assert RobotsRun(fetches[..k], files) == RobotsRun(rest[..k - 1], files') by {
        assert fetches[..k][0] == fetches[0] && fetches[..k][1..] == rest[..k - 1];
        RobotsRunPass(fetches[..k], files);
      }
      forall j | 0 <= j < k - 1 ensures !Aborts(rest[j]) {
        assert rest[j] == fetches[j + 1];
      }
      RobotsRunStops(rest, files', k - 1);
    }
  }

  /** The files after a target that does not abort the stage. */
  function Pass(f: RobotsFetch, files: RobotsFiles): RobotsFiles {
    if f.FetchFailed? then files
    else match RouteRobots(f.body, f.urlsPresent, files)
      case MoveFailed(_) => files
      case Moved(_, _, files') => files'
  }

  /** A first target that does not abort leaves the rest of the run to the others. */
  lemma RobotsRunPass(fetches: seq<RobotsFetch>, files: RobotsFiles)
    requires fetches != [] && !Aborts(fetches[0])
    ensures RobotsRun(fetches, files) == RobotsRun(fetches[1..], Pass(fetches[0], files))
  {
  }

  /**
   * `robots` after the targets are fetched: routes each body in turn and
   * stops at the first error.
   */
  method Robots(fetches: seq<RobotsFetch>, files: RobotsFiles) returns (files': RobotsFiles, err: Option<string>)
    ensures (files', err) == RobotsRun(fetches, files)
  {
    files', err := files, None;
    var i := 0;
    while i < |fetches|
      invariant 0 <= i <= |fetches|
      invariant RobotsRun(fetches[i..], files') == RobotsRun(fetches, files)
    {
      assert fetches[i..][1..] == fetches[i + 1..];
      var f := fetches[i];
      if f.Fetched? {
        var step := RouteRobots(f.body, f.urlsPresent, files');
        if step.MoveFailed? {
          return files', Some(step.message);
        }
        files' := step.files;
      }
      i := i + 1;
    }
    assert fetches[i..] == [];
  }

  /**
   * The ledger gets no line feed after each target's disallows, so the last
   * path of one target and the first of the next share a line.
   */
  lemma LedgerJoinsTargets(a: string, b: string)
    requires a != [] && b != [] && '\n' !in a && '\n' !in b
    ensures Lines(AppendToFile(AppendToFile("", a), b)) == [a + b]
  {
    assert AppendToFile(AppendToFile("", a), b) == a + b;
    assert '\n' !in a + b;
    SplitWithout(a + b, '\n');
  }

  // ---------------------------------------------------------------------
  // gnmap summaries
  // ---------------------------------------------------------------------

  /** What the regexes extract from one .gnmap file. */
  datatype GnmapRecord = GnmapRecord(target: string, host: string, openPorts: seq<string>, serviceLines: seq<string>)

  datatype NmapSummaryConfig = NmapSummaryConfig(
    enable: bool,
    interestingServices: seq<string>,
    interestingPorts: seq<string>)

  /** The service name: the second whitespace token. */
  function ServiceName(line: string): string
    requires |Fields(line)| >= 2
  {
    Fields(line)[1]
  }

  /** The port: the first token's text before its first `/`. */
  function ServicePort(line: string): string
    requires |Fields(line)| >= 2
  {
    Split(Fields(line)[0], '/')[0]
  }

  predicate Interesting(line: string, cfg: NmapSummaryConfig) {
    |Fields(line)| >= 2 &&
    (ServiceName(line) in cfg.interestingServices || ServicePort(line) in cfg.interestingPorts)
  }

  /** The interesting lines of one file, in order. */
  function InterestingLines(lines: seq<string>, cfg: NmapSummaryConfig): (r: seq<string>)
    decreases |lines|
  {
    if lines == [] then []
    else
      var l := lines[|lines| - 1];
      InterestingLines(lines[..|lines| - 1], cfg) + (if Interesting(l, cfg) then [l] else [])
  }

  lemma {:induction false} InterestingLinesMembers(lines: seq<string>, cfg: NmapSummaryConfig, x: string)
    ensures x in InterestingLines(lines, cfg) <==> x in lines && Interesting(x, cfg)
    decreases |lines|
  {
    if lines != [] {
      var front := lines[..|lines| - 1];
      InterestingLinesMembers(front, cfg, x);
      assert lines == front + [lines[|lines| - 1]];
    }
  }

  /**
   * The classification loop of `processGnmap` for one file: the interesting
   * lines, and the lines (two or more tokens) added to the service set.
   */
  method ClassifyServices(services: seq<string>, cfg: NmapSummaryConfig)
    returns (interesting: seq<string>, named: set<string>)
    ensures interesting == InterestingLines(services, cfg)
    ensures forall s :: s in named <==> s in services && |Fields(s)| >= 2
  {
    interesting := [];
    named := {};
    for i := 0 to |services|
      invariant interesting == InterestingLines(services[..i], cfg)
      invariant forall s :: s in named <==> s in services[..i] && |Fields(s)| >= 2
    {
      var service := services[i];
      assert services[..i + 1] == services[..i] + [service];
      var parts := Fields(service);
      if |parts| < 2 {
        continue;
      }
      var port := Split(parts[0], '/')[0];
      var name := parts[1];
      var hit := ListContains(cfg.interestingServices, name);
      if !hit {
        hit := ListContains(cfg.interestingPorts, port);
      }
      if hit {
        interesting := interesting + [service];
      }
      named := named + {service};
    }
    assert services[..|services|] == services;
  }

  /** The lone-token service line of the gnmap format is skipped, whatever its service. */
  lemma SlashOnlyLineSkipped(cfg: NmapSummaryConfig)
    ensures !Interesting("80/open/tcp//http//Apache", cfg)
    ensures |Fields("80/open/tcp//http//Apache")| == 1
  {
    var l := "80/open/tcp//http//Apache";
    assert NoSpace(l);
    FieldsOfWord(l);
  }

  /** The per-host block of the summary file. */
  function SummaryBlock(f: GnmapRecord): string {
    "-------\nTarget: " + f.target + "\nHost: " + f.host + "\nOpen ports: " + Join(f.openPorts, ",") +
    "\nServices:\n" + Join(f.serviceLines, "\n") + "\n"
  }

  /** The pointers entry for a host with interesting services. */
  function PointerBlock(f: GnmapRecord, interesting: seq<string>): string {
    "Interesting services on " + f.host + " (" + f.target + "):\n" + Join(interesting, "\n") + "\n"
  }

  /** One pointers entry per file with at least one interesting line, in file order. */
  function Pointers(files: seq<GnmapRecord>, cfg: NmapSummaryConfig): seq<string>
    decreases |files|
  {
    if files == [] then []
    else
      var f := files[|files| - 1];
      var interesting := InterestingLines(f.serviceLines, cfg);
      Pointers(files[..|files| - 1], cfg) + (if interesting != [] then [PointerBlock(f, interesting)] else [])
  }

  /** A service line of some file with at least two tokens. */
  predicate NamedService(files: seq<GnmapRecord>, s: string) {
    exists i :: 0 <= i < |files| && s in files[i].serviceLines && |Fields(s)| >= 2
  }

  /** What one more file adds to the summary, the pointers and the named services. */
  lemma GnmapStep(files: seq<GnmapRecord>, i: nat, cfg: NmapSummaryConfig)
    requires i < |files|
    ensures var f, front := files[i], files[..i];
      && Summaries(files[..i + 1]) == Summaries(front) + [SummaryBlock(f)]
      && Pointers(files[..i + 1], cfg) == Pointers(front, cfg) +
           (if InterestingLines(f.serviceLines, cfg) != [] then [PointerBlock(f, InterestingLines(f.serviceLines, cfg))] else [])
      && forall s :: NamedService(files[..i + 1], s) <==> NamedService(front, s) || (s in f.serviceLines && |Fields(s)| >= 2)
  {
    assert files[..i + 1][..i] == files[..i];
    assert files[..i + 1] == files[..i] + [files[i]];
    forall s {
      NamedServiceSnoc(files[..i], files[i], s);
    }
  }

  lemma NamedServiceSnoc(files: seq<GnmapRecord>, f: GnmapRecord, s: string)
    ensures NamedService(files + [f], s) <==>
              NamedService(files, s) || (s in f.serviceLines && |Fields(s)| >= 2)
  {
    var g := files + [f];
    if NamedService(g, s) {
      var i :| 0 <= i < |g| && s in g[i].serviceLines && |Fields(s)| >= 2;
      if i < |files| {
        assert files[i] == g[i];
      }
    }
    if NamedService(files, s) {
      var i :| 0 <= i < |files| && s in files[i].serviceLines && |Fields(s)| >= 2;
      assert g[i] == files[i];
    }
    if s in f.serviceLines && |Fields(s)| >= 2 {
      assert g[|files|] == f;
    }
  }

  const SearchsploitRule := "-----------------------------\n"

  /** The searchsploit report: a heading and a rule for each service. */
  function SearchsploitReport(services: seq<string>): string
    decreases |services|
  {
    if services == [] then ""
    else SearchsploitReport(services[..|services| - 1]) +
         "Searching for " + services[|services| - 1] + "\n" + SearchsploitRule
  }

  /** The builder loop: the searchsploit output itself goes to the console, not the file. */
  method BuildSearchsploitReport(services: seq<string>) returns (builder: string)
    ensures builder == SearchsploitReport(services)
  {
    builder := "";
    for i := 0 to |services|
      invariant builder == SearchsploitReport(services[..i])
    {
      builder := builder + "Searching for " + services[i] + "\n";
      builder := builder + SearchsploitRule;
      assert services[..i + 1][..i] == services[..i];
    }
    assert services[..|services|] == services;
  }

  /** The summary blocks of the files, in order. */
  function Summaries(files: seq<GnmapRecord>): (r: seq<string>)
    ensures |r| == |files|
    ensures forall i :: 0 <= i < |files| ==> r[i] == SummaryBlock(files[i])
    decreases |files|
  {
    if files == [] then [] else Summaries(files[..|files| - 1]) + [SummaryBlock(files[|files| - 1])]
  }

  datatype GnmapReport =
    | SummaryDisabled
    | GnmapReport(summary: string, pointers: string, services: seq<string>, searchsploit: Option<string>)

  /**
   * `processGnmap` over the files' extracted records: the summary has one
   * block per file; the pointers one entry per file with an interesting
   * line; the services list is sorted, duplicate-free and holds exactly the
   * service lines with two or more tokens; the searchsploit report is
   * written only when that list is not empty.
   */
  method ProcessGnmap(cfg: NmapSummaryConfig, files: seq<GnmapRecord>) returns (report: GnmapReport)
    ensures !cfg.enable <==> report == SummaryDisabled
    ensures report.GnmapReport? ==>
              && report.summary == Join(Summaries(files), "\n")
              && report.pointers == Join(Pointers(files, cfg), "\n")
              && StrictlySorted(report.services)
              && (forall s :: s in report.services <==> NamedService(files, s))
              && report.searchsploit == (if report.services == [] then None
                                         else Some(SearchsploitReport(report.services)))
  {
    if !cfg.enable {
      return SummaryDisabled;
    }
    var summary: seq<string> := [];
    var pointers: seq<string> := [];
    var services: set<string> := {};
    for i := 0 to |files|
      invariant summary == Summaries(files[..i])
      invariant pointers == Pointers(files[..i], cfg)
      invariant forall s :: s in services <==> NamedService(files[..i], s)
    {
      var f := files[i];
      GnmapStep(files, i, cfg);
      summary := summary + [SummaryBlock(f)];
      var interesting, named := ClassifyServices(f.serviceLines, cfg);
      if |interesting| > 0 {
        pointers := pointers + [PointerBlock(f, interesting)];
      }
      services := services + named;
    }
    assert files[..|files|] == files;
    var serviceList := SortedList(services);
    var searchsploit: Option<string> := None;
    if |serviceList| > 0 {
      var builder := BuildSearchsploitReport(serviceList);
      searchsploit := Some(builder);
    }
    report := GnmapReport(Join(summary, "\n"), Join(pointers, "\n"), serviceList, searchsploit);
  }

  // ---------------------------------------------------------------------
  // Stage sequence
  // ---------------------------------------------------------------------

  datatype Stage = Prepare | Passive | DocFuzz | DirFuzz | Nmap | IpScan | Gnmap | Security

  /** The order in which `Run` executes the stages. */
  const Stages: seq<Stage> := [Prepare, Passive, DocFuzz, DirFuzz, Nmap, IpScan, Gnmap, Security]

  /** The line `Run` logs before each stage. */
  function StageMessage(s: Stage): string {
    match s
    case Prepare => "preparing directories"
    case Passive => "running passive recon (dorks, robots)"
    case DocFuzz => "running documentation fuzzing"
    case DirFuzz => "running directory fuzzing"
    case Nmap => "running nmap scans"
    case IpScan => "scanning additional IPs"
    case Gnmap => "processing gnmap summaries"
    case Security => "running security check utilities"
  }

  datatype StageResult = StageDone | StageFailed(message: string)

  /** `ran` is a prefix of the stage order, each preceded by its log line. */
  predicate Trace(ran: seq<Stage>, logged: seq<string>) {
    |ran| <= |Stages| && ran == Stages[..|ran|] &&
    |logged| == |ran| && forall i :: 0 <= i < |ran| ==> logged[i] == StageMessage(ran[i])
  }

  /**
   * How `Run` ends: the stages that ran, in order and logged, all but the
   * last successful; an error exactly when one failed, and then it is the
   * last one's error.
   */
  predicate Ended(ran: seq<Stage>, logged: seq<string>, err: Option<string>, outcome: Stage -> StageResult) {
    && 1 <= |ran| && Trace(ran, logged)
    && (forall i :: 0 <= i < |ran| - 1 ==> outcome(ran[i]) == StageDone)
    && (err.None? <==> ran == Stages && outcome(Security) == StageDone)
    && (err.Some? ==> outcome(ran[|ran| - 1]) == StageFailed(err.value))
  }

  method Run(outcome: Stage -> StageResult) returns (ran: seq<Stage>, logged: seq<string>, err: Option<string>)
    ensures Ended(ran, logged, err, outcome)
  {
    ran, logged := [], [];
    var r;
    ran, logged, r := RunStage(ran, logged, Prepare, outcome);
    if r.StageFailed? {
      return ran, logged, Some(r.message);
    }
    ran, logged, r := RunStage(ran, logged, Passive, outcome);
    if r.StageFailed? {
      return ran, logged, Some(r.message);
    }
    ran, logged, r := RunStage(ran, logged, DocFuzz, outcome);
    if r.StageFailed? {
      return ran, logged, Some(r.message);
    }
    ran, logged, r := RunStage(ran, logged, DirFuzz, outcome);
    if r.StageFailed? {
      return ran, logged, Some(r.message);
    }
    ran, logged, r := RunStage(ran, logged, Nmap, outcome);
    if r.StageFailed? {
      return ran, logged, Some(r.message);
    }
    ran, logged, r := RunStage(ran, logged, IpScan, outcome);
    if r.StageFailed? {
      return ran, logged, Some(r.message);
    }
    ran, logged, r := RunStage(ran, logged, Gnmap, outcome);
    if r.StageFailed? {
      return ran, logged, Some(r.message);
    }
    ran, logged, r := RunStage(ran, logged, Security, outcome);
    if r.StageFailed? {
      return ran, logged, Some(r.message);
    }
    return ran, logged, None;
  }

  /** Log a stage's line and run it, after every earlier stage succeeded. */
  method RunStage(ran: seq<Stage>, logged: seq<string>, s: Stage, outcome: Stage -> StageResult)
    returns (ran': seq<Stage>, logged': seq<string>, r: StageResult)
    requires Trace(ran, logged) && |ran| < |Stages| && Stages[|ran|] == s
    requires forall i :: 0 <= i < |ran| ==> outcome(ran[i]) == StageDone
    ensures Trace(ran', logged') && ran' == ran + [s] && r == outcome(s)
    ensures r.StageDone? ==> forall i :: 0 <= i < |ran'| ==> outcome(ran'[i]) == StageDone
    ensures r.StageFailed? ==> Ended(ran', logged', Some(r.message), outcome)
    ensures r.StageDone? && s == Security ==> Ended(ran', logged', None, outcome)
  {
    ran' := ran + [s];
    logged' := logged + [StageMessage(s)];
    r := outcome(s);
    assert Stages[..|ran'|] == Stages[..|ran|] + [s];
  }
}
