/**
 * fuzzing/ffuf/ping_distribute.py: the results file written by the ping
 * test is cut into records at each line of 50 dashes; every record that
 * names a URL, a numeric status code and a response is appended, in the
 * same four-line layout, to `status_codes/ping_<status>.txt`.
 *
 * Files are a map from path to content; a path not in the map does not
 * exist yet, and appending to it creates it.
 */
module PingDistribute {
  import opened Text

  /** Python's `c * n` for a one-character string. */
  function Repeat(c: char, n: nat): (r: string)
    ensures |r| == n && forall k :: 0 <= k < n ==> r[k] == c
  {
    if n == 0 then "" else Repeat(c, n - 1) + [c]
  }

  /** The 50 dashes that close every record. */
  const Dashes: string := Repeat('-', 50)

  /** What the records are split on: the dashes and their line feed. */
  const Separator: string := Dashes + "\n"

  const UrlLabel: string := "URL: "
  const StatusLabel: string := "Status Code: "
  const ResponseLabel: string := "Response: "

  // ---------------------------------------------------------------------
  // The three `re.search` captures
  // ---------------------------------------------------------------------

  /** The character classes of the captures: `.` (anything but a line feed) and `\d`. */
  datatype CharClass = AnyButNewline | Digit

  predicate Accepts(cls: CharClass, c: char) {
    match cls
    case AnyButNewline => c != '\n'
    case Digit => IsDigit(c)
  }

  /** The length of the greedy run of `cls` characters starting at `i`. */
  function RunLength(s: string, i: nat, cls: CharClass): (n: nat)
    requires i <= |s|
    ensures i + n <= |s|
    ensures forall k :: i <= k < i + n ==> Accepts(cls, s[k])
    ensures i + n == |s| || !Accepts(cls, s[i + n])
    decreases |s| - i
  {
    if i < |s| && Accepts(cls, s[i]) then 1 + RunLength(s, i + 1, cls) else 0
  }

  /** The greedy run of `cls` characters starting at `i`. */
  function Run(s: string, i: nat, cls: CharClass): (r: string)
    requires i <= |s|
    ensures (r != []) == (i < |s| && Accepts(cls, s[i]))
    ensures forall k :: 0 <= k < |r| ==> Accepts(cls, r[k])
  {
    s[i..i + RunLength(s, i, cls)]
  }

  /** The pattern `tag(cls+)` matches at `j`. */
  predicate MatchesAt(s: string, tag: string, cls: CharClass, j: int) {
    OccursAt(s, tag, j) && j + |tag| < |s| && Accepts(cls, s[j + |tag|])
  }

  /** The leftmost position at or after `from` where `tag(cls+)` matches, or -1. */
  function FirstMatch(s: string, tag: string, cls: CharClass, from: nat): (j: int)
    ensures j == -1 || (from <= j && MatchesAt(s, tag, cls, j))
    ensures forall k :: from <= k && (j < 0 || k < j) ==> !MatchesAt(s, tag, cls, k)
    decreases |s| - from
  {
    if from >= |s| then -1
    else if MatchesAt(s, tag, cls, from) then from
    else FirstMatch(s, tag, cls, from + 1)
  }

  /**
   * `re.search(tag + "(cls+)", s).group(1)`: the greedy run after the
   * leftmost match, or `None` when the pattern matches nowhere.
   */
  function Capture(s: string, tag: string, cls: CharClass): (m: Option<string>)
    ensures m.Some? ==> m.value != [] && forall k :: 0 <= k < |m.value| ==> Accepts(cls, m.value[k])
  {
    var j := FirstMatch(s, tag, cls, 0);
    if j < 0 then None
    else
      Some(Run(s, j + |tag|, cls))
  }

  /**
   * A capture is missing exactly when the pattern matches nowhere, and
   * what it captures follows an occurrence of the tag.
   */
  lemma CaptureMeaning(s: string, tag: string, cls: CharClass)
    ensures Capture(s, tag, cls).None? <==> forall j :: !MatchesAt(s, tag, cls, j)
    ensures Capture(s, tag, cls).Some? ==> exists j :: OccursAt(s, tag + Capture(s, tag, cls).value, j)
  {
    var j := FirstMatch(s, tag, cls, 0);
    if j >= 0 {
      CaptureAt(s, tag, cls, j, j + |tag|);
      TagBeforeRun(s, tag, cls, j);
    }
  }

  /** The tag and the run after it occur together. */
  lemma TagBeforeRun(s: string, tag: string, cls: CharClass, j: nat)
    requires OccursAt(s, tag, j)
    ensures OccursAt(s, tag + Run(s, j + |tag|, cls), j)
  {
    var p := j + |tag|;
    var v := Run(s, p, cls);
    assert s[j..p + |v|] == s[j..p] + s[p..p + |v|];
  }

  /** A run stops at a character outside its class, so what follows it does not matter. */
  lemma {:induction false} RunLengthBefore(a: string, tail: string, i: nat, cls: CharClass)
    requires i <= |a| && tail != [] && !Accepts(cls, tail[0])
    ensures RunLength(a + tail, i, cls) == RunLength(a, i, cls)
    decreases |a| - i
  {
    if i < |a| {
      RunLengthBefore(a, tail, i + 1, cls);
    }
  }

  /** A run inside the second part of a string does not see the first. */
  lemma {:induction false} RunLengthAfter(head: string, b: string, i: nat, cls: CharClass)
    requires i <= |b|
    ensures RunLength(head + b, |head| + i, cls) == RunLength(b, i, cls)
    decreases |b| - i
  {
    if i < |b| {
      RunLengthAfter(head, b, i + 1, cls);
    }
  }

  /** A line that is the tag followed by a run of the class captures that run. */
  lemma CaptureOfLine(tag: string, v: string, cls: CharClass)
    requires v != [] && forall k :: 0 <= k < |v| ==> Accepts(cls, v[k])
    ensures Capture(tag + v, tag, cls) == Some(v)
  {
    var s := tag + v;
    assert s[..|tag|] == tag;
    assert MatchesAt(s, tag, cls, 0);
    RunLengthAfter(tag, v, 0, cls);
    assert RunLength(v, 0, cls) == |v|;
    assert s[|tag|..|tag| + |v|] == v;
  }

  /** A tag whose first character is absent occurs nowhere. */
  lemma FirstCharAbsent(s: string, tag: string)
    requires tag != [] && tag[0] !in s
    ensures forall j :: !OccursAt(s, tag, j)
  {
  }

  /** A line in which the tag does not occur captures nothing. */
  lemma CaptureAbsent(s: string, tag: string, cls: CharClass)
    requires forall j :: !OccursAt(s, tag, j)
    ensures Capture(s, tag, cls) == None
  {
    CaptureMeaning(s, tag, cls);
  }

  /**
   * Neither the labels nor the captures span a line feed, so a search
   * finds its match in the first line that has one.
   */
  lemma CaptureByLine(a: string, b: string, tag: string, cls: CharClass)
    requires '\n' !in tag && !Accepts(cls, '\n')
    ensures Capture(a + "\n" + b, tag, cls) ==
      if Capture(a, tag, cls).Some? then Capture(a, tag, cls) else Capture(b, tag, cls)
  {
    FirstMatchByLine(a, b, tag, cls);
    if FirstMatch(a, tag, cls, 0) >= 0 {
      CaptureFromFirstLine(a, b, tag, cls);
    } else if FirstMatch(b, tag, cls, 0) >= 0 {
      CaptureNone(a, tag, cls);
      CaptureFromRest(a + "\n", b, tag, cls, FirstMatch(b, tag, cls, 0));
    } else {
      CaptureNone(a, tag, cls);
      CaptureNone(b, tag, cls);
      CaptureNone(a + "\n" + b, tag, cls);
    }
  }

  lemma CaptureFromFirstLine(a: string, b: string, tag: string, cls: CharClass)
    requires !Accepts(cls, '\n')
    requires FirstMatch(a, tag, cls, 0) >= 0
    requires FirstMatch(a + "\n" + b, tag, cls, 0) == FirstMatch(a, tag, cls, 0)
    ensures Capture(a + "\n" + b, tag, cls) == Capture(a, tag, cls)
  {
    var j := FirstMatch(a, tag, cls, 0);
    var p := j + |tag|;
    CaptureAt(a, tag, cls, j, p);
    CaptureAt(a + "\n" + b, tag, cls, j, p);
    CaptureInFirstLine(a, b, p, cls);
  }

  lemma CaptureFromRest(head: string, b: string, tag: string, cls: CharClass, jb: nat)
    requires FirstMatch(b, tag, cls, 0) == jb
    requires FirstMatch(head + b, tag, cls, 0) == |head| + jb
    ensures Capture(head + b, tag, cls) == Capture(b, tag, cls)
  {
    var p := jb + |tag|;
    CaptureAt(b, tag, cls, jb, p);
    CaptureAt(head + b, tag, cls, |head| + jb, |head| + p);
    RunAfter(head, b, p, cls);
  }

  /** A run in the first line reads the same in the whole text. */
  lemma CaptureInFirstLine(a: string, b: string, p: nat, cls: CharClass)
    requires p <= |a| && !Accepts(cls, '\n')
    ensures Run(a + "\n" + b, p, cls) == Run(a, p, cls)
  {
    assert a + "\n" + b == a + ("\n" + b);
    RunLengthBefore(a, "\n" + b, p, cls);
  }

  /** A run in the second part of a string reads the same on its own. */
  lemma RunAfter(head: string, b: string, p: nat, cls: CharClass)
    requires p <= |b|
    ensures Run(head + b, |head| + p, cls) == Run(b, p, cls)
  {
    RunLengthAfter(head, b, p, cls);
    var n := RunLength(b, p, cls);
    assert (head + b)[|head| + p..|head| + p + n] == b[p..p + n];
  }

  /** The capture after a leftmost match at `j`. */
  lemma CaptureAt(s: string, tag: string, cls: CharClass, j: nat, p: nat)
    requires FirstMatch(s, tag, cls, 0) == j && p == j + |tag|
    ensures p <= |s|
    ensures Capture(s, tag, cls) == Some(Run(s, p, cls))
  {
  }

  /** No match, no capture. */
  lemma CaptureNone(s: string, tag: string, cls: CharClass)
    requires FirstMatch(s, tag, cls, 0) < 0
    ensures Capture(s, tag, cls) == None
  {
  }

  /** The leftmost match is in the first line when it has one, else in the rest. */
  lemma FirstMatchByLine(a: string, b: string, tag: string, cls: CharClass)
    requires '\n' !in tag && !Accepts(cls, '\n')
    ensures var ja := FirstMatch(a, tag, cls, 0);
      var jb := FirstMatch(b, tag, cls, 0);
      FirstMatch(a + "\n" + b, tag, cls, 0) == if ja >= 0 then ja else if jb >= 0 then |a| + 1 + jb else -1
  {
    var s := a + "\n" + b;
    forall j | 0 <= j <= |a| ensures MatchesAt(s, tag, cls, j) <==> MatchesAt(a, tag, cls, j) {
      MatchesInFirstLine(a, b, tag, cls, j);
    }
    forall j | |a| < j ensures MatchesAt(s, tag, cls, j) <==> MatchesAt(b, tag, cls, j - |a| - 1) {
      MatchesInRest(a, b, tag, cls, j);
    }
    var ja := FirstMatch(a, tag, cls, 0);
    var jb := FirstMatch(b, tag, cls, 0);
    if ja < 0 && jb >= 0 {
      assert MatchesAt(s, tag, cls, |a| + 1 + jb);
    }
  }

  /** After the first line feed, a match sees only what follows it. */
  lemma MatchesInRest(a: string, b: string, tag: string, cls: CharClass, j: int)
    requires |a| < j
    ensures MatchesAt(a + "\n" + b, tag, cls, j) <==> MatchesAt(b, tag, cls, j - |a| - 1)
  {
    var s := a + "\n" + b;
    if j + |tag| <= |s| {
      assert s[j..j + |tag|] == b[j - |a| - 1..j - |a| - 1 + |tag|];
    }
  }

  /** Up to the end of the first line, a match sees only the first line. */
  lemma MatchesInFirstLine(a: string, b: string, tag: string, cls: CharClass, j: int)
    requires '\n' !in tag && !Accepts(cls, '\n') && 0 <= j <= |a|
    ensures MatchesAt(a + "\n" + b, tag, cls, j) <==> MatchesAt(a, tag, cls, j)
  {
    var s := a + "\n" + b;
    if j + |tag| < |a| {
      assert s[j..j + |tag|] == a[j..j + |tag|];
    } else if j + |tag| == |a| {
      assert s[j + |tag|] == '\n';
    } else if j + |tag| <= |s| {
      assert s[j..j + |tag|][|a| - j] == '\n';
    }
  }

  // ---------------------------------------------------------------------
  // Records
  // ---------------------------------------------------------------------

  /** One record: the requested URL, its status code as digits, and its response. */
  datatype Record = Record(url: string, status: string, response: string)

  /**
   * The loop body's extraction: a record only when all three captures
   * succeed; each capture is the first match and ends at its line's end.
   */
  function Parse(text: string): (r: Option<Record>)
    ensures r.Some? ==> r.value.url != [] && '\n' !in r.value.url
    ensures r.Some? ==> r.value.status != [] && forall k :: 0 <= k < |r.value.status| ==> IsDigit(r.value.status[k])
    ensures r.Some? ==> r.value.response != [] && '\n' !in r.value.response
    ensures Capture(text, StatusLabel, Digit).None? ==> r.None?
  {
    var url := Capture(text, UrlLabel, AnyButNewline);
    var status := Capture(text, StatusLabel, Digit);
    var response := Capture(text, ResponseLabel, AnyButNewline);
    if url.Some? && status.Some? && response.Some? then
      assert '\n' !in url.value by {
        assert forall k :: 0 <= k < |url.value| ==> Accepts(AnyButNewline, url.value[k]);
      }
      assert '\n' !in response.value by {
        assert forall k :: 0 <= k < |response.value| ==> Accepts(AnyButNewline, response.value[k]);
      }
      Some(Record(url.value, status.value, response.value))
    else None
  }

  /** The three lines of a record as the ping test writes them for an answered request. */
  function RecordBody(r: Record): string {
    UrlLabel + r.url + "\n" + StatusLabel + r.status + "\n" + ResponseLabel + r.response + "\n"
  }

  /** A record with its closing dashes: what is appended to a status file. */
  function RecordText(r: Record): string {
    RecordBody(r) + Separator
  }

  /** The two lines the ping test writes for a request that raised. */
  function ErrorBody(url: string, error: string): string {
    UrlLabel + url + "\nError: " + error + "\n"
  }

  /**
   * What the ping test writes for an answered request can be read back:
   * its URL, its status and the first line of its response, whatever
   * follows. The URL must not itself contain the later labels.
   */
  lemma ParseRecordBody(r: Record, more: string)
    requires r.url != [] && '\n' !in r.url
    requires !Contains(r.url, StatusLabel) && !Contains(r.url, ResponseLabel)
    requires r.status != [] && forall k :: 0 <= k < |r.status| ==> IsDigit(r.status[k])
    requires r.response != [] && '\n' !in r.response
    ensures Parse(RecordBody(r) + more) == Some(r)
  {
    var text := RecordBody(r) + more;
    UrlOfRecord(r, more);
    StatusOfRecord(r, more);
    ResponseOfRecord(r, more);
    ParseOfCaptures(text, r);
  }

  /** A text whose three captures are a record's fields parses to that record. */
  lemma ParseOfCaptures(text: string, r: Record)
    requires Capture(text, UrlLabel, AnyButNewline) == Some(r.url)
    requires Capture(text, StatusLabel, Digit) == Some(r.status)
    requires Capture(text, ResponseLabel, AnyButNewline) == Some(r.response)
    ensures Parse(text) == Some(r)
  {
  }

  /** The lines after the URL line of a record body. */
  function AfterUrl(r: Record, more: string): string {
    StatusLabel + r.status + "\n" + AfterStatus(r, more)
  }

  /** The lines after the status line of a record body. */
  function AfterStatus(r: Record, more: string): string {
    ResponseLabel + r.response + "\n" + more
  }

  lemma RecordBodyLines(r: Record, more: string)
    ensures RecordBody(r) + more == UrlLabel + r.url + "\n" + AfterUrl(r, more)
  {
  }

  lemma UrlOfRecord(r: Record, more: string)
    requires r.url != [] && '\n' !in r.url
    ensures Capture(RecordBody(r) + more, UrlLabel, AnyButNewline) == Some(r.url)
  {
    RecordBodyLines(r, more);
    CaptureByLine(UrlLabel + r.url, AfterUrl(r, more), UrlLabel, AnyButNewline);
    CaptureOfLine(UrlLabel, r.url, AnyButNewline);
  }

  lemma StatusOfRecord(r: Record, more: string)
    requires !Contains(r.url, StatusLabel)
    requires r.status != [] && forall k :: 0 <= k < |r.status| ==> IsDigit(r.status[k])
    ensures Capture(RecordBody(r) + more, StatusLabel, Digit) == Some(r.status)
  {
    RecordBodyLines(r, more);
    CaptureByLine(UrlLabel + r.url, AfterUrl(r, more), StatusLabel, Digit);
    UrlLineLacks(r.url, StatusLabel, Digit);
    CaptureByLine(StatusLabel + r.status, AfterStatus(r, more), StatusLabel, Digit);
    CaptureOfLine(StatusLabel, r.status, Digit);
  }

  lemma ResponseOfRecord(r: Record, more: string)
    requires !Contains(r.url, ResponseLabel)
    requires forall k :: 0 <= k < |r.status| ==> IsDigit(r.status[k])
    requires r.response != [] && '\n' !in r.response
    ensures Capture(RecordBody(r) + more, ResponseLabel, AnyButNewline) == Some(r.response)
  {
    RecordBodyLines(r, more);
    CaptureByLine(UrlLabel + r.url, AfterUrl(r, more), ResponseLabel, AnyButNewline);
    UrlLineLacks(r.url, ResponseLabel, AnyButNewline);
    CaptureByLine(StatusLabel + r.status, AfterStatus(r, more), ResponseLabel, AnyButNewline);
    StatusLineLacksResponse(r.status);
    CaptureByLine(ResponseLabel + r.response, more, ResponseLabel, AnyButNewline);
    CaptureOfLine(ResponseLabel, r.response, AnyButNewline);
  }

  /**
   * What the ping test writes for a request that raised has no status
   * code, so the case is dropped (unless the URL or the error text carries
   * one).
   */
  lemma ErrorRecordDropped(url: string, error: string)
    requires !Contains(url, StatusLabel) && !Contains(error, StatusLabel)
    ensures Parse(ErrorBody(url, error)) == None
  {
    ErrorHasNoStatus(url, error);
    ParseNeedsStatus(ErrorBody(url, error));
  }

  lemma ParseNeedsStatus(text: string)
    requires Capture(text, StatusLabel, Digit) == None
    ensures Parse(text) == None
  {
  }

  lemma ErrorHasNoStatus(url: string, error: string)
    requires !Contains(url, StatusLabel) && !Contains(error, StatusLabel)
    ensures Capture(ErrorBody(url, error), StatusLabel, Digit) == None
  {
    var l2 := "Error: " + error;
    assert ErrorBody(url, error) == UrlLabel + url + "\n" + (l2 + "\n" + "");
    CaptureByLine(UrlLabel + url, l2 + "\n" + "", StatusLabel, Digit);
    UrlLineLacks(url, StatusLabel, Digit);
    CaptureByLine(l2, "", StatusLabel, Digit);
    LabelAfterPrefix("Error: ", error, StatusLabel);
    CaptureAbsent(l2, StatusLabel, Digit);
    CaptureNone("", StatusLabel, Digit);
  }

  /** The URL line holds neither later tag when the URL does not. */
  lemma UrlLineLacks(url: string, tag: string, cls: CharClass)
    requires tag == StatusLabel || tag == ResponseLabel
    requires !Contains(url, tag)
    ensures Capture(UrlLabel + url, tag, cls) == None
  {
    LabelAfterPrefix(UrlLabel, url, tag);
    CaptureAbsent(UrlLabel + url, tag, cls);
  }

  /** A status line holds no response tag. */
  lemma StatusLineLacksResponse(status: string)
    requires forall k :: 0 <= k < |status| ==> IsDigit(status[k])
    ensures Capture(StatusLabel + status, ResponseLabel, AnyButNewline) == None
  {
    var s := StatusLabel + status;
    assert 'R' !in s by {
      assert 'R' !in StatusLabel;
      assert !IsDigit('R');
    }
    FirstCharAbsent(s, ResponseLabel);
    CaptureAbsent(s, ResponseLabel, AnyButNewline);
  }

  /**
   * The later labels cannot start inside the short prefixes `URL: ` and
   * `Error: `, so they occur after such a prefix only where they occur in
   * what follows it.
   */
  lemma LabelAfterPrefix(prefix: string, rest: string, tag: string)
    requires prefix == UrlLabel || prefix == "Error: "
    requires tag == StatusLabel || tag == ResponseLabel
    requires !Contains(rest, tag)
    ensures forall j :: !OccursAt(prefix + rest, tag, j)
  {
    var s := prefix + rest;
    forall j | 0 <= j < |prefix| && j + |tag| <= |s| ensures !OccursAt(s, tag, j) {
      assert s[j] != tag[0] || s[j + 1] != tag[1];
    }
    forall j | |prefix| <= j ensures !OccursAt(s, tag, j) {
      OccursAfterPrefix(prefix, rest, tag, j);
    }
  }

  /** Past a prefix, an occurrence is one in what follows the prefix. */
  lemma OccursAfterPrefix(prefix: string, rest: string, tag: string, j: int)
    requires |prefix| <= j
    ensures OccursAt(prefix + rest, tag, j) <==> OccursAt(rest, tag, j - |prefix|)
  {
    var s := prefix + rest;
    if j + |tag| <= |s| {
      assert s[j..j + |tag|] == rest[j - |prefix|..j - |prefix| + |tag|];
    }
  }

  // ---------------------------------------------------------------------
  // Distribution
  // ---------------------------------------------------------------------

  /** `os.path.join(output_dir, f'ping_{status_code}.txt')`. */
  function StatusFile(status: string): string {
    "status_codes/ping_" + status + ".txt"
  }

  /** Different statuses go to different files. */
  lemma StatusFileInjective(a: string, b: string)
    requires StatusFile(a) == StatusFile(b)
    ensures a == b
  {
    var p := "status_codes/ping_";
    assert |a| == |b|;
    assert a == StatusFile(a)[|p|..|p| + |a|];
    assert b == StatusFile(b)[|p|..|p| + |b|];
  }

  /** One pass of the loop body: a blank case is skipped, any other is parsed. */
  function Extract(text: string): Option<Record> {
    if Trim(text) == [] then None else Parse(text)
  }

  /** The records `extract` draws from the cases, in order. */
  function RecordsBy(cases: seq<string>, extract: string -> Option<Record>): (recs: seq<Record>)
    ensures |recs| <= |cases|
    decreases |cases|
  {
    if cases == [] then []
    else
      var r := extract(cases[|cases| - 1]);
      RecordsBy(cases[..|cases| - 1], extract) + (if r.Some? then [r.value] else [])
  }

  lemma RecordsBySnoc(cases: seq<string>, extract: string -> Option<Record>, c: string)
    ensures RecordsBy(cases + [c], extract) ==
      RecordsBy(cases, extract) + (if extract(c).Some? then [extract(c).value] else [])
  {
    assert (cases + [c])[..|cases|] == cases;
  }

  /** A record is drawn exactly from a case that `extract` turns into it. */
  lemma {:induction false} RecordsByMembers(cases: seq<string>, extract: string -> Option<Record>, r: Record)
    ensures r in RecordsBy(cases, extract) <==> exists c :: c in cases && extract(c) == Some(r)
    decreases |cases|
  {
    if cases != [] {
      var front := cases[..|cases| - 1];
      var last := cases[|cases| - 1];
      RecordsByMembers(front, extract, r);
      RecordsBySnoc(front, extract, last);
      assert cases == front + [last];
      if extract(last) == Some(r) {
        assert last in cases;
      }
      if exists c :: c in cases && extract(c) == Some(r) {
        var c :| c in cases && extract(c) == Some(r);
        if c != last {
          assert c in front;
        }
      }
    }
  }

  /** When every case yields a record, the records are those, in order. */
  lemma {:induction false} RecordsByAll(cases: seq<string>, extract: string -> Option<Record>, recs: seq<Record>)
    requires |cases| == |recs|
    requires forall k :: 0 <= k < |cases| ==> extract(cases[k]) == Some(recs[k])
    ensures RecordsBy(cases, extract) == recs
    decreases |cases|
  {
    if cases != [] {
      var n := |cases| - 1;
      RecordsByAll(cases[..n], extract, recs[..n]);
      assert cases == cases[..n] + [cases[n]];
      RecordsBySnoc(cases[..n], extract, cases[n]);
      assert recs == recs[..n] + [recs[n]];
    }
  }

  /** The records extracted from the cases by the loop body, in order. */
  function Records(cases: seq<string>): seq<Record> {
    RecordsBy(cases, Extract)
  }

  /** A record is extracted exactly from a non-blank case that parses to it. */
  lemma RecordsMembers(cases: seq<string>, r: Record)
    ensures r in Records(cases) <==> exists c :: c in cases && Trim(c) != [] && Parse(c) == Some(r)
  {
    RecordsByMembers(cases, Extract, r);
  }

  /** The content of `path`, empty when it does not exist. */
  function Content(files: map<string, string>, path: string): string {
    if path in files then files[path] else ""
  }

  /** The file system after appending each record to its status file. */
  function Routed(files: map<string, string>, recs: seq<Record>): (out: map<string, string>)
    decreases |recs|
  {
    if recs == [] then files
    else
      var prev := Routed(files, recs[..|recs| - 1]);
      var r := recs[|recs| - 1];
      prev[StatusFile(r.status) := Content(prev, StatusFile(r.status)) + RecordText(r)]
  }

  lemma RoutedSnoc(files: map<string, string>, recs: seq<Record>, r: Record)
    ensures Routed(files, recs + [r]) ==
      var prev := Routed(files, recs);
      prev[StatusFile(r.status) := Content(prev, StatusFile(r.status)) + RecordText(r)]
  {
    assert (recs + [r])[..|recs|] == recs;
  }

  /** The records whose status is `status`, in order. */
  function WithStatus(recs: seq<Record>, status: string): (sel: seq<Record>)
    ensures |sel| <= |recs|
    ensures forall k :: 0 <= k < |sel| ==> sel[k].status == status
    decreases |recs|
  {
    if recs == [] then []
    else
      var r := recs[|recs| - 1];
      WithStatus(recs[..|recs| - 1], status) + (if r.status == status then [r] else [])
  }

  /** The text of a sequence of records, each with its closing dashes. */
  function RecordsText(recs: seq<Record>): string
    decreases |recs|
  {
    if recs == [] then "" else RecordsText(recs[..|recs| - 1]) + RecordText(recs[|recs| - 1])
  }

  lemma RecordsTextSnoc(recs: seq<Record>, r: Record)
    ensures RecordsText(recs + [r]) == RecordsText(recs) + RecordText(r)
  {
    assert (recs + [r])[..|recs|] == recs;
  }

  lemma WithStatusSnoc(recs: seq<Record>, r: Record, status: string)
    ensures WithStatus(recs + [r], status) == WithStatus(recs, status) + (if r.status == status then [r] else [])
  {
    assert (recs + [r])[..|recs|] == recs;
  }

  lemma TextAssoc(a: string, b: string, c: string)
    ensures a + b + c == a + (b + c)
  {
  }

  /** Reading a path after writing one. */
  lemma ContentUpdate(files: map<string, string>, written: string, text: string, path: string)
    ensures Content(files[written := text], path) == if written == path then text else Content(files, path)
  {
  }

  /**
   * Each status file grows by exactly the records with its status, in
   * their order.
   */
  lemma {:induction false} RoutedContents(files: map<string, string>, recs: seq<Record>, status: string)
    ensures Content(Routed(files, recs), StatusFile(status)) ==
      Content(files, StatusFile(status)) + RecordsText(WithStatus(recs, status))
    decreases |recs|
  {
    if recs != [] {
      var front := recs[..|recs| - 1];
      var r := recs[|recs| - 1];
      assert recs == front + [r];
      RoutedContents(files, front, status);
      RoutedSnoc(files, front, r);
      WithStatusSnoc(front, r, status);
      var prev := Routed(files, front);
      var path := StatusFile(status);
      var written := StatusFile(r.status);
      ContentUpdate(prev, written, Content(prev, written) + RecordText(r), path);
      if r.status == status {
        RecordsTextSnoc(WithStatus(front, status), r);
        assert Content(Routed(files, recs), path) == Content(prev, path) + RecordText(r);
        TextAssoc(Content(files, path), RecordsText(WithStatus(front, status)), RecordText(r));
      } else {
        assert written != path by {
          if written == path {
            StatusFileInjective(r.status, status);
          }
        }
        assert Content(Routed(files, recs), path) == Content(prev, path);
        assert WithStatus(recs, status) == WithStatus(front, status);
      }
    }
  }

  /** A path is created or changed only when it is the file of a record's status. */
  lemma {:induction false} RoutedElsewhere(files: map<string, string>, recs: seq<Record>, path: string)
    requires forall k :: 0 <= k < |recs| ==> StatusFile(recs[k].status) != path
    ensures path in Routed(files, recs) <==> path in files
    ensures path in files ==> Routed(files, recs)[path] == files[path]
    decreases |recs|
  {
    if recs != [] {
      RoutedElsewhere(files, recs[..|recs| - 1], path);
    }
  }

  /**
   * The module-level loop: split the content into cases, skip the blank
   * ones, and append each extracted record to its status file.
   */
  method Distribute(content: string, files: map<string, string>) returns (files': map<string, string>)
    ensures files' == Routed(files, Records(SplitOn(content, Separator)))
  {
    var testCases := SplitOn(content, Separator);
    files' := files;
    var i := 0;
    while i < |testCases|
      invariant 0 <= i <= |testCases|
      invariant files' == Routed(files, Records(testCases[..i]))
    {
      ghost var before := files';
      files' := RouteCase(testCases[i], files');
      DistributeStep(files, testCases, Extract, i, before, files');
      i := i + 1;
    }
    assert testCases[..|testCases|] == testCases;
  }

  /**
   * The loop body for one case: a blank case is skipped; otherwise the
   * three fields are captured and, when all are found, the record is
   * appended to the file of its status.
   */
  method RouteCase(testCase: string, files: map<string, string>) returns (files': map<string, string>)
    ensures Extract(testCase).None? ==> files' == files
    ensures Extract(testCase).Some? ==>
      var rec := Extract(testCase).value;
      files' == files[StatusFile(rec.status) := Content(files, StatusFile(rec.status)) + RecordText(rec)]
  {
    files' := files;
    if Trim(testCase) != [] {
      var r := Parse(testCase);
      if r.Some? {
        var rec := r.value;
        var path := StatusFile(rec.status);
        files' := files'[path := Content(files', path) + RecordText(rec)];
      }
    }
  }

  /** One pass of the loop extends the routed records by what the case yields. */
  lemma DistributeStep(files: map<string, string>, cases: seq<string>, extract: string -> Option<Record>,
                       i: nat, before: map<string, string>, after: map<string, string>)
    requires i < |cases|
    requires before == Routed(files, RecordsBy(cases[..i], extract))
    requires extract(cases[i]).None? ==> after == before
    requires extract(cases[i]).Some? ==>
      var rec := extract(cases[i]).value;
      after == before[StatusFile(rec.status) := Content(before, StatusFile(rec.status)) + RecordText(rec)]
    ensures after == Routed(files, RecordsBy(cases[..i + 1], extract))
  {
    assert cases[..i + 1] == cases[..i] + [cases[i]];
    RecordsBySnoc(cases[..i], extract, cases[i]);
    var prev := RecordsBy(cases[..i], extract);
    if extract(cases[i]).Some? {
      RoutedSnoc(files, prev, extract(cases[i]).value);
    } else {
      assert prev + [] == prev;
    }
  }

  // ---------------------------------------------------------------------
  // The whole results file
  // ---------------------------------------------------------------------

  /** The records a ping test can write that read back unchanged. */
  predicate Readable(r: Record) {
    && r.url != [] && '\n' !in r.url
    && !Contains(r.url, StatusLabel) && !Contains(r.url, ResponseLabel)
    && r.status != [] && (forall k :: 0 <= k < |r.status| ==> IsDigit(r.status[k]))
    && r.response != [] && '\n' !in r.response
    && !Contains(RecordBody(r), Separator)
  }

  /** The records of a results file written by the ping test. */
  function Bodies(recs: seq<Record>): (bodies: seq<string>)
    ensures |bodies| == |recs|
    ensures forall k :: 0 <= k < |recs| ==> bodies[k] == RecordBody(recs[k])
  {
    seq(|recs|, k requires 0 <= k < |recs| => RecordBody(recs[k]))
  }

  /**
   * A results file of answered requests, each record written as the ping
   * test writes it, is distributed record for record.
   */
  lemma WrittenRecordsRead(recs: seq<Record>)
    requires forall k :: 0 <= k < |recs| ==> Readable(recs[k])
    ensures Records(SplitOn(Concat(Bodies(recs), Separator), Separator)) == recs
  {
    var bodies := Bodies(recs);
    SplitOfTerminated(bodies);
    RecordsOfBodies(recs, bodies);
    RecordsBySnoc(bodies, Extract, "");
    assert Trim("") == [];
  }

  /** Splitting text in which every piece is closed by the separator gives the pieces and a last empty one. */
  lemma {:induction false} SplitOfTerminated(xs: seq<string>)
    requires forall k :: 0 <= k < |xs| ==> !Contains(xs[k], Separator)
    ensures SplitOn(Concat(xs, Separator), Separator) == xs + [""]
    decreases |xs|
  {
    if xs == [] {
      SplitOfEmpty();
    } else {
      SplitFirst(xs[0], Concat(xs[1..], Separator));
      SplitOfTerminated(xs[1..]);
      assert xs == [xs[0]] + xs[1..];
    }
  }

  lemma SplitOfEmpty()
    ensures SplitOn("", Separator) == [""]
  {
  }

  /** A piece without the separator, closed by it, is the first piece of the split. */
  lemma SplitFirst(x: string, rest: string)
    requires !Contains(x, Separator)
    ensures SplitOn(x + Separator + rest, Separator) == [x] + SplitOn(rest, Separator)
  {
    var s := x + Separator + rest;
    assert OccursAt(s, Separator, |x|) by {
      assert s[|x|..|x| + |Separator|] == Separator;
    }
    forall j | 0 <= j < |x| ensures !OccursAt(s, Separator, j) {
      NoEarlierSeparator(x, rest, j);
    }
    assert IndexOf(s, Separator) == |x|;
    assert s[..|x|] == x;
    assert s[|x| + |Separator|..] == rest;
  }

  /** The separator is fifty dashes and a line feed. */
  lemma SeparatorShape()
    ensures |Separator| == 51 && Separator[50] == '\n'
    ensures forall k :: 0 <= k < 50 ==> Separator[k] == '-'
  {
  }

  /**
   * Before the end of a piece the separator does not start: its only line
   * feed would have to fall inside the piece, where it is not.
   */
  lemma NoEarlierSeparator(x: string, rest: string, j: nat)
    requires !Contains(x, Separator) && j < |x|
    ensures !OccursAt(x + Separator + rest, Separator, j)
  {
    var s := x + Separator + rest;
    SeparatorShape();
    var e := j + 50;
    if e < |x| {
      assert s[j..j + |Separator|] == x[j..j + |Separator|];
      assert !OccursAt(x, Separator, j);
    } else {
      assert s[e] == Separator[e - |x|] == '-';
    }
  }

  /** A case that starts with a visible character is not blank, so it is parsed. */
  lemma ExtractVisible(text: string, r: Record)
    requires text != [] && text[0] !in Whitespace && Parse(text) == Some(r)
    ensures Extract(text) == Some(r)
  {
    TrimKeepsFirst(text);
  }

  /** The body of a readable record is extracted as that record. */
  lemma ExtractBody(r: Record)
    requires r.url != [] && '\n' !in r.url
    requires !Contains(r.url, StatusLabel) && !Contains(r.url, ResponseLabel)
    requires r.status != [] && forall k :: 0 <= k < |r.status| ==> IsDigit(r.status[k])
    requires r.response != [] && '\n' !in r.response
    ensures Extract(RecordBody(r)) == Some(r)
  {
    var b := RecordBody(r);
    assert Parse(b) == Some(r) by {
      ParseRecordBody(r, "");
      assert b + "" == b;
    }
    BodyStartsVisible(r);
    ExtractVisible(b, r);
  }

  /** A record body starts with the `U` of its URL label. */
  lemma BodyStartsVisible(r: Record)
    ensures RecordBody(r) != [] && RecordBody(r)[0] !in Whitespace
  {
    assert RecordBody(r)[0] == 'U';
  }

  /** Each body is extracted as its record. */
  lemma RecordsOfBodies(recs: seq<Record>, bodies: seq<string>)
    requires |bodies| == |recs|
    requires forall k :: 0 <= k < |recs| ==> Readable(recs[k]) && bodies[k] == RecordBody(recs[k])
    ensures Records(bodies) == recs
  {
    forall k | 0 <= k < |recs| ensures Extract(bodies[k]) == Some(recs[k]) {
      ExtractBody(recs[k]);
    }
    RecordsByAll(bodies, Extract, recs);
  }
}
