/**
 * dorking/github/_github_search.py: GitHub code-search URLs collected in
 * `.txt` files are replayed against the search API. Tokens are used in
 * turn (a 401 moves to the next), each search is tried at most three
 * times, and a search with results is recorded in two hit files.
 */
module GithubSearch {
  import opened Text
  import App

  const GithubTokenFile := "_github_token.txt"
  const HitsMinimal := "_hits.txt"
  const HitsVerbose := "_hits_verbose.txt"
  const MaxRetries: nat := 3

  /** Every search URL the script replays starts with this. */
  const SearchPrefix := "https://github.com/search?q="

  // ---------------------------------------------------------------------
  // Tokens
  // ---------------------------------------------------------------------

  /**
   * `get_github_tokens` and the start of the main block: the stripped,
   * non-blank lines of the token file. A missing file, or one with no
   * token, ends the script (exit 1), so a run always has a token.
   */
  function Tokens(tokenFile: Option<string>): (r: Option<seq<string>>)
    ensures r.Some? <==> tokenFile.Some? && Entries(Lines(tokenFile.value), false) != []
    ensures r.Some? ==> r.value == Entries(Lines(tokenFile.value), false) && |r.value| > 0
  {
    if tokenFile.None? then None
    else
      var tokens := Entries(Lines(tokenFile.value), false);
      if tokens == [] then None else Some(tokens)
  }

  /** The index after one rotation among `n` tokens. */
  function Step(i: nat, n: nat): (j: nat)
    requires n > 0
    ensures j < n
  {
    (i + 1) % n
  }

  /** The index after `k` rotations. */
  function Steps(i: nat, n: nat, k: nat): (j: nat)
    requires n > 0 && i < n
    ensures j < n
    decreases k
  {
    if k == 0 then i else Steps(Step(i, n), n, k - 1)
  }

  /** Rotations add up. */
  lemma {:induction false} StepsAdd(i: nat, n: nat, a: nat, b: nat)
    requires n > 0 && i < n
    ensures Steps(i, n, a + b) == Steps(Steps(i, n, a), n, b)
    decreases a
  {
    if a > 0 {
      StepsAdd(Step(i, n), n, a - 1, b);
    }
  }

  /** Before the last token is passed, `k` rotations advance the index by exactly `k`. */
  lemma {:induction false} StepsNoWrap(i: nat, n: nat, k: nat)
    requires i + k < n
    ensures Steps(i, n, k) == i + k
    decreases k
  {
    if k > 0 {
      assert Step(i, n) == i + 1 by {
        ModBelow(i + 1, n);
      }
      StepsNoWrap(i + 1, n, k - 1);
    }
  }

  lemma ModBelow(x: nat, n: nat)
    requires x < n
    ensures x % n == x
  {
  }

  /** As many rotations as there are tokens come back to the same token. */
  lemma FullCycle(i: nat, n: nat)
    requires n > 0 && i < n
    ensures Steps(i, n, n) == i
  {
    var k := n - 1 - i;
    StepsAdd(i, n, k, i + 1);
    StepsNoWrap(i, n, k);
    assert Step(n - 1, n) == 0;
    StepsAdd(n - 1, n, 1, i);
    StepsNoWrap(0, n, i);
  }

  /** The tokens and the global `current_token_index`. */
  class TokenRing {
    var tokens: seq<string>
    var index: nat

    predicate Valid()
      reads this
    {
      |tokens| > 0 && index < |tokens|
    }

    constructor (tokens: seq<string>)
      requires |tokens| > 0
      ensures Valid() && this.tokens == tokens && index == 0
    {
      this.tokens := tokens;
      index := 0;
    }

    /** `get_current_token`. */
    function Current(): string
      reads this
      requires Valid()
    {
      tokens[index]
    }

    /** `rotate_token`: the next token, wrapping around after the last. */
    method Rotate() returns (token: string)
      requires Valid()
      modifies this
      ensures Valid() && tokens == old(tokens)
      ensures index == Step(old(index), |tokens|)
      ensures token == tokens[index]
    {
      index := (index + 1) % |tokens|;
      token := tokens[index];
    }
  }

  // ---------------------------------------------------------------------
  // Search files and URLs
  // ---------------------------------------------------------------------

  /** A directory entry that holds search URLs. */
  predicate IsSearchFile(name: string) {
    EndsWith(name, ".txt") && name != GithubTokenFile && name != HitsMinimal && name != HitsVerbose
  }

  /** `get_search_files`: the search files of a directory listing, in listing order. */
  function GetSearchFiles(names: seq<string>): (files: seq<string>)
    ensures forall f :: f in files <==> f in names && IsSearchFile(f)
    ensures |files| <= |names|
    decreases |names|
  {
    if names == [] then []
    else
      var last := names[|names| - 1];
      var front := GetSearchFiles(names[..|names| - 1]);
      assert names == names[..|names| - 1] + [last];
      front + (if IsSearchFile(last) then [last] else [])
  }

  /** The hit files the script writes are never read back as search files. */
  lemma HitFilesSkipped(names: seq<string>)
    ensures HitsMinimal !in GetSearchFiles(names) && HitsVerbose !in GetSearchFiles(names)
    ensures GithubTokenFile !in GetSearchFiles(names)
  {
  }

  /**
   * `get_urls_from_file`: the stripped lines that start with the search
   * prefix, each once, in ascending order.
   */
  method GetUrlsFromFile(content: string) returns (urls: seq<string>)
    ensures StrictlySorted(urls)
    ensures forall u :: u in urls <==>
      IsSearchUrl(u) && exists k :: 0 <= k < |Lines(content)| && Trim(Lines(content)[k]) == u
  {
    var lines := Lines(content);
    var found: set<string> := {};
    for i := 0 to |lines|
      invariant forall u :: u in found <==> u in Selected(lines[..i], Trim, IsSearchUrl)
    {
      ghost var before := found;
      var line := Trim(lines[i]);
      if IsSearchUrl(line) {
        found := found + {line};
      }
      FoundStep(lines, i, before, found);
    }
    assert lines[..|lines|] == lines;
    FoundAll(lines, Trim, IsSearchUrl, found);
    urls := App.SortedList(found);
  }

  /** One pass of the reading loop adds the line when it is a search URL. */
  lemma FoundStep(lines: seq<string>, i: nat, found: set<string>, found': set<string>)
    requires i < |lines|
    requires forall u :: u in found <==> u in Selected(lines[..i], Trim, IsSearchUrl)
    requires found' == if IsSearchUrl(Trim(lines[i])) then found + {Trim(lines[i])} else found
    ensures forall u :: u in found' <==> u in Selected(lines[..i + 1], Trim, IsSearchUrl)
  {
    assert lines[..i + 1][..i] == lines[..i];
  }

  /** After the loop, the set holds the search URLs among the stripped lines. */
  lemma FoundAll(lines: seq<string>, f: string -> string, keep: string -> bool, found: set<string>)
    requires forall u :: u in found <==> u in Selected(lines, f, keep)
    ensures forall u :: u in found <==> keep(u) && exists k :: 0 <= k < |lines| && f(lines[k]) == u
  {
    forall u ensures u in found <==> keep(u) && exists k :: 0 <= k < |lines| && f(lines[k]) == u {
      SelectedMembers(lines, f, keep, u);
    }
  }

  /** A search URL starts with the search prefix. */
  predicate IsSearchUrl(u: string) {
    StartsWith(u, SearchPrefix)
  }

  // ---------------------------------------------------------------------
  // The query
  // ---------------------------------------------------------------------

  /** Length of the run of characters that are neither whitespace nor `"` at the start of `s`. */
  function ArgLength(s: string): (n: nat)
    ensures n <= |s|
    ensures forall k :: 0 <= k < n ==> s[k] !in Whitespace && s[k] != '"'
    ensures n < |s| ==> s[n] in Whitespace || s[n] == '"'
    decreases |s|
  {
    if s == [] || s[0] in Whitespace || s[0] == '"' then 0 else 1 + ArgLength(s[1..])
  }

  /**
   * The rewrite in `extract_github_search_query`:
   * `re.sub(r'in:url"?([^\s"]+)"?', r'in:url:\1', q)`. Scanning from the
   * left, `in:url`, an optional quote, a non-empty run of characters that
   * are neither whitespace nor quotes, and an optional closing quote become
   * `in:url:` and the run.
   */
  function InUrlRewrite(s: string): (r: string)
    ensures r == [] <==> s == []
    decreases |s|
  {
    if s == [] then []
    else if StartsWith(s, "in:url") then
      var rest := s[6..];
      var q := if rest != [] && rest[0] == '"' then 1 else 0;
      var n := ArgLength(rest[q..]);
      if n == 0 then [s[0]] + InUrlRewrite(s[1..])
      else
        var after := rest[q + n..];
        var close := if after != [] && after[0] == '"' then 1 else 0;
        "in:url:" + rest[q..q + n] + InUrlRewrite(after[close..])
    else [s[0]] + InUrlRewrite(s[1..])
  }

  /** How an `in:url` term at the start of `s` is rewritten, when it has a run. */
  lemma RewriteAt(s: string)
    requires |s| >= 6 && s[..6] == "in:url"
    ensures var rest := s[6..];
      var q := if rest != [] && rest[0] == '"' then 1 else 0;
      var n := ArgLength(rest[q..]);
      var after := rest[q + n..];
      var close := if after != [] && after[0] == '"' then 1 else 0;
      n > 0 ==> InUrlRewrite(s) == "in:url:" + rest[q..q + n] + InUrlRewrite(after[close..])
  {
    assert StartsWith(s, "in:url");
  }

  /** A term written `in:url"value"` becomes `in:url:value`. */
  lemma QuotedInUrl(arg: string, rest: string)
    requires arg != [] && forall c :: c in arg ==> c !in Whitespace && c != '"'
    ensures InUrlRewrite("in:url\"" + arg + "\"" + rest) == "in:url:" + arg + InUrlRewrite(rest)
  {
    var s := "in:url\"" + arg + "\"" + rest;
    QuotedShape(arg, rest);
    QuotedRun(arg, rest);
    RewriteAt(s);
  }

  lemma QuotedShape(arg: string, rest: string)
    ensures var s := "in:url\"" + arg + "\"" + rest;
      |s| >= 6 && s[..6] == "in:url" && s[6..] == "\"" + arg + "\"" + rest
  {
  }

  /** After the opening quote, the run is the argument and the closing quote follows it. */
  lemma QuotedRun(arg: string, rest: string)
    requires arg != [] && forall c :: c in arg ==> c !in Whitespace && c != '"'
    ensures var tail := "\"" + arg + "\"" + rest;
      tail != [] && tail[0] == '"' && ArgLength(tail[1..]) == |arg| && tail[1..1 + |arg|] == arg &&
      tail[1 + |arg|..] != [] && tail[1 + |arg|..][0] == '"' && tail[1 + |arg|..][1..] == rest
  {
    var tail := "\"" + arg + "\"" + rest;
    assert tail[1..] == arg + ("\"" + rest);
    ArgLengthOf(arg, "\"" + rest);
    assert tail[1 + |arg|..] == "\"" + rest;
  }

  /** The run ends where a quote or whitespace begins. */
  lemma {:induction false} ArgLengthOf(arg: string, rest: string)
    requires forall c :: c in arg ==> c !in Whitespace && c != '"'
    requires rest != [] && (rest[0] in Whitespace || rest[0] == '"')
    ensures ArgLength(arg + rest) == |arg|
    decreases |arg|
  {
    if arg != [] {
      assert (arg + rest)[1..] == arg[1..] + rest;
      assert arg[0] in arg;
      ArgLengthOf(arg[1..], rest);
    } else {
      assert arg + rest == rest;
    }
  }

  /** A query without an `in:url` term is searched as it is. */
  lemma {:induction false} NoInUrlUnchanged(s: string)
    requires forall j :: !OccursAt(s, "in:url", j)
    ensures InUrlRewrite(s) == s
    decreases |s|
  {
    if s != [] {
      assert !OccursAt(s, "in:url", 0);
      forall j | 0 <= j ensures !OccursAt(s[1..], "in:url", j) {
        OccursInTail(s, "in:url", j);
      }
      NoInUrlUnchanged(s[1..]);
    }
  }

  /**
   * The rewrite is not idempotent: a term already written `in:url:value`
   * gains a second colon, since the captured run may itself start with `:`.
   */
  lemma RewriteAddsColon(arg: string)
    requires arg != [] && forall c :: c in arg ==> c !in Whitespace && c != '"'
    ensures InUrlRewrite("in:url:" + arg) == "in:url::" + arg
  {
    var s := "in:url:" + arg;
    ColonShape(arg);
    ColonRun(arg);
    RewriteAt(s);
    assert InUrlRewrite([]) == [];
  }

  lemma ColonShape(arg: string)
    ensures var s := "in:url:" + arg;
      |s| >= 6 && s[..6] == "in:url" && s[6..] == ":" + arg && "in:url:" + (":" + arg) == "in:url::" + arg
  {
  }

  /** A colon followed by the argument is one whole run. */
  lemma ColonRun(arg: string)
    requires forall c :: c in arg ==> c !in Whitespace && c != '"'
    ensures var tail := ":" + arg;
      tail != [] && tail[0] != '"' && ArgLength(tail) == |tail| && tail[0..|tail|] == tail && tail[|tail|..] == []
  {
    var tail := ":" + arg;
    assert forall c :: c in tail ==> c !in Whitespace && c != '"';
    ArgLengthAll(tail);
  }

  lemma {:induction false} ArgLengthAll(s: string)
    requires forall c :: c in s ==> c !in Whitespace && c != '"'
    ensures ArgLength(s) == |s|
    decreases |s|
  {
    if s != [] {
      assert s[0] in s;
      ArgLengthAll(s[1..]);
    }
  }

  // ---------------------------------------------------------------------
  // One search, with retries
  // ---------------------------------------------------------------------

  /** The JSON of a search answer: `total_count` when present, and the `html_url` of each item. */
  datatype SearchResult = SearchResult(totalCount: Option<int>, itemUrls: seq<string>)

  /** What one request to the search API gives. */
  datatype Attempt = Status(code: int, body: SearchResult) | Raised(network: bool)

  /** How a search ended: its result, and how many requests and rotations it took. */
  datatype SearchRun = SearchRun(result: Option<SearchResult>, requests: nat, rotations: nat)

  /** `raise_for_status` raises for a client or server error. */
  predicate ErrorStatus(code: int) {
    400 <= code < 600
  }

  /**
   * `github_search(url, retry)`: `replies(k)` is the answer to the `k`-th
   * request of the run and `sent` the number already made. A 401 rotates
   * the token and retries; a 403, any other error status and any raised
   * error retry; a good answer is the result. From `retry == MaxRetries`
   * on, and for an empty query, no request is made and the result is
   * `None`.
   */
  function SearchSpec(query: string, retry: nat, replies: nat -> Attempt, sent: nat): (run: SearchRun)
    ensures run.rotations <= run.requests
    ensures retry >= MaxRetries || query == "" ==> run == SearchRun(None, 0, 0)
    ensures retry < MaxRetries ==> run.requests <= MaxRetries - retry
    ensures run.result.Some? ==> run.requests >= 1
    decreases MaxRetries - retry
  {
    if retry >= MaxRetries || query == "" then SearchRun(None, 0, 0)
    else
      match replies(sent)
      case Status(code, body) =>
        if code == 401 then
          var r := SearchSpec(query, retry + 1, replies, sent + 1);
          SearchRun(r.result, r.requests + 1, r.rotations + 1)
        else if code == 403 || ErrorStatus(code) then
          var r := SearchSpec(query, retry + 1, replies, sent + 1);
          SearchRun(r.result, r.requests + 1, r.rotations)
        else SearchRun(Some(body), 1, 0)
      case Raised(_) =>
        var r := SearchSpec(query, retry + 1, replies, sent + 1);
        SearchRun(r.result, r.requests + 1, r.rotations)
  }

  /** The first request's good answer is the result, after one request. */
  lemma FirstAnswerWins(query: string, replies: nat -> Attempt, sent: nat)
    requires query != ""
    requires replies(sent).Status? && replies(sent).code != 401 && replies(sent).code != 403
    requires !ErrorStatus(replies(sent).code)
    ensures SearchSpec(query, 0, replies, sent) == SearchRun(Some(replies(sent).body), 1, 0)
  {
  }

  /** With every token refused, each of the remaining attempts rotates, and nothing is found. */
  lemma {:induction false} AllUnauthorized(query: string, retry: nat, replies: nat -> Attempt, sent: nat)
    requires query != "" && retry <= MaxRetries
    requires forall k :: replies(k).Status? && replies(k).code == 401
    ensures SearchSpec(query, retry, replies, sent) == SearchRun(None, MaxRetries - retry, MaxRetries - retry)
    decreases MaxRetries - retry
  {
    if retry < MaxRetries {
      AllUnauthorized(query, retry + 1, replies, sent + 1);
    }
  }

  /** With every request failing, exactly `MaxRetries` requests are made and nothing is found. */
  lemma {:induction false} AllFailing(query: string, retry: nat, replies: nat -> Attempt, sent: nat)
    requires query != "" && retry <= MaxRetries
    requires forall k :: replies(k).Raised?
    ensures SearchSpec(query, retry, replies, sent) == SearchRun(None, MaxRetries - retry, 0)
    decreases MaxRetries - retry
  {
    if retry < MaxRetries {
      AllFailing(query, retry + 1, replies, sent + 1);
    }
  }

  /**
   * `github_search`, recursive as in the script. `query` is what
   * `extract_github_search_query` gives for the URL (the same on every
   * attempt); `replies` and `sent` are as for `SearchSpec`.
   */
  method Search(query: string, retry: nat, ring: TokenRing, replies: nat -> Attempt, sent: nat)
    returns (result: Option<SearchResult>, sent': nat)
    requires ring.Valid()
    modifies ring
    ensures ring.Valid() && ring.tokens == old(ring.tokens)
    ensures var run := SearchSpec(query, retry, replies, sent);
      && result == run.result
      && sent' == sent + run.requests
      && ring.index == Steps(old(ring.index), |ring.tokens|, run.rotations)
    decreases MaxRetries - retry, 1
  {
    if retry >= MaxRetries || query == "" {
      return None, sent;
    }
    var reply := replies(sent);
    if reply.Status? && reply.code != 401 && !(reply.code == 403 || ErrorStatus(reply.code)) {
      return Some(reply.body), sent + 1;
    }
    result, sent' := Retry(query, retry, ring, replies, sent, reply.Status? && reply.code == 401);
  }

  /**
   * The retrying branches of `github_search`: after a 401 (`rotate`) the
   * next token is taken first; then the search starts over with `retry + 1`.
   */
  method Retry(query: string, retry: nat, ring: TokenRing, replies: nat -> Attempt, sent: nat, rotate: bool)
    returns (result: Option<SearchResult>, sent': nat)
    requires ring.Valid() && retry < MaxRetries && query != ""
    requires rotate <==> replies(sent).Status? && replies(sent).code == 401
    requires !(replies(sent).Status? && replies(sent).code != 401 && !(replies(sent).code == 403 || ErrorStatus(replies(sent).code)))
    modifies ring
    ensures ring.Valid() && ring.tokens == old(ring.tokens)
    ensures var run := SearchSpec(query, retry, replies, sent);
      && result == run.result
      && sent' == sent + run.requests
      && ring.index == Steps(old(ring.index), |ring.tokens|, run.rotations)
    decreases MaxRetries - retry, 0
  {
    ghost var rest := SearchSpec(query, retry + 1, replies, sent + 1);
    ghost var rotations := if rotate then 1 else 0;
    assert SearchSpec(query, retry, replies, sent) == SearchRun(rest.result, rest.requests + 1, rest.rotations + rotations);
    if rotate {
      var _ := ring.Rotate();
    }
    result, sent' := Search(query, retry + 1, ring, replies, sent + 1);
    StepsAdd(old(ring.index), |ring.tokens|, rotations, rest.rotations);
  }

  // ---------------------------------------------------------------------
  // The rate-limit check
  // ---------------------------------------------------------------------

  /**
   * `check_rate_limit` as far as it touches the token ring: each 401 from
   * the rate-limit endpoint rotates the token and asks again, so `refused`
   * refusals leave the ring `refused` steps on. The remaining quota and
   * the sleep it may cause change nothing else.
   */
  method CheckRateLimit(ring: TokenRing, refused: nat)
    requires ring.Valid()
    modifies ring
    ensures ring.Valid() && ring.tokens == old(ring.tokens)
    ensures ring.index == Steps(old(ring.index), |ring.tokens|, refused)
    decreases refused
  {
    if refused > 0 {
      var _ := ring.Rotate();
      CheckRateLimit(ring, refused - 1);
    }
  }

  // ---------------------------------------------------------------------
  // Processing a file
  // ---------------------------------------------------------------------

  /** The hit decision of `process_file`: a result with a positive `total_count`. */
  predicate IsHit(result: Option<SearchResult>) {
    result.Some? && result.value.totalCount.Some? && result.value.totalCount.value > 0
  }

  /** The verbose hit file's entry, less its time stamp. */
  datatype HitRecord = HitRecord(query: string, totalCount: int, itemUrls: seq<string>)

  /** The lines of the minimal hit file and the entries of the verbose one. */
  datatype Hits = Hits(minimal: seq<string>, verbose: seq<HitRecord>)

  function AppendHits(a: Hits, b: Hits): Hits {
    Hits(a.minimal + b.minimal, a.verbose + b.verbose)
  }

  /** A hit adds the URL to the minimal file and its query, count and items to the verbose one. */
  function HitLog(url: string, query: string, result: Option<SearchResult>): (h: Hits)
    ensures h.minimal != [] <==> IsHit(result)
    ensures |h.minimal| == |h.verbose| <= 1
    ensures h.minimal != [] ==> h.minimal == [url] && h.verbose[0].totalCount > 0
  {
    if IsHit(result) then Hits([url], [HitRecord(query, result.value.totalCount.value, result.value.itemUrls)])
    else Hits([], [])
  }

  /** How processing a list of URLs ends: the hits, and the requests and rotations it took. */
  datatype FileRun = FileRun(hits: Hits, requests: nat, rotations: nat)

  /**
   * `github_search(url)` for each query: `Searcher(replies)(query, sent)`
   * is the search of `query` that starts with the `sent`-th request.
   */
  function Searcher(replies: nat -> Attempt): (search: (string, nat) -> SearchRun)
    ensures forall query, sent :: search(query, sent).requests <= MaxRetries
  {
    (query: string, sent: nat) => SearchSpec(query, 0, replies, sent)
  }

  /**
   * One URL of `process_file`'s loop: `extract(url)` is what
   * `extract_github_search_query` gives for `url` (the decoded `q`
   * parameter after `InUrlRewrite`), `search` is `Searcher(replies)`, and
   * `refused(url)` is the number of 401 answers the rate-limit check before
   * `url` gets. The check's rotations come before the search's.
   */
  function UrlRunOf(url: string, extract: string -> string, search: (string, nat) -> SearchRun,
                    refused: string -> nat, sent: nat): (run: FileRun)
    ensures |run.hits.minimal| <= 1
    ensures run.rotations >= refused(url)
  {
    var query := extract(url);
    var r := search(query, sent);
    FileRun(HitLog(url, query, r.result), r.requests, refused(url) + r.rotations)
  }

  /** The loop of `process_file` over the URLs of one file, one `UrlRunOf` after the other. */
  function FileRunOf(urls: seq<string>, extract: string -> string, search: (string, nat) -> SearchRun,
                     refused: string -> nat, sent: nat): (run: FileRun)
    ensures |run.hits.minimal| <= |urls|
    decreases |urls|
  {
    if urls == [] then FileRun(Hits([], []), 0, 0)
    else
      var u := UrlRunOf(urls[0], extract, search, refused, sent);
      var rest := FileRunOf(urls[1..], extract, search, refused, sent + u.requests);
      FileRun(AppendHits(u.hits, rest.hits), u.requests + rest.requests, u.rotations + rest.rotations)
  }

  /** The 401 answers the rate-limit checks of a file get, in total. */
  function RefusedTotal(urls: seq<string>, refused: string -> nat): nat
    decreases |urls|
  {
    if urls == [] then 0 else refused(urls[0]) + RefusedTotal(urls[1..], refused)
  }

  /** Every refusal of the rate-limit check costs a rotation, on top of the searches' own. */
  lemma {:induction false} RotationsCoverRefusals(urls: seq<string>, extract: string -> string,
                                                  search: (string, nat) -> SearchRun, refused: string -> nat, sent: nat)
    ensures FileRunOf(urls, extract, search, refused, sent).rotations >= RefusedTotal(urls, refused)
    decreases |urls|
  {
    if urls != [] {
      var u := UrlRunOf(urls[0], extract, search, refused, sent);
      RotationsCoverRefusals(urls[1..], extract, search, refused, sent + u.requests);
    }
  }

  /** Each URL of the file takes at most `MaxRetries` requests. */
  lemma FileRequestsBounded(urls: seq<string>, extract: string -> string, replies: nat -> Attempt,
                             refused: string -> nat, sent: nat)
    ensures FileRunOf(urls, extract, Searcher(replies), refused, sent).requests <= MaxRetries * |urls|
  {
    RequestsBounded(urls, extract, Searcher(replies), refused, sent);
  }

  lemma {:induction false} RequestsBounded(urls: seq<string>, extract: string -> string, search: (string, nat) -> SearchRun,
                                           refused: string -> nat, sent: nat)
    requires forall query, k :: search(query, k).requests <= MaxRetries
    ensures FileRunOf(urls, extract, search, refused, sent).requests <= MaxRetries * |urls|
    decreases |urls|
  {
    if urls != [] {
      var u := UrlRunOf(urls[0], extract, search, refused, sent);
      RequestsBounded(urls[1..], extract, search, refused, sent + u.requests);
    }
  }

  /**
   * Whatever the searches answer, only URLs of the file reach the minimal
   * hit file, and every entry of the verbose one counts something.
   */
  lemma {:induction false} FileHitsAreHits(urls: seq<string>, extract: string -> string, search: (string, nat) -> SearchRun,
                                           refused: string -> nat, sent: nat)
    ensures var hits := FileRunOf(urls, extract, search, refused, sent).hits;
      && PositiveHits(hits)
      && forall u :: u in hits.minimal ==> u in urls
    decreases |urls|
  {
    if urls != [] {
      var u := UrlRunOf(urls[0], extract, search, refused, sent);
      var rest := FileRunOf(urls[1..], extract, search, refused, sent + u.requests);
      var h := u.hits;
      FileHitsAreHits(urls[1..], extract, search, refused, sent + u.requests);
      PositiveHitsAppend(h, rest.hits);
      forall u | u in h.minimal + rest.hits.minimal ensures u in urls {
        if u in rest.hits.minimal {
          var k :| 0 <= k < |urls[1..]| && urls[1..][k] == u;
          assert urls[k + 1] == u;
        }
      }
    }
  }

  /** Hit logs whose entries all count something stay so when appended. */
  predicate PositiveHits(h: Hits) {
    |h.minimal| == |h.verbose| && forall k :: 0 <= k < |h.verbose| ==> h.verbose[k].totalCount > 0
  }

  lemma PositiveHitsAppend(a: Hits, b: Hits)
    requires PositiveHits(a) && PositiveHits(b)
    ensures PositiveHits(AppendHits(a, b))
  {
    var v := a.verbose + b.verbose;
    forall k | 0 <= k < |v| ensures v[k].totalCount > 0 {
      if k >= |a.verbose| {
        assert v[k] == b.verbose[k - |a.verbose|];
      }
    }
  }

  /**
   * `process_file` over the URLs `get_urls_from_file` found: for each URL
   * the rate limit is checked and the URL searched, the token ring carrying
   * over from one to the next.
   */
  method ProcessFile(urls: seq<string>, extract: string -> string, ring: TokenRing,
                     replies: nat -> Attempt, refused: string -> nat, sent: nat, hits: Hits)
    returns (hits': Hits, sent': nat)
    requires ring.Valid()
    modifies ring
    ensures ring.Valid() && ring.tokens == old(ring.tokens)
    ensures var run := FileRunOf(urls, extract, Searcher(replies), refused, sent);
      && hits' == AppendHits(hits, run.hits)
      && sent' == sent + run.requests
      && ring.index == Steps(old(ring.index), |ring.tokens|, run.rotations)
  {
    hits', sent' := hits, sent;
    ghost var run := FileRunOf(urls, extract, Searcher(replies), refused, sent);
    var i := 0;
    while i < |urls|
      invariant 0 <= i <= |urls|
      invariant ring.Valid() && ring.tokens == old(ring.tokens)
      invariant Remaining(run, FileRunOf(urls[i..], extract, Searcher(replies), refused, sent'), hits, sent, old(ring.index), |ring.tokens|,
                          hits', sent', ring.index)
    {
      ghost var index0 := ring.index;
      ghost var hits0 := hits';
      ghost var sent0 := sent';
      var next;
      hits', next := ProcessUrl(urls[i], extract, ring, replies, refused, sent', hits');
      RemainingStep(urls, extract, Searcher(replies), refused, run, hits, sent, old(ring.index), |ring.tokens|,
                    i, hits0, sent0, index0, hits', next, ring.index);
      sent' := next;
      i := i + 1;
    }
    assert urls[|urls|..] == [];
  }

  /**
   * One pass of `process_file`'s loop: the rate-limit check, the search,
   * and the hit files updated when the search found something.
   */
  method ProcessUrl(url: string, extract: string -> string, ring: TokenRing,
                    replies: nat -> Attempt, refused: string -> nat, sent: nat, hits: Hits)
    returns (hits': Hits, sent': nat)
    requires ring.Valid()
    modifies ring
    ensures ring.Valid() && ring.tokens == old(ring.tokens)
    ensures var u := UrlRunOf(url, extract, Searcher(replies), refused, sent);
      && hits' == AppendHits(hits, u.hits)
      && sent' == sent + u.requests
      && ring.index == Steps(old(ring.index), |ring.tokens|, u.rotations)
  {
    CheckRateLimit(ring, refused(url));
    var query := extract(url);
    var result;
    result, sent' := Search(query, 0, ring, replies, sent);
    StepsAdd(old(ring.index), |ring.tokens|, refused(url), SearchSpec(query, 0, replies, sent).rotations);
    hits' := hits;
    if IsHit(result) {
      hits' := AppendHits(hits', Hits([url], [HitRecord(query, result.value.totalCount.value, result.value.itemUrls)]));
    }
  }

  /**
   * The loop invariant of `ProcessFile`: what is done so far, followed by
   * what the remaining URLs `rest` do, is what the whole file does (`run`).
   */
  ghost predicate Remaining(run: FileRun, rest: FileRun, hits: Hits, sent: nat, index: nat, n: nat,
                            hitsNow: Hits, sentNow: nat, indexNow: nat)
  {
    && 0 < n && index < n && indexNow < n
    && AppendHits(hitsNow, rest.hits) == AppendHits(hits, run.hits)
    && sentNow + rest.requests == sent + run.requests
    && Steps(indexNow, n, rest.rotations) == Steps(index, n, run.rotations)
  }

  /** One URL of `ProcessFile`'s loop keeps `Remaining`. */
  lemma RemainingStep(urls: seq<string>, extract: string -> string, search: (string, nat) -> SearchRun,
                      refused: string -> nat, run: FileRun, hits: Hits, sent: nat, index: nat, n: nat,
                      i: nat, hits0: Hits, sent0: nat, index0: nat,
                      hits1: Hits, sent1: nat, index1: nat)
    requires i < |urls|
    requires Remaining(run, FileRunOf(urls[i..], extract, search, refused, sent0), hits, sent, index, n, hits0, sent0, index0)
    requires var u := UrlRunOf(urls[i], extract, search, refused, sent0);
      && sent1 == sent0 + u.requests
      && index1 == Steps(index0, n, u.rotations)
      && hits1 == AppendHits(hits0, u.hits)
    ensures Remaining(run, FileRunOf(urls[i + 1..], extract, search, refused, sent1), hits, sent, index, n, hits1, sent1, index1)
  {
    var u := UrlRunOf(urls[i], extract, search, refused, sent0);
    var after := FileRunOf(urls[i + 1..], extract, search, refused, sent1);
    assert FileRunOf(urls[i..], extract, search, refused, sent0) ==
           FileRun(AppendHits(u.hits, after.hits), u.requests + after.requests, u.rotations + after.rotations) by {
      assert urls[i..][0] == urls[i];
      assert urls[i..][1..] == urls[i + 1..];
    }
    StepsAdd(index0, n, u.rotations, after.rotations);
    HitsAssoc(hits0, u.hits, after.hits);
  }

  lemma HitsAssoc(a: Hits, b: Hits, c: Hits)
    ensures AppendHits(AppendHits(a, b), c) == AppendHits(a, AppendHits(b, c))
  {
  }
}
