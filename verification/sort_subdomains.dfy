/**
 * sort_subdomains.py: every non-blank line of the input file names a
 * subdomain; each is requested once and, when it answers with a status
 * code that is not falsy, is filed under that code. Each code's subdomains
 * are then written, one per line, to `<code>.txt`, the codes taken in the
 * order in which they were first seen.
 */
module SortSubdomains {
  import opened Text

  // ---------------------------------------------------------------------
  // Grouping by status code
  // ---------------------------------------------------------------------

  /**
   * `check_subdomain_status` is the parameter `status`: the code the
   * subdomain answered with, or None when the request failed. `if
   * status_code:` files a subdomain only when there is a code and it is not 0.
   */
  predicate Filed(status: string -> Option<int>, s: string) {
    status(s).Some? && status(s).value != 0
  }

  /** The subdomains filed under `code`, in the order they were read. */
  function Bucket(subs: seq<string>, status: string -> Option<int>, code: int): (b: seq<string>)
    ensures |b| <= |subs|
    decreases |subs|
  {
    if subs == [] then []
    else
      var s := subs[|subs| - 1];
      Bucket(subs[..|subs| - 1], status, code) + (if Filed(status, s) && status(s).value == code then [s] else [])
  }

  /** The codes under which something was filed, in the order they were first seen. */
  function Codes(subs: seq<string>, status: string -> Option<int>): (codes: seq<int>)
    decreases |subs|
  {
    if subs == [] then []
    else
      var s := subs[|subs| - 1];
      var prev := Codes(subs[..|subs| - 1], status);
      if Filed(status, s) && status(s).value !in prev then prev + [status(s).value] else prev
  }

  /** `status_dict` after the loop: each code seen, with its subdomains. */
  function BucketMap(subs: seq<string>, status: string -> Option<int>): (m: map<int, seq<string>>)
    ensures forall c :: c in m <==> c in Codes(subs, status)
    ensures forall c :: c in m ==> m[c] == Bucket(subs, status, c)
  {
    map c | c in Codes(subs, status) :: Bucket(subs, status, c)
  }

  lemma BucketSnoc(subs: seq<string>, s: string, status: string -> Option<int>, code: int)
    ensures Bucket(subs + [s], status, code) ==
      Bucket(subs, status, code) + (if Filed(status, s) && status(s).value == code then [s] else [])
  {
    assert (subs + [s])[..|subs|] == subs;
  }

  lemma CodesSnoc(subs: seq<string>, s: string, status: string -> Option<int>)
    ensures Codes(subs + [s], status) ==
      var prev := Codes(subs, status);
      if Filed(status, s) && status(s).value !in prev then prev + [status(s).value] else prev
  {
    assert (subs + [s])[..|subs|] == subs;
  }

  /** A code is seen exactly when some subdomain was filed under it. */
  lemma {:induction false} CodesMembers(subs: seq<string>, status: string -> Option<int>, code: int)
    ensures code in Codes(subs, status) <==> exists s :: s in subs && Filed(status, s) && status(s).value == code
    decreases |subs|
  {
    if subs != [] {
      var front := subs[..|subs| - 1];
      var last := subs[|subs| - 1];
      CodesMembers(front, status, code);
      assert subs == front + [last];
      if exists s :: s in subs && Filed(status, s) && status(s).value == code {
        var s :| s in subs && Filed(status, s) && status(s).value == code;
        if s != last {
          assert s in front;
        }
      }
    }
  }

  /** Every code is seen once: the dictionary's keys are distinct. */
  lemma {:induction false} CodesDistinct(subs: seq<string>, status: string -> Option<int>)
    ensures forall i, j :: 0 <= i < j < |Codes(subs, status)| ==> Codes(subs, status)[i] != Codes(subs, status)[j]
    decreases |subs|
  {
    if subs != [] {
      CodesDistinct(subs[..|subs| - 1], status);
    }
  }

  /** Nothing is filed under 0, the falsy code. */
  lemma {:induction false} NoZeroCode(subs: seq<string>, status: string -> Option<int>)
    ensures 0 !in Codes(subs, status)
    decreases |subs|
  {
    if subs != [] {
      NoZeroCode(subs[..|subs| - 1], status);
    }
  }

  /**
   * The bucket of a code holds each subdomain filed under it as often as
   * it was read, and nothing else: together the buckets partition the
   * filed subdomains.
   */
  lemma {:induction false} BucketCount(subs: seq<string>, status: string -> Option<int>, code: int, s: string)
    ensures multiset(Bucket(subs, status, code))[s] ==
      if Filed(status, s) && status(s).value == code then multiset(subs)[s] else 0
    decreases |subs|
  {
    if subs != [] {
      var front := subs[..|subs| - 1];
      var last := subs[|subs| - 1];
      BucketCount(front, status, code, s);
      assert subs == front + [last];
      assert multiset(subs) == multiset(front) + multiset{last};
    }
  }

  /** A code not yet seen has an empty bucket. */
  lemma {:induction false} BucketUnseen(subs: seq<string>, status: string -> Option<int>, code: int)
    requires code !in Codes(subs, status)
    ensures Bucket(subs, status, code) == []
    decreases |subs|
  {
    if subs != [] {
      BucketUnseen(subs[..|subs| - 1], status, code);
    }
  }

  /** A subdomain that is not filed changes nothing. */
  lemma BucketMapSkip(subs: seq<string>, s: string, status: string -> Option<int>)
    requires !Filed(status, s)
    ensures BucketMap(subs + [s], status) == BucketMap(subs, status)
  {
    CodesSnoc(subs, s, status);
    forall c ensures Bucket(subs + [s], status, c) == Bucket(subs, status, c) {
      BucketSnoc(subs, s, status, c);
    }
  }

  /** A filed subdomain joins the end of its code's bucket, and no other. */
  lemma BucketMapFiled(subs: seq<string>, s: string, status: string -> Option<int>)
    requires Filed(status, s)
    ensures var code := status(s).value;
      BucketMap(subs + [s], status) == BucketMap(subs, status)[code := Bucket(subs, status, code) + [s]]
  {
    var code := status(s).value;
    CodesSnoc(subs, s, status);
    forall c ensures Bucket(subs + [s], status, c) == Bucket(subs, status, c) + (if c == code then [s] else []) {
      BucketSnoc(subs, s, status, c);
    }
    var m := BucketMap(subs + [s], status);
    var m' := BucketMap(subs, status)[code := Bucket(subs, status, code) + [s]];
    assert forall c :: c in m <==> c in m';
    forall c | c in m ensures m[c] == m'[c] {
      if c != code {
        assert Bucket(subs + [s], status, c) == Bucket(subs, status, c) + [];
      }
    }
  }

  /** One pass of the grouping loop over a filed subdomain. */
  lemma GroupStep(subs: seq<string>, s: string, status: string -> Option<int>,
                  buckets: map<int, seq<string>>, order: seq<int>,
                  buckets': map<int, seq<string>>, order': seq<int>)
    requires buckets == BucketMap(subs, status) && order == Codes(subs, status)
    requires Filed(status, s)
    requires var code := status(s).value;
      && order' == (if code in buckets then order else order + [code])
      && buckets' == buckets[code := (if code in buckets then buckets[code] else []) + [s]]
    ensures buckets' == BucketMap(subs + [s], status) && order' == Codes(subs + [s], status)
  {
    var code := status(s).value;
    CodesSnoc(subs, s, status);
    BucketMapFiled(subs, s, status);
    if code !in buckets {
      BucketUnseen(subs, status, code);
    }
  }

  /** One pass of the grouping loop over a line of the file. */
  lemma GroupLine(lines: seq<string>, i: nat, status: string -> Option<int>,
                  buckets: map<int, seq<string>>, order: seq<int>,
                  buckets': map<int, seq<string>>, order': seq<int>)
    requires i < |lines|
    requires buckets == BucketMap(Entries(lines[..i], false), status)
    requires order == Codes(Entries(lines[..i], false), status)
    requires Trim(lines[i]) == "" || !Filed(status, Trim(lines[i])) ==> buckets' == buckets && order' == order
    requires Trim(lines[i]) != "" && Filed(status, Trim(lines[i])) ==>
      var code := status(Trim(lines[i])).value;
      && order' == (if code in buckets then order else order + [code])
      && buckets' == buckets[code := (if code in buckets then buckets[code] else []) + [Trim(lines[i])]]
    ensures buckets' == BucketMap(Entries(lines[..i + 1], false), status)
    ensures order' == Codes(Entries(lines[..i + 1], false), status)
  {
    var subs := Entries(lines[..i], false);
    var t := Trim(lines[i]);
    assert lines[..i + 1] == lines[..i] + [lines[i]];
    assert Entries(lines[..i + 1], false) == subs + (if t != "" then [t] else []) by {
      assert lines[..i + 1][..i] == lines[..i];
    }
    if t != "" {
      if Filed(status, t) {
        GroupStep(subs, t, status, buckets, order, buckets', order');
      } else {
        BucketMapSkip(subs, t, status);
        CodesSnoc(subs, t, status);
      }
    } else {
      assert subs + [] == subs;
    }
  }

  /**
   * The loop body for one line: the stripped subdomain, unless blank, is
   * requested and, when its code is not falsy, appended to that code's
   * list, which is created (and the code's place in the order fixed) the
   * first time the code is seen.
   */
  method FileLine(line: string, status: string -> Option<int>, buckets: map<int, seq<string>>, order: seq<int>)
    returns (buckets': map<int, seq<string>>, order': seq<int>)
    ensures Trim(line) == "" || !Filed(status, Trim(line)) ==> buckets' == buckets && order' == order
    ensures Trim(line) != "" && Filed(status, Trim(line)) ==>
      var code := status(Trim(line)).value;
      && order' == (if code in buckets then order else order + [code])
      && buckets' == buckets[code := (if code in buckets then buckets[code] else []) + [Trim(line)]]
  {
    buckets', order' := buckets, order;
    var subdomain := Trim(line);
    if subdomain != "" {
      var code := status(subdomain);
      if code.Some? && code.value != 0 {
        if code.value !in buckets' {
          buckets' := buckets'[code.value := []];
          order' := order' + [code.value];
        }
        buckets' := buckets'[code.value := buckets'[code.value] + [subdomain]];
      }
    }
  }

  /**
   * The reading loop of `sort_subdomains`: each line is stripped, a blank
   * one skipped, and the others requested and filed by their code.
   */
  method Group(lines: seq<string>, status: string -> Option<int>)
    returns (buckets: map<int, seq<string>>, order: seq<int>)
    ensures order == Codes(Entries(lines, false), status)
    ensures buckets == BucketMap(Entries(lines, false), status)
  {
    buckets := map[];
    order := [];
    var i := 0;
    while i < |lines|
      invariant 0 <= i <= |lines|
      invariant order == Codes(Entries(lines[..i], false), status)
      invariant buckets == BucketMap(Entries(lines[..i], false), status)
    {
      ghost var (b0, o0) := (buckets, order);
      buckets, order := FileLine(lines[i], status, buckets, order);
      GroupLine(lines, i, status, b0, o0, buckets, order);
      i := i + 1;
    }
    assert lines[..i] == lines;
  }

  // ---------------------------------------------------------------------
  // Writing the files
  // ---------------------------------------------------------------------

  /** `f"{status_code}.txt"`. */
  function CodeFile(code: int): string {
    IntToString(code) + ".txt"
  }

  /** Different codes are written to different files. */
  lemma CodeFileInjective(a: int, b: int)
    requires CodeFile(a) == CodeFile(b)
    ensures a == b
  {
    var n := |IntToString(a)|;
    assert |IntToString(b)| == n;
    assert IntToString(a) == CodeFile(a)[..n];
    assert IntToString(b) == CodeFile(b)[..n];
    IntToStringInjective(a, b);
  }

  /** The files after writing the buckets of `codes` in turn, each file opened with `'w'`. */
  function Written(files: map<string, string>, buckets: map<int, seq<string>>, codes: seq<int>): map<string, string>
    requires forall k :: 0 <= k < |codes| ==> codes[k] in buckets
    decreases |codes|
  {
    if codes == [] then files
    else
      var c := codes[|codes| - 1];
      Written(files, buckets, codes[..|codes| - 1])[CodeFile(c) := Concat(buckets[c], "\n")]
  }

  /** Each written code's file holds its subdomains, one per line, whatever was there before. */
  lemma {:induction false} WrittenContents(files: map<string, string>, buckets: map<int, seq<string>>, codes: seq<int>, c: int)
    requires forall k :: 0 <= k < |codes| ==> codes[k] in buckets
    requires c in codes
    ensures CodeFile(c) in Written(files, buckets, codes)
    ensures Written(files, buckets, codes)[CodeFile(c)] == Concat(buckets[c], "\n")
    decreases |codes|
  {
    var last := codes[|codes| - 1];
    if c != last {
      var front := codes[..|codes| - 1];
      assert codes == front + [last];
      assert c in front;
      WrittenContents(files, buckets, front, c);
      assert CodeFile(c) != CodeFile(last) by {
        if CodeFile(c) == CodeFile(last) {
          CodeFileInjective(c, last);
        }
      }
    }
  }

  /** No other file is created or changed. */
  lemma {:induction false} WrittenElsewhere(files: map<string, string>, buckets: map<int, seq<string>>, codes: seq<int>, path: string)
    requires forall k :: 0 <= k < |codes| ==> codes[k] in buckets
    requires forall k :: 0 <= k < |codes| ==> CodeFile(codes[k]) != path
    ensures path in Written(files, buckets, codes) <==> path in files
    ensures path in files ==> Written(files, buckets, codes)[path] == files[path]
    decreases |codes|
  {
    if codes != [] {
      WrittenElsewhere(files, buckets, codes[..|codes| - 1], path);
    }
  }

  /** The text of one output file: each subdomain followed by a line feed. */
  method WriteLines(subs: seq<string>) returns (text: string)
    ensures text == Concat(subs, "\n")
    ensures Lines(text) == subs || exists k :: 0 <= k < |subs| && '\n' in subs[k]
  {
    text := "";
    var j := 0;
    while j < |subs|
      invariant 0 <= j <= |subs|
      invariant text == Concat(subs[..j], "\n")
    {
      ConcatSnoc(subs[..j], subs[j], "\n");
      assert subs[..j + 1] == subs[..j] + [subs[j]];
      text := text + subs[j] + "\n";
      j := j + 1;
    }
    assert subs[..j] == subs;
    if forall k :: 0 <= k < |subs| ==> '\n' !in subs[k] {
      LinesOfWritten(subs);
    }
  }

  /** The writing loop: one file per code, in the dictionary's order. */
  method WriteFiles(buckets: map<int, seq<string>>, order: seq<int>, files: map<string, string>)
    returns (files': map<string, string>)
    requires forall k :: 0 <= k < |order| ==> order[k] in buckets
    ensures files' == Written(files, buckets, order)
  {
    files' := files;
    var i := 0;
    while i < |order|
      invariant 0 <= i <= |order|
      invariant files' == Written(files, buckets, order[..i])
    {
      assert order[..i + 1][..i] == order[..i];
      var code := order[i];
      var text := WriteLines(buckets[code]);
      files' := files'[CodeFile(code) := text];
      i := i + 1;
    }
    assert order[..i] == order;
  }

  // ---------------------------------------------------------------------
  // The whole run
  // ---------------------------------------------------------------------

  /** Opening the input file: its text, or FileNotFoundError. */
  datatype InputFile = Found(text: string) | NotFound

  /**
   * `sort_subdomains`: a missing input file ends the run with nothing
   * written; otherwise the subdomains are grouped and written, and the
   * closing notice is printed exactly when no subdomain was filed.
   */
  method SortSubdomains(input: InputFile, status: string -> Option<int>, files: map<string, string>)
    returns (files': map<string, string>, noneValid: bool)
    ensures input.NotFound? ==> files' == files && !noneValid
    ensures input.Found? ==>
      var subs := Entries(Lines(input.text), false);
      && files' == Written(files, BucketMap(subs, status), Codes(subs, status))
      && (noneValid <==> Codes(subs, status) == [])
  {
    match input
    case NotFound =>
      files' := files;
      noneValid := false;
    case Found(text) =>
      var buckets, order := Group(Lines(text), status);
      files' := WriteFiles(buckets, order, files);
      noneValid := |buckets| == 0;
      if order != [] {
        assert order[0] in buckets;
      } else {
        assert buckets.Keys == {};
      }
  }

  /** The notice is printed exactly when no subdomain answered with a filed code. */
  lemma NoneValidIff(subs: seq<string>, status: string -> Option<int>)
    ensures Codes(subs, status) == [] <==> forall s :: s in subs ==> !Filed(status, s)
  {
    if Codes(subs, status) != [] {
      var c := Codes(subs, status)[0];
      CodesMembers(subs, status, c);
    } else {
      forall s | s in subs ensures !Filed(status, s) {
        if Filed(status, s) {
          CodesMembers(subs, status, status(s).value);
        }
      }
    }
  }
}
