/**
 * Text helpers shared by every module of the model: ASCII whitespace,
 * trimming, prefixes, splitting and joining, the line view of a file,
 * substring search, lower-casing, whitespace tokens, byte-wise string
 * order with sorted insertion, and decimal rendering of integers.
 *
 * Strings are `seq<char>`; the Go and Python standard-library routines the
 * sources call are written out here once and reused.
 */
module Text {

  datatype Option<+T> = None | Some(value: T)

  // ---------------------------------------------------------------------
  // Whitespace and trimming
  // ---------------------------------------------------------------------

  /** Space, tab, line feed, vertical tab, form feed, carriage return. */
  const Whitespace: set<char> := {' ', '\t', '\n', '\r', 11 as char, 12 as char}

  /** No character of `t` is whitespace. */
  predicate NoSpace(t: string) {
    forall i :: 0 <= i < |t| ==> t[i] !in Whitespace
  }

  /** Drops the longest prefix made of characters in `cut`. */
  function StripLeft(s: string, cut: set<char>): (r: string)
    ensures |r| <= |s| && r == s[|s| - |r|..]
    ensures r == [] || r[0] !in cut
    ensures forall i :: 0 <= i < |s| - |r| ==> s[i] in cut
    decreases |s|
  {
    if |s| > 0 && s[0] in cut then StripLeft(s[1..], cut) else s
  }

  /** Drops the longest suffix made of characters in `cut`. */
  function StripRight(s: string, cut: set<char>): (r: string)
    ensures |r| <= |s| && r == s[..|r|]
    ensures r == [] || r[|r| - 1] !in cut
    ensures forall i :: |r| <= i < |s| ==> s[i] in cut
    decreases |s|
  {
    if |s| > 0 && s[|s| - 1] in cut then StripRight(s[..|s| - 1], cut) else s
  }

  /** Python's `str.strip(chars)`: both ends, any mix of the characters. */
  function Strip(s: string, cut: set<char>): (r: string)
    ensures |r| <= |s|
    ensures forall c :: c in r ==> c in s
    ensures r == [] || (r[0] !in cut && r[|r| - 1] !in cut)
    ensures s == [] || (s[0] !in cut && s[|s| - 1] !in cut) ==> r == s
  {
    var l := StripLeft(s, cut);
    var r := StripRight(l, cut);
    StripKeepsChars(s, l, r);
    r
  }

  /** A piece of a suffix of `s` holds only characters of `s`. */
  lemma StripKeepsChars(s: string, l: string, r: string)
    requires |l| <= |s| && l == s[|s| - |l|..]
    requires |r| <= |l| && r == l[..|r|]
    ensures forall c :: c in r ==> c in s
  {
    forall c | c in r ensures c in s {
      var k :| 0 <= k < |r| && r[k] == c;
      assert r[k] == l[k] == s[|s| - |l| + k];
    }
  }

  /** Neither end of `s` is whitespace. */
  predicate IsTrimmed(s: string) {
    s == [] || (s[0] !in Whitespace && s[|s| - 1] !in Whitespace)
  }

  /** Go's `strings.TrimSpace` and Python's `str.strip()`. */
  function Trim(s: string): (r: string)
    ensures IsTrimmed(r) && |r| <= |s|
    ensures forall c :: c in r ==> c in s
  {
    Strip(s, Whitespace)
  }

  /** One leading space of a trimmed word is dropped. */
  lemma TrimDropsLeadingSpace(w: string)
    requires w != [] && IsTrimmed(w)
    ensures Trim(" " + w) == w
  {
    var s := " " + w;
    assert s[1..] == w;
    assert StripLeft(s, Whitespace) == StripLeft(w, Whitespace);
    assert StripLeft(w, Whitespace) == w;
    assert StripRight(w, Whitespace) == w;
  }

  /** Trimming keeps a first character that is not whitespace. */
  lemma TrimKeepsFirst(s: string)
    requires s != [] && s[0] !in Whitespace
    ensures Trim(s) != [] && Trim(s)[0] == s[0]
  {
    assert StripLeft(s, Whitespace) == s;
  }

  /** Trimming drops one trailing space after a trimmed word. */
  lemma TrimDropsTrailingSpace(w: string)
    requires w != [] && IsTrimmed(w)
    ensures Trim(w + " ") == w
  {
    var s := w + " ";
    assert s[0] == w[0];
    assert StripLeft(s, Whitespace) == s;
    assert s[|s| - 1] == ' ' && s[..|s| - 1] == w;
    assert StripRight(w, Whitespace) == w;
    assert StripRight(s, Whitespace) == w;
  }

  lemma TrimOfTrimmed(s: string)
    requires IsTrimmed(s)
    ensures Trim(s) == s
  {
  }

  // ---------------------------------------------------------------------
  // Prefixes and suffixes
  // ---------------------------------------------------------------------

  predicate StartsWith(s: string, p: string) {
    |p| <= |s| && s[..|p|] == p
  }

  lemma StartsWithFirst(s: string, p: string)
    ensures StartsWith(s, p) && p != [] ==> s[0] == p[0]
  {
    if StartsWith(s, p) && p != [] {
      assert s[..|p|][0] == s[0];
    }
  }

  predicate EndsWith(s: string, p: string) {
    |p| <= |s| && s[|s| - |p|..] == p
  }

  /** Go's `strings.TrimPrefix`: removes `p` once when `s` starts with it. */
  function TrimPrefix(s: string, p: string): (r: string)
    ensures |r| <= |s|
    ensures StartsWith(s, p) ==> s == p + r
    ensures !StartsWith(s, p) ==> r == s
  {
    if StartsWith(s, p) then s[|p|..] else s
  }

  // ---------------------------------------------------------------------
  // Character maps
  // ---------------------------------------------------------------------

  /** Go's `strings.ReplaceAll` for a one-character pattern and replacement. */
  function ReplaceChar(s: string, from: char, to: char): (r: string)
    ensures |r| == |s|
    ensures forall i :: 0 <= i < |s| ==> r[i] == (if s[i] == from then to else s[i])
  {
    seq(|s|, i requires 0 <= i < |s| => if s[i] == from then to else s[i])
  }

  function LowerChar(c: char): char {
    if 'A' <= c <= 'Z' then (c as int + 32) as char else c
  }

  /** Lower-casing of ASCII letters; every other character is kept. */
  function ToLower(s: string): (r: string)
    ensures |r| == |s|
    ensures forall i :: 0 <= i < |s| ==> r[i] == LowerChar(s[i])
  {
    seq(|s|, i requires 0 <= i < |s| => LowerChar(s[i]))
  }

  lemma ReplaceCharAbsent(s: string, from: char, to: char)
    requires from !in s
    ensures ReplaceChar(s, from, to) == s
  {
  }

  lemma ToLowerIdempotent(s: string)
    ensures ToLower(ToLower(s)) == ToLower(s)
  {
  }

  /** Go's `strings.EqualFold` restricted to ASCII case folding. */
  predicate EqualFold(a: string, b: string) {
    ToLower(a) == ToLower(b)
  }

  // ---------------------------------------------------------------------
  // Splitting and joining on one character
  // ---------------------------------------------------------------------

  /**
   * Go's `strings.Split(s, string(c))`: the pieces between occurrences
   * of `c`; always at least one piece, none of them contains `c`.
   */
  function Split(s: string, c: char): (r: seq<string>)
    ensures |r| >= 1
    ensures forall k :: 0 <= k < |r| ==> c !in r[k]
    decreases |s|
  {
    if |s| == 0 then [""]
    else
      var rest := Split(s[1..], c);
      if s[0] == c then [""] + rest
      else [[s[0]] + rest[0]] + rest[1..]
  }

  /** Go's `strings.Join` and Python's `sep.join`. */
  function Join(xs: seq<string>, sep: string): (r: string)
    decreases |xs|
  {
    if |xs| == 0 then ""
    else if |xs| == 1 then xs[0]
    else xs[0] + sep + Join(xs[1..], sep)
  }

  /** A joined list ends with its last element. */
  lemma {:induction false} JoinEndsWithLast(xs: seq<string>, sep: string)
    requires xs != []
    ensures var r := Join(xs, sep); var last := xs[|xs| - 1];
      |last| <= |r| && r[|r| - |last|..] == last
    decreases |xs|
  {
    if |xs| > 1 {
      JoinEndsWithLast(xs[1..], sep);
      var t := Join(xs[1..], sep);
      var head := xs[0] + sep;
      var last := xs[|xs| - 1];
      assert xs[1..][|xs[1..]| - 1] == last;
      assert Join(xs, sep) == head + t;
      assert (head + t)[|head + t| - |last|..] == t[|t| - |last|..];
    }
  }

  lemma {:induction false} SplitWithout(s: string, c: char)
    requires c !in s
    ensures Split(s, c) == [s]
    decreases |s|
  {
    if |s| > 0 {
      SplitWithout(s[1..], c);
      assert [s[0]] + s[1..] == s;
    }
  }

  /** Splitting distributes over a separator occurrence. */
  lemma {:induction false} SplitAppend(a: string, b: string, c: char)
    ensures Split(a + [c] + b, c) == Split(a, c) + Split(b, c)
    decreases |a|
  {
    if |a| == 0 {
      assert a + [c] + b == [c] + b;
      assert ([c] + b)[1..] == b;
    } else {
      var s := a + [c] + b;
      SplitAppend(a[1..], b, c);
      assert s[0] == a[0] && s[1..] == a[1..] + [c] + b;
      var ra := Split(a[1..], c);
      var rb := Split(b, c);
      assert Split(s[1..], c) == ra + rb;
      if a[0] != c {
        GlueFirst(a[0], ra, rb);
      } else {
        assert [""] + (ra + rb) == ([""] + ra) + rb;
      }
    }
  }

  /** Gluing a character onto the first piece commutes with appending more pieces. */
  lemma GlueFirst(h: char, ra: seq<string>, rb: seq<string>)
    requires |ra| >= 1
    ensures [[h] + (ra + rb)[0]] + (ra + rb)[1..] == ([[h] + ra[0]] + ra[1..]) + rb
  {
    assert (ra + rb)[0] == ra[0];
    assert (ra + rb)[1..] == ra[1..] + rb;
  }

  /** Splitting a joined list gives the list back. */
  lemma {:induction false} SplitJoin(xs: seq<string>, c: char)
    requires |xs| >= 1
    requires forall k :: 0 <= k < |xs| ==> c !in xs[k]
    ensures Split(Join(xs, [c]), c) == xs
    decreases |xs|
  {
    if |xs| == 1 {
      SplitWithout(xs[0], c);
    } else {
      SplitJoin(xs[1..], c);
      SplitWithout(xs[0], c);
      SplitAppend(xs[0], Join(xs[1..], [c]), c);
      assert [xs[0]] + xs[1..] == xs;
    }
  }

  /** Joining the pieces of a split gives the string back. */
  lemma {:induction false} JoinSplit(s: string, c: char)
    ensures Join(Split(s, c), [c]) == s
    decreases |s|
  {
    if |s| > 0 {
      JoinSplit(s[1..], c);
      var rest := Split(s[1..], c);
      if s[0] == c {
        assert Split(s, c)[1..] == rest;
        assert [s[0]] + s[1..] == s;
      } else {
        var r := Split(s, c);
        assert r[1..] == rest[1..];
        if |rest| == 1 {
          assert [s[0]] + s[1..] == s;
        } else {
          assert Join(rest, [c]) == rest[0] + [c] + Join(rest[1..], [c]);
          assert Join(r, [c]) == r[0] + [c] + Join(r[1..], [c]);
          assert [s[0]] + s[1..] == s;
        }
      }
    }
  }

  // ---------------------------------------------------------------------
  // Lines of a file
  // ---------------------------------------------------------------------

  /**
   * The lines of a text file: the pieces between line feeds, without the
   * empty piece after a final line feed. This is what Python's iteration
   * over a file (`for line in f`, `readlines()`) gives once each line is
   * stripped, and what Go's `bufio.Scanner` with `ScanLines` gives, except
   * that `ScanLines` also drops a carriage return before the line feed,
   * which the trimming of the lines read removes as well. Python's
   * `str.splitlines()`, which breaks at more characters, is
   * `HopByHop.SplitLines`.
   */
  function Lines(s: string): (r: seq<string>)
    ensures forall k :: 0 <= k < |r| ==> '\n' !in r[k]
  {
    var p := Split(s, '\n');
    if p[|p| - 1] == "" then p[..|p| - 1] else p
  }

  /** The lines are the pieces between line feeds, less a final empty piece. */
  lemma LinesOfSplit(s: string)
    ensures var p := Split(s, '\n');
              && (p[|p| - 1] == "" ==> Lines(s) == p[..|p| - 1])
              && (p[|p| - 1] != "" ==> Lines(s) == p)
  {
  }

  /** A file that is empty or ends in a line feed takes a new line cleanly. */
  predicate EndsLine(s: string) {
    s == [] || s[|s| - 1] == '\n'
  }

  /** Appending `l` and a line feed to such a file adds exactly one line, `l`. */
  lemma LinesAppendLine(content: string, l: string)
    requires EndsLine(content)
    requires '\n' !in l
    ensures Lines(content + l + "\n") == Lines(content) + [l]
  {
    SplitOfLine(l);
    if content == [] {
      assert content + l + "\n" == l + "\n";
    } else {
      var front := content[..|content| - 1];
      assert content == front + ['\n'] + "";
      assert content + l + "\n" == front + ['\n'] + (l + "\n");
      LinesAfterLine(front, l);
    }
  }

  /** One line and its line feed split into the line and an empty last piece. */
  lemma SplitOfLine(l: string)
    requires '\n' !in l
    ensures Split(l + "\n", '\n') == [l, ""]
  {
    SplitWithout(l, '\n');
    SplitAppend(l, "", '\n');
    assert l + ['\n'] + "" == l + "\n";
  }

  lemma LinesAfterLine(front: string, l: string)
    requires '\n' !in l && Split(l + "\n", '\n') == [l, ""]
    ensures Lines(front + ['\n'] + (l + "\n")) == Lines(front + ['\n'] + "") + [l]
  {
    SplitAppend(front, "", '\n');
    SplitAppend(front, l + "\n", '\n');
  }

  /** Reading back lines written one per line feed. */
  lemma {:induction false} LinesOfWritten(xs: seq<string>)
    requires forall k :: 0 <= k < |xs| ==> '\n' !in xs[k]
    ensures Lines(Concat(xs, "\n")) == xs
    decreases |xs|
  {
    if |xs| > 0 {
      var front, last := xs[..|xs| - 1], xs[|xs| - 1];
      assert forall k :: 0 <= k < |front| ==> front[k] == xs[k];
      LinesOfWritten(front);
      var c := Concat(front, "\n");
      FrontLast(xs);
      ConcatSnoc(front, last, "\n");
      ConcatEndsLine(front, "\n");
      LinesAppendLine(c, last);
      assert Lines(c + last + "\n") == front + [last];
    }
  }

  /** Each element followed by a terminator, as `for x in xs: f.write(x + t)` writes. */
  function Concat(xs: seq<string>, t: string): (r: string)
    decreases |xs|
  {
    if xs == [] then "" else xs[0] + t + Concat(xs[1..], t)
  }

  lemma {:induction false} ConcatSnoc(xs: seq<string>, x: string, t: string)
    ensures Concat(xs + [x], t) == Concat(xs, t) + x + t
    decreases |xs|
  {
    if xs != [] {
      ConcatSnoc(xs[1..], x, t);
      assert (xs + [x])[1..] == xs[1..] + [x];
    }
  }

  lemma {:induction false} ConcatEndsLine(xs: seq<string>, t: string)
    requires t == "\n"
    ensures EndsLine(Concat(xs, t))
    decreases |xs|
  {
    if xs != [] {
      ConcatEndsLine(xs[1..], t);
    }
  }

  /**
   * The trimmed lines of a file that are not blank, and (when
   * `skipComments`) do not start with `#`, in file order.
   */
  function Entries(lines: seq<string>, skipComments: bool): (r: seq<string>)
    ensures |r| <= |lines|
    decreases |lines|
  {
    if lines == [] then []
    else
      var t := Trim(lines[|lines| - 1]);
      Entries(lines[..|lines| - 1], skipComments) + (if Kept(t, skipComments) then [t] else [])
  }

  /** A non-empty sequence is its front followed by its last element. */
  lemma FrontLast<T>(s: seq<T>)
    requires s != []
    ensures s[..|s| - 1] + [s[|s| - 1]] == s
  {
  }

  /** Reading one more line adds its trimmed text when it is kept. */
  lemma EntriesStep(lines: seq<string>, i: nat, skipComments: bool)
    requires i < |lines|
    ensures var t := Trim(lines[i]);
      Entries(lines[..i + 1], skipComments) ==
        Entries(lines[..i], skipComments) + (if Kept(t, skipComments) then [t] else [])
  {
    assert lines[..i + 1][..i] == lines[..i];
  }

  /** The test an already trimmed line must pass to be an entry. */
  predicate Kept(t: string, skipComments: bool) {
    t != "" && !(skipComments && StartsWith(t, "#"))
  }

  /** Every entry is a kept, trimmed line of the file, and every such line is an entry. */
  lemma {:induction false} EntriesMembers(lines: seq<string>, skipComments: bool, x: string)
    ensures x in Entries(lines, skipComments) <==>
              (Kept(x, skipComments) && exists k :: 0 <= k < |lines| && Trim(lines[k]) == x)
    decreases |lines|
  {
    EntriesAsSelected(lines, skipComments);
    SelectedMembers(lines, Trim, t => Kept(t, skipComments), x);
  }

  /**
   * The values `f` gives the items, where `keep` accepts them, in order.
   * The entries of a file are the trimmed lines that are kept.
   */
  function Selected(items: seq<string>, f: string -> string, keep: string -> bool): (r: seq<string>)
    decreases |items|
  {
    if items == [] then []
    else
      var t := f(items[|items| - 1]);
      Selected(items[..|items| - 1], f, keep) + (if keep(t) then [t] else [])
  }

  lemma {:induction false} EntriesAsSelected(lines: seq<string>, skipComments: bool)
    ensures Entries(lines, skipComments) == Selected(lines, Trim, t => Kept(t, skipComments))
    decreases |lines|
  {
    if lines != [] {
      EntriesAsSelected(lines[..|lines| - 1], skipComments);
    }
  }

  /** A value is selected exactly when `keep` accepts it and `f` gives it for some item. */
  lemma SelectedMembers(items: seq<string>, f: string -> string, keep: string -> bool, x: string)
    ensures x in Selected(items, f, keep) <==> keep(x) && exists k :: 0 <= k < |items| && f(items[k]) == x
  {
    if x in Selected(items, f, keep) {
      var k := SelectedFrom(items, f, keep, x);
    }
    if keep(x) && exists k :: 0 <= k < |items| && f(items[k]) == x {
      var k :| 0 <= k < |items| && f(items[k]) == x;
      SelectedItem(items, f, keep, k);
    }
  }

  /** Every selected value comes from an item, and `keep` accepts it. */
  lemma {:induction false} SelectedFrom(items: seq<string>, f: string -> string, keep: string -> bool, x: string)
    returns (k: nat)
    requires x in Selected(items, f, keep)
    ensures k < |items| && f(items[k]) == x && keep(x)
    decreases |items|
  {
    var n := |items| - 1;
    var front := items[..n];
    var t := f(items[n]);
    if x in Selected(front, f, keep) {
      k := SelectedFrom(front, f, keep, x);
      assert items[k] == front[k];
    } else {
      k := n;
    }
  }

  /** Every accepted value of an item is selected. */
  lemma {:induction false} SelectedItem(items: seq<string>, f: string -> string, keep: string -> bool, k: nat)
    requires k < |items| && keep(f(items[k]))
    ensures f(items[k]) in Selected(items, f, keep)
    decreases |items|
  {
    var n := |items| - 1;
    if k < n {
      var front := items[..n];
      assert front[k] == items[k];
      SelectedItem(front, f, keep, k);
    }
  }

  /** Every entry is trimmed, kept, and without line feeds when the lines have none. */
  lemma {:induction false} EntriesShape(lines: seq<string>, skipComments: bool)
    requires forall k :: 0 <= k < |lines| ==> '\n' !in lines[k]
    ensures forall k :: 0 <= k < |Entries(lines, skipComments)| ==>
              var e := Entries(lines, skipComments)[k];
              Kept(e, skipComments) && IsTrimmed(e) && '\n' !in e
    decreases |lines|
  {
    if lines != [] {
      var last := lines[|lines| - 1];
      EntriesShape(lines[..|lines| - 1], skipComments);
    }
  }

  /** Entries that are already clean come back unchanged. */
  lemma {:induction false} EntriesOfClean(xs: seq<string>, skipComments: bool)
    requires forall k :: 0 <= k < |xs| ==> Kept(xs[k], skipComments) && IsTrimmed(xs[k])
    ensures Entries(xs, skipComments) == xs
    decreases |xs|
  {
    if xs != [] {
      var front, last := xs[..|xs| - 1], xs[|xs| - 1];
      EntriesOfClean(front, skipComments);
      TrimOfTrimmed(last);
      assert Entries(xs, skipComments) == Entries(front, skipComments) + [last];
      FrontLast(xs);
    }
  }

  /** Clean entries joined by line feeds (no final one) read back as themselves. */
  lemma EntriesOfJoined(xs: seq<string>, skipComments: bool)
    requires forall k :: 0 <= k < |xs| ==> Kept(xs[k], skipComments) && IsTrimmed(xs[k]) && '\n' !in xs[k]
    ensures Entries(Lines(Join(xs, "\n")), skipComments) == xs
  {
    if xs != [] {
      SplitJoin(xs, '\n');
      assert Lines(Join(xs, "\n")) == xs;
    }
    EntriesOfClean(xs, skipComments);
  }

  /** A non-empty text without line feeds is one line, with or without a final line feed. */
  lemma LinesOfLine(l: string)
    requires l != "" && '\n' !in l
    ensures Lines(l) == [l]
    ensures Lines(l + "\n") == [l]
  {
    SplitWithout(l, '\n');
    SplitWithout("", '\n');
    SplitAppend(l, "", '\n');
    assert l + ['\n'] + "" == l + "\n";
  }

  /** A single clean line, with or without its line feed, is one entry. */
  lemma EntriesOfLine(l: string, skipComments: bool)
    requires Kept(l, skipComments) && IsTrimmed(l) && '\n' !in l
    ensures Entries(Lines(l), skipComments) == [l]
    ensures Entries(Lines(l + "\n"), skipComments) == [l]
  {
    LinesOfLine(l);
    EntriesOfClean([l], skipComments);
  }

  // ---------------------------------------------------------------------
  // Substring search
  // ---------------------------------------------------------------------

  predicate OccursAt(s: string, pat: string, i: int) {
    0 <= i && i + |pat| <= |s| && s[i..i + |pat|] == pat
  }

  /** The first index where `pat` occurs in `s`, or -1. */
  function IndexOf(s: string, pat: string): (r: int)
    ensures -1 <= r <= |s|
    ensures r >= 0 ==> OccursAt(s, pat, r)
    ensures forall j :: 0 <= j && (r < 0 || j < r) ==> !OccursAt(s, pat, j)
    decreases |s|
  {
    if |s| < |pat| then -1
    else if s[..|pat|] == pat then 0
    else
      var k := IndexOf(s[1..], pat);
      assert forall j :: 1 <= j ==> (OccursAt(s, pat, j) <==> OccursAt(s[1..], pat, j - 1)) by {
        forall j | 1 <= j ensures OccursAt(s, pat, j) <==> OccursAt(s[1..], pat, j - 1) {
          OccursInTail(s, pat, j - 1);
        }
      }
      if k < 0 then -1 else k + 1
  }

  /** An occurrence in the tail is one in the whole, a place further on. */
  lemma OccursInTail(s: string, pat: string, j: int)
    requires s != [] && 0 <= j
    ensures OccursAt(s[1..], pat, j) <==> OccursAt(s, pat, j + 1)
  {
    if j + |pat| <= |s| - 1 {
      assert s[1..][j..j + |pat|] == s[j + 1..j + 1 + |pat|];
    }
  }

  /** `pat` first occurs at `k` when its first character does not occur before `k`. */
  lemma IndexOfAt(s: string, pat: string, k: nat)
    requires pat != [] && OccursAt(s, pat, k) && pat[0] !in s[..k]
    ensures IndexOf(s, pat) == k
  {
  }

  /** A pattern whose first character is absent does not occur. */
  lemma IndexOfAbsent(s: string, pat: string)
    requires pat != [] && pat[0] !in s
    ensures IndexOf(s, pat) < 0
  {
  }

  /** Python's `pat in s`. */
  predicate Contains(s: string, pat: string) {
    IndexOf(s, pat) >= 0
  }

  /** A character of `s` is a one-character substring of it. */
  lemma ContainsChar(s: string, c: char)
    requires c in s
    ensures Contains(s, [c])
  {
    var k :| 0 <= k < |s| && s[k] == c;
    assert s[k..k + 1] == [c];
    assert OccursAt(s, [c], k);
  }

  /**
   * Python's `s.split(sep)` for a non-empty separator: the pieces between
   * the non-overlapping occurrences of `sep`, scanned from the left.
   */
  function SplitOn(s: string, sep: string): (r: seq<string>)
    requires |sep| > 0
    ensures |r| >= 1
    decreases |s|
  {
    var i := IndexOf(s, sep);
    if i < 0 then [s] else [s[..i]] + SplitOn(s[i + |sep|..], sep)
  }

  /** Python's `s.replace(pat, "")` for a non-empty pattern. */
  function RemoveAll(s: string, pat: string): (r: string)
    requires |pat| > 0
    ensures |r| <= |s|
    ensures !Contains(s, pat) ==> r == s
    decreases |s|
  {
    var i := IndexOf(s, pat);
    if i < 0 then s else s[..i] + RemoveAll(s[i + |pat|..], pat)
  }

  /** Removing a pattern never removes a character the pattern does not contain. */
  lemma {:induction false} RemoveAllKeepsChar(s: string, pat: string, c: char)
    requires |pat| > 0 && c in s && c !in pat
    ensures c in RemoveAll(s, pat)
    decreases |s|
  {
    var i := IndexOf(s, pat);
    if i >= 0 {
      var rest := s[i + |pat|..];
      assert s == s[..i] + s[i..i + |pat|] + rest;
      assert RemoveAll(s, pat) == s[..i] + RemoveAll(rest, pat);
      if c !in s[..i] {
        RemoveAllKeepsChar(rest, pat, c);
      }
    }
  }

  // ---------------------------------------------------------------------
  // Whitespace tokens
  // ---------------------------------------------------------------------

  /** Length of the run of non-space characters that starts `s`. */
  function WordLength(s: string): (n: nat)
    requires s != [] && s[0] !in Whitespace
    ensures 1 <= n <= |s| && NoSpace(s[..n]) && (n == |s| || s[n] in Whitespace)
    decreases |s|
  {
    if |s| == 1 || s[1] in Whitespace then 1 else 1 + WordLength(s[1..])
  }

  /** Go's `strings.Fields`: the maximal runs of non-space characters. */
  function Fields(s: string): (r: seq<string>)
    ensures forall k :: 0 <= k < |r| ==> r[k] != [] && NoSpace(r[k])
    decreases |s|
  {
    if s == [] then []
    else if s[0] in Whitespace then Fields(s[1..])
    else
      var n := WordLength(s);
      var rest := Fields(s[n..]);
      assert forall k :: 0 < k <= |rest| ==> ([s[..n]] + rest)[k] == rest[k - 1];
      [s[..n]] + rest
  }

  /** A single word with no whitespace is its own only field. */
  lemma FieldsOfWord(s: string)
    requires s != [] && NoSpace(s)
    ensures Fields(s) == [s]
  {
    var n := WordLength(s);
    assert n == |s|;
    assert s[..n] == s && s[n..] == [];
  }

  // ---------------------------------------------------------------------
  // String order (Go's and Python's byte-wise comparison of strings)
  // ---------------------------------------------------------------------

  /** Lexicographic order on character codes; a proper prefix comes first. */
  predicate Less(a: string, b: string)
    decreases |a|
  {
    if |a| == 0 then |b| > 0
    else |b| > 0 && (a[0] < b[0] || (a[0] == b[0] && Less(a[1..], b[1..])))
  }

  lemma LessIrreflexive(a: string)
    ensures !Less(a, a)
  {
  }

  lemma {:induction false} LessTransitive(a: string, b: string, c: string)
    requires Less(a, b) && Less(b, c)
    ensures Less(a, c)
    decreases |a|
  {
    if |a| > 0 && a[0] == b[0] && b[0] == c[0] {
      LessTransitive(a[1..], b[1..], c[1..]);
    }
  }

  lemma {:induction false} LessTotal(a: string, b: string)
    requires a != b
    ensures Less(a, b) || Less(b, a)
    decreases |a|
  {
    if |a| > 0 && |b| > 0 && a[0] == b[0] {
      assert a == [a[0]] + a[1..] && b == [b[0]] + b[1..];
      LessTotal(a[1..], b[1..]);
    }
  }

  /** Strictly ascending, hence also free of duplicates. */
  predicate StrictlySorted(s: seq<string>) {
    forall i, j :: 0 <= i < j < |s| ==> Less(s[i], s[j])
  }

  /** Places `x` into a strictly ascending sequence that lacks it. */
  function Insert(s: seq<string>, x: string): (r: seq<string>)
    requires StrictlySorted(s) && x !in s
    ensures StrictlySorted(r)
    ensures |r| == |s| + 1
    ensures forall y :: y in r <==> y in s || y == x
    decreases |s|
  {
    if s == [] then [x]
    else if Less(x, s[0]) then
      assert forall j :: 0 < j < |s| ==> Less(x, s[j]) by {
        forall j | 0 < j < |s| ensures Less(x, s[j]) {
          LessTransitive(x, s[0], s[j]);
        }
      }
      [x] + s
    else
      LessTotal(x, s[0]);
      var rest := Insert(s[1..], x);
      assert forall y :: y in rest ==> Less(s[0], y);
      [s[0]] + rest
  }

  /** A strictly ascending sequence is fixed by its set of elements. */
  lemma {:induction false} SortedUnique(a: seq<string>, b: seq<string>)
    requires StrictlySorted(a) && StrictlySorted(b)
    requires forall y :: y in a <==> y in b
    ensures a == b
    decreases |a|
  {
    if a != [] {
      assert a[0] in a;
    }
    if b != [] {
      assert b[0] in b;
    }
    if a != [] && b != [] {
      if a[0] != b[0] {
        assert b[0] in a && a[0] in b;
        var i :| 0 <= i < |a| && a[i] == b[0];
        var j :| 0 <= j < |b| && b[j] == a[0];
        assert i > 0 && j > 0;
        LessTransitive(a[0], b[0], a[0]);
        LessIrreflexive(a[0]);
      }
      forall y ensures y in a[1..] <==> y in b[1..] {
        if y in a[1..] {
          var i :| 1 <= i < |a| && a[i] == y;
          assert Less(a[0], y) && y in a;
          assert y != b[0] by { LessIrreflexive(y); }
          var j :| 0 <= j < |b| && b[j] == y;
          assert b[1..][j - 1] == y;
        }
        if y in b[1..] {
          var i :| 1 <= i < |b| && b[i] == y;
          assert Less(b[0], y) && y in b;
          assert y != a[0] by { LessIrreflexive(y); }
          var j :| 0 <= j < |a| && a[j] == y;
          assert a[1..][j - 1] == y;
        }
      }
      SortedUnique(a[1..], b[1..]);
    }
  }

  // ---------------------------------------------------------------------
  // Decimal numbers
  // ---------------------------------------------------------------------

  predicate IsDigit(c: char) {
    '0' <= c <= '9'
  }

  function DigitChar(d: nat): (c: char)
    requires d < 10
    ensures IsDigit(c)
  {
    ('0' as int + d) as char
  }

  /** The decimal digits of `n`, most significant first, without leading zeros. */
  function DecimalDigits(n: nat): (r: string)
    ensures |r| >= 1
    ensures forall i :: 0 <= i < |r| ==> IsDigit(r[i])
    decreases n
  {
    if n < 10 then [DigitChar(n)] else DecimalDigits(n / 10) + [DigitChar(n % 10)]
  }

  /** The value of a string of decimal digits. */
  function DecimalValue(s: string): nat
    requires forall i :: 0 <= i < |s| ==> IsDigit(s[i])
    decreases |s|
  {
    if s == [] then 0
    else
      assert IsDigit(s[|s| - 1]);
      DecimalValue(s[..|s| - 1]) * 10 + (s[|s| - 1] as int - '0' as int)
  }

  lemma {:induction false} DecimalRoundTrip(n: nat)
    ensures DecimalValue(DecimalDigits(n)) == n
    decreases n
  {
    if n >= 10 {
      DecimalRoundTrip(n / 10);
      var d := DecimalDigits(n);
      assert d[..|d| - 1] == DecimalDigits(n / 10);
    }
  }

  /** Go's `%d` and Python's `f"{n}"` for an integer. */
  function IntToString(n: int): (r: string)
    ensures r != [] && (r[0] == '-' <==> n < 0)
  {
    if n < 0 then "-" + DecimalDigits(-n) else DecimalDigits(n)
  }

  /** Different integers render differently, so they name different files. */
  lemma IntToStringInjective(a: int, b: int)
    requires IntToString(a) == IntToString(b)
    ensures a == b
  {
    if a < 0 {
      assert b < 0;
      var s := IntToString(a);
      assert s == "-" + DecimalDigits(-a) == "-" + DecimalDigits(-b);
      assert DecimalDigits(-a) == s[1..];
      assert DecimalDigits(-b) == s[1..];
      DecimalDigitsInjective(-a, -b);
    } else {
      assert b >= 0;
      DecimalDigitsInjective(a, b);
    }
  }

  lemma DecimalDigitsInjective(m: nat, n: nat)
    requires DecimalDigits(m) == DecimalDigits(n)
    ensures m == n
  {
    DecimalRoundTrip(m);
    DecimalRoundTrip(n);
  }
}
