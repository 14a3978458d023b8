/**
 * The shell-style `utils.conf` reader shared by the Python helper scripts
 * (`read_conf` in utils/request_smuggling.py and utils/cloudflare.py).
 * A file is read line by line; each non-blank, non-comment line holding an
 * `=` sets one key, and a later line overwrites an earlier one.
 */
module ConfFile {
  import opened Text

  /** The characters `str.strip('"\'')` removes from both ends of a value. */
  const QuoteChars: set<char> := {'"', '\''}

  datatype Setting = Setting(key: string, value: string)

  /** The line can set a key: it is not blank, not a comment, and holds an `=`. */
  predicate Assigns(line: string) {
    var t := Trim(line);
    t != "" && !StartsWith(t, "#") && '=' in t
  }

  /**
   * One line of the file. The stripped line is cut at its first `=`; the key
   * is stripped, the value is stripped of whitespace and then of quote
   * characters. With `removeExport` (the Cloudflare reader) every occurrence
   * of `export` is deleted from the line before it is cut.
   */
  function ConfEntry(line: string, removeExport: bool): (r: Option<Setting>)
    ensures r.Some? <==> Assigns(line)
    ensures r.Some? ==> IsTrimmed(r.value.key) && '=' !in r.value.key
    ensures r.Some? ==> var v := r.value.value;
      v == [] || (v[0] !in QuoteChars && v[|v| - 1] !in QuoteChars)
  {
    if !Assigns(line) then None
    else
      PreparedKeepsEquals(line, removeExport);
      Some(Cut(Prepared(line, removeExport)))
  }

  /** The stripped line, with every `export` deleted when `removeExport`. */
  function Prepared(line: string, removeExport: bool): string {
    var t := Trim(line);
    if removeExport then RemoveAll(t, "export") else t
  }

  /** Deleting `export` keeps the `=` of an assigning line. */
  lemma PreparedKeepsEquals(line: string, removeExport: bool)
    requires Assigns(line)
    ensures '=' in Prepared(line, removeExport)
  {
    if removeExport {
      RemoveAllKeepsChar(Trim(line), "export", '=');
    }
  }

  /** The setting of a prepared line: its two sides around the first `=`. */
  function Cut(u: string): (s: Setting)
    requires '=' in u
    ensures IsTrimmed(s.key) && '=' !in s.key
    ensures s.value == [] || (s.value[0] !in QuoteChars && s.value[|s.value| - 1] !in QuoteChars)
  {
    var i := FirstEquals(u);
    var left := u[..i];
    var key := Trim(left);
    assert '=' in key ==> '=' in left;
    Setting(key, Strip(Trim(u[i + 1..]), QuoteChars))
  }

  /** The index of the first `=` of a line that holds one. */
  function FirstEquals(u: string): (i: nat)
    requires '=' in u
    ensures i < |u| && u[i] == '=' && '=' !in u[..i]
  {
    ContainsChar(u, '=');
    var i := IndexOf(u, "=");
    assert u[i..i + 1] == "=";
    assert '=' !in u[..i] by {
      forall j | 0 <= j < i ensures u[j] != '=' {
        assert !OccursAt(u, "=", j);
        assert u[j..j + 1] == [u[j]];
      }
    }
    i
  }

  /** The settings after one more entry. */
  function Assign(config: map<string, string>, entry: Option<Setting>): map<string, string> {
    if entry.None? then config else config[entry.value.key := entry.value.value]
  }

  /** The settings a sequence of entries makes: a later entry overwrites an earlier one. */
  function Settings(entries: seq<Option<Setting>>): map<string, string>
    decreases |entries|
  {
    if entries == [] then map[]
    else Assign(Settings(entries[..|entries| - 1]), entries[|entries| - 1])
  }

  /** The entry of each line of a file. */
  function ConfEntries(lines: seq<string>, removeExport: bool): (es: seq<Option<Setting>>)
    ensures |es| == |lines|
    decreases |lines|
  {
    if lines == [] then []
    else ConfEntries(lines[..|lines| - 1], removeExport) + [ConfEntry(lines[|lines| - 1], removeExport)]
  }

  /** The settings of a file whose lines are `lines`. */
  function Conf(lines: seq<string>, removeExport: bool): map<string, string> {
    Settings(ConfEntries(lines, removeExport))
  }

  /**
   * `read_conf`: a file that cannot be opened (`None`) gives no settings;
   * otherwise the settings of its lines.
   */
  method ReadConf(content: Option<string>, removeExport: bool) returns (config: map<string, string>)
    ensures content.None? ==> config == map[]
    ensures content.Some? ==> config == Conf(Lines(content.value), removeExport)
  {
    config := map[];
    if content.Some? {
      config := ReadSettings(Lines(content.value), removeExport);
    }
  }

  /** The loop of `read_conf` over the lines of an opened file. */
  method ReadSettings(lines: seq<string>, removeExport: bool) returns (config: map<string, string>)
    ensures config == Conf(lines, removeExport)
  {
    config := map[];
    var i := 0;
    while i < |lines|
      invariant 0 <= i <= |lines|
      invariant config == Conf(lines[..i], removeExport)
    {
      var entry := ConfEntry(lines[i], removeExport);
      assert lines[..i + 1][..i] == lines[..i];
      SettingsSnoc(ConfEntries(lines[..i], removeExport), entry);
      config := Assign(config, entry);
      i := i + 1;
    }
    assert lines[..|lines|] == lines;
  }

  /** One more entry is one more assignment. */
  lemma SettingsSnoc(entries: seq<Option<Setting>>, entry: Option<Setting>)
    ensures Settings(entries + [entry]) == Assign(Settings(entries), entry)
  {
    assert (entries + [entry])[..|entries|] == entries;
  }

  /** The entry of line `i` is the `i`-th entry. */
  lemma {:induction false} ConfEntriesAt(lines: seq<string>, removeExport: bool, i: nat)
    requires i < |lines|
    ensures ConfEntries(lines, removeExport)[i] == ConfEntry(lines[i], removeExport)
    decreases |lines|
  {
    if i < |lines| - 1 {
      var init := lines[..|lines| - 1];
      assert init[i] == lines[i];
      ConfEntriesAt(init, removeExport, i);
    }
  }

  /** The entry sets key `k`. */
  predicate SetsKey(entry: Option<Setting>, k: string) {
    entry.Some? && entry.value.key == k
  }

  /** A key is set exactly when some entry sets it. */
  lemma {:induction false} SettingsKeys(entries: seq<Option<Setting>>, k: string)
    ensures k in Settings(entries) <==> exists i :: 0 <= i < |entries| && SetsKey(entries[i], k)
    decreases |entries|
  {
    if entries != [] {
      var last := |entries| - 1;
      var init := entries[..last];
      SettingsKeys(init, k);
      if k in Settings(entries) {
        if !SetsKey(entries[last], k) {
          var i :| 0 <= i < |init| && SetsKey(init[i], k);
          assert init[i] == entries[i];
        }
      } else {
        forall i | 0 <= i < |entries| ensures !SetsKey(entries[i], k) {
          if i < last {
            assert init[i] == entries[i];
          }
        }
      }
    }
  }

  /** A key keeps the value of the last entry that sets it. */
  lemma {:induction false} SettingsLastWins(entries: seq<Option<Setting>>, i: nat)
    requires i < |entries| && entries[i].Some?
    requires forall j :: i < j < |entries| ==> !SetsKey(entries[j], entries[i].value.key)
    ensures var s := entries[i].value;
      s.key in Settings(entries) && Settings(entries)[s.key] == s.value
    decreases |entries|
  {
    var last := |entries| - 1;
    if i < last {
      var init := entries[..last];
      assert init[i] == entries[i];
      SettingsLastWins(init, i);
    }
  }

  /** A key that is read back unchanged: no `=`, no `#` in front, no surrounding space. */
  predicate CleanKey(key: string) {
    key != "" && IsTrimmed(key) && '=' !in key && key[0] != '#'
  }

  /** A value that is read back unchanged: no surrounding space or quote characters. */
  predicate CleanValue(value: string) {
    value == [] || (value[0] !in Whitespace + QuoteChars && value[|value| - 1] !in Whitespace + QuoteChars)
  }

  /** The first `=` is at `k` when there is none before it. */
  lemma FirstEqualsAt(u: string, k: nat)
    requires k < |u| && u[k] == '=' && '=' !in u[..k]
    ensures '=' in u && FirstEquals(u) == k
  {
    assert u[k] in u;
    var i := FirstEquals(u);
  }

  /** The entry of an assigning line whose prepared text `u` has its first `=` at `i`. */
  lemma ConfEntryCut(line: string, removeExport: bool, u: string, i: nat)
    requires Assigns(line)
    requires u == if removeExport then RemoveAll(Trim(line), "export") else Trim(line)
    requires i < |u| && u[i] == '=' && '=' !in u[..i]
    ensures ConfEntry(line, removeExport) == Some(Setting(Trim(u[..i]), Strip(Trim(u[i + 1..]), QuoteChars)))
  {
    FirstEqualsAt(u, i);
    assert ConfEntry(line, removeExport) == Some(Cut(u));
  }

  /** A trimmed line that does not start with `#` and holds an `=` assigns. */
  lemma TrimmedAssigns(line: string, i: nat)
    requires line != [] && IsTrimmed(line) && line[0] != '#'
    requires i < |line| && line[i] == '='
    ensures Assigns(line) && Trim(line) == line
  {
    TrimOfTrimmed(line);
    StartsWithFirst(line, "#");
  }

  /** Where the `=` of `KEY=value` and its two sides are. */
  lemma AssignmentPieces(key: string, value: string)
    ensures var u := key + "=" + value;
      u[|key|] == '=' && u[..|key|] == key && u[|key| + 1..] == value
  {
  }

  /** A clean `KEY=...` line passes the blank, comment and `=` tests. */
  lemma AssignmentAssigns(key: string, rest: string)
    requires CleanKey(key) && (rest == [] || rest[|rest| - 1] !in Whitespace)
    ensures var t := key + "=" + rest;
      Trim(t) == t && Assigns(t) && FirstEquals(t) == |key| && t[..|key|] == key && t[|key| + 1..] == rest
  {
    var t := key + "=" + rest;
    assert t[0] == key[0];
    assert t[|t| - 1] == if rest == [] then '=' else rest[|rest| - 1];
    AssignmentPieces(key, rest);
    TrimmedAssigns(t, |key|);
    FirstEqualsAt(t, |key|);
  }

  /** `KEY=value` reads back as the setting it writes. */
  lemma ConfEntryOfAssignment(key: string, value: string)
    requires CleanKey(key) && CleanValue(value)
    ensures ConfEntry(key + "=" + value, false) == Some(Setting(key, value))
  {
    var t := key + "=" + value;
    AssignmentAssigns(key, value);
    assert Prepared(t, false) == t;
    TrimOfTrimmed(key);
    TrimOfTrimmed(value);
    assert Strip(value, QuoteChars) == value;
    CutOfPieces(t, |key|, key, value);
  }

  /** The setting of a line whose first `=` is at `k` and whose sides need no trimming. */
  lemma CutOfPieces(u: string, k: nat, key: string, value: string)
    requires '=' in u && FirstEquals(u) == k
    requires u[..k] == key && u[k + 1..] == value
    requires Trim(key) == key && Trim(value) == value && Strip(value, QuoteChars) == value
    ensures Cut(u) == Setting(key, value)
  {
  }

  /** `KEY="value"` also reads back: the surrounding quotes are dropped. */
  lemma QuotedAssignment(key: string, value: string)
    requires CleanKey(key) && CleanValue(value) && value != []
    ensures ConfEntry(key + "=\"" + value + "\"", false) == Some(Setting(key, value))
  {
    var q := "\"" + value + "\"";
    assert key + "=\"" + value + "\"" == key + "=" + q;
    AssignmentAssigns(key, q);
    TrimOfTrimmed(key);
    assert IsTrimmed(q);
    TrimOfTrimmed(q);
    StripQuotes(value);
  }

  /** Quote characters around a clean value are stripped, and nothing else. */
  lemma StripQuotes(value: string)
    requires CleanValue(value) && value != []
    ensures Strip("\"" + value + "\"", QuoteChars) == value
  {
    var q := "\"" + value + "\"";
    var l := StripLeft(q, QuoteChars);
    assert |l| == |q| - 1 by {
      assert q[0] in QuoteChars;
      assert q[1] == value[0];
    }
    assert l == value + "\"";
    var r := StripRight(l, QuoteChars);
    assert |r| == |l| - 1 by {
      assert l[|l| - 1] in QuoteChars;
      assert l[|l| - 2] == value[|value| - 1];
    }
    assert r == value;
  }

  /** A file of one line makes the setting of that line. */
  lemma ConfOfOneLine(l: string, removeExport: bool)
    ensures Conf([l], removeExport) == Assign(map[], ConfEntry(l, removeExport))
  {
    EntriesOfOneLine(l, removeExport);
    SettingsOfOne(ConfEntry(l, removeExport));
  }

  lemma EntriesOfOneLine(l: string, removeExport: bool)
    ensures ConfEntries([l], removeExport) == [ConfEntry(l, removeExport)]
  {
    assert [l][..0] == [];
  }

  lemma SettingsOfOne(e: Option<Setting>)
    ensures Settings([e]) == Assign(map[], e)
  {
    assert [e][..0] == [];
  }

  /** A file holding one clean `KEY=value` line sets exactly that key. */
  lemma ReadOneAssignment(key: string, value: string)
    requires CleanKey(key) && CleanValue(value) && '\n' !in key && '\n' !in value
    ensures Conf(Lines(key + "=" + value + "\n"), false) == map[key := value]
  {
    var l := key + "=" + value;
    assert '\n' !in l;
    LinesOfLine(l);
    ConfOfOneLine(l, false);
    ConfEntryOfAssignment(key, value);
  }

  /** Deleting `export` from a text that holds it once, with no other `e`. */
  lemma RemoveExportOnce(a: string, b: string)
    requires 'e' !in a && 'e' !in b
    ensures RemoveAll(a + "export" + b, "export") == a + b
  {
    var line := a + "export" + b;
    var p := |a|;
    assert line[p..p + 6] == "export";
    assert line[..p] == a;
    IndexOfAt(line, "export", p);
    assert line[p + 6..] == b;
    IndexOfAbsent(b, "export");
    assert RemoveAll(b, "export") == b;
    assert RemoveAll(line, "export") == line[..p] + RemoveAll(line[p + 6..], "export");
  }

  /** How `export KEY=value` is laid out. */
  lemma ExportLineShape(key: string, value: string)
    requires value != []
    ensures var line := "export " + key + "=" + value;
      line == [] + "export" + (" " + key + "=" + value) &&
      line[0] == 'e' && line[|line| - 1] == value[|value| - 1] && line[7 + |key|] == '=' &&
      ('=' !in " " + key || '=' in key)
  {
  }

  /**
   * The Cloudflare reader deletes a leading `export `, as in a shell file
   * that exports its settings.
   */
  lemma ExportPrefixRemoved(key: string, value: string)
    requires CleanKey(key) && CleanValue(value) && value != []
    requires 'e' !in key && 'e' !in value
    ensures ConfEntry("export " + key + "=" + value, true) == Some(Setting(key, value))
  {
    var k := " " + key;
    var rest := k + "=" + value;
    var line := "export " + key + "=" + value;
    assert Assigns(line) && RemoveAll(Trim(line), "export") == rest by {
      ExportLineShape(key, value);
      TrimmedAssigns(line, 7 + |key|);
      RemoveExportOnce([], rest);
    }
    assert rest[|k|] == '=' && '=' !in rest[..|k|] &&
      Trim(rest[..|k|]) == key && Strip(Trim(rest[|k| + 1..]), QuoteChars) == value by {
      AssignmentPieces(k, value);
      ExportLineShape(key, value);
      TrimDropsLeadingSpace(key);
      TrimOfTrimmed(value);
    }
    ConfEntryCut(line, true, rest, |k|);
  }

  /** How `KEY=exportvalue` is laid out. */
  lemma ValueExportShape(key: string, value: string)
    requires key != [] && value != []
    ensures var line := key + "=export" + value;
      line == (key + "=") + "export" + value &&
      line[0] == key[0] && line[|line| - 1] == value[|value| - 1] && line[|key|] == '='
  {
  }

  /**
   * It deletes `export` anywhere else too: inside a value it is cut out
   * (the other reader keeps it, by `ConfEntryOfAssignment`).
   */
  lemma ExportRemovedFromValue(key: string, value: string)
    requires CleanKey(key) && 'e' !in key && CleanValue(value) && value != []
    requires 'e' !in value
    ensures ConfEntry(key + "=export" + value, true) == Some(Setting(key, value))
  {
    var line := key + "=export" + value;
    var u := key + "=" + value;
    assert Assigns(line) && RemoveAll(Trim(line), "export") == u by {
      ValueExportShape(key, value);
      TrimmedAssigns(line, |key|);
      RemoveExportOnce(key + "=", value);
    }
    assert u[|key|] == '=' && '=' !in u[..|key|] &&
      Trim(u[..|key|]) == key && Strip(Trim(u[|key| + 1..]), QuoteChars) == value by {
      AssignmentPieces(key, value);
      TrimOfTrimmed(key);
      TrimOfTrimmed(value);
    }
    ConfEntryCut(line, true, u, |key|);
  }
}
