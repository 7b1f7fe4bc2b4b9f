/**
 * The string logic of the master's Django views: filtering a client's log by
 * a search query, the prefix check of `safe_join`, and matching and removing
 * a client's rule in `/etc/exports`. File contents are passed in; a read or
 * write that fails is a flag.
 */
module Views {
  import Text

  // ---------------------------------------------------------------------
  // Log filtering (filter_logs, view_logs)
  // ---------------------------------------------------------------------

  /** The characters Python's `str.splitlines` breaks on ("\r\n" counts once). */
  predicate LineBoundary(c: char)
  {
    c == '\n' || c == '\r' || c == '\U{B}' || c == '\U{C}' || '\U{1C}' <= c <= '\U{1E}'
    || c == '\U{85}' || c == '\U{2028}' || c == '\U{2029}'
  }

  predicate NoBreak(line: string)
  {
    forall j :: 0 <= j < |line| ==> !LineBoundary(line[j])
  }

  /** The length of the first line of `s`: the index of its first boundary, or `|s|`. */
  function LineLength(s: string): (k: nat)
    ensures k <= |s| && NoBreak(s[..k])
    ensures k < |s| ==> LineBoundary(s[k])
    decreases |s|
  {
    if s == [] || LineBoundary(s[0]) then 0
    else
      var k := 1 + LineLength(s[1..]);
      assert s[..k] == [s[0]] + s[1..][..k - 1];
      k
  }

  /**
   * `s.splitlines()`: the lines without their ends; no line for the empty
   * text and none after a final line end.
   */
  function SplitLines(s: string): (r: seq<string>)
    ensures forall i :: 0 <= i < |r| ==> NoBreak(r[i])
    ensures r == [] <==> s == []
    decreases |s|
  {
    if s == [] then []
    else
      var k := LineLength(s);
      if k == |s| then [s]
      else
        var step := if s[k] == '\r' && k + 1 < |s| && s[k + 1] == '\n' then 2 else 1;
        [s[..k]] + SplitLines(s[k + step..])
  }

  lemma {:induction false} LineLengthOfLine(x: string, c: char, t: string)
    requires NoBreak(x) && LineBoundary(c)
    ensures LineLength(x + [c] + t) == |x|
    decreases |x|
  {
    if x != [] {
      assert (x + [c] + t)[1..] == x[1..] + [c] + t;
      LineLengthOfLine(x[1..], c, t);
    }
  }

  lemma {:induction false} LineLengthNoBreak(x: string)
    requires NoBreak(x)
    ensures LineLength(x) == |x|
    decreases |x|
  {
    if x != [] {
      LineLengthNoBreak(x[1..]);
    }
  }

  /** Lines without breaks, the last one non-empty, are what `splitlines` gives back from their "\n"-join. */
  lemma {:induction false} SplitLinesOfJoin(lines: seq<string>)
    requires |lines| >= 1 && lines[|lines| - 1] != []
    requires forall i :: 0 <= i < |lines| ==> NoBreak(lines[i])
    ensures SplitLines(Text.Join(lines, '\n')) == lines
    decreases |lines|
  {
    if |lines| == 1 {
      LineLengthNoBreak(lines[0]);
    } else {
      var rest := Text.Join(lines[1..], '\n');
      var s := Text.Join(lines, '\n');
      assert s == lines[0] + ['\n'] + rest;
      LineLengthOfLine(lines[0], '\n', rest);
      assert s[|lines[0]| + 1..] == rest;
      assert s[..|lines[0]|] == lines[0];
      SplitLinesOfJoin(lines[1..]);
      assert [lines[0]] + lines[1..] == lines;
    }
  }

  /** Whether one line matches a query already lower-cased. */
  function MatchesLower(lowerQuery: string): string -> bool
  {
    line => Text.Contains(Text.Lower(line), lowerQuery)
  }

  /** The log lines `filter_logs` keeps, in their order. */
  function MatchingLines(logs: string, query: string): seq<string>
  {
    Text.Filter(SplitLines(logs), MatchesLower(Text.Lower(query)))
  }

  /** `filter_logs(logs, search_query)`. */
  function FilterLogs(logs: string, query: string): string
  {
    Text.Join(MatchingLines(logs, query), '\n')
  }

  /**
   * What `view_logs` shows for one `log.txt`, whose text as `read()` returns
   * it (newlines already translated, see `Universal`) is `logs`: filtered
   * only when the stripped query is not empty.
   */
  function ViewLog(logs: string, rawQuery: string): string
  {
    var query := Text.Strip(rawQuery);
    if query == [] then logs else FilterLogs(logs, query)
  }

  lemma MatchIsNonEmpty(line: string, query: string)
    requires query != [] && MatchesLower(Text.Lower(query))(line)
    ensures line != []
  {
    var k :| 0 <= k <= |Text.Lower(line)| - |Text.Lower(query)| && Text.OccursAt(Text.Lower(line), Text.Lower(query), k);
  }

  /**
   * For a non-empty query the filtered log's lines are exactly the input lines
   * that contain the query ignoring case: each output line is such an input
   * line, every such input line is in the output, and their order is kept.
   */
  lemma FilterLogsLines(logs: string, query: string)
    requires query != []
    ensures SplitLines(FilterLogs(logs, query)) == MatchingLines(logs, query)
    ensures forall i :: 0 <= i < |MatchingLines(logs, query)| ==>
      MatchingLines(logs, query)[i] in SplitLines(logs) &&
      Text.Contains(Text.Lower(MatchingLines(logs, query)[i]), Text.Lower(query))
    ensures forall line :: line in SplitLines(logs) && Text.Contains(Text.Lower(line), Text.Lower(query)) ==>
      line in MatchingLines(logs, query)
  {
    var kept := MatchingLines(logs, query);
    if kept != [] {
      MatchIsNonEmpty(kept[|kept| - 1], query);
      forall i | 0 <= i < |kept| ensures NoBreak(kept[i]) {
        assert kept[i] in SplitLines(logs);
      }
      SplitLinesOfJoin(kept);
    }
    forall line | line in SplitLines(logs) && Text.Contains(Text.Lower(line), Text.Lower(query))
      ensures line in kept
    {
      assert MatchesLower(Text.Lower(query))(line);
    }
  }

  /** Filtering a filtered log again by the same query changes nothing. */
  lemma FilterLogsIdempotent(logs: string, query: string)
    requires query != []
    ensures FilterLogs(FilterLogs(logs, query), query) == FilterLogs(logs, query)
  {
    FilterLogsLines(logs, query);
    Text.FilterIdempotent(SplitLines(logs), MatchesLower(Text.Lower(query)));
  }

  /** The query's case does not matter. */
  lemma FilterLogsIgnoresQueryCase(logs: string, query: string)
    ensures FilterLogs(logs, Text.Lower(query)) == FilterLogs(logs, query)
  {
    assert Text.Lower(Text.Lower(query)) == Text.Lower(query);
  }

  /**
   * A blank query shows the log as it is; any other query shows the lines
   * that match its stripped form, and showing the result again by the same
   * query changes nothing.
   */
  lemma ViewLogChoice(logs: string, rawQuery: string)
    ensures Text.Strip(rawQuery) == [] ==> ViewLog(logs, rawQuery) == logs
    ensures Text.Strip(rawQuery) != [] ==>
      SplitLines(ViewLog(logs, rawQuery)) == MatchingLines(logs, Text.Strip(rawQuery))
    ensures ViewLog(ViewLog(logs, rawQuery), rawQuery) == ViewLog(logs, rawQuery)
  {
    if Text.Strip(rawQuery) != [] {
      FilterLogsLines(logs, Text.Strip(rawQuery));
      FilterLogsIdempotent(logs, Text.Strip(rawQuery));
    }
  }

  // ---------------------------------------------------------------------
  // safe_join
  // ---------------------------------------------------------------------

  predicate Absolute(p: string)
  {
    p != [] && p[0] == '/'
  }

  /**
   * Python's `os.path.join(path, *parts)` on POSIX: an absolute part
   * replaces what was built so far, any other part is appended after a '/'
   * unless the path so far is empty or already ends with one.
   */
  function PathJoin(path: string, parts: seq<string>): string
    decreases |parts|
  {
    if parts == [] then path
    else
      var b := parts[0];
      var next := if Absolute(b) then b
        else if path == [] || path[|path| - 1] == '/' then path + b
        else path + "/" + b;
      PathJoin(next, parts[1..])
  }

  /** `safe_join(base_path, *paths)`: the joined path, or `Http404("Access Denied")`. */
  datatype Joined = Inside(path: string) | Http404(reason: string)

  function SafeJoin(base: string, parts: seq<string>): (r: Joined)
    ensures r.Inside? <==> Text.StartsWith(PathJoin(base, parts), base)
    ensures r.Inside? ==> r.path == PathJoin(base, parts) && Text.StartsWith(r.path, base)
    ensures r.Http404? ==> r.reason == "Access Denied"
  {
    var finalPath := PathJoin(base, parts);
    if Text.StartsWith(finalPath, base) then Inside(finalPath) else Http404("Access Denied")
  }

  /** Only appending happens without absolute parts, so the start path stays a prefix. */
  lemma {:induction false} RelativeJoinExtends(path: string, parts: seq<string>)
    requires forall i :: 0 <= i < |parts| ==> !Absolute(parts[i])
    ensures Text.StartsWith(PathJoin(path, parts), path)
    decreases |parts|
  {
    if parts != [] {
      var b := parts[0];
      var next := if path == [] || path[|path| - 1] == '/' then path + b else path + "/" + b;
      assert PathJoin(path, parts) == PathJoin(next, parts[1..]);
      assert next[..|path|] == path;
      RelativeJoinExtends(next, parts[1..]);
      var r := PathJoin(next, parts[1..]);
      assert r[..|next|] == next;
      assert r[..|path|] == r[..|next|][..|path|];
    }
  }

  /**
   * The check is a string prefix test on the joined path and nothing more:
   * parts that are all relative, `..` included, are always accepted, and the
   * result is the plain join.
   */
  lemma RelativePartsAccepted(base: string, parts: seq<string>)
    requires forall i :: 0 <= i < |parts| ==> !Absolute(parts[i])
    ensures SafeJoin(base, parts) == Inside(PathJoin(base, parts))
  {
    RelativeJoinExtends(base, parts);
  }

  /**
   * An absolute part discards everything before it; a single absolute part
   * is accepted exactly when its own text starts with the base.
   */
  lemma AbsolutePartReplaces(base: string, path: string, b: string, rest: seq<string>)
    requires Absolute(b)
    ensures PathJoin(path, [b] + rest) == PathJoin(b, rest)
    ensures SafeJoin(base, [b]).Inside? <==> Text.StartsWith(b, base)
    ensures SafeJoin(base, [b]).Inside? ==> SafeJoin(base, [b]).path == b
  {
    assert ([b] + rest)[1..] == rest;
    assert PathJoin(base, [b]) == PathJoin(b, []) == b;
  }

  /**
   * With the default `BASE_DIR`, a sibling directory that shares its name as
   * a prefix is accepted, and so is a climb out of the base with `..`.
   */
  lemma PrefixCheckEscapes()
    ensures SafeJoin("/mnt/s3-bucket", ["/mnt/s3-bucket-old/x"]) == Inside("/mnt/s3-bucket-old/x")
    ensures SafeJoin("/mnt/s3-bucket", ["..", "etc"]) == Inside("/mnt/s3-bucket/../etc")
  {
    AbsolutePartReplaces("/mnt/s3-bucket", "/mnt/s3-bucket", "/mnt/s3-bucket-old/x", []);
    assert Text.StartsWith("/mnt/s3-bucket-old/x", "/mnt/s3-bucket");
    RelativePartsAccepted("/mnt/s3-bucket", ["..", "etc"]);
    assert PathJoin("/mnt/s3-bucket", ["..", "etc"]) == PathJoin("/mnt/s3-bucket/..", ["etc"]);
  }

  // ---------------------------------------------------------------------
  // /etc/exports (check_export_exists, remove_export_rule, setup_client_directory)
  // ---------------------------------------------------------------------

  /** The prefix that identifies a client's rule: `<BASE_DIR>/<ip> <ip>(`. */
  function ExportRule(baseDir: string, ip: string): string
  {
    baseDir + "/" + ip + " " + ip + "("
  }

  /** The length of the first line of a non-empty text, its '\n' included. */
  function FirstLineLength(s: string): (k: nat)
    requires s != []
    ensures 0 < k <= |s|
    ensures forall j :: 0 <= j < k - 1 ==> s[j] != '\n'
    ensures k < |s| ==> s[k - 1] == '\n'
    decreases |s|
  {
    if s[0] == '\n' || |s| == 1 then 1 else 1 + FirstLineLength(s[1..])
  }

  /** A line as iterating over a text file gives it: non-empty, its only '\n' at its end, which only the last line may lack. */
  predicate FileLine(line: string, isLast: bool)
  {
    line != [] && (forall j :: 0 <= j < |line| - 1 ==> line[j] != '\n') && (!isLast ==> line[|line| - 1] == '\n')
  }

  predicate FileLinesShape(lines: seq<string>)
  {
    forall i :: 0 <= i < |lines| ==> FileLine(lines[i], i == |lines| - 1)
  }

  predicate NoCR(s: string)
  {
    forall j :: 0 <= j < |s| ==> s[j] != '\r'
  }

  /**
   * What a file opened with `open(path, "r")` yields: universal newlines
   * read `\r\n` and a lone `\r` as `\n`, so the text read holds no `\r`,
   * and a text without `\r` reads as itself.
   */
  function Universal(s: string): (r: string)
    ensures NoCR(r)
    ensures NoCR(s) ==> r == s
    ensures |r| <= |s|
    decreases |s|
  {
    if s == [] then []
    else if s[0] == '\r' then "\n" + Universal(if |s| > 1 && s[1] == '\n' then s[2..] else s[1..])
    else [s[0]] + Universal(s[1..])
  }

  /** Splitting a text at '\n': its lines, each with its '\n'. */
  function FileLines(s: string): (r: seq<string>)
    ensures FileLinesShape(r)
    decreases |s|
  {
    if s == [] then []
    else
      var k := FirstLineLength(s);
      var rest := FileLines(s[k..]);
      assert rest != [] ==> k < |s|;
      [s[..k]] + rest
  }

  /** The lines of a text without '\r' hold no '\r'. */
  lemma {:induction false} FileLinesNoCR(s: string)
    requires NoCR(s)
    ensures forall i :: 0 <= i < |FileLines(s)| ==> NoCR(FileLines(s)[i])
    decreases |s|
  {
    if s != [] {
      var k := FirstLineLength(s);
      assert NoCR(s[..k]) && NoCR(s[k..]);
      FileLinesNoCR(s[k..]);
      assert FileLines(s) == [s[..k]] + FileLines(s[k..]);
    }
  }

  /** Iterating over a file opened in text mode: the lines of the translated text. */
  function ReadLines(file: string): seq<string>
  {
    FileLines(Universal(file))
  }

  /** `writelines`: the lines one after another. */
  function Concat(lines: seq<string>): string
    decreases |lines|
  {
    if lines == [] then "" else lines[0] + Concat(lines[1..])
  }

  /** Lines without '\r' are written as a text without '\r'. */
  lemma {:induction false} ConcatNoCR(lines: seq<string>)
    requires forall i :: 0 <= i < |lines| ==> NoCR(lines[i])
    ensures NoCR(Concat(lines))
    decreases |lines|
  {
    if lines != [] {
      ConcatNoCR(lines[1..]);
      var t := Concat(lines[1..]);
      forall j | 0 <= j < |lines[0] + t| ensures (lines[0] + t)[j] != '\r' {
        if j >= |lines[0]| {
          assert (lines[0] + t)[j] == t[j - |lines[0]|];
        }
      }
    }
  }

  /** Writing back the lines read from a file gives the file. */
  lemma {:induction false} ConcatFileLines(s: string)
    ensures Concat(FileLines(s)) == s
    decreases |s|
  {
    if s != [] {
      var k := FirstLineLength(s);
      ConcatFileLines(s[k..]);
      assert ([s[..k]] + FileLines(s[k..]))[1..] == FileLines(s[k..]);
      assert s[..k] + s[k..] == s;
    }
  }

  lemma {:induction false} FirstLineOf(line: string, t: string)
    requires FileLine(line, t == [])
    ensures FirstLineLength(line + t) == |line|
    decreases |line|
  {
    if |line| > 1 {
      assert (line + t)[1..] == line[1..] + t;
      FirstLineOf(line[1..], t);
    }
  }

  lemma {:induction false} ConcatNonEmpty(lines: seq<string>)
    requires FileLinesShape(lines)
    ensures Concat(lines) == [] <==> lines == []
  {
    if lines != [] {
      assert lines[0] != [];
    }
  }

  /** Reading back lines of the right shape gives those lines. */
  lemma {:induction false} FileLinesOfConcat(lines: seq<string>)
    requires FileLinesShape(lines)
    ensures FileLines(Concat(lines)) == lines
    decreases |lines|
  {
    if lines != [] {
      var t := Concat(lines[1..]);
      assert FileLinesShape(lines[1..]) by {
        forall i | 0 <= i < |lines[1..]| ensures FileLine(lines[1..][i], i == |lines[1..]| - 1) {
          assert lines[1..][i] == lines[i + 1];
        }
      }
      ConcatNonEmpty(lines[1..]);
      FirstLineOf(lines[0], t);
      var s := lines[0] + t;
      assert s[..|lines[0]|] == lines[0] && s[|lines[0]|..] == t;
      FileLinesOfConcat(lines[1..]);
      assert [lines[0]] + lines[1..] == lines;
    }
  }

  /** Keeping some of a file's lines keeps the shape: only the original last line can lack its '\n'. */
  lemma FilterKeepsShape(lines: seq<string>, keep: string -> bool)
    requires FileLinesShape(lines)
    ensures FileLinesShape(Text.Filter(lines, keep))
  {
    if lines != [] {
      var init, last := lines[..|lines| - 1], lines[|lines| - 1];
      var front := Text.Filter(init, keep);
      forall i | 0 <= i < |front| ensures FileLine(front[i], false) {
        var j :| 0 <= j < |init| && init[j] == front[i];
      }
    }
  }

  /** Whether one line of the file is the client's rule. */
  function KeepExport(rule: string): string -> bool
  {
    line => !Text.StartsWith(Text.Strip(line), rule)
  }

  /** `check_export_exists(client_ip)`, given whether `/etc/exports` could be read. */
  predicate CheckExportExists(baseDir: string, ip: string, exports: string, readOk: bool)
  {
    readOk &&
    exists i :: 0 <= i < |ReadLines(exports)| && Text.StartsWith(Text.Strip(ReadLines(exports)[i]), ExportRule(baseDir, ip))
  }

  /** Whether `remove_export_rule` returned true, and the text of `/etc/exports` afterwards. */
  datatype Rewrite = Rewrite(ok: bool, exports: string)

  /** `remove_export_rule(client_ip)`, given whether the read and the rewrite can open the file. */
  function RemoveExportRule(baseDir: string, ip: string, exports: string, readOk: bool, writeOk: bool): Rewrite
  {
    if !readOk || !writeOk then Rewrite(false, exports)
    else Rewrite(true, Concat(Text.Filter(ReadLines(exports), KeepExport(ExportRule(baseDir, ip)))))
  }

  /** A removal that cannot read or rewrite the file reports failure and leaves the file as it was. */
  lemma RemoveFailureKeepsFile(baseDir: string, ip: string, exports: string, readOk: bool, writeOk: bool)
    ensures var r := RemoveExportRule(baseDir, ip, exports, readOk, writeOk);
      (r.ok <==> readOk && writeOk) && (!r.ok ==> r.exports == exports)
  {
  }

  /** No line kept by the removal is the client's rule. */
  lemma KeptLinesLackRule(lines: seq<string>, rule: string)
    ensures forall i :: 0 <= i < |Text.Filter(lines, KeepExport(rule))| ==>
      !Text.StartsWith(Text.Strip(Text.Filter(lines, KeepExport(rule))[i]), rule)
  {
    var kept := Text.Filter(lines, KeepExport(rule));
    forall i | 0 <= i < |kept| ensures !Text.StartsWith(Text.Strip(kept[i]), rule) {
      assert KeepExport(rule)(kept[i]);
    }
  }

  /**
   * After a successful removal the file holds exactly the old lines that are
   * not the client's rule, in order, with no '\r' left, so the rule is no
   * longer found.
   */
  lemma RemoveThenAbsent(baseDir: string, ip: string, exports: string)
    ensures var after := RemoveExportRule(baseDir, ip, exports, true, true).exports;
      NoCR(after) && ReadLines(after) == Text.Filter(ReadLines(exports), KeepExport(ExportRule(baseDir, ip)))
    ensures !CheckExportExists(baseDir, ip, RemoveExportRule(baseDir, ip, exports, true, true).exports, true)
  {
    var keep := KeepExport(ExportRule(baseDir, ip));
    KeptLinesReadBack(exports, keep);
    KeptLinesLackRule(ReadLines(exports), ExportRule(baseDir, ip));
  }

  /** Some of the lines read from a file, written back and read again, are those lines. */
  lemma KeptLinesReadBack(file: string, keep: string -> bool)
    ensures var out := Concat(Text.Filter(ReadLines(file), keep));
      NoCR(out) && ReadLines(out) == Text.Filter(ReadLines(file), keep)
  {
    var lines := ReadLines(file);
    KeptLinesNoCR(file, keep);
    FilterKeepsShape(lines, keep);
    FileLinesOfConcat(Text.Filter(lines, keep));
  }

  /** Writing back some of the lines read from a file gives a text without '\r', which reads as itself. */
  lemma KeptLinesNoCR(file: string, keep: string -> bool)
    ensures var out := Concat(Text.Filter(ReadLines(file), keep));
      NoCR(out) && Universal(out) == out
  {
    var lines := ReadLines(file);
    var kept := Text.Filter(lines, keep);
    FileLinesNoCR(Universal(file));
    forall i | 0 <= i < |kept| ensures NoCR(kept[i]) {
      assert kept[i] in lines;
    }
    ConcatNoCR(kept);
  }

  /**
   * A file without the client's rule is written back with its line ends
   * translated to '\n', which leaves a file without '\r' unchanged.
   */
  lemma RemoveWithoutRule(baseDir: string, ip: string, exports: string)
    requires !CheckExportExists(baseDir, ip, exports, true)
    ensures RemoveExportRule(baseDir, ip, exports, true, true) == Rewrite(true, Universal(exports))
    ensures NoCR(exports) ==> RemoveExportRule(baseDir, ip, exports, true, true) == Rewrite(true, exports)
  {
    var lines := ReadLines(exports);
    var keep := KeepExport(ExportRule(baseDir, ip));
    forall i | 0 <= i < |lines| ensures keep(lines[i]) {
    }
    Text.FilterKeepsAll(lines, keep);
    ConcatFileLines(Universal(exports));
  }

  /** Removing twice is removing once. */
  lemma RemoveIdempotent(baseDir: string, ip: string, exports: string)
    ensures var once := RemoveExportRule(baseDir, ip, exports, true, true).exports;
      RemoveExportRule(baseDir, ip, once, true, true) == Rewrite(true, once)
  {
    RemoveThenAbsent(baseDir, ip, exports);
    RemoveWithoutRule(baseDir, ip, RemoveExportRule(baseDir, ip, exports, true, true).exports);
  }

  /** The export options `setup_client_directory` writes, up to the `fsid` value. */
  const ExportOptions: string := "rw,sync,no_subtree_check,all_squash,anonuid=65534,anongid=65534,fsid="

  /** The rule `setup_client_directory` writes for a client; `fsid` is the decimal text of the number. */
  function SetupRule(baseDir: string, ip: string, fsid: string): string
  {
    PathJoin(baseDir, [ip]) + " " + ip + "(" + ExportOptions + fsid + ")"
  }

  /**
   * The rule written at setup begins with the prefix the check and the
   * removal look for, when `BASE_DIR` is not empty and has no trailing '/'
   * and the address is relative.
   */
  lemma SetupRuleHasPrefix(baseDir: string, ip: string, fsid: string)
    requires baseDir != [] && baseDir[|baseDir| - 1] != '/' && !Absolute(ip)
    ensures Text.StartsWith(SetupRule(baseDir, ip, fsid), ExportRule(baseDir, ip))
  {
    var rule := ExportRule(baseDir, ip);
    assert PathJoin(baseDir, [ip]) == PathJoin(baseDir + "/" + ip, []) == baseDir + "/" + ip;
    var full := SetupRule(baseDir, ip, fsid);
    assert full == rule + (ExportOptions + fsid + ")");
  }

  /** With a trailing '/' on `BASE_DIR` the written rule lacks the prefix, so the check never finds it. */
  lemma SetupRuleTrailingSlash(baseDir: string, ip: string, fsid: string)
    requires baseDir != [] && baseDir[|baseDir| - 1] == '/' && !Absolute(ip)
    ensures !Text.StartsWith(SetupRule(baseDir, ip, fsid), ExportRule(baseDir, ip))
  {
    var rule := ExportRule(baseDir, ip);
    var joined := PathJoin(baseDir, [ip]);
    assert [ip][0] == ip && [ip][1..] == [];
    assert !(baseDir == [] || baseDir[|baseDir| - 1] != '/');
    assert joined == PathJoin(baseDir + ip, []) == baseDir + ip;
    var withSpace := joined + " ";
    assert withSpace[|baseDir|] != '/' by {
      if ip != [] {
        assert withSpace[|baseDir|] == joined[|baseDir|] == ip[0];
      } else {
        assert withSpace[|baseDir|] == ' ';
      }
    }
    var full := SetupRule(baseDir, ip, fsid);
    assert full[|baseDir|] == withSpace[|baseDir|];
    assert rule[|baseDir|] == (baseDir + "/")[|baseDir|] == '/';
  }

  // ---------------------------------------------------------------------
  // setup_client_directory
  // ---------------------------------------------------------------------

  /**
   * What the system does during `setup_client_directory`: whether the
   * client directory exists, whether `mkdir -p` reports no error, and whether
   * `/etc/exports` can be opened.
   */
  datatype SetupEnv = SetupEnv(dirExists: bool, mkdirOk: bool, openOk: bool)

  /**
   * `setup_client_directory(client_ip, fsid)` as written: a failed `mkdir`
   * or `open` returns False; otherwise the loop iterates a file opened with
   * mode "a", which is not readable, so Python raises
   * `io.UnsupportedOperation`, an `OSError` that `except IOError` catches,
   * and the function returns False before anything is written.
   */
  function SetupClientDirectory(baseDir: string, ip: string, fsid: string, exports: string, env: SetupEnv): Rewrite
  {
    if !env.dirExists && !env.mkdirOk then Rewrite(false, exports)
    else if !env.openOk then Rewrite(false, exports)
    else Rewrite(false, exports)
  }

  /**
   * As written, setup never succeeds and never adds the rule: even on an
   * empty `/etc/exports` with every step succeeding, the rule is not found
   * afterwards.
   */
  lemma SetupNeverAppends(baseDir: string, ip: string, fsid: string, exports: string, env: SetupEnv)
    ensures SetupClientDirectory(baseDir, ip, fsid, exports, env) == Rewrite(false, exports)
    ensures !CheckExportExists(baseDir, ip, SetupClientDirectory(baseDir, ip, fsid, "", SetupEnv(true, true, true)).exports, true)
  {
    assert ReadLines("") == [];
  }

  /** A line of text: no '\n' and no '\r' in it. */
  predicate PlainLine(s: string)
  {
    forall j :: 0 <= j < |s| ==> s[j] != '\n' && s[j] != '\r'
  }

  /**
   * `setup_client_directory` as evidently intended, with `/etc/exports`
   * readable while it is appended to: the rule is appended, with its
   * '\n', unless a line of the file, stripped, already is the rule.
   */
  function SetupExport(baseDir: string, ip: string, fsid: string, exports: string, env: SetupEnv): Rewrite
  {
    if !env.dirExists && !env.mkdirOk then Rewrite(false, exports)
    else if !env.openOk then Rewrite(false, exports)
    else Rewrite(true, AppendIfMissing(exports, SetupRule(baseDir, ip, fsid)))
  }

  /** The file after the loop and the write: `line` and its '\n' appended unless some line, stripped, is `line`. */
  function AppendIfMissing(exports: string, line: string): string
  {
    var lines := ReadLines(exports);
    if forall i :: 0 <= i < |lines| ==> Text.Strip(lines[i]) != line then exports + line + "\n"
    else exports
  }

  /** Writing one more line after some lines. */
  lemma {:induction false} ConcatAppend(lines: seq<string>, line: string)
    ensures Concat(lines + [line]) == Concat(lines) + line
    decreases |lines|
  {
    if lines != [] {
      assert (lines + [line])[1..] == lines[1..] + [line];
      ConcatAppend(lines[1..], line);
    }
  }

  /** A line framed by characters that are not space comes back from `strip()` without its '\n'. */
  lemma StripFramedLine(s: string)
    requires s != [] && !Text.PySpace(s[0]) && !Text.PySpace(s[|s| - 1])
    ensures Text.Strip(s + "\n") == s
  {
    var t := s + "\n";
    assert Text.TrimLeft(t, Text.PySpace) == t;
    assert t[..|t| - 1] == s;
    assert Text.TrimRight(t, Text.PySpace) == Text.TrimRight(s, Text.PySpace) == s;
  }

  /** The last line a text splits into ends with the text's last character. */
  lemma LastLineEndsText(s: string)
    requires s != []
    ensures var lines := FileLines(s);
      lines != [] && lines[|lines| - 1] != [] && lines[|lines| - 1][|lines[|lines| - 1]| - 1] == s[|s| - 1]
  {
    var lines := FileLines(s);
    ConcatFileLines(s);
    assert lines != [];
    var init := lines[..|lines| - 1];
    var last := lines[|lines| - 1];
    assert init + [last] == lines;
    ConcatAppend(init, last);
  }

  /** A plain line with its '\n' is a line of a text, last or not. */
  lemma PlainLineTerminated(line: string)
    requires PlainLine(line)
    ensures FileLine(line + "\n", true) && FileLine(line + "\n", false)
  {
    var t := line + "\n";
    forall j | 0 <= j < |t| - 1 ensures t[j] != '\n' {
      assert t[j] == line[j];
    }
  }

  /** Lines of a text ending with '\n', followed by one more line, keep the shape of a text's lines. */
  lemma AppendedShape(exports: string, line: string)
    requires exports == [] || exports[|exports| - 1] == '\n'
    requires PlainLine(line)
    ensures FileLinesShape(FileLines(exports) + [line + "\n"])
  {
    var lines := FileLines(exports);
    var full := lines + [line + "\n"];
    PlainLineTerminated(line);
    if exports != [] {
      LastLineEndsText(exports);
      assert FileLine(lines[|lines| - 1], false);
    }
    assert forall i :: 0 <= i < |lines| - 1 ==> FileLine(lines[i], false);
    forall i | 0 <= i < |full| ensures FileLine(full[i], i == |full| - 1) {
      if i < |lines| {
        assert full[i] == lines[i];
      }
    }
  }

  /** A text without '\r' with a plain line and '\n' appended has no '\r'. */
  lemma AppendedNoCR(exports: string, line: string)
    requires NoCR(exports) && PlainLine(line)
    ensures NoCR(exports + line + "\n")
  {
    var text := exports + line + "\n";
    forall j | 0 <= j < |text| ensures text[j] != '\r' {
      if j < |exports| {
        assert text[j] == exports[j];
      } else if j < |exports| + |line| {
        assert text[j] == line[j - |exports|];
      }
    }
  }

  /**
   * A file without '\r' that is empty or ends with '\n', with a plain line
   * and its '\n' appended, reads as its old lines followed by that line.
   */
  lemma AppendedLineRead(exports: string, line: string)
    requires NoCR(exports) && (exports == [] || exports[|exports| - 1] == '\n')
    requires PlainLine(line)
    ensures ReadLines(exports + line + "\n") == ReadLines(exports) + [line + "\n"]
  {
    var lines := FileLines(exports);
    var full := lines + [line + "\n"];
    ConcatFileLines(exports);
    AppendedShape(exports, line);
    ConcatAppend(lines, line + "\n");
    FileLinesOfConcat(full);
    AppendedNoCR(exports, line);
    assert exports + line + "\n" == Concat(full);
  }

  /**
   * The conditions under which the rule set up for a client is one plain
   * line that `strip()` leaves alone and that starts with the prefix the
   * check and the removal look for.
   */
  predicate WellFormedSetup(baseDir: string, ip: string, fsid: string)
  {
    Absolute(baseDir) && baseDir[|baseDir| - 1] != '/' && !Absolute(ip) && PlainLine(SetupRule(baseDir, ip, fsid))
  }

  /** The rule set up for a client comes back from `strip()` without the '\n' written after it. */
  lemma SetupRuleStrips(baseDir: string, ip: string, fsid: string)
    requires WellFormedSetup(baseDir, ip, fsid)
    ensures Text.Strip(SetupRule(baseDir, ip, fsid) + "\n") == SetupRule(baseDir, ip, fsid)
  {
    var rule := SetupRule(baseDir, ip, fsid);
    SetupRuleHasPrefix(baseDir, ip, fsid);
    assert rule[0] == ExportRule(baseDir, ip)[0] == '/';
    assert rule[|rule| - 1] == ')';
    StripFramedLine(rule);
  }

  /** After the check-and-append, some line of the file, stripped, is `line`. */
  lemma AppendIfMissingFound(exports: string, line: string)
    requires NoCR(exports) && (exports == [] || exports[|exports| - 1] == '\n')
    requires PlainLine(line) && Text.Strip(line + "\n") == line
    ensures var after := ReadLines(AppendIfMissing(exports, line));
      exists i :: 0 <= i < |after| && Text.Strip(after[i]) == line
  {
    var lines := ReadLines(exports);
    if forall i :: 0 <= i < |lines| ==> Text.Strip(lines[i]) != line {
      AppendedLineRead(exports, line);
      var after := ReadLines(exports + line + "\n");
      assert after[|lines|] == line + "\n";
    }
  }

  /** After the corrected setup, some line of the file, stripped, is the rule. */
  lemma SetupLeavesRuleLine(baseDir: string, ip: string, fsid: string, exports: string, env: SetupEnv)
    requires WellFormedSetup(baseDir, ip, fsid)
    requires NoCR(exports) && (exports == [] || exports[|exports| - 1] == '\n')
    requires (env.dirExists || env.mkdirOk) && env.openOk
    ensures var r := SetupExport(baseDir, ip, fsid, exports, env);
      var lines := ReadLines(r.exports);
      r.ok && exists i :: 0 <= i < |lines| && Text.Strip(lines[i]) == SetupRule(baseDir, ip, fsid)
  {
    SetupRuleStrips(baseDir, ip, fsid);
    AppendIfMissingFound(exports, SetupRule(baseDir, ip, fsid));
  }

  /** A file in which some line, stripped, already is `line` is left as it is. */
  lemma AppendIfMissingPresent(exports: string, line: string)
    requires exists i :: 0 <= i < |ReadLines(exports)| && Text.Strip(ReadLines(exports)[i]) == line
    ensures AppendIfMissing(exports, line) == exports
  {
    var lines := ReadLines(exports);
    var i :| 0 <= i < |lines| && Text.Strip(lines[i]) == line;
    assert !(Text.Strip(lines[i]) != line);
  }

  /** A line that, stripped, is a rule beginning with the client's prefix is what the check looks for. */
  lemma RuleLineChecks(baseDir: string, ip: string, exports: string, rule: string)
    requires Text.StartsWith(rule, ExportRule(baseDir, ip))
    requires exists i :: 0 <= i < |ReadLines(exports)| && Text.Strip(ReadLines(exports)[i]) == rule
    ensures CheckExportExists(baseDir, ip, exports, true)
  {
    var i :| 0 <= i < |ReadLines(exports)| && Text.Strip(ReadLines(exports)[i]) == rule;
    assert Text.StartsWith(Text.Strip(ReadLines(exports)[i]), ExportRule(baseDir, ip));
  }

  /**
   * The corrected setup does what `add_agent` relies on: it reports success,
   * `check_export_exists` then finds the client's rule, and a second setup
   * leaves the file as it is.
   */
  lemma SetupThenFound(baseDir: string, ip: string, fsid: string, exports: string, env: SetupEnv)
    requires WellFormedSetup(baseDir, ip, fsid)
    requires NoCR(exports) && (exports == [] || exports[|exports| - 1] == '\n')
    requires (env.dirExists || env.mkdirOk) && env.openOk
    ensures var r := SetupExport(baseDir, ip, fsid, exports, env);
      r.ok && CheckExportExists(baseDir, ip, r.exports, true) &&
      SetupExport(baseDir, ip, fsid, r.exports, env) == r
  {
    var rule := SetupRule(baseDir, ip, fsid);
    var after := AppendIfMissing(exports, rule);
    SetupLeavesRuleLine(baseDir, ip, fsid, exports, env);
    assert SetupExport(baseDir, ip, fsid, exports, env) == Rewrite(true, after);
    SetupRuleHasPrefix(baseDir, ip, fsid);
    RuleLineChecks(baseDir, ip, after, rule);
    AppendIfMissingPresent(after, rule);
  }
}
