/** The transformation log: an ordered record of action descriptions, its text
form and the two exported file contents. */
module Logger {

  /** The separator `get_log_text` and `export_log_py` write: the two characters backslash and `n`,
      not a line break. */
  const Sep: string := "\\n"

  datatype Logger = Logger(entries: seq<string>)

  /** `TransformationLogger()` starts with no entries. */
  function NewLogger(): (l: Logger)
    ensures |l.entries| == 0
  {
    Logger([])
  }

  /** `log(action)` records exactly one entry, last, and keeps the others. */
  function Log(l: Logger, action: string): (r: Logger)
    ensures |r.entries| == |l.entries| + 1
    ensures r.entries[..|l.entries|] == l.entries
    ensures r.entries[|l.entries|] == action
  {
    Logger(l.entries + [action])
  }

  /** `sep.join(entries)` */
  function Join(entries: seq<string>, sep: string): (r: string)
    ensures |entries| == 0 ==> r == ""
    ensures |entries| == 1 ==> r == entries[0]
  {
    if |entries| == 0 then ""
    else if |entries| == 1 then entries[0]
    else entries[0] + sep + Join(entries[1..], sep)
  }

  /** Joining a longer list puts the separator between the old text and the
      new entry. */
  lemma {:induction false} JoinSnoc(entries: seq<string>, sep: string, e: string)
    requires |entries| > 0
    ensures Join(entries + [e], sep) == Join(entries, sep) + sep + e
  {
    if |entries| > 1 {
      assert (entries + [e])[1..] == entries[1..] + [e];
      JoinSnoc(entries[1..], sep, e);
    } else {
      assert (entries + [e])[1..] == [e];
    }
  }

  /** `get_log_text()`, which is also what `export_log_txt` writes. */
  function LogText(l: Logger): string {
    Join(l.entries, Sep)
  }

  /** Logging an action extends the text: the first entry becomes the whole
      text, a later one is appended after the separator. */
  lemma {:induction false} LogExtendsText(l: Logger, action: string)
    ensures |l.entries| == 0 ==> LogText(Log(l, action)) == action
    ensures |l.entries| > 0 ==> LogText(Log(l, action)) == LogText(l) + Sep + action
  {
    if |l.entries| > 0 {
      JoinSnoc(l.entries, Sep, action);
    }
  }

  /** Every entry followed by `sep`, concatenated. */
  function Terminated(entries: seq<string>, sep: string): (r: string)
    ensures |r| >= |entries| * |sep|
  {
    if |entries| == 0 then "" else entries[0] + sep + Terminated(entries[1..], sep)
  }

  /** What `export_log_py` writes: each entry followed by the separator. */
  function ExportPy(l: Logger): string {
    Terminated(l.entries, Sep)
  }

  /** The script file is the log text with one more separator, or empty. */
  lemma {:induction false} TerminatedIsJoinPlusSep(entries: seq<string>, sep: string)
    ensures |entries| == 0 ==> Terminated(entries, sep) == ""
    ensures |entries| > 0 ==> Terminated(entries, sep) == Join(entries, sep) + sep
  {
    if |entries| > 1 {
      TerminatedIsJoinPlusSep(entries[1..], sep);
    }
  }

  lemma {:induction false} ExportPyIsTextPlusSep(l: Logger)
    ensures |l.entries| == 0 ==> ExportPy(l) == ""
    ensures |l.entries| > 0 ==> ExportPy(l) == LogText(l) + Sep
  {
    TerminatedIsJoinPlusSep(l.entries, Sep);
  }

  /** Text without a line break. */
  predicate OneLine(s: string) {
    forall i :: 0 <= i < |s| ==> s[i] != '\n'
  }

  /** As written, the exported script is a single line whatever the number of
      entries: the separator holds no line break. */
  lemma {:induction false} ExportPyIsOneLine(l: Logger)
    requires forall k :: 0 <= k < |l.entries| ==> OneLine(l.entries[k])
    ensures OneLine(ExportPy(l))
  {
    TerminatedOneLine(l.entries);
  }

  lemma {:induction false} TerminatedOneLine(entries: seq<string>)
    requires forall k :: 0 <= k < |entries| ==> OneLine(entries[k])
    ensures OneLine(Terminated(entries, Sep))
  {
    if |entries| > 0 {
      TerminatedOneLine(entries[1..]);
      var rest := Terminated(entries[1..], Sep);
      var s := entries[0] + Sep + rest;
      forall i | 0 <= i < |s| ensures s[i] != '\n' {
        if i < |entries[0]| {
          assert s[i] == entries[0][i];
        } else if i < |entries[0]| + |Sep| {
          assert s[i] == Sep[i - |entries[0]|];
        } else {
          assert s[i] == rest[i - |entries[0]| - |Sep|];
        }
      }
    }
  }

  /** Read back line by line, the script as written is one line holding all
      entries, so two or more entries cannot be told apart. */
  lemma {:induction false} ExportPyMergesEntries(l: Logger)
    requires |l.entries| >= 2
    requires forall k :: 0 <= k < |l.entries| ==> OneLine(l.entries[k])
    ensures Lines(ExportPy(l)) == [ExportPy(l)]
    ensures Lines(ExportPy(l)) != l.entries
  {
    ExportPyIsOneLine(l);
    var s := ExportPy(l);
    assert |s| >= 4;
    assert LineEnd(s) == |s|;
  }

  // ---------------------------------------------------------------------------
  // The script as evidently intended: one entry per line.

  const Newline: string := "\n"

  /** Each entry on a line of its own. */
  function ExportPyLines(l: Logger): string {
    Terminated(l.entries, Newline)
  }

  /** Index of the first line break, or the length when there is none. */
  function LineEnd(s: string): (i: nat)
    ensures i <= |s|
    ensures forall j :: 0 <= j < i ==> s[j] != '\n'
    ensures i < |s| ==> s[i] == '\n'
  {
    if |s| == 0 || s[0] == '\n' then 0 else 1 + LineEnd(s[1..])
  }

  /** The lines of a text whose lines each end in a line break. */
  function Lines(s: string): seq<string>
    decreases |s|
  {
    if |s| == 0 then []
    else
      var i := LineEnd(s);
      if i == |s| then [s] else [s[..i]] + Lines(s[i + 1..])
  }

  /** Reading the corrected script back line by line gives the entries again. */
  lemma {:induction false} ExportPyLinesRoundTrip(l: Logger)
    requires forall k :: 0 <= k < |l.entries| ==> OneLine(l.entries[k])
    ensures Lines(ExportPyLines(l)) == l.entries
  {
    TerminatedLines(l.entries);
  }

  lemma {:induction false} TerminatedLines(entries: seq<string>)
    requires forall k :: 0 <= k < |entries| ==> OneLine(entries[k])
    ensures Lines(Terminated(entries, Newline)) == entries
  {
    if |entries| > 0 {
      var e := entries[0];
      var rest := Terminated(entries[1..], Newline);
      var s := e + Newline + rest;
      LineEndAfter(e, rest);
      assert s[..|e|] == e;
      assert s[|e| + 1..] == rest;
      TerminatedLines(entries[1..]);
    }
  }

  lemma {:induction false} LineEndAfter(e: string, rest: string)
    requires OneLine(e)
    ensures LineEnd(e + Newline + rest) == |e|
  {
    var s := e + Newline + rest;
    assert forall j :: 0 <= j < |e| ==> s[j] == e[j];
    assert s[|e|] == '\n';
  }

  // ---------------------------------------------------------------------------
  // The log text read back with `text.split("\n")`.

  /** `s.split("\n")`: the pieces between line breaks, the last one included
      even when it is empty. */
  function SplitLines(s: string): (r: seq<string>)
    decreases |s|
    ensures |r| >= 1
  {
    var i := LineEnd(s);
    if i == |s| then [s] else [s[..i]] + SplitLines(s[i + 1..])
  }

  /** As written, the text `get_log_text` returns and `export_log_txt` writes
      has no line break, so splitting it into lines cannot recover two or
      more entries. */
  lemma {:induction false} LogTextMergesEntries(l: Logger)
    requires |l.entries| >= 2
    requires forall k :: 0 <= k < |l.entries| ==> OneLine(l.entries[k])
    ensures OneLine(LogText(l))
    ensures SplitLines(LogText(l)) == [LogText(l)]
    ensures SplitLines(LogText(l)) != l.entries
  {
    var s := LogText(l);
    ExportPyIsOneLine(l);
    ExportPyIsTextPlusSep(l);
    forall i | 0 <= i < |s| ensures s[i] != '\n' {
      assert s[i] == ExportPy(l)[i];
    }
    assert LineEnd(s) == |s|;
  }

  /** The log text as evidently intended: entries joined by a line break. */
  function LogTextLines(l: Logger): string {
    Join(l.entries, Newline)
  }

  /** Splitting the corrected text at line breaks gives the entries again. A
      log with no entries has the empty text, which splits into one empty
      line, as in Python. */
  lemma {:induction false} LogTextLinesRoundTrip(l: Logger)
    requires |l.entries| > 0
    requires forall k :: 0 <= k < |l.entries| ==> OneLine(l.entries[k])
    ensures SplitLines(LogTextLines(l)) == l.entries
  {
    JoinedSplit(l.entries);
  }

  lemma {:induction false} JoinedSplit(entries: seq<string>)
    requires |entries| > 0
    requires forall k :: 0 <= k < |entries| ==> OneLine(entries[k])
    ensures SplitLines(Join(entries, Newline)) == entries
  {
    var e := entries[0];
    if |entries| == 1 {
      assert OneLine(e);
      assert LineEnd(e) == |e|;
    } else {
      var rest := Join(entries[1..], Newline);
      var s := e + Newline + rest;
      assert Join(entries, Newline) == s;
      LineEndAfter(e, rest);
      assert s[..|e|] == e;
      assert s[|e| + 1..] == rest;
      JoinedSplit(entries[1..]);
      assert entries == [e] + entries[1..];
    }
  }
}
