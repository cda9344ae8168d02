/** FileLogger: an append-only text log that drops its oldest lines once the file grows past a size
    limit. The file system is a map from path to file text; the two DateTime.Now readings are passed in
    as stamps, and the file operations that throw are named by the steps in `failing`. */
module Logging {
  import opened Base
  import opened Strings

  /** The line terminators StreamReader.ReadLine recognises. */
  predicate IsBreak(c: char) {
    c == '\n' || c == '\r'
  }

  /** A string with no line terminator in it. */
  predicate OneLine(s: string) {
    forall i :: 0 <= i < |s| ==> !IsBreak(s[i])
  }

  /** Text that is empty or ends with a line feed, as everything this logger writes does. */
  predicate Terminated(s: string) {
    s == [] || s[|s| - 1] == '\n'
  }

  /** The position of the first line terminator in `s`, or |s| when there is none. */
  function LineEnd(s: string): (i: nat)
    ensures i <= |s|
    ensures i < |s| ==> IsBreak(s[i])
    decreases |s|
  {
    if s == [] || IsBreak(s[0]) then 0
    else
      LineEnd(s[1..]) + 1
  }

  /** No terminator comes before LineEnd. */
  lemma {:induction false} LineEndFirst(s: string)
    ensures OneLine(s[..LineEnd(s)])
    decreases |s|
  {
    if s != [] && !IsBreak(s[0]) {
      LineEndFirst(s[1..]);
      assert s[..LineEnd(s)] == [s[0]] + s[1..][..LineEnd(s[1..])];
    }
  }

  /** How many characters the terminator at `i` takes: "\r\n" counts as one terminator. */
  function BreakWidth(s: string, i: nat): nat
    requires i <= |s|
  {
    if i == |s| then 0
    else if s[i] == '\r' && i + 1 < |s| && s[i + 1] == '\n' then 2
    else 1
  }

  /** Where the second line starts: just after the first terminator, or |s| when there is none. */
  function NextLine(s: string): (n: nat)
    ensures LineEnd(s) <= n <= |s| && (s != [] ==> 0 < n)
  {
    var i := LineEnd(s);
    i + BreakWidth(s, i)
  }

  /** File.ReadAllLines: the lines of the text, without their terminators; a final terminator does not
      start another line. */
  function Lines(s: string): seq<string>
    decreases |s|
  {
    if s == [] then [] else [s[..LineEnd(s)]] + Lines(s[NextLine(s)..])
  }

  /** File.WriteAllLines with Environment.NewLine = "\n": every line followed by a line feed. */
  function WriteLines(lines: seq<string>): (r: string)
    ensures Terminated(r)
  {
    if lines == [] then [] else lines[0] + "\n" + WriteLines(lines[1..])
  }

  /** The first line of a terminated text, and where the next one starts, do not depend on what
      follows the text. */
  lemma LineEndAppend(s: string, t: string)
    requires s != [] && Terminated(s)
    ensures LineEnd(s) < |s| && LineEnd(s + t) == LineEnd(s) && NextLine(s + t) == NextLine(s)
  {
    LineEndAt(s, |s| - 1);
    LineEndPrefix(s, t);
    var i := LineEnd(s);
    assert (s + t)[i] == s[i];
    assert i + 1 < |s| ==> (s + t)[i + 1] == s[i + 1];
    assert s[|s| - 1] == '\n';
  }

  /** A terminator at `k` ends the first line at `k` or earlier, and exactly at `k` when none comes before. */
  lemma {:induction false} LineEndAt(s: string, k: nat)
    requires k < |s| && IsBreak(s[k])
    ensures LineEnd(s) <= k
    ensures OneLine(s[..k]) ==> LineEnd(s) == k
    decreases k
  {
    if k > 0 && !IsBreak(s[0]) {
      LineEndAt(s[1..], k - 1);
      var u := s[1..][..k - 1];
      assert OneLine(s[..k]) ==> OneLine(u) by {
        if OneLine(s[..k]) {
          forall j | 0 <= j < |u| ensures !IsBreak(u[j]) {
            assert u[j] == s[..k][j + 1];
          }
        }
      }
    } else if k > 0 {
      assert s[..k][0] == s[0];
    }
  }

  lemma {:induction false} LineEndPrefix(s: string, t: string)
    requires LineEnd(s) < |s|
    ensures LineEnd(s + t) == LineEnd(s)
    decreases |s|
  {
    if !IsBreak(s[0]) {
      assert (s + t)[1..] == s[1..] + t;
      LineEndPrefix(s[1..], t);
    }
  }

  /** Reading text made of a terminated part and a rest gives the lines of each, in order: appending to
      a terminated file leaves its lines as they were. */
  lemma {:induction false} LinesAppend(s: string, t: string)
    requires Terminated(s)
    ensures Lines(s + t) == Lines(s) + Lines(t)
    decreases |s|
  {
    if s == [] {
      assert s + t == t;
    } else {
      RestTerminated(s);
      LinesAppend(s[NextLine(s)..], t);
      LinesAppendCons(s, t);
    }
  }

  /** One step of LinesAppend: the first line of `s` followed by the lines of the rest. */
  lemma LinesAppendCons(s: string, t: string)
    requires s != [] && Terminated(s)
    requires var rest := s[NextLine(s)..]; Lines(rest + t) == Lines(rest) + Lines(t)
    ensures Lines(s + t) == Lines(s) + Lines(t)
  {
    var rest := s[NextLine(s)..];
    LinesUnfold(s);
    LinesAppendStep(s, t);
    ConsAppend(s[..LineEnd(s)], Lines(rest), Lines(t));
  }

  lemma ConsAppend(x: string, a: seq<string>, b: seq<string>)
    ensures [x] + (a + b) == ([x] + a) + b
  {
  }

  /** What follows the first line of a text that ends with a line feed also ends with one. */
  lemma RestTerminated(s: string)
    requires s != [] && Terminated(s)
    ensures NextLine(s) < |s| ==> Terminated(s[NextLine(s)..])
  {
    var rest := s[NextLine(s)..];
    if rest != [] {
      assert rest[|rest| - 1] == s[|s| - 1];
    }
  }

  lemma LinesAppendStep(s: string, t: string)
    requires s != [] && Terminated(s)
    ensures Lines(s + t) == [s[..LineEnd(s)]] + Lines(s[NextLine(s)..] + t)
  {
    LineEndAppend(s, t);
    SlicesOfAppend(s, t, LineEnd(s), NextLine(s));
    LinesUnfold(s + t);
  }

  lemma SlicesOfAppend(s: string, t: string, i: nat, j: nat)
    requires i <= j <= |s|
    ensures (s + t)[..i] == s[..i] && (s + t)[j..] == s[j..] + t
  {
  }

  lemma LinesUnfold(s: string)
    requires s != []
    ensures Lines(s) == [s[..LineEnd(s)]] + Lines(s[NextLine(s)..])
  {
  }

  /** A single line written with its line feed reads back as that line. */
  lemma LinesOfLine(line: string)
    requires OneLine(line)
    ensures Lines(line + "\n") == [line]
  {
    var s := line + "\n";
    var i := LineEnd(s);
    assert s[|line|] == '\n';
    assert s[..|line|] == line;
    LineEndAt(s, |line|);
    assert s[..i] == line;
    assert s[NextLine(s)..] == [];
  }

  /** Writing lines and reading them back gives the same lines. */
  lemma {:induction false} LinesOfWritten(lines: seq<string>)
    requires forall k :: 0 <= k < |lines| ==> OneLine(lines[k])
    ensures Lines(WriteLines(lines)) == lines
    decreases |lines|
  {
    if lines != [] {
      LinesOfWritten(lines[1..]);
      LinesOfLine(lines[0]);
      LinesAppend(lines[0] + "\n", WriteLines(lines[1..]));
      assert WriteLines(lines) == (lines[0] + "\n") + WriteLines(lines[1..]);
    }
  }

  /** One log line: the timestamp, a dash and the message. */
  function EntryLine(stamp: string, message: string): string {
    stamp + " - " + message
  }

  /** The text Log appends. */
  function Entry(stamp: string, message: string): (r: string)
    ensures |r| > 0 && r[|r| - 1] == '\n' && r[..|r| - 1] == EntryLine(stamp, message)
  {
    EntryLine(stamp, message) + "\n"
  }

  /** The line that reports a trim of `removed` lines. */
  function MarkerLine(stamp: string, removed: int): string {
    stamp + " - [LOG TRIMMED: Removed " + IntToString(removed) + " oldest entries to maintain size limit]"
  }

  function Marker(stamp: string, removed: int): string {
    MarkerLine(stamp, removed) + "\n"
  }

  /** A line of text with no terminator gives a one-line marker. */
  lemma MarkerIsOneLine(stamp: string, removed: int)
    requires OneLine(stamp)
    ensures OneLine(MarkerLine(stamp, removed))
  {
    var d := IntToString(removed);
    var n := NatToString(if removed < 0 then -removed else removed);
    assert OneLine(n);
    if removed < 0 {
      OneLineConcat("-", n);
    }
    OneLineConcat(stamp, " - [LOG TRIMMED: Removed ");
    OneLineConcat(stamp + " - [LOG TRIMMED: Removed ", d);
    OneLineConcat(stamp + " - [LOG TRIMMED: Removed " + d, " oldest entries to maintain size limit]");
  }

  lemma OneLineConcat(a: string, b: string)
    requires OneLine(a) && OneLine(b)
    ensures OneLine(a + b)
  {
    forall i | 0 <= i < |a + b| ensures !IsBreak((a + b)[i]) {
      if i >= |a| {
        assert (a + b)[i] == b[i - |a|];
      }
    }
  }

  /** The file operations that can throw. */
  datatype Step =
    | Create   // File.Create of a missing file
    | Read     // File.ReadAllLines in the trim
    | Rewrite  // File.WriteAllLines of the kept lines
    | Mark     // File.AppendAllText of the trim marker
    | Append   // File.AppendAllText of the entry

  /** What goes to the console instead of the file. */
  datatype Notice = WriteFailed | TrimFailed

  /** A file's text after a step, or None when the file does not exist, with the console output. */
  datatype Logged = Logged(file: Option<string>, notices: seq<Notice>)

  /** TrimOldestEntries. With more than `bufferSize` lines the oldest `bufferSize` are dropped, the rest
      are written back and a marker is appended; a negative `bufferSize` makes Array.Copy throw. Any
      exception is reported on the console and leaves the file as the failing step found it. */
  function TrimOldest(file: Option<string>, bufferSize: int, stamp: string, failing: set<Step>): (r: Logged)
    ensures r.notices == [] || r.notices == [TrimFailed]
    ensures r.file.Some? <==> file.Some?
    ensures file.Some? && Terminated(file.value) ==> Terminated(r.file.value)
  {
    if file.None? || Read in failing then Logged(file, [TrimFailed])
    else
      var lines := Lines(file.value);
      if |lines| <= bufferSize then Logged(file, [])
      else if bufferSize < 0 || Rewrite in failing then Logged(file, [TrimFailed])
      else
        var kept := WriteLines(lines[bufferSize..]);
        if Mark in failing then Logged(Some(kept), [TrimFailed])
        else
          var marked := kept + Marker(stamp, bufferSize);
          assert marked[|marked| - 1] == '\n';
          Logged(Some(marked), [])
  }

  /** The size check of Log on an existing file: a trim when the file is strictly larger than the
      limit, nothing otherwise. */
  function SizeChecked(content: string, maxFileSizeBytes: int, bufferSize: int, stamp: string, failing: set<Step>)
    : (r: Logged)
    ensures r.file.Some? && (Terminated(content) ==> Terminated(r.file.value))
  {
    if Utf8Length(content) > maxFileSizeBytes then TrimOldest(Some(content), bufferSize, stamp, failing)
    else Logged(Some(content), [])
  }

  /** Log: creates a missing file empty, trims when the file is strictly larger than the limit, then
      appends the entry. Nothing is thrown: a failure goes to the console. */
  function AfterLog(file: Option<string>, maxFileSizeBytes: int, bufferSize: int, message: string,
                    trimStamp: string, entryStamp: string, failing: set<Step>): Logged
  {
    if file.None? && Create in failing then Logged(file, [WriteFailed])
    else
      var created := if file.Some? then file.value else "";
      var trimmed := SizeChecked(created, maxFileSizeBytes, bufferSize, trimStamp, failing);
      if Append in failing then Logged(trimmed.file, trimmed.notices + [WriteFailed])
      else
        Logged(Some(trimmed.file.value + Entry(entryStamp, message)), trimmed.notices)
  }

  /** No line read from a file contains a terminator. */
  lemma {:induction false} LinesAreOneLine(s: string)
    ensures forall k :: 0 <= k < |Lines(s)| ==> OneLine(Lines(s)[k])
    decreases |s|
  {
    if s != [] {
      var i := LineEnd(s);
      LinesUnfold(s);
      LineEndFirst(s);
      LinesAreOneLine(s[NextLine(s)..]);
    }
  }

  /** A terminated file with one more line written after it reads as its lines and then that line. */
  lemma AppendLine(s: string, line: string)
    requires Terminated(s) && OneLine(line)
    ensures Lines(s + (line + "\n")) == Lines(s) + [line]
  {
    LinesOfLine(line);
    LinesAppend(s, line + "\n");
  }

  /** When the log can append, the file exists afterwards and ends with the new entry; a file that
      ended with a line feed gains exactly one line, the entry, as its last. */
  lemma LogAppendsEntry(file: Option<string>, maxFileSizeBytes: int, bufferSize: int, message: string,
                        trimStamp: string, entryStamp: string, failing: set<Step>)
    requires Append !in failing && (file.Some? || Create !in failing)
    ensures var r := AfterLog(file, maxFileSizeBytes, bufferSize, message, trimStamp, entryStamp, failing);
      var e := Entry(entryStamp, message);
      && r.file.Some? && |e| <= |r.file.value| && r.file.value[|r.file.value| - |e|..] == e
      && Terminated(r.file.value)
      && (OneLine(EntryLine(entryStamp, message)) && (file.Some? ==> Terminated(file.value)) ==>
            && |Lines(r.file.value)| > 0
            && Lines(r.file.value)[|Lines(r.file.value)| - 1] == EntryLine(entryStamp, message))
  {
    var created := if file.Some? then file.value else "";
    var before := SizeChecked(created, maxFileSizeBytes, bufferSize, trimStamp, failing).file.value;
    var e := Entry(entryStamp, message);
    assert (before + e)[|before + e| - |e|..] == e;
    assert (before + e)[|before + e| - 1] == '\n';
    if OneLine(EntryLine(entryStamp, message)) && (file.Some? ==> Terminated(file.value)) {
      AppendLine(before, EntryLine(entryStamp, message));
    }
  }

  /** Up to the size limit Log only appends: the old text is kept and the entry follows it. */
  lemma LogAppendOnly(file: Option<string>, maxFileSizeBytes: int, bufferSize: int, message: string,
                      trimStamp: string, entryStamp: string, failing: set<Step>)
    requires file.Some? && Utf8Length(file.value) <= maxFileSizeBytes && Append !in failing
    ensures var r := AfterLog(file, maxFileSizeBytes, bufferSize, message, trimStamp, entryStamp, failing);
      && r == Logged(Some(file.value + Entry(entryStamp, message)), [])
      && (Terminated(file.value) && OneLine(EntryLine(entryStamp, message)) ==>
            Lines(r.file.value) == Lines(file.value) + [EntryLine(entryStamp, message)])
  {
    if Terminated(file.value) && OneLine(EntryLine(entryStamp, message)) {
      AppendLine(file.value, EntryLine(entryStamp, message));
    }
  }

  /** A trim of a file of more than `bufferSize` lines keeps the lines after the first `bufferSize`, in
      order, and adds the marker as the last line. */
  lemma TrimDropsOldest(content: string, bufferSize: int, stamp: string, failing: set<Step>)
    requires 0 <= bufferSize < |Lines(content)|
    requires Read !in failing && Rewrite !in failing && Mark !in failing && OneLine(stamp)
    ensures var r := TrimOldest(Some(content), bufferSize, stamp, failing);
      && r.file.Some? && r.notices == []
      && Lines(r.file.value) == Lines(content)[bufferSize..] + [MarkerLine(stamp, bufferSize)]
  {
    var kept := Lines(content)[bufferSize..];
    LinesAreOneLine(content);
    forall k | 0 <= k < |kept| ensures OneLine(kept[k]) {
      assert kept[k] == Lines(content)[bufferSize + k];
    }
    LinesOfWritten(kept);
    MarkerIsOneLine(stamp, bufferSize);
    AppendLine(WriteLines(kept), MarkerLine(stamp, bufferSize));
  }

  /** Over the size limit, a file of more than `bufferSize` lines loses exactly its `bufferSize` oldest
      lines; the rest keep their order and are followed by the trim marker and the entry. */
  lemma LogTrimsOldest(file: Option<string>, maxFileSizeBytes: int, bufferSize: int, message: string,
                       trimStamp: string, entryStamp: string, failing: set<Step>)
    requires file.Some? && Utf8Length(file.value) > maxFileSizeBytes
    requires 0 <= bufferSize < |Lines(file.value)|
    requires Read !in failing && Rewrite !in failing && Mark !in failing && Append !in failing
    requires OneLine(trimStamp) && OneLine(EntryLine(entryStamp, message))
    ensures var r := AfterLog(file, maxFileSizeBytes, bufferSize, message, trimStamp, entryStamp, failing);
      && r.file.Some? && r.notices == []
      && Lines(r.file.value)
         == Lines(file.value)[bufferSize..] + [MarkerLine(trimStamp, bufferSize), EntryLine(entryStamp, message)]
  {
    TrimDropsOldest(file.value, bufferSize, trimStamp, failing);
    var trimmed := TrimOldest(file, bufferSize, trimStamp, failing).file.value;
    AppendLine(trimmed, EntryLine(entryStamp, message));
  }

  /** Over the size limit, a file of at most `bufferSize` lines is not trimmed: no line is dropped, no
      marker is written, and the file stays over the limit. */
  lemma LogTrimNoop(file: Option<string>, maxFileSizeBytes: int, bufferSize: int, message: string,
                    trimStamp: string, entryStamp: string, failing: set<Step>)
    requires file.Some? && Utf8Length(file.value) > maxFileSizeBytes
    requires |Lines(file.value)| <= bufferSize && Read !in failing && Append !in failing
    ensures var r := AfterLog(file, maxFileSizeBytes, bufferSize, message, trimStamp, entryStamp, failing);
      && r == Logged(Some(file.value + Entry(entryStamp, message)), [])
      && Utf8Length(r.file.value) > maxFileSizeBytes
  {
    Utf8LengthAppend(file.value, Entry(entryStamp, message));
  }

  /** A missing file is created first: when creating and appending succeed, it holds just the entry,
      whatever the limits. */
  lemma LogCreatesMissingFile(maxFileSizeBytes: int, bufferSize: int, message: string,
                              trimStamp: string, entryStamp: string, failing: set<Step>)
    requires Create !in failing && Append !in failing
    ensures var r := AfterLog(None, maxFileSizeBytes, bufferSize, message, trimStamp, entryStamp, failing);
      r.file == Some(Entry(entryStamp, message))
  {
    assert Lines("") == [];
    assert "" + Entry(entryStamp, message) == Entry(entryStamp, message);
  }

  /** A failed creation leaves the file missing and only reaches the console. */
  lemma LogCreateFails(maxFileSizeBytes: int, bufferSize: int, message: string,
                       trimStamp: string, entryStamp: string, failing: set<Step>)
    requires Create in failing
    ensures AfterLog(None, maxFileSizeBytes, bufferSize, message, trimStamp, entryStamp, failing)
      == Logged(None, [WriteFailed])
  {
  }

  /** The file system the logger writes to: the text of every existing file, by path. */
  class FileSystem {
    var files: map<string, string>

    constructor (files: map<string, string>)
      ensures this.files == files
    {
      this.files := files;
    }
  }

  function FileAt(files: map<string, string>, path: string): Option<string> {
    if path in files then Some(files[path]) else None
  }

  function Store(files: map<string, string>, path: string, file: Option<string>): map<string, string> {
    if file.Some? then files[path := file.value] else files
  }

  class FileLogger {
    const logFilePath: string
    const maxFileSizeBytes: int
    const bufferSize: int
    /** The file system the log file lives in. */
    const fs: FileSystem

    /** The logger for one file. The log directory is not modelled, so nothing is created here. */
    constructor (logFilePath: string, maxFileSizeBytes: int, bufferSize: int, fs: FileSystem)
      ensures this.logFilePath == logFilePath && this.maxFileSizeBytes == maxFileSizeBytes
      ensures this.bufferSize == bufferSize && this.fs == fs
    {
      this.logFilePath := logFilePath;
      this.maxFileSizeBytes := maxFileSizeBytes;
      this.bufferSize := bufferSize;
      this.fs := fs;
    }

    /** Log(message) as one atomic step under the lock; only the log file changes. */
    method Log(message: string, trimStamp: string, entryStamp: string, failing: set<Step>)
      returns (notices: seq<Notice>)
      modifies fs
      ensures var r := AfterLog(FileAt(old(fs.files), logFilePath), maxFileSizeBytes, bufferSize, message,
                                trimStamp, entryStamp, failing);
        fs.files == Store(old(fs.files), logFilePath, r.file) && notices == r.notices
    {
      notices := [];
      if logFilePath !in fs.files {
        if Create in failing {
          notices := notices + [WriteFailed];
          return;
        }
        fs.files := fs.files[logFilePath := ""];
      }
      var trimNotices := CheckSize(trimStamp, failing);
      notices := notices + trimNotices;
      if Append in failing {
        notices := notices + [WriteFailed];
        return;
      }
      fs.files := fs.files[logFilePath := fs.files[logFilePath] + Entry(entryStamp, message)];
    }

    /** The size check inside Log: trims the existing log file when it is strictly larger than the limit. */
    method CheckSize(stamp: string, failing: set<Step>) returns (notices: seq<Notice>)
      requires logFilePath in fs.files
      modifies fs
      ensures var r := SizeChecked(old(fs.files[logFilePath]), maxFileSizeBytes, bufferSize, stamp, failing);
        fs.files == old(fs.files)[logFilePath := r.file.value] && notices == r.notices
    {
      var length := Utf8Length(fs.files[logFilePath]);
      if length > maxFileSizeBytes {
        notices := TrimOldestEntries(stamp, failing);
      } else {
        notices := [];
        assert fs.files == old(fs.files)[logFilePath := fs.files[logFilePath]];
      }
    }

    /** TrimOldestEntries on the log file. */
    method TrimOldestEntries(stamp: string, failing: set<Step>) returns (notices: seq<Notice>)
      modifies fs
      ensures var r := TrimOldest(FileAt(old(fs.files), logFilePath), bufferSize, stamp, failing);
        fs.files == Store(old(fs.files), logFilePath, r.file) && notices == r.notices
    {
      if logFilePath !in fs.files || Read in failing {
        return [TrimFailed];
      }
      var allLines := Lines(fs.files[logFilePath]);
      if |allLines| <= bufferSize {
        return [];
      }
      if bufferSize < 0 || Rewrite in failing {
        return [TrimFailed];
      }
      var newLines := allLines[bufferSize..];
      fs.files := fs.files[logFilePath := WriteLines(newLines)];
      if Mark in failing {
        return [TrimFailed];
      }
      fs.files := fs.files[logFilePath := fs.files[logFilePath] + Marker(stamp, bufferSize)];
      notices := [];
    }
  }
}
