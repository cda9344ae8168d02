/** FileLoggerFactory: one log file per stream name, under the configured directory. */
module LoggerFactory {
  import opened Options
  import opened Logging

  /** Path.IsPathRooted on Unix. */
  predicate IsRooted(path: string) {
    |path| > 0 && path[0] == '/'
  }

  /** Path.Combine(first, second) on Unix: an empty first part or a rooted second part gives the
      second part; otherwise the two are joined with one '/'. */
  function Combine(first: string, second: string): string {
    if first == [] then second
    else if second == [] then first
    else if IsRooted(second) then second
    else if first[|first| - 1] == '/' then first + second
    else first + "/" + second
  }

  /** Path.Combine ends with its second part, and starts with its first part when the second part is
      neither empty nor rooted. */
  lemma CombineParts(first: string, second: string)
    ensures var r := Combine(first, second);
      && |second| <= |r| && r[|r| - |second|..] == second
      && (second != [] && !IsRooted(second) ==> |first| <= |r| && r[..|first|] == first)
  {
    var r := Combine(first, second);
    if first != [] && second != [] && !IsRooted(second) {
      assert r[..|first|] == first;
      assert r[|r| - |second|..] == second;
    }
  }

  /** The path of the log for stream `logName`. */
  function LogPath(logDirectory: string, logName: string): string {
    Combine(logDirectory, logName + ".log")
  }

  /** Every log file name ends in ".log". */
  lemma LogPathExtension(logDirectory: string, logName: string)
    ensures var r := LogPath(logDirectory, logName); |r| >= 4 && r[|r| - 4..] == ".log"
  {
    var r := LogPath(logDirectory, logName);
    CombineParts(logDirectory, logName + ".log");
    assert r[|r| - 4..] == r[|r| - |logName + ".log"|..][|logName|..];
  }

  /** Combining a fixed first part with different second parts that are not rooted gives different
      paths. */
  lemma CombineInjective(first: string, a: string, b: string)
    requires a != [] && b != [] && !IsRooted(a) && !IsRooted(b) && a != b
    ensures Combine(first, a) != Combine(first, b)
  {
    if first != [] {
      var sep := if first[|first| - 1] == '/' then "" else "/";
      var prefix := first + sep;
      assert Combine(first, a) == prefix + a && Combine(first, b) == prefix + b;
      assert (prefix + a)[|prefix|..] == a && (prefix + b)[|prefix|..] == b;
    }
  }

  /** Adding ".log" keeps names apart and does not change whether a name is rooted. */
  lemma WithExtension(a: string, b: string)
    requires a != b
    ensures a + ".log" != b + ".log"
    ensures IsRooted(a + ".log") == IsRooted(a)
  {
    var x, y := a + ".log", b + ".log";
    assert x[..|x| - 4] == a && y[..|y| - 4] == b;
    if a != [] {
      assert x[0] == a[0];
    }
  }

  /** Two stream names that are not rooted paths get two different log files. */
  lemma DistinctNamesDistinctPaths(logDirectory: string, a: string, b: string)
    requires a != b && !IsRooted(a) && !IsRooted(b)
    ensures LogPath(logDirectory, a) != LogPath(logDirectory, b)
  {
    WithExtension(a, b);
    WithExtension(b, a);
    CombineInjective(logDirectory, a + ".log", b + ".log");
  }

  /** A rooted stream name ignores the directory, so it can name the file of another stream. */
  lemma RootedNameEscapesDirectory()
    ensures LogPath("/d", "/d/x") == LogPath("/d", "x")
  {
    var p := "/d/x" + ".log";
    assert p[0] == '/';
    var q := LogPath("/d", "x");
    assert q == "/d" + "/" + "x.log";
  }

  class FileLoggerFactory {
    const options: LoggerOptions
    /** The file system the created loggers write to. */
    const fs: FileSystem

    constructor (options: LoggerOptions, fs: FileSystem)
      ensures this.options == options && this.fs == fs
    {
      this.options := options;
      this.fs := fs;
    }

    /** A new logger for `logName` on every call, with the configured size limit and trim size. */
    method CreateLogger(logName: string) returns (logger: FileLogger)
      ensures fresh(logger)
      ensures logger.logFilePath == LogPath(options.logDirectory, logName)
      ensures logger.maxFileSizeBytes == options.maxFileSizeBytes && logger.bufferSize == options.bufferSize
      ensures logger.fs == fs
    {
      var logPath := Combine(options.logDirectory, logName + ".log");
      logger := new FileLogger(logPath, options.maxFileSizeBytes, options.bufferSize, fs);
    }
  }
}
