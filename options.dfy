/** The configuration records the service reads: what to fetch, which tags to remove, how to split and
    clean tag content, and where and how large the log files are. */
module Options {
  import opened Base

  /** One rule of TagSplit. Elements whose local name is `tagName` and whose value `splitPattern` matches
      with two capture groups get, under their parent, the elements of `newTags`: each entry is a local
      name and a template in which "$1" and "$2" stand for the groups. The entries keep the insertion
      order of the dictionary they come from. */
  datatype TagSplitOptions = TagSplitOptions(tagName: string, splitPattern: string, newTags: seq<(string, string)>)

  /** One rule of TagCleanup: in elements whose local name is `tagName`, delete what `cleanupPattern`
      matches and trim the rest. */
  datatype TagCleanupOptions = TagCleanupOptions(tagName: string, cleanupPattern: string)

  /** The "RSSFilter" configuration section. `tagsToRemove` is None when the section has no TagsToRemove
      array (the property is then null). A null TagSplit, TagCleanup or NewTags behaves as an empty one
      and is written as the empty sequence. */
  datatype RSSFilterOptions = RSSFilterOptions(
    inputSource: string,
    tagsToRemove: Option<seq<string>>,
    cleanupTags: bool,
    tagCleanupSettings: seq<TagCleanupOptions>,
    tagSplit: seq<TagSplitOptions>,
    tagCleanup: seq<TagCleanupOptions>)

  /** The "Logging" configuration section. */
  datatype LoggerOptions = LoggerOptions(logDirectory: string, maxFileSizeBytes: int, bufferSize: int)

  /** The options a freshly constructed RSSFilterOptions holds before configuration binds to it. */
  function DefaultFilterOptions(): (o: RSSFilterOptions)
    ensures o.tagsToRemove.None? && !o.cleanupTags && o.tagSplit == [] && o.tagCleanup == []
    ensures |o.tagCleanupSettings| == 2
    ensures o.tagCleanupSettings[0].tagName == "title" && o.tagCleanupSettings[1].tagName == "description"
  {
    RSSFilterOptions(
      "", None, false,
      [TagCleanupOptions("title", "\\sS\\d{2}E\\d{2}.*"), TagCleanupOptions("description", "\\s\\d{3,4}p.*")],
      [], [])
  }

  /** The options a freshly constructed LoggerOptions holds: "logs", 100 KB and 50 lines. */
  function DefaultLoggerOptions(): (o: LoggerOptions)
    ensures o.logDirectory == "logs" && o.maxFileSizeBytes == 100 * 1024 && o.bufferSize == 50
  {
    LoggerOptions("logs", 102400, 50)
  }
}
