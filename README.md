# RSSFilter feed pipeline, retry loop, cache and bounded log, in Dafny

RSSFilter is a small ASP.NET service. It polls an RSS feed, rewrites the feed's XML and serves the
rewritten copy from an in-memory cache. This project models the parts of it that make decisions:

- **The feed rewrite** (`RSSMonitorService.ProcessFeed` and `CleanupTagContent`). It works in three phases:
  - removal of the configured tags, with the special case that keeps a channel's own `link`;
  - regex-driven splitting of an element's text into sibling elements;
  - regex-driven cleanup of element text.

  The XML tree is a forest of nodes. Each element has an identity, a namespace and local name, and
  its children. The pure functions of module `FeedRewrite` say what each phase does to the tree. The
  class `Document.FeedDocument` does the same steps in place, in loops, and is proved to agree with
  those functions. The modules `Removal`, `Splitting` and `Cleaning` prove what each phase
  guarantees.
- **The fetch**:
  - the validation in `FetchAndProcessFeed`: empty content, malformed XML, no root element;
  - the retry loop `FetchAndProcessFeedWithRetry`: at most three attempts, and only some errors are
    retried;
  - `UpdateCachedFeed`, which writes the cache only on success.

  These are in module `Monitor`. Each attempt's network outcome is an input.
- **The single-slot cache** `RSSFeedUpdate` (module `FeedUpdate`).
- **The bounded log** `FileLogger` (module `Logging`). Each entry is appended as a line. When the
  file is over its size limit, the oldest `BufferSize` lines are dropped first and a marker line is
  written. The file system is a map from path to text. The timestamps and the file operations that
  fail are inputs.
- **`FileLoggerFactory`** (module `LoggerFactory`): the path of a stream's log, and a fresh logger
  for every call.

The XML parser and serializer, the regex engine and the XML name check are not reimplemented. They
are function values in a `Platform.Platform` record that every operation takes. Line endings and
path rules are those of .NET on Linux: `Environment.NewLine` is `"\n"` and the directory separator
is `'/'`.

Where the code and its design description disagree, the model follows the code:

- **Empty content.** Only an empty body is rejected (`string.IsNullOrEmpty`). A body of white space
  goes on to the parser.
- **An invalid regex fails the whole cycle.** The split rule builds its `Regex` before its loop. The
  cleanup rule calls `Regex.Replace` on the first element that has a value. Neither exception is
  caught per rule, so each propagates out of `ProcessFeed`.
- **The cleanup rules come from `TagCleanup`.** The cleanup phase reads `TagCleanup`, not
  `TagCleanupSettings`, so `TagCleanupSettings` is never used.
- **Defaults of the split and cleanup rules.** `RSSFilter/Models/RSSFilterOptions.cs` declares
  neither `TagSplit` nor `TagCleanup`, although the service uses both. Their default (empty) follows
  the options tests.
- **A missing root element** is its own error, `MissingRoot`, since the code throws an
  `InvalidOperationException` for it. It is not counted as a parse failure.

## Model

| member | source | states |
|---|---|---|
| Strings.Trim | RSSFilter/Services/RSSMonitorService.cs:312 | the result has no white space at either end, and it is empty exactly when the input is all white space |
| Strings.TrimIsInfix | RSSFilter/Services/RSSMonitorService.cs:360 | Trim keeps one contiguous piece of its input and cuts only white space around it |
| Strings.TrimIdempotent | RSSFilter/Services/RSSMonitorService.cs:360 | trimming twice gives the same result as trimming once |
| Strings.Split | RSSFilter/Services/RSSMonitorService.cs:224 | there is always at least one piece; there are two or more exactly when the separator occurs; no piece contains the separator |
| Strings.JoinSplit | RSSFilter/Services/RSSMonitorService.cs:224 | joining the pieces of a split with the separator gives back the input |
| Strings.SplitJoin | RSSFilter/Services/RSSMonitorService.cs:224 | splitting a join of separator-free pieces gives back the pieces |
| Strings.ReplaceAbsent | RSSFilter/Services/RSSMonitorService.cs:301-303 | a string in which the pattern does not occur is left unchanged by Replace |
| Strings.ReplaceBySelf | RSSFilter/Services/RSSMonitorService.cs:301-303 | replacing a pattern by itself changes nothing |
| Strings.ReplaceWhole | RSSFilter/Services/RSSMonitorService.cs:301-303 | the whole pattern is replaced by the whole replacement |
| Strings.Utf8Length | RSSFilter/Services/FileLogger.cs:41-43 | a file's length in bytes is between its number of characters and four times that |
| Strings.Utf8LengthAppend | RSSFilter/Services/FileLogger.cs:43-50 | the byte length of appended text is the sum of the two lengths |
| Strings.NatToString | RSSFilter/Services/FileLogger.cs:81 | a number is printed as a non-empty run of decimal digits |
| XTree.Find | RSSFilter/Services/RSSMonitorService.cs:351-352 | an element is found exactly when its identity is in the tree, and the one found has that identity |
| XTree.ParentOf | RSSFilter/Services/RSSMonitorService.cs:290-292 | XElement.Parent, when there is one, is an element that holds the element as a direct child |
| XTree.ParentOfFound | RSSFilter/Services/RSSMonitorService.cs:290-292 | the parent is in the tree, it is found again by its identity, and the element is among its children |
| XTree.FirstChildNamed | RSSFilter/Services/RSSMonitorService.cs:306-307 | the search finds nothing exactly when no element child has that local name; otherwise it finds the first child with it |
| XTree.IdsNamedFound | RSSFilter/Services/RSSMonitorService.cs:273 | the snapshot by local name lists exactly the elements of the tree that have that local name: each listed one has it, and each element with it is listed |
| XTree.IdsNamedOrdered | RSSFilter/Services/RSSMonitorService.cs:351-352 | Descendants lists each element before its descendants and never lists an element twice |
| XTree.SetValueDetaches | RSSFilter/Services/RSSMonitorService.cs:360 | assigning Value to an element takes everything that was below it out of the document |
| XTree.SetValueElsewhere | RSSFilter/Services/RSSMonitorService.cs:360 | assigning Value to an element leaves every element that is neither it, nor above it, nor below it exactly as it was |
| XTree.InsertAfterElsewhere | RSSFilter/Services/RSSMonitorService.cs:328 | AddAfterSelf leaves every element that is not above the element it is called on exactly as it was |
| XTree.PruneIds | RSSFilter/Services/RSSMonitorService.cs:213 | removing elements only drops identities, so the identities left stay distinct |
| XTree.PruneSound | RSSFilter/Services/RSSMonitorService.cs:207-213 | after Extensions.Remove, no element the selection picks is left anywhere in the tree |
| XTree.PruneCorresponds | RSSFilter/Services/RSSMonitorService.cs:229 | every element left was there before, under the same parent, with the same identity and name, and its children are its old children pruned |
| XTree.PruneKeeps | RSSFilter/Services/RSSMonitorService.cs:239 | every text node and every element the selection does not pick is kept, with its children pruned |
| XTree.SetValueIds | RSSFilter/Services/RSSMonitorService.cs:312 | assigning Value only drops identities, so the identities left stay distinct |
| XTree.FindAfterSetValue | RSSFilter/Services/RSSMonitorService.cs:360 | after assigning Value, the element keeps its identity and name and holds exactly one text node with the new text |
| XTree.FindAboveSetValue | RSSFilter/Services/RSSMonitorService.cs:312 | assigning Value below an element rewrites that element's content and nothing else about it |
| XTree.SetValueLevel | RSSFilter/Services/RSSMonitorService.cs:312 | assigning Value on the child at position j replaces only that child, by the same element holding only the text |
| XTree.InsertAfterIds | RSSFilter/Services/RSSMonitorService.cs:328 | AddAfterSelf with a fresh element adds only its identity and keeps identities distinct |
| XTree.FindAboveInsertAfter | RSSFilter/Services/RSSMonitorService.cs:328 | AddAfterSelf below an element rewrites that element's content and nothing else about it |
| XTree.InsertAfterLevel | RSSFilter/Services/RSSMonitorService.cs:328 | AddAfterSelf on the child at position j puts the new node at position j + 1 and moves nothing else |
| XTree.InsertAfterTwice | RSSFilter/Services/RSSMonitorService.cs:295-329 | two nodes added after the same element end up right after it, in reverse order of insertion |
| XTree.InsertFresh | RSSFilter/Services/RSSMonitorService.cs:325-328 | a new element with a fresh identity and only text inside keeps the tree well formed |
| XTree.FindNested | RSSFilter/Services/RSSMonitorService.cs:306 | an element below the parent is found the same way from the document and from the parent's content |
| XTree.Bound | RSSFilter/Services/RSSMonitorService.cs:123 | the first identity given to a new element is above every identity in the parsed document |
| FeedRewrite.RemoveTag | RSSFilter/Services/RSSMonitorService.cs:201-240 | one entry of TagsToRemove only removes elements, and keeps identities distinct |
| FeedRewrite.RemoveTags | RSSFilter/Services/RSSMonitorService.cs:201-241 | the whole list of removals only removes elements, and keeps identities distinct |
| FeedRewrite.ApplyNewTag | RSSFilter/Services/RSSMonitorService.cs:297-330 | one entry of NewTags keeps the document well formed and never reuses an identity |
| FeedRewrite.ApplyNewTags | RSSFilter/Services/RSSMonitorService.cs:295-331 | all entries of NewTags keep the document well formed |
| FeedRewrite.SplitElement | RSSFilter/Services/RSSMonitorService.cs:275-333 | a split of one element keeps the document well formed |
| FeedRewrite.SplitElements | RSSFilter/Services/RSSMonitorService.cs:273-334 | the split of every element in the snapshot keeps the document well formed |
| FeedRewrite.SplitRule | RSSFilter/Services/RSSMonitorService.cs:261-335 | a TagSplit rule keeps the document well formed |
| FeedRewrite.SplitRules | RSSFilter/Services/RSSMonitorService.cs:259-338 | all TagSplit rules keep the document well formed |
| FeedRewrite.CleanupElement | RSSFilter/Services/RSSMonitorService.cs:354-360 | a cleanup of one element keeps the document well formed and creates no element |
| FeedRewrite.CleanupElements | RSSFilter/Services/RSSMonitorService.cs:351-361 | cleaning every listed element keeps the document well formed and creates no element |
| FeedRewrite.CleanupRule | RSSFilter/Services/RSSMonitorService.cs:343-362 | a TagCleanup rule keeps the document well formed and creates no element |
| FeedRewrite.CleanupRules | RSSFilter/Services/RSSMonitorService.cs:341-365 | all TagCleanup rules keep the document well formed and create no element |
| FeedRewrite.CleanupTagContent | RSSFilter/Services/RSSMonitorService.cs:256-366 | the split rules and then the cleanup rules keep the document well formed |
| FeedRewrite.ProcessFeed | RSSFilter/Services/RSSMonitorService.cs:193-254 | the removals and then, when CleanupTags is set, the content rules keep the document well formed |
| FeedRewrite.RemoveTagsStops | RSSFilter/Services/RSSMonitorService.cs:249-253 | once an entry of TagsToRemove fails, the later entries do not matter: the failure is the result |
| FeedRewrite.ApplyNewTagsStops | RSSFilter/Services/RSSMonitorService.cs:295-331 | once an entry of NewTags fails, the failure is the result of the loop |
| FeedRewrite.SplitElementsStops | RSSFilter/Services/RSSMonitorService.cs:275-334 | once the split of an element fails, the failure is the result of the rule |
| FeedRewrite.SplitRulesStops | RSSFilter/Services/RSSMonitorService.cs:261-335 | once a split rule fails, the later rules do not run |
| FeedRewrite.CleanupElementsStops | RSSFilter/Services/RSSMonitorService.cs:351-361 | once the cleanup of an element fails, the failure is the result of the rule |
| FeedRewrite.CleanupRulesStops | RSSFilter/Services/RSSMonitorService.cs:343-362 | once a cleanup rule fails, the later rules do not run |
| Removal.PruneKeepsAbsent | RSSFilter/Services/RSSMonitorService.cs:213 | removing elements never brings back an element that was absent |
| Removal.PruneMakesAbsent | RSSFilter/Services/RSSMonitorService.cs:229 | after a removal, no element that it selects is left |
| Removal.RemoveTagKeepsAbsent | RSSFilter/Services/RSSMonitorService.cs:201-240 | no entry of TagsToRemove brings back an element that an earlier entry removed |
| Removal.RemoveLink | RSSFilter/Services/RSSMonitorService.cs:204-218 | "link" never fails and removes every default-namespace link whose parent is missing or is not a channel; every link child of a kept channel is kept |
| Removal.RemovePlain | RSSFilter/Services/RSSMonitorService.cs:236-240 | a plain tag fails exactly when it is not a valid XML name; otherwise no element of that local name in the default namespace is left |
| Removal.PrefixedTagParts | RSSFilter/Services/RSSMonitorService.cs:224 | "prefix:local" splits into the prefix and the local name |
| Removal.RemovePrefixed | RSSFilter/Services/RSSMonitorService.cs:221-235 | "prefix:local" changes nothing when the root is gone or the prefix is unbound; it fails on an empty prefix or an invalid local name; otherwise no element of that name in the bound namespace is left |
| Removal.RemoveTagsSound | RSSFilter/Services/RSSMonitorService.cs:201-241 | after the whole list, no element named by a plain entry is left, none named by a "prefix:local" entry whose prefix is bound, and when "link" is listed no link outside a channel is left |
| Removal.RemovePrefixedEntry | RSSFilter/Services/RSSMonitorService.cs:221-231 | a "prefix:local" entry with a bound prefix leaves no element of that local name in the bound namespace, whether the root is there or gone |
| Splitting.SubstituteFirstGroup | RSSFilter/Services/RSSMonitorService.cs:301-303 | the template "$1" gives the first group, with any "$2" in it then replaced by the second group |
| Splitting.SubstituteSecondGroup | RSSFilter/Services/RSSMonitorService.cs:301-303 | the template "$2" gives the second group unchanged |
| Splitting.SubstitutePlain | RSSFilter/Services/RSSMonitorService.cs:301-303 | a template with no "$1" or "$2" is used unchanged |
| Splitting.ChildrenFacts | RSSFilter/Services/RSSMonitorService.cs:306 | the children of the parent are what the parent holds, and their identities are distinct and in the document |
| Splitting.ApplyNewTagEffect | RSSFilter/Services/RSSMonitorService.cs:300-329 | if the parent has a child with the new name, the first one gets the trimmed text and nothing else moves; otherwise the name differs from the matched tag's name, and a valid name adds an element in the parent's namespace holding the untrimmed text, right after the matched element, while an invalid name fails; the new document is that one assignment or that one insertion |
| Splitting.ApplyNewTagExisting | RSSFilter/Services/RSSMonitorService.cs:306-313 | when the parent has a child with the new name, the first such child gets the trimmed text where it stands, the new document is that one assignment, and no identity is used up |
| Splitting.ApplyNewTagInserted | RSSFilter/Services/RSSMonitorService.cs:323-329 | with no such child and a valid new name, a new element in the parent's namespace holding the untrimmed text is placed right after the matched element, and the new document is that one insertion |
| Splitting.ApplyNewTagFrame | RSSFilter/Services/RSSMonitorService.cs:306-329 | one entry of NewTags leaves exactly as it was every element unrelated to the node it changes: the existing child it assigns, or the matched element it inserts after |
| Splitting.ApplyNewTagKeepsChild | RSSFilter/Services/RSSMonitorService.cs:297-330 | one entry of NewTags keeps the matched element as a child of its parent, under its name |
| Splitting.ApplyNewTagsKeepsChild | RSSFilter/Services/RSSMonitorService.cs:295-331 | every prefix of NewTags keeps the matched element as a child of its parent, under its name |
| Splitting.SameNameBranchNeverTaken | RSSFilter/Services/RSSMonitorService.cs:318-321 | whenever an entry has the matched element's own local name, the search for an existing child finds one, so the branch that assigns the matched element is never taken |
| Splitting.SplitParent | RSSFilter/Services/RSSMonitorService.cs:290-292 | a visited element that has a parent is a child of that parent under its own local name |
| Splitting.NewTagsInReverseOrder | RSSFilter/Services/RSSMonitorService.cs:324-328 | two new tags that are not yet children of the parent end up right after the matched element in reverse order of declaration |
| Cleaning.CleanupElementEffect | RSSFilter/Services/RSSMonitorService.cs:351-360 | a visited element still in the document with a non-empty value ends up holding exactly the trimmed text with the pattern's matches deleted, under its name; an empty value changes nothing; an invalid pattern fails only when there is a value to clean; the new document is that one assignment |
| Cleaning.CleanupElementFrame | RSSFilter/Services/RSSMonitorService.cs:354-360 | a visit leaves every element that is neither the visited element, nor above it, nor below it exactly as it was |
| Cleaning.CleanupElementCleans | RSSFilter/Services/RSSMonitorService.cs:354-360 | an element with a value, under a valid pattern, ends up holding only the trimmed text with the matches deleted, under its identity and name |
| Cleaning.CleanupElementsInvalid | RSSFilter/Services/RSSMonitorService.cs:351-361 | with an invalid pattern, the visits fail exactly when some listed element still in the document has a value, and otherwise change nothing |
| Cleaning.CleanupElementsValid | RSSFilter/Services/RSSMonitorService.cs:351-361 | with a valid pattern, the visits never fail |
| Cleaning.CleanupRuleCleans | RSSFilter/Services/RSSMonitorService.cs:343-361 | a rule with an empty tag name or pattern changes nothing; a rule that succeeds leaves every element of its local name whose value was not empty holding exactly that value with the pattern's matches deleted and then trimmed, unless an element of the same local name above it, which had a value, was cleaned first and took it out of the document |
| Cleaning.CleanupRuleFails | RSSFilter/Services/RSSMonitorService.cs:343-362 | a cleanup rule fails exactly when it is not skipped, its pattern is invalid and some element of its local name has a non-empty value |
| Document.FeedDocument.constructor | RSSFilter/Services/RSSMonitorService.cs:123 | the parsed document is well formed and holds the parsed nodes and root declarations |
| Document.FeedDocument.RemoveTag | RSSFilter/Services/RSSMonitorService.cs:201-240 | one entry of TagsToRemove, in place, leaves the document that FeedRewrite.RemoveTag computes, or fails with its error and changes nothing |
| Document.FeedDocument.RemoveTags | RSSFilter/Services/RSSMonitorService.cs:201-241 | the in-place loop over TagsToRemove agrees with FeedRewrite.RemoveTags, and stops at the first failing entry |
| Document.FeedDocument.ProcessFeed | RSSFilter/Services/RSSMonitorService.cs:193-254 | the in-place loop over TagsToRemove and then the content rules end in the document FeedRewrite.ProcessFeed computes, or fail with its error |
| Document.FeedDocument.CleanupTagContent | RSSFilter/Services/RSSMonitorService.cs:256-366 | the in-place loops over the split rules and then the cleanup rules end in the document FeedRewrite.CleanupTagContent computes, or fail with its error |
| Document.FeedDocument.SplitTags | RSSFilter/Services/RSSMonitorService.cs:259-338 | the in-place loop over the TagSplit rules agrees with FeedRewrite.SplitRules |
| Document.FeedDocument.CleanupTags | RSSFilter/Services/RSSMonitorService.cs:341-365 | the in-place loop over the TagCleanup rules agrees with FeedRewrite.CleanupRules |
| Document.FeedDocument.SplitTag | RSSFilter/Services/RSSMonitorService.cs:261-335 | one split rule, in place, over a snapshot of the matching elements, agrees with FeedRewrite.SplitRule |
| Document.FeedDocument.SplitEach | RSSFilter/Services/RSSMonitorService.cs:273-334 | the in-place loop over the snapshot of matching elements agrees with FeedRewrite.SplitElements |
| Document.FeedDocument.SplitElement | RSSFilter/Services/RSSMonitorService.cs:275-333 | one visited element, in place, agrees with FeedRewrite.SplitElement |
| Document.FeedDocument.AddNewTags | RSSFilter/Services/RSSMonitorService.cs:295-331 | the in-place loop over NewTags agrees with FeedRewrite.ApplyNewTags |
| Document.FeedDocument.AddNewTag | RSSFilter/Services/RSSMonitorService.cs:297-330 | one entry of NewTags, in place, agrees with FeedRewrite.ApplyNewTag |
| Document.FeedDocument.CleanupTag | RSSFilter/Services/RSSMonitorService.cs:343-362 | one cleanup rule, in place, re-reads each element's value when it is visited and agrees with FeedRewrite.CleanupRule |
| Document.FeedDocument.CleanupElement | RSSFilter/Services/RSSMonitorService.cs:351-360 | one visited element, in place, agrees with FeedRewrite.CleanupElement |
| Monitor.FetchAndProcess | RSSFilter/Services/RSSMonitorService.cs:110-144 | a result means the body was non-empty and parsed; an empty body fails with EmptyContent and malformed XML with XmlError |
| Monitor.FetchAndProcessFeed | RSSFilter/Services/RSSMonitorService.cs:110-144 | the fetched document is parsed, checked for a root and processed in place; the result matches FetchAndProcess, and the document is new and well formed |
| Monitor.Retry | RSSFilter/Services/RSSMonitorService.cs:146-191 | the retry loop ends after at least the first and at most three attempts |
| Monitor.RetryEarlierAttemptsRetriable | RSSFilter/Services/RSSMonitorService.cs:160-179 | every attempt before the last one failed with a retriable error: HTTP status 500 or more, 408, or a cancellation |
| Monitor.RetryEnds | RSSFilter/Services/RSSMonitorService.cs:155-190 | the last attempt's success is returned, its non-retriable error is rethrown, and a retriable failure is last only at attempt three, where the recorded error is thrown, with a TimeoutException in place of a cancellation |
| Monitor.RetrySucceeds | RSSFilter/Services/RSSMonitorService.cs:146-191 | the loop succeeds exactly when one of the three attempts succeeds and every earlier attempt failed with a retriable error |
| Monitor.FetchAndProcessFeedWithRetry | RSSFilter/Services/RSSMonitorService.cs:146-191 | the while loop's result and number of attempts are those of Retry, and it waits once between attempts, never after the last |
| Monitor.UpdateCachedFeed | RSSFilter/Services/RSSMonitorService.cs:86-108 | on success the cache holds the serialized feed and the current time; on failure the error is rethrown and the cache is unchanged |
| FeedUpdate.RSSFeedUpdate.constructor | RSSFilter/Services/RSSFeedUpdate.cs:7-9 | a new cache holds the empty string and DateTime.MinValue |
| FeedUpdate.RSSFeedUpdate.UpdateFeed | RSSFilter/Services/RSSFeedUpdate.cs:16-21 | the cache holds the given feed and the current time |
| FeedUpdate.RSSFeedUpdate.GetLatestFeed | RSSFilter/Services/RSSFeedUpdate.cs:23-28 | returns the cached feed and changes neither field |
| FeedUpdate.FreshCacheIsEmpty | RSSFilter.Tests/Services/RSSFeedUpdateTests.cs:33-44 | before any update the cache serves the empty string |
| FeedUpdate.UpdateThenGet | RSSFilter.Tests/Services/RSSFeedUpdateTests.cs:18-31 | after an update the cache serves exactly what was stored |
| FeedUpdate.LastWriteWins | RSSFilter.Tests/Services/RSSFeedUpdateTests.cs:46-62 | after two updates the second feed and its time are kept |
| Logging.LineEnd | RSSFilter/Services/FileLogger.cs:65 | a line ends at a CR or LF, or at the end of the text |
| Logging.LineEndFirst | RSSFilter/Services/FileLogger.cs:65 | no CR or LF comes before the end of the first line |
| Logging.LineEndAt | RSSFilter/Services/FileLogger.cs:65 | the first line ends at or before any CR or LF, and exactly at one that no other precedes |
| Logging.LinesAreOneLine | RSSFilter/Services/FileLogger.cs:65 | no line read from a file contains a line terminator |
| Logging.WriteLines | RSSFilter/Services/FileLogger.cs:78 | File.WriteAllLines writes text that is empty or ends with a line feed |
| Logging.LinesOfWritten | RSSFilter/Services/FileLogger.cs:65-78 | lines written with WriteAllLines read back as the same lines |
| Logging.LinesAppend | RSSFilter/Services/FileLogger.cs:50 | appending to a file that ends with a line feed leaves its lines as they were, followed by the lines of the appended text |
| Logging.LinesOfLine | RSSFilter/Services/FileLogger.cs:49-50 | one line written with its line feed reads back as that line |
| Logging.AppendLine | RSSFilter/Services/FileLogger.cs:49-50 | a file that ends with a line feed, plus one line, reads as its lines followed by that line |
| Logging.Entry | RSSFilter/Services/FileLogger.cs:49 | the text appended is the entry line "stamp - message" and one line feed |
| Logging.MarkerIsOneLine | RSSFilter/Services/FileLogger.cs:81 | the trim marker is a single line when its stamp is |
| Logging.TrimOldest | RSSFilter/Services/FileLogger.cs:60-89 | a trim reports at most one console notice, never creates or deletes the file, and leaves a file that ended with a line feed still ending with one |
| Logging.SizeChecked | RSSFilter/Services/FileLogger.cs:41-46 | the file exists after the size check and still ends with a line feed if it did before |
| Logging.TrimDropsOldest | RSSFilter/Services/FileLogger.cs:73-82 | with more than bufferSize lines, the lines after the first bufferSize are kept in order and the marker reporting bufferSize removed entries is the last line |
| Logging.LogAppendsEntry | RSSFilter/Services/FileLogger.cs:28-58 | when appending succeeds, the file exists, ends with the new entry and a line feed, and the entry is its last line |
| Logging.LogAppendOnly | RSSFilter/Services/FileLogger.cs:43-50 | at or under the size limit the old text is kept and the entry follows it, as exactly one new line |
| Logging.LogTrimsOldest | RSSFilter/Services/FileLogger.cs:43-82 | strictly over the limit with more than bufferSize lines, the file becomes its lines after the first bufferSize, then the marker, then the entry |
| Logging.LogTrimNoop | RSSFilter/Services/FileLogger.cs:65-71 | strictly over the limit with at most bufferSize lines, nothing is dropped, no marker is written, and the file stays over the limit |
| Logging.LogCreatesMissingFile | RSSFilter/Services/FileLogger.cs:35-38 | a missing file is created empty, so afterwards it holds just the entry, whatever the limits |
| Logging.LogCreateFails | RSSFilter/Services/FileLogger.cs:53-57 | when the file cannot be created, it stays missing and only a console notice is written; nothing is thrown |
| Logging.FileLogger.constructor | RSSFilter/Services/FileLogger.cs:13-26 | the logger keeps the path, the size limit and the trim size it was given |
| Logging.FileLogger.Log | RSSFilter/Services/FileLogger.cs:28-58 | one Log call, in place, changes only the log file, as AfterLog says, and returns the console notices instead of throwing |
| Logging.FileLogger.CheckSize | RSSFilter/Services/FileLogger.cs:41-46 | the size check of Log, in place, trims the file exactly when it is strictly over the limit, as SizeChecked says |
| Logging.FileLogger.TrimOldestEntries | RSSFilter/Services/FileLogger.cs:60-89 | the in-place trim changes only the log file, as TrimOldest says |
| LoggerFactory.CombineParts | RSSFilter/Services/FileLoggerFactory.cs:18 | Path.Combine ends with its second part, and starts with its first part when the second is neither empty nor rooted |
| LoggerFactory.LogPathExtension | RSSFilter/Services/FileLoggerFactory.cs:18 | the log path ends in ".log" |
| LoggerFactory.CombineInjective | RSSFilter/Services/FileLoggerFactory.cs:18 | under one directory, different non-rooted second parts give different paths |
| LoggerFactory.WithExtension | RSSFilter/Services/FileLoggerFactory.cs:18 | adding ".log" keeps different names different and does not change whether a name is rooted |
| LoggerFactory.DistinctNamesDistinctPaths | RSSFilter.Tests/Services/FileLoggerFactoryTests.cs:43-70 | two different stream names that are not rooted paths get different log files |
| LoggerFactory.RootedNameEscapesDirectory | RSSFilter/Services/FileLoggerFactory.cs:18 | a rooted stream name ignores the directory, so it can name another stream's file |
| LoggerFactory.FileLoggerFactory.constructor | RSSFilter/Services/FileLoggerFactory.cs:11-14 | the factory keeps the options it was given |
| LoggerFactory.FileLoggerFactory.CreateLogger | RSSFilter/Services/FileLoggerFactory.cs:16-21 | every call returns a new logger for the directory combined with name + ".log", with exactly the options' MaxFileSizeBytes and BufferSize |
| Options.DefaultFilterOptions | RSSFilter/Models/RSSFilterOptions.cs:3-21 | by default TagsToRemove is missing, CleanupTags is off, TagSplit and TagCleanup are empty, and TagCleanupSettings holds the title and description rules |
| Options.DefaultLoggerOptions | RSSFilter/Models/LoggerOptions.cs:5-7 | by default the logs go to "logs", the limit is 100 * 1024 bytes and the trim size is 50 lines |

## Left out

- Network fetching (`HttpClient.GetStringAsync`) is not modelled. Each attempt's outcome is an input of the model: the body, an HTTP error with an optional status, a cancellation, or any other failure.
- Timing is not modelled. This covers `ExecuteAsync` and its five-minute poll, the five-second retry delay, the HTTP client timeout and cancellation tokens. The retry loop counts its waits instead of waiting.
- `HandleException` and every `_logger.Log` call inside the monitor and the cache are not modelled. They only write messages.
- The XML parser and serializer (`XDocument.Parse`, `ToString`), the .NET regex engine and the NCName check are inputs, not reimplementations. A parse yields top-level nodes whose identities are distinct, plus the root's namespace declarations.
- Attributes, comments and processing instructions are not in the tree. The rewrite neither reads nor changes them.
- The branch in `UpdateCachedFeed` for a null processed document is left out, because `FetchAndProcessFeedWithRetry` never returns null.
- `RSSFilter/Program.cs` is not part of this model. It holds the host wiring and the routes, including the `/refresh` route that calls `FetchAndProcessFeed` without retry.
- The `lock` in `FileLogger.Log` is not modelled: a Log call is one atomic step.
- The directory creation in the `FileLogger` constructor is not modelled, because the file system model has no directories.
- `Console.WriteLine` is replaced by the list of notices a call returns. The exception messages are not modelled.
- Logging.FileLogger.Log: a failing `File.WriteAllLines` is taken to leave the file as it was. A write that fails halfway is not modelled.
- Logging.Lines: a file is text read as UTF-8 without a byte order mark. Invalid UTF-8 is not modelled.
- Logging.LogAppendsEntry: the statement about lines holds only when the message has no line break and the existing file ends with a line feed. A file in any other state is only stated to end with the entry.
- Monitor.FetchAndProcess: an XML name error inside the rewrite is an error value like any other exception. Its exact .NET exception type (`XmlException`) is not distinguished. Either way it is not retried.
- Document.FeedDocument.ProcessFeed: after an error, the state of the document is not specified. The document is dropped by its caller.
- FeedRewrite.ProcessFeed: the functions of the rewrite state only well-formedness in their own contracts, and no lemma states what the whole pass leaves. What the removals leave is Removal.RemoveTagsSound. What one cleanup rule leaves is Cleaning.CleanupRuleCleans. For splitting, only the effect of one NewTags entry is stated (Splitting.ApplyNewTagEffect and Splitting.ApplyNewTagFrame), not the document a whole split rule leaves.
- FeedRewrite.CleanupElements: its own contract states only well-formedness. What the visits leave in each listed element is stated for the whole rule by Cleaning.CleanupRuleCleans.
- FeedRewrite.CleanupRule: its own contract states only well-formedness. What it leaves in each element of its local name is Cleaning.CleanupRuleCleans.
- Cleaning.CleanupRuleCleans: it states what each element of the rule's local name ends up holding, not that elements of other names are left alone. Elements above a cleaned one change with it, as Value does in .NET.
- Splitting.NewTagsInReverseOrder: the reverse-order property is proved for two new tags. Longer lists of NewTags are covered step by step by ApplyNewTagEffect.
- Splitting.SameNameBranchNeverTaken: this is stated for the NewTags loop of one matched element that is a child of its parent under its own name. Splitting.SplitParent gives that premise for every visited element.
- Detached elements: the split snapshot and the lazy cleanup query visit only elements still in the document. An element under a removed subtree is skipped. In .NET it would be changed inside the detached subtree, where the document never shows the change.
- LoggerFactory.DistinctNamesDistinctPaths: this holds only for names that are not rooted paths. `Path.Combine` drops the directory for a rooted name, as LoggerFactory.RootedNameEscapesDirectory shows.
- Path rules are those of Linux. Windows separators and drive letters are not modelled.
- 64-bit limits are not modelled. The file size (`long`) and `BufferSize` (`int`) are unbounded integers. A negative `BufferSize` is modelled: `Array.Copy` throws, and the trim is reported on the console.
