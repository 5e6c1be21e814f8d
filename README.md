# JsonToXml: attribute statistics from JSON files to XML reports

JsonToXml reads a directory of JSON files. Each file is an array of objects.
The program counts how often each value of some chosen attributes occurs
(for example `genre` or `author`). It then writes one XML report per
attribute, `statistics_by_<attribute>.xml`, listing the values by
descending count.

This project models the core of that pipeline in Dafny and proves
properties of the model:

- **`JsonProcessor`** (modules `JavaStrings`, `Extraction`, `Counting`, `JsonProcessing`).
  - The `.json` file filter.
  - The walk over an already-parsed document:
    - the root must be an array of objects;
    - nested objects are walked at any depth;
    - arrays are flattened one level, their values going under the parent key.
  - `parseValues`: Java's `split(",")` followed by `trim()`, written out character by character.
  - The shared two-level count map and its one update, `computeIfAbsent(...).merge(value, 1, Integer::sum)`.
  - What is recorded from a file is a pure function, `Extraction.RootRecords`. The imperative walk (class `JsonProcessing.JsonProcessor`) is proved to fold exactly those occurrences into the counter.
- **`XMLWriter`** (module `XmlReports`).
  - The report file name.
  - The sort by descending count.
  - The exact document text.
  - One report per attribute.
  - A parser for the document text, which proves the rendering loses nothing as long as no value contains `<`.
- **The older flat pipeline in `Main`** (module `LegacyMain`).
  - `processJsonFile`: only the direct members of each object are examined; a tracked value is counted whole.
  - `writeStatisticsToXML`: the same document with a four-space indent.
  - The per-attribute report job that `main` submits to its pool.
- **The book file of `JsonProcessorTest`** (module `ProcessorExamples`): what the nested walk records from it and the counts that result.

What a file contributes is an ordered list of `Occurrence(key, value)` and,
if processing stopped early, a `FormatError`:

- `RootNotArray`: the root is not an array.
- `ElementNotObject`: an element of the root array is not an object.
- `ValueNotString`: in the flat pipeline only, a tracked member whose value `nextString` cannot read.

Nothing is rolled back on error. The counts are the fold of `Counting.Increment` (see `Counting.IncrementEffect`) over the occurrences.

Two edge cases of `parseValues` and `processValue`:

- **Empty comma segments.** Java's `split` keeps interior empty pieces:
  - an interior empty piece is trimmed to `""` and counted;
  - a blank piece such as the one in `"a, "` also becomes `""` and is counted;
  - only trailing pieces that are empty before trimming are dropped.

  See `JavaStrings.ParseValuesInteriorEmpty` and `JavaStrings.ParseValuesBlankLast`.
- **The whole-value test in `processValue`.** It only rejects the empty string, so a value of `" "` records `""`.

## Model

| member | source | states |
|---|---|---|
| JavaStrings.TrimStartDrops | src/main/java/org/example/JsonProcessor.java:211 | `trim` at the front drops only characters up to U+0020 and stops at the first other character |
| JavaStrings.TrimEndDrops | src/main/java/org/example/JsonProcessor.java:211 | `trim` at the back drops only characters up to U+0020 and stops at the last other character |
| JavaStrings.TrimResult | src/main/java/org/example/JsonProcessor.java:211 | `trim` leaves nothing trimmable at either end, never lengthens, keeps only characters of the input, and leaves a trimmed string unchanged |
| JavaStrings.TrimIdempotent | src/main/java/org/example/JsonProcessor.java:211 | trimming a trimmed piece changes nothing |
| JavaStrings.TrimBlank | src/main/java/org/example/JsonProcessor.java:211 | a piece made only of characters up to U+0020 trims to the empty string |
| JavaStrings.SplitAllNoComma | src/main/java/org/example/JsonProcessor.java:210 | no piece of the split contains a comma |
| JavaStrings.JoinSplitAll | src/main/java/org/example/JsonProcessor.java:210 | rejoining the pieces with commas gives back the original string |
| JavaStrings.SplitAllJoin | src/main/java/org/example/JsonProcessor.java:210 | comma-free pieces joined with commas split back into exactly those pieces |
| JavaStrings.DropTrailingEmptyDrops | src/main/java/org/example/JsonProcessor.java:210 | Java's limit-0 rule: the result is a prefix of the pieces, everything removed is empty, and the last piece kept is not empty |
| JavaStrings.JavaSplitPieces | src/main/java/org/example/JsonProcessor.java:210 | no piece holds a comma; a non-empty string splits into all its comma-separated pieces with the trailing empty ones dropped |
| JavaStrings.ParseValuesPieces | src/main/java/org/example/JsonProcessor.java:209-213 | one value per split piece, each free of commas and trimmed |
| JavaStrings.ParseValuesJoin | src/main/java/org/example/JsonProcessor.java:209-213 | round trip: trimmed comma-free values joined with commas parse back to the same list when the last one is not empty |
| JavaStrings.ParseValuesNoComma | src/main/java/org/example/JsonProcessor.java:209-213 | a value without a comma yields exactly its trimmed self |
| JavaStrings.ParseValuesTwo | src/main/java/org/example/JsonProcessor.java:209-213 | `a,b` yields both trimmed pieces; with `b` empty, only `a` (or nothing if `a` is empty too) |
| JavaStrings.ParseValuesCommaSpace | src/main/java/org/example/JsonProcessor.java:209-213 | `a, b` yields `a` and `b`: the space after the comma is trimmed away |
| JavaStrings.ParseValuesGenreList | src/test/java/org/example/JsonProcessorTest.java:33 | "Romance, Tragedy" yields "Romance" and "Tragedy" |
| JavaStrings.ParseValuesInteriorEmpty | src/main/java/org/example/JsonProcessor.java:209-213 | `a,,b` yields `a`, "" and `b`: an interior empty piece is kept |
| JavaStrings.ParseValuesBlankLast | src/main/java/org/example/JsonProcessor.java:209-213 | a last piece made only of characters up to U+0020 is not dropped and becomes "" |
| JavaStrings.ParseValuesLoneComma | src/main/java/org/example/JsonProcessor.java:209-213 | "," yields no value at all |
| JavaStrings.IntToString | src/main/java/org/example/XMLWriter.java:66 | the decimal text of a count is never empty and never contains `<` |
| JavaStrings.DigitsParse | src/main/java/org/example/XMLWriter.java:66 | a natural count is read back from its digits |
| JavaStrings.NegativeParse | src/main/java/org/example/XMLWriter.java:66 | a negative count is read back from its minus sign and digits |
| JavaStrings.IntToStringParse | src/main/java/org/example/XMLWriter.java:66 | every count is read back from its decimal text |
| JavaStrings.IntToStringInjective | src/main/java/org/example/XMLWriter.java:66 | distinct counts print differently |
| JavaStrings.ToLowerResult | src/main/java/org/example/JsonProcessor.java:83 | lower-casing leaves no upper-case letter, so lower-casing twice is lower-casing once |
| JavaStrings.ToLowerIgnoresCase | src/main/java/org/example/JsonProcessor.java:83 | two paths lower-case to the same text exactly when they differ only in the case of the letters A-Z |
| Extraction.ValueRecordsPieces | src/main/java/org/example/JsonProcessor.java:192-201 | an untracked key or an empty value records nothing; otherwise one occurrence per parsed piece, in order, all under the key, each comma-free and trimmed |
| Extraction.PlainValueRecords | src/main/java/org/example/JsonProcessor.java:192-201 | a tracked, plain, non-empty value records itself once |
| Extraction.ListValueRecords | src/main/java/org/example/JsonProcessor.java:196-199 | a tracked `a, b` of two plain items records `a` and then `b` |
| Extraction.ObjectRecordsTracked | src/main/java/org/example/JsonProcessor.java:147-162 | everything an object records is under a tracked key, with a comma-free trimmed value |
| Extraction.MemberRecordsTracked | src/main/java/org/example/JsonProcessor.java:151-159 | a member's records are under tracked keys, with comma-free trimmed values |
| Extraction.ArrayRecordsTracked | src/main/java/org/example/JsonProcessor.java:171-184 | an array's records are under tracked keys, with comma-free trimmed values |
| Extraction.ElementRecordsTracked | src/main/java/org/example/JsonProcessor.java:174-181 | an array element's records are under tracked keys, with comma-free trimmed values |
| Extraction.LeadingObjectsSpec | src/main/java/org/example/JsonProcessor.java:132-137 | the elements walked are exactly the objects before the first non-object |
| Extraction.ObjectsRecordsTracked | src/main/java/org/example/JsonProcessor.java:132-137 | the objects of the root array record only tracked, comma-free, trimmed occurrences |
| Extraction.RootRecords | src/main/java/org/example/JsonProcessor.java:127-130 | a non-array root records nothing and fails with RootNotArray |
| Extraction.RootRecordsError | src/main/java/org/example/JsonProcessor.java:127-139 | no other error arises than RootNotArray or ElementNotObject, and ElementNotObject arises exactly when the root array holds a non-object |
| Extraction.RootRecordsTracked | src/main/java/org/example/JsonProcessor.java:127-139 | whatever a file records before its error is tracked, comma-free and trimmed |
| Extraction.RootAllObjects | src/main/java/org/example/JsonProcessor.java:127-139 | an array of objects is walked to the end without error, recording each object in order |
| Extraction.RootStopsAtNonObject | src/main/java/org/example/JsonProcessor.java:132-137 | the first non-object element fails the file with ElementNotObject, keeping what the objects before it recorded and looking at nothing after it |
| Extraction.ObjectRecordsAppend | src/main/java/org/example/JsonProcessor.java:147-162 | walking an object is walking its members one after the other |
| Extraction.NestedAtAnyDepth | src/main/java/org/example/JsonProcessor.java:156 | members nested under any chain of objects record exactly what they record at top level |
| Extraction.ArrayOfStrings | src/main/java/org/example/JsonProcessor.java:171-184 | an array of plain strings records each string under the parent key |
| Extraction.ArrayMatchesJoinedString | src/main/java/org/example/JsonProcessor.java:171-184 | an array of values and the same values joined into one comma-separated string record the same occurrences |
| Extraction.SameNamesRoot | src/main/java/org/example/JsonProcessor.java:193 | only the set of attribute names matters: their order and repetitions change nothing |
| Counting.IncrementEffect | src/main/java/org/example/JsonProcessor.java:198-199 | exactly the (key, value) count rises by one; the key and value are added if new; nothing else changes; well-formedness is kept |
| Counting.Counter.Record | src/main/java/org/example/JsonProcessor.java:198-199 | the counter's map becomes the increment of the old map at (key, value) |
| Counting.FoldAppend | src/main/java/org/example/JsonProcessor.java:197-199 | recording two runs of occurrences is recording the first then the second |
| Counting.FoldCount | src/main/java/org/example/JsonProcessor.java:198-199 | a count after a run equals its count before plus the number of times the pair was recorded |
| Counting.FoldKeys | src/main/java/org/example/JsonProcessor.java:198 | the attributes present afterwards are the old ones plus those recorded |
| Counting.FoldValid | src/main/java/org/example/JsonProcessor.java:198-199 | no empty inner map and no count below 1 appear when starting from such a map |
| Counting.SameCountsSameMap | src/main/java/org/example/JsonProcessor.java:198-199 | a well-formed count map is determined by its counts |
| Counting.FoldOrderIndependent | src/main/java/org/example/JsonProcessor.java:198-199 | the final map depends only on how often each occurrence was recorded, not on their order |
| JsonProcessing.IsJsonFileSuffix | src/main/java/org/example/JsonProcessor.java:83 | a path passes the filter iff its last five characters are `.` followed by `json` in any case |
| JsonProcessing.IsJsonFileAccepts | src/main/java/org/example/JsonProcessor.java:83 | `books.json`, `BOOKS.JSON` and `dir/a.Json` pass the filter |
| JsonProcessing.IsJsonFileRejects | src/main/java/org/example/JsonProcessor.java:83 | `books.json.bak`, `json` and `booksjson` do not pass the filter |
| JsonProcessing.SelectJsonFiles | src/main/java/org/example/JsonProcessor.java:82-84 | an entry is selected iff it is a regular file whose path passes the filter |
| JsonProcessing.SelectJsonFilesCounts | src/main/java/org/example/JsonProcessor.java:82-84 | each regular `.json` entry is kept exactly as many times as it is listed, and every other entry is dropped |
| JsonProcessing.SelectJsonFilesOrder | src/main/java/org/example/JsonProcessor.java:82-84 | the selection is the subsequence of the listing at exactly the positions of regular `.json` entries, in listing order |
| JsonProcessing.FilesRecordsPermutation | src/main/java/org/example/JsonProcessor.java:84 | processing the files in another order records the same occurrences |
| JsonProcessing.FilesOrderIndependent | src/main/java/org/example/JsonProcessor.java:84 | any order of the files, and so any scheduling of whole files, ends in the same map |
| JsonProcessing.BatchCount | src/main/java/org/example/JsonProcessor.java:78-90 | after a batch, a count is the number of times the files recorded the pair; an untracked attribute has no inner map |
| JsonProcessing.NoAttributesNoCounts | src/main/java/org/example/JsonProcessor.java:193 | with no attribute names, the map stays empty |
| JsonProcessing.JsonProcessor.constructor | src/main/java/org/example/JsonProcessor.java:36-42 | keeps the attribute names and the shared counter it is given |
| JsonProcessing.JsonProcessor.ProcessJsonFiles | src/main/java/org/example/JsonProcessor.java:78-90 | a listing failure changes nothing; otherwise every selected file is walked in order, each failure is reported with its path, and the map becomes the fold of all records |
| JsonProcessing.JsonProcessor.ParseJson | src/main/java/org/example/JsonProcessor.java:115-119 | one file: its error, and its records folded into the map |
| JsonProcessing.JsonProcessor.ProcessJsonElement | src/main/java/org/example/JsonProcessor.java:127-139 | the error is the file's RootRecords error; the map gains exactly the file's records |
| JsonProcessing.JsonProcessor.ProcessJsonObject | src/main/java/org/example/JsonProcessor.java:147-162 | the map gains exactly the object's records |
| JsonProcessing.JsonProcessor.ProcessJsonArray | src/main/java/org/example/JsonProcessor.java:171-184 | the map gains exactly the array's records under the parent key |
| JsonProcessing.JsonProcessor.ProcessValue | src/main/java/org/example/JsonProcessor.java:192-201 | the map gains exactly the value's records, one increment per piece |
| XmlReports.ReportFileName | src/main/java/org/example/XMLWriter.java:34 | the name has the length of the prefix, the attribute and the suffix; `XmlReports.FileNameRoundTrip` recovers the attribute from it |
| XmlReports.FileNameRoundTrip | src/main/java/org/example/XMLWriter.java:34 | the attribute is recovered from its report's file name |
| XmlReports.KeyOfFileNameRoundTrip | src/main/java/org/example/XMLWriter.java:34 | every name that decodes is the report file name of what it decodes to |
| XmlReports.FileNameInjective | src/main/java/org/example/XMLWriter.java:34 | distinct attributes get distinct file names |
| XmlReports.InsertPermutation | src/main/java/org/example/XMLWriter.java:36-38 | inserting a row adds just that row |
| XmlReports.InsertSorted | src/main/java/org/example/XMLWriter.java:36-38 | inserting a row into a descending list keeps it descending |
| XmlReports.SortByCountDescending | src/main/java/org/example/XMLWriter.java:36-38 | the result is in non-increasing count order and is a permutation of the entries |
| XmlReports.SortedPermutationsAgree | src/main/java/org/example/XMLWriter.java:36-38 | any two descending orders of the same rows have the same count at every position: only ties are left open |
| XmlReports.EnumerationsArePermutations | src/main/java/org/example/XMLWriter.java:36 | any two listings of an inner map's entries hold the same rows |
| XmlReports.EntryList | src/main/java/org/example/XMLWriter.java:36 | lists each entry of the inner map once, in some order |
| XmlReports.EnumeratesSorted | src/main/java/org/example/XMLWriter.java:36-38 | the sorted rows still list each entry of the inner map exactly once |
| XmlReports.ItemsAppend | src/main/java/org/example/XMLWriter.java:60-68 | adding a row appends exactly its item block |
| XmlReports.EmptyDocument | src/main/java/org/example/XMLWriter.java:59-69 | no rows render as exactly `<statistics>\n</statistics>` |
| XmlReports.WriterDocumentExample | src/test/java/org/example/XMLWriterTest.java:53-56 | the two-entry document has `<value>value1</value>`, `<count>10</count>`, `<value>value2</value>`, `<count>5</count>` in its exact item blocks |
| XmlReports.FieldSplits | src/main/java/org/example/XMLWriter.java:61-66 | reading a field stops at the first `<`: the text read and the rest rebuild the input |
| XmlReports.ParseItemRoundTrip | src/main/java/org/example/XMLWriter.java:61-66 | an item block for a value without `<` reads back as its row |
| XmlReports.ParseItemsRoundTrip | src/main/java/org/example/XMLWriter.java:60-69 | the items followed by the closing tag read back as the rows |
| XmlReports.DocumentRoundTrip | src/main/java/org/example/XMLWriter.java:59-69 | a document whose values contain no `<` determines its rows |
| XmlReports.UnescapedValueAmbiguity | src/main/java/org/example/XMLWriter.java:61-66 | values are not escaped: a one-row list and a two-row list can render the same text |
| XmlReports.WriteStatisticsToXmlFile | src/main/java/org/example/XMLWriter.java:53-71 | the text written is the opening tag, one three-space item block per row in order, and the closing tag with no newline after it |
| XmlReports.StatisticsFile | src/main/java/org/example/XMLWriter.java:33-39 | the report of one attribute has its file name, its entries sorted descending and the matching text |
| XmlReports.GenerateStatisticsFile | src/main/java/org/example/XMLWriter.java:32-44 | one report per attribute of the map, none twice; each is the report of that attribute's inner map; the map is only read |
| XmlReports.OneReportPerAttribute | src/main/java/org/example/XMLWriter.java:33 | there are as many reports as attributes |
| XmlReports.NoCountsNoReports | src/main/java/org/example/XMLWriter.java:33 | an empty map yields no report |
| XmlReports.ReportsAreNotEmpty | src/main/java/org/example/XMLWriter.java:36-38 | from a map built by recording, every report has a row, and its first row has count at least 1 |
| LegacyMain.FlatMembers | src/main/java/org/example/Main.java:104-113 | the only error is ValueNotString; every record is under a tracked key |
| LegacyMain.FlatElements | src/main/java/org/example/Main.java:102-115 | never RootNotArray; every record is under a tracked key |
| LegacyMain.FlatRecords | src/main/java/org/example/Main.java:99-121 | a non-array root records nothing and fails with RootNotArray; every record is under a tracked key |
| LegacyMain.WholeValueCounted | src/main/java/org/example/Main.java:106-109 | a tracked string is counted whole: no split, no trim |
| LegacyMain.EmptyStringUnderBothRules | src/main/java/org/example/Main.java:106-109 | an empty tracked string counts once in the flat pipeline and not at all in the nested one |
| LegacyMain.ListValueUnderBothRules | src/main/java/org/example/Main.java:107 | "Romance, Tragedy" counts as one value in the flat pipeline and as two in the nested one |
| LegacyMain.NestedObjectNotWalked | src/main/java/org/example/Main.java:104-113 | a nested object is never walked: under a tracked key it stops the file, otherwise it is skipped |
| LegacyMain.TrackedBooleanStopsFile | src/main/java/org/example/Main.java:107 | a tracked boolean stops the file with ValueNotString, keeping what earlier members recorded |
| LegacyMain.TrackedNullSkipped | src/main/java/org/example/Main.java:106 | a tracked null is skipped like an untracked member |
| LegacyMain.FlatStopsAtNonObject | src/main/java/org/example/Main.java:102-103 | the first non-object element stops the file with ElementNotObject, keeping what the objects before it recorded |
| LegacyMain.FlatMembersError | src/main/java/org/example/Main.java:104-113 | an object's members fail with ValueNotString exactly when some tracked, non-null member is neither a string nor a number |
| LegacyMain.FlatMembersAppend | src/main/java/org/example/Main.java:104-113 | members that can all be read are walked one after the other: their records come first, then whatever follows records |
| LegacyMain.FlatMembersStopsAt | src/main/java/org/example/Main.java:104-113 | the first unreadable tracked member ends the file with ValueNotString, keeping what the members before it recorded and looking at nothing after it |
| LegacyMain.FlatMembersCounts | src/main/java/org/example/Main.java:104-113 | when every member can be read, a (key, value) pair is recorded exactly as many times as a tracked member under that key reads as that whole text; nested objects and arrays record nothing |
| LegacyMain.FlatElementsError | src/main/java/org/example/Main.java:99-121 | the root array is walked to its end without error exactly when every element is an object and every one of their members can be read |
| LegacyMain.FlatAgreesOnPlainMembers | src/main/java/org/example/Main.java:104-113 | on plain members, the flat rule records what the nested rule records |
| LegacyMain.ProcessJsonFile | src/main/java/org/example/Main.java:99-121 | the map gains exactly the flat records of the file; the error is the flat rule's; nothing is rolled back |
| LegacyMain.ProcessObjectMembers | src/main/java/org/example/Main.java:104-113 | the map gains exactly the flat records of one object's members; the error is the flat rule's |
| LegacyMain.LegacyItem | src/main/java/org/example/Main.java:88-91 | the four writes for an entry form one item block with a four-space indent |
| LegacyMain.WriteStatisticsToXml | src/main/java/org/example/Main.java:83-97 | the text written is the opening tag, one four-space item block per row in order, and the closing tag |
| LegacyMain.LegacyStatisticsFile | src/main/java/org/example/Main.java:60-71 | the report of one attribute has its file name, its entries sorted descending and the four-space text |
| LegacyMain.WriteAllStatistics | src/main/java/org/example/Main.java:60-71 | one report per attribute of the map, none twice, each the report of its inner map; the map is only read |
| ProcessorExamples.BookRecords | src/test/java/org/example/JsonProcessorTest.java:40-52 | a serialized book records its author and then each item of its genre list; title and year are not tracked |
| ProcessorExamples.TestBooksWalk | src/test/java/org/example/JsonProcessorTest.java:30-33 | the test file is walked without error and records nine occurrences in order |
| ProcessorExamples.TestBooksKeys | src/test/java/org/example/JsonProcessorTest.java:58 | after the test file only `genre` and `author` have an inner map |
| ProcessorExamples.TestBooksRomance | src/test/java/org/example/JsonProcessorTest.java:32-33 | "Romance" is counted twice |
| ProcessorExamples.TestBooksTragedy | src/test/java/org/example/JsonProcessorTest.java:33 | "Tragedy" is counted once |
| ProcessorExamples.TestBooksTitle | src/test/java/org/example/JsonProcessorTest.java:58 | the untracked `title` is never counted |

## Left out

- **Gson's `JsonReader` tokenizing.** The model takes an already-parsed document; malformed text and reader exceptions other than the three format errors are not modelled. A JSON number keeps its literal text, which is what `nextString` returns for it.
- **Thread pools.** Not modelled: `CompletableFuture`, `ConcurrentHashMap` atomicity, `awaitTermination` and `shutdownNow`. Files are processed one after the other. `JsonProcessing.FilesOrderIndependent` states why any scheduling of whole files gives the same counts. Interleavings inside a file are not modelled.
- **Reading statistics in `main` before extraction may have finished.** This is a race, not sequential behaviour.
- **File-system calls.** Not modelled: `Files.list`, `isRegularFile`, `FileWriter`, `BufferedWriter` and its buffer sizes. A directory listing is a parameter: an optional sequence of entries, each with its path, whether it is a regular file, and its parsed content. A report is its file name and the text written.
- **Write failures.** An `IOException` while writing a report is not modelled: the `RuntimeException` at XMLWriter.java:41 and the printed trace in `Main`.
- **`ConsoleInterface` and the argument handling in `main`.** This covers splitting the attribute-name argument and checking the directory. They are command-line glue. Attribute names arrive as a sequence.
- **Logging.** Printing to `System.err` and `System.out` is not modelled. A file's failure is returned as a `FileFailure` instead.
- **Integer width.** Counts are unbounded integers; Java's `Integer` would wrap after 2^31 - 1 occurrences of one value.
- **Lower-casing.** `JavaStrings.ToLower` maps only `A`-`Z` and keeps the length. Java's `toLowerCase` follows the whole Unicode table and the default locale. It can lengthen a string: `İ` becomes `i` plus a combining dot. No other character lower-cases to one of `.json`, and an expansion ends in the combining dot, so the filter's outcome is unaffected. The default locale does not matter either: locale rules change only `I`, `İ` and an accented `J`, and none of them can make or break the `.json` suffix.
- **Map iteration order.** It is unspecified in the source and modelled as an arbitrary choice. Reports come out in some order, and rows with equal counts in some order.
- XmlReports.SortByCountDescending: the contract does not state the order among rows with equal counts; ties follow the unspecified map order, as in the "Map iteration order" line above.
- **Getters and `PerformanceTest`.** They hold no behaviour to model.
- **The test book file.** `ProcessorExamples.TestBooks` is written as the document that Gson's serialization of the three test books produces: members in field order, and the year as a number. The serializer itself is not modelled.
