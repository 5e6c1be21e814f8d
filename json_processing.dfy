/**
 * `JsonProcessor`: selects the `.json` entries of a directory listing and
 * walks each file's document, recording the tracked attribute values into the
 * shared counter. The walk is the source's imperative one (loops over members
 * and elements, recursion into nested objects and arrays); each method is
 * proved to fold exactly the occurrences of module `Extraction` into the
 * counter. Files are processed one after the other here; the order-independence
 * lemmas below are what makes any interleaving of whole files give the same map.
 */
module JsonProcessing {

  import opened Wrappers
  import opened Json
  import JavaStrings
  import opened Extraction
  import opened Counting

  /** One entry of the directory listing, with the document its file holds. */
  datatype DirEntry = DirEntry(path: string, isRegularFile: bool, content: Json)

  /** A file whose processing stopped on a format error (logged by the source). */
  datatype FileFailure = FileFailure(path: string, error: FormatError)

  datatype DispatchResult =
    | ListingFailed                               // the directory could not be listed
    | Dispatched(failures: seq<FileFailure>)      // every selected file was processed

  /** The filter of `processJsonFiles`: the lower-cased path ends with `.json`. */
  predicate IsJsonFile(path: string) {
    JavaStrings.EndsWith(JavaStrings.ToLower(path), ".json")
  }

  /** The suffix test is case-insensitive and looks at the last five characters only. */
  lemma IsJsonFileSuffix(path: string)
    ensures IsJsonFile(path) <==>
      |path| >= 5 && path[|path| - 5] == '.' &&
      JavaStrings.ToLower(path[|path| - 4..]) == "json"
  {
    var low := JavaStrings.ToLower(path);
    if |path| >= 5 {
      assert low[|path| - 5..] == [low[|path| - 5]] + low[|path| - 4..];
      assert low[|path| - 4..] == JavaStrings.ToLower(path[|path| - 4..]);
      assert low[|path| - 5] == '.' <==> path[|path| - 5] == '.';
    }
  }

  /** Paths the filter accepts, whatever the case of the extension. */
  lemma IsJsonFileAccepts()
    ensures IsJsonFile("books.json") && IsJsonFile("BOOKS.JSON") && IsJsonFile("dir/a.Json")
  {
    LowerJson("json");
    LowerJson("JSON");
    LowerJson("Json");
    IsJsonFileSuffix("books.json");
    assert "books.json"[6..] == "json";
    IsJsonFileSuffix("BOOKS.JSON");
    assert "BOOKS.JSON"[6..] == "JSON";
    IsJsonFileSuffix("dir/a.Json");
    assert "dir/a.Json"[6..] == "Json";
  }

  lemma LowerJson(ext: string)
    requires |ext| == 4
    requires ext[0] in "jJ" && ext[1] in "sS" && ext[2] in "oO" && ext[3] in "nN"
    ensures JavaStrings.ToLower(ext) == "json"
  {
  }

  /** Paths the filter rejects: another extension after `.json`, or no dot before `json`. */
  lemma IsJsonFileRejects()
    ensures !IsJsonFile("books.json.bak") && !IsJsonFile("json") && !IsJsonFile("booksjson")
  {
    IsJsonFileSuffix("books.json.bak");
    IsJsonFileSuffix("json");
    IsJsonFileSuffix("booksjson");
  }

  /** The entries `processJsonFiles` hands to a task: regular files named `*.json`. */
  function SelectJsonFiles(entries: seq<DirEntry>): (r: seq<DirEntry>)
    ensures |r| <= |entries|
    ensures forall e :: e in r <==> e in entries && e.isRegularFile && IsJsonFile(e.path)
  {
    if entries == [] then []
    else
      var init := SelectJsonFiles(entries[..|entries| - 1]);
      var last := entries[|entries| - 1];
      assert entries == entries[..|entries| - 1] + [last];
      if last.isRegularFile && IsJsonFile(last.path) then init + [last] else init
  }

  /** Each regular `.json` entry is kept as often as it is listed; every other entry is dropped. */
  lemma {:induction false} SelectJsonFilesCounts(entries: seq<DirEntry>)
    ensures forall e :: multiset(SelectJsonFiles(entries))[e] ==
                        if e.isRegularFile && IsJsonFile(e.path) then multiset(entries)[e] else 0
  {
    if entries != [] {
      var init, last := entries[..|entries| - 1], entries[|entries| - 1];
      SelectJsonFilesCounts(init);
      assert entries == init + [last];
      assert multiset(entries) == multiset(init) + multiset{last};
    }
  }

  /** The positions, in increasing order, of the entries the filter keeps. */
  function SelectedPositions(entries: seq<DirEntry>): seq<nat> {
    if entries == [] then []
    else
      var init := SelectedPositions(entries[..|entries| - 1]);
      var last := entries[|entries| - 1];
      if last.isRegularFile && IsJsonFile(last.path) then init + [|entries| - 1] else init
  }

  /**
   * The selection is the listing read at exactly the positions of its regular
   * `.json` entries, in increasing order: a stream filter keeps the order.
   */
  lemma {:induction false} SelectJsonFilesOrder(entries: seq<DirEntry>)
    ensures var r, at := SelectJsonFiles(entries), SelectedPositions(entries);
      && |at| == |r|
      && (forall k :: 0 <= k < |at| ==> at[k] < |entries| && entries[at[k]] == r[k])
      && (forall k, l :: 0 <= k < l < |at| ==> at[k] < at[l])
      && (forall i :: 0 <= i < |entries| && entries[i].isRegularFile && IsJsonFile(entries[i].path) ==> i in at)
  {
    if entries != [] {
      var n := |entries| - 1;
      var init, last := entries[..n], entries[n];
      SelectJsonFilesOrder(init);
      assert forall i :: 0 <= i < n ==> init[i] == entries[i];
    }
  }

  /** The occurrences of all the files, one file after the other. */
  function FilesRecords(attrs: seq<string>, files: seq<DirEntry>): seq<Occurrence> {
    if files == [] then []
    else FilesRecords(attrs, files[..|files| - 1]) + RootRecords(attrs, files[|files| - 1].content).records
  }

  /** The files that stopped on a format error, in processing order. */
  function Failures(attrs: seq<string>, files: seq<DirEntry>): (r: seq<FileFailure>)
    ensures |r| <= |files|
  {
    if files == [] then []
    else
      var last := files[|files| - 1];
      var result := RootRecords(attrs, last.content);
      Failures(attrs, files[..|files| - 1]) + (if result.error.Some? then [FileFailure(last.path, result.error.value)] else [])
  }

  /** Everything a batch records is under a tracked key. */
  lemma {:induction false} FilesRecordsTracked(attrs: seq<string>, files: seq<DirEntry>)
    ensures Tracked(attrs, FilesRecords(attrs, files))
  {
    if files != [] {
      FilesRecordsTracked(attrs, files[..|files| - 1]);
      RootRecordsTracked(attrs, files[|files| - 1].content);
      TrackedAppend(attrs, FilesRecords(attrs, files[..|files| - 1]), RootRecords(attrs, files[|files| - 1].content).records);
    }
  }

  lemma FilesRecordsSnoc(attrs: seq<string>, files: seq<DirEntry>, f: DirEntry)
    ensures FilesRecords(attrs, files + [f]) == FilesRecords(attrs, files) + RootRecords(attrs, f.content).records
  {
    assert (files + [f])[..|files|] == files;
  }

  /** Processing one more file, by position. */
  lemma FilesRecordsPrefix(attrs: seq<string>, files: seq<DirEntry>, i: nat)
    requires i < |files|
    ensures FilesRecords(attrs, files[..i + 1]) == FilesRecords(attrs, files[..i]) + RootRecords(attrs, files[i].content).records
  {
    assert files[..i + 1][..i] == files[..i];
  }

  /** The failures of one more file, by position. */
  lemma FailuresPrefix(attrs: seq<string>, files: seq<DirEntry>, i: nat)
    requires i < |files|
    ensures var result := RootRecords(attrs, files[i].content);
      Failures(attrs, files[..i + 1]) ==
        Failures(attrs, files[..i]) + (if result.error.Some? then [FileFailure(files[i].path, result.error.value)] else [])
  {
    assert files[..i + 1][..i] == files[..i];
  }

  lemma {:induction false} FilesRecordsAppend(attrs: seq<string>, f1: seq<DirEntry>, f2: seq<DirEntry>)
    ensures FilesRecords(attrs, f1 + f2) == FilesRecords(attrs, f1) + FilesRecords(attrs, f2)
    decreases |f2|
  {
    if f2 == [] {
      assert f1 + f2 == f1;
      assert FilesRecords(attrs, f1) + [] == FilesRecords(attrs, f1);
    } else {
      var init, last := f2[..|f2| - 1], f2[|f2| - 1];
      assert (f1 + f2)[..|f1 + f2| - 1] == f1 + init;
      FilesRecordsAppend(attrs, f1, init);
      var a, b, c := FilesRecords(attrs, f1), FilesRecords(attrs, init), RootRecords(attrs, last.content).records;
      assert FilesRecords(attrs, f1 + f2) == (a + b) + c;
      assert (a + b) + c == a + (b + c);
    }
  }

  /** The last file of `f1` sits somewhere in its permutation `f2`; without it, the rest are still permutations of each other. */
  lemma PickLast(f1: seq<DirEntry>, f2: seq<DirEntry>) returns (j: nat)
    requires f1 != [] && multiset(f1) == multiset(f2)
    ensures j < |f2| && f2[j] == f1[|f1| - 1]
    ensures f2 == f2[..j] + [f1[|f1| - 1]] + f2[j + 1..]
    ensures multiset(f1[..|f1| - 1]) == multiset(f2[..j] + f2[j + 1..])
  {
    var last := f1[|f1| - 1];
    SplitAround(f1, |f1| - 1);
    assert last in multiset(f2);
    j :| 0 <= j < |f2| && f2[j] == last;
    SplitAround(f2, j);
    MultisetCancel(multiset(f1[..|f1| - 1]), multiset(f2[..j] + f2[j + 1..]), multiset{last});
  }

  /** A sequence is what comes before position `j`, the element there, and what comes after. */
  lemma SplitAround(f: seq<DirEntry>, j: nat)
    requires j < |f|
    ensures f == f[..j] + [f[j]] + f[j + 1..]
    ensures multiset(f) == multiset(f[..j] + f[j + 1..]) + multiset{f[j]}
  {
    assert f == f[..j] + [f[j]] + f[j + 1..];
  }

  lemma MultisetCancel(a: multiset<DirEntry>, b: multiset<DirEntry>, c: multiset<DirEntry>)
    requires a + c == b + c
    ensures a == b
  {
    assert a == (a + c) - c;
    assert b == (b + c) - c;
  }

  /** Reordering the files reorders, but does not change, what they record. */
  lemma {:induction false} FilesRecordsPermutation(attrs: seq<string>, f1: seq<DirEntry>, f2: seq<DirEntry>)
    requires multiset(f1) == multiset(f2)
    ensures multiset(FilesRecords(attrs, f1)) == multiset(FilesRecords(attrs, f2))
    decreases |f1|
  {
    if f1 != [] {
      var j := PickLast(f1, f2);
      var last, init := f1[|f1| - 1], f1[..|f1| - 1];
      var before, after := f2[..j], f2[j + 1..];
      var mine := RootRecords(attrs, last.content).records;
      FilesRecordsPermutation(attrs, init, before + after);
      FilesRecordsAround(attrs, f2, j);
      Regroup(FilesRecords(attrs, f1), FilesRecords(attrs, init), mine,
        FilesRecords(attrs, f2), FilesRecords(attrs, before), FilesRecords(attrs, after));
    }
  }

  /** What a batch records around its `j`-th file, with and without that file. */
  lemma FilesRecordsAround(attrs: seq<string>, files: seq<DirEntry>, j: nat)
    requires j < |files|
    ensures FilesRecords(attrs, files) ==
      FilesRecords(attrs, files[..j]) + RootRecords(attrs, files[j].content).records + FilesRecords(attrs, files[j + 1..])
    ensures FilesRecords(attrs, files[..j] + files[j + 1..]) == FilesRecords(attrs, files[..j]) + FilesRecords(attrs, files[j + 1..])
  {
    var before, after := files[..j], files[j + 1..];
    assert files == before + [files[j]] + after;
    FilesRecordsAppend(attrs, before + [files[j]], after);
    FilesRecordsSnoc(attrs, before, files[j]);
    FilesRecordsAppend(attrs, before, after);
  }

  /** Moving one block of records to another place keeps the same multiset. */
  lemma Regroup(r1: seq<Occurrence>, init: seq<Occurrence>, mine: seq<Occurrence>, r2: seq<Occurrence>, before: seq<Occurrence>, after: seq<Occurrence>)
    requires r1 == init + mine && r2 == before + mine + after
    requires multiset(init) == multiset(before + after)
    ensures multiset(r1) == multiset(r2)
  {
    assert multiset(r2) == multiset(before) + multiset(mine) + multiset(after);
  }

  /**
   * The final counts do not depend on the order in which the files are
   * processed: any pool size and any scheduling of whole files give the same
   * map.
   */
  lemma FilesOrderIndependent(c: Counts, attrs: seq<string>, f1: seq<DirEntry>, f2: seq<DirEntry>)
    requires Valid(c)
    requires multiset(f1) == multiset(f2)
    ensures Fold(c, FilesRecords(attrs, f1)) == Fold(c, FilesRecords(attrs, f2))
  {
    FilesRecordsPermutation(attrs, f1, f2);
    FoldOrderIndependent(c, FilesRecords(attrs, f1), FilesRecords(attrs, f2));
  }

  /**
   * The count of (key, value) after processing a batch of files is the number
   * of times the files recorded it, and it is zero for an attribute that is
   * not tracked.
   */
  lemma BatchCount(attrs: seq<string>, files: seq<DirEntry>, key: string, value: string)
    ensures Count(Fold(map[], FilesRecords(attrs, files)), key, value) == multiset(FilesRecords(attrs, files))[Occurrence(key, value)]
    ensures key !in attrs ==> key !in Fold(map[], FilesRecords(attrs, files))
  {
    var recs := FilesRecords(attrs, files);
    FoldCount(map[], recs, key, value);
    FoldKeys(map[], recs);
    KeysOfMembers(recs);
    FilesRecordsTracked(attrs, files);
  }

  /** With no attribute names nothing is ever recorded. */
  lemma NoAttributesNoCounts(files: seq<DirEntry>)
    ensures Fold(map[], FilesRecords([], files)) == map[]
  {
    var recs := FilesRecords([], files);
    FoldKeys(map[], recs);
    KeysOfMembers(recs);
    FilesRecordsTracked([], files);
    assert KeysOf(recs) == {};
  }

  /** One more step of a fold: folding `done` reached `mid`, and the step is folded from there. */
  lemma FoldExtend(c: Counts, done: seq<Occurrence>, step: seq<Occurrence>, mid: Counts)
    requires mid == Fold(c, done)
    ensures Fold(mid, step) == Fold(c, done + step)
  {
    FoldAppend(c, done, step);
  }

  class JsonProcessor {
    const attributeNames: seq<string>
    const attributeValueCounts: Counter

    constructor (attributeNames: seq<string>, attributeValueCounts: Counter)
      ensures this.attributeNames == attributeNames
      ensures this.attributeValueCounts == attributeValueCounts
    {
      this.attributeNames := attributeNames;
      this.attributeValueCounts := attributeValueCounts;
    }

    /**
     * `processJsonFiles` followed by every task it schedules: a listing
     * failure changes nothing; otherwise every selected file is walked, its
     * failure logged, and the other files go on.
     */
    method ProcessJsonFiles(listing: Option<seq<DirEntry>>) returns (result: DispatchResult)
      modifies attributeValueCounts
      ensures listing.None? ==> result == ListingFailed && attributeValueCounts.counts == old(attributeValueCounts.counts)
      ensures listing.Some? ==>
        var files := SelectJsonFiles(listing.value);
        && result == Dispatched(Failures(attributeNames, files))
        && attributeValueCounts.counts == Fold(old(attributeValueCounts.counts), FilesRecords(attributeNames, files))
    {
      if listing.None? {
        return ListingFailed;
      }
      var files := SelectJsonFiles(listing.value);
      var failures: seq<FileFailure> := [];
      ghost var done: seq<Occurrence> := [];
      for i := 0 to |files|
        invariant failures == Failures(attributeNames, files[..i])
        invariant done == FilesRecords(attributeNames, files[..i])
        invariant attributeValueCounts.counts == Fold(old(attributeValueCounts.counts), done)
      {
        ghost var before := attributeValueCounts.counts;
        var error := ParseJson(files[i]);
        if error.Some? {
          failures := failures + [FileFailure(files[i].path, error.value)];
        }
        FailuresPrefix(attributeNames, files, i);
        ghost var step := RootRecords(attributeNames, files[i].content).records;
        FoldExtend(old(attributeValueCounts.counts), done, step, before);
        FilesRecordsPrefix(attributeNames, files, i);
        done := done + step;
      }
      assert files[..|files|] == files;
      return Dispatched(failures);
    }

    /** `parseJson`: one file's task. */
    method ParseJson(file: DirEntry) returns (error: Option<FormatError>)
      modifies attributeValueCounts
      ensures error == RootRecords(attributeNames, file.content).error
      ensures attributeValueCounts.counts == Fold(old(attributeValueCounts.counts), RootRecords(attributeNames, file.content).records)
    {
      error := ProcessJsonElement(file.content);
    }

    /**
     * `processJsonElement`: the root must be an array of objects; the first
     * element that is not an object stops the file, keeping what the objects
     * before it recorded.
     */
    method ProcessJsonElement(root: Json) returns (error: Option<FormatError>)
      modifies attributeValueCounts
      ensures error == RootRecords(attributeNames, root).error
      ensures attributeValueCounts.counts == Fold(old(attributeValueCounts.counts), RootRecords(attributeNames, root).records)
    {
      if !root.JArray? {
        return Some(RootNotArray);
      }
      var elems := root.elems;
      ghost var n := LeadingObjects(elems);
      LeadingObjectsSpec(elems);
      ghost var result := RootRecords(attributeNames, root);
      assert result == FileResult(ObjectsRecords(attributeNames, elems[..n]), if n < |elems| then Some(ElementNotObject) else None);
      ghost var done: seq<Occurrence> := [];
      var i := 0;
      while i < |elems|
        invariant 0 <= i <= n
        invariant done == ObjectsRecords(attributeNames, elems[..i])
        invariant attributeValueCounts.counts == Fold(old(attributeValueCounts.counts), done)
      {
        if !elems[i].JObject? {
          assert i == n && result.records == done;
          return Some(ElementNotObject);
        }
        assert i < n;
        ghost var before := attributeValueCounts.counts;
        ProcessJsonObject(elems[i].members);
        ghost var step := ObjectRecords(attributeNames, elems[i].members);
        FoldExtend(old(attributeValueCounts.counts), done, step, before);
        ObjectsRecordsPrefix(attributeNames, elems, i);
        done := done + step;
        i := i + 1;
      }
      assert i == n && result.records == done;
      return None;
    }

    /**
     * `processJsonObject`: strings and numbers go to `processValue` under
     * their key, nested objects and arrays are walked, anything else is
     * skipped.
     */
    method ProcessJsonObject(members: seq<Member>)
      modifies attributeValueCounts
      ensures attributeValueCounts.counts == Fold(old(attributeValueCounts.counts), ObjectRecords(attributeNames, members))
      decreases members
    {
      ghost var done: seq<Occurrence> := [];
      var i := 0;
      while i < |members|
        invariant 0 <= i <= |members|
        invariant done == ObjectRecords(attributeNames, members[..i])
        invariant attributeValueCounts.counts == Fold(old(attributeValueCounts.counts), done)
      {
        var m := members[i];
        ghost var before := attributeValueCounts.counts;
        match m.value {
          case JString(s) => ProcessValue(m.key, s);
          case JNumber(t) => ProcessValue(m.key, t);
          case JObject(ms) => ProcessJsonObject(ms);
          case JArray(es) => ProcessJsonArray(es, m.key);
          case _ =>
        }
        ghost var step := MemberRecords(attributeNames, m);
        assert attributeValueCounts.counts == Fold(before, step);
        FoldExtend(old(attributeValueCounts.counts), done, step, before);
        ObjectRecordsPrefix(attributeNames, members, i);
        done := done + step;
        i := i + 1;
      }
      assert members[..|members|] == members;
    }

    /**
     * `processJsonArray`: strings and numbers go to `processValue` under the
     * parent key, objects are walked, nested arrays and the rest are skipped.
     */
    method ProcessJsonArray(elems: seq<Json>, parentKey: string)
      modifies attributeValueCounts
      ensures attributeValueCounts.counts == Fold(old(attributeValueCounts.counts), ArrayRecords(attributeNames, parentKey, elems))
      decreases elems
    {
      ghost var done: seq<Occurrence> := [];
      var i := 0;
      while i < |elems|
        invariant 0 <= i <= |elems|
        invariant done == ArrayRecords(attributeNames, parentKey, elems[..i])
        invariant attributeValueCounts.counts == Fold(old(attributeValueCounts.counts), done)
      {
        var e := elems[i];
        ghost var before := attributeValueCounts.counts;
        match e {
          case JString(s) => ProcessValue(parentKey, s);
          case JNumber(t) => ProcessValue(parentKey, t);
          case JObject(ms) => ProcessJsonObject(ms);
          case _ =>
        }
        ghost var step := ElementRecords(attributeNames, parentKey, e);
        assert attributeValueCounts.counts == Fold(before, step);
        FoldExtend(old(attributeValueCounts.counts), done, step, before);
        ArrayRecordsPrefix(attributeNames, parentKey, elems, i);
        done := done + step;
        i := i + 1;
      }
      assert elems[..|elems|] == elems;
    }

    /**
     * `processValue`: a tracked key with a non-empty value records every
     * trimmed comma-separated piece, one increment each.
     */
    method ProcessValue(key: string, value: string)
      modifies attributeValueCounts
      ensures attributeValueCounts.counts == Fold(old(attributeValueCounts.counts), ValueRecords(attributeNames, key, value))
    {
      if key !in attributeNames || |value| == 0 {
        return;
      }
      var values := JavaStrings.ParseValues(value);
      for i := 0 to |values|
        invariant attributeValueCounts.counts == Fold(old(attributeValueCounts.counts), Under(key, values[..i]))
      {
        attributeValueCounts.Record(key, values[i]);
        assert values[..i + 1][..i] == values[..i];
        UnderSnoc(key, values[..i + 1]);
        FoldSnoc(old(attributeValueCounts.counts), Under(key, values[..i]), Occurrence(key, values[i]));
      }
      assert values[..|values|] == values;
    }
  }
}
