/**
 * The older, flat pipeline in `Main`: only the direct members of each object
 * of the root array are looked at, a tracked value is counted exactly as the
 * reader returns it, and the reports use a four-space indentation.
 */
module LegacyMain {

  import opened Wrappers
  import opened Json
  import opened Counting
  import JavaStrings
  import Extraction
  import opened XmlReports

  // ---------------------------------------------------------------------------
  // What one file records

  /** Every occurrence is under a tracked key; its value is whatever the reader returned. */
  predicate KeysTracked(attrs: seq<string>, recs: seq<Occurrence>) {
    forall i :: 0 <= i < |recs| ==> recs[i].key in attrs
  }

  /** Records `recs` in front of what the rest of the file gives. */
  function Then(recs: seq<Occurrence>, rest: FileResult): (r: FileResult)
    ensures r.error == rest.error && |r.records| == |recs| + |rest.records|
  {
    FileResult(recs + rest.records, rest.error)
  }

  /**
   * The inner loop of `processJsonFile`: a tracked member with a non-null
   * value is read with `nextString`, which fails on anything but a string or a
   * number and ends the file; every other member is skipped whole.
   */
  function FlatMembers(attrs: seq<string>, members: seq<Member>): (r: FileResult)
    ensures r.error == None || r.error == Some(ValueNotString)
    ensures KeysTracked(attrs, r.records)
  {
    if members == [] then FileResult([], None)
    else
      var m := members[0];
      if m.key in attrs && m.value != JNull then
        if IsScalar(m.value) then
          var rest := FlatMembers(attrs, members[1..]);
          var r := Then([Occurrence(m.key, ScalarText(m.value))], rest);
          assert forall i :: 0 < i < |r.records| ==> r.records[i] == rest.records[i - 1];
          r
        else FileResult([], Some(ValueNotString))
      else FlatMembers(attrs, members[1..])
  }

  /** The outer loop: each element must be an object; the first failure ends the file. */
  function FlatElements(attrs: seq<string>, elems: seq<Json>): (r: FileResult)
    ensures r.error != Some(RootNotArray)
    ensures KeysTracked(attrs, r.records)
  {
    if elems == [] then FileResult([], None)
    else if !elems[0].JObject? then FileResult([], Some(ElementNotObject))
    else
      var obj := FlatMembers(attrs, elems[0].members);
      if obj.error.Some? then obj
      else
        var rest := FlatElements(attrs, elems[1..]);
        var r := Then(obj.records, rest);
        assert forall i :: |obj.records| <= i < |r.records| ==> r.records[i] == rest.records[i - |obj.records|];
        r
  }

  /** `processJsonFile` on a parsed document: `beginArray` fails on any other root. */
  function FlatRecords(attrs: seq<string>, root: Json): (r: FileResult)
    ensures !root.JArray? ==> r == FileResult([], Some(RootNotArray))
    ensures KeysTracked(attrs, r.records)
  {
    if root.JArray? then FlatElements(attrs, root.elems) else FileResult([], Some(RootNotArray))
  }

  lemma ThenThen(a: seq<Occurrence>, b: seq<Occurrence>, r: FileResult)
    ensures Then(a, Then(b, r)) == Then(a + b, r)
  {
    assert a + (b + r.records) == (a + b) + r.records;
  }

  // ---------------------------------------------------------------------------
  // Properties of the flat rule

  /**
   * A tracked value is counted as the reader returns it: no splitting, no
   * trimming, and the empty string counts.
   */
  lemma WholeValueCounted(attrs: seq<string>, key: string, text: string)
    requires key in attrs
    ensures FlatRecords(attrs, JArray([JObject([Member(key, JString(text))])])) == FileResult([Occurrence(key, text)], None)
  {
    var ms := [Member(key, JString(text))];
    var occ := Occurrence(key, text);
    assert ms[1..] == [];
    assert FlatMembers(attrs, ms) == Then([occ], FlatMembers(attrs, ms[1..]));
    assert [occ] + [] == [occ];
    var elems := [JObject(ms)];
    assert elems[1..] == [];
    assert FlatElements(attrs, elems) == Then([occ], FlatElements(attrs, elems[1..]));
  }

  /** A file holding one object with one member records what that member records. */
  lemma NestedRuleSingleMember(attrs: seq<string>, m: Member)
    ensures Extraction.RootRecords(attrs, JArray([JObject([m])])).records == Extraction.MemberRecords(attrs, m)
  {
    var elems := [JObject([m])];
    Extraction.RootAllObjects(attrs, elems);
    assert elems[..0] == [] && [m][..0] == [];
    assert Extraction.ObjectRecords(attrs, [m]) == [] + Extraction.MemberRecords(attrs, m);
    assert Extraction.ObjectsRecords(attrs, elems) == [] + Extraction.ObjectRecords(attrs, [m]);
  }

  /** An empty tracked string: counted by the flat rule, skipped by the nested rule. */
  lemma EmptyStringUnderBothRules(attrs: seq<string>, key: string)
    requires key in attrs
    ensures FlatRecords(attrs, JArray([JObject([Member(key, JString(""))])])).records == [Occurrence(key, "")]
    ensures Extraction.RootRecords(attrs, JArray([JObject([Member(key, JString(""))])])).records == []
  {
    WholeValueCounted(attrs, key, "");
    NestedRuleSingleMember(attrs, Member(key, JString("")));
  }

  /**
   * A tracked list `a, b` (such as `"Romance, Tragedy"`): counted whole by the
   * flat rule, split and trimmed by the nested rule.
   */
  lemma ListValueUnderBothRules(attrs: seq<string>, key: string, a: string, b: string)
    requires key in attrs && Extraction.PlainPiece(a) && Extraction.PlainPiece(b)
    ensures FlatRecords(attrs, JArray([JObject([Member(key, JString(a + ", " + b))])])).records ==
      [Occurrence(key, a + ", " + b)]
    ensures Extraction.RootRecords(attrs, JArray([JObject([Member(key, JString(a + ", " + b))])])).records ==
      [Occurrence(key, a), Occurrence(key, b)]
  {
    var list := a + ", " + b;
    WholeValueCounted(attrs, key, list);
    NestedRuleSingleMember(attrs, Member(key, JString(list)));
    Extraction.ListValueRecords(attrs, key, a, b);
  }

  /**
   * Only direct members are looked at: an object value is never walked. Under
   * a tracked key it ends the file, under any other key it is skipped whole.
   */
  lemma NestedObjectNotWalked(attrs: seq<string>, key: string, inner: seq<Member>)
    ensures FlatRecords(attrs, JArray([JObject([Member(key, JObject(inner))])])) ==
      if key in attrs then FileResult([], Some(ValueNotString)) else FileResult([], None)
  {
    var ms := [Member(key, JObject(inner))];
    assert ms[1..] == [];
    assert [JObject(ms)][1..] == [];
    assert FlatMembers(attrs, ms) == if key in attrs then FileResult([], Some(ValueNotString)) else FileResult([], None);
    assert FlatElements(attrs, [JObject(ms)][1..]) == FileResult([], None);
  }

  /** A tracked `true`/`false` ends the file; what earlier members recorded stays. */
  lemma TrackedBooleanStopsFile(attrs: seq<string>, key: string, before: string, b: bool, rest: seq<Member>)
    requires key in attrs
    ensures FlatMembers(attrs, [Member(key, JString(before)), Member(key, JBool(b))] + rest) ==
      FileResult([Occurrence(key, before)], Some(ValueNotString))
  {
    var ms := [Member(key, JString(before)), Member(key, JBool(b))] + rest;
    assert ms[1..][0] == Member(key, JBool(b));
  }

  /** A tracked null is skipped like an untracked member. */
  lemma TrackedNullSkipped(attrs: seq<string>, key: string, rest: seq<Member>)
    ensures FlatMembers(attrs, [Member(key, JNull)] + rest) == FlatMembers(attrs, rest)
  {
    assert ([Member(key, JNull)] + rest)[1..] == rest;
  }

  /**
   * The first element that is not an object ends the file, with the objects
   * before it counted.
   */
  lemma {:induction false} FlatStopsAtNonObject(attrs: seq<string>, objects: seq<Json>, bad: Json, rest: seq<Json>)
    requires forall i :: 0 <= i < |objects| ==> objects[i].JObject? && FlatMembers(attrs, objects[i].members).error == None
    requires !bad.JObject?
    ensures FlatElements(attrs, objects + [bad] + rest) == Then(FlatElements(attrs, objects).records, FileResult([], Some(ElementNotObject)))
  {
    if objects == [] {
      assert objects + [bad] + rest == [bad] + rest;
    } else {
      var tail := objects[1..];
      assert (objects + [bad] + rest)[1..] == tail + [bad] + rest;
      assert (objects + [bad] + rest)[0] == objects[0];
      FlatStopsAtNonObject(attrs, tail, bad, rest);
      var obj := FlatMembers(attrs, objects[0].members);
      ThenThen(obj.records, FlatElements(attrs, tail).records, FileResult([], Some(ElementNotObject)));
    }
  }

  /**
   * On plain input, the flat rule and the nested rule of `JsonProcessor`
   * record the same thing: members hold no objects or arrays, and every
   * tracked non-null value is a non-empty, trimmed string or number without a
   * comma.
   */
  predicate PlainMember(attrs: seq<string>, m: Member) {
    && !m.value.JObject? && !m.value.JArray?
    && (m.key in attrs && m.value != JNull ==>
         IsScalar(m.value) && ScalarText(m.value) != [] &&
         JavaStrings.Comma !in ScalarText(m.value) && JavaStrings.IsTrimmed(ScalarText(m.value)))
  }

  lemma PlainMemberRecords(attrs: seq<string>, m: Member)
    requires PlainMember(attrs, m)
    ensures Extraction.MemberRecords(attrs, m) ==
      if m.key in attrs && m.value != JNull then [Occurrence(m.key, ScalarText(m.value))] else []
  {
    if m.key in attrs && IsScalar(m.value) {
      var s := ScalarText(m.value);
      assert Extraction.MemberRecords(attrs, m) == Extraction.ValueRecords(attrs, m.key, s);
      JavaStrings.ParseValuesNoComma(s);
      assert JavaStrings.ParseValues(s) == [s];
      var r := Extraction.Under(m.key, [s]);
      assert |r| == 1 && r[0] == Occurrence(m.key, s);
    }
  }

  lemma {:induction false} FlatAgreesOnPlainMembers(attrs: seq<string>, members: seq<Member>)
    requires forall i :: 0 <= i < |members| ==> PlainMember(attrs, members[i])
    ensures FlatMembers(attrs, members) == FileResult(Extraction.ObjectRecords(attrs, members), None)
  {
    if members != [] {
      var m, rest := members[0], members[1..];
      FlatAgreesOnPlainMembers(attrs, rest);
      Extraction.ObjectRecordsAppend(attrs, [m], rest);
      assert [m] + rest == members;
      assert [m][..0] == [];
      assert Extraction.ObjectRecords(attrs, [m]) == Extraction.MemberRecords(attrs, m);
      PlainMemberRecords(attrs, m);
    }
  }

  // ---------------------------------------------------------------------------
  // The flat rule on any input

  /** A member `nextString` is asked to read but cannot: tracked, not null, neither a string nor a number. */
  predicate Unreadable(attrs: seq<string>, m: Member) {
    m.key in attrs && m.value != JNull && !IsScalar(m.value)
  }

  /** A tracked member under `key` that the reader hands out as the text `value`. */
  predicate ReadsAs(attrs: seq<string>, m: Member, key: string, value: string) {
    key in attrs && m.key == key && IsScalar(m.value) && ScalarText(m.value) == value
  }

  /** An object's members fail with `ValueNotString` exactly when one of them cannot be read. */
  lemma {:induction false} FlatMembersError(attrs: seq<string>, members: seq<Member>)
    ensures FlatMembers(attrs, members).error == Some(ValueNotString) <==>
      exists j :: 0 <= j < |members| && Unreadable(attrs, members[j])
  {
    if members != [] {
      var rest := members[1..];
      FlatMembersError(attrs, rest);
      if exists j :: 0 <= j < |rest| && Unreadable(attrs, rest[j]) {
        var j :| 0 <= j < |rest| && Unreadable(attrs, rest[j]);
        assert members[j + 1] == rest[j];
      }
      if exists j :: 0 <= j < |members| && Unreadable(attrs, members[j]) {
        var j :| 0 <= j < |members| && Unreadable(attrs, members[j]);
        if j > 0 {
          assert rest[j - 1] == members[j];
        }
      }
    }
  }

  /** Members that can all be read are walked one after the other, into what follows them. */
  lemma {:induction false} FlatMembersAppend(attrs: seq<string>, a: seq<Member>, b: seq<Member>)
    requires forall j :: 0 <= j < |a| ==> !Unreadable(attrs, a[j])
    ensures FlatMembers(attrs, a + b) == Then(FlatMembers(attrs, a).records, FlatMembers(attrs, b))
  {
    if a == [] {
      assert a + b == b;
      assert [] + FlatMembers(attrs, b).records == FlatMembers(attrs, b).records;
    } else {
      var m := a[0];
      assert (a + b)[0] == m;
      assert (a + b)[1..] == a[1..] + b;
      assert !Unreadable(attrs, a[0]);
      FlatMembersAppend(attrs, a[1..], b);
      if m.key in attrs && m.value != JNull {
        var o := Occurrence(m.key, ScalarText(m.value));
        ThenThen([o], FlatMembers(attrs, a[1..]).records, FlatMembers(attrs, b));
      }
    }
  }

  /**
   * The first member that cannot be read ends the file; what the members
   * before it recorded stays, and nothing after it is looked at.
   */
  lemma FlatMembersStopsAt(attrs: seq<string>, before: seq<Member>, m: Member, after: seq<Member>)
    requires forall j :: 0 <= j < |before| ==> !Unreadable(attrs, before[j])
    requires Unreadable(attrs, m)
    ensures FlatMembers(attrs, before + [m] + after) == FileResult(FlatMembers(attrs, before).records, Some(ValueNotString))
  {
    assert before + [m] + after == before + ([m] + after);
    FlatMembersAppend(attrs, before, [m] + after);
    assert ([m] + after)[0] == m;
    assert FlatMembers(attrs, before).records + [] == FlatMembers(attrs, before).records;
  }

  /**
   * When every member can be read, a value is counted under a key exactly as
   * many times as a tracked member under that key reads as that value: whole,
   * unsplit and untrimmed, and nested objects and arrays count nothing.
   */
  lemma {:induction false} FlatMembersCounts(attrs: seq<string>, members: seq<Member>, key: string, value: string)
    requires forall j :: 0 <= j < |members| ==> !Unreadable(attrs, members[j])
    ensures multiset(FlatMembers(attrs, members).records)[Occurrence(key, value)] ==
      |set j | 0 <= j < |members| && ReadsAs(attrs, members[j], key, value)|
  {
    if members != [] {
      var init, last := members[..|members| - 1], members[|members| - 1];
      assert members == init + [last];
      assert forall j :: 0 <= j < |init| ==> init[j] == members[j];
      FlatMembersCounts(attrs, init, key, value);
      FlatMembersAppend(attrs, init, [last]);
      FlatMemberCounts(attrs, last, key, value);
      ReadsAsSnoc(attrs, members, key, value);
      var earlier, mine := FlatMembers(attrs, init).records, FlatMembers(attrs, [last]).records;
      assert multiset(earlier + mine) == multiset(earlier) + multiset(mine);
    }
  }

  /** One readable member counts once under its own key and text, and nowhere else. */
  lemma FlatMemberCounts(attrs: seq<string>, m: Member, key: string, value: string)
    requires !Unreadable(attrs, m)
    ensures multiset(FlatMembers(attrs, [m]).records)[Occurrence(key, value)] == if ReadsAs(attrs, m, key, value) then 1 else 0
  {
    assert [m][1..] == [];
  }

  /** The members reading as `value` under `key`, counted up to the last one and then with it. */
  lemma ReadsAsSnoc(attrs: seq<string>, members: seq<Member>, key: string, value: string)
    requires members != []
    ensures var init, last := members[..|members| - 1], members[|members| - 1];
      |set j | 0 <= j < |members| && ReadsAs(attrs, members[j], key, value)| ==
      |set j | 0 <= j < |init| && ReadsAs(attrs, init[j], key, value)| + if ReadsAs(attrs, last, key, value) then 1 else 0
  {
    var init, last := members[..|members| - 1], members[|members| - 1];
    var all := set j | 0 <= j < |members| && ReadsAs(attrs, members[j], key, value);
    var earlier := set j | 0 <= j < |init| && ReadsAs(attrs, init[j], key, value);
    assert forall j :: 0 <= j < |init| ==> init[j] == members[j];
    if ReadsAs(attrs, last, key, value) {
      assert all == earlier + {|init|};
    } else {
      assert all == earlier;
    }
  }

  /**
   * A file's root array is walked to its end without error exactly when every
   * element is an object and every member of those objects can be read.
   */
  lemma {:induction false} FlatElementsError(attrs: seq<string>, elems: seq<Json>)
    ensures FlatElements(attrs, elems).error == None <==>
      forall i :: 0 <= i < |elems| ==>
        elems[i].JObject? && forall j :: 0 <= j < |elems[i].members| ==> !Unreadable(attrs, elems[i].members[j])
  {
    if elems != [] {
      var rest := elems[1..];
      FlatElementsError(attrs, rest);
      forall i | 0 < i < |elems|
        ensures elems[i] == rest[i - 1]
      {
      }
      if elems[0].JObject? {
        FlatMembersError(attrs, elems[0].members);
      }
    }
  }

  // ---------------------------------------------------------------------------
  // The imperative walk

  /** One turn of the inner loop, read off the flat rule. */
  lemma FlatMembersStep(attrs: seq<string>, members: seq<Member>, j: nat)
    requires j < |members|
    ensures var m := members[j];
      FlatMembers(attrs, members[j..]) ==
        if m.key in attrs && m.value != JNull then
          if IsScalar(m.value) then Then([Occurrence(m.key, ScalarText(m.value))], FlatMembers(attrs, members[j + 1..]))
          else FileResult([], Some(ValueNotString))
        else FlatMembers(attrs, members[j + 1..])
  {
    assert members[j..][0] == members[j];
    assert members[j..][1..] == members[j + 1..];
  }

  /** One turn of the outer loop, read off the flat rule. */
  lemma FlatElementsStep(attrs: seq<string>, elems: seq<Json>, i: nat)
    requires i < |elems|
    ensures FlatElements(attrs, elems[i..]) ==
      if !elems[i].JObject? then FileResult([], Some(ElementNotObject))
      else
        var obj := FlatMembers(attrs, elems[i].members);
        if obj.error.Some? then obj else Then(obj.records, FlatElements(attrs, elems[i + 1..]))
  {
    assert elems[i..][0] == elems[i];
    assert elems[i..][1..] == elems[i + 1..];
  }

  /**
   * `processJsonFile` on one parsed file: the loop over the root array,
   * recording into the shared map. The map ends as the fold of what
   * `FlatRecords` lists, and the error is the one it names: nothing is rolled
   * back.
   */
  method ProcessJsonFile(root: Json, attributeNames: seq<string>, statistics: Counter) returns (error: Option<FormatError>)
    modifies statistics
    ensures statistics.counts == Fold(old(statistics.counts), FlatRecords(attributeNames, root).records)
    ensures error == FlatRecords(attributeNames, root).error
  {
    if !root.JArray? {
      return Some(RootNotArray);
    }
    var elems := root.elems;
    ghost var done: seq<Occurrence> := [];
    var i := 0;
    assert elems[0..] == elems;
    while i < |elems|
      invariant 0 <= i <= |elems|
      invariant FlatElements(attributeNames, elems) == Then(done, FlatElements(attributeNames, elems[i..]))
      invariant statistics.counts == Fold(old(statistics.counts), done)
    {
      FlatElementsStep(attributeNames, elems, i);
      if !elems[i].JObject? {
        assert done + [] == done;
        return Some(ElementNotObject);
      }
      ghost var inObject := FlatMembers(attributeNames, elems[i].members);
      FoldAppend(old(statistics.counts), done, inObject.records);
      error := ProcessObjectMembers(elems[i].members, attributeNames, statistics);
      if error.Some? {
        return error;
      }
      ThenThen(done, inObject.records, FlatElements(attributeNames, elems[i + 1..]));
      done := done + inObject.records;
      i := i + 1;
    }
    assert elems[i..] == [];
    assert done + [] == done;
    return None;
  }

  /**
   * The inner loop of `processJsonFile`, over one object's members: the map
   * ends as the fold of what `FlatMembers` lists.
   */
  method ProcessObjectMembers(members: seq<Member>, attributeNames: seq<string>, statistics: Counter) returns (error: Option<FormatError>)
    modifies statistics
    ensures statistics.counts == Fold(old(statistics.counts), FlatMembers(attributeNames, members).records)
    ensures error == FlatMembers(attributeNames, members).error
  {
    ghost var inObject: seq<Occurrence> := [];
    var j := 0;
    assert members[0..] == members;
    while j < |members|
      invariant 0 <= j <= |members|
      invariant FlatMembers(attributeNames, members) == Then(inObject, FlatMembers(attributeNames, members[j..]))
      invariant statistics.counts == Fold(old(statistics.counts), inObject)
    {
      var member := members[j];
      FlatMembersStep(attributeNames, members, j);
      if member.key in attributeNames && member.value != JNull {
        if !IsScalar(member.value) {
          assert inObject + [] == inObject;
          return Some(ValueNotString);
        }
        var attributeValue := ScalarText(member.value);
        ghost var occurrence := Occurrence(member.key, attributeValue);
        FoldSnoc(old(statistics.counts), inObject, occurrence);
        statistics.Record(member.key, attributeValue);
        ThenThen(inObject, [occurrence], FlatMembers(attributeNames, members[j + 1..]));
        inObject := inObject + [occurrence];
      }
      j := j + 1;
    }
    assert members[j..] == [];
    assert inObject + [] == inObject;
    return None;
  }

  // ---------------------------------------------------------------------------
  // The reports

  /** `writeStatisticsToXML` puts four spaces before `<value>` and `<count>`. */
  const LegacyIndent := "    "

  /** The four writes for one entry make up one item block. */
  lemma LegacyItem(row: Row)
    ensures "  <item>\n" + ("    <value>" + row.value + "</value>\n") +
      ("    <count>" + JavaStrings.IntToString(row.count) + "</count>\n") + "  </item>\n" ==
      Item(LegacyIndent, row)
  {
    assert ItemHead(LegacyIndent) == "  <item>\n" + "    <value>";
    assert ItemMiddle(LegacyIndent) == "</value>\n" + "    <count>";
    assert ItemTail == "</count>\n" + "  </item>\n";
  }

  /**
   * `writeStatisticsToXML`: the opening tag, four writes per entry in the
   * given order, the closing tag.
   */
  method WriteStatisticsToXml(sortedData: seq<Row>) returns (text: string)
    ensures text == Document(LegacyIndent, sortedData)
  {
    text := "<statistics>\n";
    assert Items(LegacyIndent, sortedData[..0]) == [];
    for i := 0 to |sortedData|
      invariant text == StatisticsOpen + Items(LegacyIndent, sortedData[..i])
    {
      var entry := sortedData[i];
      ghost var before := text;
      text := text + "  <item>\n";
      text := text + ("    <value>" + entry.value + "</value>\n");
      text := text + ("    <count>" + JavaStrings.IntToString(entry.count) + "</count>\n");
      text := text + "  </item>\n";
      LegacyItem(entry);
      LegacyAppend(before, entry);
      AppendAssociative(StatisticsOpen, Items(LegacyIndent, sortedData[..i]), Item(LegacyIndent, entry));
      ItemsPrefix(LegacyIndent, sortedData, i);
    }
    assert sortedData[..|sortedData|] == sortedData;
    text := text + "</statistics>";
  }

  /** Four successive writes equal one write of their concatenation. */
  lemma LegacyAppend(before: string, row: Row)
    ensures before + "  <item>\n" + ("    <value>" + row.value + "</value>\n") +
      ("    <count>" + JavaStrings.IntToString(row.count) + "</count>\n") + "  </item>\n" ==
      before + ("  <item>\n" + ("    <value>" + row.value + "</value>\n") +
      ("    <count>" + JavaStrings.IntToString(row.count) + "</count>\n") + "  </item>\n")
  {
  }

  /** What `main` submits to its pool for one attribute: file name, sorted entries, text. */
  method LegacyStatisticsFile(key: string, value: map<string, int>) returns (report: Report)
    ensures report.key == key
    ensures IsReportOf(report, value, LegacyIndent)
  {
    var fileName := "statistics_by_" + key + ".xml";
    var entries := EntryList(value);
    var sortedData := SortByCountDescending(entries);
    EnumeratesSorted(entries, sortedData, value);
    var text := WriteStatisticsToXml(sortedData);
    report := Report(key, fileName, sortedData, text);
  }

  /**
   * `statistics.forEach` in `main`: one report per attribute of the map,
   * which is only read.
   */
  method WriteAllStatistics(statistics: Counter) returns (reports: seq<Report>)
    ensures ReportsCover(reports, statistics.counts, LegacyIndent)
  {
    var counts := statistics.counts;
    reports := [];
    var remaining := counts.Keys;
    while remaining != {}
      invariant remaining <= counts.Keys
      invariant ReportsFor(reports, counts, counts.Keys - remaining, LegacyIndent)
      decreases remaining
    {
      var key :| key in remaining;
      var report := LegacyStatisticsFile(key, counts[key]);
      ReportsForSnoc(reports, report, counts, counts.Keys - remaining, LegacyIndent);
      assert counts.Keys - remaining + {key} == counts.Keys - (remaining - {key});
      reports := reports + [report];
      remaining := remaining - {key};
    }
    assert counts.Keys - remaining == counts.Keys;
  }
}
