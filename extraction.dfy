/**
 * What `JsonProcessor` records for one file, as a pure function of the parsed
 * document: the sequence of (attribute, value) occurrences, in the order the
 * reader meets them, and the format error that stopped the walk, if any.
 * The imperative walk in module `JsonProcessing` is proved to fold exactly
 * these occurrences into the counter.
 */
module Extraction {

  import opened Wrappers
  import opened Json
  import JavaStrings

  /** Every occurrence is under a tracked key, with a comma-free trimmed value. */
  predicate Tracked(attrs: seq<string>, recs: seq<Occurrence>) {
    forall i :: 0 <= i < |recs| ==>
      recs[i].key in attrs && JavaStrings.Comma !in recs[i].value && JavaStrings.IsTrimmed(recs[i].value)
  }

  /** The occurrences of `values`, all under `key`. */
  function Under(key: string, values: seq<string>): (r: seq<Occurrence>)
    ensures |r| == |values|
    ensures forall i :: 0 <= i < |r| ==> r[i].key == key && r[i].value == values[i]
  {
    seq(|values|, i requires 0 <= i < |values| => Occurrence(key, values[i]))
  }

  /**
   * `processValue`: a string or number is recorded only when its key is
   * tracked and its text is not empty; it is then split on commas and every
   * trimmed piece is recorded under the key.
   */
  function ValueRecords(attrs: seq<string>, key: string, value: string): seq<Occurrence> {
    if key in attrs && value != [] then Under(key, JavaStrings.ParseValues(value)) else []
  }

  /**
   * `processJsonObject`, member by member: scalars are recorded under their
   * own key, nested objects are walked with the same rule, arrays are walked
   * under the member's key, booleans and nulls are skipped.
   */
  function ObjectRecords(attrs: seq<string>, members: seq<Member>): seq<Occurrence>
    decreases members
  {
    if members == [] then []
    else ObjectRecords(attrs, members[..|members| - 1]) + MemberRecords(attrs, members[|members| - 1])
  }

  function MemberRecords(attrs: seq<string>, m: Member): seq<Occurrence>
    decreases m
  {
    match m.value
    case JString(s) => ValueRecords(attrs, m.key, s)
    case JNumber(t) => ValueRecords(attrs, m.key, t)
    case JObject(ms) => ObjectRecords(attrs, ms)
    case JArray(es) => ArrayRecords(attrs, m.key, es)
    case _ => []
  }

  /**
   * `processJsonArray`: scalar elements are recorded under the key of the
   * member that holds the array, objects are walked, and everything else (a
   * nested array, a boolean, null) is skipped: arrays flatten one level only.
   */
  function ArrayRecords(attrs: seq<string>, parentKey: string, elems: seq<Json>): seq<Occurrence>
    decreases elems
  {
    if elems == [] then []
    else ArrayRecords(attrs, parentKey, elems[..|elems| - 1]) + ElementRecords(attrs, parentKey, elems[|elems| - 1])
  }

  function ElementRecords(attrs: seq<string>, parentKey: string, e: Json): seq<Occurrence>
    decreases e
  {
    match e
    case JString(s) => ValueRecords(attrs, parentKey, s)
    case JNumber(t) => ValueRecords(attrs, parentKey, t)
    case JObject(ms) => ObjectRecords(attrs, ms)
    case _ => []
  }

  /** How many elements of the root array come before the first non-object. */
  function LeadingObjects(elems: seq<Json>): (n: nat)
    ensures n <= |elems|
  {
    if elems == [] || !elems[0].JObject? then 0 else 1 + LeadingObjects(elems[1..])
  }

  /** Every element before the count is an object, and the one at the count (if any) is not. */
  lemma {:induction false} LeadingObjectsSpec(elems: seq<Json>)
    ensures forall i :: 0 <= i < LeadingObjects(elems) ==> elems[i].JObject?
    ensures LeadingObjects(elems) < |elems| ==> !elems[LeadingObjects(elems)].JObject?
  {
    if elems != [] && elems[0].JObject? {
      LeadingObjectsSpec(elems[1..]);
      forall i | 0 < i < LeadingObjects(elems)
        ensures elems[i].JObject?
      {
        assert elems[i] == elems[1..][i - 1];
      }
    }
  }

  /** The objects of the root array, walked one after the other. */
  function ObjectsRecords(attrs: seq<string>, elems: seq<Json>): seq<Occurrence>
  {
    if elems == [] then []
    else
      var last := elems[|elems| - 1];
      ObjectsRecords(attrs, elems[..|elems| - 1]) + (if last.JObject? then ObjectRecords(attrs, last.members) else [])
  }

  /**
   * `processJsonElement`: the root must be an array, or the file fails with
   * nothing recorded; its elements are walked in order and the first one that
   * is not an object fails the file, with what the objects before it recorded
   * kept.
   */
  function RootRecords(attrs: seq<string>, root: Json): (r: FileResult)
    ensures !root.JArray? ==> r == FileResult([], Some(RootNotArray))
  {
    match root
    case JArray(elems) =>
      var n := LeadingObjects(elems);
      FileResult(ObjectsRecords(attrs, elems[..n]), if n < |elems| then Some(ElementNotObject) else None)
    case _ => FileResult([], Some(RootNotArray))
  }

  // ---------------------------------------------------------------------------
  // Properties of the walk

  lemma TrackedAppend(attrs: seq<string>, r1: seq<Occurrence>, r2: seq<Occurrence>)
    requires Tracked(attrs, r1) && Tracked(attrs, r2)
    ensures Tracked(attrs, r1 + r2)
  {
    forall i | 0 <= i < |r1 + r2|
      ensures (r1 + r2)[i] == if i < |r1| then r1[i] else r2[i - |r1|]
    {
    }
  }

  /**
   * `processValue` records nothing for an untracked key or an empty value;
   * otherwise one occurrence per parsed piece, in order, under the key, each
   * piece free of commas and trimmed.
   */
  lemma ValueRecordsPieces(attrs: seq<string>, key: string, value: string)
    ensures key !in attrs || value == [] ==> ValueRecords(attrs, key, value) == []
    ensures key in attrs && value != [] ==>
      var pieces := JavaStrings.ParseValues(value);
      && |ValueRecords(attrs, key, value)| == |pieces|
      && forall i :: 0 <= i < |pieces| ==> ValueRecords(attrs, key, value)[i] == Occurrence(key, pieces[i])
    ensures Tracked(attrs, ValueRecords(attrs, key, value))
  {
    JavaStrings.ParseValuesPieces(value);
  }

  /** A value `parseValues` gives back unchanged: not empty, no comma, trimmed. */
  predicate PlainPiece(s: string) {
    s != [] && JavaStrings.Comma !in s && JavaStrings.IsTrimmed(s)
  }

  /** A tracked plain value is recorded once, as it is. */
  lemma PlainValueRecords(attrs: seq<string>, key: string, value: string)
    requires key in attrs && PlainPiece(value)
    ensures MemberRecords(attrs, Member(key, JString(value))) == [Occurrence(key, value)]
  {
    JavaStrings.ParseValuesNoComma(value);
    var r := Under(key, [value]);
    assert r == [Occurrence(key, value)];
  }

  /** A tracked two-item list is recorded item by item. */
  lemma ListValueRecords(attrs: seq<string>, key: string, g1: string, g2: string)
    requires key in attrs && PlainPiece(g1) && PlainPiece(g2)
    ensures MemberRecords(attrs, Member(key, JString(g1 + ", " + g2))) == [Occurrence(key, g1), Occurrence(key, g2)]
  {
    JavaStrings.ParseValuesCommaSpace(g1, g2);
    var r := Under(key, [g1, g2]);
    assert r == [Occurrence(key, g1), Occurrence(key, g2)];
  }

  /** Everything an object records is under a tracked key, with a comma-free trimmed value. */
  lemma {:induction false} ObjectRecordsTracked(attrs: seq<string>, members: seq<Member>)
    ensures Tracked(attrs, ObjectRecords(attrs, members))
    decreases members
  {
    if members != [] {
      var init, last := members[..|members| - 1], members[|members| - 1];
      ObjectRecordsTracked(attrs, init);
      MemberRecordsTracked(attrs, last);
      TrackedAppend(attrs, ObjectRecords(attrs, init), MemberRecords(attrs, last));
    }
  }

  lemma {:induction false} MemberRecordsTracked(attrs: seq<string>, m: Member)
    ensures Tracked(attrs, MemberRecords(attrs, m))
    decreases m
  {
    match m.value
    case JString(s) => ValueRecordsPieces(attrs, m.key, s);
    case JNumber(t) => ValueRecordsPieces(attrs, m.key, t);
    case JObject(ms) => ObjectRecordsTracked(attrs, ms);
    case JArray(es) => ArrayRecordsTracked(attrs, m.key, es);
    case _ =>
  }

  lemma {:induction false} ArrayRecordsTracked(attrs: seq<string>, parentKey: string, elems: seq<Json>)
    ensures Tracked(attrs, ArrayRecords(attrs, parentKey, elems))
    decreases elems
  {
    if elems != [] {
      var init, last := elems[..|elems| - 1], elems[|elems| - 1];
      ArrayRecordsTracked(attrs, parentKey, init);
      ElementRecordsTracked(attrs, parentKey, last);
      TrackedAppend(attrs, ArrayRecords(attrs, parentKey, init), ElementRecords(attrs, parentKey, last));
    }
  }

  lemma {:induction false} ElementRecordsTracked(attrs: seq<string>, parentKey: string, e: Json)
    ensures Tracked(attrs, ElementRecords(attrs, parentKey, e))
    decreases e
  {
    match e
    case JString(s) => ValueRecordsPieces(attrs, parentKey, s);
    case JNumber(t) => ValueRecordsPieces(attrs, parentKey, t);
    case JObject(ms) => ObjectRecordsTracked(attrs, ms);
    case _ =>
  }

  lemma {:induction false} ObjectsRecordsTracked(attrs: seq<string>, elems: seq<Json>)
    ensures Tracked(attrs, ObjectsRecords(attrs, elems))
  {
    if elems != [] {
      var init, last := elems[..|elems| - 1], elems[|elems| - 1];
      ObjectsRecordsTracked(attrs, init);
      if last.JObject? {
        ObjectRecordsTracked(attrs, last.members);
        TrackedAppend(attrs, ObjectsRecords(attrs, init), ObjectRecords(attrs, last.members));
      } else {
        assert ObjectsRecords(attrs, elems) == ObjectsRecords(attrs, init) + [];
        assert ObjectsRecords(attrs, init) + [] == ObjectsRecords(attrs, init);
      }
    }
  }

  /**
   * Whatever a file records, up to its error, is under a tracked key, with a
   * comma-free trimmed value.
   */
  lemma RootRecordsTracked(attrs: seq<string>, root: Json)
    ensures Tracked(attrs, RootRecords(attrs, root).records)
  {
    if root.JArray? {
      ObjectsRecordsTracked(attrs, root.elems[..LeadingObjects(root.elems)]);
    }
  }

  /**
   * A file fails only because its root is not an array or because an element
   * of the root array is not an object.
   */
  lemma RootRecordsError(attrs: seq<string>, root: Json)
    ensures RootRecords(attrs, root).error in {None, Some(RootNotArray), Some(ElementNotObject)}
    ensures RootRecords(attrs, root).error == Some(ElementNotObject) <==> root.JArray? && exists i :: 0 <= i < |root.elems| && !root.elems[i].JObject?
  {
    if root.JArray? {
      LeadingObjectsSpec(root.elems);
    }
  }

  /** A root array of objects is walked to its end without error. */
  lemma RootAllObjects(attrs: seq<string>, elems: seq<Json>)
    requires forall i :: 0 <= i < |elems| ==> elems[i].JObject?
    ensures RootRecords(attrs, JArray(elems)) == FileResult(ObjectsRecords(attrs, elems), None)
  {
    LeadingObjectsSpec(elems);
    assert elems[..|elems|] == elems;
  }

  /**
   * The first non-object element of the root array stops the file: the
   * objects before it stay counted, nothing after it is looked at.
   */
  lemma RootStopsAtNonObject(attrs: seq<string>, objects: seq<Json>, bad: Json, rest: seq<Json>)
    requires forall i :: 0 <= i < |objects| ==> objects[i].JObject?
    requires !bad.JObject?
    ensures RootRecords(attrs, JArray(objects + [bad] + rest)) == FileResult(ObjectsRecords(attrs, objects), Some(ElementNotObject))
  {
    var elems := objects + [bad] + rest;
    assert forall i :: 0 <= i < |objects| ==> elems[i] == objects[i];
    assert elems[|objects|] == bad;
    LeadingObjectsSpec(elems);
    assert elems[..LeadingObjects(elems)] == objects;
  }

  lemma ObjectRecordsSnoc(attrs: seq<string>, ms: seq<Member>, m: Member)
    ensures ObjectRecords(attrs, ms + [m]) == ObjectRecords(attrs, ms) + MemberRecords(attrs, m)
  {
    assert (ms + [m])[..|ms|] == ms;
  }

  /** Walking an object is walking its members one after the other. */
  lemma {:induction false} ObjectRecordsAppend(attrs: seq<string>, ms1: seq<Member>, ms2: seq<Member>)
    ensures ObjectRecords(attrs, ms1 + ms2) == ObjectRecords(attrs, ms1) + ObjectRecords(attrs, ms2)
    decreases |ms2|
  {
    if ms2 == [] {
      assert ms1 + ms2 == ms1;
      assert ObjectRecords(attrs, ms1) + [] == ObjectRecords(attrs, ms1);
    } else {
      var init, last := ms2[..|ms2| - 1], ms2[|ms2| - 1];
      assert ms2 == init + [last];
      assert ms1 + ms2 == (ms1 + init) + [last];
      ObjectRecordsAppend(attrs, ms1, init);
      ObjectRecordsSnoc(attrs, ms1 + init, last);
      ObjectRecordsSnoc(attrs, init, last);
      var a, b, c := ObjectRecords(attrs, ms1), ObjectRecords(attrs, init), MemberRecords(attrs, last);
      assert (a + b) + c == a + (b + c);
    }
  }

  /** Wraps members in a chain of single-member objects, one per key of `path`. */
  function Nest(path: seq<string>, members: seq<Member>): seq<Member> {
    if path == [] then members else [Member(path[0], JObject(Nest(path[1..], members)))]
  }

  /**
   * Keys at any depth are eligible, and the keys of the enclosing objects
   * play no part: members nested under any chain of objects record exactly
   * what they record at the top level.
   */
  lemma {:induction false} NestedAtAnyDepth(attrs: seq<string>, path: seq<string>, members: seq<Member>)
    ensures ObjectRecords(attrs, Nest(path, members)) == ObjectRecords(attrs, members)
  {
    if path != [] {
      NestedAtAnyDepth(attrs, path[1..], members);
      var outer := Nest(path, members);
      assert outer[..0] == [];
    }
  }

  function Strings(values: seq<string>): (r: seq<Json>)
    ensures |r| == |values| && forall i :: 0 <= i < |r| ==> r[i] == JString(values[i])
  {
    seq(|values|, i requires 0 <= i < |values| => JString(values[i]))
  }

  lemma ObjectsRecordsSnoc(attrs: seq<string>, elems: seq<Json>, o: seq<Member>)
    ensures ObjectsRecords(attrs, elems + [JObject(o)]) == ObjectsRecords(attrs, elems) + ObjectRecords(attrs, o)
  {
    assert (elems + [JObject(o)])[..|elems|] == elems;
  }

  lemma ArrayRecordsSnoc(attrs: seq<string>, parentKey: string, elems: seq<Json>, e: Json)
    ensures ArrayRecords(attrs, parentKey, elems + [e]) == ArrayRecords(attrs, parentKey, elems) + ElementRecords(attrs, parentKey, e)
  {
    assert (elems + [e])[..|elems|] == elems;
  }

  /** Walking one more member of an object, by position. */
  lemma ObjectRecordsPrefix(attrs: seq<string>, ms: seq<Member>, i: nat)
    requires i < |ms|
    ensures ObjectRecords(attrs, ms[..i + 1]) == ObjectRecords(attrs, ms[..i]) + MemberRecords(attrs, ms[i])
  {
    assert ms[..i + 1][..i] == ms[..i];
  }

  /** Walking one more object of the root array, by position. */
  lemma ObjectsRecordsPrefix(attrs: seq<string>, elems: seq<Json>, i: nat)
    requires i < |elems| && elems[i].JObject?
    ensures ObjectsRecords(attrs, elems[..i + 1]) == ObjectsRecords(attrs, elems[..i]) + ObjectRecords(attrs, elems[i].members)
  {
    assert elems[..i + 1][..i] == elems[..i];
  }

  /** Walking one more element of an array, by position. */
  lemma ArrayRecordsPrefix(attrs: seq<string>, parentKey: string, elems: seq<Json>, i: nat)
    requires i < |elems|
    ensures ArrayRecords(attrs, parentKey, elems[..i + 1]) == ArrayRecords(attrs, parentKey, elems[..i]) + ElementRecords(attrs, parentKey, elems[i])
  {
    assert elems[..i + 1][..i] == elems[..i];
  }

  lemma PlainElementRecords(attrs: seq<string>, key: string, value: string)
    requires key in attrs && PlainPiece(value)
    ensures ElementRecords(attrs, key, JString(value)) == [Occurrence(key, value)]
  {
    JavaStrings.ParseValuesNoComma(value);
    var r := Under(key, [value]);
    assert r == [Occurrence(key, value)];
  }

  lemma StringsSnoc(values: seq<string>)
    requires values != []
    ensures Strings(values) == Strings(values[..|values| - 1]) + [JString(values[|values| - 1])]
  {
  }

  lemma UnderSnoc(key: string, values: seq<string>)
    requires values != []
    ensures Under(key, values) == Under(key, values[..|values| - 1]) + [Occurrence(key, values[|values| - 1])]
  {
  }

  /** An array of plain strings records each of them, in order, under the parent key. */
  lemma {:induction false} ArrayOfStrings(attrs: seq<string>, key: string, values: seq<string>)
    requires key in attrs
    requires forall i :: 0 <= i < |values| ==> PlainPiece(values[i])
    ensures ArrayRecords(attrs, key, Strings(values)) == Under(key, values)
  {
    if values != [] {
      var init, last := values[..|values| - 1], values[|values| - 1];
      ArrayOfStrings(attrs, key, init);
      StringsSnoc(values);
      ArrayRecordsSnoc(attrs, key, Strings(init), JString(last));
      PlainElementRecords(attrs, key, last);
      UnderSnoc(key, values);
    }
  }

  /**
   * A multi-valued field may be written as an array of strings or as one
   * comma-joined string: both record the same occurrences.
   */
  lemma ArrayMatchesJoinedString(attrs: seq<string>, key: string, values: seq<string>)
    requires key in attrs && |values| >= 1
    requires forall i :: 0 <= i < |values| ==> PlainPiece(values[i])
    ensures MemberRecords(attrs, Member(key, JArray(Strings(values)))) == MemberRecords(attrs, Member(key, JString(JavaStrings.Join(values))))
  {
    ArrayOfStrings(attrs, key, values);
    JavaStrings.ParseValuesJoin(values);
  }

  /** Two attribute lists with the same names select the same occurrences. */
  lemma {:induction false} SameNamesObject(a1: seq<string>, a2: seq<string>, members: seq<Member>)
    requires forall k :: k in a1 <==> k in a2
    ensures ObjectRecords(a1, members) == ObjectRecords(a2, members)
    decreases members
  {
    if members != [] {
      SameNamesObject(a1, a2, members[..|members| - 1]);
      SameNamesMember(a1, a2, members[|members| - 1]);
    }
  }

  lemma {:induction false} SameNamesMember(a1: seq<string>, a2: seq<string>, m: Member)
    requires forall k :: k in a1 <==> k in a2
    ensures MemberRecords(a1, m) == MemberRecords(a2, m)
    decreases m
  {
    match m.value
    case JObject(ms) => SameNamesObject(a1, a2, ms);
    case JArray(es) => SameNamesArray(a1, a2, m.key, es);
    case _ =>
  }

  lemma {:induction false} SameNamesArray(a1: seq<string>, a2: seq<string>, key: string, elems: seq<Json>)
    requires forall k :: k in a1 <==> k in a2
    ensures ArrayRecords(a1, key, elems) == ArrayRecords(a2, key, elems)
    decreases elems
  {
    if elems != [] {
      SameNamesArray(a1, a2, key, elems[..|elems| - 1]);
      match elems[|elems| - 1]
      case JObject(ms) => SameNamesObject(a1, a2, ms);
      case _ =>
    }
  }

  lemma {:induction false} SameNamesObjects(a1: seq<string>, a2: seq<string>, elems: seq<Json>)
    requires forall k :: k in a1 <==> k in a2
    ensures ObjectsRecords(a1, elems) == ObjectsRecords(a2, elems)
  {
    if elems != [] {
      SameNamesObjects(a1, a2, elems[..|elems| - 1]);
      var last := elems[|elems| - 1];
      if last.JObject? {
        SameNamesObject(a1, a2, last.members);
      }
    }
  }

  /**
   * Only the set of attribute names matters: their order and any repetition
   * in the list change nothing in what a file records.
   */
  lemma SameNamesRoot(a1: seq<string>, a2: seq<string>, root: Json)
    requires forall k :: k in a1 <==> k in a2
    ensures RootRecords(a1, root) == RootRecords(a2, root)
  {
    if root.JArray? {
      SameNamesObjects(a1, a2, root.elems[..LeadingObjects(root.elems)]);
    }
  }
}
