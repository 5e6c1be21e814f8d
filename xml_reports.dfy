/**
 * `XMLWriter`: for every attribute in the count map, the report file name, its
 * rows sorted by descending count, and the exact document text. The document
 * format is shared with the older renderer in `Main`, which differs only in
 * the indentation of the `<value>` and `<count>` lines.
 */
module XmlReports {

  import opened Wrappers
  import JavaStrings
  import opened Counting

  /** One `Map.Entry<String, Integer>` of an attribute's inner map. */
  datatype Row = Row(value: string, count: int)

  /** One report file: the attribute, the file name, the sorted rows and the text written. */
  datatype Report = Report(key: string, fileName: string, rows: seq<Row>, text: string)

  // ---------------------------------------------------------------------------
  // File name

  const FileNamePrefix := "statistics_by_"
  const FileNameSuffix := ".xml"

  function ReportFileName(key: string): (name: string)
    ensures |name| == |FileNamePrefix| + |key| + |FileNameSuffix|
  {
    FileNamePrefix + key + FileNameSuffix
  }

  /** Recovers the attribute from a report file name, if it is one. */
  function KeyOfReportFileName(name: string): (key: Option<string>)
  {
    var lo, hi := |FileNamePrefix|, |name| - |FileNameSuffix|;
    if lo <= hi && name[..lo] == FileNamePrefix && name[hi..] == FileNameSuffix then Some(name[lo..hi]) else None
  }

  /** The attribute is read back from its report's file name. */
  lemma FileNameRoundTrip(key: string)
    ensures KeyOfReportFileName(ReportFileName(key)) == Some(key)
  {
    var name := ReportFileName(key);
    assert name[..|FileNamePrefix|] == FileNamePrefix;
    assert name[|FileNamePrefix|..|name| - |FileNameSuffix|] == key;
    assert name[|name| - |FileNameSuffix|..] == FileNameSuffix;
  }

  /** Every name the decoder accepts is the report file name of what it decodes. */
  lemma KeyOfFileNameRoundTrip(name: string)
    requires KeyOfReportFileName(name).Some?
    ensures ReportFileName(KeyOfReportFileName(name).value) == name
  {
    var lo, hi := |FileNamePrefix|, |name| - |FileNameSuffix|;
    assert name == name[..lo] + name[lo..hi] + name[hi..];
  }

  /** Distinct attributes get distinct report files. */
  lemma FileNameInjective(k1: string, k2: string)
    requires ReportFileName(k1) == ReportFileName(k2)
    ensures k1 == k2
  {
    FileNameRoundTrip(k1);
    FileNameRoundTrip(k2);
  }

  // ---------------------------------------------------------------------------
  // Sorting by descending count

  predicate SortedByCountDescending(rows: seq<Row>) {
    forall i, j :: 0 <= i < j < |rows| ==> rows[i].count >= rows[j].count
  }

  /** Places `row` before the first row whose count is not greater. */
  function Insert(row: Row, sorted: seq<Row>): seq<Row> {
    if sorted == [] || row.count >= sorted[0].count then [row] + sorted
    else [sorted[0]] + Insert(row, sorted[1..])
  }

  /** Inserting adds just that row. */
  lemma {:induction false} InsertPermutation(row: Row, sorted: seq<Row>)
    ensures multiset(Insert(row, sorted)) == multiset(sorted) + multiset{row}
  {
    if sorted != [] && row.count < sorted[0].count {
      InsertPermutation(row, sorted[1..]);
      assert sorted == [sorted[0]] + sorted[1..];
    }
  }

  lemma SortedTail(rows: seq<Row>)
    requires rows != [] && SortedByCountDescending(rows)
    ensures SortedByCountDescending(rows[1..])
  {
    var tail := rows[1..];
    forall p, q | 0 <= p < q < |tail|
      ensures tail[p].count >= tail[q].count
    {
      assert tail[p] == rows[p + 1] && tail[q] == rows[q + 1];
    }
  }

  lemma SortedCons(x: Row, rest: seq<Row>)
    requires SortedByCountDescending(rest)
    requires forall k :: 0 <= k < |rest| ==> rest[k].count <= x.count
    ensures SortedByCountDescending([x] + rest)
  {
    var r := [x] + rest;
    forall p, q | 0 <= p < q < |r|
      ensures r[p].count >= r[q].count
    {
      assert r[q] == rest[q - 1];
      if p > 0 {
        assert r[p] == rest[p - 1];
      }
    }
  }

  /** Every row of a permutation of `tail` plus `row` counts at most `bound` when they all do. */
  lemma BoundedRows(rest: seq<Row>, tail: seq<Row>, row: Row, bound: int)
    requires multiset(rest) == multiset(tail) + multiset{row}
    requires row.count <= bound
    requires forall t :: 0 <= t < |tail| ==> tail[t].count <= bound
    ensures forall k :: 0 <= k < |rest| ==> rest[k].count <= bound
  {
    forall k | 0 <= k < |rest|
      ensures rest[k].count <= bound
    {
      assert rest[k] in multiset(rest);
      if rest[k] != row {
        assert rest[k] in multiset(tail);
        var t :| 0 <= t < |tail| && tail[t] == rest[k];
      }
    }
  }

  /** Inserting into a list in non-increasing order of count keeps it in that order. */
  lemma {:induction false} InsertSorted(row: Row, sorted: seq<Row>)
    requires SortedByCountDescending(sorted)
    ensures SortedByCountDescending(Insert(row, sorted))
  {
    if sorted != [] && row.count < sorted[0].count {
      var tail := sorted[1..];
      SortedTail(sorted);
      InsertSorted(row, tail);
      InsertPermutation(row, tail);
      assert forall t :: 0 <= t < |tail| ==> tail[t] == sorted[t + 1];
      BoundedRows(Insert(row, tail), tail, row, sorted[0].count);
      SortedCons(sorted[0], Insert(row, tail));
    }
  }

  /**
   * `sorted(Map.Entry.comparingByValue(Comparator.reverseOrder()))`: the same
   * rows, in non-increasing order of count.
   */
  function SortByCountDescending(rows: seq<Row>): (r: seq<Row>)
    ensures SortedByCountDescending(r)
    ensures multiset(r) == multiset(rows)
  {
    if rows == [] then []
    else
      var rest := SortByCountDescending(rows[1..]);
      InsertSorted(rows[0], rest);
      InsertPermutation(rows[0], rest);
      assert rows == [rows[0]] + rows[1..];
      Insert(rows[0], rest)
  }

  /** `rows` without its `j`-th row. */
  function RemoveAt(rows: seq<Row>, j: nat): (r: seq<Row>)
    requires j < |rows|
    ensures |r| == |rows| - 1
    ensures forall k :: 0 <= k < |r| ==> r[k] == if k < j then rows[k] else rows[k + 1]
  {
    rows[..j] + rows[j + 1..]
  }

  lemma RemoveAtSortedPermutation(rows: seq<Row>, j: nat)
    requires j < |rows|
    requires SortedByCountDescending(rows)
    ensures SortedByCountDescending(RemoveAt(rows, j))
    ensures multiset(RemoveAt(rows, j)) == multiset(rows) - multiset{rows[j]}
  {
    assert rows == rows[..j] + [rows[j]] + rows[j + 1..];
    var r := RemoveAt(rows, j);
    forall p, q | 0 <= p < q < |r|
      ensures r[p].count >= r[q].count
    {
      assert r[p] == rows[if p < j then p else p + 1];
      assert r[q] == rows[if q < j then q else q + 1];
    }
  }

  /** Taking the same row out of two orders of the same rows. */
  lemma DropMatchingRows(a: seq<Row>, b: seq<Row>, j: nat)
    requires multiset(a) == multiset(b)
    requires SortedByCountDescending(a) && SortedByCountDescending(b)
    requires 0 < |a| && j < |b| && b[j] == a[0]
    ensures multiset(a[1..]) == multiset(RemoveAt(b, j))
    ensures SortedByCountDescending(a[1..]) && SortedByCountDescending(RemoveAt(b, j))
  {
    RemoveAtSortedPermutation(b, j);
    RemoveAtSortedPermutation(a, 0);
    assert RemoveAt(a, 0) == a[1..];
  }

  /**
   * Two descending orders of the same rows have the same count in every
   * position: only the order among equal counts is left open.
   */
  lemma {:induction false} SortedPermutationsAgree(a: seq<Row>, b: seq<Row>)
    requires multiset(a) == multiset(b)
    requires SortedByCountDescending(a) && SortedByCountDescending(b)
    ensures |a| == |b|
    ensures forall i :: 0 <= i < |a| ==> a[i].count == b[i].count
    decreases |a|
  {
    assert |a| == |multiset(a)| == |multiset(b)| == |b|;
    if a != [] {
      assert a[0] in multiset(b);
      var j :| 0 <= j < |b| && b[j] == a[0];
      assert b[0].count == a[0].count by {
        assert b[0] in multiset(a);
        var k :| 0 <= k < |a| && a[k] == b[0];
        assert a[0].count >= a[k].count;
        assert b[0].count >= b[j].count;
      }
      var rest := RemoveAt(b, j);
      DropMatchingRows(a, b, j);
      SortedPermutationsAgree(a[1..], rest);
      forall i | 0 < i < |a|
        ensures a[i].count == b[i].count
      {
        assert a[i] == a[1..][i - 1];
        if i - 1 < j {
          assert b[0].count >= b[i - 1].count >= b[i].count >= b[j].count;
        }
      }
    }
  }

  // ---------------------------------------------------------------------------
  // The entries of an inner map

  /**
   * `rows` lists the entries of `m`: each row is an entry, each value once,
   * and every entry is there.
   */
  predicate Enumerates(rows: seq<Row>, m: map<string, int>) {
    && (forall i :: 0 <= i < |rows| ==> rows[i].value in m && m[rows[i].value] == rows[i].count)
    && (forall i, j :: 0 <= i < j < |rows| ==> rows[i].value != rows[j].value)
    && (forall v :: v in m ==> Row(v, m[v]) in rows)
  }

  lemma {:induction false} DistinctMultiset(rows: seq<Row>, x: Row)
    requires forall i, j :: 0 <= i < j < |rows| ==> rows[i].value != rows[j].value
    ensures multiset(rows)[x] == if x in rows then 1 else 0
  {
    if rows != [] {
      var last := rows[|rows| - 1];
      var init := rows[..|rows| - 1];
      assert rows == init + [last];
      DistinctMultiset(init, x);
      if x == last {
        assert x !in init by {
          forall i | 0 <= i < |init|
            ensures init[i] != x
          {
            assert init[i].value == rows[i].value != rows[|rows| - 1].value;
          }
        }
      }
    }
  }

  /** Any two listings of the same map hold the same rows. */
  lemma EnumerationsArePermutations(r1: seq<Row>, r2: seq<Row>, m: map<string, int>)
    requires Enumerates(r1, m) && Enumerates(r2, m)
    ensures multiset(r1) == multiset(r2)
  {
    forall x
      ensures multiset(r1)[x] == multiset(r2)[x]
    {
      DistinctMultiset(r1, x);
      DistinctMultiset(r2, x);
      assert x in r1 <==> x.value in m && m[x.value] == x.count;
      assert x in r2 <==> x.value in m && m[x.value] == x.count;
    }
  }

  /**
   * `value.entrySet().stream()`: the entries of the map in its own iteration
   * order, which the source leaves unspecified.
   */
  method EntryList(m: map<string, int>) returns (rows: seq<Row>)
    ensures Enumerates(rows, m)
    ensures |rows| == |m|
  {
    rows := [];
    var remaining := m.Keys;
    while remaining != {}
      invariant remaining <= m.Keys
      invariant |rows| + |remaining| == |m|
      invariant forall i :: 0 <= i < |rows| ==> rows[i].value in m - remaining && m[rows[i].value] == rows[i].count
      invariant forall i, j :: 0 <= i < j < |rows| ==> rows[i].value != rows[j].value
      invariant forall v :: v in m && v !in remaining ==> Row(v, m[v]) in rows
      decreases remaining
    {
      var v :| v in remaining;
      rows := rows + [Row(v, m[v])];
      remaining := remaining - {v};
    }
  }

  // ---------------------------------------------------------------------------
  // The document

  const StatisticsOpen := "<statistics>\n"
  const StatisticsClose := "</statistics>"

  /** `XMLWriter`'s text block puts three spaces before `<value>` and `<count>`. */
  const WriterIndent := "   "

  /** The text before a value, the text between value and count, and the text after the count. */
  function ItemHead(indent: string): string { "  <item>\n" + indent + "<value>" }
  function ItemMiddle(indent: string): string { "</value>\n" + indent + "<count>" }
  const ItemTail := "</count>\n  </item>\n"

  /** One `<item>` block: the raw value (no escaping) and the decimal count. */
  function Item(indent: string, row: Row): string {
    ItemHead(indent) + row.value + ItemMiddle(indent) + JavaStrings.IntToString(row.count) + ItemTail
  }

  function Items(indent: string, rows: seq<Row>): string {
    if rows == [] then [] else Item(indent, rows[0]) + Items(indent, rows[1..])
  }

  /** The whole file: no newline after the closing tag. */
  function Document(indent: string, rows: seq<Row>): string {
    StatisticsOpen + Items(indent, rows) + StatisticsClose
  }

  lemma {:induction false} ItemsAppend(indent: string, rows: seq<Row>, row: Row)
    ensures Items(indent, rows + [row]) == Items(indent, rows) + Item(indent, row)
  {
    if rows == [] {
      assert [row][1..] == [];
    } else {
      assert (rows + [row])[1..] == rows[1..] + [row];
      ItemsAppend(indent, rows[1..], row);
    }
  }

  /** The items of one more row of a list, by position. */
  lemma ItemsPrefix(indent: string, rows: seq<Row>, i: nat)
    requires i < |rows|
    ensures Items(indent, rows[..i + 1]) == Items(indent, rows[..i]) + Item(indent, rows[i])
  {
    assert rows[..i + 1] == rows[..i] + [rows[i]];
    ItemsAppend(indent, rows[..i], rows[i]);
  }

  /** An attribute without rows renders as the two tags alone. */
  lemma EmptyDocument(indent: string)
    ensures Document(indent, []) == "<statistics>\n</statistics>"
  {
  }

  lemma ItemsPair(indent: string, r1: Row, r2: Row)
    ensures Items(indent, [r1, r2]) == Item(indent, r1) + Item(indent, r2)
  {
    assert [r1, r2][1..] == [r2];
    assert [r2][1..] == [];
    assert Items(indent, [r2]) == Item(indent, r2) + Items(indent, []);
    assert Item(indent, r2) + [] == Item(indent, r2);
  }

  /** The exact text `XMLWriter` writes for two entries. */
  lemma WriterDocumentExample()
    ensures Document(WriterIndent, [Row("value1", 10), Row("value2", 5)]) ==
      "<statistics>\n" +
      ("  <item>\n   <value>" + "value1" + "</value>\n   <count>" + "10" + "</count>\n  </item>\n") +
      ("  <item>\n   <value>" + "value2" + "</value>\n   <count>" + "5" + "</count>\n  </item>\n") +
      "</statistics>"
  {
    assert JavaStrings.IntToString(10) == "10";
    assert JavaStrings.IntToString(5) == "5";
    WriterItem("value1", 10, "10");
    WriterItem("value2", 5, "5");
    ItemsPair(WriterIndent, Row("value1", 10), Row("value2", 5));
  }

  /** One `XMLWriter` text block, written out. */
  lemma WriterItem(value: string, count: int, digits: string)
    requires JavaStrings.IntToString(count) == digits
    ensures Item(WriterIndent, Row(value, count)) ==
      "  <item>\n   <value>" + value + "</value>\n   <count>" + digits + "</count>\n  </item>\n"
  {
    assert ItemHead(WriterIndent) == "  <item>\n   <value>";
    assert ItemMiddle(WriterIndent) == "</value>\n   <count>";
  }

  // Reading a document back

  /** The rest of `s` after `prefix`, if `s` starts with it. */
  function Expect(prefix: string, s: string): (r: Option<string>)
    ensures r.Some? ==> |r.value| == |s| - |prefix|
  {
    if |prefix| <= |s| && s[..|prefix|] == prefix then Some(s[|prefix|..]) else None
  }

  lemma ExpectAppend(prefix: string, s: string)
    ensures Expect(prefix, prefix + s) == Some(s)
  {
    assert (prefix + s)[..|prefix|] == prefix;
    assert (prefix + s)[|prefix|..] == s;
  }

  /** The longest prefix of `s` without `<`, and what follows it. */
  function Field(s: string): (r: (string, string))
    ensures |r.0| + |r.1| == |s|
  {
    if s == [] || s[0] == '<' then ([], s)
    else
      var r := Field(s[1..]);
      ([s[0]] + r.0, r.1)
  }

  /** The field and what follows it make up `s`; the field holds no `<`, and what follows starts with one. */
  lemma {:induction false} FieldSplits(s: string)
    ensures Field(s).0 + Field(s).1 == s && '<' !in Field(s).0
    ensures Field(s).1 != [] ==> Field(s).1[0] == '<'
  {
    if s != [] && s[0] != '<' {
      FieldSplits(s[1..]);
      assert s == [s[0]] + s[1..];
    }
  }

  lemma {:induction false} FieldAppend(x: string, y: string)
    requires '<' !in x && y != [] && y[0] == '<'
    ensures Field(x + y) == (x, y)
  {
    if x != [] {
      assert (x + y)[0] == x[0] != '<';
      assert (x + y)[1..] == x[1..] + y;
      assert '<' !in x[1..];
      FieldAppend(x[1..], y);
      assert [x[0]] + x[1..] == x;
    } else {
      assert x + y == y;
    }
  }

  /** Reads one `<item>` block off the front of `s`. */
  function ParseItem(indent: string, s: string): (r: Option<(Row, string)>)
    ensures r.Some? ==> |r.value.1| < |s|
  {
    match Expect(ItemHead(indent), s)
    case None => None
    case Some(s1) =>
      var (value, s2) := Field(s1);
      match Expect(ItemMiddle(indent), s2)
      case None => None
      case Some(s3) =>
        var (digits, s4) := Field(s3);
        match Expect(ItemTail, s4)
        case None => None
        case Some(s5) =>
          match JavaStrings.ParseInt(digits)
          case None => None
          case Some(n) => Some((Row(value, n), s5))
  }

  function ParseItems(indent: string, s: string): Option<seq<Row>>
    decreases |s|
  {
    if s == StatisticsClose then Some([])
    else
      match ParseItem(indent, s)
      case None => None
      case Some(p) =>
        match ParseItems(indent, p.1)
        case None => None
        case Some(rows) => Some([p.0] + rows)
  }

  /** Reads a whole document back into its rows. */
  function ParseDocument(indent: string, text: string): Option<seq<Row>> {
    match Expect(StatisticsOpen, text)
    case None => None
    case Some(rest) => ParseItems(indent, rest)
  }

  lemma ParseItemRoundTrip(indent: string, row: Row, rest: string)
    requires '<' !in row.value
    ensures ParseItem(indent, Item(indent, row) + rest) == Some((row, rest))
  {
    var digits := JavaStrings.IntToString(row.count);
    var s4 := ItemTail + rest;
    var s3 := digits + s4;
    var s2 := ItemMiddle(indent) + s3;
    var s1 := row.value + s2;
    assert Item(indent, row) + rest == ItemHead(indent) + s1;
    ExpectAppend(ItemHead(indent), s1);
    FieldAppend(row.value, s2);
    ExpectAppend(ItemMiddle(indent), s3);
    FieldAppend(digits, s4);
    ExpectAppend(ItemTail, rest);
    JavaStrings.IntToStringParse(row.count);
  }

  lemma {:induction false} ParseItemsRoundTrip(indent: string, rows: seq<Row>)
    requires forall i :: 0 <= i < |rows| ==> '<' !in rows[i].value
    ensures ParseItems(indent, Items(indent, rows) + StatisticsClose) == Some(rows)
  {
    if rows == [] {
      assert Items(indent, rows) + StatisticsClose == StatisticsClose;
    } else {
      ItemsCloseCons(indent, rows);
      assert forall i :: 0 <= i < |rows[1..]| ==> rows[1..][i] == rows[i + 1];
      ParseItemsRoundTrip(indent, rows[1..]);
      ParseItemsStep(indent, rows[0], Items(indent, rows[1..]) + StatisticsClose, rows[1..]);
      assert rows == [rows[0]] + rows[1..];
    }
  }

  /** A non-empty list of items, closed: the first item, then the rest closed; it is not the closing tag alone. */
  lemma ItemsCloseCons(indent: string, rows: seq<Row>)
    requires rows != []
    ensures Items(indent, rows) + StatisticsClose == Item(indent, rows[0]) + (Items(indent, rows[1..]) + StatisticsClose)
    ensures Items(indent, rows) + StatisticsClose != StatisticsClose
  {
    var s := Items(indent, rows) + StatisticsClose;
    assert s[0] == ' ';
  }

  /** One written item in front of what reads as `rows` reads as that row, then `rows`. */
  lemma ParseItemsStep(indent: string, row: Row, rest: string, rows: seq<Row>)
    requires '<' !in row.value
    requires ParseItems(indent, rest) == Some(rows)
    ensures ParseItems(indent, Item(indent, row) + rest) == Some([row] + rows)
  {
    var s := Item(indent, row) + rest;
    assert s[0] == ' ';
    ParseItemRoundTrip(indent, row, rest);
  }

  /**
   * As long as no value contains `<`, the document determines its rows: the
   * renderer loses nothing.
   */
  lemma DocumentRoundTrip(indent: string, rows: seq<Row>)
    requires forall i :: 0 <= i < |rows| ==> '<' !in rows[i].value
    ensures ParseDocument(indent, Document(indent, rows)) == Some(rows)
  {
    assert Document(indent, rows) == StatisticsOpen + (Items(indent, rows) + StatisticsClose);
    ExpectAppend(StatisticsOpen, Items(indent, rows) + StatisticsClose);
    ParseItemsRoundTrip(indent, rows);
  }

  /**
   * Values are written without escaping, so a value holding the markup that
   * separates two items reads as two rows: different rows, same document.
   */
  lemma UnescapedValueAmbiguity(indent: string)
    ensures
      var forged := [Row("a" + ItemMiddle(indent) + "1" + ItemTail + ItemHead(indent) + "b", 2)];
      var honest := [Row("a", 1), Row("b", 2)];
      forged != honest && Document(indent, forged) == Document(indent, honest)
  {
    var value := "a" + ItemMiddle(indent) + "1" + ItemTail + ItemHead(indent) + "b";
    assert JavaStrings.IntToString(1) == "1";
    assert JavaStrings.IntToString(2) == "2";
    ItemsSingle(indent, Row(value, 2));
    ItemsPair(indent, Row("a", 1), Row("b", 2));
    ForgedItemSplits(ItemHead(indent), ItemMiddle(indent), ItemTail, "a", "1", "b", "2");
    assert [Row(value, 2)] != [Row("a", 1), Row("b", 2)];
  }

  lemma ItemsSingle(indent: string, row: Row)
    ensures Items(indent, [row]) == Item(indent, row)
  {
    assert [row][1..] == [];
    assert Item(indent, row) + [] == Item(indent, row);
  }

  /** A value that embeds the text between two items splits into those two items. */
  lemma ForgedItemSplits(head: string, middle: string, tail: string, a: string, one: string, b: string, two: string)
    ensures head + (a + middle + one + tail + head + b) + middle + two + tail ==
      (head + a + middle + one + tail) + (head + b + middle + two + tail)
  {
  }

  // ---------------------------------------------------------------------------
  // Writing the reports

  /** What the report file for an attribute with inner map `value` holds, in a given indentation. */
  predicate IsReportOf(r: Report, value: map<string, int>, indent: string) {
    && r.fileName == ReportFileName(r.key)
    && Enumerates(r.rows, value)
    && SortedByCountDescending(r.rows)
    && r.text == Document(indent, r.rows)
  }

  /** The attributes a list of reports is for. */
  function ReportKeys(reports: seq<Report>): (r: set<string>)
    ensures forall i :: 0 <= i < |reports| ==> reports[i].key in r
  {
    if reports == [] then {} else ReportKeys(reports[..|reports| - 1]) + {reports[|reports| - 1].key}
  }

  /** One report per attribute of `keys`, each for a different attribute of the map. */
  predicate ReportsFor(reports: seq<Report>, counts: Counts, keys: set<string>, indent: string) {
    && ReportKeys(reports) == keys
    && (forall i, j :: 0 <= i < j < |reports| ==> reports[i].key != reports[j].key)
    && (forall i :: 0 <= i < |reports| ==> reports[i].key in counts && IsReportOf(reports[i], counts[reports[i].key], indent))
  }

  /** One report per attribute of the map, each for a different attribute. */
  predicate ReportsCover(reports: seq<Report>, counts: Counts, indent: string) {
    ReportsFor(reports, counts, counts.Keys, indent)
  }

  /** A report for one more attribute extends the reports already written. */
  lemma ReportsForSnoc(reports: seq<Report>, report: Report, counts: Counts, keys: set<string>, indent: string)
    requires ReportsFor(reports, counts, keys, indent)
    requires report.key in counts && report.key !in keys
    requires IsReportOf(report, counts[report.key], indent)
    ensures ReportsFor(reports + [report], counts, keys + {report.key}, indent)
  {
    var all := reports + [report];
    assert all[..|reports|] == reports;
    forall i | 0 <= i < |reports|
      ensures all[i] == reports[i]
    {
    }
  }

  lemma AppendAssociative(a: string, b: string, c: string)
    ensures (a + b) + c == a + (b + c)
  {
  }

  /**
   * `writeStatisticsToXMLFile`: the opening tag, one text block per row in
   * the given order, the closing tag.
   */
  method WriteStatisticsToXmlFile(sortedData: seq<Row>) returns (text: string)
    ensures text == Document(WriterIndent, sortedData)
  {
    text := StatisticsOpen;
    assert Items(WriterIndent, sortedData[..0]) == [];
    assert text == StatisticsOpen + [];
    for i := 0 to |sortedData|
      invariant text == StatisticsOpen + Items(WriterIndent, sortedData[..i])
    {
      var entry := sortedData[i];
      var itemXml := Item(WriterIndent, entry);
      AppendAssociative(StatisticsOpen, Items(WriterIndent, sortedData[..i]), itemXml);
      ItemsPrefix(WriterIndent, sortedData, i);
      text := text + itemXml;
    }
    assert sortedData[..|sortedData|] == sortedData;
    text := text + StatisticsClose;
  }

  /**
   * `generateStatisticsFile`: for every attribute of the map, in the map's own
   * order, the file name, the entries sorted by descending count, and the
   * document. The count map is only read: no `modifies` clause.
   */
  method GenerateStatisticsFile(attributeValueCounts: Counter) returns (reports: seq<Report>)
    ensures ReportsCover(reports, attributeValueCounts.counts, WriterIndent)
  {
    var counts := attributeValueCounts.counts;
    reports := [];
    var remaining := counts.Keys;
    while remaining != {}
      invariant remaining <= counts.Keys
      invariant ReportsFor(reports, counts, counts.Keys - remaining, WriterIndent)
      decreases remaining
    {
      var key :| key in remaining;
      var report := StatisticsFile(key, counts[key]);
      ReportsForSnoc(reports, report, counts, counts.Keys - remaining, WriterIndent);
      assert counts.Keys - remaining + {key} == counts.Keys - (remaining - {key});
      reports := reports + [report];
      remaining := remaining - {key};
    }
    assert counts.Keys - remaining == counts.Keys;
  }

  /**
   * The body of the `forEach` in `generateStatisticsFile`: the file name, the
   * sorted entries, the text.
   */
  method StatisticsFile(key: string, value: map<string, int>) returns (report: Report)
    ensures report.key == key
    ensures IsReportOf(report, value, WriterIndent)
  {
    var fileName := ReportFileName(key);
    var entries := EntryList(value);
    var sortedData := SortByCountDescending(entries);
    EnumeratesSorted(entries, sortedData, value);
    var text := WriteStatisticsToXmlFile(sortedData);
    report := Report(key, fileName, sortedData, text);
  }

  /** Sorting a listing of a map keeps it a listing of that map. */
  lemma EnumeratesSorted(entries: seq<Row>, sorted: seq<Row>, m: map<string, int>)
    requires Enumerates(entries, m)
    requires multiset(sorted) == multiset(entries)
    ensures Enumerates(sorted, m)
  {
    forall x
      ensures x in sorted <==> x in entries
    {
      assert x in sorted <==> x in multiset(sorted);
      assert x in entries <==> x in multiset(entries);
    }
    forall i | 0 <= i < |sorted|
      ensures sorted[i].value in m && m[sorted[i].value] == sorted[i].count
    {
      assert sorted[i] in entries;
      var k :| 0 <= k < |entries| && entries[k] == sorted[i];
    }
    forall i, j | 0 <= i < j < |sorted|
      ensures sorted[i].value != sorted[j].value
    {
      assert sorted[i] in entries && sorted[j] in entries;
      RepeatedRow(sorted, i, j);
      DistinctMultiset(entries, sorted[i]);
    }
  }

  /** A row found at two positions is counted twice. */
  lemma RepeatedRow(rows: seq<Row>, i: nat, j: nat)
    requires i < j < |rows|
    ensures rows[i] == rows[j] ==> multiset(rows)[rows[i]] >= 2
  {
    assert rows == rows[..i] + [rows[i]] + rows[i + 1..j] + [rows[j]] + rows[j + 1..];
  }

  /** Reports for distinct attributes: as many attributes as reports. */
  lemma {:induction false} DistinctReportKeys(reports: seq<Report>)
    requires forall i, j :: 0 <= i < j < |reports| ==> reports[i].key != reports[j].key
    ensures |ReportKeys(reports)| == |reports|
  {
    if reports != [] {
      var init := reports[..|reports| - 1];
      DistinctReportKeys(init);
      assert reports[|reports| - 1].key !in ReportKeys(init) by {
        forall i | 0 <= i < |init|
          ensures init[i].key != reports[|reports| - 1].key
        {
          assert init[i] == reports[i];
        }
        ReportKeysMembers(init, reports[|reports| - 1].key);
      }
    }
  }

  lemma {:induction false} ReportKeysMembers(reports: seq<Report>, k: string)
    requires forall i :: 0 <= i < |reports| ==> reports[i].key != k
    ensures k !in ReportKeys(reports)
  {
    if reports != [] {
      ReportKeysMembers(reports[..|reports| - 1], k);
    }
  }

  /** Exactly one report file per attribute of the count map. */
  lemma OneReportPerAttribute(reports: seq<Report>, counts: Counts, indent: string)
    requires ReportsCover(reports, counts, indent)
    ensures |reports| == |counts|
  {
    DistinctReportKeys(reports);
    assert |counts| == |counts.Keys|;
  }

  /** An empty map gives no report at all. */
  lemma NoCountsNoReports(reports: seq<Report>, indent: string)
    requires ReportsCover(reports, map[], indent)
    ensures reports == []
  {
  }

  /** A map built by recording has at least one row in every report. */
  lemma ReportsAreNotEmpty(reports: seq<Report>, counts: Counts, indent: string)
    requires Valid(counts)
    requires ReportsCover(reports, counts, indent)
    ensures forall i :: 0 <= i < |reports| ==> |reports[i].rows| >= 1 && reports[i].rows[0].count >= 1
  {
    forall i | 0 <= i < |reports|
      ensures |reports[i].rows| >= 1 && reports[i].rows[0].count >= 1
    {
      var r := reports[i];
      var v :| v in counts[r.key];
      assert Row(v, counts[r.key][v]) in r.rows;
    }
  }
}
