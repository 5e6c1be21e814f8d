/**
 * The book file of `JsonProcessorTest`: three books, tracked attributes
 * `genre` and `author`, genres written as comma-separated lists. What the
 * walk records from it and the counts that result.
 */
module ProcessorExamples {

  import opened Wrappers
  import opened Json
  import opened Extraction
  import opened Counting

  const TestAttributes: seq<string> := ["genre", "author"]

  /** One serialized `Book`: the year is a JSON number. */
  function Book(title: string, author: string, year: string, genre: string): Json {
    JObject([
      Member("title", JString(title)),
      Member("author", JString(author)),
      Member("yearPublished", JNumber(year)),
      Member("genre", JString(genre))
    ])
  }

  /** The three test books; each genre list is written as its two items joined by ", ". */
  function TestBooks(): Json {
    JArray([
      Book("1984", "George Orwell", "1949", "Dystopian" + ", " + "Political Fiction"),
      Book("Pride and Prejudice", "Jane Austen", "1813", "Romance" + ", " + "Satire"),
      Book("Romeo and Juliet", "William Shakespeare", "1597", "Romance" + ", " + "Tragedy")
    ])
  }

  /** What the nested rule records for the whole test file, in order. */
  function TestBooksRecords(): seq<Occurrence> {
    [
      Occurrence("author", "George Orwell"), Occurrence("genre", "Dystopian"), Occurrence("genre", "Political Fiction"),
      Occurrence("author", "Jane Austen"), Occurrence("genre", "Romance"), Occurrence("genre", "Satire"),
      Occurrence("author", "William Shakespeare"), Occurrence("genre", "Romance"), Occurrence("genre", "Tragedy")
    ]
  }

  lemma ObjectRecordsSingle(attrs: seq<string>, m: Member)
    ensures ObjectRecords(attrs, [m]) == MemberRecords(attrs, m)
  {
    assert [m][..0] == [];
    assert ObjectRecords(attrs, [m]) == [] + MemberRecords(attrs, m);
  }

  lemma FourMembers(attrs: seq<string>, m0: Member, m1: Member, m2: Member, m3: Member)
    ensures ObjectRecords(attrs, [m0, m1, m2, m3]) ==
      MemberRecords(attrs, m0) + MemberRecords(attrs, m1) + MemberRecords(attrs, m2) + MemberRecords(attrs, m3)
  {
    assert [m0, m1, m2, m3] == [m0] + [m1] + [m2] + [m3];
    ObjectRecordsAppend(attrs, [m0] + [m1] + [m2], [m3]);
    ObjectRecordsAppend(attrs, [m0] + [m1], [m2]);
    ObjectRecordsAppend(attrs, [m0], [m1]);
    ObjectRecordsSingle(attrs, m0);
    ObjectRecordsSingle(attrs, m1);
    ObjectRecordsSingle(attrs, m2);
    ObjectRecordsSingle(attrs, m3);
  }

  /**
   * A book records its author, then each genre of its list; the title and
   * the year are not tracked.
   */
  lemma BookRecords(attrs: seq<string>, title: string, author: string, year: string, g1: string, g2: string)
    requires "author" in attrs && "genre" in attrs && "title" !in attrs && "yearPublished" !in attrs
    requires PlainPiece(author) && PlainPiece(g1) && PlainPiece(g2)
    ensures ObjectRecords(attrs, Book(title, author, year, g1 + ", " + g2).members) ==
      [Occurrence("author", author), Occurrence("genre", g1), Occurrence("genre", g2)]
  {
    var m0, m1 := Member("title", JString(title)), Member("author", JString(author));
    var m2, m3 := Member("yearPublished", JNumber(year)), Member("genre", JString(g1 + ", " + g2));
    FourMembers(attrs, m0, m1, m2, m3);
    assert MemberRecords(attrs, m0) == [];
    PlainValueRecords(attrs, "author", author);
    assert MemberRecords(attrs, m2) == [];
    ListValueRecords(attrs, "genre", g1, g2);
  }

  lemma OneObjectRecords(attrs: seq<string>, o0: seq<Member>)
    ensures ObjectsRecords(attrs, [JObject(o0)]) == ObjectRecords(attrs, o0)
  {
    assert [JObject(o0)] == [] + [JObject(o0)];
    ObjectsRecordsSnoc(attrs, [], o0);
  }

  lemma TwoObjectsRecords(attrs: seq<string>, o0: seq<Member>, o1: seq<Member>)
    ensures ObjectsRecords(attrs, [JObject(o0), JObject(o1)]) == ObjectRecords(attrs, o0) + ObjectRecords(attrs, o1)
  {
    assert [JObject(o0), JObject(o1)] == [JObject(o0)] + [JObject(o1)];
    ObjectsRecordsSnoc(attrs, [JObject(o0)], o1);
    OneObjectRecords(attrs, o0);
  }

  lemma ThreeObjectsRecords(attrs: seq<string>, o0: seq<Member>, o1: seq<Member>, o2: seq<Member>)
    ensures ObjectsRecords(attrs, [JObject(o0), JObject(o1), JObject(o2)]) ==
      ObjectRecords(attrs, o0) + ObjectRecords(attrs, o1) + ObjectRecords(attrs, o2)
  {
    assert [JObject(o0), JObject(o1), JObject(o2)] == [JObject(o0), JObject(o1)] + [JObject(o2)];
    ObjectsRecordsSnoc(attrs, [JObject(o0), JObject(o1)], o2);
    TwoObjectsRecords(attrs, o0, o1);
  }

  /** A root array of three objects records what each object records, in order. */
  lemma ThreeObjects(attrs: seq<string>, b0: Json, b1: Json, b2: Json, r0: seq<Occurrence>, r1: seq<Occurrence>, r2: seq<Occurrence>)
    requires b0.JObject? && b1.JObject? && b2.JObject?
    requires ObjectRecords(attrs, b0.members) == r0
    requires ObjectRecords(attrs, b1.members) == r1
    requires ObjectRecords(attrs, b2.members) == r2
    ensures RootRecords(attrs, JArray([b0, b1, b2])) == FileResult(r0 + r1 + r2, None)
  {
    RootAllObjects(attrs, [b0, b1, b2]);
    ThreeObjectsRecords(attrs, b0.members, b1.members, b2.members);
  }

  const FirstBookRecords: seq<Occurrence> :=
    [Occurrence("author", "George Orwell"), Occurrence("genre", "Dystopian"), Occurrence("genre", "Political Fiction")]
  const SecondBookRecords: seq<Occurrence> :=
    [Occurrence("author", "Jane Austen"), Occurrence("genre", "Romance"), Occurrence("genre", "Satire")]
  const ThirdBookRecords: seq<Occurrence> :=
    [Occurrence("author", "William Shakespeare"), Occurrence("genre", "Romance"), Occurrence("genre", "Tragedy")]

  /** Every author and genre of the test file is a plain piece. */
  lemma TestPiecesPlain()
    ensures PlainPiece("George Orwell") && PlainPiece("Jane Austen") && PlainPiece("William Shakespeare")
    ensures PlainPiece("Dystopian") && PlainPiece("Political Fiction") && PlainPiece("Romance")
    ensures PlainPiece("Satire") && PlainPiece("Tragedy")
  {
  }

  lemma FirstBook()
    ensures ObjectRecords(TestAttributes, TestBooks().elems[0].members) == FirstBookRecords
  {
    TestPiecesPlain();
    assert TestBooks().elems[0] == Book("1984", "George Orwell", "1949", "Dystopian" + ", " + "Political Fiction");
    BookRecords(TestAttributes, "1984", "George Orwell", "1949", "Dystopian", "Political Fiction");
  }

  lemma SecondBook()
    ensures ObjectRecords(TestAttributes, TestBooks().elems[1].members) == SecondBookRecords
  {
    TestPiecesPlain();
    assert TestBooks().elems[1] == Book("Pride and Prejudice", "Jane Austen", "1813", "Romance" + ", " + "Satire");
    BookRecords(TestAttributes, "Pride and Prejudice", "Jane Austen", "1813", "Romance", "Satire");
  }

  lemma ThirdBook()
    ensures ObjectRecords(TestAttributes, TestBooks().elems[2].members) == ThirdBookRecords
  {
    TestPiecesPlain();
    assert TestBooks().elems[2] == Book("Romeo and Juliet", "William Shakespeare", "1597", "Romance" + ", " + "Tragedy");
    BookRecords(TestAttributes, "Romeo and Juliet", "William Shakespeare", "1597", "Romance", "Tragedy");
  }

  lemma BookRecordsJoin()
    ensures FirstBookRecords + SecondBookRecords + ThirdBookRecords == TestBooksRecords()
  {
  }

  /** The whole test file is walked without error and records nine occurrences. */
  lemma TestBooksWalk()
    ensures RootRecords(TestAttributes, TestBooks()) == FileResult(TestBooksRecords(), None)
  {
    var books := TestBooks().elems;
    FirstBook();
    SecondBook();
    ThirdBook();
    ThreeObjects(TestAttributes, books[0], books[1], books[2], FirstBookRecords, SecondBookRecords, ThirdBookRecords);
    BookRecordsJoin();
    assert |books| == 3;
    assert books == [books[0], books[1], books[2]];
  }

  /** Every occurrence of the test file is an author or a genre. */
  lemma TestBooksRecordKeys()
    ensures forall o :: o in TestBooksRecords() ==> o.key == "genre" || o.key == "author"
  {
  }

  /** Records under two attribute names, both present, leave exactly those two keys. */
  lemma FoldTwoKeys(recs: seq<Occurrence>, k1: string, k2: string, i: nat, j: nat)
    requires forall o :: o in recs ==> o.key == k1 || o.key == k2
    requires i < |recs| && j < |recs| && recs[i].key == k1 && recs[j].key == k2
    ensures Fold(map[], recs).Keys == {k1, k2}
  {
    var keys := KeysOf(recs);
    KeysOfMembers(recs);
    forall k | k in keys
      ensures k == k1 || k == k2
    {
      var n :| 0 <= n < |recs| && recs[n].key == k;
      assert recs[n] in recs;
    }
    assert k1 in keys && k2 in keys;
    assert keys == {k1, k2};
    FoldKeys(map[], recs);
    var empty: Counts := map[];
    assert empty.Keys + keys == keys;
  }

  /** Only the two tracked attributes get an inner map. */
  lemma TestBooksKeys()
    ensures Fold(map[], TestBooksRecords()).Keys == {"genre", "author"}
  {
    TestBooksRecordKeys();
    FoldTwoKeys(TestBooksRecords(), "genre", "author", 1, 0);
  }

  /** "Romance" is the genre of two books and is counted twice. */
  lemma TestBooksRomance()
    ensures Count(Fold(map[], TestBooksRecords()), "genre", "Romance") == 2
  {
    var recs := TestBooksRecords();
    FoldCount(map[], recs, "genre", "Romance");
    assert multiset(recs)[Occurrence("genre", "Romance")] == 2;
  }

  /** "Tragedy" is counted once. */
  lemma TestBooksTragedy()
    ensures Count(Fold(map[], TestBooksRecords()), "genre", "Tragedy") == 1
  {
    var recs := TestBooksRecords();
    FoldCount(map[], recs, "genre", "Tragedy");
    assert multiset(recs)[Occurrence("genre", "Tragedy")] == 1;
  }

  /** An untracked attribute is never counted. */
  lemma TestBooksTitle()
    ensures Count(Fold(map[], TestBooksRecords()), "title", "1984") == 0
  {
    TestBooksKeys();
  }
}
