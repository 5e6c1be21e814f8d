/**
 * The two-level count map (attribute name -> value -> count) that every
 * extraction task adds to, the one update it supports, and what a sequence of
 * updates leaves in it.
 */
module Counting {

  import opened Json

  type Counts = map<string, map<string, int>>

  /** The count held for (key, value); a missing entry counts 0. */
  function Count(c: Counts, key: string, value: string): int {
    if key in c && value in c[key] then c[key][value] else 0
  }

  /** The values present under `key`; none when the key is absent. */
  function ValuesOf(c: Counts, key: string): set<string> {
    if key in c then c[key].Keys else {}
  }

  /**
   * What recording from an empty map produces: no inner map is empty and
   * every count is at least 1.
   */
  predicate Valid(c: Counts) {
    forall k :: k in c ==> c[k] != map[] && forall v :: v in c[k] ==> c[k][v] >= 1
  }

  /** `computeIfAbsent(key, new map).merge(value, 1, Integer::sum)`. */
  function Increment(c: Counts, key: string, value: string): Counts {
    var inner := if key in c then c[key] else map[];
    c[key := inner[value := (if value in inner then inner[value] else 0) + 1]]
  }

  /**
   * Exactly the count of (key, value) goes up by one, creating the inner map
   * and the entry on first use; nothing else changes, and a well-formed map
   * stays well-formed.
   */
  lemma IncrementEffect(c: Counts, key: string, value: string)
    ensures var r := Increment(c, key, value);
      && r.Keys == c.Keys + {key}
      && ValuesOf(r, key) == ValuesOf(c, key) + {value}
      && (forall k :: k in c && k != key ==> r[k] == c[k])
      && (forall k, v :: Count(r, k, v) == Count(c, k, v) + (if k == key && v == value then 1 else 0))
      && (Valid(c) ==> Valid(r))
  {
  }

  /** The map after recording every occurrence of `recs`, in order. */
  function Fold(c: Counts, recs: seq<Occurrence>): Counts {
    if recs == [] then c
    else
      var last := recs[|recs| - 1];
      Increment(Fold(c, recs[..|recs| - 1]), last.key, last.value)
  }

  lemma FoldSnoc(c: Counts, recs: seq<Occurrence>, o: Occurrence)
    ensures Fold(c, recs + [o]) == Increment(Fold(c, recs), o.key, o.value)
  {
    assert (recs + [o])[..|recs|] == recs;
  }

  lemma FoldAppend(c: Counts, r1: seq<Occurrence>, r2: seq<Occurrence>)
    ensures Fold(c, r1 + r2) == Fold(Fold(c, r1), r2)
    decreases |r2|
  {
    if r2 == [] {
      assert r1 + r2 == r1;
    } else {
      assert (r1 + r2)[..|r1 + r2| - 1] == r1 + r2[..|r2| - 1];
      FoldAppend(c, r1, r2[..|r2| - 1]);
    }
  }

  /**
   * The count of (key, value) after a run of records is the count before it
   * plus the number of times the pair was recorded.
   */
  lemma {:induction false} FoldCount(c: Counts, recs: seq<Occurrence>, key: string, value: string)
    ensures Count(Fold(c, recs), key, value) == Count(c, key, value) + multiset(recs)[Occurrence(key, value)]
  {
    if recs != [] {
      var init := recs[..|recs| - 1];
      FoldCount(c, init, key, value);
      IncrementEffect(Fold(c, init), recs[|recs| - 1].key, recs[|recs| - 1].value);
      assert recs == init + [recs[|recs| - 1]];
    }
  }

  /** The attribute names a run of records mentions. */
  function KeysOf(recs: seq<Occurrence>): set<string> {
    if recs == [] then {} else KeysOf(recs[..|recs| - 1]) + {recs[|recs| - 1].key}
  }

  /** Exactly the keys of the records. */
  lemma {:induction false} KeysOfMembers(recs: seq<Occurrence>)
    ensures forall i :: 0 <= i < |recs| ==> recs[i].key in KeysOf(recs)
    ensures forall k :: k in KeysOf(recs) ==> exists i :: 0 <= i < |recs| && recs[i].key == k
  {
    if recs != [] {
      var init := recs[..|recs| - 1];
      KeysOfMembers(init);
      forall i | 0 <= i < |init|
        ensures recs[i].key in KeysOf(recs)
      {
        assert recs[i] == init[i];
      }
      forall k | k in KeysOf(recs)
        ensures exists i :: 0 <= i < |recs| && recs[i].key == k
      {
        if k in KeysOf(init) {
          var i :| 0 <= i < |init| && init[i].key == k;
          assert recs[i] == init[i];
        } else {
          assert recs[|recs| - 1].key == k;
        }
      }
    }
  }

  /**
   * The keys after a run of records: the old ones and every key recorded, so
   * an attribute that never matched gets no inner map.
   */
  lemma {:induction false} FoldKeys(c: Counts, recs: seq<Occurrence>)
    ensures Fold(c, recs).Keys == c.Keys + KeysOf(recs)
  {
    if recs != [] {
      FoldKeys(c, recs[..|recs| - 1]);
      IncrementEffect(Fold(c, recs[..|recs| - 1]), recs[|recs| - 1].key, recs[|recs| - 1].value);
    }
  }

  /** Recording from a well-formed map keeps it well-formed. */
  lemma {:induction false} FoldValid(c: Counts, recs: seq<Occurrence>)
    requires Valid(c)
    ensures Valid(Fold(c, recs))
  {
    if recs != [] {
      FoldValid(c, recs[..|recs| - 1]);
      IncrementEffect(Fold(c, recs[..|recs| - 1]), recs[|recs| - 1].key, recs[|recs| - 1].value);
    }
  }

  /** A well-formed map is determined by its counts. */
  lemma SameCountsSameMap(m1: Counts, m2: Counts)
    requires Valid(m1) && Valid(m2)
    requires forall k, v :: Count(m1, k, v) == Count(m2, k, v)
    ensures m1 == m2
  {
    forall k | k in m1
      ensures k in m2
    {
      var v :| v in m1[k];
      assert Count(m1, k, v) >= 1;
    }
    forall k | k in m2
      ensures k in m1
    {
      var v :| v in m2[k];
      assert Count(m2, k, v) >= 1;
    }
    forall k | k in m1
      ensures m1[k] == m2[k]
    {
      forall v
        ensures v in m1[k] <==> v in m2[k]
      {
        assert Count(m1, k, v) == Count(m2, k, v);
      }
      forall v | v in m1[k]
        ensures m1[k][v] == m2[k][v]
      {
        assert Count(m1, k, v) == Count(m2, k, v);
      }
    }
  }

  /**
   * The final map does not depend on the order of the records, only on how
   * often each pair occurs: increments commute because `merge` sums.
   */
  lemma FoldOrderIndependent(c: Counts, r1: seq<Occurrence>, r2: seq<Occurrence>)
    requires Valid(c)
    requires multiset(r1) == multiset(r2)
    ensures Fold(c, r1) == Fold(c, r2)
  {
    FoldValid(c, r1);
    FoldValid(c, r2);
    forall k, v
      ensures Count(Fold(c, r1), k, v) == Count(Fold(c, r2), k, v)
    {
      FoldCount(c, r1, k, v);
      FoldCount(c, r2, k, v);
    }
    SameCountsSameMap(Fold(c, r1), Fold(c, r2));
  }

  /** The shared count map. Its only update is `Record`. */
  class Counter {
    var counts: Counts

    constructor ()
      ensures counts == map[]
    {
      counts := map[];
    }

    /** One occurrence of `value` under `key`. */
    method Record(key: string, value: string)
      modifies this
      ensures counts == Increment(old(counts), key, value)
    {
      if key !in counts {
        counts := counts[key := map[]];
      }
      var inner := counts[key];
      counts := counts[key := inner[value := if value in inner then inner[value] + 1 else 1]];
    }
  }
}
