/**
 * The pieces of the Java standard library the core leans on, written out:
 * `String.split(",")`, `String.trim()`, `Integer.toString` and the
 * lower-casing used by the `.json` file filter.
 */
module JavaStrings {

  import opened Wrappers

  const Comma: char := ','

  // ---------------------------------------------------------------------------
  // String.trim()

  /** `trim` removes every leading and trailing character up to U+0020. */
  predicate IsTrimmable(c: char) {
    c <= ' '
  }

  /** A string that `trim` leaves as it is. */
  predicate IsTrimmed(s: string) {
    s == [] || (!IsTrimmable(s[0]) && !IsTrimmable(s[|s| - 1]))
  }

  /** Drops the leading trimmable characters. */
  function TrimStart(s: string): string {
    if s != [] && IsTrimmable(s[0]) then TrimStart(s[1..]) else s
  }

  /** `TrimStart` drops a run of trimmable characters and keeps a suffix that does not start with one. */
  lemma {:induction false} TrimStartDrops(s: string)
    ensures var r := TrimStart(s);
      && |r| <= |s| && r == s[|s| - |r|..]
      && (forall k :: 0 <= k < |s| - |r| ==> IsTrimmable(s[k]))
      && (r == [] || !IsTrimmable(r[0]))
  {
    if s != [] && IsTrimmable(s[0]) {
      TrimStartDrops(s[1..]);
      var r := TrimStart(s);
      assert s[1..][|s| - 1 - |r|..] == s[|s| - |r|..];
      forall k | 0 <= k < |s| - |r|
        ensures IsTrimmable(s[k])
      {
        if k > 0 {
          assert s[k] == s[1..][k - 1];
        }
      }
    }
  }

  /** Drops the trailing trimmable characters. */
  function TrimEnd(s: string): string {
    if s != [] && IsTrimmable(s[|s| - 1]) then TrimEnd(s[..|s| - 1]) else s
  }

  /** `TrimEnd` drops a run of trimmable characters and keeps a prefix that does not end with one. */
  lemma {:induction false} TrimEndDrops(s: string)
    ensures var r := TrimEnd(s);
      && |r| <= |s| && r == s[..|r|]
      && (forall k :: |r| <= k < |s| ==> IsTrimmable(s[k]))
      && (r == [] || !IsTrimmable(r[|r| - 1]))
  {
    if s != [] && IsTrimmable(s[|s| - 1]) {
      TrimEndDrops(s[..|s| - 1]);
      var r := TrimEnd(s);
      assert s[..|s| - 1][..|r|] == s[..|r|];
      forall k | |r| <= k < |s|
        ensures IsTrimmable(s[k])
      {
        if k < |s| - 1 {
          assert s[k] == s[..|s| - 1][k];
        }
      }
    }
  }

  /** `String.trim()`. */
  function Trim(s: string): string {
    TrimEnd(TrimStart(s))
  }

  /**
   * What `trim` returns has nothing trimmable left at either end, is no
   * longer than `s`, holds only characters of `s`, and is `s` itself when `s`
   * was already trimmed.
   */
  lemma TrimResult(s: string)
    ensures IsTrimmed(Trim(s))
    ensures |Trim(s)| <= |s|
    ensures forall c :: c in Trim(s) ==> c in s
    ensures IsTrimmed(s) ==> Trim(s) == s
  {
    var t := TrimStart(s);
    var r := TrimEnd(t);
    TrimStartDrops(s);
    TrimEndDrops(t);
    if r != [] {
      assert r[0] == t[0];
    }
    forall c | c in r
      ensures c in s
    {
      var k :| 0 <= k < |r| && r[k] == c;
      assert t[k] == c;
      assert s[|s| - |t| + k] == c;
    }
    if IsTrimmed(s) && s != [] {
      assert t == s;
    }
  }

  /** A trimmed result is a fixed point of `trim`. */
  lemma TrimIdempotent(s: string)
    ensures Trim(Trim(s)) == Trim(s)
  {
    TrimResult(s);
    TrimResult(Trim(s));
  }

  /** A piece made only of blanks trims to the empty string. */
  lemma {:induction false} TrimBlank(s: string)
    requires forall k :: 0 <= k < |s| ==> IsTrimmable(s[k])
    ensures Trim(s) == ""
  {
    if s != [] {
      assert IsTrimmable(s[0]);
      TrimBlank(s[1..]);
    }
  }

  // ---------------------------------------------------------------------------
  // String.split(",")

  /**
   * Every piece between commas, the first Java collects before it drops the
   * trailing empty ones: one more piece than there are commas.
   */
  function SplitAll(s: string): (r: seq<string>)
    ensures |r| >= 1
  {
    if s == [] then [[]]
    else
      var rest := SplitAll(s[1..]);
      if s[0] == Comma then [[]] + rest
      else [[s[0]] + rest[0]] + rest[1..]
  }

  /** No piece between commas holds a comma. */
  lemma {:induction false} SplitAllNoComma(s: string)
    ensures forall i :: 0 <= i < |SplitAll(s)| ==> Comma !in SplitAll(s)[i]
  {
    if s != [] {
      SplitAllNoComma(s[1..]);
      var rest, r := SplitAll(s[1..]), SplitAll(s);
      forall i | 0 <= i < |r|
        ensures Comma !in r[i]
      {
        if s[0] == Comma {
          if i > 0 {
            assert r[i] == rest[i - 1];
          }
        } else if i > 0 {
          assert r[i] == rest[i];
        } else {
          assert r[0] == [s[0]] + rest[0];
        }
      }
    }
  }

  /** The pieces put back together with a comma between each two of them. */
  function Join(pieces: seq<string>): (r: string)
    requires |pieces| >= 1
    ensures |r| >= |pieces[|pieces| - 1]|
  {
    if |pieces| == 1 then pieces[0] else pieces[0] + [Comma] + Join(pieces[1..])
  }

  lemma {:induction false} JoinConsChar(c: char, pieces: seq<string>)
    requires |pieces| >= 1
    ensures Join([[c] + pieces[0]] + pieces[1..]) == [c] + Join(pieces)
  {
    var p := [[c] + pieces[0]] + pieces[1..];
    assert p[1..] == pieces[1..];
  }

  /** Joining the pieces gives back the string that was split. */
  lemma {:induction false} JoinSplitAll(s: string)
    ensures Join(SplitAll(s)) == s
  {
    if s != [] {
      var rest := SplitAll(s[1..]);
      JoinSplitAll(s[1..]);
      if s[0] == Comma {
        assert ([[]] + rest)[1..] == rest;
      } else {
        JoinConsChar(s[0], rest);
      }
    }
  }

  lemma {:induction false} SplitAllPrefix(p: string, s: string)
    requires Comma !in p
    ensures SplitAll(p + s) == [p + SplitAll(s)[0]] + SplitAll(s)[1..]
  {
    var tail := SplitAll(s);
    if p == [] {
      assert p + s == s;
      assert p + tail[0] == tail[0];
      assert [tail[0]] + tail[1..] == tail;
    } else {
      assert (p + s)[0] == p[0] && (p + s)[1..] == p[1..] + s;
      SplitAllPrefix(p[1..], s);
      assert [p[0]] + (p[1..] + tail[0]) == p + tail[0];
    }
  }

  /** Splitting comma-free pieces joined with commas gives the pieces back. */
  lemma {:induction false} SplitAllJoin(pieces: seq<string>)
    requires |pieces| >= 1
    requires forall i :: 0 <= i < |pieces| ==> Comma !in pieces[i]
    ensures SplitAll(Join(pieces)) == pieces
  {
    if |pieces| == 1 {
      SplitAllPrefix(pieces[0], []);
      assert pieces[0] + [] == pieces[0];
    } else {
      var tail := Join(pieces[1..]);
      SplitAllJoin(pieces[1..]);
      SplitAllPrefix(pieces[0], [Comma] + tail);
      assert pieces[0] + [Comma] + tail == pieces[0] + ([Comma] + tail);
      assert ([Comma] + tail)[1..] == tail;
      assert pieces[0] + [] == pieces[0];
    }
  }

  /** Java's removal of the trailing empty pieces (split with limit 0). */
  function DropTrailingEmpty(pieces: seq<string>): seq<string> {
    if pieces != [] && pieces[|pieces| - 1] == [] then DropTrailingEmpty(pieces[..|pieces| - 1])
    else pieces
  }

  /**
   * What is kept is a prefix of the pieces, everything dropped is empty, and
   * the last piece kept is not.
   */
  lemma {:induction false} DropTrailingEmptyDrops(pieces: seq<string>)
    ensures var r := DropTrailingEmpty(pieces);
      && |r| <= |pieces| && r == pieces[..|r|]
      && (forall k :: |r| <= k < |pieces| ==> pieces[k] == [])
      && (r == [] || r[|r| - 1] != [])
  {
    if pieces != [] && pieces[|pieces| - 1] == [] {
      var init := pieces[..|pieces| - 1];
      DropTrailingEmptyDrops(init);
      var r := DropTrailingEmpty(pieces);
      assert init[..|r|] == pieces[..|r|];
      forall k | |r| <= k < |pieces|
        ensures pieces[k] == []
      {
        if k < |pieces| - 1 {
          assert pieces[k] == init[k];
        }
      }
    }
  }

  /**
   * `s.split(",")`: with no comma at all Java returns the string itself (even
   * the empty one); otherwise the pieces between commas, the trailing empty
   * pieces dropped.
   */
  function JavaSplit(s: string): seq<string> {
    if Comma !in s then [s] else DropTrailingEmpty(SplitAll(s))
  }

  /**
   * No piece holds a comma, and Java's shortcut for a string without a comma
   * agrees with the general rule whenever the string is not empty.
   */
  lemma JavaSplitPieces(s: string)
    ensures forall i :: 0 <= i < |JavaSplit(s)| ==> Comma !in JavaSplit(s)[i]
    ensures s != [] ==> JavaSplit(s) == DropTrailingEmpty(SplitAll(s))
  {
    SplitAllNoComma(s);
    DropTrailingEmptyDrops(SplitAll(s));
    var pieces := SplitAll(s);
    var kept := DropTrailingEmpty(pieces);
    forall i | 0 <= i < |kept|
      ensures Comma !in kept[i]
    {
      assert kept[i] == pieces[i];
    }
    if Comma !in s {
      SplitAllPrefix(s, []);
      assert s + [] == s;
      assert pieces == [s];
    }
  }

  /** `parseValues`: split on commas, then trim every piece. */
  function ParseValues(s: string): seq<string> {
    var pieces := JavaSplit(s);
    seq(|pieces|, i requires 0 <= i < |pieces| => Trim(pieces[i]))
  }

  /** One value per split piece, each free of commas and already trimmed. */
  lemma ParseValuesPieces(s: string)
    ensures |ParseValues(s)| == |JavaSplit(s)|
    ensures forall i :: 0 <= i < |ParseValues(s)| ==> Comma !in ParseValues(s)[i] && IsTrimmed(ParseValues(s)[i])
  {
    var pieces := JavaSplit(s);
    JavaSplitPieces(s);
    forall i | 0 <= i < |pieces|
      ensures Comma !in Trim(pieces[i]) && IsTrimmed(Trim(pieces[i]))
    {
      TrimResult(pieces[i]);
    }
  }

  /**
   * Round trip: comma-free, trimmed pieces joined with commas are parsed back
   * into exactly those pieces, provided the last one is not empty (Java would
   * drop it).
   */
  lemma ParseValuesJoin(pieces: seq<string>)
    requires |pieces| >= 1 && pieces[|pieces| - 1] != []
    requires forall i :: 0 <= i < |pieces| ==> Comma !in pieces[i] && IsTrimmed(pieces[i])
    ensures ParseValues(Join(pieces)) == pieces
  {
    var s := Join(pieces);
    SplitAllJoin(pieces);
    JavaSplitPieces(s);
    assert DropTrailingEmpty(pieces) == pieces;
    assert JavaSplit(s) == pieces;
    var r := ParseValues(s);
    forall i | 0 <= i < |pieces|
      ensures r[i] == pieces[i]
    {
      TrimResult(pieces[i]);
    }
  }

  /** A value with no comma is recorded as a single trimmed piece. */
  lemma ParseValuesNoComma(s: string)
    requires Comma !in s
    ensures ParseValues(s) == [Trim(s)]
  {
  }

  /** Two pieces around one comma; the second keeps Java's trailing-empty rule. */
  lemma {:induction false} ParseValuesTwo(a: string, b: string)
    requires Comma !in a && Comma !in b
    ensures ParseValues(a + [Comma] + b) ==
      if b != [] then [Trim(a), Trim(b)] else if a != [] then [Trim(a)] else []
  {
    var s := a + [Comma] + b;
    assert s[|a|] == Comma;
    SplitAllJoin([a, b]);
    assert Join([a, b]) == s by { assert [a, b][1..] == [b]; }
    var pieces := DropTrailingEmpty([a, b]);
    assert JavaSplit(s) == pieces;
    if b != [] {
      assert pieces == [a, b];
    } else {
      assert [a, b][..1] == [a];
      assert pieces == DropTrailingEmpty([a]);
      if a == [] {
        assert [a][..0] == [];
        assert DropTrailingEmpty([a]) == DropTrailingEmpty([]);
      }
    }
  }

  /** Two values written `a, b`: both come back, the space after the comma trimmed away. */
  lemma ParseValuesCommaSpace(a: string, b: string)
    requires a != [] && b != []
    requires Comma !in a && Comma !in b && IsTrimmed(a) && IsTrimmed(b)
    ensures ParseValues(a + ", " + b) == [a, b]
  {
    var spaced := " " + b;
    assert a + ", " + b == a + [Comma] + spaced;
    ParseValuesTwo(a, spaced);
    assert spaced[1..] == b;
    assert TrimStart(spaced) == TrimStart(b);
    TrimResult(a);
    TrimResult(b);
  }

  /** The genre list of the tests. */
  lemma ParseValuesGenreList()
    ensures ParseValues("Romance, Tragedy") == ["Romance", "Tragedy"]
  {
    assert "Romance, Tragedy" == "Romance" + ", " + "Tragedy";
    ParseValuesCommaSpace("Romance", "Tragedy");
  }

  /** An empty piece between two commas is kept and recorded as "". */
  lemma ParseValuesInteriorEmpty(a: string, b: string)
    requires b != []
    requires Comma !in a && Comma !in b && IsTrimmed(a) && IsTrimmed(b)
    ensures ParseValues(a + [Comma, Comma] + b) == [a, "", b]
  {
    var pieces := [a, "", b];
    SplitAllJoin(pieces);
    assert Join(pieces) == a + [Comma, Comma] + b by {
      assert pieces[1..] == ["", b];
      assert ["", b][1..] == [b];
      assert Join(["", b]) == "" + [Comma] + b;
      assert "" + [Comma] + b == [Comma] + b;
      assert a + [Comma] + ([Comma] + b) == a + [Comma, Comma] + b;
    }
    assert DropTrailingEmpty(pieces) == pieces;
    assert JavaSplit(Join(pieces)) == pieces;
    TrimResult(a);
    TrimResult(b);
  }

  /** A blank last piece is not dropped (it is not empty before `trim`) and trims to "". */
  lemma ParseValuesBlankLast(a: string, b: string)
    requires Comma !in a
    requires b != [] && forall k :: 0 <= k < |b| ==> IsTrimmable(b[k])
    ensures ParseValues(a + [Comma] + b) == [Trim(a), ""]
  {
    ParseValuesTwo(a, b);
    TrimBlank(b);
  }

  /** A lone comma yields no piece at all. */
  lemma ParseValuesLoneComma()
    ensures ParseValues([Comma]) == []
  {
    ParseValuesTwo("", "");
    assert [Comma] == "" + [Comma] + "";
  }

  // ---------------------------------------------------------------------------
  // Integer.toString and its inverse

  function DigitChar(d: int): (c: char)
    requires 0 <= d < 10
    ensures '0' <= c <= '9' && c as int - '0' as int == d
  {
    (d + '0' as int) as char
  }

  predicate IsDigits(s: string) {
    s != [] && forall i :: 0 <= i < |s| ==> '0' <= s[i] <= '9'
  }

  /** Decimal digits of a natural number, most significant first. */
  function NatToString(n: nat): (r: string)
    ensures IsDigits(r)
  {
    if n < 10 then [DigitChar(n)] else NatToString(n / 10) + [DigitChar(n % 10)]
  }

  /** `Integer.toString`: a minus sign before the digits of a negative number. */
  function IntToString(n: int): (r: string)
    ensures r != [] && '<' !in r
  {
    if n < 0 then "-" + NatToString(-n) else NatToString(n)
  }

  /** The number a digit string stands for. */
  function DigitsValue(s: string): nat
    requires IsDigits(s)
  {
    var d := s[|s| - 1] as int - '0' as int;
    if |s| == 1 then d else 10 * DigitsValue(s[..|s| - 1]) + d
  }

  /** Reads back an optionally signed decimal integer; `None` for anything else. */
  function ParseInt(s: string): (r: Option<int>)
    ensures r.Some? ==> s != []
  {
    if s != [] && s[0] == '-' && IsDigits(s[1..]) then Some(0 - DigitsValue(s[1..]))
    else if IsDigits(s) then Some(DigitsValue(s))
    else None
  }

  lemma {:induction false} NatToStringValue(n: nat)
    ensures DigitsValue(NatToString(n)) == n
  {
    if n >= 10 {
      NatToStringValue(n / 10);
      var r := NatToString(n);
      assert r[..|r| - 1] == NatToString(n / 10);
    }
  }

  /** Every count is read back from its decimal text. */
  lemma IntToStringParse(n: int)
    ensures ParseInt(IntToString(n)) == Some(n)
  {
    if n < 0 {
      NegativeParse(-n);
      assert IntToString(n) == "-" + NatToString(-n);
    } else {
      DigitsParse(n);
    }
  }

  lemma DigitsParse(n: nat)
    ensures ParseInt(NatToString(n)) == Some(n)
  {
    var digits := NatToString(n);
    NatToStringValue(n);
    assert '0' <= digits[0] <= '9';
  }

  lemma NegativeParse(n: nat)
    requires n > 0
    ensures ParseInt("-" + NatToString(n)) == Some(-(n as int))
  {
    var digits := NatToString(n);
    var r := "-" + digits;
    NatToStringValue(n);
    assert r[0] == '-' && r[1..] == digits;
  }

  /** Distinct counts print as distinct text. */
  lemma IntToStringInjective(m: int, n: int)
    requires IntToString(m) == IntToString(n)
    ensures m == n
  {
    IntToStringParse(m);
    IntToStringParse(n);
  }

  // ---------------------------------------------------------------------------
  // toLowerCase().endsWith(".json")

  /**
   * Lower-casing of one character. Only `A`-`Z` are mapped: no other character
   * lower-cases to one of `.json`, so the suffix test below does not depend on
   * the rest of the Unicode table.
   */
  function ToLowerChar(c: char): (r: char)
    ensures 'A' <= c <= 'Z' ==> 'a' <= r <= 'z'
    ensures !('A' <= c <= 'Z') ==> r == c
  {
    if 'A' <= c <= 'Z' then (c as int - 'A' as int + 'a' as int) as char else c
  }

  function ToLower(s: string): (r: string)
    ensures |r| == |s|
    ensures forall i :: 0 <= i < |s| ==> r[i] == ToLowerChar(s[i])
  {
    seq(|s|, i requires 0 <= i < |s| => ToLowerChar(s[i]))
  }

  /** Two characters that are the same letter in either case, or simply equal. */
  predicate SameIgnoringCase(c: char, d: char) {
    || c == d
    || ('A' <= c <= 'Z' && d as int == c as int + 32)
    || ('A' <= d <= 'Z' && c as int == d as int + 32)
  }

  /** Lower-casing leaves no upper-case letter behind, so doing it twice changes nothing more. */
  lemma ToLowerResult(s: string)
    ensures forall i :: 0 <= i < |s| ==> !('A' <= ToLower(s)[i] <= 'Z')
    ensures ToLower(ToLower(s)) == ToLower(s)
  {
  }

  /** Two strings lower-case to the same text exactly when they differ only in letter case. */
  lemma ToLowerIgnoresCase(a: string, b: string)
    ensures ToLower(a) == ToLower(b) <==> |a| == |b| && forall i :: 0 <= i < |a| ==> SameIgnoringCase(a[i], b[i])
  {
    if ToLower(a) == ToLower(b) {
      forall i | 0 <= i < |a|
        ensures SameIgnoringCase(a[i], b[i])
      {
        assert ToLowerChar(a[i]) == ToLower(a)[i] == ToLower(b)[i] == ToLowerChar(b[i]);
      }
    }
  }

  predicate EndsWith(s: string, suffix: string) {
    |suffix| <= |s| && s[|s| - |suffix|..] == suffix
  }
}
