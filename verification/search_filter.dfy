/** The search box: keeps the records whose name contains the query, ignoring case, or whose
    month number written in decimal contains it. */
module SearchFilter {
  import opened Common
  import opened Dates
  import opened Records

  /** Lower-cases one character; only the ASCII letters A to Z change. */
  function LowerChar(c: char): char
  {
    if 'A' <= c <= 'Z' then (c as int - 'A' as int + 'a' as int) as char else c
  }

  /** `String.toLowerCase`, restricted to ASCII letters: exactly the upper-case letters change,
      each to the same letter in lower case. */
  function Lower(s: string): (r: string)
    ensures |r| == |s|
    ensures forall i :: 0 <= i < |s| ==> (r[i] != s[i] <==> 'A' <= s[i] <= 'Z')
    ensures forall i :: 0 <= i < |s| && 'A' <= s[i] <= 'Z' ==>
      'a' <= r[i] <= 'z' && r[i] as int - 'a' as int == s[i] as int - 'A' as int
  {
    seq(|s|, i requires 0 <= i < |s| => LowerChar(s[i]))
  }

  /** Lower-casing leaves no upper-case ASCII letter and doing it twice changes nothing. */
  lemma LowerIsIdempotent(s: string)
    ensures forall i :: 0 <= i < |s| ==> !('A' <= Lower(s)[i] <= 'Z')
    ensures Lower(Lower(s)) == Lower(s)
  {
  }

  /** `q` occurs in `s` starting at position `i`. */
  predicate OccursAt(s: string, q: string, i: int)
  {
    0 <= i && i + |q| <= |s| && s[i..i + |q|] == q
  }

  /** `String.indexOf`: the first position where `q` occurs in `s`, or -1. */
  function IndexOf(s: string, q: string): (r: int)
    ensures r == -1 || OccursAt(s, q, r)
    ensures r == -1 <==> forall j :: !OccursAt(s, q, j)
    ensures forall j :: 0 <= j < r ==> !OccursAt(s, q, j)
    decreases |s|
  {
    if |q| > |s| then -1
    else if s[..|q|] == q then 0
    else
      var r := IndexOf(s[1..], q);
      assert forall j :: 1 <= j ==> (OccursAt(s, q, j) <==> OccursAt(s[1..], q, j - 1)) by {
        forall j | 1 <= j
          ensures OccursAt(s, q, j) <==> OccursAt(s[1..], q, j - 1)
        {
          if j + |q| <= |s| {
            assert s[1..][j - 1..j - 1 + |q|] == s[j..j + |q|];
          }
        }
      }
      assert !OccursAt(s, q, 0);
      if r < 0 then -1 else r + 1
  }

  /** `String.contains`. */
  predicate Contains(s: string, q: string)
  {
    IndexOf(s, q) >= 0
  }

  /** `s` contains `q` exactly when `q` occurs in `s` somewhere; the empty text occurs in
      every string. */
  lemma ContainsMeansOccurs(s: string, q: string)
    ensures Contains(s, q) <==> exists j :: OccursAt(s, q, j)
    ensures Contains(s, "")
  {
    assert OccursAt(s, "", 0);
  }

  /** The character of a decimal digit. */
  function Digit(d: int): char
    requires 0 <= d <= 9
  {
    ('0' as int + d) as char
  }

  /** `String.valueOf(int)` for a non-negative number: its decimal digits, no leading zero. */
  function DecimalString(n: nat): (s: string)
    ensures |s| >= 1
    ensures forall i :: 0 <= i < |s| ==> '0' <= s[i] <= '9'
    ensures n > 0 ==> s[0] != '0'
    ensures n == 0 ==> s == "0"
  {
    if n < 10 then [Digit(n)] else DecimalString(n / 10) + [Digit(n % 10)]
  }

  /** The number a string of decimal digits denotes. */
  function DecimalValue(s: string): nat
    requires forall i :: 0 <= i < |s| ==> '0' <= s[i] <= '9'
  {
    if s == [] then 0
    else DecimalValue(s[..|s| - 1]) * 10 + (s[|s| - 1] as int - '0' as int)
  }

  /** Reading the decimal text of a number back gives the number. */
  lemma {:induction false} DecimalRoundTrip(n: nat)
    ensures DecimalValue(DecimalString(n)) == n
  {
    var s := DecimalString(n);
    if n >= 10 {
      DecimalRoundTrip(n / 10);
      assert s[..|s| - 1] == DecimalString(n / 10);
    }
  }

  /** The decimal text of a record's month, 1 to 12. */
  function MonthText(b: Birthday): string
  {
    DecimalString(b.birthday.month)
  }

  /** The test `handleSearch` applies to each record, given the already lower-cased query. */
  predicate Matches(b: Birthday, lowerQuery: string)
  {
    Contains(Lower(b.name), lowerQuery) || Contains(MonthText(b), lowerQuery)
  }

  /** `handleSearch`: the records of the list that match the lower-cased query, in list order. */
  function Search(list: seq<Birthday>, query: string): (r: seq<Birthday>)
    ensures IsSubsequence(r, list)
    ensures forall b :: b in r <==> b in list && (Contains(Lower(b.name), Lower(query)) || Contains(MonthText(b), Lower(query)))
    ensures forall b :: Count(r, b) == if Matches(b, Lower(query)) then Count(list, b) else 0
  {
    var r := Filter(list, b => Matches(b, Lower(query)));
    assert forall b :: Count(r, b) == if Matches(b, Lower(query)) then Count(list, b) else 0 by {
      forall b {
        FilterCount(list, b => Matches(b, Lower(query)), b);
      }
    }
    r
  }

  /** An empty query keeps the whole list, in its order. */
  lemma EmptyQueryKeepsAll(list: seq<Birthday>)
    ensures Search(list, "") == list
  {
    forall i | 0 <= i < |list|
      ensures Matches(list[i], Lower(""))
    {
      ContainsMeansOccurs(Lower(list[i].name), "");
    }
    FilterKeepsAll(list, b => Matches(b, Lower("")));
  }

  /** The query's case does not matter: it is lower-cased like the names. */
  lemma QueryCaseIgnored(list: seq<Birthday>, query: string)
    ensures Search(list, Lower(query)) == Search(list, query)
  {
    LowerIsIdempotent(query);
  }

  /** By month text, the query "1" picks January, October, November and December. */
  lemma QueryOneMatchesMonths(b: Birthday)
    ensures Contains(MonthText(b), "1") <==> b.birthday.month in {1, 10, 11, 12}
  {
    var m := b.birthday.month;
    var t := MonthText(b);
    if m < 10 {
      assert t == [Digit(m)];
      if m != 1 {
        assert !OccursAt(t, "1", 0);
      }
    } else {
      assert t == [Digit(1), Digit(m - 10)] by {
        assert DecimalString(m / 10) == [Digit(1)];
      }
      assert OccursAt(t, "1", 0);
    }
    ContainsMeansOccurs(t, "1");
  }
}
