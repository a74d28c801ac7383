/** The start-up reminder: the names of the classmates whose birthday is today. */
module TodayCheck {
  import opened Common
  import opened Dates
  import opened Records

  /** The record's stored month and day are today's; the stored year does not matter. */
  predicate IsToday(b: Birthday, today: LocalDate)
  {
    b.birthday.month == today.month && b.birthday.day == today.day
  }

  /** The names of a sequence of records, in order. */
  function Names(s: seq<Birthday>): seq<string>
  {
    seq(|s|, i requires 0 <= i < |s| => s[i].name)
  }

  /** Reference definition: the records whose birthday is today, in list order. */
  function TodayRecords(list: seq<Birthday>, today: LocalDate): (r: seq<Birthday>)
    ensures forall b :: b in r <==> b in list && IsToday(b, today)
    ensures IsSubsequence(r, list)
    ensures forall b :: Count(r, b) == if IsToday(b, today) then Count(list, b) else 0
  {
    var r := Filter(list, b => IsToday(b, today));
    assert forall b :: Count(r, b) == if IsToday(b, today) then Count(list, b) else 0 by {
      forall b {
        FilterCount(list, b => IsToday(b, today), b);
      }
    }
    r
  }

  /** The text the reminder lists: every name followed by a line break. */
  function Lines(names: seq<string>): string
  {
    if names == [] then [] else names[0] + "\n" + Lines(names[1..])
  }

  /** Appending one more name to the text appends that name and a line break. */
  lemma {:induction false} LinesAppend(names: seq<string>, n: string)
    ensures Lines(names + [n]) == Lines(names) + n + "\n"
  {
    if names == [] {
      assert [] + [n] == [n];
      assert [n][1..] == [];
    } else {
      assert (names + [n])[1..] == names[1..] + [n];
      LinesAppend(names[1..], n);
    }
  }

  /** Each name in the text is followed by a line break, so the text is empty only when there
      are no names. */
  lemma LinesEmpty(names: seq<string>)
    ensures Lines(names) == [] <==> names == []
  {
  }

  /** The position of the first `c` in `s`, or -1. */
  function IndexOfChar(s: string, c: char): (i: int)
    ensures -1 <= i < |s|
    ensures i == -1 <==> c !in s
    ensures 0 <= i ==> s[i] == c && c !in s[..i]
  {
    if s == [] then -1
    else if s[0] == c then 0
    else
      var i := IndexOfChar(s[1..], c);
      if i < 0 then -1
      else
        assert s[..i + 1] == [s[0]] + s[1..][..i];
        i + 1
  }

  /** Splits a text into its lines, the inverse of `Lines`; a last line without a line break
      counts as a line too. */
  function SplitLines(text: string): seq<string>
    decreases |text|
  {
    if text == [] then []
    else
      var i := IndexOfChar(text, '\n');
      if i < 0 then [text] else [text[..i]] + SplitLines(text[i + 1..])
  }

  /** Names read back from the reminder text are the names that went in, as long as no name
      holds a line break itself. */
  lemma {:induction false} SplitLinesRoundTrip(names: seq<string>)
    requires forall i :: 0 <= i < |names| ==> '\n' !in names[i]
    ensures SplitLines(Lines(names)) == names
  {
    if names != [] {
      var n, text := names[0], Lines(names);
      assert text == n + ("\n" + Lines(names[1..]));
      var i := IndexOfChar(text, '\n');
      assert text[|n|] == '\n';
      assert text[..|n|] == n;
      assert i == |n|;
      assert text[i + 1..] == Lines(names[1..]);
      SplitLinesRoundTrip(names[1..]);
    }
  }

  /** Looking at one more record adds it to the matches exactly when its birthday is today. */
  lemma TodayRecordsSnoc(list: seq<Birthday>, i: nat, today: LocalDate)
    requires i < |list|
    ensures TodayRecords(list[..i + 1], today)
         == TodayRecords(list[..i], today) + (if IsToday(list[i], today) then [list[i]] else [])
  {
    assert list[..i + 1] == list[..i] + [list[i]];
    FilterAppend(list[..i], [list[i]], b => IsToday(b, today));
    assert Filter([list[i]], b => IsToday(b, today)) == if IsToday(list[i], today) then [list[i]] else [];
  }

  /** The names of a sequence with one more record end with that record's name. */
  lemma NamesSnoc(s: seq<Birthday>, b: Birthday)
    ensures Names(s + [b]) == Names(s) + [b.name]
  {
  }

  /** `checkForTodayBirthdays`: walks the list, appending each name whose month and day are
      today's followed by a line break, and raises the reminder when anything was appended. */
  method CheckForTodayBirthdays(list: seq<Birthday>, today: LocalDate) returns (alert: Option<string>)
    ensures alert.Some? <==> exists b :: b in list && IsToday(b, today)
    ensures alert.Some? ==> alert.value == Lines(Names(TodayRecords(list, today)))
  {
    var text: string := "";
    var i := 0;
    while i < |list|
      invariant 0 <= i <= |list|
      invariant text == Lines(Names(TodayRecords(list[..i], today)))
    {
      TodayRecordsSnoc(list, i, today);
      if IsToday(list[i], today) {
        NamesSnoc(TodayRecords(list[..i], today), list[i]);
        LinesAppend(Names(TodayRecords(list[..i], today)), list[i].name);
        text := text + list[i].name + "\n";
      } else {
        assert TodayRecords(list[..i + 1], today) == TodayRecords(list[..i], today);
      }
      i := i + 1;
    }
    assert list[..i] == list;
    LinesEmpty(Names(TodayRecords(list, today)));
    if |text| > 0 {
      alert := Some(text);
    } else {
      alert := None;
    }
  }

  /** In a common year nobody is reminded on 29 February, because that day does not occur; a
      classmate born on 29 February is reminded only in leap years. */
  lemma LeapDayBirthdayNeedsLeapYear(b: Birthday, today: LocalDate)
    requires b.birthday.month == 2 && b.birthday.day == 29
    requires IsToday(b, today)
    ensures IsLeapYear(today.year)
  {
  }
}
