/** The order in which the registry lists birthdays: a stable sort on each stored date with its
    year replaced by the current year. Birthdays that have already passed this year are NOT moved
    to next year, so the order is simply calendar order of (month, day) from 1 January. */
module NextBirthday {
  import opened Common
  import opened Dates
  import opened Records

  /** The sort key of a record: its date moved into `year`. */
  function Key(b: Birthday, year: Year): LocalDate
  {
    WithYear(b.birthday, year)
  }

  /** `a` may come before `b`: the comparator does not put `a` after `b`. */
  predicate KeyLe(a: Birthday, b: Birthday, year: Year)
  {
    NotAfter(Key(a, year), Key(b, year))
  }

  predicate Sorted(s: seq<Birthday>, year: Year)
  {
    forall i, j :: 0 <= i < j < |s| ==> KeyLe(s[i], s[j], year)
  }

  /** The records of `s` whose key is `k`, in their order in `s`. */
  function WithKey(s: seq<Birthday>, year: Year, k: LocalDate): seq<Birthday>
  {
    Filter(s, b => Key(b, year) == k)
  }

  /** Splitting off the first record of a sequence splits off its contribution to a key. */
  lemma WithKeyCons(x: Birthday, s: seq<Birthday>, year: Year, k: LocalDate)
    ensures WithKey([x] + s, year, k) == (if Key(x, year) == k then [x] else []) + WithKey(s, year, k)
  {
    assert ([x] + s)[1..] == s;
  }

  /** `r` keeps the relative order that `s` gives to records with equal keys. */
  ghost predicate Stable(s: seq<Birthday>, r: seq<Birthday>, year: Year)
  {
    forall k: LocalDate :: WithKey(r, year, k) == WithKey(s, year, k)
  }

  /** Puts `x` in front of the first record whose key is not below `x`'s. */
  function Insert(x: Birthday, s: seq<Birthday>, year: Year): seq<Birthday>
  {
    if s == [] then [x]
    else if KeyLe(x, s[0], year) then [x] + s
    else [s[0]] + Insert(x, s[1..], year)
  }

  /** `sortBirthdays`: the list in key order, equal keys in list order. */
  function Sort(s: seq<Birthday>, year: Year): seq<Birthday>
  {
    if s == [] then [] else Insert(s[0], Sort(s[1..], year), year)
  }

  /** Inserting adds exactly the one record. */
  lemma {:induction false} InsertIsPermutation(x: Birthday, s: seq<Birthday>, year: Year)
    ensures multiset(Insert(x, s, year)) == multiset{x} + multiset(s)
  {
    if s != [] && !KeyLe(x, s[0], year) {
      InsertIsPermutation(x, s[1..], year);
      assert s == [s[0]] + s[1..];
    }
  }

  /** Inserting into a sorted list gives a sorted list. */
  lemma {:induction false} InsertIsSorted(x: Birthday, s: seq<Birthday>, year: Year)
    requires Sorted(s, year)
    ensures Sorted(Insert(x, s, year), year)
  {
    if s == [] {
    } else if KeyLe(x, s[0], year) {
      forall j | 0 < j < |s|
        ensures KeyLe(x, s[j], year)
      {
        NotAfterIsTotalOrder(Key(x, year), Key(s[0], year), Key(s[j], year));
      }
    } else {
      var rest := Insert(x, s[1..], year);
      InsertIsSorted(x, s[1..], year);
      InsertIsPermutation(x, s[1..], year);
      forall j | 0 <= j < |rest|
        ensures KeyLe(s[0], rest[j], year)
      {
        assert rest[j] in multiset(rest);
        if rest[j] != x {
          assert rest[j] in multiset(s[1..]);
          var m :| 0 <= m < |s[1..]| && s[1..][m] == rest[j];
          assert s[m + 1] == rest[j];
        } else {
          NotAfterIsTotalOrder(Key(x, year), Key(s[0], year), Key(s[0], year));
        }
      }
      assert Insert(x, s, year) == [s[0]] + rest;
    }
  }

  /** The sorted list is in key order and is a permutation of the input: no record is added,
      lost or duplicated. */
  lemma {:induction false} SortIsSortedPermutation(s: seq<Birthday>, year: Year)
    ensures Sorted(Sort(s, year), year)
    ensures multiset(Sort(s, year)) == multiset(s)
  {
    if s != [] {
      SortIsSortedPermutation(s[1..], year);
      InsertIsSorted(s[0], Sort(s[1..], year), year);
      InsertIsPermutation(s[0], Sort(s[1..], year), year);
      assert s == [s[0]] + s[1..];
    }
  }

  /** Inserting `x` puts it ahead of every record with the same key. */
  lemma {:induction false} InsertWithKey(x: Birthday, s: seq<Birthday>, year: Year, k: LocalDate)
    ensures WithKey(Insert(x, s, year), year, k) == (if Key(x, year) == k then [x] else []) + WithKey(s, year, k)
  {
    if s == [] {
      WithKeyCons(x, [], year, k);
    } else if KeyLe(x, s[0], year) {
      WithKeyCons(x, s, year, k);
    } else {
      var rest := Insert(x, s[1..], year);
      assert Insert(x, s, year) == [s[0]] + rest;
      assert Key(s[0], year) != Key(x, year) by {
        NotAfterIsTotalOrder(Key(x, year), Key(s[0], year), Key(s[0], year));
      }
      InsertWithKey(x, s[1..], year, k);
      WithKeyCons(s[0], rest, year, k);
      assert s == [s[0]] + s[1..];
      WithKeyCons(s[0], s[1..], year, k);
    }
  }

  /** Sorting keeps the records of each key in their input order. */
  lemma {:induction false} SortWithKey(s: seq<Birthday>, year: Year, k: LocalDate)
    ensures WithKey(Sort(s, year), year, k) == WithKey(s, year, k)
  {
    if s != [] {
      var rest := Sort(s[1..], year);
      assert Sort(s, year) == Insert(s[0], rest, year);
      SortWithKey(s[1..], year, k);
      InsertWithKey(s[0], rest, year, k);
      assert s == [s[0]] + s[1..];
      WithKeyCons(s[0], s[1..], year, k);
    }
  }

  /** The sort is stable: for every key, the records with that key keep their order. */
  lemma SortIsStable(s: seq<Birthday>, year: Year)
    ensures Stable(s, Sort(s, year), year)
  {
    forall k: LocalDate
      ensures WithKey(Sort(s, year), year, k) == WithKey(s, year, k)
    {
      SortWithKey(s, year, k);
    }
  }

  /** A record `x` of `s` shows up in the records of `s` that share its key. */
  lemma InWithKey(x: Birthday, s: seq<Birthday>, year: Year)
    requires x in s
    ensures x in WithKey(s, year, Key(x, year))
  {
    var i :| 0 <= i < |s| && s[i] == x;
  }

  /** Sequences that agree on the records of every key are empty together. */
  lemma StableEmptyTogether(a: seq<Birthday>, b: seq<Birthday>, year: Year)
    requires Stable(a, b, year)
    ensures a == [] <==> b == []
  {
    if a != [] {
      InWithKey(a[0], a, year);
    }
    if b != [] {
      InWithKey(b[0], b, year);
    }
  }

  /** No record of a sorted sequence has a key below that of its first record. */
  lemma HeadKeyIsLeast(a: seq<Birthday>, x: Birthday, year: Year)
    requires Sorted(a, year)
    requires x in a
    ensures NotAfter(Key(a[0], year), Key(x, year))
  {
    var i :| 0 <= i < |a| && a[i] == x;
    if i > 0 {
      assert KeyLe(a[0], a[i], year);
    } else {
      NotAfterIsTotalOrder(Key(x, year), Key(x, year), Key(x, year));
    }
  }

  /** Two non-empty sorted sequences that agree on the records of every key start with records
      of the same key. */
  lemma SortedStableHeadKeys(a: seq<Birthday>, b: seq<Birthday>, year: Year)
    requires a != [] && b != []
    requires Sorted(a, year) && Sorted(b, year)
    requires Stable(a, b, year)
    ensures Key(a[0], year) == Key(b[0], year)
  {
    var ka, kb := Key(a[0], year), Key(b[0], year);
    InWithKey(b[0], b, year);
    assert b[0] in WithKey(a, year, kb);
    HeadKeyIsLeast(a, b[0], year);
    InWithKey(a[0], a, year);
    assert a[0] in WithKey(b, year, ka);
    HeadKeyIsLeast(b, a[0], year);
    NotAfterIsTotalOrder(ka, kb, kb);
  }

  /** Sequences that agree on every key and start with records of the same key start with the
      same record. */
  lemma StableSameHead(a: seq<Birthday>, b: seq<Birthday>, year: Year)
    requires a != [] && b != []
    requires Stable(a, b, year)
    requires Key(a[0], year) == Key(b[0], year)
    ensures a[0] == b[0]
  {
    var ka := Key(a[0], year);
    assert a == [a[0]] + a[1..];
    assert b == [b[0]] + b[1..];
    WithKeyCons(a[0], a[1..], year, ka);
    WithKeyCons(b[0], b[1..], year, ka);
    assert WithKey(a, year, ka) == WithKey(b, year, ka);
  }

  /** Sequences that agree on every key and start with the same record agree on every key
      after that record. */
  lemma StableTails(a: seq<Birthday>, b: seq<Birthday>, year: Year)
    requires a != [] && b != []
    requires Stable(a, b, year)
    requires a[0] == b[0]
    ensures Stable(a[1..], b[1..], year)
  {
    assert a == [a[0]] + a[1..];
    assert b == [b[0]] + b[1..];
    forall k: LocalDate
      ensures WithKey(a[1..], year, k) == WithKey(b[1..], year, k)
    {
      WithKeyCons(a[0], a[1..], year, k);
      WithKeyCons(b[0], b[1..], year, k);
      assert WithKey(a, year, k) == WithKey(b, year, k);
    }
  }

  /** Two sorted sequences that agree on the records of every key are the same sequence:
      sortedness and stability together leave no freedom. */
  lemma {:induction false} SortedStableUnique(a: seq<Birthday>, b: seq<Birthday>, year: Year)
    requires Sorted(a, year) && Sorted(b, year)
    requires Stable(a, b, year)
    ensures a == b
    decreases |a|
  {
    StableEmptyTogether(a, b, year);
    if a != [] {
      SortedStableHeadKeys(a, b, year);
      StableSameHead(a, b, year);
      StableTails(a, b, year);
      SortedStableUnique(a[1..], b[1..], year);
      assert a == [a[0]] + a[1..];
      assert b == [b[0]] + b[1..];
    }
  }

  /** `Sort` is characterised by its three properties: a result is the sorted list exactly
      when it is a permutation of the input, in key order, and stable. Any stable sort (such as
      the one Java's `List.sort` performs) therefore produces the list `Sort` produces. */
  lemma SortCharacterisation(s: seq<Birthday>, r: seq<Birthday>, year: Year)
    ensures r == Sort(s, year) <==> multiset(r) == multiset(s) && Sorted(r, year) && Stable(s, r, year)
  {
    SortIsStable(s, year);
    SortIsSortedPermutation(s, year);
    if multiset(r) == multiset(s) && Sorted(r, year) && Stable(s, r, year) {
      var t := Sort(s, year);
      assert Stable(r, t, year);
      SortedStableUnique(r, t, year);
    }
  }

  /** The key is the stored month and day in the current year, except that 29 February becomes
      28 February in a common year. The stored year plays no part. */
  lemma KeyIsMonthAndClampedDay(b: Birthday, year: Year)
    ensures Key(b, year).year == year
    ensures Key(b, year).month == b.birthday.month
    ensures b.birthday.month == 2 && b.birthday.day == 29 && !IsLeapYear(year) ==> Key(b, year).day == 28
    ensures !(b.birthday.month == 2 && b.birthday.day == 29 && !IsLeapYear(year)) ==> Key(b, year).day == b.birthday.day
  {
  }

  /** Whether `a` may precede `b` depends only on their months and (clamped) days,
      never on the years they are stored with. */
  lemma OrderIgnoresStoredYear(a: Birthday, b: Birthday, a': Birthday, b': Birthday, year: Year)
    requires a'.birthday.month == a.birthday.month && a'.birthday.day == a.birthday.day
    requires b'.birthday.month == b.birthday.month && b'.birthday.day == b.birthday.day
    ensures KeyLe(a, b, year) <==> KeyLe(a', b', year)
  {
    WithYearIgnoresStoredYear(a.birthday, a'.birthday, year);
    WithYearIgnoresStoredYear(b.birthday, b'.birthday, year);
  }

  /** The sorted list runs through the months from January to December, whatever the date
      today: a birthday that has already passed this year still comes first. */
  lemma SortedByMonth(s: seq<Birthday>, year: Year)
    ensures forall i, j :: 0 <= i < j < |Sort(s, year)| ==>
      Sort(s, year)[i].birthday.month <= Sort(s, year)[j].birthday.month
  {
    var r := Sort(s, year);
    SortIsSortedPermutation(s, year);
    forall i, j | 0 <= i < j < |r|
      ensures r[i].birthday.month <= r[j].birthday.month
    {
      assert KeyLe(r[i], r[j], year);
    }
  }

  /** A birthday in an earlier month is listed before one in a later month. */
  lemma EarlierMonthFirst(x: Birthday, y: Birthday, year: Year)
    requires x.birthday.month < y.birthday.month
    ensures Sort([y, x], year) == [x, y]
    ensures Sort([x, y], year) == [x, y]
  {
    assert Sort([x], year) == [x];
    assert [y, x][1..] == [x];
    assert [x, y][1..] == [y];
    assert Sort([y], year) == [y];
  }

  /** In a common year 29 February ties with 28 February, so the two keep their list order;
      in a leap year 29 February comes after 28 February. */
  lemma LeapDayTiesWithFebruary28(x: Birthday, y: Birthday, year: Year)
    requires x.birthday.month == 2 && x.birthday.day == 29
    requires y.birthday.month == 2 && y.birthday.day == 28
    ensures !IsLeapYear(year) ==> Key(x, year) == Key(y, year)
    ensures !IsLeapYear(year) ==> Sort([x, y], year) == [x, y] && Sort([y, x], year) == [y, x]
    ensures IsLeapYear(year) ==> Sort([x, y], year) == [y, x] && Sort([y, x], year) == [y, x]
  {
    assert [y, x][1..] == [x];
    assert [x, y][1..] == [y];
    assert Sort([x], year) == [x];
    assert Sort([y], year) == [y];
  }

  /** Born on 28 or 29 February. */
  predicate LateFebruary(b: Birthday)
  {
    b.birthday.month == 2 && 28 <= b.birthday.day <= 29
  }

  /** In a common year the records born on 28 or 29 February are exactly those with the key
      28 February. */
  lemma {:induction false} LateFebruaryIsOneKey(s: seq<Birthday>, year: Year)
    requires !IsLeapYear(year)
    ensures WithKey(s, year, Date(year, 2, 28)) == Filter(s, LateFebruary)
  {
    if s != [] {
      KeyIsMonthAndClampedDay(s[0], year);
      LateFebruaryIsOneKey(s[1..], year);
      assert s == [s[0]] + s[1..];
      WithKeyCons(s[0], s[1..], year, Date(year, 2, 28));
    }
  }

  /** In a common year the sort keeps every record born on 28 or 29 February in its input order
      relative to the others born on those two days. */
  lemma LeapDayKeepsInputOrder(s: seq<Birthday>, year: Year)
    requires !IsLeapYear(year)
    ensures Filter(Sort(s, year), LateFebruary) == Filter(s, LateFebruary)
  {
    SortWithKey(s, year, Date(year, 2, 28));
    LateFebruaryIsOneKey(s, year);
    LateFebruaryIsOneKey(Sort(s, year), year);
  }
}
