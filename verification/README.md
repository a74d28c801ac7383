# Birthday registry — a Dafny model

A JavaFX form application keeps classmates' names and birthdays in a `classmates` table. It
lists them in "next birthday" order, filters them with a search box, adds, updates and deletes
single rows, and shows a reminder at start-up naming everyone whose birthday is today. This
project models that logic as pure functions over sequences of `(id, name, date)` records. The
table, the widgets and the clock are replaced by explicit values:

- the table is a sequence of rows in storage order plus the auto-increment counter (`Registry.Table`);
- the form's name and date, the selected row and the delete confirmation are handler arguments;
- "today" and the current year are parameters;
- whether the database answers the statement, and the reload after it, is a parameter (`Registry.Store`).

Modules, one per concern:

| file | module | models |
|---|---|---|
| `common.dfy` | `Common` | `Option`, order-preserving `Filter`, `IsSubsequence` |
| `dates.dfy` | `Dates` | `LocalDate` as a subset type of valid Gregorian dates, `withYear`, `compareTo` |
| `records.dfy` | `Records` | the `Birthday` class |
| `next_birthday.dfy` | `NextBirthday` | `sortBirthdays` |
| `today_check.dfy` | `TodayCheck` | `checkForTodayBirthdays` |
| `search_filter.dfy` | `SearchFilter` | the filter of `handleSearch`, lower-casing, `String.contains`, `String.valueOf(int)` |
| `registry.dfy` | `Registry` | `loadBirthdays`, `handleAdd`, `handleUpdate`, `handleDelete`, `handleSearch`, `initialize` |

Behaviour kept exactly as the code has it:

- The sort key overwrites each date's year with the current year and does not roll birthdays
  that have passed over to next year. The list therefore always runs from January to December,
  whatever the date today.
- `withYear` turns 29 February into 28 February in a common year. In such a year those two
  dates tie, and the stable sort keeps their list order.
- An update or delete whose id no longer has a row matches no row. It is not an error: the
  table is unchanged and the list is reloaded. No "not found" error is raised for a missing id.
- `loadBirthdays` clears the list before querying. A failed reload after a successful statement
  therefore leaves the list empty: the list is not kept in its last loaded state. A failed
  insert, update or delete leaves both the table and the list as they were.
- `handleSearch` gives the table widget a new list holding the matches. Later adds, updates and
  deletes reload `birthdayList`, but the widget keeps showing the search result until the next
  search.
- The name is not trimmed. A name of blanks passes validation.

## Model

| member | source | states |
|---|---|---|
| `Records.AccessorLaws` | src/main/java/com/example/birthdayapp/Birthday.java:10-22 | the constructor stores exactly id, name and date; each setter is read back by its getter, changes no other field, overrides an earlier call, and setting a field to its current value changes nothing |
| `Dates.WithYear` | src/main/java/com/example/birthdayapp/MainController.java:59 | the projected date has the current year and the same month; its day equals the stored day exactly when that day exists in the current year, and otherwise the date was 29 February moved to a common year and becomes 28 February |
| `Dates.WithYearRoundTrip` | src/main/java/com/example/birthdayapp/MainController.java:59 | moving a date to a year in which its day exists and back returns the original date |
| `Dates.WithYearIgnoresStoredYear` | src/main/java/com/example/birthdayapp/MainController.java:59 | two dates with the same month and day project to the same key, whatever years they are stored with |
| `Dates.CompareTo` | src/main/java/com/example/birthdayapp/MainController.java:59 | the comparator's result is zero exactly for equal dates and negative exactly when the first date is earlier by year, then month, then day |
| `Dates.NotAfterIsTotalOrder` | src/main/java/com/example/birthdayapp/MainController.java:59 | the order the comparator induces is reflexive, total, antisymmetric and transitive |
| `Dates.SameYearOrder` | src/main/java/com/example/birthdayapp/MainController.java:59 | within one year, calendar order is lexicographic order on (month, day) |
| `NextBirthday.InsertIsPermutation` | src/main/java/com/example/birthdayapp/MainController.java:59 | inserting a record adds exactly that record: nothing else is added, lost or duplicated |
| `NextBirthday.InsertIsSorted` | src/main/java/com/example/birthdayapp/MainController.java:59 | inserting into a list in key order gives a list in key order |
| `NextBirthday.SortIsSortedPermutation` | src/main/java/com/example/birthdayapp/MainController.java:58-60 | the sorted list is in non-decreasing key order and is a permutation of the input: nothing added, lost or duplicated |
| `NextBirthday.InsertWithKey` | src/main/java/com/example/birthdayapp/MainController.java:59 | an inserted record goes ahead of every record with an equal key and leaves the other keys' records alone |
| `NextBirthday.SortWithKey` | src/main/java/com/example/birthdayapp/MainController.java:58-60 | sorting leaves the sequence of records having any one key exactly as it was in the input |
| `NextBirthday.SortIsStable` | src/main/java/com/example/birthdayapp/MainController.java:58-60 | for every key, the records having that key appear in the sorted list in their load order |
| `NextBirthday.SortedStableUnique` | src/main/java/com/example/birthdayapp/MainController.java:58-60 | two lists in key order that agree on the order of each key's records are equal |
| `NextBirthday.SortCharacterisation` | src/main/java/com/example/birthdayapp/MainController.java:58-60 | a list is the sorted list if and only if it is a permutation of the input, in key order, and stable, so any stable sort yields it |
| `NextBirthday.KeyIsMonthAndClampedDay` | src/main/java/com/example/birthdayapp/MainController.java:59 | the key is the stored month and day in the current year, with 29 February read as 28 February in a common year |
| `NextBirthday.OrderIgnoresStoredYear` | src/main/java/com/example/birthdayapp/MainController.java:59 | whether one record may precede another depends only on their months and days, never on the stored years |
| `NextBirthday.SortedByMonth` | src/main/java/com/example/birthdayapp/MainController.java:58-60 | months never decrease along the sorted list: birthdays that already passed this year are not moved to the end |
| `NextBirthday.EarlierMonthFirst` | src/main/java/com/example/birthdayapp/MainController.java:58-60 | of two records, the one in the earlier month is listed first in either input order, for every current year |
| `NextBirthday.LateFebruaryIsOneKey` | src/main/java/com/example/birthdayapp/MainController.java:59 | in a common year a record's key is 28 February exactly when it was born on 28 or 29 February |
| `NextBirthday.LeapDayKeepsInputOrder` | src/main/java/com/example/birthdayapp/MainController.java:58-60 | in a common year the records born on 28 or 29 February come out of the sort in the order they went in |
| `NextBirthday.LeapDayTiesWithFebruary28` | src/main/java/com/example/birthdayapp/MainController.java:59 | in a common year 29 and 28 February have equal keys and keep their input order; in a leap year 28 February comes first |
| `TodayCheck.TodayRecords` | src/main/java/com/example/birthdayapp/MainController.java:65-70 | a record is among today's matches if and only if it is in the list and its month and day are today's; matches keep list order and every copy of a matching record is kept |
| `TodayCheck.CheckForTodayBirthdays` | src/main/java/com/example/birthdayapp/MainController.java:62-75 | the reminder is raised exactly when some record's month and day are today's, and its text is the matching names in list order, each followed by a line break |
| `TodayCheck.LinesAppend` | src/main/java/com/example/birthdayapp/MainController.java:68 | appending a name to the reminder text appends the name and one line break |
| `TodayCheck.LinesEmpty` | src/main/java/com/example/birthdayapp/MainController.java:72 | the reminder text is empty exactly when no name matched |
| `TodayCheck.SplitLinesRoundTrip` | src/main/java/com/example/birthdayapp/MainController.java:68 | splitting the reminder text at line breaks gives back the matched names, provided no name contains a line break |
| `TodayCheck.LeapDayBirthdayNeedsLeapYear` | src/main/java/com/example/birthdayapp/MainController.java:66-67 | a 29 February birthday matches only when today is in a leap year |
| `SearchFilter.Lower` | src/main/java/com/example/birthdayapp/MainController.java:159 | lower-casing keeps the length, changes exactly the characters A to Z, and turns each into the same letter in lower case |
| `Common.FilterCount` | src/main/java/com/example/birthdayapp/MainController.java:162-166 | filtering keeps every copy of an element that passes the test and no copy of one that fails it |
| `SearchFilter.LowerIsIdempotent` | src/main/java/com/example/birthdayapp/MainController.java:159 | lower-cased text has no upper-case letter left, and lower-casing it again changes nothing |
| `SearchFilter.IndexOf` | src/main/java/com/example/birthdayapp/MainController.java:163-164 | the result is -1 exactly when the query occurs nowhere; otherwise it is a position where the query occurs, and no earlier position has it |
| `SearchFilter.ContainsMeansOccurs` | src/main/java/com/example/birthdayapp/MainController.java:163-164 | a text contains the query if and only if the query occurs somewhere in it; the empty query is contained in every text |
| `SearchFilter.DecimalString` | src/main/java/com/example/birthdayapp/MainController.java:164 | the month text is a non-empty string of decimal digits with no leading zero |
| `SearchFilter.DecimalRoundTrip` | src/main/java/com/example/birthdayapp/MainController.java:164 | reading the month text back as a decimal number gives the month number |
| `SearchFilter.Search` | src/main/java/com/example/birthdayapp/MainController.java:162-167 | the result is an order-preserving subsequence of the list; a record is kept if and only if its lower-cased name contains the lower-cased query or its month text contains it, and every copy of a kept record is kept |
| `SearchFilter.EmptyQueryKeepsAll` | src/main/java/com/example/birthdayapp/MainController.java:163-164 | an empty query returns the whole list unchanged, in its order |
| `SearchFilter.QueryCaseIgnored` | src/main/java/com/example/birthdayapp/MainController.java:159 | searching for a query and for its lower-cased form gives the same result |
| `SearchFilter.QueryOneMatchesMonths` | src/main/java/com/example/birthdayapp/MainController.java:164 | the query "1" matches the month text of January, October, November and December and of no other month |
| `Registry.LoadBirthdays` | src/main/java/com/example/birthdayapp/MainController.java:38-56 | a successful load gives the table's rows as a permutation in next-birthday order, stable; a failed load leaves the list empty |
| `Registry.InsertRow` | src/main/java/com/example/birthdayapp/MainController.java:87-92 | the insert appends one row carrying the given name and date and an id no existing row has; ids stay unique and below the counter |
| `Registry.UpdateRows` | src/main/java/com/example/birthdayapp/MainController.java:116-122 | the update keeps the set of ids and their uniqueness |
| `Registry.DeleteRows` | src/main/java/com/example/birthdayapp/MainController.java:144-148 | the delete removes exactly the given id from the set of ids and keeps the others unique |
| `Registry.SubsequenceKeepsUniqueIds` | src/main/java/com/example/birthdayapp/MainController.java:144-148 | dropping rows keeps ids unique and invents no row |
| `Registry.HandleAdd` | src/main/java/com/example/birthdayapp/MainController.java:77-98 | the table stays well formed, and after a successful add the list is in next-birthday order and a permutation of the rows |
| `Registry.HandleUpdate` | src/main/java/com/example/birthdayapp/MainController.java:100-128 | the table stays well formed, and after a successful update the list is in next-birthday order and a permutation of the rows |
| `Registry.HandleDelete` | src/main/java/com/example/birthdayapp/MainController.java:130-155 | the table stays well formed, and after a successful delete the list is in next-birthday order and a permutation of the rows |
| `Registry.HandleSearch` | src/main/java/com/example/birthdayapp/MainController.java:157-169 | the table and the list are untouched; the widget shows an order-preserving subsequence of the list holding exactly the matching records, each as many times as in the list |
| `Registry.Initialize` | src/main/java/com/example/birthdayapp/MainController.java:25-31 | the widget shows the loaded list, sorted and a permutation of the rows; the reminder fires exactly when some listed birthday is today; the outcome is `Done` exactly when the load succeeds, and a failed load reports the load error with an empty list and no reminder |
| `Registry.BlankNameAccepted` | src/main/java/com/example/birthdayapp/MainController.java:82 | a name made of a blank passes validation and is stored as typed |
| `Registry.AddGuards` | src/main/java/com/example/birthdayapp/MainController.java:82-97 | an empty name or a missing date reports an input error and changes nothing; a failed insert changes nothing; the state changes only for valid input and a successful insert |
| `Registry.UpdateGuards` | src/main/java/com/example/birthdayapp/MainController.java:103-127 | without a selection, with an empty name or missing date, or with a failed statement, update reports the matching error and changes nothing, the selection being checked first |
| `Registry.DeleteGuards` | src/main/java/com/example/birthdayapp/MainController.java:133-153 | without a selection, without confirmation, or with a failed statement, delete reports the matching outcome and changes nothing |
| `Registry.FailedReloadClearsList` | src/main/java/com/example/birthdayapp/MainController.java:38-55 | when the statement of an add, an update or a delete succeeds but the reload fails, the list ends up empty and each of the three handlers reports the load error |
| `Registry.FreshRecordNotInRows` | src/main/java/com/example/birthdayapp/MainController.java:87-92 | a record carrying the next auto-increment id occurs nowhere in the table |
| `Registry.AddStoresNewRecordOnce` | src/main/java/com/example/birthdayapp/MainController.java:87-93 | a successful add appends exactly one row with a fresh id and the typed name and date; after the reload the list holds it exactly once and is sorted, and after a failed reload the list is empty |
| `Registry.UpdateChangesOnlySelected` | src/main/java/com/example/birthdayapp/MainController.java:116-123 | a successful update keeps the number and order of rows; rows with the selected id get the new name and date and keep the id; all other rows are unchanged |
| `Registry.UpdateOfMissingIdIsSilent` | src/main/java/com/example/birthdayapp/MainController.java:116-122 | updating an id that has no row leaves the table unchanged and is not an error: it reports success, or the load error when the reload fails |
| `Registry.UpdateWithOwnValuesChangesNothing` | src/main/java/com/example/birthdayapp/MainController.java:116-122 | writing a row's own name and date back over it leaves the table unchanged |
| `Registry.UpdateTwiceIsUpdateOnce` | src/main/java/com/example/birthdayapp/MainController.java:116-122 | a second update of the same id overrides the first |
| `Registry.DeleteRemovesOnlySelected` | src/main/java/com/example/birthdayapp/MainController.java:144-149 | a successful delete leaves no row with the selected id and keeps every other row, in order |
| `Registry.DeleteUndoesAdd` | src/main/java/com/example/birthdayapp/MainController.java:144-148 | deleting the record just added restores the rows the table had before the add |
| `Registry.SearchResultIsASnapshot` | src/main/java/com/example/birthdayapp/MainController.java:168 | after a search, an add does not change what the table widget shows |

## Left out

- The JDBC layer (`DatabaseUtil`, connections, statements, result sets) is I/O. The table is an
  abstract sequence of rows, and whether the database answers is the `Store` parameter.
- A load that fails part-way through the result set would leave a prefix of the rows in the
  list. The model treats every load failure as failing before the first row, so the list is empty.
- The auto-increment id is modelled as a counter above every stored id. Java's 32-bit `int`
  limit on ids is not modelled; ids are unbounded integers.
- The row order of `SELECT * FROM classmates` has no `ORDER BY`. It is taken to be insertion
  order, with updates in place. The sort is stable, so this order only matters between records
  with equal keys.
- `LocalDate.now()` is read anew for every comparator call. The model fixes one current year
  per sort and one "today" per reminder, so a sort that runs across New Year's midnight is not modelled.
- `Dates.WithYear` requires a year inside `LocalDate`'s range. The year always comes from
  `LocalDate.now()`, so it is always in range, and the exception `withYear` throws otherwise is left out.
- `String.toLowerCase` is modelled for the ASCII letters A to Z only. Locale-dependent and
  non-ASCII case mappings are left out.
- The JavaFX wiring is left out: cell factories, the selection listener, `showBirthdayDetails`,
  `clearFields` and the dialogs. Only the dialogs' outcome is kept, as `Feedback`.
- The reminder's title and the fixed heading line before the names are localized dialog text
  and are left out. `CheckForTodayBirthdays` returns the names part of the message.
- `java.sql.Date.valueOf` and `toLocalDate` are taken to round-trip a date unchanged.
