/** The controller's state and its handlers, with the database table and the widgets taken out:
    the table is a sequence of rows with an auto-increment counter, the form is the handlers'
    arguments, and whether the database answers is an explicit parameter. */
module Registry {
  import opened Common
  import opened Dates
  import opened Records
  import opened NextBirthday
  import opened TodayCheck
  import opened SearchFilter

  /** The `classmates` table: its rows in storage order and the id the next insert receives. */
  datatype Table = Table(rows: seq<Birthday>, nextId: int)

  /** Ids are unique and all below the auto-increment counter. */
  predicate ValidTable(t: Table)
  {
    && UniqueIds(t.rows)
    && forall i :: 0 <= i < |t.rows| ==> t.rows[i].id < t.nextId
  }

  /** Whether the database answers the handler's statement and the reload that follows it. */
  datatype Store = Store(statementOk: bool, reloadOk: bool)

  /** What the table widget shows: the live (sorted) list, or the snapshot a search made. */
  datatype View = LiveList | Snapshot(items: seq<Birthday>)

  /** The controller: the table it talks to, `birthdayList`, and the table widget's items. */
  datatype Controller = Controller(table: Table, list: seq<Birthday>, view: View)

  /** The outcome a handler reports to the user. */
  datatype Feedback =
    | Done           // the statement ran and the list was reloaded
    | InputError     // empty name or no date picked
    | NoSelection    // update or delete without a selected row
    | Declined       // delete not confirmed
    | StatementError // the insert, update or delete failed
    | LoadError      // the reload after a successful statement failed

  /** The records the table widget displays. */
  function Shown(c: Controller): seq<Birthday>
  {
    match c.view
    case LiveList => c.list
    case Snapshot(items) => items
  }

  /** `loadBirthdays`: the rows sorted by next birthday; a failed load leaves the list cleared. */
  function LoadBirthdays(t: Table, year: Year, ok: bool): (list: seq<Birthday>)
    ensures ok ==> multiset(list) == multiset(t.rows) && Sorted(list, year) && Stable(t.rows, list, year)
    ensures !ok ==> list == []
  {
    SortIsStable(t.rows, year);
    SortIsSortedPermutation(t.rows, year);
    if ok then Sort(t.rows, year) else []
  }

  /** The form's name and date are usable: the name is not empty (it is not trimmed, so blanks
      count) and a date was picked. */
  predicate InputValid(name: string, date: Option<LocalDate>)
  {
    name != [] && date.Some?
  }

  /** `INSERT INTO classmates (name, birthday)`: a new row with the next auto-increment id. */
  function InsertRow(t: Table, name: string, date: LocalDate): (t': Table)
    requires ValidTable(t)
    ensures ValidTable(t')
    ensures t.nextId !in Ids(t.rows)
    ensures |t'.rows| == |t.rows| + 1 && t'.rows[..|t.rows|] == t.rows
    ensures t'.rows[|t.rows|] == Birthday(t.nextId, name, date)
  {
    Table(t.rows + [Birthday(t.nextId, name, date)], t.nextId + 1)
  }

  /** `UPDATE classmates SET name = ?, birthday = ? WHERE id = ?`. */
  function UpdateRows(t: Table, id: int, name: string, date: LocalDate): (t': Table)
    requires ValidTable(t)
    ensures ValidTable(t')
    ensures Ids(t'.rows) == Ids(t.rows)
  {
    var rows := seq(|t.rows|, i requires 0 <= i < |t.rows| =>
      if t.rows[i].id == id then SetBirthday(SetName(t.rows[i], name), date) else t.rows[i]);
    assert forall i :: 0 <= i < |rows| ==> rows[i].id == t.rows[i].id;
    assert Ids(rows) == Ids(t.rows) by {
      forall x | x in Ids(t.rows) ensures x in Ids(rows) {
        var i :| 0 <= i < |t.rows| && t.rows[i].id == x;
        assert rows[i].id == x;
      }
    }
    Table(rows, t.nextId)
  }

  /** `DELETE FROM classmates WHERE id = ?`. */
  function DeleteRows(t: Table, id: int): (t': Table)
    requires ValidTable(t)
    ensures ValidTable(t')
    ensures Ids(t'.rows) == Ids(t.rows) - {id}
  {
    var rows := Filter(t.rows, (b: Birthday) => b.id != id);
    SubsequenceKeepsUniqueIds(rows, t.rows);
    FilterIds(t.rows, id);
    Table(rows, t.nextId)
  }

  /** Filtering out one id removes exactly that id from the set of ids. */
  lemma FilterIds(rows: seq<Birthday>, id: int)
    ensures Ids(Filter(rows, (b: Birthday) => b.id != id)) == Ids(rows) - {id}
  {
    var kept := Filter(rows, (b: Birthday) => b.id != id);
    forall x | x in Ids(rows) - {id}
      ensures x in Ids(kept)
    {
      var i :| 0 <= i < |rows| && rows[i].id == x;
      assert rows[i] in kept;
      var j :| 0 <= j < |kept| && kept[j] == rows[i];
    }
    forall x | x in Ids(kept)
      ensures x in Ids(rows) - {id}
    {
      var i :| 0 <= i < |kept| && kept[i].id == x;
      assert kept[i] in rows;
      var j :| 0 <= j < |rows| && rows[j] == kept[i];
    }
  }

  /** Dropping records keeps ids unique. */
  lemma {:induction false} SubsequenceKeepsUniqueIds(r: seq<Birthday>, s: seq<Birthday>)
    requires IsSubsequence(r, s)
    requires UniqueIds(s)
    ensures UniqueIds(r)
    ensures forall i :: 0 <= i < |r| ==> r[i] in s
    decreases |s|
  {
    if r != [] {
      if r[0] == s[0] && IsSubsequence(r[1..], s[1..]) {
        SubsequenceKeepsUniqueIds(r[1..], s[1..]);
        forall j | 0 < j < |r| ensures r[0].id != r[j].id {
          assert r[1..][j - 1] == r[j];
          var k :| 0 <= k < |s[1..]| && s[1..][k] == r[j];
          assert s[k + 1] == r[j];
        }
      } else {
        SubsequenceKeepsUniqueIds(r, s[1..]);
      }
    }
  }

  /** After a successful statement: reload and re-sort, or clear the list if the reload fails. */
  function Reload(c: Controller, t: Table, year: Year, store: Store): (r: (Controller, Feedback))
  {
    (Controller(t, LoadBirthdays(t, year, store.reloadOk), c.view), if store.reloadOk then Done else LoadError)
  }

  /** `handleAdd`. */
  function HandleAdd(c: Controller, name: string, date: Option<LocalDate>, year: Year, store: Store): (r: (Controller, Feedback))
    requires ValidTable(c.table)
    ensures ValidTable(r.0.table)
    ensures r.1 == Done ==> Sorted(r.0.list, year) && multiset(r.0.list) == multiset(r.0.table.rows)
  {
    if !InputValid(name, date) then (c, InputError)
    else if !store.statementOk then (c, StatementError)
    else Reload(c, InsertRow(c.table, name, date.value), year, store)
  }

  /** `handleUpdate`: rewrites the name and date of the selected record's row. */
  function HandleUpdate(c: Controller, selection: Option<Birthday>, name: string, date: Option<LocalDate>, year: Year, store: Store): (r: (Controller, Feedback))
    requires ValidTable(c.table)
    ensures ValidTable(r.0.table)
    ensures r.1 == Done ==> Sorted(r.0.list, year) && multiset(r.0.list) == multiset(r.0.table.rows)
  {
    if selection.None? then (c, NoSelection)
    else if !InputValid(name, date) then (c, InputError)
    else if !store.statementOk then (c, StatementError)
    else Reload(c, UpdateRows(c.table, selection.value.id, name, date.value), year, store)
  }

  /** `handleDelete`: removes the selected record's row once the user confirms. */
  function HandleDelete(c: Controller, selection: Option<Birthday>, confirmed: bool, year: Year, store: Store): (r: (Controller, Feedback))
    requires ValidTable(c.table)
    ensures ValidTable(r.0.table)
    ensures r.1 == Done ==> Sorted(r.0.list, year) && multiset(r.0.list) == multiset(r.0.table.rows)
  {
    if selection.None? then (c, NoSelection)
    else if !confirmed then (c, Declined)
    else if !store.statementOk then (c, StatementError)
    else Reload(c, DeleteRows(c.table, selection.value.id), year, store)
  }

  /** `handleSearch`: the table widget now shows the matching records of the current list. */
  function HandleSearch(c: Controller, query: string): (c': Controller)
    ensures c'.table == c.table && c'.list == c.list
    ensures IsSubsequence(Shown(c'), c.list)
    ensures forall b :: b in Shown(c') <==> b in c.list && Matches(b, Lower(query))
    ensures forall b :: Count(Shown(c'), b) == if Matches(b, Lower(query)) then Count(c.list, b) else 0
  {
    c.(view := Snapshot(Search(c.list, query)))
  }

  /** `initialize`: load the list, show it, and compute the reminder for today. A failed load
      shows the load-error dialog and leaves the list empty. */
  method Initialize(t: Table, today: LocalDate, reloadOk: bool) returns (c: Controller, alert: Option<string>, fb: Feedback)
    ensures reloadOk ==> Sorted(c.list, today.year) && multiset(c.list) == multiset(t.rows)
    ensures !reloadOk ==> c.list == [] && alert.None?
    ensures fb == Done <==> reloadOk
    ensures !reloadOk ==> fb == LoadError
    ensures Shown(c) == c.list
    ensures alert.Some? <==> exists b :: b in c.list && IsToday(b, today)
  {
    c := Controller(t, LoadBirthdays(t, today.year, reloadOk), LiveList);
    fb := if reloadOk then Done else LoadError;
    alert := CheckForTodayBirthdays(c.list, today);
  }

  /** The name is not trimmed: a name of blanks is stored as typed. */
  lemma BlankNameAccepted(c: Controller, date: LocalDate, year: Year, store: Store)
    requires ValidTable(c.table)
    requires store.statementOk
    ensures HandleAdd(c, " ", Some(date), year, store).0.table.rows
         == c.table.rows + [Birthday(c.table.nextId, " ", date)]
  {
  }

  /** `handleAdd` changes nothing when the name is empty or no date was picked (reporting an
      input error before the database is asked) or when the insert fails. */
  lemma AddGuards(c: Controller, name: string, date: Option<LocalDate>, year: Year, store: Store)
    requires ValidTable(c.table)
    ensures !InputValid(name, date) ==> HandleAdd(c, name, date, year, store) == (c, InputError)
    ensures InputValid(name, date) && !store.statementOk ==> HandleAdd(c, name, date, year, store) == (c, StatementError)
    ensures HandleAdd(c, name, date, year, store).0 != c ==> InputValid(name, date) && store.statementOk
  {
  }

  /** `handleUpdate` changes nothing without a selected row, with an empty name or no date
      (checked in that order), or when the update statement fails. */
  lemma UpdateGuards(c: Controller, selection: Option<Birthday>, name: string, date: Option<LocalDate>, year: Year, store: Store)
    requires ValidTable(c.table)
    ensures selection.None? ==> HandleUpdate(c, selection, name, date, year, store) == (c, NoSelection)
    ensures selection.Some? && !InputValid(name, date) ==> HandleUpdate(c, selection, name, date, year, store) == (c, InputError)
    ensures selection.Some? && InputValid(name, date) && !store.statementOk ==>
      HandleUpdate(c, selection, name, date, year, store) == (c, StatementError)
  {
  }

  /** `handleDelete` changes nothing without a selected row, when the user does not confirm, or
      when the delete statement fails. */
  lemma DeleteGuards(c: Controller, selection: Option<Birthday>, confirmed: bool, year: Year, store: Store)
    requires ValidTable(c.table)
    ensures selection.None? ==> HandleDelete(c, selection, confirmed, year, store) == (c, NoSelection)
    ensures selection.Some? && !confirmed ==> HandleDelete(c, selection, confirmed, year, store) == (c, Declined)
    ensures selection.Some? && confirmed && !store.statementOk ==>
      HandleDelete(c, selection, confirmed, year, store) == (c, StatementError)
  {
  }

  /** Once a statement has run, a failed reload leaves the list empty rather than as it was. */
  lemma FailedReloadClearsList(c: Controller, selected: Birthday, name: string, date: LocalDate, year: Year)
    requires ValidTable(c.table)
    requires name != []
    ensures HandleAdd(c, name, Some(date), year, Store(true, false)).1 == LoadError
    ensures HandleAdd(c, name, Some(date), year, Store(true, false)).0.list == []
    ensures HandleUpdate(c, Some(selected), name, Some(date), year, Store(true, false)).1 == LoadError
    ensures HandleUpdate(c, Some(selected), name, Some(date), year, Store(true, false)).0.list == []
    ensures HandleDelete(c, Some(selected), true, year, Store(true, false)).1 == LoadError
    ensures HandleDelete(c, Some(selected), true, year, Store(true, false)).0.list == []
  {
  }

  /** A record that is not in the rows of a table cannot clash with them. */
  lemma FreshRecordNotInRows(t: Table, b: Birthday)
    requires ValidTable(t)
    requires b.id == t.nextId
    ensures multiset(t.rows)[b] == 0
  {
  }

  /** A successful add appends exactly one new row, carrying the name as typed, the picked date
      and an id no other row has; after the reload the list holds that record exactly once and
      is in next-birthday order. */
  lemma AddStoresNewRecordOnce(c: Controller, name: string, date: LocalDate, year: Year, store: Store)
    requires ValidTable(c.table)
    requires name != [] && store.statementOk
    ensures var (c', fb) := HandleAdd(c, name, Some(date), year, store);
      var added := Birthday(c.table.nextId, name, date);
      && c'.table.rows == c.table.rows + [added]
      && added.id !in Ids(c.table.rows)
      && (store.reloadOk ==> fb == Done && Count(c'.list, added) == 1 && Sorted(c'.list, year))
      && (!store.reloadOk ==> fb == LoadError && c'.list == [])
  {
    var added := Birthday(c.table.nextId, name, date);
    FreshRecordNotInRows(c.table, added);
    assert multiset(c.table.rows + [added]) == multiset(c.table.rows) + multiset{added};
  }

  /** A successful update keeps every row's id and position, gives the rows with the selected id
      the new name and date, and leaves all other rows as they were. */
  lemma UpdateChangesOnlySelected(c: Controller, selected: Birthday, name: string, date: LocalDate, year: Year, store: Store)
    requires ValidTable(c.table)
    requires name != [] && store.statementOk
    ensures var rows, rows' := c.table.rows, HandleUpdate(c, Some(selected), name, Some(date), year, store).0.table.rows;
      && |rows'| == |rows|
      && (forall i :: 0 <= i < |rows| && rows[i].id == selected.id ==> rows'[i] == Birthday(selected.id, name, date))
      && (forall i :: 0 <= i < |rows| && rows[i].id != selected.id ==> rows'[i] == rows[i])
  {
  }

  /** Updating a record whose row is gone is not an error: the statement matches no row, the
      table stays as it was, and the list is reloaded, reporting success unless the reload fails. */
  lemma UpdateOfMissingIdIsSilent(c: Controller, selected: Birthday, name: string, date: LocalDate, year: Year, store: Store)
    requires ValidTable(c.table)
    requires name != [] && store.statementOk
    requires selected.id !in Ids(c.table.rows)
    ensures HandleUpdate(c, Some(selected), name, Some(date), year, store).0.table == c.table
    ensures store.reloadOk ==> HandleUpdate(c, Some(selected), name, Some(date), year, store).1 == Done
    ensures !store.reloadOk ==> HandleUpdate(c, Some(selected), name, Some(date), year, store).1 == LoadError
  {
    var rows' := UpdateRows(c.table, selected.id, name, date).rows;
    forall i | 0 <= i < |c.table.rows|
      ensures rows'[i] == c.table.rows[i]
    {
      assert c.table.rows[i].id in Ids(c.table.rows);
    }
  }

  /** Writing a row's own name and date back over it changes nothing. */
  lemma UpdateWithOwnValuesChangesNothing(t: Table, i: nat)
    requires ValidTable(t)
    requires i < |t.rows|
    ensures UpdateRows(t, t.rows[i].id, t.rows[i].name, t.rows[i].birthday) == t
  {
  }

  /** A second update of the same row overrides the first. */
  lemma UpdateTwiceIsUpdateOnce(t: Table, id: int, name: string, name': string, date: LocalDate, date': LocalDate)
    requires ValidTable(t)
    ensures UpdateRows(UpdateRows(t, id, name, date), id, name', date') == UpdateRows(t, id, name', date')
  {
  }

  /** A confirmed, successful delete removes the rows with the selected id and keeps every other
      row in its order. */
  lemma DeleteRemovesOnlySelected(c: Controller, selected: Birthday, year: Year, store: Store)
    requires ValidTable(c.table)
    requires store.statementOk
    ensures var rows, rows' := c.table.rows, HandleDelete(c, Some(selected), true, year, store).0.table.rows;
      && IsSubsequence(rows', rows)
      && selected.id !in Ids(rows')
      && (forall b :: b in rows && b.id != selected.id ==> b in rows')
  {
    var rows := c.table.rows;
    forall b | b in rows && b.id != selected.id
      ensures b in Filter(rows, (x: Birthday) => x.id != selected.id)
    {
      var i :| 0 <= i < |rows| && rows[i] == b;
    }
  }

  /** Deleting the record just added gives back the rows the table had before. */
  lemma {:induction false} DeleteUndoesAdd(c: Controller, name: string, date: LocalDate, year: Year, store: Store)
    requires ValidTable(c.table)
    requires name != [] && store.statementOk
    ensures var c' := HandleAdd(c, name, Some(date), year, store).0;
      var added := Birthday(c.table.nextId, name, date);
      HandleDelete(c', Some(added), true, year, store).0.table.rows == c.table.rows
  {
    var rows := c.table.rows;
    var added := Birthday(c.table.nextId, name, date);
    var p := (x: Birthday) => x.id != added.id;
    FilterAppend(rows, [added], p);
    FilterKeepsAll(rows, p);
    assert Filter([added], p) == [];
  }

  /** After a search the widget keeps showing the search result, even when a later add reloads
      the list: the snapshot is not refreshed. */
  lemma SearchResultIsASnapshot(c: Controller, query: string, name: string, date: LocalDate, year: Year, store: Store)
    requires ValidTable(c.table)
    ensures var c' := HandleSearch(c, query);
      Shown(HandleAdd(c', name, Some(date), year, store).0) == Shown(c')
  {
  }
}
