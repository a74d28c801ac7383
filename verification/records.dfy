/** One row of the registry: a classmate's id, name and birthday. */
module Records {
  import opened Dates

  /** The `Birthday` class: the id the store assigned, the name as typed, the stored date. */
  datatype Birthday = Birthday(id: int, name: string, birthday: LocalDate)

  function SetId(b: Birthday, id: int): Birthday
  {
    b.(id := id)
  }

  function SetName(b: Birthday, name: string): Birthday
  {
    b.(name := name)
  }

  function SetBirthday(b: Birthday, date: LocalDate): Birthday
  {
    b.(birthday := date)
  }

  /** The constructor stores exactly its arguments, and each setter changes its own field,
      is read back by its getter, leaves the other two fields alone, and overrides an earlier
      call of the same setter. */
  lemma AccessorLaws(b: Birthday, id: int, id': int, name: string, name': string, date: LocalDate, date': LocalDate)
    ensures Birthday(id, name, date).id == id
    ensures Birthday(id, name, date).name == name
    ensures Birthday(id, name, date).birthday == date
    ensures SetId(b, id).id == id && SetId(b, id).name == b.name && SetId(b, id).birthday == b.birthday
    ensures SetName(b, name).name == name && SetName(b, name).id == b.id && SetName(b, name).birthday == b.birthday
    ensures SetBirthday(b, date).birthday == date && SetBirthday(b, date).id == b.id && SetBirthday(b, date).name == b.name
    ensures SetId(SetId(b, id), id') == SetId(b, id')
    ensures SetName(SetName(b, name), name') == SetName(b, name')
    ensures SetBirthday(SetBirthday(b, date), date') == SetBirthday(b, date')
    ensures SetId(b, b.id) == b && SetName(b, b.name) == b && SetBirthday(b, b.birthday) == b
  {
  }

  /** The ids of a sequence of records. */
  function Ids(rows: seq<Birthday>): set<int>
  {
    set i | 0 <= i < |rows| :: rows[i].id
  }

  /** No two records share an id. */
  predicate UniqueIds(rows: seq<Birthday>)
  {
    forall i, j :: 0 <= i < j < |rows| ==> rows[i].id != rows[j].id
  }
}
