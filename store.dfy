/**
 * The database every request opens a session on: one table per record
 * kind, in storage order. Handlers receive it and change only the tables
 * their `modifies` clauses name.
 */
module Store {
  import opened Wrappers
  import opened Records

  /** SQLite's INTEGER range: a value outside it cannot be bound and raises OverflowError. */
  const MinInt64: int := -0x8000_0000_0000_0000
  const MaxInt64: int := 0x7FFF_FFFF_FFFF_FFFF

  predicate FitsInt64(x: int)
  {
    MinInt64 <= x <= MaxInt64
  }

  /** A nullable integer column value: `None` binds as NULL. */
  predicate FitsInt64OrNull(x: Option<int>)
  {
    x.None? || FitsInt64(x.value)
  }

  class Db {
    var rotas: seq<Rota>
    var shiftTypes: seq<ShiftType>
    var staff: seq<Staff>
    var entries: seq<RotaEntry>
    var timeOff: seq<TimeOff>
    var users: seq<User>

    /** The invariants the write handlers keep. */
    ghost predicate Valid()
      reads this
    {
      EntryKeysUnique(entries) && TimeOffTableValid(timeOff)
    }

    constructor Empty()
      ensures Valid()
      ensures rotas == [] && shiftTypes == [] && staff == [] && entries == [] && timeOff == [] && users == []
    {
      rotas, shiftTypes, staff := [], [], [];
      entries, timeOff, users := [], [], [];
    }
  }
}
