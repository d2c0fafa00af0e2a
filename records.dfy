/**
 * The rows the application stores, as records. Fields follow what the
 * routers read and write; creation and update timestamps are left out.
 */
module Records {
  import opened Wrappers
  import opened Calendar
  import opened Lex

  datatype Rota = Rota(id: int, name: string, description: Option<string>, active: bool)

  /** `rotaId` is `None` for a shift type created without a rota (as the startup defaults are). */
  datatype ShiftType = ShiftType(id: int, rotaId: Option<int>, name: string, description: Option<string>, active: bool)

  datatype Staff = Staff(id: int, fullName: string, email: Option<string>, phone: Option<string>, team: Option<string>, active: bool)

  /** One cell of a rota's week grid; `staffId == None` is an explicitly cleared slot. */
  datatype RotaEntry = RotaEntry(rotaId: int, shiftDate: Date, shiftTypeId: int, staffId: Option<int>, notes: Option<string>)

  /** A staff member's inclusive interval of unavailability. */
  datatype TimeOff = TimeOff(id: int, staffId: int, startDate: Date, endDate: Date, reason: Option<string>)

  datatype User = User(id: int, email: string, passwordHash: string, role: string, active: bool,
                       staffId: Option<int>, favouriteRotas: Option<seq<int>>)

  const ADMIN := "Admin"
  const MANAGER := "Manager"
  /** The roles allowed to change rotas and time off. */
  const EDITORS: set<string> := {ADMIN, MANAGER}

  /** Python truthiness of an optional integer: `None` and `0` are false. */
  predicate Truthy(x: Option<int>)
  {
    x.Some? && x.value != 0
  }

  /** The key by which the routers look a rota entry up. */
  type EntryKey = (int, Date, int)

  function KeyOf(e: RotaEntry): EntryKey
  {
    (e.rotaId, e.shiftDate, e.shiftTypeId)
  }

  /** The key of a grid cell of the week and dashboard pages: (date, shift type id). */
  type GridKey = (Date, int)

  function GridKeyOf(e: RotaEntry): GridKey
  {
    (e.shiftDate, e.shiftTypeId)
  }

  /** At most one entry per (rota, date, shift type). */
  ghost predicate EntryKeysUnique(es: seq<RotaEntry>)
  {
    forall i, j :: 0 <= i < j < |es| ==> KeyOf(es[i]) != KeyOf(es[j])
  }

  /** Every interval is ordered and no two records share an id. */
  ghost predicate TimeOffTableValid(ts: seq<TimeOff>)
  {
    (forall i :: 0 <= i < |ts| ==> ts[i].startDate <= ts[i].endDate) &&
    (forall i, j :: 0 <= i < j < |ts| ==> ts[i].id != ts[j].id)
  }

  function ShiftTypeId(s: ShiftType): int { s.id }
  function StaffId(s: Staff): int { s.id }
  function TimeOffId(t: TimeOff): int { t.id }
  function UserId(u: User): int { u.id }

  function RotaIsActive(r: Rota): bool { r.active }
  function ShiftTypeIsActive(s: ShiftType): bool { s.active }
  function StaffIsActive(s: Staff): bool { s.active }

  /** Sort keys for `ORDER BY name ASC` (code-point order). */
  function RotaNameKey(r: Rota): seq<int> { Codes(r.name) }
  function ShiftTypeNameKey(s: ShiftType): seq<int> { Codes(s.name) }
  function StaffNameKey(s: Staff): seq<int> { Codes(s.fullName) }
}
