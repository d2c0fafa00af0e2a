/**
 * The home page of app/routers/dashboard.py: the active shift types, the
 * entries of the next seven days and who is on call today.
 */
module DashboardRouter {
  import opened Wrappers
  import opened Calendar
  import opened Records
  import opened Collections
  import Store

  /**
   * `next_7`: today and the six days after it, or `None` for the
   * OverflowError when they run past 9999-12-31.
   */
  function Next7(today: Date): (r: Option<seq<Date>>)
    ensures r.None? <==> !InRange(today) || today + 6 > MaxOrdinal
    ensures r.Some? ==> |r.value| == 7 && r.value[0] == today
    ensures r.Some? ==> forall x :: x in r.value <==> today <= x < today + 7
    ensures r.Some? ==> forall i :: 0 < i < 7 ==> r.value[i] == r.value[i - 1] + 1
  {
    if !InRange(today) || today + 6 > MaxOrdinal then None
    else
      var r := seq(7, i => today + i);
      assert forall x :: today <= x < today + 7 ==> x in r by {
        forall x | today <= x < today + 7 ensures x in r {
          assert r[x - today] == x;
        }
      }
      Some(r)
  }

  /** Active shift types of every rota, ordered by name. */
  function ActiveShiftTypes(table: seq<ShiftType>): (sts: seq<ShiftType>)
    ensures forall s :: s in sts <==> s in table && s.active
    ensures SortedBy(sts, ShiftTypeNameKey)
  {
    var rows := Filter(table, ShiftTypeIsActive);
    var sts := SortByKey(rows, ShiftTypeNameKey);
    assert forall x :: x in sts <==> x in multiset(sts);
    assert forall x :: x in rows <==> x in multiset(rows);
    sts
  }

  function DatedIn(days: seq<Date>): RotaEntry -> bool
  {
    (e: RotaEntry) => e.shiftDate in days
  }

  /**
   * `entry_map`: the entries of the coming week across all rotas, keyed by
   * (date, shift type id); each key maps to one of the entries that carry it.
   */
  function UpcomingEntryMap(table: seq<RotaEntry>, days: seq<Date>): (m: map<GridKey, RotaEntry>)
    ensures forall k :: k in m <==> exists e :: e in table && e.shiftDate in days && GridKeyOf(e) == k
    ensures forall k :: k in m ==> m[k] in table && GridKeyOf(m[k]) == k
  {
    var rows := Filter(table, DatedIn(days));
    var m := IndexBy(rows, GridKeyOf);
    assert forall k :: k in m ==> m[k] in rows by {
      forall k | k in m ensures m[k] in rows {
        var i :| LastWithKey(rows, GridKeyOf, k, i) && m[k] == rows[i];
      }
    }
    m
  }

  /** One row of "on call today". */
  datatype TodayItem = TodayItem(shiftType: ShiftType, entry: Option<RotaEntry>, staff: Option<Staff>)

  function HasStaffId(id: int): Staff -> bool
  {
    (s: Staff) => s.id == id
  }

  /** The row for shift type `st`: its entry today, and that entry's staff member when it names one. */
  function TodayItemFor(st: ShiftType, entryMap: map<GridKey, RotaEntry>, staffTable: seq<Staff>, today: Date): TodayItem
  {
    var e := if (today, st.id) in entryMap then Some(entryMap[(today, st.id)]) else None;
    var staff := if e.Some? && Truthy(e.value.staffId) then First(staffTable, HasStaffId(e.value.staffId.value)) else None;
    TodayItem(st, e, staff)
  }

  /**
   * A row shows today's entry of its shift type exactly when there is one,
   * and a staff member exactly when the entry names one the staff table
   * holds; that member has the entry's id (active or not).
   */
  lemma TodayItemMeaning(st: ShiftType, table: seq<RotaEntry>, staffTable: seq<Staff>, today: Date)
    requires Next7(today).Some?
    ensures var item := TodayItemFor(st, UpcomingEntryMap(table, Next7(today).value), staffTable, today);
      && item.shiftType == st
      && (item.entry.Some? <==> exists e :: e in table && e.shiftDate == today && e.shiftTypeId == st.id)
      && (item.entry.Some? ==> item.entry.value in table && item.entry.value.shiftDate == today && item.entry.value.shiftTypeId == st.id)
      && (item.staff.Some? <==>
            item.entry.Some? && Truthy(item.entry.value.staffId) &&
            exists s :: s in staffTable && s.id == item.entry.value.staffId.value)
      && (item.staff.Some? ==> item.staff.value in staffTable && item.staff.value.id == item.entry.value.staffId.value)
  {
    var days := Next7(today).value;
    var m := UpcomingEntryMap(table, days);
    assert today in days;
    var item := TodayItemFor(st, m, staffTable, today);
    if item.staff.Some? {
      var i :| 0 <= i < |staffTable| && staffTable[i] == item.staff.value && HasStaffId(item.entry.value.staffId.value)(staffTable[i]);
    }
  }

  /** The loop over the shift types that builds "on call today". */
  method TodayItems(shiftTypes: seq<ShiftType>, entryMap: map<GridKey, RotaEntry>, staffTable: seq<Staff>, today: Date)
    returns (items: seq<TodayItem>)
    ensures |items| == |shiftTypes|
    ensures forall i :: 0 <= i < |items| ==> items[i] == TodayItemFor(shiftTypes[i], entryMap, staffTable, today)
  {
    items := [];
    for i := 0 to |shiftTypes|
      invariant |items| == i
      invariant forall k :: 0 <= k < i ==> items[k] == TodayItemFor(shiftTypes[k], entryMap, staffTable, today)
    {
      var st := shiftTypes[i];
      var e: Option<RotaEntry> := None;
      if (today, st.id) in entryMap {
        e := Some(entryMap[(today, st.id)]);
      }
      var staff: Option<Staff> := None;
      if e.Some? && Truthy(e.value.staffId) {
        staff := First(staffTable, HasStaffId(e.value.staffId.value));
      }
      items := items + [TodayItem(st, e, staff)];
    }
  }

  /** The response of `dashboard`; `ServerError` is the OverflowError of `next_7`. */
  datatype DashboardPage =
    | LoginRedirect
    | ServerError
    | Home(today: Date, next7: seq<Date>, shiftTypes: seq<ShiftType>,
           entryMap: map<GridKey, RotaEntry>, todayItems: seq<TodayItem>)

  /** `dashboard`, for the user the session resolved to and today's date. */
  method Dashboard(db: Store.Db, user: Option<User>, today: Date) returns (r: DashboardPage)
    ensures user.None? <==> r == LoginRedirect
    ensures r == ServerError <==> user.Some? && Next7(today).None?
    ensures r.Home? <==> user.Some? && Next7(today).Some?
    ensures r.Home? ==>
      && r.today == today && r.next7 == Next7(today).value
      && r.shiftTypes == ActiveShiftTypes(db.shiftTypes)
      && r.entryMap == UpcomingEntryMap(db.entries, r.next7)
      && |r.todayItems| == |r.shiftTypes|
      && forall i :: 0 <= i < |r.todayItems| ==> r.todayItems[i] == TodayItemFor(r.shiftTypes[i], r.entryMap, db.staff, today)
  {
    if user.None? {
      return LoginRedirect;
    }
    if Next7(today).None? {
      return ServerError;
    }
    var next7 := Next7(today).value;
    var shiftTypes := ActiveShiftTypes(db.shiftTypes);
    var entryMap := UpcomingEntryMap(db.entries, next7);
    var todayItems := TodayItems(shiftTypes, entryMap, db.staff, today);
    r := Home(today, next7, shiftTypes, entryMap, todayItems);
  }
}
