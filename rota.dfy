/**
 * The weekly rota engine of app/routers/rota.py: `rota_week`, which builds
 * the grid of one rota for one week together with the unavailable staff and
 * the conflicting cells, and `assign`, which fills or clears one cell.
 */
module RotaRouter {
  import opened Wrappers
  import opened Calendar
  import opened Lex
  import opened Text
  import opened Records
  import opened Collections
  import opened Auth
  import Store

  // ---- The week anchor ----

  /** The date the page is anchored on: the `week` parameter when it is given and parses, otherwise today. */
  function AnchorDate(week: Option<string>, parse: string -> Option<Date>, today: Date): (d: Date)
    ensures week.Some? && week.value != "" && parse(week.value).Some? ==> d == parse(week.value).value
    ensures week.None? || week.value == "" || parse(week.value).None? ==> d == today
  {
    if week.Some? && week.value != "" then
      match parse(week.value)
      case Some(x) => x
      case None => today
    else today
  }

  /** The days, week start and neighbouring week starts the page shows for anchor `d`. */
  datatype WeekNav = WeekNav(days: seq<Date>, weekStart: Date, prevWeek: Date, nextWeek: Date)

  /**
   * `week_dates(d)`, `start_of_week(d)` and the week starts seven days either
   * side, or `None` for the OverflowError one of these steps raises when it
   * leaves the calendar.
   */
  function Navigation(d: Date): (r: Option<WeekNav>)
    ensures r.None? <==>
      WeekDates(d).None? || !InRange(StartOfWeek(d) - 7) || !InRange(StartOfWeek(d) + 7)
    ensures r.Some? ==> r.value.days == WeekDates(d).value && r.value.weekStart == StartOfWeek(d)
  {
    var start := StartOfWeek(d);
    match WeekDates(d)
    case None => None
    case Some(days) =>
      if !InRange(start - 7) || !InRange(start + 7) then None
      else Some(WeekNav(days, start, start - 7, start + 7))
  }

  /**
   * The page covers the week of `d`, Monday first, and its two links lead
   * to the Mondays of the weeks before and after it.
   */
  lemma NavigationMeaning(d: Date)
    requires Navigation(d).Some?
    ensures var n := Navigation(d).value;
      && |n.days| == 7 && n.days[0] == n.weekStart && n.days[6] == n.weekStart + 6 && d in n.days
      && (forall x :: x in n.days <==> n.weekStart <= x <= n.weekStart + 6)
      && Weekday(n.weekStart) == 0 && n.weekStart <= d < n.weekStart + 7
      && n.prevWeek == StartOfWeek(d - 7) && n.nextWeek == StartOfWeek(d + 7)
      && Weekday(n.prevWeek) == 0 && Weekday(n.nextWeek) == 0
  {
    StartOfWeekShift(d, -1);
    StartOfWeekShift(d, 1);
  }

  /**
   * For a representable anchor the page can be built except in the first
   * week of the calendar (0001-01-01..07, where the previous week does not
   * exist) and from 9999-12-27 on (where the week itself runs off the end).
   */
  lemma NavigationOverflow(d: Date)
    requires InRange(d)
    ensures Navigation(d).None? <==> d < 8 || d >= LastMonday
  {
    var m := StartOfWeek(d);
    WeekDatesOverflow(d);
    var q := (m - 1) / 7;
    assert m == 7 * q + 1;
    assert m - 7 < 1 <==> d < 8;
    assert m + 7 > MaxOrdinal <==> q >= 521722;
    assert d >= LastMonday <==> q >= 521722;
  }

  // ---- Rota selection ----

  /** `Rota.active == True` ordered by name. */
  function ActiveRotas(table: seq<Rota>): (rs: seq<Rota>)
    ensures forall r :: r in rs <==> r in table && r.active
    ensures SortedBy(rs, RotaNameKey)
  {
    var rows := Filter(table, RotaIsActive);
    var rs := SortByKey(rows, RotaNameKey);
    assert forall x :: x in rs <==> x in multiset(rs);
    assert forall x :: x in rows <==> x in multiset(rows);
    rs
  }

  predicate HasRotaId(rotas: seq<Rota>, id: int)
  {
    exists r :: r in rotas && r.id == id
  }

  /** The current rota: the one asked for when its id is truthy and active, otherwise the first listed. */
  function SelectRota(rotas: seq<Rota>, rotaId: Option<int>): (r: Option<Rota>)
    ensures r.None? <==> rotas == []
    ensures r.Some? ==> r.value in rotas
    ensures r.Some? && Truthy(rotaId) && HasRotaId(rotas, rotaId.value) ==> r.value.id == rotaId.value
    ensures r.Some? && !(Truthy(rotaId) && HasRotaId(rotas, rotaId.value)) ==> r.value == rotas[0]
  {
    if rotas == [] then None
    else
      var asked := if Truthy(rotaId) then First(rotas, (x: Rota) => x.id == rotaId.value) else None;
      if asked.None? then Some(rotas[0]) else asked
  }

  /**
   * Among the rota table, the chosen rota is an active one; unless an active
   * rota with the requested id exists, it is one whose name comes first.
   */
  lemma SelectedRota(table: seq<Rota>, rotaId: Option<int>)
    requires exists r :: r in table && r.active
    ensures var c := SelectRota(ActiveRotas(table), rotaId);
      && c.Some? && c.value in table && c.value.active
      && (Truthy(rotaId) && HasRotaId(ActiveRotas(table), rotaId.value) ==> c.value.id == rotaId.value)
      && (!(Truthy(rotaId) && HasRotaId(ActiveRotas(table), rotaId.value)) ==>
            forall x :: x in table && x.active ==> StrLe(c.value.name, x.name))
  {
    var rs := ActiveRotas(table);
    var r :| r in table && r.active;
    assert r in rs;
    var c := SelectRota(rs, rotaId);
    if !(Truthy(rotaId) && HasRotaId(rs, rotaId.value)) {
      forall x | x in table && x.active ensures StrLe(c.value.name, x.name) {
        assert x in Filter(table, RotaIsActive);
        SortByKeyFirstIsLeast(Filter(table, RotaIsActive), RotaNameKey, x);
      }
    }
  }

  /** With active rotas "Beta" and "Alpha" and no rota asked for, "Alpha" is shown. */
  lemma DefaultRotaExample()
    ensures var table := [Rota(1, "Beta", None, true), Rota(2, "Alpha", None, true)];
      SelectRota(ActiveRotas(table), None).value.name == "Alpha"
  {
    var table := [Rota(1, "Beta", None, true), Rota(2, "Alpha", None, true)];
    SelectedRota(table, None);
    var c := SelectRota(ActiveRotas(table), None).value;
    assert c in table;
    assert StrLe(c.name, "Alpha") by {
      assert Rota(2, "Alpha", None, true) in table;
    }
  }

  // ---- Shift types and staff ----

  function ShiftTypeOfRota(rotaId: int): ShiftType -> bool
  {
    (s: ShiftType) => s.active && s.rotaId == Some(rotaId)
  }

  /** Active shift types of the rota, ordered by name. */
  function RotaShiftTypes(table: seq<ShiftType>, rota: Rota): (sts: seq<ShiftType>)
    ensures forall s :: s in sts <==> s in table && s.active && s.rotaId == Some(rota.id)
    ensures SortedBy(sts, ShiftTypeNameKey)
  {
    var rows := Filter(table, ShiftTypeOfRota(rota.id));
    var sts := SortByKey(rows, ShiftTypeNameKey);
    assert forall x :: x in sts <==> x in multiset(sts);
    assert forall x :: x in rows <==> x in multiset(rows);
    sts
  }

  /** Active staff ordered by full name. */
  function ActiveStaff(table: seq<Staff>): (ss: seq<Staff>)
    ensures forall s :: s in ss <==> s in table && s.active
    ensures SortedBy(ss, StaffNameKey)
  {
    var rows := Filter(table, StaffIsActive);
    var ss := SortByKey(rows, StaffNameKey);
    assert forall x :: x in ss <==> x in multiset(ss);
    assert forall x :: x in rows <==> x in multiset(rows);
    ss
  }

  // ---- The entry map ----

  function InRotaWeek(rotaId: int, days: seq<Date>): RotaEntry -> bool
  {
    (e: RotaEntry) => e.rotaId == rotaId && e.shiftDate in days
  }

  /**
   * `entry_map`: the rota's entries dated on one of `days`, keyed by
   * (date, shift type id); each key maps to one of the entries that carry it.
   */
  function WeekEntryMap(table: seq<RotaEntry>, rotaId: int, days: seq<Date>): (m: map<GridKey, RotaEntry>)
    ensures forall k :: k in m <==> exists e :: e in table && e.rotaId == rotaId && e.shiftDate in days && GridKeyOf(e) == k
    ensures forall k :: k in m ==> m[k] in table && m[k].rotaId == rotaId && m[k].shiftDate in days && GridKeyOf(m[k]) == k
  {
    var rows := Filter(table, InRotaWeek(rotaId, days));
    var m := IndexBy(rows, GridKeyOf);
    assert forall k :: k in m ==> m[k] in rows by {
      forall k | k in m ensures m[k] in rows {
        var i :| LastWithKey(rows, GridKeyOf, k, i) && m[k] == rows[i];
      }
    }
    m
  }

  /**
   * In a store with one entry per (rota, date, shift type), every entry of
   * the rota in the week is the one shown in its cell. A cleared entry
   * (no staff) is present in the map; a cell never assigned is absent.
   */
  lemma WeekEntryMapExact(table: seq<RotaEntry>, rotaId: int, days: seq<Date>, e: RotaEntry)
    requires EntryKeysUnique(table)
    requires e in table && e.rotaId == rotaId && e.shiftDate in days
    ensures GridKeyOf(e) in WeekEntryMap(table, rotaId, days)
    ensures WeekEntryMap(table, rotaId, days)[GridKeyOf(e)] == e
  {
    var m := WeekEntryMap(table, rotaId, days);
    var f := m[GridKeyOf(e)];
  }

  // ---- Unavailability ----

  /** The time-off query: records overlapping the week `[ws, we]`. */
  predicate OverlapsWeek(ws: Date, we: Date, t: TimeOff)
  {
    t.startDate <= we && t.endDate >= ws
  }

  function Overlapping(ws: Date, we: Date): TimeOff -> bool
  {
    (t: TimeOff) => OverlapsWeek(ws, we, t)
  }

  /** Some record of `items` puts staff member `p.0` off on day `p.1`. */
  ghost predicate OffOn(items: seq<TimeOff>, p: (int, Date))
  {
    exists t :: t in items && t.staffId == p.0 && t.startDate <= p.1 <= t.endDate
  }

  /** Staff member `p.0` is off on day `p.1`, a day of the week `[ws, we]`. */
  ghost predicate Unavailable(items: seq<TimeOff>, ws: Date, we: Date, p: (int, Date))
  {
    ws <= p.1 <= we && OffOn(items, p)
  }

  /**
   * The walk of `rota_week` reaches the last representable day: some record
   * is walked (start not after end) up to 9999-12-31, and the step after it
   * raises OverflowError.
   */
  ghost predicate WalkOverflows(items: seq<TimeOff>)
  {
    exists t :: t in items && t.startDate <= t.endDate && MaxOrdinal <= t.endDate
  }

  /**
   * The date walk of `rota_week` as written: every day of every record, from
   * its start to its end, kept when it falls in the week; `None` for the
   * OverflowError of a step past 9999-12-31.
   */
  method ExpandTimeOff(items: seq<TimeOff>, ws: Date, we: Date) returns (u: Option<set<(int, Date)>>)
    ensures u.None? <==> WalkOverflows(items)
    ensures u.Some? ==> forall p :: p in u.value <==> Unavailable(items, ws, we, p)
  {
    var acc := {};
    for i := 0 to |items|
      invariant !WalkOverflows(items[..i])
      invariant forall p :: p in acc <==> Unavailable(items[..i], ws, we, p)
    {
      var t := items[i];
      assert items[..i + 1] == items[..i] + [t];
      var cur := t.startDate;
      while cur <= t.endDate
        invariant t.startDate <= cur && (cur <= t.endDate + 1 || cur == t.startDate)
        invariant cur == t.startDate || cur <= MaxOrdinal
        invariant forall p :: p in acc <==>
          Unavailable(items[..i], ws, we, p) || (p.0 == t.staffId && ws <= p.1 <= we && t.startDate <= p.1 < cur)
        decreases t.endDate - cur
      {
        if ws <= cur <= we {
          acc := acc + {(t.staffId, cur)};
        }
        if cur + 1 > MaxOrdinal {
          assert items[i] in items;
          return None;
        }
        cur := cur + 1;
      }
    }
    assert items[..|items|] == items;
    return Some(acc);
  }

  /** The page anchored on Monday 2024-06-03 (ordinal 739040). */
  lemma JuneWeek()
    ensures Navigation(739040) ==
      Some(WeekNav([739040, 739041, 739042, 739043, 739044, 739045, 739046], 739040, 739033, 739047))
  {
    assert Weekday(739040) == 0;
    var days := WeekDates(739040).value;
    assert days == [739040, 739041, 739042, 739043, 739044, 739045, 739046];
  }

  /**
   * A leave booked up to 9999-12-31 that overlaps the week of 2024-06-03:
   * the query keeps it and the walk overflows, although the week itself is
   * far from the calendar's end and the staff member is off on its Monday.
   */
  lemma OpenEndedLeaveOverflows()
    ensures var items := [TimeOff(1, 10, 739038, MaxOrdinal, None)];
      && Navigation(739040).Some? && Navigation(739040).value.weekStart == 739040
      && Filter(items, Overlapping(739040, 739046)) == items
      && WalkOverflows(Filter(items, Overlapping(739040, 739046)))
      && Unavailable(items, 739040, 739046, (10, 739040))
  {
    var items := [TimeOff(1, 10, 739038, MaxOrdinal, None)];
    JuneWeek();
    assert items[0] in items;
  }

  /**
   * The walk as intended: the week's days of every record, visiting only the
   * shown `days`, so no step can leave the calendar.
   */
  method ExpandTimeOffInWeek(items: seq<TimeOff>, days: seq<Date>) returns (u: set<(int, Date)>)
    ensures forall p :: p in u <==> p.1 in days && OffOn(items, p)
  {
    u := {};
    for i := 0 to |items|
      invariant forall p :: p in u <==> p.1 in days && OffOn(items[..i], p)
    {
      var t := items[i];
      assert items[..i + 1] == items[..i] + [t];
      for j := 0 to |days|
        invariant forall p :: p in u <==> (p.1 in days &&
          (OffOn(items[..i], p) || (p.0 == t.staffId && p.1 in days[..j] && t.startDate <= p.1 <= t.endDate)))
      {
        assert days[..j + 1] == days[..j] + [days[j]];
        if t.startDate <= days[j] <= t.endDate {
          u := u + {(t.staffId, days[j])};
        }
      }
      assert days[..|days|] == days;
    }
    assert items[..|items|] == items;
  }

  /** The records the query leaves out contribute nothing, so filtering first changes nothing. */
  lemma OverlapQueryComplete(items: seq<TimeOff>, ws: Date, we: Date, p: (int, Date))
    ensures Unavailable(Filter(items, Overlapping(ws, we)), ws, we, p) <==> Unavailable(items, ws, we, p)
  {
    if Unavailable(items, ws, we, p) {
      var t :| t in items && t.staffId == p.0 && t.startDate <= p.1 <= t.endDate;
      assert t in Filter(items, Overlapping(ws, we));
    }
  }

  /** A one-day record inside the week marks exactly one (staff, day) pair. */
  lemma OneDayTimeOff(t: TimeOff, ws: Date, we: Date, p: (int, Date))
    requires t.startDate == t.endDate && ws <= t.startDate <= we
    ensures Unavailable([t], ws, we, p) <==> p == (t.staffId, t.startDate)
  {
    if p == (t.staffId, t.startDate) {
      assert t in [t];
    }
  }

  /** Walking the queried records over the week's days finds exactly the unavailable pairs of the week. */
  lemma WeekWalkComplete(timeOff: seq<TimeOff>, days: seq<Date>, ws: Date, u: set<(int, Date)>)
    requires forall x :: x in days <==> ws <= x <= ws + 6
    requires forall p :: p in u <==> p.1 in days && OffOn(Filter(timeOff, Overlapping(ws, ws + 6)), p)
    ensures forall p :: p in u <==> Unavailable(timeOff, ws, ws + 6, p)
  {
    forall p ensures p in u <==> Unavailable(timeOff, ws, ws + 6, p) {
      OverlapQueryComplete(timeOff, ws, ws + 6, p);
    }
  }

  // ---- Conflicts ----

  /** A cell conflicts when its entry names a staff member (a truthy id) who is off that day. */
  predicate IsConflict(e: RotaEntry, day: Date, unavailable: set<(int, Date)>)
  {
    Truthy(e.staffId) && (e.staffId.value, day) in unavailable
  }

  /** The loop over `entry_map` that collects the conflicting cells. */
  method FindConflicts(entryMap: map<GridKey, RotaEntry>, unavailable: set<(int, Date)>) returns (c: set<GridKey>)
    ensures c <= entryMap.Keys
    ensures forall k :: k in c <==> k in entryMap && IsConflict(entryMap[k], k.0, unavailable)
  {
    c := {};
    var todo := entryMap.Keys;
    while todo != {}
      invariant todo <= entryMap.Keys
      invariant forall k :: k in c <==> k in entryMap && k !in todo && IsConflict(entryMap[k], k.0, unavailable)
      decreases |todo|
    {
      var k :| k in todo;
      var e := entryMap[k];
      if Truthy(e.staffId) && (e.staffId.value, k.0) in unavailable {
        c := c + {k};
      }
      todo := todo - {k};
    }
  }

  /**
   * The worked example: Alice (staff 10) is on shift type 1 of rota 1 on
   * Monday 2024-06-03 (ordinal 739040) and off 2024-06-01..2024-06-05; the
   * cell is in the grid with her id and conflicts, while another staff
   * member on that day would not.
   */
  lemma AliceExample(other: int)
    requires other != 10
    ensures var entries := [RotaEntry(1, 739040, 1, Some(10), None)];
      var timeOff := [TimeOff(1, 10, 739038, 739042, None)];
      && Navigation(739040).Some?
      && var nav := Navigation(739040).value;
      var m := WeekEntryMap(entries, 1, nav.days);
      && (739040, 1) in m && m[(739040, 1)].staffId == Some(10)
      && Unavailable(timeOff, nav.weekStart, nav.weekStart + 6, (10, 739040))
      && !Unavailable(timeOff, nav.weekStart, nav.weekStart + 6, (other, 739040))
  {
    var entries := [RotaEntry(1, 739040, 1, Some(10), None)];
    var timeOff := [TimeOff(1, 10, 739038, 739042, None)];
    JuneWeek();
    var nav := Navigation(739040).value;
    assert 739040 in nav.days;
    assert entries[0] in entries;
    WeekEntryMapExact(entries, 1, nav.days, entries[0]);
    assert timeOff[0] in timeOff;
  }

  // ---- The week page ----

  datatype WeekView = WeekView(
    canEdit: bool, days: seq<Date>, today: Date, weekStart: Date, prevWeek: Date, nextWeek: Date,
    rotas: seq<Rota>, currentRota: Rota, shiftTypes: seq<ShiftType>, staff: seq<Staff>,
    entryMap: map<GridKey, RotaEntry>, unavailable: set<(int, Date)>, conflicts: set<GridKey>)

  /** The response of `rota_week`; `ServerError` is the OverflowError of the week arithmetic. */
  datatype WeekPage = LoginRedirect | ServerError | HomeRedirect | Week(view: WeekView)

  /** The page's contents for one week, read from the store. */
  ghost predicate IsWeekView(v: WeekView, db: Store.Db, user: Option<User>, nav: WeekNav, rotaId: Option<int>, today: Date)
    reads db
  {
    && v.canEdit == RequireRole(user, EDITORS)
    && v.days == nav.days && v.weekStart == nav.weekStart
    && v.prevWeek == nav.prevWeek && v.nextWeek == nav.nextWeek && v.today == today
    && v.rotas == ActiveRotas(db.rotas) && SelectRota(v.rotas, rotaId) == Some(v.currentRota)
    && v.shiftTypes == RotaShiftTypes(db.shiftTypes, v.currentRota)
    && v.staff == ActiveStaff(db.staff)
    && v.entryMap == WeekEntryMap(db.entries, v.currentRota.id, v.days)
    && (forall p :: p in v.unavailable <==> Unavailable(db.timeOff, v.weekStart, v.weekStart + 6, p))
    && (forall k :: k in v.conflicts <==> k in v.entryMap && IsConflict(v.entryMap[k], k.0, v.unavailable))
  }

  /** The queries and loops of `rota_week` once the week and its links are known. */
  method BuildWeekView(db: Store.Db, user: Option<User>, d: Date, rotaId: Option<int>, today: Date)
    returns (v: WeekView)
    requires Navigation(d).Some? && ActiveRotas(db.rotas) != []
    ensures IsWeekView(v, db, user, Navigation(d).value, rotaId, today)
  {
    var nav := Navigation(d).value;
    NavigationMeaning(d);
    var rotas := ActiveRotas(db.rotas);
    var current := SelectRota(rotas, rotaId).value;
    var shiftTypes := RotaShiftTypes(db.shiftTypes, current);
    var staff := ActiveStaff(db.staff);
    var entryMap := WeekEntryMap(db.entries, current.id, nav.days);
    var weekStartDay, weekEndDay := nav.days[0], nav.days[6];
    var items := Filter(db.timeOff, Overlapping(weekStartDay, weekEndDay));
    var unavailable := ExpandTimeOffInWeek(items, nav.days);
    WeekWalkComplete(db.timeOff, nav.days, nav.weekStart, unavailable);
    var conflicts := FindConflicts(entryMap, unavailable);
    v := WeekView(RequireRole(user, EDITORS), nav.days, today, nav.weekStart, nav.prevWeek, nav.nextWeek,
                  rotas, current, shiftTypes, staff, entryMap, unavailable, conflicts);
    assert v.canEdit == RequireRole(user, EDITORS);
    assert v.days == nav.days && v.weekStart == nav.weekStart;
    assert v.prevWeek == nav.prevWeek && v.nextWeek == nav.nextWeek && v.today == today;
    assert v.rotas == ActiveRotas(db.rotas) && SelectRota(v.rotas, rotaId) == Some(v.currentRota);
    assert v.shiftTypes == RotaShiftTypes(db.shiftTypes, v.currentRota);
    assert v.staff == ActiveStaff(db.staff);
    assert v.entryMap == WeekEntryMap(db.entries, v.currentRota.id, v.days);
    assert (forall p :: p in v.unavailable <==> Unavailable(db.timeOff, v.weekStart, v.weekStart + 6, p));
    assert (forall k :: k in v.conflicts <==> k in v.entryMap && IsConflict(v.entryMap[k], k.0, v.unavailable));
  }

  /**
   * `rota_week`, for the user the session resolved to, the `week` and
   * `rota_id` query values, the date parser and today's date. The time off
   * is walked as intended (`ExpandTimeOffInWeek`), not with the overflowing
   * walk of the source.
   */
  method RotaWeek(db: Store.Db, user: Option<User>, week: Option<string>, rotaId: Option<int>,
                  parse: string -> Option<Date>, today: Date) returns (r: WeekPage)
    ensures r == LoginRedirect <==> user.None?
    ensures r == ServerError <==> user.Some? && Navigation(AnchorDate(week, parse, today)).None?
    ensures r == HomeRedirect <==>
      user.Some? && Navigation(AnchorDate(week, parse, today)).Some? && ActiveRotas(db.rotas) == []
    ensures r.Week? <==>
      user.Some? && Navigation(AnchorDate(week, parse, today)).Some? && ActiveRotas(db.rotas) != []
    ensures r.Week? ==>
      IsWeekView(r.view, db, user, Navigation(AnchorDate(week, parse, today)).value, rotaId, today)
  {
    if user.None? {
      return LoginRedirect;
    }
    var d := AnchorDate(week, parse, today);
    if Navigation(d).None? {
      return ServerError;
    }
    if ActiveRotas(db.rotas) == [] {
      return HomeRedirect;
    }
    var v := BuildWeekView(db, user, d, rotaId, today);
    r := Week(v);
  }

  // ---- The single-slot upsert ----

  /** `int(staff_id) if staff_id.strip() else None`. */
  function StaffIdValue(staffId: string): (r: Result<Option<int>>)
    ensures AllSpace(staffId) ==> r == Ok(None)
    ensures !AllSpace(staffId) ==> (r.Ok? <==> ParseInt(staffId).Some?)
    ensures !AllSpace(staffId) && r.Ok? ==> r.value == ParseInt(staffId)
  {
    if StripOrNone(staffId).None? then Ok(None)
    else
      match ParseInt(staffId)
      case None => ValueError
      case Some(n) => Ok(Some(n))
  }

  /** A staff id of a file separator and `5` is not blank, and `int` refuses it. */
  lemma StaffIdSeparatorRejected()
    ensures StaffIdValue([28 as char, '5']) == ValueError
  {
    SeparatorIsNotIntSpace();
  }

  function HasKey(key: EntryKey): RotaEntry -> bool
  {
    (e: RotaEntry) => KeyOf(e) == key
  }

  /** The entry table after `assign` writes `staffId` and `notes` into the cell `key`. */
  function Upsert(es: seq<RotaEntry>, key: EntryKey, staffId: Option<int>, notes: Option<string>): seq<RotaEntry>
  {
    match FindIndex(es, HasKey(key))
    case Some(i) => es[i := es[i].(staffId := staffId, notes := notes)]
    case None => es + [RotaEntry(key.0, key.1, key.2, staffId, notes)]
  }

  ghost predicate AtMostOne(es: seq<RotaEntry>, key: EntryKey)
  {
    forall i, j :: 0 <= i < |es| && 0 <= j < |es| && KeyOf(es[i]) == key && KeyOf(es[j]) == key ==> i == j
  }

  /** Exactly one entry has the key, and it holds the given staff and notes. */
  ghost predicate OnlyEntry(es: seq<RotaEntry>, key: EntryKey, staffId: Option<int>, notes: Option<string>)
  {
    exists i :: 0 <= i < |es| && KeyOf(es[i]) == key && es[i].staffId == staffId && es[i].notes == notes &&
      forall j :: 0 <= j < |es| && j != i ==> KeyOf(es[j]) != key
  }

  /**
   * Upsert: from at most one entry for the key there is exactly one, holding
   * the new values; every entry for another key keeps its place and its value.
   */
  lemma UpsertSlot(es: seq<RotaEntry>, key: EntryKey, staffId: Option<int>, notes: Option<string>)
    requires AtMostOne(es, key)
    ensures var r := Upsert(es, key, staffId, notes);
      && OnlyEntry(r, key, staffId, notes)
      && |es| <= |r| <= |es| + 1
      && (forall j :: 0 <= j < |es| && KeyOf(es[j]) != key ==> r[j] == es[j])
      && (|r| == |es| + 1 <==> forall j :: 0 <= j < |es| ==> KeyOf(es[j]) != key)
  {
    var r := Upsert(es, key, staffId, notes);
    match FindIndex(es, HasKey(key))
    case Some(i) =>
      assert KeyOf(r[i]) == key;
    case None =>
      assert KeyOf(r[|es|]) == key;
  }

  lemma UpsertKeepsKeysUnique(es: seq<RotaEntry>, key: EntryKey, staffId: Option<int>, notes: Option<string>)
    requires EntryKeysUnique(es)
    ensures EntryKeysUnique(Upsert(es, key, staffId, notes))
  {
    var r := Upsert(es, key, staffId, notes);
    match FindIndex(es, HasKey(key))
    case Some(i) =>
      assert forall j :: 0 <= j < |r| ==> KeyOf(r[j]) == KeyOf(es[j]);
    case None =>
      assert forall j :: 0 <= j < |es| ==> r[j] == es[j];
  }

  /** Assigning the same values to the same cell twice leaves the table as once. */
  lemma UpsertIdempotent(es: seq<RotaEntry>, key: EntryKey, staffId: Option<int>, notes: Option<string>)
    ensures Upsert(Upsert(es, key, staffId, notes), key, staffId, notes) == Upsert(es, key, staffId, notes)
  {
    var r := Upsert(es, key, staffId, notes);
    match FindIndex(es, HasKey(key))
    case Some(i) =>
      assert forall j :: 0 <= j < i ==> r[j] == es[j];
      assert HasKey(key)(r[i]);
      FindIndexIs(r, HasKey(key), i);
    case None =>
      assert forall j :: 0 <= j < |es| ==> r[j] == es[j];
      assert HasKey(key)(r[|es|]);
      FindIndexIs(r, HasKey(key), |es|);
  }

  /** A series of assignments to one cell, each with its staff and notes. */
  function UpsertAll(es: seq<RotaEntry>, key: EntryKey, calls: seq<(Option<int>, Option<string>)>): seq<RotaEntry>
    decreases |calls|
  {
    if calls == [] then es
    else UpsertAll(Upsert(es, key, calls[0].0, calls[0].1), key, calls[1..])
  }

  lemma OnlyEntryAtMostOne(es: seq<RotaEntry>, key: EntryKey, staffId: Option<int>, notes: Option<string>)
    requires OnlyEntry(es, key, staffId, notes)
    ensures AtMostOne(es, key)
  {
    var i :| 0 <= i < |es| && KeyOf(es[i]) == key && es[i].staffId == staffId && es[i].notes == notes &&
      forall j :: 0 <= j < |es| && j != i ==> KeyOf(es[j]) != key;
  }

  /** After any non-empty series of assignments to a cell, one entry holds it, with the last values. */
  lemma {:induction false} UpsertAllLeavesOne(es: seq<RotaEntry>, key: EntryKey, calls: seq<(Option<int>, Option<string>)>)
    requires AtMostOne(es, key) && |calls| > 0
    ensures OnlyEntry(UpsertAll(es, key, calls), key, calls[|calls| - 1].0, calls[|calls| - 1].1)
    decreases |calls|
  {
    var next := Upsert(es, key, calls[0].0, calls[0].1);
    UpsertSlot(es, key, calls[0].0, calls[0].1);
    assert UpsertAll(es, key, calls) == UpsertAll(next, key, calls[1..]);
    if |calls| == 1 {
      assert calls[1..] == [];
    } else {
      OnlyEntryAtMostOne(next, key, calls[0].0, calls[0].1);
      UpsertAllLeavesOne(next, key, calls[1..]);
      assert calls[1..][|calls[1..]| - 1] == calls[|calls| - 1];
    }
  }

  /** The ids `assign` binds fit SQLite's INTEGER: the cell's rota and shift type, and the staff id unless it is NULL. */
  predicate AssignIdsFit(rotaId: int, shiftTypeId: int, staffIdVal: Option<int>)
  {
    Store.FitsInt64(rotaId) && Store.FitsInt64(shiftTypeId) && Store.FitsInt64OrNull(staffIdVal)
  }

  /**
   * A staff id of plain digits worth more than SQLite's largest integer,
   * such as `Text.TwoToSixtyThree`'s `"9223372036854775808"`: `int` reads
   * it, but it cannot be stored, so `assign` fails.
   */
  lemma OversizedStaffIdRejected(staffId: string, rotaId: int, shiftTypeId: int)
    requires AllDigits(staffId) && 0 < |staffId| <= MaxStrDigits && DecimalValue(staffId) > Store.MaxInt64
    ensures StaffIdValue(staffId) == Ok(Some(DecimalValue(staffId)))
    ensures !AssignIdsFit(rotaId, shiftTypeId, StaffIdValue(staffId).value)
  {
    assert !IsSpace(staffId[0]);
  }

  datatype AssignPage = AssignLoginRedirect | AssignRotaRedirect | AssignWeekRedirect(rotaId: int, weekStart: Date) | AssignError

  /**
   * `assign`: for an Admin or Manager, write the normalised staff id and
   * notes into the cell (rota, date, shift type), adding the entry if it is
   * missing. A date or staff id that does not parse raises before anything
   * is written, and so does an id outside SQLite's 64-bit range: the rota
   * and shift type ids when the cell is looked up, the staff id at the
   * commit.
   */
  method Assign(db: Store.Db, user: Option<User>, rotaId: int, shiftDate: string, shiftTypeId: int,
                staffId: string, notes: string, parse: string -> Option<Date>) returns (r: AssignPage)
    requires db.Valid()
    modifies db`entries
    ensures db.Valid()
    ensures user.None? ==> r == AssignLoginRedirect
    ensures user.Some? && !RequireRole(user, EDITORS) ==> r == AssignRotaRedirect
    ensures RequireRole(user, EDITORS) && (parse(shiftDate).None? || StaffIdValue(staffId).ValueError?) ==> r == AssignError
    ensures (RequireRole(user, EDITORS) && parse(shiftDate).Some? && StaffIdValue(staffId).Ok? &&
             !AssignIdsFit(rotaId, shiftTypeId, StaffIdValue(staffId).value)) ==> r == AssignError
    ensures r.AssignWeekRedirect? <==>
      (RequireRole(user, EDITORS) && parse(shiftDate).Some? && StaffIdValue(staffId).Ok? &&
       AssignIdsFit(rotaId, shiftTypeId, StaffIdValue(staffId).value))
    ensures !r.AssignWeekRedirect? ==> db.entries == old(db.entries)
    ensures r.AssignWeekRedirect? ==>
      var d := parse(shiftDate).value;
      && r == AssignWeekRedirect(rotaId, StartOfWeek(d))
      && db.entries == Upsert(old(db.entries), (rotaId, d, shiftTypeId), StaffIdValue(staffId).value, StripOrNone(notes))
  {
    if user.None? {
      return AssignLoginRedirect;
    }
    if !RequireRole(user, EDITORS) {
      return AssignRotaRedirect;
    }
    var parsed := parse(shiftDate);
    if parsed.None? {
      return AssignError;
    }
    var d := parsed.value;
    var staffIdVal := StaffIdValue(staffId);
    if staffIdVal.ValueError? {
      return AssignError;
    }
    if !AssignIdsFit(rotaId, shiftTypeId, staffIdVal.value) {
      return AssignError;
    }
    var key := (rotaId, d, shiftTypeId);
    UpsertKeepsKeysUnique(db.entries, key, staffIdVal.value, StripOrNone(notes));
    var found := FindIndex(db.entries, HasKey(key));
    if found.None? {
      db.entries := db.entries + [RotaEntry(rotaId, d, shiftTypeId, staffIdVal.value, StripOrNone(notes))];
    } else {
      var i := found.value;
      db.entries := db.entries[i := db.entries[i].(staffId := staffIdVal.value, notes := StripOrNone(notes))];
    }
    r := AssignWeekRedirect(rotaId, StartOfWeek(d));
  }
}
