/**
 * The time-off router of app/routers/time_off.py: the list page, recording a
 * period of leave and deleting one. All three are for Admins and Managers.
 */
module TimeOffRouter {
  import opened Wrappers
  import opened Calendar
  import opened Lex
  import opened Text
  import opened Records
  import opened Collections
  import opened Auth
  import RotaRouter
  import Store

  datatype TimeOffPage =
    | LoginRedirect
    | HomeRedirect
    | ListRedirect
    | ServerError
    | ListPage(staff: seq<Staff>, items: seq<TimeOff>, staffMap: map<int, Staff>)

  // ---- The list page ----

  /** `ORDER BY start_date DESC, end_date DESC` as an ascending key. */
  function NewestFirstKey(t: TimeOff): seq<int>
  {
    [-t.startDate, -t.endDate]
  }

  /** The list in order: latest start first, and of equal starts the latest end first. */
  lemma {:induction false} NewestFirstOrder(items: seq<TimeOff>, i: int, j: int)
    requires SortedBy(items, NewestFirstKey)
    requires 0 <= i < j < |items|
    ensures items[i].startDate > items[j].startDate ||
            (items[i].startDate == items[j].startDate && items[i].endDate >= items[j].endDate)
  {
    assert LexLe(NewestFirstKey(items[i]), NewestFirstKey(items[j]));
    LexLePair(-items[i].startDate, -items[i].endDate, -items[j].startDate, -items[j].endDate);
  }

  /** `{s.id: s for s in staff}`: every listed staff member under their id. */
  function StaffById(staff: seq<Staff>): (m: map<int, Staff>)
    ensures forall id :: id in m <==> exists s :: s in staff && s.id == id
    ensures forall id :: id in m ==> m[id] in staff && m[id].id == id
  {
    var m := IndexBy(staff, StaffId);
    assert forall id :: id in m ==> m[id] in staff by {
      forall id | id in m ensures m[id] in staff {
        var i :| LastWithKey(staff, StaffId, id, i) && m[id] == staff[i];
      }
    }
    m
  }

  /** `time_off_list`. */
  method TimeOffList(db: Store.Db, user: Option<User>) returns (r: TimeOffPage)
    ensures user.None? ==> r == LoginRedirect
    ensures user.Some? && !RequireRole(user, EDITORS) ==> r == HomeRedirect
    ensures RequireRole(user, EDITORS) <==> r.ListPage?
    ensures r.ListPage? ==>
      && r.staff == RotaRouter.ActiveStaff(db.staff)
      && multiset(r.items) == multiset(db.timeOff) && SortedBy(r.items, NewestFirstKey)
      && r.staffMap == StaffById(r.staff)
  {
    if user.None? {
      return LoginRedirect;
    }
    if !RequireRole(user, EDITORS) {
      return HomeRedirect;
    }
    var staff := RotaRouter.ActiveStaff(db.staff);
    var items := SortByKey(db.timeOff, NewestFirstKey);
    r := ListPage(staff, items, StaffById(staff));
  }

  // ---- Recording leave ----

  /** The two dates in order, swapped when entered backwards. */
  function OrderInterval(sd: Date, ed: Date): (r: (Date, Date))
    ensures r.0 <= r.1
    ensures r == (sd, ed) || r == (ed, sd)
    ensures sd <= ed ==> r == (sd, ed)
  {
    if ed < sd then (ed, sd) else (sd, ed)
  }

  /** The record `time_off_create` adds to `table`. */
  function NewTimeOff(table: seq<TimeOff>, staffId: int, sd: Date, ed: Date, reason: string): (t: TimeOff)
    ensures forall u :: u in table ==> u.id != t.id
    ensures t.staffId == staffId && t.startDate <= t.endDate
    ensures (t.startDate, t.endDate) == OrderInterval(sd, ed)
    ensures t.reason == StripOrNone(reason)
  {
    var (s, e) := OrderInterval(sd, ed);
    TimeOff(NextRowId(table, TimeOffId), staffId, s, e, StripOrNone(reason))
  }

  /** Appending an ordered record with a fresh id keeps the table valid. */
  lemma AppendKeepsValid(table: seq<TimeOff>, t: TimeOff)
    requires TimeOffTableValid(table)
    requires t.startDate <= t.endDate && forall u :: u in table ==> u.id != t.id
    ensures TimeOffTableValid(table + [t])
  {
    var r := table + [t];
    forall i, j | 0 <= i < j < |r| ensures r[i].id != r[j].id {
      if j == |table| {
        assert r[i] in table;
      }
    }
  }

  lemma AddTimeOffKeepsValid(table: seq<TimeOff>, staffId: int, sd: Date, ed: Date, reason: string)
    requires TimeOffTableValid(table)
    ensures TimeOffTableValid(table + [NewTimeOff(table, staffId, sd, ed, reason)])
  {
    AppendKeepsValid(table, NewTimeOff(table, staffId, sd, ed, reason));
  }

  /**
   * `time_off_create`: a date that does not parse raises before anything is
   * written, and so does a staff id outside SQLite's 64-bit range, at the
   * commit.
   */
  method CreateTimeOff(db: Store.Db, user: Option<User>, staffId: int, startDate: string, endDate: string,
                       reason: string, parse: string -> Option<Date>) returns (r: TimeOffPage)
    requires db.Valid()
    modifies db`timeOff
    ensures db.Valid()
    ensures user.None? ==> r == LoginRedirect
    ensures user.Some? && !RequireRole(user, EDITORS) ==> r == HomeRedirect
    ensures RequireRole(user, EDITORS) && (parse(startDate).None? || parse(endDate).None?) ==> r == ServerError
    ensures RequireRole(user, EDITORS) && !Store.FitsInt64(staffId) ==> r == ServerError
    ensures r == ListRedirect <==> RequireRole(user, EDITORS) && parse(startDate).Some? && parse(endDate).Some? && Store.FitsInt64(staffId)
    ensures r != ListRedirect ==> db.timeOff == old(db.timeOff)
    ensures r == ListRedirect ==>
      db.timeOff == old(db.timeOff) + [NewTimeOff(old(db.timeOff), staffId, parse(startDate).value, parse(endDate).value, reason)]
  {
    if user.None? {
      return LoginRedirect;
    }
    if !RequireRole(user, EDITORS) {
      return HomeRedirect;
    }
    var sdParsed := parse(startDate);
    if sdParsed.None? {
      return ServerError;
    }
    var edParsed := parse(endDate);
    if edParsed.None? {
      return ServerError;
    }
    if !Store.FitsInt64(staffId) {
      return ServerError;
    }
    var item := NewTimeOff(db.timeOff, staffId, sdParsed.value, edParsed.value, reason);
    AddTimeOffKeepsValid(db.timeOff, staffId, sdParsed.value, edParsed.value, reason);
    db.timeOff := db.timeOff + [item];
    r := ListRedirect;
  }

  // ---- Deleting leave ----

  function HasTimeOffId(id: int): TimeOff -> bool
  {
    (t: TimeOff) => t.id == id
  }

  /** The table after `time_off_delete`: the first record with the id removed, if there is one. */
  function DeleteFirst(table: seq<TimeOff>, id: int): seq<TimeOff>
  {
    match FindIndex(table, HasTimeOffId(id))
    case Some(i) => table[..i] + table[i + 1..]
    case None => table
  }

  /**
   * Deleting an id no record has changes nothing; otherwise exactly one
   * record with that id goes and every other record stays, in order.
   */
  lemma DeleteFirstMeaning(table: seq<TimeOff>, id: int)
    ensures (forall t :: t in table ==> t.id != id) ==> DeleteFirst(table, id) == table
    ensures (exists t :: t in table && t.id == id) ==>
      exists i :: 0 <= i < |table| && table[i].id == id && DeleteFirst(table, id) == table[..i] + table[i + 1..]
    ensures forall t :: t in table && t.id != id ==> t in DeleteFirst(table, id)
    ensures forall t :: t in DeleteFirst(table, id) ==> t in table
  {
    match FindIndex(table, HasTimeOffId(id))
    case Some(i) =>
      assert HasTimeOffId(id)(table[i]);
      assert table[i] in table;
      RemoveAtMembership(table, i);
    case None =>
      forall t | t in table ensures t.id != id {
        var k :| 0 <= k < |table| && table[k] == t;
        assert !HasTimeOffId(id)(table[k]);
      }
  }

  /** Removing the record at `i` from a valid table keeps it valid and leaves no record with its id. */
  lemma RemoveAtKeepsValid(table: seq<TimeOff>, i: nat)
    requires TimeOffTableValid(table) && i < |table|
    ensures TimeOffTableValid(table[..i] + table[i + 1..])
    ensures forall t :: t in table[..i] + table[i + 1..] ==> t.id != table[i].id
  {
    var r := table[..i] + table[i + 1..];
    assert forall k :: 0 <= k < |r| ==> r[k] == table[if k < i then k else k + 1];
    forall k1, k2 | 0 <= k1 < k2 < |r| ensures r[k1].id != r[k2].id {
      var a := if k1 < i then k1 else k1 + 1;
      var b := if k2 < i then k2 else k2 + 1;
      assert r[k1] == table[a] && r[k2] == table[b];
    }
    forall k | 0 <= k < |r| ensures r[k].id != table[i].id {
      var a := if k < i then k else k + 1;
      assert r[k] == table[a];
      if a < i {
        assert table[a].id != table[i].id;
      } else {
        assert table[i].id != table[a].id;
      }
    }
  }

  /** With unique ids, deletion removes exactly the records with that id and keeps the table valid. */
  lemma DeleteKeepsValid(table: seq<TimeOff>, id: int)
    requires TimeOffTableValid(table)
    ensures TimeOffTableValid(DeleteFirst(table, id))
    ensures forall t :: t in DeleteFirst(table, id) <==> t in table && t.id != id
  {
    DeleteFirstMeaning(table, id);
    match FindIndex(table, HasTimeOffId(id))
    case Some(i) =>
      RemoveAtKeepsValid(table, i);
    case None =>
  }

  /** `time_off_delete`: an id outside SQLite's 64-bit range raises when the record is looked up. */
  method DeleteTimeOff(db: Store.Db, user: Option<User>, id: int) returns (r: TimeOffPage)
    requires db.Valid()
    modifies db`timeOff
    ensures db.Valid()
    ensures user.None? ==> r == LoginRedirect
    ensures user.Some? && !RequireRole(user, EDITORS) ==> r == HomeRedirect
    ensures RequireRole(user, EDITORS) && !Store.FitsInt64(id) ==> r == ServerError
    ensures r == ListRedirect <==> RequireRole(user, EDITORS) && Store.FitsInt64(id)
    ensures r != ListRedirect ==> db.timeOff == old(db.timeOff)
    ensures r == ListRedirect ==> db.timeOff == DeleteFirst(old(db.timeOff), id)
  {
    if user.None? {
      return LoginRedirect;
    }
    if !RequireRole(user, EDITORS) {
      return HomeRedirect;
    }
    if !Store.FitsInt64(id) {
      return ServerError;
    }
    DeleteKeepsValid(db.timeOff, id);
    var found := FindIndex(db.timeOff, HasTimeOffId(id));
    if found.Some? {
      var i := found.value;
      db.timeOff := db.timeOff[..i] + db.timeOff[i + 1..];
    }
    r := ListRedirect;
  }
}
