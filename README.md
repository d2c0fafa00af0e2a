# TrackRota core in Dafny

TrackRota is a small on-call rota web application: FastAPI routes over a
SQLite database, accessed through SQLAlchemy. This project models the part of it that
computes or changes data:

- the weekly rota engine of `app/routers/rota.py`:
  - resolving the week being viewed;
  - choosing the current rota;
  - building the grid of entries;
  - expanding time off into unavailable (staff, day) pairs;
  - flagging conflicting cells;
  - the single-cell upsert behind `assign`;
- the calendar helpers of `app/utils.py`;
- recording and deleting time off, and the time-off list (`app/routers/time_off.py`);
- the dashboard's "on call today" list (`app/routers/dashboard.py`);
- session resolution and role gating (`app/auth.py`);
- favourite-rota membership (`app/utils/rotas.py`);
- the two version normalisers and the update check (`app/main.py`, `app/update_check.py`);
- the idempotent bootstrap of default rows (`app/main.py`).

How the application is represented:

- **Dates** are Python's proleptic ordinals. Day 1 is Monday 0001-01-01, `weekday(d) = (d - 1) % 7`, and adding a `timedelta` of `k` days is `+ k`. Python's dates end at 9999-12-31 (ordinal 3652059); date arithmetic that leaves 1..3652059 raises OverflowError. Each operation that can do so returns `None` there, and the handlers turn it into an error response.
- **The database** is the class `Store.Db`: one `seq` per table. Its invariant `Valid()` holds two things:
  - at most one rota entry per (rota, date, shift type);
  - every time-off interval ordered, and time-off ids unique.
- **Request handlers** are methods taking the store:
  - an updating handler `modifies` exactly the table it writes;
  - each handler's `ensures` gives its response and the new table as functions of the old one;
  - lemmas prove what those functions promise.
- **Query results** follow the SQL:
  - `WHERE` is `Collections.Filter`;
  - `ORDER BY name` is `Collections.SortByKey` on code points (SQLite's BINARY collation);
  - a `.first()` is `Collections.First`;
  - a dict comprehension is `Collections.IndexBy`, where a later row wins on a repeated key. The model does not promise that `Filter` keeps row order, so the week and dashboard entry maps are only proved to hold one of the rows with a given key;
  - a new row's id is SQLite's choice for an ordinary rowid table: one more than the largest id, or 1 in an empty table.

Modules:

| module | file | models |
|---|---|---|
| `Wrappers` | wrappers.dfy | `Option`, and `Result` for a conversion that raises ValueError |
| `Lex` | lex.dfy | Python tuple order on integer sequences; code-point string order |
| `Text` | text.dfy | `str.strip`, `strip() or None`, `lstrip(c)`, ASCII `lower`, `int(str)`, `split`/`join` |
| `Collections` | collections.dfy | filter, stable sort by key, dict-by-key, first match, next row id |
| `Calendar` | calendar.dfy | the representable date range, `start_of_week`, `week_dates` |
| `Records` | records.dfy | the row shapes, roles, entry keys, table invariants |
| `Store` | store.dfy | the database as a class of tables |
| `Auth` | auth.dfy | `get_current_user`'s early returns, `require_role` |
| `Favourites` | favourites.dfy | `is_favourite` |
| `UpdateCheck` | update_check.dfy | tag clean-up and the dot-split `normalize` |
| `AppMain` | app_main.dfy | the digit-run `normalize`, `check_for_updates`, `bootstrap_defaults` |
| `RotaRouter` | rota.dfy | `rota_week` and `assign` |
| `TimeOffRouter` | time_off.dfy | `time_off_list`, `time_off_create`, `time_off_delete` |
| `DashboardRouter` | dashboard.dfy | `dashboard` |

Where the models and the routers disagree, the model follows the routers.
`app/models.py` declares no `Rota` class and no `rota_id` column, yet
`app/routers/rota.py` queries `Rota`, `ShiftType.rota_id` and `RotaEntry.rota_id`.
The model therefore gives `Rota` and both `rota_id` fields the shapes the router uses.
It keys an entry by (rota, date, shift type), as the router looks it up (`app/routers/rota.py:169-177`).
The declared unique constraint is on (date, shift type) only (`app/models.py:70`).
As a result, `Store.Db.Valid` states the router's key, not the declared one.
The same file also declares conflicting `staff` relationships on `TimeOff` (`app/models.py:101-104`).
Its `User` has no `favourite_rotas`; the model's `User` carries the optional list `is_favourite` reads.

## Model

| member | source | states |
|---|---|---|
| Calendar.Weekday | app/utils.py:15 | `d.weekday()` is in 0..6 |
| Calendar.StartOfWeek | app/utils.py:13-15 | the result is a Monday, no later than `d` and less than 7 days before it |
| Calendar.MondayStartsItsWeek | app/utils.py:13-15 | a Monday is its own week start |
| Calendar.StartOfWeekIdempotent | app/utils.py:13-15 | `start_of_week(start_of_week(d)) == start_of_week(d)` |
| Calendar.SameWeek | app/utils.py:13-15 | two dates share a week start iff each lies in the other's Monday-to-Sunday week |
| Calendar.StartOfWeekShift | app/utils.py:13-15 | moving a date by whole weeks moves its week start by the same amount |
| Calendar.WeekDates | app/utils.py:17-19 | raises (`None`) exactly when the week's Monday or Sunday lies outside 0001-01-01..9999-12-31; otherwise seven consecutive days starting at `start_of_week(d)`, the first a Monday, exactly the dates from that Monday to the Sunday, with `d` among them |
| Calendar.WeekDatesOverflow | app/utils.py:17-19 | for a representable date, `week_dates` raises iff the date is on or after Monday 9999-12-27, the start of the last week whose Sunday does not exist |
| Calendar.InWeekDates | app/utils.py:17-19 | `x` is in `week_dates(d)` iff `x` and `d` have the same week start |
| Lex.LexLessIff | app/main.py:43 | tuple `<` holds iff the left is a proper prefix or is smaller at the first place they differ |
| Lex.LexLessIrreflexive | app/main.py:43 | no tuple is less than itself |
| Lex.LexLessTransitive | app/main.py:43 | tuple `<` is transitive |
| Lex.LexLessTrichotomy | app/main.py:43 | of two tuples, one is less or they are equal |
| Lex.LexLessAsymmetric | app/main.py:43 | `a < b` excludes `b < a` |
| Lex.LexLeTotal | app/main.py:43 | any two tuples are comparable with `<=` |
| Lex.LexLeReflexive | app/main.py:43 | `<=` is reflexive |
| Lex.LexLeTransitive | app/main.py:43 | `<=` is transitive |
| Lex.LexLeAntisymmetric | app/main.py:43 | `a <= b` and `b <= a` give `a == b` |
| Lex.LexLePair | app/routers/time_off.py:27 | on two-column keys the order is by the first column, then the second |
| Lex.LexLess | app/main.py:43 | tuple `<` on integer tuples, element by element, a proper prefix being smaller; `Lex.LexLessIff` and the order lemmas state what it means |
| Lex.LexLe | app/routers/time_off.py:27 | tuple `<=` as "not greater"; the order lemmas above state that it is a total order |
| Text.IsSpace | app/routers/rota.py:185 | `str.isspace()`, the whitespace `str.strip()` removes: ASCII 9-13 and 28-32 and the Unicode spaces and separators |
| Text.IsIntSpace | app/routers/rota.py:167 | the whitespace `int()` skips around a literal: that of `str.isspace()` without the separators U+001C..U+001F |
| Text.SkipSpaces | app/routers/rota.py:167 | the first index at or after a position whose character is outside a whitespace set: everything skipped is in the set, the character there is not |
| Text.TrimEnd | app/routers/rota.py:167 | the end of a range without its trailing whitespace: everything cut off is in the set, the last character kept is not |
| Text.StripBy | app/routers/rota.py:167 | a string without the characters of a whitespace set at either end: the slice from the first character outside the set with only set characters around it, with ends outside the set, empty iff every character is in the set |
| Text.StripByUnique | app/routers/rota.py:167 | removing a set's characters from around a core whose ends are outside the set gives back exactly that core |
| Text.Strip | app/routers/rota.py:167 | `s.strip()` is the slice of `s` from its first non-whitespace character with only whitespace after it, starts and ends with non-whitespace, and is empty iff `s` is all whitespace |
| Text.StripUnique | app/routers/rota.py:167 | stripping whitespace from around a core with non-space ends gives back exactly that core |
| Text.StripIdempotent | app/routers/rota.py:185 | `s.strip().strip() == s.strip()` |
| Text.StripOfDigits | app/routers/rota.py:167 | a non-empty string of digits has nothing to strip, for `str.strip()` and for `int()` alike |
| Text.StripOrNone | app/routers/rota.py:185 | `s.strip() or None` is `None` iff `s` is all whitespace, else the non-empty stripped text |
| Text.LStripChar | app/update_check.py:16 | `s.lstrip(c)` is a suffix of `s`; what it removes is all `c`; it does not start with `c` |
| Text.DigitValue | app/routers/rota.py:167 | a digit's value is in 0..9 |
| Text.DigitChar | app/update_check.py:23 | the digit of a value in 0..9 is an ASCII digit with that value |
| Text.NatToString | app/update_check.py:23 | `str(n)`: the decimal rendering is non-empty, all digits, without a leading zero |
| Text.WithinStrDigits | app/update_check.py:23 | a natural whose rendering has at most 4300 digits, the most `int()` reads and `str()` writes |
| Text.SmallWithinStrDigits | app/update_check.py:23 | single digits are within that limit |
| Text.DecimalValueOfNatToString | app/update_check.py:23 | the decimal value of a natural's rendering is the natural |
| Text.WithoutUnderscores | app/routers/rota.py:167 | removing the digit-group underscores leaves only digits |
| Text.ParseInt | app/routers/rota.py:167 | `int(s)`: a plain digit string of at most 4300 digits gives its decimal value, and a longer one raises; a string of only `int()` whitespace (the empty one included) raises; any character other than digits, `_`, `+`, `-` and `int()` whitespace makes it raise |
| Text.ValidNumeral | app/routers/rota.py:167 | digits with single underscores between them, at most 4300 digits not counting the underscores |
| Text.NonNumeralRejected | app/routers/rota.py:167 | a plain digit string is a well-formed body; a character outside digits, `_`, `+` and `-` spoils the body with or without its sign |
| Text.ParseSigned | app/routers/rota.py:167 | `int` once whitespace is gone: digits with single underscores between them, at most 4300 of them, give their value, and a longer plain digit string raises; a leading `+` keeps and a leading `-` negates it; any result comes from one of those shapes; a non-numeral character makes it raise |
| Text.ParseIntPadded | app/routers/rota.py:167 | the whitespace `int()` skips, around a literal, does not change what `int` reads from it |
| Text.DigitGroupsExample | app/routers/rota.py:167 | `"1_000"` is a numeral `int()` accepts, worth 1000 |
| Text.DigitGroupsBody | app/routers/rota.py:167 | `"1_000"` is a well-formed digit body whose digits are `"1000"` |
| Text.DigitGroupsValue | app/routers/rota.py:167 | `"1000"` is worth 1000 |
| Text.TooManyDigits | app/routers/rota.py:167 | `int("1" * 4301)` raises |
| Text.DecimalValueSnoc | app/routers/rota.py:167 | appending a digit multiplies the value by ten and adds the digit |
| Text.TwoToSixtyThreeHigh | app/routers/rota.py:167 | `"9223372036"` is worth 9223372036 |
| Text.TwoToSixtyThree | app/routers/rota.py:167 | `"9223372036854775808"` is all digits and worth 9223372036854775808, one more than the largest 64-bit integer |
| Text.ParseIntExample | app/routers/rota.py:167 | `int(" -1_000 ") == -1000` |
| Text.SeparatorIsNotIntSpace | app/routers/rota.py:167 | a file separator before `5`: `strip()` gives `"5"`, but `int()` raises |
| Text.ToLower | app/main.py:70 | `lower()`: the same length, each character lowered |
| Text.Split | app/update_check.py:23 | `v.split(".")` has at least one piece, no piece contains the separator, and joining restores `v` |
| Text.SplitPrefix | app/update_check.py:23 | splitting a separator-free piece plus the separator plus a rest puts that piece first |
| Text.SplitJoin | app/update_check.py:23 | splitting separator-free pieces joined by the separator gives them back |
| Text.PieceOf | app/update_check.py:23 | a character of a joined string other than the separator lies in one of the pieces |
| Collections.Filter | app/routers/rota.py:46-51 | a `WHERE`: no longer than the table, containing exactly the rows that satisfy the condition |
| Collections.PrependSorted | app/routers/rota.py:49 | a row whose key is at most the head of a sorted list can go in front and the list stays sorted |
| Collections.InsertBehind | app/routers/rota.py:49 | putting the head back in front of a sorted insertion into the tail keeps the list sorted |
| Collections.Insert | app/routers/rota.py:49 | inserting into a sorted list keeps it sorted and adds exactly one element |
| Collections.SortByKey | app/routers/rota.py:49 | an `ORDER BY`: sorted by the key and a permutation of the rows |
| Collections.SortByKeyFirstIsLeast | app/routers/rota.py:61-62 | the first row of a sorted result has the least key |
| Collections.IndexBy | app/routers/rota.py:92 | a dict comprehension: its keys are exactly the rows' keys, and each value is the last row with that key |
| Collections.IndexByUniqueKeys | app/routers/rota.py:92 | with distinct keys, each row is the value under its own key |
| Collections.FindIndex | app/routers/rota.py:169-177 | the first index satisfying the condition, or none when no row does |
| Collections.FindIndexIs | app/routers/rota.py:169-177 | a first satisfying index is the one found |
| Collections.First | app/routers/rota.py:169-177 | `.first()` is the earliest matching row, and `None` iff no row matches |
| Collections.NextRowId | app/routers/time_off.py:63-70 | a new row's id exceeds every id in the table; it is 1 in an empty table, else one more than some existing id |
| Collections.RemoveAtMembership | app/routers/time_off.py:88 | deleting one row keeps every other row and adds none |
| Store.Db.Empty | app/main.py:56 | freshly created tables are all empty and satisfy the store invariant |
| Store.FitsInt64 | app/routers/time_off.py:86 | a value SQLite can bind as an INTEGER lies in the signed 64-bit range |
| Store.FitsInt64OrNull | app/routers/rota.py:169-192 | a nullable column's value is NULL or a 64-bit integer |
| Auth.RequireRole | app/auth.py:38-41 | false without a user; otherwise true iff the user's role is in `roles` |
| Auth.RequireRoleMonotone | app/auth.py:41 | a larger role set never refuses a user a smaller one admits, and the empty set admits no one |
| Auth.SessionUserId | app/auth.py:25-34 | yields an id iff the cookie is present and non-empty, unsigns to a non-empty payload, and carries a non-zero `user_id` |
| Auth.GetCurrentUser | app/auth.py:25-36 | `None` on every early return; any user returned is in the table, active, with the session's id; `None` iff no such user exists |
| Favourites.IsFavourite | app/utils/rotas.py:1-4 | false without a user or with no or empty favourites; true iff the rota is in the list |
| Favourites.IsFavouriteMonotone | app/utils/rotas.py:4 | adding favourites never turns true into false |
| UpdateCheck.ReleaseTag | app/update_check.py:16 | the tag minus all its leading `v`s and nothing else |
| UpdateCheck.ReleaseTagExample | app/update_check.py:16 | `"v1.2.3"` becomes `"1.2.3"` |
| UpdateCheck.ParseAll | app/update_check.py:23 | `tuple(int(x) for x in pieces)`, raising at the first piece that raises; `UpdateCheck.ParseAllMeaning` states what it means |
| UpdateCheck.Normalize | app/update_check.py:22-23 | raises iff `int` raises on some dot-separated piece (not an integer, or more than 4300 digits); otherwise one integer per piece, each what `int` reads from its piece |
| UpdateCheck.ParseAllMeaning | app/update_check.py:23 | the tuple has one integer per piece, in order, and the conversion fails iff some piece is not an integer |
| UpdateCheck.RenderedPiece | app/update_check.py:23 | a rendered natural has no `.`; `int` reads it back when it has at most 4300 digits and raises otherwise |
| UpdateCheck.ParseAllOfParsed | app/update_check.py:23 | when every piece converts, the result is the converted values |
| UpdateCheck.ParseAllRendered | app/update_check.py:23 | the renderings of naturals within the digit limit convert back to them |
| UpdateCheck.NormalizeRoundTrip | app/update_check.py:22-23 | for a non-empty list of naturals, `normalize` of their renderings joined by `.` is the list when each is within the digit limit, and raises when one is not |
| UpdateCheck.NormalizeExample | app/update_check.py:22-23 | `normalize("1.2.3") == (1, 2, 3)` |
| UpdateCheck.NormalizeRejectsEmpty | app/update_check.py:23 | `normalize("")` raises |
| UpdateCheck.NormalizeRejectsDoubleDot | app/update_check.py:23 | `normalize("1..2")` raises |
| UpdateCheck.ParseAllFails | app/update_check.py:23 | one piece that does not convert makes the whole conversion fail |
| UpdateCheck.NormalizeRejectsNonNumeric | app/update_check.py:23 | a version holding any character other than digits, signs, underscores, `int()` whitespace and dots raises |
| UpdateCheck.NormalizeRejectsLetters | app/update_check.py:23 | `normalize("1.2.X")` raises |
| UpdateCheck.NormalizeRejectsSeparator | app/update_check.py:23 | `normalize` of `1.`, a file separator, `2` raises |
| AppMain.LeadingDigits | app/main.py:32 | the digit run at the start of a string: all digits, and the next character not a digit |
| AppMain.Normalize | app/main.py:24-33 | the integers of the digit runs of the string, in order, raising when a run has more than 4300 digits; the lemmas below state what it gives |
| AppMain.NormalizeNoDigits | app/main.py:32-33 | a string without digits normalises to the empty tuple |
| AppMain.NormalizeDigits | app/main.py:32-33 | a run of at most 4300 digits normalises to its one value; a longer run raises |
| AppMain.NormalizeRejectsLongRun | app/main.py:32-33 | a run of 4301 digits raises |
| AppMain.LeadingDigitsBefore | app/main.py:32 | a non-digit ends the leading digit run |
| AppMain.NormalizeSplit | app/main.py:32-33 | a non-digit splits the digit runs: the result is the runs before it followed by those after it, and it raises iff one side raises |
| AppMain.NormalizeJoined | app/main.py:32-33 | naturals within the digit limit, rendered and joined by any non-digit, normalise back to themselves |
| AppMain.RenderedOneTwoThree | app/main.py:26-30 | `1.2.3` and `1.2` are the dotted renderings of (1, 2, 3) and (1, 2) |
| AppMain.NormalizePlain | app/main.py:26-33 | `normalize("1.2.3") == (1, 2, 3)` |
| AppMain.NormalizePrefixed | app/main.py:27-33 | `normalize("v1.2.3") == (1, 2, 3)` |
| AppMain.NormalizeWord | app/main.py:28-33 | the suffix `alpha` contributes nothing |
| AppMain.NormalizeSuffixed | app/main.py:28-33 | `normalize("1.2.3-alpha") == (1, 2, 3)` |
| AppMain.NormalizeDropsLetters | app/main.py:29-33 | `normalize("1.2.X") == (1, 2)`: the placeholder is dropped |
| AppMain.UpdateAvailable | app/main.py:38-43 | false without a release; raises when either version fails to normalise; else whether the current tuple is less than the latest; `AppMain.UpdateAvailableMeaning` states what that means |
| AppMain.UpdateAvailableMeaning | app/main.py:38-46 | the check raises iff a release exists and one of the versions does not normalise; the flag is false without a release and for equal versions; with a release it is true iff the current tuple is a proper prefix of the latest or smaller at the first difference; it then excludes the reverse |
| AppMain.AppState.CheckForUpdates | app/main.py:35-46 | raises iff normalising a version raises, and then leaves both fields as they were; otherwise stores the release (or `None`) and sets the flag to the tuple comparison; false without a release |
| AppMain.WithDefaultShiftTypes | app/main.py:58-64 | a non-empty table is untouched; an empty one gets active "Primary" and "Secondary" with distinct ids |
| AppMain.NormaliseEmail | app/main.py:70-73 | `lower().strip()`: no longer than the input, with non-whitespace ends, and empty iff the lowered input is all whitespace |
| AppMain.AdminRow | app/main.py:72-77 | the new admin: an id above every existing id (1 in an empty table), the normalised email, the hash, role Admin, active, no staff link and no favourites |
| AppMain.WithBootstrapAdmin | app/main.py:66-78 | nothing without both values; else the table holds a user with the normalised email; an Admin row is appended only when no user had that email |
| AppMain.BootstrapIdempotent | app/main.py:54-78 | a second bootstrap changes neither table |
| AppMain.BootstrapDefaults | app/main.py:54-78 | the two tables become the results of the two steps above |
| RotaRouter.AnchorDate | app/routers/rota.py:30-37 | the parsed `week` when it is given and parses, else today |
| RotaRouter.Navigation | app/routers/rota.py:39-43 | raises (`None`) exactly when `week_dates` raises or a neighbouring week start is outside the calendar; otherwise the days are `week_dates(d)` and the week start is `start_of_week(d)` |
| RotaRouter.NavigationOverflow | app/routers/rota.py:39-43 | for a representable anchor, the page raises iff the anchor is in 0001-01-01..0001-01-07 or on or after 9999-12-27 |
| RotaRouter.JuneWeek | app/routers/rota.py:39-43 | the week of Monday 2024-06-03: its seven days, previous week 2024-05-27, next week 2024-06-10 |
| RotaRouter.NavigationMeaning | app/routers/rota.py:39-43 | when it does not raise: seven days from the week start, which is a Monday containing the anchor, exactly the days from it to the Sunday; previous and next are the Mondays of the neighbouring weeks |
| RotaRouter.ActiveRotas | app/routers/rota.py:46-51 | exactly the active rotas, in name order |
| RotaRouter.SelectRota | app/routers/rota.py:53-62 | none only for no rotas; the asked-for rota when its id is truthy and listed, else the first |
| RotaRouter.SelectedRota | app/routers/rota.py:46-62 | the chosen rota is active; unless an active rota was asked for, its name is least among active rotas |
| RotaRouter.DefaultRotaExample | app/routers/rota.py:46-62 | with active "Beta" and "Alpha" and no rota asked for, "Alpha" is chosen |
| RotaRouter.RotaShiftTypes | app/routers/rota.py:65-73 | exactly the rota's active shift types, in name order |
| RotaRouter.ActiveStaff | app/routers/rota.py:76-81 | exactly the active staff, in name order |
| RotaRouter.WeekEntryMap | app/routers/rota.py:84-92 | a cell key is present iff some entry of the rota on one of the days has it; each value is such an entry |
| RotaRouter.WeekEntryMapExact | app/routers/rota.py:84-92 | with one entry per key, every rota entry of the week is the one in its cell, including a cleared one |
| RotaRouter.ExpandTimeOff | app/routers/rota.py:107-113 | the walk as written: it raises iff some record it walks ends on or after 9999-12-31; otherwise it yields exactly the (staff, day) pairs with the day in the week and inside one of the intervals |
| RotaRouter.OffOn | app/routers/rota.py:108-113 | some interval of the staff member covers the day |
| RotaRouter.Unavailable | app/routers/rota.py:107-113 | the pair `rota_week` marks: the day is in the week and the staff member is off on it |
| RotaRouter.WalkOverflows | app/routers/rota.py:108-113 | some ordered interval ends on the last representable day, so stepping past it raises |
| RotaRouter.OpenEndedLeaveOverflows | app/routers/rota.py:98-113 | leave from 2024-06-01 to 9999-12-31 overlaps the week of 2024-06-03, is selected by the query and makes the walk raise, though its staff member is off that week |
| RotaRouter.ExpandTimeOffInWeek | app/routers/rota.py:107-113 | the corrected walk over the week's days: exactly the pairs with the day among the days and the staff member off on it, with no step past the calendar |
| RotaRouter.WeekWalkComplete | app/routers/rota.py:98-113 | walking the week's days over the overlapping records gives exactly the unavailable pairs of all the records |
| RotaRouter.OverlapQueryComplete | app/routers/rota.py:98-113 | filtering to intervals that overlap the week loses no unavailable pair |
| RotaRouter.OneDayTimeOff | app/routers/rota.py:108-113 | a one-day interval in the week contributes exactly one pair |
| RotaRouter.IsConflict | app/routers/rota.py:117 | an entry conflicts when its staff id is truthy and that staff member is unavailable on its day |
| RotaRouter.FindConflicts | app/routers/rota.py:115-118 | conflicts are grid keys; a key conflicts iff its entry has a truthy staff id who is unavailable that day |
| RotaRouter.AliceExample | app/routers/rota.py:84-118 | staff on a shift inside their time off is in the grid and unavailable that day; another staff member is not |
| RotaRouter.IsWeekView | app/routers/rota.py:120-140 | the template data of the week page: editing rights, the navigation, the active rotas and the chosen one, its shift types, active staff, the entry map, the unavailable pairs and the conflicts, each as above |
| RotaRouter.BuildWeekView | app/routers/rota.py:45-140 | for a week that does not raise and an active rota, the page data satisfies `RotaRouter.IsWeekView` |
| RotaRouter.RotaWeek | app/routers/rota.py:16-140 | login redirect iff no user; with a user, an error iff the week arithmetic raises; otherwise a home redirect iff no active rota, and else the week page, whose data satisfies `RotaRouter.IsWeekView` |
| RotaRouter.StaffIdValue | app/routers/rota.py:167 | blank becomes `None`; otherwise `int(staff_id)`, raising when that raises (a malformed literal or more than 4300 digits) |
| RotaRouter.StaffIdSeparatorRejected | app/routers/rota.py:167 | a staff id of a file separator and `5` is not blank, and `int` rejects it with an error |
| RotaRouter.Upsert | app/routers/rota.py:169-190 | update the first entry with the key, else append a new one; `RotaRouter.UpsertSlot` states what it does |
| RotaRouter.UpsertSlot | app/routers/rota.py:169-190 | from at most one entry per key, exactly one afterwards with the new staff and notes; other keys' entries keep place and value; a row is added iff none had the key |
| RotaRouter.UpsertKeepsKeysUnique | app/routers/rota.py:169-190 | the upsert keeps one entry per key |
| RotaRouter.UpsertIdempotent | app/routers/rota.py:169-192 | the same assignment twice leaves the table as once |
| RotaRouter.UpsertAllLeavesOne | app/routers/rota.py:169-192 | after a series of assignments to one cell there is exactly one entry, holding the last values |
| RotaRouter.AssignIdsFit | app/routers/rota.py:169-190 | the rota id, the shift type id and a non-null staff id are all 64-bit integers |
| RotaRouter.OversizedStaffIdRejected | app/routers/rota.py:167-190 | a plain digit staff id above the largest 64-bit integer is read by `int` but cannot be stored |
| RotaRouter.Assign | app/routers/rota.py:146-198 | no user or no editing role: redirect, nothing written; bad date or staff id: error, nothing written; an id outside 64 bits: error, nothing written; else the upsert of the normalised values and a redirect to the cell's week |
| TimeOffRouter.NewestFirstOrder | app/routers/time_off.py:25-29 | later starts come first, and with equal starts later ends come first |
| TimeOffRouter.StaffById | app/routers/time_off.py:32 | the keys are exactly the listed staff ids, each with a staff member of that id |
| TimeOffRouter.TimeOffList | app/routers/time_off.py:14-36 | role-gated as the source; active staff in name order, every time-off record newest first, the staff map of the list |
| TimeOffRouter.OrderInterval | app/routers/time_off.py:57-61 | the pair is ordered, is the input or its swap, and is the input when already ordered |
| TimeOffRouter.NewTimeOff | app/routers/time_off.py:57-68 | a fresh id, the given staff id, the ordered dates, the stripped reason or `None` |
| TimeOffRouter.AppendKeepsValid | app/routers/time_off.py:63-70 | an ordered record with a fresh id keeps the table valid |
| TimeOffRouter.AddTimeOffKeepsValid | app/routers/time_off.py:57-70 | recording time off keeps the table valid |
| TimeOffRouter.CreateTimeOff | app/routers/time_off.py:41-73 | role-gated; a date that does not parse is an error, and so is a staff id outside 64 bits; otherwise exactly the new record is appended and nothing else changes |
| TimeOffRouter.DeleteFirstMeaning | app/routers/time_off.py:86-89 | an unknown id changes nothing; otherwise exactly one record with that id goes, and every record with another id stays |
| TimeOffRouter.RemoveAtKeepsValid | app/routers/time_off.py:86-89 | removing a record keeps the table valid and leaves no record with its id |
| TimeOffRouter.DeleteKeepsValid | app/routers/time_off.py:86-89 | deletion keeps the table valid and removes exactly the records with that id |
| TimeOffRouter.DeleteTimeOff | app/routers/time_off.py:76-92 | role-gated; an id outside 64 bits is an error and changes nothing; otherwise the table becomes the deletion of the id |
| TimeOffRouter.DeleteFirst | app/routers/time_off.py:86-89 | remove the first record with the id, if any; `TimeOffRouter.DeleteFirstMeaning` states what it does |
| DashboardRouter.Next7 | app/routers/dashboard.py:21 | raises (`None`) exactly when today or six days later is outside the calendar; otherwise seven consecutive days starting today, and `x` is among them iff `today <= x < today + 7` |
| DashboardRouter.ActiveShiftTypes | app/routers/dashboard.py:22 | exactly the active shift types of every rota, in name order |
| DashboardRouter.UpcomingEntryMap | app/routers/dashboard.py:24-30 | a key is present iff some entry of any rota in the seven days has it; each value is such an entry |
| DashboardRouter.TodayItemFor | app/routers/dashboard.py:34-39 | one shift type's item: today's entry of that type if any, and the staff member its truthy staff id names; `DashboardRouter.TodayItemMeaning` states what it holds |
| DashboardRouter.TodayItemMeaning | app/routers/dashboard.py:33-39 | an item has today's entry of its shift type iff one exists; it has a staff member iff that entry's truthy staff id names one in the table, and it is that member |
| DashboardRouter.TodayItems | app/routers/dashboard.py:33-39 | one item per shift type, in order, each built as the source does |
| DashboardRouter.Dashboard | app/routers/dashboard.py:11-54 | login redirect iff no user; with a user, an error iff the seven days raise; otherwise the page built from the parts above |

## Left out

- HTTP routing, redirect URLs and status codes, form and query binding, and Jinja templates are not modelled. Each handler returns a datatype naming the response it would give, plus the data the template would receive; `app/templates/time_off.py` is a template and is not part of this model.
- The clock (`now_local`, pytz, `APP_TIMEZONE`) is not modelled: `today` is a parameter. `rota_week` reads the clock twice; the model reads one `today` for both.
- `datetime.strptime` and `isoformat` are not modelled: parsing is a parameter `string -> Option<Date>`, and the previous and next week links are dates rather than ISO strings.
- itsdangerous signing (`sign_session`, `unsign_session`, the secret and salt) is not modelled: `unsign` is a parameter returning the payload map or `None`. The payload's values are read as integers, so `int(user_id)` on other payload types is not modelled.
- `hash_password` (`app/security.py` is not part of this model) is a parameter.
- The GitHub request, its timeout, exception handling and `lru_cache` in `get_latest_release` are not modelled: the release is an `Option<Release>` parameter. `APP_VERSION` (`app/version.py` is not part of this model) is a parameter.
- SQLAlchemy sessions, commits, `create_all`, `app/db.py` and `app/db_migrations.py` are not modelled. Each handler is one atomic step on the store and requests run one at a time, so the race between two concurrent `assign` calls is out of scope.
- The columns `created_at` and `updated_at` are not modelled; they hold clock values.
- SQLite's fallback to a random rowid once the largest id is the maximum 64-bit integer is not modelled; fresh ids are unbounded. Values bound into a query or a row must fit in a 64-bit integer (`Store.FitsInt64`), and `assign`, `time_off_create` and `time_off_delete` answer with an error otherwise.
- The 4300-digit limit of `int()` and `str()` is CPython's default. Changing it with `PYTHONINTMAXSTRDIGITS` or `sys.set_int_max_str_digits` is not modelled.
- `int(user_id)` in `get_current_user` is not modelled for a payload outside 64 bits or over the digit limit: the session payload is signed by the server and `unsign` is a parameter.
- FastAPI's conversion of the fields declared `int` (`rota_id` and `shift_type_id` of `assign`, `staff_id` of `time_off_create`, the path's `time_off_id`) is not modelled: they reach the handlers as integers. `assign`'s `staff_id` is a string, read by the modelled `int`.
- Ties in `ORDER BY`: SQLite leaves the order of rows with equal keys unspecified. The model takes one such order, the stable one, and its contracts promise only sortedness and a permutation.
- `Text.ParseInt`: Python's `int` also accepts non-ASCII Unicode decimal digits; the model reads ASCII digits only. Non-ASCII whitespace around the literal is skipped, as `int` turns it into spaces first.
- `Text.ToLower`: Python's `lower()` maps every Unicode cased letter; the model lowers ASCII capitals only.
- `AppMain.LeadingDigits`: the regex `\d` also matches non-ASCII decimal digits; the model uses ASCII digits only.
- Exceptions the host language would raise before any of the modelled logic are not modelled: importing `Rota`, or filtering on `rota_id`, against the `app/models.py` shown.
- The thin CRUD routers (`app/routers/staff.py`, `shift_types.py`, `rotas.py`, `users.py`, `settings.py`) and the login routes in `auth_routes.py` are not modelled. Beyond the "strip, else None" pattern modelled here, they only copy form fields into rows.
- `app/main.py:66` says the admin is created if "no admin exists", but the code checks for any user with the given email (`app/main.py:70`); the model follows the code. The uniqueness of `users.email` and `shift_types.name` declared in `app/models.py` is not enforced by the store.
- The docstring at `app/main.py:25-31` lists "1.2.X" among versions that become (1, 2, 3). The code drops the non-digit `X` and gives (1, 2), which `AppMain.NormalizeDropsLetters` states.
- `AppMain.WithDefaultShiftTypes` creates the two default shift types with no rota (`rotaId` is `None`), because `bootstrap_defaults` sets none. Such shift types never appear on a rota's week page.
- `datetime.date` values are always representable in Python. The model's `Date` is an integer, so the `parse` and `today` parameters could give one outside 1..3652059. The calendar functions then return `None`, like a date step that overflows, and the handlers answer with an error.
- `RotaRouter.RotaWeek` marks time off with the corrected walk `RotaRouter.ExpandTimeOffInWeek`. For a record ending 9999-12-31 that overlaps the week, the source raises where the model shows the page (see Findings). The walk as written is kept as `RotaRouter.ExpandTimeOff`.

## Findings

| source | as written | input that shows it | evidently intended | confidence | as-written member | corrected member |
|---|---|---|---|---|---|---|
| app/routers/rota.py:108-113 | the walk over each overlapping record adds one day to `cur` after every day up to `t.end_date`, including after 9999-12-31, Python's last date | a time-off record for staff 10 from 2024-06-01 to 9999-12-31 (open-ended leave), viewing the week of 2024-06-03: the query selects it, and `cur += timedelta(days=1)` raises OverflowError, so the page fails | mark the record's days inside the viewed week and show the page | not executed | RotaRouter.OpenEndedLeaveOverflows | RotaRouter.ExpandTimeOffInWeek |
