/**
 * The logic of app/main.py: the version normaliser used for the update
 * check, the startup update check itself, and the idempotent creation of
 * default rows.
 */
module AppMain {
  import opened Wrappers
  import opened Lex
  import opened Text
  import opened Records
  import opened Collections
  import UpdateCheck
  import Store

  /** Length of the run of digits `s` starts with. */
  function LeadingDigits(s: string): (n: nat)
    ensures n <= |s| && AllDigits(s[..n])
    ensures n < |s| ==> !IsDigit(s[n])
  {
    if s == [] || !IsDigit(s[0]) then 0 else 1 + LeadingDigits(s[1..])
  }

  /**
   * `normalize(v)`: the values of the maximal digit runs of `v`
   * (`re.findall(r"\d+", v)`), in order; `None` when `int(p)` raises on a
   * run of more than `MaxStrDigits` digits.
   */
  function Normalize(v: string): Option<seq<nat>>
    decreases |v|
  {
    if v == [] then Some([])
    else if !IsDigit(v[0]) then Normalize(v[1..])
    else
      var n := LeadingDigits(v);
      if n > MaxStrDigits then None
      else
        match Normalize(v[n..])
        case None => None
        case Some(rest) => Some([DecimalValue(v[..n])] + rest)
  }

  lemma {:induction false} NormalizeNoDigits(v: string)
    requires forall i :: 0 <= i < |v| ==> !IsDigit(v[i])
    ensures Normalize(v) == Some([])
  {
    if v != [] {
      NormalizeNoDigits(v[1..]);
    }
  }

  /** A single run of digits gives its value, or raises when `int()` refuses that many digits. */
  lemma NormalizeDigits(s: string)
    requires s != [] && AllDigits(s)
    ensures |s| <= MaxStrDigits ==> Normalize(s) == Some([DecimalValue(s)])
    ensures |s| > MaxStrDigits ==> Normalize(s) == None
  {
    var n := LeadingDigits(s);
    assert n == |s|;
    assert IsDigit(s[0]);
    if n <= MaxStrDigits {
      assert s[n..] == [] && s[..n] == s;
      assert Normalize(s[n..]) == Some([]);
      assert [DecimalValue(s)] + [] == [DecimalValue(s)];
    }
  }

  /** `normalize("1" * 4301)` raises. */
  lemma NormalizeRejectsLongRun()
    ensures Normalize(seq(MaxStrDigits + 1, _ => '1')) == None
  {
    var s := seq(MaxStrDigits + 1, _ => '1');
    assert AllDigits(s);
    NormalizeDigits(s);
  }

  lemma LeadingDigitsBefore(a: string, c: char, b: string)
    requires !IsDigit(c)
    ensures LeadingDigits(a + [c] + b) == LeadingDigits(a)
  {
    var s := a + [c] + b;
    var n, m := LeadingDigits(s), LeadingDigits(a);
    assert s[..m] == a[..m];
    assert m < |s| && !IsDigit(s[m]) by {
      if m < |a| { assert s[m] == a[m]; } else { assert s[m] == c; }
    }
  }

  /**
   * A character that is not a digit separates the runs on its two sides:
   * the result is the runs before it followed by those after it, and it
   * raises iff one of the two sides does.
   */
  lemma {:induction false} NormalizeSplit(a: string, c: char, b: string)
    requires !IsDigit(c)
    ensures Normalize(a + [c] + b) ==
      if Normalize(a).Some? && Normalize(b).Some? then Some(Normalize(a).value + Normalize(b).value) else None
    decreases |a|
  {
    var s := a + [c] + b;
    if a == [] {
      assert s == [c] + b && s[1..] == b;
      assert Normalize(a) == Some([]);
      if Normalize(b).Some? {
        assert [] + Normalize(b).value == Normalize(b).value;
      }
    } else if !IsDigit(a[0]) {
      assert s[0] == a[0] && s[1..] == a[1..] + [c] + b;
      NormalizeSplit(a[1..], c, b);
    } else {
      assert s[0] == a[0];
      var n := LeadingDigits(a);
      LeadingDigitsBefore(a, c, b);
      if n <= MaxStrDigits {
        assert s[..n] == a[..n];
        assert s[n..] == a[n..] + [c] + b;
        NormalizeSplit(a[n..], c, b);
        var head := DecimalValue(a[..n]);
        assert Normalize(s) == if Normalize(s[n..]).Some? then Some([head] + Normalize(s[n..]).value) else None;
        assert Normalize(a) == if Normalize(a[n..]).Some? then Some([head] + Normalize(a[n..]).value) else None;
        if Normalize(a[n..]).Some? && Normalize(b).Some? {
          assert [head] + (Normalize(a[n..]).value + Normalize(b).value) == ([head] + Normalize(a[n..]).value) + Normalize(b).value;
        }
      }
    }
  }

  /** The numbers of a rendered version come back out, whatever the separator between them. */
  lemma {:induction false} NormalizeJoined(xs: seq<nat>, sep: char)
    requires !IsDigit(sep)
    requires forall i :: 0 <= i < |xs| ==> WithinStrDigits(xs[i])
    ensures Normalize(Join(UpdateCheck.Render(xs), sep)) == Some(xs)
  {
    var ps := UpdateCheck.Render(xs);
    if |xs| == 0 {
    } else if |xs| == 1 {
      assert WithinStrDigits(xs[0]) && ps[0] == NatToString(xs[0]);
      assert Join(ps, sep) == ps[0];
      NormalizeDigits(ps[0]);
      DecimalValueOfNatToString(xs[0]);
      assert Normalize(ps[0]) == Some([xs[0]]);
      assert xs == [xs[0]];
    } else {
      assert ps[1..] == UpdateCheck.Render(xs[1..]);
      assert Join(ps, sep) == ps[0] + [sep] + Join(ps[1..], sep);
      NormalizeJoined(xs[1..], sep);
      NormalizeSplit(ps[0], sep, Join(ps[1..], sep));
      assert WithinStrDigits(xs[0]) && ps[0] == NatToString(xs[0]);
      NormalizeDigits(ps[0]);
      DecimalValueOfNatToString(xs[0]);
      assert Normalize(ps[0]) == Some([xs[0]]);
      assert xs == [xs[0]] + xs[1..];
    }
  }

  lemma RenderedOneTwoThree()
    ensures Join(UpdateCheck.Render([1, 2, 3]), '.') == "1.2.3"
    ensures Join(UpdateCheck.Render([1, 2]), '.') == "1.2"
  {
    assert UpdateCheck.Render([1, 2, 3]) == ["1", "2", "3"] by {
      assert NatToString(1) == "1" && NatToString(2) == "2" && NatToString(3) == "3";
    }
    assert Join(["1", "2", "3"], '.') == "1.2.3" by {
      assert Join(["3"], '.') == "3";
      assert Join(["2", "3"], '.') == "2.3";
    }
    assert UpdateCheck.Render([1, 2]) == ["1", "2"] by {
      assert NatToString(1) == "1" && NatToString(2) == "2";
    }
    assert Join(["1", "2"], '.') == "1.2" by {
      assert Join(["2"], '.') == "2";
    }
  }

  /** One-digit numbers are within `int()`'s limit. */
  /** The examples the normaliser is documented with: plain, with a `v` prefix, with a suffix. */
  lemma NormalizePlain()
    ensures Normalize("1.2.3") == Some([1, 2, 3])
  {
    RenderedOneTwoThree();
    SmallWithinStrDigits([1, 2, 3]);
    NormalizeJoined([1, 2, 3], '.');
  }

  lemma NormalizePrefixed()
    ensures Normalize("v1.2.3") == Some([1, 2, 3])
  {
    NormalizePlain();
    assert "v1.2.3"[1..] == "1.2.3";
  }

  lemma NormalizeWord()
    ensures Normalize("alpha") == Some([])
  {
    NormalizeNoDigits("alpha");
  }

  lemma NormalizeSuffixed()
    ensures Normalize("1.2.3-alpha") == Some([1, 2, 3])
  {
    assert "1.2.3-alpha" == "1.2.3" + ['-'] + "alpha" by {}
    NormalizePlain();
    NormalizeWord();
    NormalizeSplit("1.2.3", '-', "alpha");
    assert [1, 2, 3] + [] == [1, 2, 3];
  }

  /** A non-numeric last part is dropped rather than read as a number. */
  lemma NormalizeDropsLetters()
    ensures Normalize("1.2.X") == Some([1, 2])
  {
    RenderedOneTwoThree();
    SmallWithinStrDigits([1, 2]);
    NormalizeJoined([1, 2], '.');
    assert "1.2.X" == "1.2" + ['.'] + "X";
    NormalizeSplit("1.2", '.', "X");
    NormalizeNoDigits("X");
  }

  /** The latest release as `get_latest_release` reports it. */
  datatype Release = Release(tag: string, url: string)

  /**
   * The `update_available` flag: a release exists and its normalised tag is
   * greater in tuple order. `None` when normalising the tag or the current
   * version raises, which aborts the startup hook.
   */
  function UpdateAvailable(release: Option<Release>, appVersion: string): Option<bool>
  {
    if release.None? then Some(false)
    else
      match (Normalize(release.value.tag), Normalize(appVersion))
      case (Some(latest), Some(current)) => Some(LexLess(current, latest))
      case _ => None
  }

  /**
   * The flag is set exactly when the release's numbers extend the current
   * ones or are larger at the first place they differ; never for no release
   * or for the same version. The check raises iff a release exists and one
   * of the two versions does not normalise.
   */
  lemma UpdateAvailableMeaning(release: Option<Release>, appVersion: string)
    ensures release.None? ==> UpdateAvailable(release, appVersion) == Some(false)
    ensures UpdateAvailable(release, appVersion).None? <==>
      release.Some? && (Normalize(release.value.tag).None? || Normalize(appVersion).None?)
    ensures release.Some? && Normalize(release.value.tag).Some? && Normalize(release.value.tag) == Normalize(appVersion) ==>
      UpdateAvailable(release, appVersion) == Some(false)
    ensures release.Some? && UpdateAvailable(release, appVersion).Some? ==>
      (UpdateAvailable(release, appVersion).value <==>
        var cur, latest := Normalize(appVersion).value, Normalize(release.value.tag).value;
        (|cur| < |latest| && cur == latest[..|cur|]) || (exists k :: FirstDifferenceSmaller(cur, latest, k)))
    ensures release.Some? && UpdateAvailable(release, appVersion) == Some(true) ==>
      !LexLess(Normalize(release.value.tag).value, Normalize(appVersion).value)
  {
    if release.Some? && Normalize(release.value.tag).Some? && Normalize(appVersion).Some? {
      var cur, latest := Normalize(appVersion).value, Normalize(release.value.tag).value;
      LexLessIff(cur, latest);
      LexLessIrreflexive(cur);
      if LexLess(cur, latest) {
        LexLessAsymmetric(cur, latest);
      }
    }
  }

  /** The `app.state` fields the startup check writes. */
  class AppState {
    var latestVersion: Option<Release>
    var updateAvailable: bool

    constructor ()
      ensures latestVersion == None && !updateAvailable
    {
      latestVersion, updateAvailable := None, false;
    }

    /**
     * `check_for_updates`, with the release lookup's result passed in.
     * `raised` reports the ValueError of a version that does not normalise;
     * the fields are then left as they were.
     */
    method CheckForUpdates(release: Option<Release>, appVersion: string) returns (raised: bool)
      modifies this
      ensures raised <==> UpdateAvailable(release, appVersion).None?
      ensures raised ==> latestVersion == old(latestVersion) && updateAvailable == old(updateAvailable)
      ensures !raised ==> latestVersion == release && updateAvailable == UpdateAvailable(release, appVersion).value
      ensures release.None? ==> !raised && !updateAvailable
    {
      if release.Some? {
        var latest := Normalize(release.value.tag);
        if latest.None? {
          return true;
        }
        var current := Normalize(appVersion);
        if current.None? {
          return true;
        }
        latestVersion := release;
        updateAvailable := LexLess(current.value, latest.value);
      } else {
        latestVersion := None;
        updateAvailable := false;
      }
      raised := false;
    }
  }

  /** Python truthiness of an environment value: set and non-empty. */
  predicate Present(v: Option<string>)
  {
    v.Some? && v.value != ""
  }

  /** `admin_email.lower().strip()`. */
  function NormaliseEmail(email: string): (r: string)
    ensures |r| <= |email|
    ensures r != [] ==> !IsSpace(r[0]) && !IsSpace(r[|r| - 1])
    ensures r == [] <==> AllSpace(ToLower(email))
  {
    Strip(ToLower(email))
  }

  /** The shift-type table after the default step: "Primary" and "Secondary" on an empty table. */
  function WithDefaultShiftTypes(sts: seq<ShiftType>): (r: seq<ShiftType>)
    ensures sts != [] ==> r == sts
    ensures sts == [] ==> |r| == 2 && r[0].name == "Primary" && r[1].name == "Secondary"
    ensures sts == [] ==> r[0].active && r[1].active && r[0].id != r[1].id
  {
    if |sts| == 0 then
      [ShiftType(1, None, "Primary", Some("Primary on-call"), true),
       ShiftType(2, None, "Secondary", Some("Secondary on-call"), true)]
    else sts
  }

  function AdminRow(users: seq<User>, email: string, passwordHash: string): (r: User)
    ensures forall u :: u in users ==> u.id < r.id
    ensures users == [] ==> r.id == 1
    ensures r.email == NormaliseEmail(email) && r.passwordHash == passwordHash
    ensures r.role == ADMIN && r.active && r.staffId.None? && r.favouriteRotas.None?
  {
    User(NextRowId(users, UserId), NormaliseEmail(email), passwordHash, ADMIN, true, None, None)
  }

  /** The user table after the admin step. */
  function WithBootstrapAdmin(users: seq<User>, adminEmail: Option<string>, adminPassword: Option<string>,
                              hashPassword: string -> string): (r: seq<User>)
    ensures !(Present(adminEmail) && Present(adminPassword)) ==> r == users
    ensures Present(adminEmail) && Present(adminPassword) ==>
      (exists u :: u in r && u.email == NormaliseEmail(adminEmail.value))
    ensures r == users || r == users + [AdminRow(users, adminEmail.value, hashPassword(adminPassword.value))]
    ensures r != users ==> forall u :: u in users ==> u.email != NormaliseEmail(adminEmail.value)
  {
    if Present(adminEmail) && Present(adminPassword) then
      var email := NormaliseEmail(adminEmail.value);
      match First(users, (u: User) => u.email == email)
      case Some(_) => users
      case None =>
        var r := users + [AdminRow(users, adminEmail.value, hashPassword(adminPassword.value))];
        assert r[|users|].email == email;
        r
    else users
  }

  /** Running the startup defaults a second time adds nothing. */
  lemma BootstrapIdempotent(sts: seq<ShiftType>, users: seq<User>, adminEmail: Option<string>,
                            adminPassword: Option<string>, hashPassword: string -> string)
    ensures WithDefaultShiftTypes(WithDefaultShiftTypes(sts)) == WithDefaultShiftTypes(sts)
    ensures var once := WithBootstrapAdmin(users, adminEmail, adminPassword, hashPassword);
      WithBootstrapAdmin(once, adminEmail, adminPassword, hashPassword) == once
  {
    var once := WithBootstrapAdmin(users, adminEmail, adminPassword, hashPassword);
    if Present(adminEmail) && Present(adminPassword) {
      var u :| u in once && u.email == NormaliseEmail(adminEmail.value);
      assert First(once, (x: User) => x.email == NormaliseEmail(adminEmail.value)).Some?;
    }
  }

  /** `bootstrap_defaults(db)`, with the environment values and the password hasher passed in. */
  method BootstrapDefaults(db: Store.Db, adminEmail: Option<string>, adminPassword: Option<string>,
                           hashPassword: string -> string)
    modifies db`shiftTypes, db`users
    ensures db.shiftTypes == WithDefaultShiftTypes(old(db.shiftTypes))
    ensures db.users == WithBootstrapAdmin(old(db.users), adminEmail, adminPassword, hashPassword)
  {
    if |db.shiftTypes| == 0 {
      db.shiftTypes := db.shiftTypes + [
        ShiftType(NextRowId(db.shiftTypes, ShiftTypeId), None, "Primary", Some("Primary on-call"), true),
        ShiftType(NextRowId(db.shiftTypes, ShiftTypeId) + 1, None, "Secondary", Some("Secondary on-call"), true)];
    }
    if Present(adminEmail) && Present(adminPassword) {
      var email := NormaliseEmail(adminEmail.value);
      var existing := First(db.users, (u: User) => u.email == email);
      if existing.None? {
        db.users := db.users + [AdminRow(db.users, adminEmail.value, hashPassword(adminPassword.value))];
      }
    }
  }
}
