/** Session resolution and role gating of app/auth.py. */
module Auth {
  import opened Wrappers
  import opened Records
  import opened Collections

  const SESSION_COOKIE := "oncall_session"

  /** A verified session payload; the application signs `{"user_id": id}`. */
  type Payload = map<string, int>

  /** `require_role(user, roles)`: there is a user and its role is one of `roles`. */
  function RequireRole(user: Option<User>, roles: set<string>): (r: bool)
    ensures user.None? ==> !r
    ensures user.Some? ==> (r <==> user.value.role in roles)
  {
    match user
    case None => false
    case Some(u) => u.role in roles
  }

  /** Granting more roles never takes access away, and no role set grants nothing. */
  lemma RequireRoleMonotone(user: Option<User>, roles: set<string>, more: set<string>)
    requires roles <= more
    ensures RequireRole(user, roles) ==> RequireRole(user, more)
    ensures !RequireRole(user, {})
  {
  }

  /**
   * The early returns of `get_current_user`: the user id the session cookie
   * carries, once cookie, signature, payload and id have all been found
   * present and truthy. `unsign` returns `None` where the signature check fails.
   */
  function SessionUserId(cookies: map<string, string>, unsign: string -> Option<Payload>): (r: Option<int>)
    ensures r.Some? <==>
      SESSION_COOKIE in cookies && cookies[SESSION_COOKIE] != "" &&
      unsign(cookies[SESSION_COOKIE]).Some? && |unsign(cookies[SESSION_COOKIE]).value| != 0 &&
      "user_id" in unsign(cookies[SESSION_COOKIE]).value && unsign(cookies[SESSION_COOKIE]).value["user_id"] != 0
    ensures r.Some? ==> r.value == unsign(cookies[SESSION_COOKIE]).value["user_id"] && r.value != 0
  {
    if SESSION_COOKIE !in cookies || cookies[SESSION_COOKIE] == "" then None
    else
      match unsign(cookies[SESSION_COOKIE])
      case None => None
      case Some(data) =>
        if |data| == 0 then None
        else if "user_id" !in data || data["user_id"] == 0 then None
        else Some(data["user_id"])
  }

  /** `get_current_user`: the first active user whose id the session carries. */
  function GetCurrentUser(cookies: map<string, string>, unsign: string -> Option<Payload>, users: seq<User>): (r: Option<User>)
    ensures SessionUserId(cookies, unsign).None? ==> r.None?
    ensures r.Some? ==> r.value in users && r.value.active && SessionUserId(cookies, unsign) == Some(r.value.id)
    ensures SessionUserId(cookies, unsign).Some? ==>
      (r.None? <==> forall u :: u in users ==> !(u.id == SessionUserId(cookies, unsign).value && u.active))
  {
    match SessionUserId(cookies, unsign)
    case None => None
    case Some(uid) => First(users, (u: User) => u.id == uid && u.active)
  }
}
