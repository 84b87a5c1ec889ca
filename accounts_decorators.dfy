/** The view decorators (accounts/decorators.py): role resolution, the
    role and school gates, the per-role rate and the 2FA gate. Every gate
    sits behind `login_required`, which sends an anonymous visitor (user
    None) to the login page. */
module Decorators {
  import opened Common

  /** What a gate does with a request: let it through (to the wrapped view,
      or to the next middleware), redirect it (to a path, or to a URL name
      where the code redirects by name), or refuse it with 403. */
  datatype Outcome = Proceed | Redirect(to: string) | Forbidden

  /** `settings.LOGIN_URL`. */
  const LoginUrl := "/accounts/login/"

  /** The URL name of the TOTP activation page. */
  const ActivateTotp := "mfa_activate_totp"

  // ---------------------------------------------------------------------
  // get_user_role
  // ---------------------------------------------------------------------

  /** The roles the legacy boolean flags stand for, in the order they are
      tried. */
  const FlagRoles: seq<string> := ["admin", "student", "professor", "parent", "direction"]

  /** Whether `u` carries the legacy flag that stands for `role`. */
  predicate HasFlag(u: User, role: string) {
    (role == "admin" && u.isSuperuser) ||
    (role == "student" && u.isStudent) ||
    (role == "professor" && u.isLecturer) ||
    (role == "parent" && u.isParent) ||
    (role == "direction" && u.isDepHead)
  }

  /** `get_user_role`: the explicit role column when set, else the role of
      the first legacy flag in the order superuser, student, lecturer,
      parent, head of department, else None. */
  function GetUserRole(u: User): (r: Option<string>)
    ensures u.role != "" ==> r == Some(u.role)
    ensures u.role == "" ==> (r.None? <==> forall i :: 0 <= i < |FlagRoles| ==> !HasFlag(u, FlagRoles[i]))
    ensures u.role == "" && r.Some? ==>
      exists i :: 0 <= i < |FlagRoles| && r.value == FlagRoles[i] && HasFlag(u, FlagRoles[i]) &&
        forall j :: 0 <= j < i ==> !HasFlag(u, FlagRoles[j])
    ensures r.Some? ==> r.value != ""
  {
    if u.role != "" then Some(u.role)
    else if u.isSuperuser then assert HasFlag(u, FlagRoles[0]); Some("admin")
    else if u.isStudent then assert HasFlag(u, FlagRoles[1]); Some("student")
    else if u.isLecturer then assert HasFlag(u, FlagRoles[2]); Some("professor")
    else if u.isParent then assert HasFlag(u, FlagRoles[3]); Some("parent")
    else if u.isDepHead then assert HasFlag(u, FlagRoles[4]); Some("direction")
    else None
  }

  /** The explicit role beats every flag, and the superuser flag beats the
      other flags: a superuser student resolves to admin, a lecturer who is
      also head of department to professor. */
  lemma RolePrecedence(u: User)
    ensures u.role != "" ==> GetUserRole(u) == Some(u.role)
    ensures u.role == "" && u.isSuperuser ==> GetUserRole(u) == Some("admin")
    ensures u.role == "" && !u.isSuperuser && u.isLecturer && u.isDepHead && !u.isStudent ==>
      GetUserRole(u) == Some("professor")
  {
    if u.role == "" && u.isSuperuser {
      assert HasFlag(u, FlagRoles[0]);
    }
    if u.role == "" && !u.isSuperuser && u.isLecturer && !u.isStudent {
      assert HasFlag(u, FlagRoles[2]);
    }
  }

  // ---------------------------------------------------------------------
  // role_required and its shortcuts
  // ---------------------------------------------------------------------

  /** `role_required(*allowed, redirect_to=...)` in front of a view. */
  function RoleRequired(user: Option<User>, allowed: set<string>, redirectTo: string): (o: Outcome)
    ensures user.None? ==> o == Redirect(LoginUrl)
    ensures user.Some? ==>
      (o == Proceed <==> user.value.isSuperuser || (GetUserRole(user.value).Some? && GetUserRole(user.value).value in allowed))
    ensures user.Some? && o != Proceed ==> o == Redirect(redirectTo)
  {
    match user
    case None => Redirect(LoginUrl)
    case Some(u) =>
      var role := GetUserRole(u);
      if u.isSuperuser then Proceed
      else if role.Some? && role.value in allowed then Proceed
      else Redirect(redirectTo)
  }

  /** The default target of a refused role. */
  const Dashboard := "/dashboard/"

  function DirectionOnly(user: Option<User>): Outcome {
    RoleRequired(user, {"direction", "admin"}, Dashboard)
  }

  function ProfessorOnly(user: Option<User>): Outcome {
    RoleRequired(user, {"professor", "direction", "admin"}, Dashboard)
  }

  function StudentOnly(user: Option<User>): Outcome {
    RoleRequired(user, {"student"}, Dashboard)
  }

  function ParentOnly(user: Option<User>): Outcome {
    RoleRequired(user, {"parent"}, Dashboard)
  }

  /** The legacy aliases send a refused user to "/". */
  function AdminRequired(user: Option<User>): Outcome {
    RoleRequired(user, {"admin"}, "/")
  }

  function LecturerRequired(user: Option<User>): Outcome {
    RoleRequired(user, {"professor"}, "/")
  }

  function StudentRequired(user: Option<User>): Outcome {
    RoleRequired(user, {"student"}, "/")
  }

  /** Widening the allowed roles never refuses anyone who passed. */
  lemma RoleRequiredMonotone(user: Option<User>, small: set<string>, large: set<string>, redirectTo: string)
    requires small <= large
    ensures RoleRequired(user, small, redirectTo) == Proceed ==> RoleRequired(user, large, redirectTo) == Proceed
  {
  }

  /** A superuser passes every shortcut; whoever passes `direction_only`
      passes `professor_only`; outside the superuser bypass the role gates
      are exclusive where their roles are; the legacy student gate passes
      the same users as `student_only`. */
  lemma ShortcutsAgree(user: Option<User>)
    ensures user.Some? && user.value.isSuperuser ==>
      DirectionOnly(user) == Proceed && ProfessorOnly(user) == Proceed &&
      StudentOnly(user) == Proceed && ParentOnly(user) == Proceed && AdminRequired(user) == Proceed
    ensures DirectionOnly(user) == Proceed ==> ProfessorOnly(user) == Proceed
    ensures user.Some? && !user.value.isSuperuser ==> !(StudentOnly(user) == Proceed && ParentOnly(user) == Proceed)
    ensures user.Some? && !user.value.isSuperuser ==> !(StudentOnly(user) == Proceed && ProfessorOnly(user) == Proceed)
    ensures (StudentRequired(user) == Proceed) == (StudentOnly(user) == Proceed)
    ensures user.Some? && StudentRequired(user) != Proceed ==> StudentRequired(user) == Redirect("/")
  {
    RoleRequiredMonotone(user, {"direction", "admin"}, {"professor", "direction", "admin"}, Dashboard);
  }

  /** A user with neither a role column nor a flag passes no gate except
      as superuser, which such a user is not. */
  lemma NoRoleNoAccess(u: User, allowed: set<string>, redirectTo: string)
    requires GetUserRole(u).None?
    ensures RoleRequired(Some(u), allowed, redirectTo) == Redirect(redirectTo)
  {
  }

  // ---------------------------------------------------------------------
  // tenant_required
  // ---------------------------------------------------------------------

  /** `tenant_required` for a request whose `tenant` attribute is
      `requestTenant` (None when the request has no such attribute). */
  function TenantRequired(user: Option<User>, requestTenant: Option<TenantId>): (o: Outcome)
    ensures user.None? ==> o == Redirect(LoginUrl)
    ensures user.Some? && user.value.isSuperuser ==> o == Proceed
    ensures user.Some? && !user.value.isSuperuser && requestTenant.None? ==> o == Redirect("/")
    ensures user.Some? && !user.value.isSuperuser && requestTenant.Some? ==>
      (o == Forbidden <==> user.value.tenant.TenantIs? && user.value.tenant.tenant != requestTenant) &&
      (o == Proceed <==> !(user.value.tenant.TenantIs? && user.value.tenant.tenant != requestTenant))
    ensures o == Proceed && !user.value.isSuperuser && user.value.tenant.TenantIs? ==>
      user.value.tenant.tenant == requestTenant
  {
    match user
    case None => Redirect(LoginUrl)
    case Some(u) =>
      if u.isSuperuser then Proceed
      else if requestTenant.None? then Redirect("/")
      else if u.tenant.TenantIs? && u.tenant.tenant != requestTenant then Forbidden
      else Proceed
  }

  /** No cross-school access through the gate: a non-superuser whose school
      is recorded passes only on that school's requests, and one with no
      school (a null tenant) never passes; a user model without the
      attribute passes everywhere. */
  lemma TenantIsolation(u: User, t: TenantId, other: TenantId)
    requires !u.isSuperuser && t != other
    ensures u.tenant == TenantIs(Some(t)) ==>
      TenantRequired(Some(u), Some(t)) == Proceed && TenantRequired(Some(u), Some(other)) == Forbidden
    ensures u.tenant == TenantIs(None) ==> TenantRequired(Some(u), Some(t)) == Forbidden
    ensures u.tenant == NoTenantAttr ==> TenantRequired(Some(u), Some(t)) == Proceed
  {
  }

  // ---------------------------------------------------------------------
  // rate_limit_by_role
  // ---------------------------------------------------------------------

  /** `settings.RATE_LIMITS`. */
  const RateLimits: map<string, string> := map[
    "parent" := "300/hour",
    "student" := "300/hour",
    "professor" := "500/hour",
    "direction" := "1000/hour",
    "admin" := "2000/hour"]

  /** `rate_limits.get(user_role, rate)`. */
  function RateFor(limits: map<string, string>, role: Option<string>, default: string): (rate: string)
    ensures role.Some? && role.value in limits ==> rate == limits[role.value]
    ensures role.None? || role.value !in limits ==> rate == default
  {
    if role.Some? && role.value in limits then limits[role.value] else default
  }

  /** The rate `rate_limit_by_role(rate=default)` applies to a signed-in
      user. */
  function RateLimitByRole(u: User, default: string): string {
    RateFor(RateLimits, GetUserRole(u), default)
  }

  /** Every role a legacy flag yields has a configured rate, so only a user
      with no role at all, or a role column outside the table, falls back
      to the decorator's default; staff roles are never slower than
      students. */
  lemma RateByRole(u: User, default: string)
    ensures u.role == "" && GetUserRole(u).Some? ==> RateLimitByRole(u, default) in RateLimits.Values
    ensures GetUserRole(u).None? ==> RateLimitByRole(u, default) == default
    ensures u.role != "" && u.role !in RateLimits ==> RateLimitByRole(u, default) == default
    ensures u.role == "" && u.isSuperuser ==> RateLimitByRole(u, default) == "2000/hour"
  {
    var r := GetUserRole(u);
    if u.role == "" && r.Some? {
      assert r.value in RateLimits;
    }
  }

  // ---------------------------------------------------------------------
  // require_2fa
  // ---------------------------------------------------------------------

  /** `require_2fa` for a signed-in user: `totpConfirmed` is whether a
      confirmed TOTP device exists, `mfaExists` whether an MFA record
      exists (each false when the attribute is absent). */
  function Require2FA(user: Option<User>, totpConfirmed: bool, mfaExists: bool): (o: Outcome)
    ensures user.None? ==> o == Redirect(LoginUrl)
    ensures user.Some? ==> (o == Proceed <==> totpConfirmed || mfaExists)
    ensures user.Some? && o != Proceed ==> o == Redirect(ActivateTotp)
  {
    if user.None? then Redirect(LoginUrl)
    else
      var has2fa := totpConfirmed;
      var has2fa := if !has2fa then mfaExists else has2fa;
      if !has2fa then Redirect(ActivateTotp) else Proceed
  }

  /** Unlike the role gates, the 2FA gate makes no exception for
      superusers. */
  lemma Require2FANoBypass(u: User)
    requires u.isSuperuser
    ensures Require2FA(Some(u), false, false) == Redirect(ActivateTotp)
    ensures RoleRequired(Some(u), {}, Dashboard) == Proceed
  {
  }
}
