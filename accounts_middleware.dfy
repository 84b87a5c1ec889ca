/** The accounts middleware (accounts/middleware.py): the role it puts on
    the request, the two 2FA gates, the audit trail of sensitive writes,
    client-IP parsing and the account and subscription checks. A
    `process_request` that returns None is `Proceed` here. */
module Middleware {
  import opened Common
  import opened Core
  import opened Decorators

  /** The request's `user_role` attribute: not yet set, or set (to None for
      an anonymous visitor). */
  datatype RoleAttr = NoRoleAttr | RoleIs(role: Option<string>)

  /** Python truthiness of `request.user_role`: set to a non-empty role. */
  predicate RoleSet(a: RoleAttr) {
    a.RoleIs? && a.role.Some? && a.role.value != ""
  }

  /** The request as the middleware chain sees and changes it. `user` is
      None for an anonymous visitor (and after logout), `tenant` None when
      the request carries no school. `currentRole` is the `current_role`
      attribute put on the user object. */
  class HttpRequest {
    var user: Option<User>
    const tenant: Option<TenantId>
    const path: string
    const verb: string
    var userRole: RoleAttr
    var currentRole: Option<string>

    constructor (user: Option<User>, tenant: Option<TenantId>, path: string, verb: string)
      ensures this.user == user && this.tenant == tenant && this.path == path && this.verb == verb
      ensures userRole == NoRoleAttr && currentRole == None
    {
      this.user := user;
      this.tenant := tenant;
      this.path := path;
      this.verb := verb;
      userRole := NoRoleAttr;
      currentRole := None;
    }
  }

  // ---------------------------------------------------------------------
  // RoleMiddleware
  // ---------------------------------------------------------------------

  /** `RoleMiddleware.get_user_role`: the decorators' precedence, but a
      user nothing identifies is taken for a student, so there is always a
      role. */
  function MiddlewareRole(u: User): (r: string)
    ensures r != ""
    ensures r == if GetUserRole(u).Some? then GetUserRole(u).value else "student"
  {
    if u.role != "" then u.role
    else if u.isSuperuser then "admin"
    else if u.isStudent then "student"
    else if u.isLecturer then "professor"
    else if u.isParent then "parent"
    else if u.isDepHead then "direction"
    else "student"
  }

  /** `RoleMiddleware.process_request`: a signed-in user's role goes on the
      request and on the user; an anonymous request gets None. */
  method ProcessRole(req: HttpRequest)
    modifies req`userRole, req`currentRole
    ensures req.user.Some? ==>
      req.userRole == RoleIs(Some(MiddlewareRole(req.user.value))) &&
      req.currentRole == Some(MiddlewareRole(req.user.value))
    ensures req.user.None? ==> req.userRole == RoleIs(None) && req.currentRole == old(req.currentRole)
  {
    if req.user.Some? {
      var role := MiddlewareRole(req.user.value);
      req.userRole := RoleIs(Some(role));
      req.currentRole := Some(role);
    } else {
      req.userRole := RoleIs(None);
    }
  }

  // ---------------------------------------------------------------------
  // Enforce2FAMiddleware
  // ---------------------------------------------------------------------

  const ExemptPaths: seq<string> :=
    ["/accounts/logout/", "/accounts/2fa/", "/accounts/mfa/", "/admin/logout/", "/static/", "/media/"]

  /** `settings.ROLES_REQUIRING_2FA`. */
  const RolesRequiring2FA: seq<string> := ["professor", "direction", "admin"]

  /** The role `Enforce2FAMiddleware` checks: the request's when set,
      otherwise worked out again. */
  function EnforcedRole(u: User, userRole: RoleAttr): string {
    if RoleSet(userRole) then userRole.role.value else MiddlewareRole(u)
  }

  /** `Enforce2FAMiddleware.process_request` for a request to `path`;
      `activatePath` is where the activation page's URL name resolves,
      `mfaExists` and `totpConfirmed` say whether the user has an MFA record
      or a confirmed TOTP device. */
  function Enforce2FA(user: Option<User>, path: string, userRole: RoleAttr, mfaExists: bool,
                      totpConfirmed: bool, activatePath: string): (o: Outcome)
    ensures o == Proceed || o == Redirect(ActivateTotp)
    ensures o != Proceed <==>
      user.Some? && !StartsWithAny(path, ExemptPaths) && EnforcedRole(user.value, userRole) in RolesRequiring2FA &&
      !mfaExists && !totpConfirmed && path != activatePath
  {
    if user.None? then Proceed
    else if StartsWithAny(path, ExemptPaths) then Proceed
    else
      var role := if RoleSet(userRole) then userRole.role.value else MiddlewareRole(user.value);
      if role !in RolesRequiring2FA then Proceed
      else if mfaExists then Proceed
      else if totpConfirmed then Proceed
      else if path != activatePath then Redirect(ActivateTotp)
      else Proceed
  }

  /** Once RoleMiddleware has run (it comes first in the chain) the gate
      sees the same role it would have worked out itself. */
  lemma EnforceAfterRoleMiddleware(u: User, path: string, mfaExists: bool, totpConfirmed: bool, activatePath: string)
    ensures Enforce2FA(Some(u), path, RoleIs(Some(MiddlewareRole(u))), mfaExists, totpConfirmed, activatePath) ==
            Enforce2FA(Some(u), path, NoRoleAttr, mfaExists, totpConfirmed, activatePath)
  {
  }

  /** Students and parents are never sent to the activation page, nor is
      anyone on an exempt path or already on that page; a superuser with
      no role column and no device always is, elsewhere. */
  lemma Enforce2FAScope(u: User, path: string, mfaExists: bool, totpConfirmed: bool, activatePath: string)
    ensures MiddlewareRole(u) in {"student", "parent"} ==>
      Enforce2FA(Some(u), path, NoRoleAttr, mfaExists, totpConfirmed, activatePath) == Proceed
    ensures StartsWith(path, "/static/") ==>
      Enforce2FA(Some(u), path, NoRoleAttr, mfaExists, totpConfirmed, activatePath) == Proceed
    ensures Enforce2FA(Some(u), activatePath, NoRoleAttr, mfaExists, totpConfirmed, activatePath) == Proceed
    ensures u.role == "" && u.isSuperuser && !StartsWithAny(path, ExemptPaths) && path != activatePath ==>
      Enforce2FA(Some(u), path, NoRoleAttr, false, false, activatePath) == Redirect(ActivateTotp)
  {
    if StartsWith(path, "/static/") {
      assert StartsWith(path, ExemptPaths[4]);
    }
  }

  // ---------------------------------------------------------------------
  // AuditLogMiddleware
  // ---------------------------------------------------------------------

  const SensitiveActions: seq<string> :=
    ["create", "update", "delete", "export", "download", "payment", "grade", "attendance", "discipline"]

  const SensitivePaths: seq<string> :=
    ["/admin/", "/payments/", "/results/", "/grades/", "/search/", "/discipline/", "/monitoring/"]

  const WriteMethods: set<string> := {"POST", "PUT", "PATCH", "DELETE"}

  /** Whether `process_response` tries to write an audit entry. */
  predicate Audited(user: Option<User>, verb: string, path: string) {
    user.Some? && verb in WriteMethods &&
    (StartsWithAny(path, SensitivePaths) || ContainsAny(Lower(path), SensitiveActions))
  }

  /** One ActivityLog entry, with the fields its message is formatted from.
      `role` is the request's `user_role` attribute as found. */
  datatype AuditEntry = AuditEntry(
    user: UserId,
    role: RoleAttr,
    tenant: Option<TenantId>,
    verb: string,
    path: string,
    ip: Option<string>,
    status: int)

  /** The ActivityLog table. */
  class ActivityLog {
    var entries: seq<AuditEntry>

    constructor ()
      ensures entries == []
    {
      entries := [];
    }
  }

  /** `AuditLogMiddleware.process_response`: the response always comes back
      unchanged; an entry is appended exactly when the request is audited
      and writing it succeeds (`logged`). */
  method ProcessResponse(req: HttpRequest, log: ActivityLog, status: int, ip: Option<string>, logged: bool)
    returns (resultStatus: int)
    modifies log
    ensures resultStatus == status
    ensures Audited(req.user, req.verb, req.path) && logged ==>
      log.entries == old(log.entries) +
        [AuditEntry(req.user.value.id, req.userRole, req.tenant, req.verb, req.path, ip, status)]
    ensures !(Audited(req.user, req.verb, req.path) && logged) ==> log.entries == old(log.entries)
  {
    if req.user.None? {
      return status;
    }
    if req.verb !in WriteMethods {
      return status;
    }
    var sensitivePath := StartsWithAny(req.path, SensitivePaths);
    var sensitiveAction := ContainsAny(Lower(req.path), SensitiveActions);
    if (sensitivePath || sensitiveAction) && logged {
      log.entries := log.entries +
        [AuditEntry(req.user.value.id, req.userRole, req.tenant, req.verb, req.path, ip, status)];
    }
    return status;
  }

  lemma ContainsAt(hay: string, needle: string, k: nat)
    requires k + |needle| <= |hay| && hay[k..k + |needle|] == needle
    ensures Contains(hay, needle)
    decreases k
  {
    if k > 0 {
      assert hay[1..][k - 1..k - 1 + |needle|] == needle;
      ContainsAt(hay[1..], needle, k - 1);
    }
  }

  /** Reads are never audited; a write under a sensitive prefix always is,
      whatever its method's other details; and the action words match in
      any case, so a POST to ".../Delete/" is audited. */
  lemma AuditScope(u: User, path: string)
    ensures !Audited(Some(u), "GET", path)
    ensures !Audited(None, "POST", path)
    ensures StartsWith(path, "/payments/") ==> Audited(Some(u), "POST", path)
    ensures Audited(Some(u), "POST", "/notes/1/Delete/")
  {
    if StartsWith(path, "/payments/") {
      assert StartsWith(path, SensitivePaths[1]);
    }
    var p := Lower("/notes/1/Delete/");
    assert p == "/notes/1/delete/";
    assert p[9..15] == SensitiveActions[2];
    ContainsAt(p, SensitiveActions[2], 9);
  }

  /** The text before the first comma of `s` (all of `s` when it has
      none), as `s.split(',')[0]`. */
  function FirstField(s: string): (r: string)
    ensures |r| <= |s| && r == s[..|r|]
    ensures ',' !in r
    ensures |r| < |s| ==> s[|r|] == ','
  {
    if s == [] || s[0] == ',' then []
    else [s[0]] + FirstField(s[1..])
  }

  /** `get_client_ip`: the first entry of a non-empty X-Forwarded-For
      header, spaces kept, otherwise REMOTE_ADDR (which may be missing). */
  function ClientIp(forwardedFor: Option<string>, remoteAddr: Option<string>): (ip: Option<string>)
    ensures forwardedFor.Some? && forwardedFor.value != "" ==>
      ip.Some? && |ip.value| <= |forwardedFor.value| && ip.value == forwardedFor.value[..|ip.value|] &&
      ',' !in ip.value
    ensures !(forwardedFor.Some? && forwardedFor.value != "") ==> ip == remoteAddr
  {
    if forwardedFor.Some? && forwardedFor.value != "" then Some(FirstField(forwardedFor.value))
    else remoteAddr
  }

  /** A header without commas is taken whole; with one, everything after
      the first comma is dropped and nothing is trimmed. */
  lemma {:induction false} ClientIpFirstField(a: string, b: string, remote: Option<string>)
    requires ',' !in a && a != ""
    ensures ClientIp(Some(a), remote) == Some(a)
    ensures ClientIp(Some(a + "," + b), remote) == Some(a)
    ensures ClientIp(Some(" 10.0.0.1, 10.0.0.2"), remote) == Some(" 10.0.0.1")
    ensures ClientIp(Some(""), remote) == remote
  {
    FirstFieldNoComma(a, "");
    FirstFieldNoComma(a, "," + b);
    assert a + "," + b == a + ("," + b);
    assert " 10.0.0.1, 10.0.0.2" == " 10.0.0.1" + ", 10.0.0.2";
    FirstFieldNoComma(" 10.0.0.1", ", 10.0.0.2");
    assert a + "" == a;
  }

  lemma {:induction false} FirstFieldNoComma(a: string, rest: string)
    requires ',' !in a && (rest == [] || rest[0] == ',')
    ensures FirstField(a + rest) == a
  {
    if a != [] {
      assert (a + rest)[1..] == a[1..] + rest;
      FirstFieldNoComma(a[1..], rest);
    } else {
      assert a + rest == rest;
    }
  }

  // ---------------------------------------------------------------------
  // AuthSecurityMiddleware
  // ---------------------------------------------------------------------

  /** `AuthSecurityMiddleware.process_request` on day `today`: a
      deactivated account is logged out and sent to the login page; with
      the request's school known and its subscription lapsed, everyone but
      a superuser is sent to the expiry page. */
  method AuthSecurity(req: HttpRequest, schools: map<TenantId, School>, today: int) returns (o: Outcome)
    modifies req`user
    ensures old(req.user).None? ==> o == Proceed && req.user == None
    ensures old(req.user).Some? && !old(req.user).value.isActive ==>
      req.user == None && o == Redirect("account_login")
    ensures old(req.user).Some? && old(req.user).value.isActive ==>
      req.user == old(req.user) &&
      (o != Proceed <==>
        req.tenant.Some? && req.tenant.value in schools && !IsSubscriptionValid(schools[req.tenant.value], today) &&
        !req.user.value.isSuperuser) &&
      (o != Proceed ==> o == Redirect("subscription_expired"))
  {
    if req.user.None? {
      return Proceed;
    }
    if !req.user.value.isActive {
      req.user := None;
      return Redirect("account_login");
    }
    if req.tenant.Some? && req.tenant.value in schools {
      if !IsSubscriptionValid(schools[req.tenant.value], today) {
        if !req.user.value.isSuperuser {
          return Redirect("subscription_expired");
        }
      }
    }
    return Proceed;
  }

  // ---------------------------------------------------------------------
  // Require2FAMiddleware
  // ---------------------------------------------------------------------

  const SkipPaths: seq<string> := ["/accounts/2fa/", "/accounts/logout/", "/static/", "/media/"]

  const SetupPath := "/accounts/2fa/setup/"

  /** `Require2FAMiddleware.process_request`: here a verified e-mail
      address counts as a second factor, as does a confirmed TOTP device. */
  function Require2FAGate(user: Option<User>, path: string, verifiedEmail: bool, totpConfirmed: bool): (o: Outcome)
    ensures o == Proceed || o == Redirect(SetupPath)
    ensures o != Proceed <==>
      user.Some? && !StartsWithAny(path, SkipPaths) && MiddlewareRole(user.value) in {"professor", "direction", "admin"} &&
      !verifiedEmail && !totpConfirmed && path != SetupPath
  {
    if user.None? then Proceed
    else if StartsWithAny(path, SkipPaths) then Proceed
    else
      var u := user.value;
      var role := if u.role != "" then u.role else MiddlewareRole(u);
      if role in {"professor", "direction", "admin"} then
        var has2fa := verifiedEmail || totpConfirmed;
        if !has2fa && path != SetupPath then Redirect(SetupPath) else Proceed
      else Proceed
  }

  /** The setup page lies under a skipped prefix, so the gate's own check
      for it never decides anything; and the two gates disagree on a
      professor with only a verified e-mail address. */
  lemma TwoFactorGatesDiffer(u: User, path: string)
    requires u.role == "professor"
    requires !StartsWithAny(path, SkipPaths) && !StartsWithAny(path, ExemptPaths) && path != "/activate/"
    ensures StartsWithAny(SetupPath, SkipPaths)
    ensures Require2FAGate(Some(u), path, true, false) == Proceed
    ensures Enforce2FA(Some(u), path, NoRoleAttr, false, false, "/activate/") == Redirect(ActivateTotp)
  {
    assert StartsWith(SetupPath, SkipPaths[0]);
  }
}
