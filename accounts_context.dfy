/** The template context processors (accounts/context_processors.py): the
    school's branding, the role flags, the navigation menu and the
    permission switches, each worked out from the request. */
module ContextProcessors {
  import opened Common
  import opened Core
  import opened Decorators
  import opened Middleware

  // ---------------------------------------------------------------------
  // tenant_context
  // ---------------------------------------------------------------------

  /** A template variable: the school object, a text, or None. */
  datatype CtxValue = SchoolValue(school: School) | Text(text: string) | Null

  /** `tenant_context` for the request's school (None when it has none). */
  function TenantContext(school: Option<School>): (ctx: map<string, CtxValue>)
    ensures school.None? ==> ctx == map[]
    ensures school.Some? ==>
      ctx.Keys == {"tenant", "tenant_name", "tenant_logo", "tenant_primary_color", "school_name", "school"} &&
      ctx["tenant"] == ctx["school"] == SchoolValue(school.value) &&
      ctx["tenant_name"] == ctx["school_name"] == Text(school.value.name) &&
      ctx["tenant_primary_color"] == Text(school.value.primaryColor) &&
      (ctx["tenant_logo"] == Null <==> school.value.logo.None?)
  {
    match school
    case None => map[]
    case Some(s) =>
      map[
        "tenant" := SchoolValue(s),
        "tenant_name" := Text(s.name),
        "tenant_logo" := (if s.logo.Some? then Text(s.logo.value) else Null),
        "tenant_primary_color" := Text(s.primaryColor),
        "school_name" := Text(s.name),
        "school" := SchoolValue(s)]
  }

  // ---------------------------------------------------------------------
  // user_role_context
  // ---------------------------------------------------------------------

  /** The template's `user_role` and `is_<role>` flags. */
  datatype RoleContext = RoleContext(userRole: Option<string>, flags: map<string, bool>)

  const DefaultFlags: map<string, bool> :=
    map["is_student" := false, "is_professor" := false, "is_parent" := false, "is_direction" := false, "is_admin" := false]

  /** The role `user_role_context` settles on: the request's when set,
      otherwise the decorators' precedence over the user's fields (the same
      chain, written out again in the processor), and when nothing matches
      the request's own empty value. */
  function ContextRole(u: User, attr: RoleAttr): (r: Option<string>)
    ensures RoleSet(attr) ==> r == attr.role
    ensures !RoleSet(attr) && GetUserRole(u).Some? ==> r == GetUserRole(u)
    ensures r.Some? && r.value != "" ==> RoleSet(attr) || GetUserRole(u) == r
  {
    var found := if attr.RoleIs? then attr.role else None;
    if found.Some? && found.value != "" then found
    else if GetUserRole(u).Some? then GetUserRole(u)
    else found
  }

  /** `user_role_context`. */
  function UserRoleContext(user: Option<User>, attr: RoleAttr): (ctx: RoleContext)
    ensures user.None? ==> ctx == RoleContext(None, DefaultFlags)
    ensures user.Some? ==> ctx.userRole == ContextRole(user.value, attr)
    ensures ctx.userRole.Some? && ctx.userRole.value != "" ==>
      ctx.flags == DefaultFlags["is_" + ctx.userRole.value := true]
    ensures !(ctx.userRole.Some? && ctx.userRole.value != "") ==> ctx.flags == DefaultFlags
  {
    match user
    case None => RoleContext(None, DefaultFlags)
    case Some(u) =>
      var role := ContextRole(u, attr);
      if role.Some? && role.value != "" then RoleContext(role, DefaultFlags["is_" + role.value := true])
      else RoleContext(role, DefaultFlags)
  }

  /** A known role raises exactly its own flag; any other role adds a flag
      of its own and leaves the five standard flags down; and a user nothing
      identifies shows no role unless RoleMiddleware has already made them a
      student. */
  lemma RoleFlags(u: User, attr: RoleAttr)
    ensures var ctx := UserRoleContext(Some(u), attr);
      ctx.userRole.Some? && ("is_" + ctx.userRole.value) in DefaultFlags ==>
        forall k :: k in DefaultFlags ==> (ctx.flags[k] <==> k == "is_" + ctx.userRole.value)
    ensures var ctx := UserRoleContext(Some(u), attr);
      ctx.userRole.Some? && ctx.userRole.value != "" ==> forall k :: k in DefaultFlags && k != "is_" + ctx.userRole.value ==> !ctx.flags[k]
    ensures GetUserRole(u).None? ==> UserRoleContext(Some(u), NoRoleAttr).userRole == None
    ensures GetUserRole(u).None? ==> UserRoleContext(Some(u), RoleIs(Some(MiddlewareRole(u)))).userRole == Some("student")
  {
  }

  // ---------------------------------------------------------------------
  // navigation_context
  // ---------------------------------------------------------------------

  datatype NavItem = NavItem(name: string, url: string, icon: string)

  const DashboardItem := NavItem("Dashboard", "/dashboard/", "fas fa-tachometer-alt")
  const AdminItem := NavItem("Admin", "/admin/", "fas fa-cog")

  const StudentNav: seq<NavItem> := [
    NavItem("My Courses", "/courses/", "fas fa-book"),
    NavItem("Attendance", "/attendance/my/", "fas fa-calendar-check"),
    NavItem("Results", "/results/my/", "fas fa-chart-line"),
    NavItem("Payments", "/payments/my/", "fas fa-credit-card"),
    NavItem("Library", "/library/my-books/", "fas fa-book-reader"),
    NavItem("Events", "/events/", "fas fa-calendar-alt")]

  const ParentNav: seq<NavItem> := [
    NavItem("My Children", "/accounts/children/", "fas fa-users"),
    NavItem("Attendance", "/attendance/child/", "fas fa-calendar-check"),
    NavItem("Results", "/results/child/", "fas fa-chart-line"),
    NavItem("Payments", "/payments/child/", "fas fa-credit-card"),
    NavItem("Events", "/events/", "fas fa-calendar-alt")]

  const ProfessorNav: seq<NavItem> := [
    NavItem("My Classes", "/courses/my-classes/", "fas fa-chalkboard-teacher"),
    NavItem("Attendance", "/attendance/record/", "fas fa-calendar-check"),
    NavItem("Grades", "/results/grade-entry/", "fas fa-edit"),
    NavItem("Notes", "/notes/", "fas fa-sticky-note"),
    NavItem("Students", "/search/students/", "fas fa-user-graduate")]

  const StaffNav: seq<NavItem> := [
    NavItem("Monitoring", "/monitoring/", "fas fa-chart-bar"),
    NavItem("Search", "/search/", "fas fa-search"),
    NavItem("Enrollment", "/enrollment/", "fas fa-user-plus"),
    NavItem("Courses", "/courses/", "fas fa-book"),
    NavItem("Attendance", "/attendance/", "fas fa-calendar-check"),
    NavItem("Results", "/results/", "fas fa-chart-line"),
    NavItem("Payments", "/payments/", "fas fa-credit-card"),
    NavItem("Library", "/library/", "fas fa-book-reader"),
    NavItem("Events", "/events/", "fas fa-calendar-alt"),
    NavItem("Discipline", "/discipline/", "fas fa-gavel"),
    NavItem("Filieres", "/filieres/", "fas fa-graduation-cap")]

  /** The role the menu is built for: an unset attribute reads as
      "student". */
  function NavRole(attr: RoleAttr): Option<string> {
    if attr.NoRoleAttr? then Some("student") else attr.role
  }

  /** The role-specific part of the menu. */
  function RoleNav(role: Option<string>): seq<NavItem> {
    if role == Some("student") then StudentNav
    else if role == Some("parent") then ParentNav
    else if role == Some("professor") then ProfessorNav
    else if role == Some("direction") || role == Some("admin") then StaffNav
    else []
  }

  /** `navigation_context`: built item by item as the processor appends and
      extends its list. */
  method Navigation(user: Option<User>, attr: RoleAttr) returns (nav: seq<NavItem>)
    ensures user.None? ==> nav == []
    ensures user.Some? ==>
      nav == [DashboardItem] + RoleNav(NavRole(attr)) + (if user.value.isSuperuser then [AdminItem] else [])
  {
    nav := [];
    if user.None? {
      return;
    }
    var role := if attr.NoRoleAttr? then Some("student") else attr.role;
    nav := nav + [DashboardItem];
    if role == Some("student") {
      nav := nav + StudentNav;
    } else if role == Some("parent") {
      nav := nav + ParentNav;
    } else if role == Some("professor") {
      nav := nav + ProfessorNav;
    } else if role == Some("direction") || role == Some("admin") {
      nav := nav + StaffNav;
    }
    if user.value.isSuperuser {
      nav := nav + [AdminItem];
    }
  }

  /** The menu of a signed-in user starts with the dashboard; the admin
      link is there, and last, exactly for superusers; direction and admin
      share one menu; a missing role reads as a student's; and only staff
      menus lead to monitoring. */
  lemma NavigationShape(u: User, attr: RoleAttr)
    ensures var nav := [DashboardItem] + RoleNav(NavRole(attr)) + (if u.isSuperuser then [AdminItem] else []);
      nav[0] == DashboardItem &&
      (AdminItem in nav <==> u.isSuperuser) &&
      (u.isSuperuser ==> nav[|nav| - 1] == AdminItem)
    ensures RoleNav(Some("direction")) == RoleNav(Some("admin"))
    ensures RoleNav(NavRole(NoRoleAttr)) == RoleNav(Some("student"))
    ensures forall item :: item in RoleNav(NavRole(attr)) && item.url == "/monitoring/" ==>
      NavRole(attr) in {Some("direction"), Some("admin")}
  {
    var roleNav := RoleNav(NavRole(attr));
    assert AdminItem !in roleNav;
    assert DashboardItem != AdminItem;
  }

  // ---------------------------------------------------------------------
  // permissions_context
  // ---------------------------------------------------------------------

  const PermissionNames: set<string> := {
    "can_view_all_students", "can_manage_payments", "can_manage_enrollment",
    "can_view_monitoring", "can_manage_discipline", "can_export_data"}

  /** `permissions_context` for a request whose `user_role` attribute is
      `attr` (read as None when unset). */
  function Permissions(user: Option<User>, attr: RoleAttr): (p: map<string, bool>)
    ensures p.Keys == PermissionNames
    ensures user.Some? && attr.RoleIs? && attr.role in {Some("direction"), Some("admin")} ==>
      forall k :: k in p ==> p[k]
    ensures user.Some? && attr == RoleIs(Some("professor")) ==>
      forall k :: k in p ==> (p[k] <==> k == "can_manage_discipline")
    ensures !(user.Some? && attr.RoleIs? && attr.role in {Some("direction"), Some("admin"), Some("professor")}) ==>
      forall k :: k in p ==> !p[k]
  {
    var none := map k | k in PermissionNames :: false;
    var role := if attr.RoleIs? then attr.role else None;
    if user.None? then none
    else if role == Some("direction") || role == Some("admin") then map k | k in PermissionNames :: true
    else if role == Some("professor") then none["can_view_monitoring" := false]["can_manage_discipline" := true]
    else none
  }

  /** Whatever a professor may do, direction may do too. */
  lemma PermissionsNested(u: User, k: string)
    requires k in PermissionNames
    ensures Permissions(Some(u), RoleIs(Some("professor")))[k] ==> Permissions(Some(u), RoleIs(Some("direction")))[k]
    ensures Permissions(Some(u), RoleIs(Some("direction")))[k] == Permissions(Some(u), RoleIs(Some("admin")))[k]
    ensures !Permissions(Some(u), NoRoleAttr)[k]
  {
  }
}
