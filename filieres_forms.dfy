/** The programme form (filieres/forms.py): code normalisation with its
    per-school uniqueness check, and the coordinator choices. */
module FiliereForms {
  import opened Common
  import opened Filieres

  datatype CodeError = CodeAlreadyUsed

  /** `FiliereForm.clean_code` for the form's instance with key `pk` (0
      while unsaved) and school `tenant`. Only a saved instance is checked
      against the other rows of its school. */
  function CleanCode(code: string, pk: nat, tenant: TenantId, filieres: map<nat, Filiere>): (r: Result<string, CodeError>)
    ensures r.Ok? ==> r.value == Upper(code) && Upper(r.value) == r.value
    ensures r.Err? <==> pk != 0 && CodeTaken(filieres, tenant, Upper(code), pk)
  {
    UpperIdempotent(code);
    var upper := Upper(code);
    if pk != 0 && CodeTaken(filieres, tenant, upper, pk) then Err(CodeAlreadyUsed)
    else Ok(upper)
  }

  /** Cleaning a cleaned code again gives the same outcome. */
  lemma CleanCodeIdempotent(code: string, pk: nat, tenant: TenantId, filieres: map<nat, Filiere>)
    ensures CleanCode(Upper(code), pk, tenant, filieres) == CleanCode(code, pk, tenant, filieres)
    ensures CleanCode(code, pk, tenant, filieres).Ok? ==>
      CleanCode(CleanCode(code, pk, tenant, filieres).value, pk, tenant, filieres) == CleanCode(code, pk, tenant, filieres)
  {
    UpperIdempotent(code);
  }

  /** An unsaved programme is never refused by the form, even when its
      school already has the code: the clash then surfaces only at the
      database's constraint. */
  lemma NewCodeNotChecked(code: string, tenant: TenantId, filieres: map<nat, Filiere>)
    ensures CleanCode(code, 0, tenant, filieres) == Ok(Upper(code))
  {
  }

  /** Storing an edited programme with a code the form accepted keeps the
      (school, code) constraint. */
  lemma CleanCodeKeepsCodesUnique(code: string, pk: nat, filieres: map<nat, Filiere>, f: Filiere)
    requires CodesUnique(filieres) && pk != 0 && pk in filieres
    requires CleanCode(code, pk, f.tenant, filieres).Ok?
    ensures CodesUnique(filieres[pk := f.(code := CleanCode(code, pk, f.tenant, filieres).value)])
  {
  }

  /** The roles a coordinator may have. */
  const CoordinatorRoles: set<string> := {"professor", "direction"}

  /** A user offered as coordinator for school `tenant` (any school when None). */
  function CoordinatorIn(tenant: Option<TenantId>): User -> bool {
    (u: User) => u.role in CoordinatorRoles && (tenant.Some? ==> u.tenant == TenantIs(tenant))
  }

  function InSchool(t: TenantId): User -> bool {
    (u: User) => u.tenant == TenantIs(Some(t))
  }

  /** The coordinator choices: professor and direction users, and with a
      school given only that school's. */
  function CoordinatorChoices(users: seq<User>, tenant: Option<TenantId>): (r: seq<User>)
    ensures forall u :: u in r <==>
      u in users && u.role in CoordinatorRoles && (tenant.Some? ==> u.tenant == TenantIs(tenant))
  {
    Filter(users, CoordinatorIn(tenant))
  }

  /** Naming a school only narrows the unrestricted choices, keeping their
      order. */
  lemma {:induction false} SchoolNarrowsChoices(users: seq<User>, t: TenantId)
    ensures CoordinatorChoices(users, Some(t)) == Filter(CoordinatorChoices(users, None), InSchool(t))
  {
    if users != [] {
      SchoolNarrowsChoices(users[1..], t);
    }
  }
}
