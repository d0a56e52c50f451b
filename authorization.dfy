/** The role-based authorization policies registered at start-up: four named
    policies, each satisfied by a fixed list of roles. */
module Authorization {

  /** The user roles (`UserRole`), a user's `Role` column. */
  datatype Role = Employee | TeamLead | ProjectManager | Administrator

  /** The four policies, one per tier, named after the role of the same name. */
  datatype Policy = EmployeePolicy | TeamLeadPolicy | ProjectManagerPolicy | AdministratorPolicy

  /** The role list each policy passes to `RequireRole`, in the order registered. */
  function RequiredRoles(p: Policy): seq<Role> {
    match p
    case EmployeePolicy => [Employee, TeamLead, ProjectManager, Administrator]
    case TeamLeadPolicy => [TeamLead, ProjectManager, Administrator]
    case ProjectManagerPolicy => [ProjectManager, Administrator]
    case AdministratorPolicy => [Administrator]
  }

  /** A caller in role `r` passes policy `p` when `r` is one of the roles it lists. */
  predicate Satisfies(r: Role, p: Policy) {
    r in RequiredRoles(p)
  }

  /** The tier order Employee < TeamLead < ProjectManager < Administrator. */
  function RoleRank(r: Role): (k: nat)
    ensures k < 4
  {
    match r
    case Employee => 0
    case TeamLead => 1
    case ProjectManager => 2
    case Administrator => 3
  }

  /** The role whose name the policy carries: the lowest role that passes it. */
  function NamesakeRole(p: Policy): (r: Role)
    ensures Satisfies(r, p)
    ensures forall s :: Satisfies(s, p) ==> RoleRank(r) <= RoleRank(s)
  {
    match p
    case EmployeePolicy => Employee
    case TeamLeadPolicy => TeamLead
    case ProjectManagerPolicy => ProjectManager
    case AdministratorPolicy => Administrator
  }

  /** Each tier's policy is also passed by every higher tier, and only by those. */
  lemma SatisfiesIffRank(r: Role, p: Policy)
    ensures Satisfies(r, p) <==> RoleRank(r) >= RoleRank(NamesakeRole(p))
  {
  }

  lemma AdministratorSatisfiesAll(p: Policy)
    ensures Satisfies(Administrator, p)
  {
  }

  lemma EmployeeSatisfiesOnlyEmployee(p: Policy)
    ensures Satisfies(Employee, p) <==> p == EmployeePolicy
  {
  }

  /** A higher role passes every policy a lower role passes. */
  lemma SatisfiesMonotone(r: Role, s: Role, p: Policy)
    requires RoleRank(r) <= RoleRank(s) && Satisfies(r, p)
    ensures Satisfies(s, p)
  {
    SatisfiesIffRank(r, p);
    SatisfiesIffRank(s, p);
  }
}
