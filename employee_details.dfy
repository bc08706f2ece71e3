/** The principal view of an employee that the security framework works with. */
module Details {
  import opened Wrappers
  import opened Entities
  import Positions

  /** The authority string of a position: `"ROLE_" + name()`. */
  function RoleName(p: Positions.Position): (r: string)
    ensures |r| > 5 && r[..5] == "ROLE_" && r[5..] == Positions.Name(p)
  {
    "ROLE_" + Positions.Name(p)
  }

  /** Distinct positions have distinct authority strings. */
  lemma RoleNameInjective(p: Positions.Position, q: Positions.Position)
    ensures RoleName(p) == RoleName(q) <==> p == q
  {
    if RoleName(p) == RoleName(q) {
      assert Positions.Name(p) == RoleName(p)[5..];
      assert Positions.Name(q) == RoleName(q)[5..];
    }
  }

  /** `EmployeeDetails`: read-only accessors over a wrapped employee. */
  datatype EmployeeDetails = EmployeeDetails(employee: Employee) {

    /** `getAuthorities`: exactly one authority, the employee's own position. */
    function Authorities(): (r: seq<string>)
      ensures |r| == 1 && r[0] == RoleName(employee.position)
    {
      [RoleName(employee.position)]
    }

    /** `getPassword`: the stored password field, unchanged (null included). */
    function Password(): (r: Option<string>)
      ensures r == employee.password
    {
      employee.password
    }

    /** `getUsername`: the login name is the personal id. */
    function Username(): (r: string)
      ensures r == employee.personalId
    {
      employee.personalId
    }

    function IsAccountNonExpired(): (r: bool)
      ensures r
    {
      true
    }

    function IsAccountNonLocked(): (r: bool)
      ensures r
    {
      true
    }

    function IsCredentialsNonExpired(): (r: bool)
      ensures r
    {
      true
    }

    /** `isEnabled`: the employee's `active` flag. */
    function IsEnabled(): (r: bool)
      ensures r == employee.active
    {
      employee.active
    }

    /** All four account-status flags hold, as the framework requires of a principal
        allowed to authenticate. */
    predicate AccountUsable() {
      IsAccountNonExpired() && IsAccountNonLocked() && IsCredentialsNonExpired() && IsEnabled()
    }
  }

  /** Of the four account-status flags only `isEnabled` can be false, so an employee's
      account is usable exactly when the employee is active. */
  lemma AccountUsableIffActive(e: Employee)
    ensures EmployeeDetails(e).AccountUsable() <==> e.active
  {
  }
}
