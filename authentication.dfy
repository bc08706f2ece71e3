/** Role derivation, tokens, and the two authentication transactions. */
module Authentication {
  import opened Wrappers
  import opened Entities
  import opened Dtos
  import opened Details
  import opened Repositories
  import Positions

  // ---------------------------------------------------------------------------
  // getRole

  /** `stream().map(p -> "ROLE_" + p.name())` over a list of positions. */
  function RoleNames(ps: seq<Positions.Position>): (r: seq<string>)
    ensures |r| == |ps|
    ensures forall i :: 0 <= i < |ps| ==> r[i] == RoleName(ps[i])
  {
    if ps == [] then [] else [RoleName(ps[0])] + RoleNames(ps[1..])
  }

  /** `filter(p -> p != DIRECTORATE_DIRECTOR)`. */
  function WithoutDirector(ps: seq<Positions.Position>): (r: seq<Positions.Position>)
    ensures forall p :: p in r <==> p in ps && p != Positions.DirectorateDirector
  {
    if ps == [] then []
    else (if ps[0] != Positions.DirectorateDirector then [ps[0]] else []) + WithoutDirector(ps[1..])
  }

  /** The filter drops every DIRECTORATE_DIRECTOR and keeps every other position as
      many times as it occurs. */
  lemma {:induction false} WithoutDirectorCounts(ps: seq<Positions.Position>)
    decreases ps
    ensures multiset(WithoutDirector(ps)) == multiset(ps)[Positions.DirectorateDirector := 0]
  {
    if ps != [] {
      WithoutDirectorCounts(ps[1..]);
      assert ps == [ps[0]] + ps[1..];
    }
  }

  /** The filter works element by element, keeping the order: filtering a concatenation
      concatenates the filtered parts. */
  lemma {:induction false} WithoutDirectorAppend(xs: seq<Positions.Position>, ys: seq<Positions.Position>)
    decreases xs
    ensures WithoutDirector(xs + ys) == WithoutDirector(xs) + WithoutDirector(ys)
  {
    if xs != [] {
      assert (xs + ys)[1..] == xs[1..] + ys;
      WithoutDirectorAppend(xs[1..], ys);
    } else {
      assert xs + ys == ys;
    }
  }

  /** `getRole`: a director gets the roles of every position, a department head those of
      every position but director, anyone else only their own; lists follow the
      declaration order of the positions. */
  function Roles(p: Positions.Position): (r: seq<string>)
    ensures |r| > 0 && r[0] == RoleName(p) && r[|r| - 1] == RoleName(Positions.Employee)
  {
    match p
    case DirectorateDirector => RoleNames(Positions.Values())
    case DepartmentHead => RoleNames(WithoutDirector(Positions.Values()))
    case Employee => [RoleName(p)]
  }

  /** The three role lists, literally. */
  lemma RolesExact()
    ensures Roles(Positions.DirectorateDirector) ==
              ["ROLE_DIRECTORATE_DIRECTOR", "ROLE_DEPARTMENT_HEAD", "ROLE_EMPLOYEE"]
    ensures Roles(Positions.DepartmentHead) == ["ROLE_DEPARTMENT_HEAD", "ROLE_EMPLOYEE"]
    ensures Roles(Positions.Employee) == ["ROLE_EMPLOYEE"]
  {
    var vs := Positions.Values();
    assert RoleName(Positions.DirectorateDirector) == "ROLE_DIRECTORATE_DIRECTOR";
    assert RoleName(Positions.DepartmentHead) == "ROLE_DEPARTMENT_HEAD";
    assert RoleName(Positions.Employee) == "ROLE_EMPLOYEE";
    var tail := [Positions.DepartmentHead, Positions.Employee];
    assert vs[1..] == tail && tail[1..] == [Positions.Employee] && [Positions.Employee][1..] == [];
    assert WithoutDirector([Positions.Employee]) == [Positions.Employee];
    assert WithoutDirector(tail) == tail;
    assert WithoutDirector(vs) == tail;
  }

  /** The role list of `p` is the tail of the declaration-ordered list that starts at
      `p` itself: own role first, then every lower-ranked one. */
  lemma RolesAreSuffix(p: Positions.Position)
    ensures Roles(p) == RoleNames(Positions.Values()[|Positions.Values()| - 1 - Positions.Rank(p)..])
  {
    RolesExact();
    var vs := Positions.Values();
    assert RoleNames(vs[2..]) == ["ROLE_EMPLOYEE"];
    assert RoleNames(vs[1..]) == ["ROLE_DEPARTMENT_HEAD", "ROLE_EMPLOYEE"];
    assert vs[0..] == vs;
  }

  /** A position holds the role of `q` exactly when `q` ranks no higher. */
  lemma RolesByRank(p: Positions.Position, q: Positions.Position)
    ensures RoleName(q) in Roles(p) <==> Positions.Rank(q) <= Positions.Rank(p)
  {
    RolesExact();
    RoleNameInjective(q, Positions.DirectorateDirector);
    RoleNameInjective(q, Positions.DepartmentHead);
    RoleNameInjective(q, Positions.Employee);
  }

  /** Every role in a list is the role of some position. */
  lemma RolesArePositionRoles(p: Positions.Position, role: string)
    requires role in Roles(p)
    ensures exists q :: role == RoleName(q) && Positions.Rank(q) <= Positions.Rank(p)
  {
    RolesExact();
    if role == "ROLE_EMPLOYEE" {
      assert role == RoleName(Positions.Employee);
    } else if role == "ROLE_DEPARTMENT_HEAD" {
      assert role == RoleName(Positions.DepartmentHead);
    } else {
      assert role == RoleName(Positions.DirectorateDirector);
    }
  }

  /** Roles grow with rank: roles(EMPLOYEE) <= roles(HEAD) <= roles(DIRECTOR). */
  lemma RolesMonotone(p: Positions.Position, q: Positions.Position)
    requires Positions.Rank(p) <= Positions.Rank(q)
    ensures forall role :: role in Roles(p) ==> role in Roles(q)
  {
    forall role | role in Roles(p)
      ensures role in Roles(q)
    {
      RolesArePositionRoles(p, role);
      var r :| role == RoleName(r) && Positions.Rank(r) <= Positions.Rank(p);
      RolesByRank(q, r);
    }
  }

  /** Each list holds its own position's role, one role per rank up to its own,
      and no role twice. */
  lemma RolesShape(p: Positions.Position)
    ensures RoleName(p) in Roles(p)
    ensures |Roles(p)| == Positions.Rank(p) + 1
    ensures forall i, j :: 0 <= i < j < |Roles(p)| ==> Roles(p)[i] != Roles(p)[j]
  {
    RolesExact();
  }

  /** The principal's single authority is the first entry of the token's role list,
      and the two agree only for a plain employee. */
  lemma AuthoritiesVersusRoles(e: Employee)
    ensures EmployeeDetails(e).Authorities() == Roles(e.position)[..1]
    ensures EmployeeDetails(e).Authorities() == Roles(e.position) <==> e.position == Positions.Employee
  {
    RolesExact();
  }

  // ---------------------------------------------------------------------------
  // Tokens and the two transactions

  /** A token as far as this model sees it: the subject and the `role` claim. Signing,
      issue and expiry times are not modelled. */
  datatype Token = Token(subject: string, roles: seq<string>)

  /** `generateToken(Map.of("role", roles), details)`: the subject is the principal's
      username. */
  function GenerateToken(roles: seq<string>, details: EmployeeDetails): (t: Token)
    ensures t.subject == details.Username() && t.roles == roles
  {
    Token(details.Username(), roles)
  }

  /** The entity `register` builds: position EMPLOYEE, no department, the encoded
      password, `active` at its default (true), no id yet. */
  function Registered(request: RegisterRequest, encode: string -> string): (e: Employee)
    ensures e.id.None? && e.active && e.department.None?
    ensures e.name == request.firstName && e.surname == request.lastName
    ensures e.personalId == request.personalId && e.age == request.age
    ensures e.password == Some(encode(request.password)) && e.position == Positions.Employee
  {
    Employee(None, true, request.firstName, request.lastName, request.personalId,
             Some(encode(request.password)), request.age, Positions.Employee, None)
  }

  class AuthenticationService {
    const store: Store
    /** The password encoder (BCrypt), left uninterpreted. */
    const encode: string -> string
    /** The authentication manager's verdict on a personal id and raw password, given the
        stored employees; left uninterpreted. */
    const authenticationManager: (map<int, Employee>, string, string) -> bool

    constructor (store: Store, encode: string -> string,
                 authenticationManager: (map<int, Employee>, string, string) -> bool)
      ensures this.store == store && this.encode == encode
      ensures this.authenticationManager == authenticationManager
    {
      this.store, this.encode := store, encode;
      this.authenticationManager := authenticationManager;
    }

    /** `register`: saves one new employee, with no prior lookup of the personal id, and
        returns a token for it with the EMPLOYEE role. A personal id already stored makes
        the save fail on the unique column, and nothing is written. */
    method Register(request: RegisterRequest) returns (r: Result<Token>)
      requires store.Valid()
      modifies store
      ensures store.Valid()
      ensures var k := old(store.nextEmployeeId);
              if PersonalIdInUse(old(store.employees), request.personalId) then
                r == Err(DuplicatePersonalId) && unchanged(store)
              else
                store.employees == old(store.employees)[k := Registered(request, encode).(id := Some(k))] &&
                store.nextEmployeeId == k + 1 &&
                r == Ok(Token(request.personalId, ["ROLE_EMPLOYEE"]))
      ensures store.departments == old(store.departments) && store.directorates == old(store.directorates)
      ensures store.nextDepartmentId == old(store.nextDepartmentId) && store.nextDirectorateId == old(store.nextDirectorateId)
    {
      var employee := Registered(request, encode);
      var saved := store.SaveEmployee(employee);
      if saved.Err? {
        return Err(saved.error);
      }
      RolesExact();
      r := Ok(GenerateToken(Roles(employee.position), EmployeeDetails(employee)));
    }

    /** `authenticate`: no token when the authentication manager rejects the credentials
        or no employee has the personal id; otherwise a token for that employee with the
        roles of its stored position. Nothing is written. */
    method Authenticate(request: AuthenticationRequest) returns (r: Result<Token>)
      requires store.Valid()
      ensures !authenticationManager(store.employees, request.personalId, request.password) ==>
                r == Err(BadCredentials)
      ensures (authenticationManager(store.employees, request.personalId, request.password) &&
               !PersonalIdInUse(store.employees, request.personalId)) ==> r == Err(NoSuchElement)
      ensures r.Ok? ==>
                exists k :: k in store.employees && store.employees[k].personalId == request.personalId &&
                            r.value == Token(request.personalId, Roles(store.employees[k].position))
      ensures r.Ok? <==> authenticationManager(store.employees, request.personalId, request.password) &&
                         PersonalIdInUse(store.employees, request.personalId)
    {
      if !authenticationManager(store.employees, request.personalId, request.password) {
        return Err(BadCredentials);
      }
      var found := store.FindByPersonalId(request.personalId);
      if found.None? {
        return Err(NoSuchElement);
      }
      var employee := found.value;
      r := Ok(GenerateToken(Roles(employee.position), EmployeeDetails(employee)));
      var k := employee.id.value;
      assert k in store.employees && store.employees[k].personalId == request.personalId &&
             r.value == Token(request.personalId, Roles(store.employees[k].position));
    }
  }
}
