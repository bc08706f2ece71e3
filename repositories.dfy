/** The relational store behind the three JPA repositories: one table per entity,
    keyed by id, with an identity counter per table and the two unique columns
    (`personalId` of an employee, `director_id` of a directorate) as invariants. */
module Repositories {
  import opened Wrappers
  import opened Entities

  /** Every row is stored under its own id. */
  predicate EmployeesKeyed(m: map<int, Employee>) {
    forall k :: k in m ==> m[k].id == Some(k)
  }

  predicate DepartmentsKeyed(m: map<int, Department>) {
    forall k :: k in m ==> m[k].id == Some(k)
  }

  predicate DirectoratesKeyed(m: map<int, DirectorateRow>) {
    forall k :: k in m ==> m[k].id == Some(k)
  }

  /** The unique constraint on `personalId`. */
  predicate PersonalIdsUnique(m: map<int, Employee>) {
    forall i, j :: i in m && j in m && m[i].personalId == m[j].personalId ==> i == j
  }

  /** The unique constraint on `director_id` (nulls do not collide). */
  predicate DirectorsUnique(m: map<int, DirectorateRow>) {
    forall i, j :: i in m && j in m && m[i].director.Some? && m[i].director == m[j].director ==> i == j
  }

  /** A write that the unique check on `personalId` lets through keeps the column unique. */
  lemma PersonalIdsUniqueUpdate(m: map<int, Employee>, key: int, e: Employee)
    requires PersonalIdsUnique(m) && !PersonalIdTaken(m, e.personalId, key)
    ensures PersonalIdsUnique(m[key := e])
  {
  }

  /** A write that the unique check on `director_id` lets through keeps the column unique. */
  lemma DirectorsUniqueUpdate(m: map<int, DirectorateRow>, key: int, d: DirectorateRow)
    requires DirectorsUnique(m) && !DirectorTaken(m, d.director, key)
    ensures DirectorsUnique(m[key := d])
  {
  }

  /** Some stored employee has `personalId`: what `findByPersonalId` finds. */
  predicate PersonalIdInUse(m: map<int, Employee>, personalId: string) {
    exists j :: j in m && m[j].personalId == personalId
  }

  /** Some employee other than the one stored under `key` already has `personalId`. */
  predicate PersonalIdTaken(m: map<int, Employee>, personalId: string, key: int) {
    exists j :: j in m && j != key && m[j].personalId == personalId
  }

  /** Some directorate other than the one stored under `key` already has `director`. */
  predicate DirectorTaken(m: map<int, DirectorateRow>, director: Option<int>, key: int) {
    director.Some? && exists j :: j in m && j != key && m[j].director == director
  }

  /** Where `save` writes an entity: over the stored row with the same id (a merge),
      otherwise into a new row under the next identity value (an insert). */
  function Slot(id: Option<int>, keys: set<int>, next: int): int {
    if id.Some? && id.value in keys then id.value else next
  }

  /** The identity counter after a save to `key`. */
  function Advance(key: int, next: int): int {
    if key == next then next + 1 else next
  }

  /** The departments of `m` with every reference to directorate `id` set to null. */
  function DetachDirectorate(m: map<int, Department>, id: int): (r: map<int, Department>)
    ensures r.Keys == m.Keys
    ensures forall k :: k in r ==> r[k].directorate != Some(id)
    ensures forall k :: k in m && m[k].directorate == Some(id) ==> r[k] == m[k].(directorate := None)
    ensures forall k :: k in m && m[k].directorate != Some(id) ==> r[k] == m[k]
    ensures forall k :: k in m ==> r[k] == m[k].(directorate := r[k].directorate)
  {
    map k | k in m :: if m[k].directorate == Some(id) then m[k].(directorate := None) else m[k]
  }

  class Store {
    var employees: map<int, Employee>
    var departments: map<int, Department>
    var directorates: map<int, DirectorateRow>
    var nextEmployeeId: int
    var nextDepartmentId: int
    var nextDirectorateId: int

    ghost predicate Valid()
      reads this
    {
      EmployeesKeyed(employees) && DepartmentsKeyed(departments) &&
      DirectoratesKeyed(directorates) &&
      (forall k :: k in employees ==> k < nextEmployeeId && employees[k].password.Some?) &&
      (forall k :: k in departments ==> k < nextDepartmentId) &&
      (forall k :: k in directorates ==> k < nextDirectorateId) &&
      PersonalIdsUnique(employees) && DirectorsUnique(directorates)
    }

    /** An empty database; identity values start at 1. */
    constructor ()
      ensures Valid()
      ensures employees == map[] && departments == map[] && directorates == map[]
      ensures nextEmployeeId == 1 && nextDepartmentId == 1 && nextDirectorateId == 1
    {
      employees, departments, directorates := map[], map[], map[];
      nextEmployeeId, nextDepartmentId, nextDirectorateId := 1, 1, 1;
    }

    /** `EmployeeRepository.findByPersonalId`. */
    method FindByPersonalId(personalId: string) returns (r: Option<Employee>)
      requires Valid()
      ensures r.Some? <==> PersonalIdInUse(employees, personalId)
      ensures r.Some? ==> r.value.id.Some? && r.value.id.value in employees &&
                          employees[r.value.id.value] == r.value && r.value.personalId == personalId
    {
      if k :| k in employees && employees[k].personalId == personalId {
        r := Some(employees[k]);
      } else {
        r := None;
      }
    }

    /** `DirectorateRepository.findByDirectorId`: `d.director.id = :directorId`, which
        no row satisfies when the parameter is null. */
    method FindByDirectorId(directorId: Option<int>) returns (r: Option<DirectorateRow>)
      requires Valid()
      ensures r.None? <==> directorId.None? ||
                           forall k :: k in directorates ==> directorates[k].director != directorId
      ensures r.Some? ==> r.value.id.Some? && r.value.id.value in directorates &&
                          directorates[r.value.id.value] == r.value && r.value.director == directorId
    {
      if directorId.Some? && exists k :: k in directorates && directorates[k].director == directorId {
        var k :| k in directorates && directorates[k].director == directorId;
        r := Some(directorates[k]);
      } else {
        r := None;
      }
    }

    /** `EmployeeRepository.save`: fails, writing nothing, on a null password or on a
        `personalId` held by another row; otherwise stores the entity under its slot. */
    method SaveEmployee(e: Employee) returns (r: Result<Employee>)
      requires Valid()
      modifies this
      ensures Valid()
      ensures var k := Slot(e.id, old(employees).Keys, old(nextEmployeeId));
              if e.password.None? then
                r == Err(MissingPassword) && unchanged(this)
              else if PersonalIdTaken(old(employees), e.personalId, k) then
                r == Err(DuplicatePersonalId) && unchanged(this)
              else
                r == Ok(e.(id := Some(k))) && employees == old(employees)[k := e.(id := Some(k))] &&
                nextEmployeeId == Advance(k, old(nextEmployeeId))
      ensures departments == old(departments) && directorates == old(directorates)
      ensures nextDepartmentId == old(nextDepartmentId) && nextDirectorateId == old(nextDirectorateId)
    {
      var k := Slot(e.id, employees.Keys, nextEmployeeId);
      if e.password.None? {
        r := Err(MissingPassword);
      } else if PersonalIdTaken(employees, e.personalId, k) {
        r := Err(DuplicatePersonalId);
      } else {
        var saved := e.(id := Some(k));
        PersonalIdsUniqueUpdate(employees, k, saved);
        employees := employees[k := saved];
        nextEmployeeId := Advance(k, nextEmployeeId);
        r := Ok(saved);
      }
    }

    /** `DepartmentRepository.save`: a department has no constraint that can fail. */
    method SaveDepartment(d: Department) returns (saved: Department)
      requires Valid()
      modifies this
      ensures Valid()
      ensures var k := Slot(d.id, old(departments).Keys, old(nextDepartmentId));
              saved == d.(id := Some(k)) && departments == old(departments)[k := saved] &&
              nextDepartmentId == Advance(k, old(nextDepartmentId))
      ensures employees == old(employees) && directorates == old(directorates)
      ensures nextEmployeeId == old(nextEmployeeId) && nextDirectorateId == old(nextDirectorateId)
    {
      var k := Slot(d.id, departments.Keys, nextDepartmentId);
      saved := d.(id := Some(k));
      departments := departments[k := saved];
      nextDepartmentId := Advance(k, nextDepartmentId);
    }

    /** `DirectorateRepository.save`: fails, writing nothing, when another row already
        has the same non-null director. */
    method SaveDirectorate(d: DirectorateRow) returns (r: Result<DirectorateRow>)
      requires Valid()
      modifies this
      ensures Valid()
      ensures var k := Slot(d.id, old(directorates).Keys, old(nextDirectorateId));
              if DirectorTaken(old(directorates), d.director, k) then
                r == Err(DuplicateDirector) && unchanged(this)
              else
                r == Ok(d.(id := Some(k))) && directorates == old(directorates)[k := d.(id := Some(k))] &&
                nextDirectorateId == Advance(k, old(nextDirectorateId))
      ensures employees == old(employees) && departments == old(departments)
      ensures nextEmployeeId == old(nextEmployeeId) && nextDepartmentId == old(nextDepartmentId)
    {
      var k := Slot(d.id, directorates.Keys, nextDirectorateId);
      if DirectorTaken(directorates, d.director, k) {
        r := Err(DuplicateDirector);
      } else {
        var saved := d.(id := Some(k));
        DirectorsUniqueUpdate(directorates, k, saved);
        directorates := directorates[k := saved];
        nextDirectorateId := Advance(k, nextDirectorateId);
        r := Ok(saved);
      }
    }

    /** `deleteById` on the employee table. */
    method DeleteEmployee(id: int)
      requires Valid()
      modifies this`employees
      ensures Valid()
      ensures employees == old(employees) - {id}
    {
      employees := employees - {id};
    }

    /** `deleteById` on the department table. */
    method DeleteDepartment(id: int)
      requires Valid()
      modifies this`departments
      ensures Valid()
      ensures departments == old(departments) - {id}
    {
      departments := departments - {id};
    }

    /** `deleteById` on the directorate table. */
    method DeleteDirectorate(id: int)
      requires Valid()
      modifies this`directorates
      ensures Valid()
      ensures directorates == old(directorates) - {id}
    {
      directorates := directorates - {id};
    }
  }
}
