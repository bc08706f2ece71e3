/** Check-then-write operations on the employee table. */
module EmployeeServices {
  import opened Wrappers
  import opened Dtos
  import opened Repositories
  import opened Converter
  import Positions

  class EmployeeService {
    const store: Store
    /** The password encoder (BCrypt), left uninterpreted. */
    const encode: string -> string

    constructor (store: Store, encode: string -> string)
      ensures this.store == store && this.encode == encode
    {
      this.store, this.encode := store, encode;
    }

    /** `getAllEmployees`: every employee, or only the active ones, as DTOs keyed by id. */
    method GetAllEmployees(activeOnly: bool) returns (page: map<int, EmployeeDTO>)
      requires store.Valid()
      ensures forall k :: k in page <==> k in store.employees && (store.employees[k].active || !activeOnly)
      ensures forall k :: k in page ==> page[k] == ToEmployeeDTO(store.employees[k]) && page[k].id == Some(k)
      ensures activeOnly ==> forall k :: k in page ==> page[k].active
    {
      page := map k | k in store.employees && (store.employees[k].active || !activeOnly)
                    :: ToEmployeeDTO(store.employees[k]);
    }

    /** `getEmployeeById`: the DTO of the stored employee, or empty. */
    method GetEmployeeById(employeeId: int) returns (r: Option<EmployeeDTO>)
      requires store.Valid()
      ensures r.Some? <==> employeeId in store.employees
      ensures r.Some? ==> r.value == ToEmployeeDTO(store.employees[employeeId]) &&
                          r.value.id == Some(employeeId)
    {
      if employeeId in store.employees {
        r := Some(ToEmployeeDTO(store.employees[employeeId]));
      } else {
        r := None;
      }
    }

    /** `createEmployee`: empty, writing nothing, when the personal id is already stored;
        otherwise exactly one new employee built from the DTO, whose stored password is
        the DTO's raw password. An unknown position label throws before any write. */
    method CreateEmployee(dto: CreateEmployeeDTO) returns (r: Result<Option<EmployeeDTO>>)
      requires store.Valid()
      modifies store
      ensures store.Valid()
      ensures PersonalIdInUse(old(store.employees), dto.personalId) ==> r == Ok(None) && unchanged(store)
      ensures (!PersonalIdInUse(old(store.employees), dto.personalId) &&
               Positions.FromLabel(dto.position).Err?) ==> r == Err(UnknownPosition) && unchanged(store)
      ensures (!PersonalIdInUse(old(store.employees), dto.personalId) &&
               Positions.FromLabel(dto.position).Ok?) ==>
                var k := old(store.nextEmployeeId);
                var e := FromCreateEmployeeDTO(dto, old(store.departments)).value.(id := Some(k));
                store.employees == old(store.employees)[k := e] &&
                k !in old(store.employees) &&
                store.nextEmployeeId == k + 1 &&
                e.password == Some(dto.password) &&
                r == Ok(Some(ToEmployeeDTO(e)))
      ensures store.departments == old(store.departments) && store.directorates == old(store.directorates)
      ensures store.nextDepartmentId == old(store.nextDepartmentId) && store.nextDirectorateId == old(store.nextDirectorateId)
    {
      var existing := store.FindByPersonalId(dto.personalId);
      if existing.Some? {
        return Ok(None);
      }
      var converted := FromCreateEmployeeDTO(dto, store.departments);
      if converted.Err? {
        return Err(converted.error);
      }
      var saved := store.SaveEmployee(converted.value);
      assert saved.Ok?;
      r := Ok(Some(ToEmployeeDTO(saved.value)));
    }

    /** `deleteEmployeeById`: true exactly when the id was stored; afterwards it is gone
        and every other row is as before. */
    method DeleteEmployeeById(employeeId: int) returns (deleted: bool)
      requires store.Valid()
      modifies store
      ensures store.Valid()
      ensures deleted == (employeeId in old(store.employees))
      ensures store.employees == old(store.employees) - {employeeId}
      ensures !deleted ==> unchanged(store)
      ensures store.departments == old(store.departments) && store.directorates == old(store.directorates)
      ensures store.nextEmployeeId == old(store.nextEmployeeId)
      ensures store.nextDepartmentId == old(store.nextDepartmentId)
      ensures store.nextDirectorateId == old(store.nextDirectorateId)
    {
      if employeeId in store.employees {
        store.DeleteEmployee(employeeId);
        return true;
      }
      return false;
    }

    /** `updateEmployee`: empty, writing nothing, when the id is not stored; otherwise the
        DTO (its id forced to `employeeId`) is converted, keeping the stored password, and
        written over the row. An unknown label, or a personal id held by another employee,
        throws and writes nothing. */
    method UpdateEmployee(employeeId: int, dto: EmployeeDTO) returns (r: Result<Option<EmployeeDTO>>)
      requires store.Valid()
      modifies store
      ensures store.Valid()
      ensures employeeId !in old(store.employees) ==> r == Ok(None) && unchanged(store)
      ensures employeeId in old(store.employees) ==>
                var converted := FromEmployeeDTO(dto.(id := Some(employeeId)), old(store.employees),
                                                 old(store.departments));
                if converted.Err? then
                  r == Err(UnknownPosition) && unchanged(store)
                else if PersonalIdTaken(old(store.employees), dto.personalId, employeeId) then
                  r == Err(DuplicatePersonalId) && unchanged(store)
                else
                  var e := converted.value;
                  e.id == Some(employeeId) &&
                  e.password == old(store.employees)[employeeId].password &&
                  store.employees == old(store.employees)[employeeId := e] &&
                  r == Ok(Some(ToEmployeeDTO(e)))
      ensures store.departments == old(store.departments) && store.directorates == old(store.directorates)
      ensures store.nextEmployeeId == old(store.nextEmployeeId)
      ensures store.nextDepartmentId == old(store.nextDepartmentId) && store.nextDirectorateId == old(store.nextDirectorateId)
    {
      if employeeId !in store.employees {
        return Ok(None);
      }
      var withId := dto.(id := Some(employeeId));
      var converted := FromEmployeeDTO(withId, store.employees, store.departments);
      if converted.Err? {
        return Err(converted.error);
      }
      var saved := store.SaveEmployee(converted.value);
      if saved.Err? {
        return Err(saved.error);
      }
      r := Ok(Some(ToEmployeeDTO(saved.value)));
    }

    /** `updateEmployeePassword`: the stored password becomes `encode(newPassword)` and
        nothing else changes; an absent id gives empty. */
    method UpdateEmployeePassword(employeeId: int, newPassword: string) returns (r: Option<EmployeeDTO>)
      requires store.Valid()
      modifies store
      ensures store.Valid()
      ensures employeeId !in old(store.employees) ==> r.None? && unchanged(store)
      ensures employeeId in old(store.employees) ==>
                var e := old(store.employees)[employeeId].(password := Some(encode(newPassword)));
                store.employees == old(store.employees)[employeeId := e] &&
                r == Some(ToEmployeeDTO(e))
      ensures store.departments == old(store.departments) && store.directorates == old(store.directorates)
      ensures store.nextEmployeeId == old(store.nextEmployeeId)
      ensures store.nextDepartmentId == old(store.nextDepartmentId) && store.nextDirectorateId == old(store.nextDirectorateId)
    {
      if employeeId !in store.employees {
        return None;
      }
      var employee := store.employees[employeeId];
      employee := employee.(password := Some(encode(newPassword)));
      var saved := store.SaveEmployee(employee);
      assert saved.Ok?;
      r := Some(ToEmployeeDTO(saved.value));
    }

    /** `updateEmployeeStatus`: `active` becomes the argument and nothing else changes;
        an absent id gives empty. */
    method UpdateEmployeeStatus(employeeId: int, active: bool) returns (r: Option<EmployeeDTO>)
      requires store.Valid()
      modifies store
      ensures store.Valid()
      ensures employeeId !in old(store.employees) ==> r.None? && unchanged(store)
      ensures employeeId in old(store.employees) ==>
                var e := old(store.employees)[employeeId].(active := active);
                store.employees == old(store.employees)[employeeId := e] &&
                r == Some(ToEmployeeDTO(e))
      ensures store.departments == old(store.departments) && store.directorates == old(store.directorates)
      ensures store.nextEmployeeId == old(store.nextEmployeeId)
      ensures store.nextDepartmentId == old(store.nextDepartmentId) && store.nextDirectorateId == old(store.nextDirectorateId)
    {
      if employeeId !in store.employees {
        return None;
      }
      var employee := store.employees[employeeId];
      employee := employee.(active := active);
      var saved := store.SaveEmployee(employee);
      assert saved.Ok?;
      r := Some(ToEmployeeDTO(saved.value));
    }
  }
}
