/** Check-then-write operations on the department table. */
module DepartmentServices {
  import opened Wrappers
  import opened Dtos
  import opened Repositories
  import opened Converter

  class DepartmentService {
    const store: Store

    constructor (store: Store)
      ensures this.store == store
    {
      this.store := store;
    }

    /** `getAllDepartments`: every department, or only the active ones, keyed by id. */
    method GetAllDepartments(activeOnly: bool) returns (page: map<int, DepartmentDTO>)
      requires store.Valid()
      ensures forall k :: k in page <==> k in store.departments && (store.departments[k].active || !activeOnly)
      ensures forall k :: k in page ==> page[k] == ToDepartmentDTO(store.departments[k]) && page[k].id == Some(k)
      ensures activeOnly ==> forall k :: k in page ==> page[k].active
    {
      page := map k | k in store.departments && (store.departments[k].active || !activeOnly)
                    :: ToDepartmentDTO(store.departments[k]);
    }

    /** `getDepartmentById`: the DTO of the stored department, or empty. */
    method GetDepartmentById(departmentId: int) returns (r: Option<DepartmentDTO>)
      requires store.Valid()
      ensures r.Some? <==> departmentId in store.departments
      ensures r.Some? ==> r.value == ToDepartmentDTO(store.departments[departmentId]) &&
                          r.value.id == Some(departmentId)
    {
      if departmentId in store.departments {
        r := Some(ToDepartmentDTO(store.departments[departmentId]));
      } else {
        r := None;
      }
    }

    /** `createDepartment`: the converted DTO is saved and its DTO returned; no uniqueness
        is checked. A null directorate id throws in the converter before any write. */
    method CreateDepartment(dto: DepartmentDTO) returns (r: Result<DepartmentDTO>)
      requires store.Valid()
      modifies store
      ensures store.Valid()
      ensures dto.directorateId.None? ==> r == Err(NullId) && unchanged(store)
      ensures dto.directorateId.Some? ==>
                var k := Slot(dto.id, old(store.departments).Keys, old(store.nextDepartmentId));
                var d := FromDepartmentDTO(dto, old(store.directorates)).value.(id := Some(k));
                store.departments == old(store.departments)[k := d] &&
                store.nextDepartmentId == Advance(k, old(store.nextDepartmentId)) &&
                r == Ok(ToDepartmentDTO(d))
      ensures store.employees == old(store.employees) && store.directorates == old(store.directorates)
      ensures store.nextEmployeeId == old(store.nextEmployeeId) && store.nextDirectorateId == old(store.nextDirectorateId)
    {
      var converted := FromDepartmentDTO(dto, store.directorates);
      if converted.Err? {
        return Err(converted.error);
      }
      var saved := store.SaveDepartment(converted.value);
      r := Ok(ToDepartmentDTO(saved));
    }

    /** `deleteDepartmentById`: true exactly when the id was stored; afterwards it is gone.
        Employees that referenced it keep the (now dangling) reference. */
    method DeleteDepartmentById(departmentId: int) returns (deleted: bool)
      requires store.Valid()
      modifies store
      ensures store.Valid()
      ensures deleted == (departmentId in old(store.departments))
      ensures store.departments == old(store.departments) - {departmentId}
      ensures !deleted ==> unchanged(store)
      ensures store.employees == old(store.employees) && store.directorates == old(store.directorates)
      ensures store.nextEmployeeId == old(store.nextEmployeeId)
      ensures store.nextDepartmentId == old(store.nextDepartmentId)
      ensures store.nextDirectorateId == old(store.nextDirectorateId)
    {
      if departmentId in store.departments {
        store.DeleteDepartment(departmentId);
        return true;
      }
      return false;
    }

    /** `updateDepartment`: empty, writing nothing, when the id is not stored; otherwise
        the DTO (its id forced to `departmentId`) is converted and written over the row.
        A null directorate id throws in the converter before any write. */
    method UpdateDepartment(departmentId: int, dto: DepartmentDTO) returns (r: Result<Option<DepartmentDTO>>)
      requires store.Valid()
      modifies store
      ensures store.Valid()
      ensures departmentId !in old(store.departments) ==> r == Ok(None) && unchanged(store)
      ensures departmentId in old(store.departments) && dto.directorateId.None? ==>
                r == Err(NullId) && unchanged(store)
      ensures departmentId in old(store.departments) && dto.directorateId.Some? ==>
                var d := FromDepartmentDTO(dto.(id := Some(departmentId)), old(store.directorates)).value;
                d.id == Some(departmentId) &&
                store.departments == old(store.departments)[departmentId := d] &&
                r == Ok(Some(ToDepartmentDTO(d)))
      ensures store.employees == old(store.employees) && store.directorates == old(store.directorates)
      ensures store.nextEmployeeId == old(store.nextEmployeeId) && store.nextDirectorateId == old(store.nextDirectorateId)
      ensures store.nextDepartmentId == old(store.nextDepartmentId)
    {
      if departmentId !in store.departments {
        return Ok(None);
      }
      var withId := dto.(id := Some(departmentId));
      var converted := FromDepartmentDTO(withId, store.directorates);
      if converted.Err? {
        return Err(converted.error);
      }
      var saved := store.SaveDepartment(converted.value);
      r := Ok(Some(ToDepartmentDTO(saved)));
    }

    /** `updateDepartmentStatus`: only `active` changes; an absent id gives empty. */
    method UpdateDepartmentStatus(departmentId: int, active: bool) returns (r: Option<DepartmentDTO>)
      requires store.Valid()
      modifies store
      ensures store.Valid()
      ensures departmentId !in old(store.departments) ==> r.None? && unchanged(store)
      ensures departmentId in old(store.departments) ==>
                var d := old(store.departments)[departmentId].(active := active);
                store.departments == old(store.departments)[departmentId := d] &&
                r == Some(ToDepartmentDTO(d))
      ensures store.employees == old(store.employees) && store.directorates == old(store.directorates)
      ensures store.nextEmployeeId == old(store.nextEmployeeId) && store.nextDirectorateId == old(store.nextDirectorateId)
      ensures store.nextDepartmentId == old(store.nextDepartmentId)
    {
      if departmentId !in store.departments {
        return None;
      }
      var department := store.departments[departmentId];
      department := department.(active := active);
      var saved := store.SaveDepartment(department);
      r := Some(ToDepartmentDTO(saved));
    }
  }
}
