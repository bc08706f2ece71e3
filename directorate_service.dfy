/** Check-then-write operations on the directorate table. */
module DirectorateServices {
  import opened Wrappers
  import opened Dtos
  import opened Repositories
  import opened Converter

  /** A non-empty set has an element to pick. */
  lemma NonEmptyHasElement(s: set<int>)
    requires s != {}
    ensures exists x :: x in s
  {
    if forall x :: x !in s {
      assert false;
    }
  }

  class DirectorateService {
    const store: Store

    constructor (store: Store)
      ensures this.store == store
    {
      this.store := store;
    }

    /** `getAllDirectorates`: every directorate, or only the active ones, keyed by id. */
    method GetAllDirectorates(activeOnly: bool) returns (page: map<int, DirectorateDTO>)
      requires store.Valid()
      ensures forall k :: k in page <==> k in store.directorates && (store.directorates[k].active || !activeOnly)
      ensures forall k :: k in page ==> page[k] == ToDirectorateDTO(store.directorates[k]) && page[k].id == Some(k)
      ensures activeOnly ==> forall k :: k in page ==> page[k].active
    {
      page := map k | k in store.directorates && (store.directorates[k].active || !activeOnly)
                    :: ToDirectorateDTO(store.directorates[k]);
    }

    /** `getDirectorateById`: the DTO of the stored directorate, or empty. */
    method GetDirectorateById(directorateId: int) returns (r: Option<DirectorateDTO>)
      requires store.Valid()
      ensures r.Some? <==> directorateId in store.directorates
      ensures r.Some? ==> r.value == ToDirectorateDTO(store.directorates[directorateId]) &&
                          r.value.id == Some(directorateId)
    {
      if directorateId in store.directorates {
        r := Some(ToDirectorateDTO(store.directorates[directorateId]));
      } else {
        r := None;
      }
    }

    /** `createDirectorate`: empty, writing nothing, when some directorate already has
        the DTO's director id; otherwise the converted DTO is saved (a null director id
        throws in the converter's lookup). The save cannot then break the one-directorate-
        per-director rule. */
    method CreateDirectorate(dto: DirectorateDTO) returns (r: Result<Option<DirectorateDTO>>)
      requires store.Valid()
      modifies store
      ensures store.Valid()
      ensures dto.directorId.None? ==> r == Err(NullId) && unchanged(store)
      ensures dto.directorId.Some? && (exists k :: k in old(store.directorates) &&
                                                   old(store.directorates)[k].director == dto.directorId) ==>
                r == Ok(None) && unchanged(store)
      ensures dto.directorId.Some? && (forall k :: k in old(store.directorates) ==>
                                                   old(store.directorates)[k].director != dto.directorId) ==>
                var k := Slot(dto.id, old(store.directorates).Keys, old(store.nextDirectorateId));
                var d := FromDirectorateDTO(dto, old(store.employees)).value.(id := Some(k));
                store.directorates == old(store.directorates)[k := d] &&
                store.nextDirectorateId == Advance(k, old(store.nextDirectorateId)) &&
                r == Ok(Some(ToDirectorateDTO(d)))
      ensures store.employees == old(store.employees) && store.departments == old(store.departments)
      ensures store.nextEmployeeId == old(store.nextEmployeeId) && store.nextDepartmentId == old(store.nextDepartmentId)
    {
      var existing := store.FindByDirectorId(dto.directorId);
      if existing.Some? {
        return Ok(None);
      }
      var converted := FromDirectorateDTO(dto, store.employees);
      if converted.Err? {
        return Err(converted.error);
      }
      ghost var k := Slot(dto.id, store.directorates.Keys, store.nextDirectorateId);
      FromDirectorateDTODirector(dto, store.employees);
      assert !DirectorTaken(store.directorates, converted.value.director, k);
      var saved := store.SaveDirectorate(converted.value);
      assert saved.Ok?;
      r := Ok(Some(ToDirectorateDTO(saved.value)));
    }

    /** `deleteDirectorateById`: on a stored id, every department that referenced the
        directorate is detached (its reference set to null), the directorate is removed and
        true is returned; an absent id gives false and changes nothing. */
    method DeleteDirectorateById(directorateId: int) returns (deleted: bool)
      requires store.Valid()
      modifies store
      ensures store.Valid()
      ensures deleted == (directorateId in old(store.directorates))
      ensures !deleted ==> unchanged(store)
      ensures deleted ==>
                store.directorates == old(store.directorates) - {directorateId} &&
                store.departments == DetachDirectorate(old(store.departments), directorateId)
      ensures store.employees == old(store.employees)
      ensures store.nextEmployeeId == old(store.nextEmployeeId)
      ensures store.nextDepartmentId == old(store.nextDepartmentId)
      ensures store.nextDirectorateId == old(store.nextDirectorateId)
    {
      if directorateId !in store.directorates {
        return false;
      }
      // The directorate's `departments` collection: the rows that reference it.
      var children := set k | k in store.departments && store.departments[k].directorate == Some(directorateId);
      var todo := children;
      while todo != {}
        invariant todo <= children
        invariant forall k :: k in children ==>
                    (k in old(store.departments) && old(store.departments)[k].directorate == Some(directorateId))
        invariant store.departments.Keys == old(store.departments).Keys
        invariant forall k :: k in store.departments ==>
                    store.departments[k] ==
                      if k in children && k !in todo then old(store.departments)[k].(directorate := None)
                      else old(store.departments)[k]
        invariant store.employees == old(store.employees) && store.directorates == old(store.directorates)
        invariant store.nextEmployeeId == old(store.nextEmployeeId)
        invariant store.nextDepartmentId == old(store.nextDepartmentId)
        invariant store.nextDirectorateId == old(store.nextDirectorateId)
        decreases |todo|
      {
        NonEmptyHasElement(todo);
        var k :| k in todo;
        store.departments := store.departments[k := store.departments[k].(directorate := None)];
        todo := todo - {k};
      }
      ghost var detached := DetachDirectorate(old(store.departments), directorateId);
      assert forall k :: k in store.departments ==> store.departments[k] == detached[k];
      assert store.departments == detached;
      store.DeleteDirectorate(directorateId);
      return true;
    }

    /** `updateDirectorate`: empty, writing nothing, when the id is not stored; otherwise
        the DTO (its id forced to `directorateId`) is converted and written over the row,
        with no check for a director already used elsewhere: only the unique column then
        rejects such a write. A null director id throws in the converter. */
    method UpdateDirectorate(directorateId: int, dto: DirectorateDTO) returns (r: Result<Option<DirectorateDTO>>)
      requires store.Valid()
      modifies store
      ensures store.Valid()
      ensures directorateId !in old(store.directorates) ==> r == Ok(None) && unchanged(store)
      ensures directorateId in old(store.directorates) ==>
                var converted := FromDirectorateDTO(dto.(id := Some(directorateId)), old(store.employees));
                if converted.Err? then
                  r == Err(NullId) && unchanged(store)
                else if DirectorTaken(old(store.directorates), converted.value.director, directorateId) then
                  r == Err(DuplicateDirector) && unchanged(store)
                else
                  converted.value.id == Some(directorateId) &&
                  store.directorates == old(store.directorates)[directorateId := converted.value] &&
                  r == Ok(Some(ToDirectorateDTO(converted.value)))
      ensures store.employees == old(store.employees) && store.departments == old(store.departments)
      ensures store.nextEmployeeId == old(store.nextEmployeeId) && store.nextDepartmentId == old(store.nextDepartmentId)
      ensures store.nextDirectorateId == old(store.nextDirectorateId)
    {
      if directorateId !in store.directorates {
        return Ok(None);
      }
      var withId := dto.(id := Some(directorateId));
      var converted := FromDirectorateDTO(withId, store.employees);
      if converted.Err? {
        return Err(converted.error);
      }
      var saved := store.SaveDirectorate(converted.value);
      if saved.Err? {
        return Err(saved.error);
      }
      r := Ok(Some(ToDirectorateDTO(saved.value)));
    }

    /** `updateDirectorateStatus`: only `active` changes; an absent id gives empty. */
    method UpdateDirectorateStatus(directorateId: int, active: bool) returns (r: Option<DirectorateDTO>)
      requires store.Valid()
      modifies store
      ensures store.Valid()
      ensures directorateId !in old(store.directorates) ==> r.None? && unchanged(store)
      ensures directorateId in old(store.directorates) ==>
                var d := old(store.directorates)[directorateId].(active := active);
                store.directorates == old(store.directorates)[directorateId := d] &&
                r == Some(ToDirectorateDTO(d))
      ensures store.employees == old(store.employees) && store.departments == old(store.departments)
      ensures store.nextEmployeeId == old(store.nextEmployeeId) && store.nextDepartmentId == old(store.nextDepartmentId)
      ensures store.nextDirectorateId == old(store.nextDirectorateId)
    {
      if directorateId !in store.directorates {
        return None;
      }
      var directorate := store.directorates[directorateId];
      directorate := directorate.(active := active);
      var saved := store.SaveDirectorate(directorate);
      assert saved.Ok?;
      r := Some(ToDirectorateDTO(saved.value));
    }
  }
}
