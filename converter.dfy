/** Entity/DTO mapping. Each conversion reads the stored tables it looks references
    up in (a snapshot of the store) and never changes its input. */
module Converter {
  import opened Wrappers
  import opened Entities
  import opened Dtos
  import Positions

  /** `findById` on a table: the stored row, when the id names one. */
  predicate Resolves<T>(m: map<int, T>, id: Option<int>) {
    id.Some? && id.value in m
  }

  // ---------------------------------------------------------------------------
  // Employee

  /** `convert(Employee)`: every column but the password; the position as its label;
      the department id exactly when the employee has a department. */
  function ToEmployeeDTO(e: Employee): (dto: EmployeeDTO)
    ensures dto.id == e.id && dto.active == e.active && dto.personalId == e.personalId
    ensures dto.name == e.name && dto.surname == e.surname && dto.age == e.age
    ensures dto.position == Some(Positions.Label(e.position))
    ensures dto.departmentId.Some? <==> e.department.Some?
    ensures e.department.Some? ==> dto.departmentId == e.department
  {
    EmployeeDTO(e.id, e.active, e.name, e.surname, e.personalId, e.age,
                Some(Positions.Label(e.position)), e.department)
  }

  /** The department reference a converter sets: the found department, or null when the
      id is null or names no stored department. */
  function DepartmentRef(departments: map<int, Department>, id: Option<int>): (r: Option<int>)
    ensures r.Some? <==> Resolves(departments, id)
    ensures r.Some? ==> r == id
  {
    if Resolves(departments, id) then id else None
  }

  /** `convertDTO(EmployeeDTO)`: the position parsed from its label (an unknown label
      throws); the password copied from the stored employee with the same id, if any;
      the department set only when its id names a stored department. */
  function FromEmployeeDTO(dto: EmployeeDTO, employees: map<int, Employee>,
                           departments: map<int, Department>): (r: Result<Employee>)
    ensures r.Err? <==> Positions.FromLabel(dto.position).Err?
    ensures r.Err? ==> r.error == UnknownPosition
    ensures r.Ok? ==>
              r.value.id == dto.id && r.value.active == dto.active &&
              r.value.name == dto.name && r.value.surname == dto.surname &&
              r.value.personalId == dto.personalId && r.value.age == dto.age &&
              Positions.FromLabel(dto.position) == Ok(r.value.position) &&
              r.value.password == (if Resolves(employees, dto.id) then employees[dto.id.value].password else None) &&
              (r.value.department.Some? <==> Resolves(departments, dto.departmentId)) &&
              (r.value.department.Some? ==> r.value.department == dto.departmentId)
  {
    match Positions.FromLabel(dto.position)
    case Err(f) => Err(f)
    case Ok(p) =>
      var password := if Resolves(employees, dto.id) then employees[dto.id.value].password else None;
      Ok(Employee(dto.id, dto.active, dto.name, dto.surname, dto.personalId, password, dto.age,
                  p, DepartmentRef(departments, dto.departmentId)))
  }

  /** `convertDTO(CreateEmployeeDTO)`: never an id; the raw password copied with no
      encoding; position and department as for an `EmployeeDTO`. */
  function FromCreateEmployeeDTO(dto: CreateEmployeeDTO, departments: map<int, Department>): (r: Result<Employee>)
    ensures r.Err? <==> Positions.FromLabel(dto.position).Err?
    ensures r.Ok? ==>
              r.value.id.None? && r.value.active == dto.active && r.value.name == dto.name &&
              r.value.surname == dto.surname && r.value.personalId == dto.personalId &&
              r.value.password == Some(dto.password) && r.value.age == dto.age &&
              Positions.FromLabel(dto.position) == Ok(r.value.position) &&
              (r.value.department.Some? <==> Resolves(departments, dto.departmentId)) &&
              (r.value.department.Some? ==> r.value.department == dto.departmentId)
  {
    match Positions.FromLabel(dto.position)
    case Err(f) => Err(f)
    case Ok(p) =>
      Ok(Employee(None, dto.active, dto.name, dto.surname, dto.personalId, Some(dto.password),
                  dto.age, p, DepartmentRef(departments, dto.departmentId)))
  }

  /** Round trip: converting an employee to its DTO and back keeps id, active, name,
      surname, personalId, age and position, whatever the store holds. */
  lemma EmployeeRoundTripFields(e: Employee, employees: map<int, Employee>,
                                departments: map<int, Department>)
    ensures FromEmployeeDTO(ToEmployeeDTO(e), employees, departments).Ok?
    ensures var back := FromEmployeeDTO(ToEmployeeDTO(e), employees, departments).value;
            back.id == e.id && back.active == e.active && back.name == e.name &&
            back.surname == e.surname && back.personalId == e.personalId &&
            back.age == e.age && back.position == e.position
  {
    Positions.LabelRoundTrip(e.position);
  }

  /** Round trip for a stored employee: the password comes back from the store and a
      resolving department reference survives, so the entity is restored exactly;
      a dangling department reference is dropped. */
  lemma StoredEmployeeRoundTrip(e: Employee, employees: map<int, Employee>,
                                departments: map<int, Department>)
    requires e.id.Some? && e.id.value in employees && employees[e.id.value] == e
    ensures FromEmployeeDTO(ToEmployeeDTO(e), employees, departments) ==
              Ok(if Resolves(departments, e.department) then e else e.(department := None))
  {
    Positions.LabelRoundTrip(e.position);
  }

  // ---------------------------------------------------------------------------
  // Department

  /** `convert(Department)`: the directorate id exactly when the department has one. */
  function ToDepartmentDTO(d: Department): (dto: DepartmentDTO)
    ensures dto.id == d.id && dto.active == d.active
    ensures dto.name == d.name && dto.description == d.description
    ensures dto.directorateId.Some? <==> d.directorate.Some?
    ensures d.directorate.Some? ==> dto.directorateId == d.directorate
  {
    DepartmentDTO(d.id, d.active, d.name, d.description, d.directorate)
  }

  /** `convertDTO(DepartmentDTO)`: the directorate is looked up with no null guard, so a
      null directorate id throws; an id naming no stored directorate leaves it unset. */
  function FromDepartmentDTO(dto: DepartmentDTO, directorates: map<int, DirectorateRow>): (r: Result<Department>)
    ensures r.Err? <==> dto.directorateId.None?
    ensures r.Err? ==> r.error == NullId
    ensures r.Ok? ==>
              r.value.id == dto.id && r.value.active == dto.active &&
              r.value.name == dto.name && r.value.description == dto.description &&
              (r.value.directorate.Some? <==> dto.directorateId.value in directorates) &&
              (r.value.directorate.Some? ==> r.value.directorate == dto.directorateId)
  {
    if dto.directorateId.None? then Err(NullId)
    else
      var directorate := if dto.directorateId.value in directorates then dto.directorateId else None;
      Ok(Department(dto.id, dto.active, dto.name, dto.description, directorate))
  }

  /** Round trip: a department whose directorate is stored converts back to itself; one
      without a directorate cannot be converted back at all, and one whose directorate
      is gone comes back detached. */
  lemma DepartmentRoundTrip(d: Department, directorates: map<int, DirectorateRow>)
    ensures d.directorate.None? ==> FromDepartmentDTO(ToDepartmentDTO(d), directorates) == Err(NullId)
    ensures d.directorate.Some? ==>
              FromDepartmentDTO(ToDepartmentDTO(d), directorates) ==
                Ok(if d.directorate.value in directorates then d else d.(directorate := None))
  {
  }

  // ---------------------------------------------------------------------------
  // Directorate

  /** `convert(Directorate)`: the director id exactly when the directorate has one. */
  function ToDirectorateDTO(d: DirectorateRow): (dto: DirectorateDTO)
    ensures dto.id == d.id && dto.active == d.active
    ensures dto.name == d.name && dto.description == d.description
    ensures dto.directorId.Some? <==> d.director.Some?
    ensures d.director.Some? ==> dto.directorId == d.director
  {
    DirectorateDTO(d.id, d.active, d.name, d.description, d.director)
  }

  /** The director_id column of an entity whose director object is `director`. */
  function DirectorColumn(director: Option<Employee>): Option<int> {
    if director.Some? then director.value.id else None
  }

  /** `convertDTO(DirectorateDTO)`: a fresh directorate (no director) given the looked-up
      employee through `setDirector`, so the director is set only when the id names a
      stored employee holding the DIRECTORATE_DIRECTOR position. The lookup has no null
      guard: a null director id throws. */
  function FromDirectorateDTO(dto: DirectorateDTO, employees: map<int, Employee>): (r: Result<DirectorateRow>)
    ensures r.Err? <==> dto.directorId.None?
    ensures r.Err? ==> r.error == NullId
    ensures r.Ok? ==>
              r.value.id == dto.id && r.value.active == dto.active &&
              r.value.name == dto.name && r.value.description == dto.description &&
              (r.value.director.Some? ==>
                 (dto.directorId.value in employees &&
                  employees[dto.directorId.value].position == Positions.DirectorateDirector &&
                  r.value.director == employees[dto.directorId.value].id))
  {
    if dto.directorId.None? then Err(NullId)
    else
      var director := if dto.directorId.value in employees
                      then AssignDirector(None, employees[dto.directorId.value]) else None;
      Ok(DirectorateRow(dto.id, dto.active, dto.name, dto.description, DirectorColumn(director)))
  }

  /** In a keyed employee table the converter sets the director exactly when the id
      names a stored directorate director, and then to that id. */
  lemma FromDirectorateDTODirector(dto: DirectorateDTO, employees: map<int, Employee>)
    requires forall k :: k in employees ==> employees[k].id == Some(k)
    requires dto.directorId.Some?
    ensures FromDirectorateDTO(dto, employees).Ok?
    ensures var director := FromDirectorateDTO(dto, employees).value.director;
            (director.Some? <==>
               (dto.directorId.value in employees &&
                employees[dto.directorId.value].position == Positions.DirectorateDirector)) &&
            (director.Some? ==> director == dto.directorId)
  {
    var k := dto.directorId.value;
    if k in employees {
      assert employees[k].id == Some(k);
    }
  }

  /** Round trip: a directorate whose director is a stored directorate director
      converts back to itself; any other director is dropped; one without a director
      cannot be converted back at all. */
  lemma DirectorateRoundTrip(d: DirectorateRow, employees: map<int, Employee>)
    requires forall k :: k in employees ==> employees[k].id == Some(k)
    ensures d.director.None? ==> FromDirectorateDTO(ToDirectorateDTO(d), employees) == Err(NullId)
    ensures d.director.Some? ==>
              FromDirectorateDTO(ToDirectorateDTO(d), employees) ==
                Ok(if d.director.value in employees &&
                      employees[d.director.value].position == Positions.DirectorateDirector
                   then d else d.(director := None))
  {
    if d.director.Some? {
      FromDirectorateDTODirector(ToDirectorateDTO(d), employees);
    }
  }
}
