/** The transfer objects exchanged with clients. Ids and references are nullable
    `Long`s; `position` is the nullable label string of a `Position`. */
module Dtos {
  import opened Wrappers

  /** EmployeeDTO: an employee without its password. */
  datatype EmployeeDTO = EmployeeDTO(
    id: Option<int>,
    active: bool,
    name: string,
    surname: string,
    personalId: string,
    age: int,
    position: Option<string>,
    departmentId: Option<int>)

  /** CreateEmployeeDTO: no id, but a raw password. */
  datatype CreateEmployeeDTO = CreateEmployeeDTO(
    active: bool,
    name: string,
    surname: string,
    personalId: string,
    password: string,
    age: int,
    position: Option<string>,
    departmentId: Option<int>)

  datatype DepartmentDTO = DepartmentDTO(
    id: Option<int>,
    active: bool,
    name: string,
    description: string,
    directorateId: Option<int>)

  datatype DirectorateDTO = DirectorateDTO(
    id: Option<int>,
    active: bool,
    name: string,
    description: string,
    directorId: Option<int>)

  /** RegisterRequest: the self-registration form. */
  datatype RegisterRequest = RegisterRequest(
    firstName: string,
    lastName: string,
    personalId: string,
    password: string,
    age: int)

  /** AuthenticationRequest: the login form. */
  datatype AuthenticationRequest = AuthenticationRequest(personalId: string, password: string)
}
