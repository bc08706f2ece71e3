# Organisation management: a verified model of the core

The system is a Spring backend that keeps an organisation's employees, departments and
directorates in a relational database. It exposes CRUD operations on them and issues
JWT tokens to employees who register or log in. This project models the logic under
the HTTP, JPA and JWT plumbing, and proves properties of that model:

- the `Position` enum and its case-insensitive label lookup (`positions.dfy`);
- the entities, including the `Directorate` entity whose `setDirector` silently refuses
  anyone who is not a directorate director (`entities.dfy`);
- the DTOs (`dtos.dfy`) and the entity/DTO converter, with its store lookups
  (`converter.dfy`);
- the security principal view `EmployeeDetails` (`employee_details.dfy`);
- role derivation and the `register`/`authenticate` transactions (`authentication.dfy`);
- the three services (`employee_service.dfy`, `directorate_service.dfy`,
  `department_service.dfy`).

The database is a class `Repositories.Store`. It holds one map per table (id to row)
and one identity counter per table. Its invariant `Valid()` says:

- every row is stored under its own id, below its table's counter;
- every stored password is non-null;
- `personalId` is unique over employees;
- a non-null `director_id` is unique over directorates.

Save has JPA semantics. An entity whose id names a stored row overwrites it (a merge).
Any other entity is inserted under the next identity value. A save that would break a
unique or not-null column fails and writes nothing. Entity references are modelled as
the foreign-key columns the rows hold. The reverse collections
(`Directorate.departments`, `Department.employees`) are the rows whose key refers back.

Every service method requires `Valid()` and ensures it again. It also states the
result and the complete new state in terms of the old one: the rows it writes, and that
the other tables and every identity counter it does not advance are unchanged.

Several library behaviours are part of the model:

- Spring Data's `findById(null)` throws.
- The JPQL query `d.director.id = :directorId` matches nothing for a null parameter.
- `equalsIgnoreCase` is folded character by character.

Exceptions are the `Err` cases of `Wrappers.Result`.

Where the code and its documentation differ, the model follows the code:

- `createDepartment` is documented as always returning a department. It fails (`NullId`)
  when the DTO has no directorate id, because `convertDTO(DepartmentDTO)` passes that id
  to `findById` without a null check. The same holds for `createDirectorate` and
  `updateDirectorate` with no director id, and for `updateDepartment` with no
  directorate id.
- `createDirectorate` is documented as creating a new directorate
  (DirectorateService.java:60). That holds when the DTO's id is null or names no stored row. A DTO id that names a stored directorate overwrites it, as does
  `createDepartment` for departments.
- `register` does no lookup of the personal id before saving. A duplicate therefore
  fails on the unique column (`DuplicatePersonalId`) and nothing is written.

## Model

| member | source | states |
|---|---|---|
| Positions.ValuesEnumerate | course-work/Implementations/Project/src/main/java/com/infosystemsinternational/task/enums/Position.java:10-20 | `values()` lists each of the three constants exactly once |
| Positions.Values | course-work/Implementations/Project/src/main/java/com/infosystemsinternational/task/enums/Position.java:10-20 | `values()` has three constants, in declaration order from the highest rank to the lowest: DIRECTORATE_DIRECTOR, DEPARTMENT_HEAD, EMPLOYEE |
| Positions.Label | course-work/Implementations/Project/src/main/java/com/infosystemsinternational/task/enums/Position.java:10-40 | `getLabel` returns the label each constant is declared with: non-empty printable ASCII |
| Positions.Name | course-work/Implementations/Project/src/main/java/com/infosystemsinternational/task/enums/Position.java:10-20 | `name()` is the constant's identifier: non-empty, upper-case letters and underscores |
| Positions.EqualsIgnoreCaseEquivalence | course-work/Implementations/Project/src/main/java/com/infosystemsinternational/task/enums/Position.java:51 | `equalsIgnoreCase` is reflexive, symmetric and transitive |
| Positions.FoldIgnoresCase | course-work/Implementations/Project/src/main/java/com/infosystemsinternational/task/enums/Position.java:51 | the per-character fold of `equalsIgnoreCase` is lower-casing on ASCII, is unchanged by switching a character's case, and is idempotent |
| Positions.FindLabelCorrect | course-work/Implementations/Project/src/main/java/com/infosystemsinternational/task/enums/Position.java:50-54 | the search loop returns a constant of the list whose label matches, and finds nothing exactly when no constant matches |
| Positions.FromLabel | course-work/Implementations/Project/src/main/java/com/infosystemsinternational/task/enums/Position.java:49-56 | succeeds exactly when some label equals the text ignoring case, and returns a matching constant; otherwise fails with UnknownPosition |
| Positions.LabelsDistinctIgnoringCase | course-work/Implementations/Project/src/main/java/com/infosystemsinternational/task/enums/Position.java:10-20 | two labels are equal ignoring case only when the positions are the same |
| Positions.AtMostOneMatch | course-work/Implementations/Project/src/main/java/com/infosystemsinternational/task/enums/Position.java:10-20 | no input matches two different labels |
| Positions.FromLabelExact | course-work/Implementations/Project/src/main/java/com/infosystemsinternational/task/enums/Position.java:49-56 | `fromLabel(text) == p` if and only if the label of p matches text |
| Positions.LabelRoundTrip | course-work/Implementations/Project/src/main/java/com/infosystemsinternational/task/enums/Position.java:38-56 | `fromLabel(getLabel(p)) == p` for every position |
| Positions.FromLabelRejects | course-work/Implementations/Project/src/main/java/com/infosystemsinternational/task/enums/Position.java:50-55 | null, or a text matching no label ignoring case, throws and yields no position |
| Positions.FromLabelIgnoresCase | course-work/Implementations/Project/src/main/java/com/infosystemsinternational/task/enums/Position.java:51 | any per-character upper/lower-casing of a label yields that label's position |
| Positions.UpperCaseLabel | course-work/Implementations/Project/src/main/java/com/infosystemsinternational/task/enums/Position.java:51 | the all-upper-case label yields its position |
| Entities.AssignDirectorKeepsQualified | course-work/Implementations/Project/src/main/java/com/infosystemsinternational/task/entity/Directorate.java:64-68 | after `setDirector` a qualified director stays qualified |
| Entities.AssignDirectorAccepts | course-work/Implementations/Project/src/main/java/com/infosystemsinternational/task/entity/Directorate.java:64-68 | the offered employee becomes director when it is a directorate director; any other employee leaves the director unchanged, null included |
| Entities.AssignDirector | course-work/Implementations/Project/src/main/java/com/infosystemsinternational/task/entity/Directorate.java:64-68 | the director after `setDirector(e)` is either the previous one or e, and it changes only when e is a directorate director |
| Entities.AssignDirectorsQualified | course-work/Implementations/Project/src/main/java/com/infosystemsinternational/task/entity/Directorate.java:54-68 | after any series of `setDirector` calls on a qualified start, the director is qualified; it is the last directorate director offered, or the start value when none was offered |
| Entities.Directorate.constructor | course-work/Implementations/Project/src/main/java/com/infosystemsinternational/task/entity/Directorate.java:18 | the no-argument constructor leaves every field null and `active` true, so its director is qualified |
| Entities.Directorate.Named | course-work/Implementations/Project/src/main/java/com/infosystemsinternational/task/entity/Directorate.java:54-57 | the two-argument constructor sets name and description only; director and departments stay null and `active` is true |
| Entities.Directorate.AllArgs | course-work/Implementations/Project/src/main/java/com/infosystemsinternational/task/entity/Directorate.java:19 | the all-arguments constructor stores any director unchecked; the result is qualified exactly when that director is |
| Entities.Directorate.SetDirector | course-work/Implementations/Project/src/main/java/com/infosystemsinternational/task/entity/Directorate.java:64-68 | director becomes e when e is a directorate director and is otherwise unchanged; only the director field is written; qualification is preserved |
| Details.RoleName | course-work/Implementations/Project/src/main/java/com/infosystemsinternational/task/security/EmployeeDetails.java:35 | an authority is `"ROLE_"` followed by the position's `name()` |
| Details.RoleNameInjective | course-work/Implementations/Project/src/main/java/com/infosystemsinternational/task/security/EmployeeDetails.java:34-36 | distinct positions have distinct `"ROLE_" + name()` authorities |
| Details.EmployeeDetails.Authorities | course-work/Implementations/Project/src/main/java/com/infosystemsinternational/task/security/EmployeeDetails.java:34-36 | exactly one authority, `"ROLE_"` followed by the position's name |
| Details.EmployeeDetails.Password | course-work/Implementations/Project/src/main/java/com/infosystemsinternational/task/security/EmployeeDetails.java:44-46 | the stored password field, unchanged |
| Details.EmployeeDetails.Username | course-work/Implementations/Project/src/main/java/com/infosystemsinternational/task/security/EmployeeDetails.java:54-56 | the employee's personal id |
| Details.EmployeeDetails.IsAccountNonExpired | course-work/Implementations/Project/src/main/java/com/infosystemsinternational/task/security/EmployeeDetails.java:64-66 | always true |
| Details.EmployeeDetails.IsAccountNonLocked | course-work/Implementations/Project/src/main/java/com/infosystemsinternational/task/security/EmployeeDetails.java:74-76 | always true |
| Details.EmployeeDetails.IsCredentialsNonExpired | course-work/Implementations/Project/src/main/java/com/infosystemsinternational/task/security/EmployeeDetails.java:84-86 | always true |
| Details.EmployeeDetails.IsEnabled | course-work/Implementations/Project/src/main/java/com/infosystemsinternational/task/security/EmployeeDetails.java:94-96 | the employee's `active` flag |
| Details.AccountUsableIffActive | course-work/Implementations/Project/src/main/java/com/infosystemsinternational/task/security/EmployeeDetails.java:63-96 | all four account flags hold exactly when the employee is active |
| Authentication.RoleNames | course-work/Implementations/Project/src/main/java/com/infosystemsinternational/task/security/AuthenticationService.java:69 | the `map(p -> "ROLE_" + p.name())` stream: same length, element i is the role of position i |
| Authentication.WithoutDirector | course-work/Implementations/Project/src/main/java/com/infosystemsinternational/task/security/AuthenticationService.java:70 | the filter keeps exactly the positions other than DIRECTORATE_DIRECTOR |
| Authentication.WithoutDirectorCounts | course-work/Implementations/Project/src/main/java/com/infosystemsinternational/task/security/AuthenticationService.java:70 | the filter removes every DIRECTORATE_DIRECTOR and keeps each other position exactly as often as it occurs |
| Authentication.WithoutDirectorAppend | course-work/Implementations/Project/src/main/java/com/infosystemsinternational/task/security/AuthenticationService.java:70 | filtering a concatenation concatenates the filtered parts, so the filter keeps the order of the list |
| Authentication.Roles | course-work/Implementations/Project/src/main/java/com/infosystemsinternational/task/security/AuthenticationService.java:67-73 | getRole's list is non-empty, starts with the position's own role and ends with the EMPLOYEE role |
| Authentication.RolesExact | course-work/Implementations/Project/src/main/java/com/infosystemsinternational/task/security/AuthenticationService.java:67-73 | getRole gives [DIRECTORATE_DIRECTOR, DEPARTMENT_HEAD, EMPLOYEE] roles for a director, [DEPARTMENT_HEAD, EMPLOYEE] for a head, [EMPLOYEE] for an employee, in that order |
| Authentication.RolesAreSuffix | course-work/Implementations/Project/src/main/java/com/infosystemsinternational/task/security/AuthenticationService.java:67-73 | each role list is the roles of `values()` from the position itself to the end, so declaration order fixes list order |
| Authentication.RolesByRank | course-work/Implementations/Project/src/main/java/com/infosystemsinternational/task/security/AuthenticationService.java:67-73 | a position holds the role of q exactly when q ranks no higher |
| Authentication.RolesArePositionRoles | course-work/Implementations/Project/src/main/java/com/infosystemsinternational/task/security/AuthenticationService.java:67-73 | every listed role is the role of a position ranking no higher |
| Authentication.RolesMonotone | course-work/Implementations/Project/src/main/java/com/infosystemsinternational/task/security/AuthenticationService.java:67-73 | roles(EMPLOYEE) is a subset of roles(HEAD), which is a subset of roles(DIRECTOR) |
| Authentication.RolesShape | course-work/Implementations/Project/src/main/java/com/infosystemsinternational/task/security/AuthenticationService.java:67-73 | each list holds the position's own role, has rank + 1 entries and no duplicates |
| Authentication.AuthoritiesVersusRoles | course-work/Implementations/Project/src/main/java/com/infosystemsinternational/task/security/EmployeeDetails.java:34-36 | the single authority is the first token role, and the two lists are equal only for a plain employee |
| Authentication.GenerateToken | course-work/Implementations/Project/src/main/java/com/infosystemsinternational/task/security/AuthenticationService.java:41 | the token's subject is the principal's username and its role claim is the given list |
| Authentication.Registered | course-work/Implementations/Project/src/main/java/com/infosystemsinternational/task/security/AuthenticationService.java:35-37 | the new employee takes names, personal id and age from the request; its position is EMPLOYEE, it has no department or id, it is active, and its password is encode(raw) |
| Authentication.AuthenticationService.Register | course-work/Implementations/Project/src/main/java/com/infosystemsinternational/task/security/AuthenticationService.java:34-43 | with no lookup beforehand, saves exactly one new employee under the next id and returns a token with subject = personal id and roles ["ROLE_EMPLOYEE"]; a stored personal id fails on the unique column, writing nothing |
| Authentication.AuthenticationService.Authenticate | course-work/Implementations/Project/src/main/java/com/infosystemsinternational/task/security/AuthenticationService.java:51-59 | no token when the credential check fails or no employee has the personal id; otherwise subject = personal id and roles = getRole(stored position); nothing is written |
| Repositories.DetachDirectorate | course-work/Implementations/Project/src/main/java/com/infosystemsinternational/task/service/DirectorateService.java:88-90 | same keys; every department that referred to the directorate has a null directorate afterwards, and none refers to it; departments that did not refer to it are unchanged; in every department only the directorate reference can change |
| Repositories.PersonalIdsUniqueUpdate | course-work/Implementations/Project/src/main/java/com/infosystemsinternational/task/entity/Employee.java:36-37 | a write that the unique check on `personalId` lets through keeps personal ids unique |
| Repositories.DirectorsUniqueUpdate | course-work/Implementations/Project/src/main/java/com/infosystemsinternational/task/entity/Directorate.java:38-40 | a write that the unique check on `director_id` lets through keeps non-null directors unique |
| Repositories.Store.constructor | course-work/Implementations/Project/src/main/java/com/infosystemsinternational/task/entity/BaseEntity.java:16-18 | an empty database whose identity counters start at 1 satisfies the invariant |
| Repositories.Store.FindByPersonalId | course-work/Implementations/Project/src/main/java/com/infosystemsinternational/task/repository/EmployeeRepository.java:23 | finds a row exactly when some stored employee has the personal id, and returns that stored row |
| Repositories.Store.FindByDirectorId | course-work/Implementations/Project/src/main/java/com/infosystemsinternational/task/repository/DirectorateRepository.java:42-43 | empty exactly when the parameter is null or no directorate has that director; otherwise returns a stored row with the director |
| Repositories.Store.SaveEmployee | course-work/Implementations/Project/src/main/java/com/infosystemsinternational/task/entity/Employee.java:36-43 | a null password or a personal id held by another row fails, writing nothing; otherwise the entity is stored at its slot, the other tables untouched, and the invariant kept |
| Repositories.Store.SaveDepartment | course-work/Implementations/Project/src/main/java/com/infosystemsinternational/task/entity/BaseEntity.java:16-18 | stores the department at its slot (merge or insert) and advances the counter on insert |
| Repositories.Store.SaveDirectorate | course-work/Implementations/Project/src/main/java/com/infosystemsinternational/task/entity/Directorate.java:38-40 | a non-null director held by another row fails, writing nothing; otherwise the directorate is stored at its slot |
| Repositories.Store.DeleteEmployee | course-work/Implementations/Project/src/main/java/com/infosystemsinternational/task/service/EmployeeService.java:90 | removes exactly that key |
| Repositories.Store.DeleteDepartment | course-work/Implementations/Project/src/main/java/com/infosystemsinternational/task/service/DepartmentService.java:81 | removes exactly that key |
| Repositories.Store.DeleteDirectorate | course-work/Implementations/Project/src/main/java/com/infosystemsinternational/task/service/DirectorateService.java:92 | removes exactly that key |
| Converter.ToEmployeeDTO | course-work/Implementations/Project/src/main/java/com/infosystemsinternational/task/util/Converter.java:37-53 | copies id, active, name, surname, personal id and age; position is its label; the department id is set exactly when there is a department, and then equals it; there is no password field |
| Converter.DepartmentRef | course-work/Implementations/Project/src/main/java/com/infosystemsinternational/task/util/Converter.java:80-85 | the department is set exactly when its id names a stored department |
| Converter.FromEmployeeDTO | course-work/Implementations/Project/src/main/java/com/infosystemsinternational/task/util/Converter.java:61-88 | fails exactly when fromLabel fails; copies the scalar fields; the password of the stored employee with the same id if there is one, else none; the department only when it resolves |
| Converter.FromCreateEmployeeDTO | course-work/Implementations/Project/src/main/java/com/infosystemsinternational/task/util/Converter.java:96-115 | no id; the raw password copied verbatim; fails exactly when fromLabel fails; the department only when it resolves |
| Converter.EmployeeRoundTripFields | course-work/Implementations/Project/src/main/java/com/infosystemsinternational/task/util/Converter.java:37-70 | convertDTO(convert(e)) agrees with e on id, active, name, surname, personal id, age and position |
| Converter.StoredEmployeeRoundTrip | course-work/Implementations/Project/src/main/java/com/infosystemsinternational/task/util/Converter.java:37-88 | for a stored employee the round trip gives back e itself, except that a dangling department is dropped |
| Converter.ToDepartmentDTO | course-work/Implementations/Project/src/main/java/com/infosystemsinternational/task/util/Converter.java:123-135 | directorate id set exactly when the directorate is non-null, and then equal to it |
| Converter.FromDepartmentDTO | course-work/Implementations/Project/src/main/java/com/infosystemsinternational/task/util/Converter.java:143-157 | a null directorate id throws; otherwise fields are copied and the directorate is set exactly when it is stored |
| Converter.DepartmentRoundTrip | course-work/Implementations/Project/src/main/java/com/infosystemsinternational/task/util/Converter.java:123-157 | a department with a stored directorate converts back to itself; one with a missing directorate comes back detached; one without a directorate cannot be converted back |
| Converter.ToDirectorateDTO | course-work/Implementations/Project/src/main/java/com/infosystemsinternational/task/util/Converter.java:165-177 | director id set exactly when the director is non-null, and then equal to it |
| Converter.FromDirectorateDTO | course-work/Implementations/Project/src/main/java/com/infosystemsinternational/task/util/Converter.java:185-199 | a null director id throws; a director is set only to a stored employee holding DIRECTORATE_DIRECTOR |
| Converter.FromDirectorateDTODirector | course-work/Implementations/Project/src/main/java/com/infosystemsinternational/task/util/Converter.java:193-196 | over a keyed table the director is set if and only if the id names a stored directorate director, and then to that id |
| Converter.DirectorateRoundTrip | course-work/Implementations/Project/src/main/java/com/infosystemsinternational/task/util/Converter.java:165-199 | a directorate whose director is a stored directorate director converts back to itself; any other director is dropped; one without a director cannot be converted back |
| EmployeeServices.EmployeeService.GetAllEmployees | course-work/Implementations/Project/src/main/java/com/infosystemsinternational/task/service/EmployeeService.java:34-40 | with activeOnly, exactly the active employees; otherwise all of them; each as its DTO under its id |
| EmployeeServices.EmployeeService.GetEmployeeById | course-work/Implementations/Project/src/main/java/com/infosystemsinternational/task/service/EmployeeService.java:59-61 | present exactly when the id is stored, as that row's DTO |
| EmployeeServices.EmployeeService.CreateEmployee | course-work/Implementations/Project/src/main/java/com/infosystemsinternational/task/service/EmployeeService.java:69-78 | a stored personal id gives empty and no write; an unknown label throws with no write; otherwise exactly one new employee, whose password is the DTO's raw password, and its DTO |
| EmployeeServices.EmployeeService.DeleteEmployeeById | course-work/Implementations/Project/src/main/java/com/infosystemsinternational/task/service/EmployeeService.java:86-95 | true if and only if the id was present; afterwards it is absent and every other row is unchanged; an absent id writes nothing |
| EmployeeServices.EmployeeService.UpdateEmployee | course-work/Implementations/Project/src/main/java/com/infosystemsinternational/task/service/EmployeeService.java:104-115 | an absent id gives empty and no write; otherwise the row is replaced by the converted DTO with id forced to employeeId and the previous password kept; an unknown label or a personal id held by someone else throws with no write |
| EmployeeServices.EmployeeService.UpdateEmployeePassword | course-work/Implementations/Project/src/main/java/com/infosystemsinternational/task/service/EmployeeService.java:124-135 | only the password changes, to encode(newPassword); an absent id gives empty and no write |
| EmployeeServices.EmployeeService.UpdateEmployeeStatus | course-work/Implementations/Project/src/main/java/com/infosystemsinternational/task/service/EmployeeService.java:144-155 | only `active` changes; an absent id gives empty and no write |
| DirectorateServices.DirectorateService.GetAllDirectorates | course-work/Implementations/Project/src/main/java/com/infosystemsinternational/task/service/DirectorateService.java:31-36 | with activeOnly, exactly the active directorates; otherwise all of them |
| DirectorateServices.DirectorateService.GetDirectorateById | course-work/Implementations/Project/src/main/java/com/infosystemsinternational/task/service/DirectorateService.java:55-57 | present exactly when the id is stored, as that row's DTO |
| DirectorateServices.DirectorateService.CreateDirectorate | course-work/Implementations/Project/src/main/java/com/infosystemsinternational/task/service/DirectorateService.java:65-74 | a directorate that already has the director id gives empty and no write; otherwise the converted DTO is saved at its slot, and no two directorates share a director afterwards |
| DirectorateServices.DirectorateService.DeleteDirectorateById | course-work/Implementations/Project/src/main/java/com/infosystemsinternational/task/service/DirectorateService.java:82-97 | for a present id, every department that referenced it is detached, the directorate is removed, and true is returned; an absent id gives false and no write |
| DirectorateServices.DirectorateService.UpdateDirectorate | course-work/Implementations/Project/src/main/java/com/infosystemsinternational/task/service/DirectorateService.java:106-116 | an absent id gives empty; otherwise the row is overwritten with id forced, with no director-uniqueness check, so only the unique column can refuse it |
| DirectorateServices.DirectorateService.UpdateDirectorateStatus | course-work/Implementations/Project/src/main/java/com/infosystemsinternational/task/service/DirectorateService.java:125-135 | only `active` changes; an absent id gives empty and no write |
| DepartmentServices.DepartmentService.GetAllDepartments | course-work/Implementations/Project/src/main/java/com/infosystemsinternational/task/service/DepartmentService.java:31-37 | with activeOnly, exactly the active departments; otherwise all of them |
| DepartmentServices.DepartmentService.GetDepartmentById | course-work/Implementations/Project/src/main/java/com/infosystemsinternational/task/service/DepartmentService.java:56-58 | present exactly when the id is stored, as that row's DTO |
| DepartmentServices.DepartmentService.CreateDepartment | course-work/Implementations/Project/src/main/java/com/infosystemsinternational/task/service/DepartmentService.java:66-69 | with a directorate id, the converted DTO is saved at its slot and its DTO returned; with none, the converter throws and nothing is written |
| DepartmentServices.DepartmentService.DeleteDepartmentById | course-work/Implementations/Project/src/main/java/com/infosystemsinternational/task/service/DepartmentService.java:77-86 | true if and only if the id was present; removes only that department; employees are not touched |
| DepartmentServices.DepartmentService.UpdateDepartment | course-work/Implementations/Project/src/main/java/com/infosystemsinternational/task/service/DepartmentService.java:95-105 | an absent id gives empty and no write; otherwise the converted DTO with id forced to departmentId replaces the row |
| DepartmentServices.DepartmentService.UpdateDepartmentStatus | course-work/Implementations/Project/src/main/java/com/infosystemsinternational/task/service/DepartmentService.java:114-124 | only `active` changes; an absent id gives empty and no write |

## Left out

- JWT signing, Base64 key decoding, issue and expiry times (`JwtUtil`): a token is only its subject and role claim, because signing relies on a foreign library and the clock.
- BCrypt and the `AuthenticationManager`: the encoder is an uninterpreted function and the credential check an uninterpreted predicate over the employee table, because both are library calls. The encoder is deterministic, while BCrypt salts each hash, so encoding one password twice gives different hashes; no contract here relies on two encodings being equal.
- Authentication.AuthenticationService.Authenticate: does not state that only an enabled account can pass the credential check, because that decision sits inside the abstract authentication manager.
- Controllers, `@PreAuthorize` rules and HTTP status mapping: these are framework semantics outside the core.
- `searchEmployees`, `searchDepartments`, `searchDirectorate` and their JPQL `LOWER(..) LIKE` queries: they rely on SQL and Unicode lower-casing.
- Pagination and ordering of `getAll*` results: a page is modelled as the map of matching rows keyed by id.
- `SampleData`, `OpenApiConfig`, `BeanConfiguration` and `Application`: wiring and start-up I/O.
- Null strings: names, surnames, personal ids, descriptions and passwords in requests are non-null. Only a DTO's position label can be null, because `fromLabel(null)` has a defined outcome.
- Entities.Directorate.SetDirector: takes a non-null employee with a non-null position. `setDirector(null)` would throw a NullPointerException, and a row without a position cannot exist in the table.
- Positions.FromLabel: `equalsIgnoreCase` is exact when one side is ASCII, which the three labels are. Comparisons between two non-ASCII letters are not modelled because they never reach a label.
- Foreign-key constraints: deleting a department or directorate that rows still refer to leaves those references dangling. The same holds for `deleteEmployeeById` on an employee that a directorate still names as its director: the model returns true and leaves `director_id` dangling. The database's reaction to such deletes is not visible in the source.
- The mutation of the caller's DTO by `setId` in `updateEmployee`, `updateDepartment` and `updateDirectorate`: DTOs are values, so this aliasing is not modelled.
- EmployeeServices.EmployeeService.UpdateEmployeePassword: whether the encoder is called on an absent id is not observable, because the encoder is a pure function here.
- Lazy loading and the persistence context: `deleteDirectorateById` is modelled as writing the detached departments back, as the flush at the end of the session does.
- Repositories.Store.SaveEmployee: an entity whose id names no stored row is inserted under the next identity value. This matches what `save`/`merge` does for an unknown id with identity generation. It checks the not-null password before the unique personal id; the database's own order of constraint checks is not visible.
- A failed insert is modelled as consuming no id: after a save rejected by a unique or not-null column (in `register`, `createEmployee`, `createDirectorate`) every identity counter is unchanged. A database IDENTITY column may still use up a value there; no contract depends on which ids are handed out.
- Identity overflow: ids and counters are unbounded integers, not 64-bit `Long`.
