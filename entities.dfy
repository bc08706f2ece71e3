/** The three persistent entities. Every entity carries the `BaseEntity` id (null
    until the database assigns one) and the `active` flag. References between
    entities are the foreign-key columns the rows hold; the reverse collections
    (`Department.employees`, `Directorate.departments`) are derived from them. */
module Entities {
  import opened Wrappers
  import Positions

  /** An employee row. `age` is a Java `int` that is only ever copied.
      `password` is null only on an entity built from an `EmployeeDTO` whose id
      names no stored employee. */
  datatype Employee = Employee(
    id: Option<int>,
    active: bool,
    name: string,
    surname: string,
    personalId: string,
    password: Option<string>,
    age: int,
    position: Positions.Position,
    department: Option<int>)   // the department_id column

  /** A department row. */
  datatype Department = Department(
    id: Option<int>,
    active: bool,
    name: string,
    description: string,
    directorate: Option<int>)  // the directorate_id column

  /** A directorate row as the table stores it. */
  datatype DirectorateRow = DirectorateRow(
    id: Option<int>,
    active: bool,
    name: string,
    description: string,
    director: Option<int>)     // the director_id column

  /** The rule `setDirector` enforces: a director holds the DIRECTORATE_DIRECTOR position. */
  predicate Qualified(director: Option<Employee>) {
    director.Some? ==> director.value.position == Positions.DirectorateDirector
  }

  /** The director after `setDirector(e)` on a directorate whose director was `current`:
      `e` when it holds the DIRECTORATE_DIRECTOR position, otherwise `current` (silent reject). */
  function AssignDirector(current: Option<Employee>, e: Employee): (r: Option<Employee>)
    ensures r == current || r == Some(e)
    ensures r != current ==> e.position == Positions.DirectorateDirector
  {
    if e.position == Positions.DirectorateDirector then Some(e) else current
  }

  /** `setDirector` keeps the rule: with a qualified director before, it holds after. */
  lemma AssignDirectorKeepsQualified(current: Option<Employee>, e: Employee)
    requires Qualified(current)
    ensures Qualified(AssignDirector(current, e))
  {
  }

  /** `setDirector(e)` is accepted exactly when `e` is a directorate director; otherwise
      nothing changes, a null director included. */
  lemma AssignDirectorAccepts(current: Option<Employee>, e: Employee)
    ensures AssignDirector(current, e) == Some(e) <==>
              e.position == Positions.DirectorateDirector || current == Some(e)
    ensures e.position != Positions.DirectorateDirector ==> AssignDirector(current, e) == current
  {
  }

  /** The director after a series of `setDirector` calls. */
  function AssignDirectors(current: Option<Employee>, es: seq<Employee>): Option<Employee>
    decreases es
  {
    if es == [] then current else AssignDirectors(AssignDirector(current, es[0]), es[1..])
  }

  /** A directorate built by the no-argument or the two-argument constructor (director
      unset) and then given any series of `setDirector` calls never has an unqualified
      director. The director is the last directorate director offered, or the start
      value when none was offered. */
  lemma {:induction false} AssignDirectorsQualified(current: Option<Employee>, es: seq<Employee>)
    requires Qualified(current)
    decreases es
    ensures Qualified(AssignDirectors(current, es))
    ensures (forall i :: 0 <= i < |es| ==> es[i].position != Positions.DirectorateDirector) ==>
              AssignDirectors(current, es) == current
    ensures forall i :: 0 <= i < |es| && es[i].position == Positions.DirectorateDirector &&
                        (forall j :: i < j < |es| ==> es[j].position != Positions.DirectorateDirector) ==>
              AssignDirectors(current, es) == Some(es[i])
  {
    if es != [] {
      var next := AssignDirector(current, es[0]);
      var rest := es[1..];
      AssignDirectorsQualified(next, rest);
      assert AssignDirectors(current, es) == AssignDirectors(next, rest);
      forall i | 0 <= i < |es| && es[i].position == Positions.DirectorateDirector &&
                 (forall j :: i < j < |es| ==> es[j].position != Positions.DirectorateDirector)
        ensures AssignDirectors(current, es) == Some(es[i])
      {
        if i == 0 {
          assert forall j :: 0 <= j < |rest| ==> rest[j] == es[j + 1];
        } else {
          assert rest[i - 1] == es[i];
          assert forall j :: i - 1 < j < |rest| ==> rest[j] == es[j + 1];
        }
      }
      if forall i :: 0 <= i < |es| ==> es[i].position != Positions.DirectorateDirector {
        assert es[0].position != Positions.DirectorateDirector;
        assert forall j :: 0 <= j < |rest| ==> rest[j] == es[j + 1];
      }
    }
  }

  /** The `Directorate` entity object, whose director is an employee object and whose
      fields (all null on a fresh object, except `active`) are updated in place. */
  class Directorate {
    var id: Option<int>
    var active: bool
    var name: Option<string>
    var description: Option<string>
    var director: Option<Employee>
    var departments: Option<seq<Department>>

    predicate DirectorQualified()
      reads this
    {
      Qualified(director)
    }

    /** The no-argument constructor: every field null, `active` true. */
    constructor ()
      ensures id.None? && active && name.None? && description.None?
      ensures director.None? && departments.None?
      ensures DirectorQualified()
    {
      id, active, name, description := None, true, None, None;
      director, departments := None, None;
    }

    /** `Directorate(name, description)`: director and departments unset, `active` true. */
    constructor Named(name: string, description: string)
      ensures this.name == Some(name) && this.description == Some(description)
      ensures id.None? && active && director.None? && departments.None?
      ensures DirectorQualified()
    {
      id, active := None, true;
      this.name, this.description := Some(name), Some(description);
      director, departments := None, None;
    }

    /** The generated all-arguments constructor assigns the director field directly,
        so it alone can build a directorate whose director is not qualified. */
    constructor AllArgs(name: Option<string>, description: Option<string>,
                        director: Option<Employee>, departments: Option<seq<Department>>)
      ensures id.None? && active
      ensures this.name == name && this.description == description
      ensures this.director == director && this.departments == departments
      ensures DirectorQualified() <==> Qualified(director)
    {
      id, active := None, true;
      this.name, this.description := name, description;
      this.director, this.departments := director, departments;
    }

    /** `setDirector(e)`: assigns `e` only when it holds the DIRECTORATE_DIRECTOR position.
        No other field changes (the frame is the `director` field alone). */
    method SetDirector(e: Employee)
      modifies this`director
      ensures director == AssignDirector(old(director), e)
      ensures e.position == Positions.DirectorateDirector ==> director == Some(e)
      ensures e.position != Positions.DirectorateDirector ==> director == old(director)
      ensures old(DirectorQualified()) ==> DirectorQualified()
    {
      if e.position == Positions.DirectorateDirector {
        director := Some(e);
      }
    }
  }
}
