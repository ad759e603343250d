/** The in-memory relational store every route handler works on. */
module Store {
  import opened Schema

  /** The database: one field per table, plus the sequences the store uses to
      generate surrogate keys (`SERIAL` columns). */
  class Db {
    var departments: seq<Department>
    var instructors: seq<Instructor>
    var courses: seq<Course>
    var students: seq<Student>
    var enrollments: seq<Enrollment>
    var attendance: seq<AttendanceRecord>
    var employees: seq<Employee>
    var nextStudentId: nat
    var nextAttendanceId: nat
    var nextEmployeeId: nat

    /** The tables as a value, for the read-only handlers. */
    function Snapshot(): Tables
      reads this
    {
      Tables(departments, instructors, courses, students, enrollments, attendance, employees)
    }

    /** The store's invariant: every key and unique constraint holds, and every
        generated key lies below the next value of its sequence. */
    ghost predicate Valid()
      reads this
    {
      WellFormed(Snapshot()) &&
      (forall i :: 0 <= i < |students| ==> students[i].id < nextStudentId) &&
      (forall i :: 0 <= i < |enrollments| ==> enrollments[i].studentId < nextStudentId) &&
      (forall i :: 0 <= i < |attendance| ==> attendance[i].id < nextAttendanceId) &&
      (forall i :: 0 <= i < |employees| ==> employees[i].id < nextEmployeeId)
    }

    /** A fresh database holding only the (read-only) department table. */
    constructor (depts: seq<Department>)
      requires UniqueDepartments(depts)
      ensures Valid()
      ensures Snapshot() == Tables(depts, [], [], [], [], [], [])
      ensures nextStudentId == 1 && nextAttendanceId == 1 && nextEmployeeId == 1
    {
      departments := depts;
      instructors, courses, students, enrollments, attendance, employees := [], [], [], [], [], [];
      nextStudentId, nextAttendanceId, nextEmployeeId := 1, 1, 1;
    }
  }
}
