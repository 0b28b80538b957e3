/** The immutable transport record `Student(id, firstName, lastName)` that the
    service exchanges with its callers. Every component is a Java reference and
    may therefore be null. */
module Model {
  import opened Wrappers

  datatype Student = Student(id: Option<int>, firstName: Option<string>, lastName: Option<string>)
}
