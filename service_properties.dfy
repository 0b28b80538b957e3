/** Properties that span several service calls, proved from the service's
    contracts alone. */
module ServiceProperties {
  import opened Wrappers
  import opened Model
  import opened Repository
  import opened Service

  /** Creating a student and then fetching it by the id it was given returns
      the created record, with the names that were sent. */
  method CreateThenGet(service: StudentServiceImpl, student: Student) returns (created: Student, fetched: Result<Student, Exception>)
    requires service.Valid()
    modifies service.studentRepository
    ensures service.Valid()
    ensures created.id.Some? && fetched == Ok(created)
    ensures created.firstName == student.firstName && created.lastName == student.lastName
  {
    created := service.CreateStudent(student);
    fetched := service.GetStudent(created.id.value);
  }

  /** Deleting is not idempotent: the second delete of the same id throws,
      whether or not the first one succeeded, and deletes nothing more. */
  method DeleteTwice(service: StudentServiceImpl, id: int) returns (first: Result<(), Exception>, second: Result<(), Exception>)
    requires service.Valid()
    modifies service.studentRepository
    ensures service.Valid()
    ensures first.Ok? <==> old(id in service.Students())
    ensures second == Err(NotFound(id))
    ensures service.Students() == old(service.Students()) - {id}
  {
    first := service.DeleteStudent(id);
    second := service.DeleteStudent(id);
  }

  /** Creating a student and then updating it with a body that carries
      another id (99, say) keeps the record under the id the store gave it:
      the update returns that id with the new names, and fetching it
      afterwards returns the updated record. */
  method UpdateKeepsId(service: StudentServiceImpl, student: Student, body: Student)
    returns (created: Student, updated: Result<Student, Exception>, fetched: Result<Student, Exception>)
    requires service.Valid()
    modifies service.studentRepository, service.studentRepository.rows.Values
    ensures service.Valid()
    ensures created.id.Some?
    ensures updated == Ok(Student(created.id, body.firstName, body.lastName))
    ensures fetched == updated
  {
    created := service.CreateStudent(student);
    updated := service.UpdateStudent(created.id.value, body);
    fetched := service.GetStudent(created.id.value);
  }
}
