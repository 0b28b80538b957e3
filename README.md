# Student records service — Dafny model

This project models the core of a small Spring backend that keeps one kind
of record, a student (id, first name, last name):

- `StudentEntity`, the mutable persisted record, as a Dafny class whose
  setters change one field each (`student_entity.dfy`);
- `StudentMapper`, the conversions between that entity and the immutable
  transport record `Student(id, firstName, lastName)` (`student.dfy`,
  `student_mapper.dfy`);
- `StudentServiceImpl`, the business rules for get, list, create, update and
  delete, written against a repository (`student_service.dfy`).

Java references may be null, so the ids (`Long`) and the names (`String`)
are `Option` values in both the entity and the record, and a null entity or
list argument of the mapper is `null` or `None`. A method that throws returns
`Err` of a `Result`; the exception is modelled by its class and message.

The Spring Data repository is not part of the source that was modelled. It
is replaced by a stand-in store (`student_repository.dfy`): a map from
primary key to the stored entity, plus the counter that hands out new keys.
Its invariant is that the entity stored under key `k` has id `Some(k)`, and
that every key in use lies below the counter, so a key taken from the counter
is new. Nothing is promised about which keys can occur: the lower end of the
key range is a field of the store that no contract fixes. Its
methods have bodies only so that they can be verified; the service relies on
their contracts alone. The store's content as transport records,
`StudentRepository.Table()` (the service's `Students()`), is the abstract
state the service contracts speak about, so "everything else is unchanged"
is an equation between two maps.

`service_properties.dfy` proves properties that span several calls from the
service contracts: create then get, deleting twice, and create then update
with a body carrying another id then get. Every service method that changes
the store also says that the entities stored afterwards were stored before or
are new, so that calls can be chained: an update may follow a create, an
update or a delete.

Two behaviours of the code are worth stating plainly:

- `createStudent` passes a supplied id through `toEntity` to `save`. What
  the store then does with a detached entity that carries an id is left open
  by the `Save` contract; a record without an id always gets a new key.
- `getStudent` on a missing id throws `NoSuchElementException("No value
  present")` from `Optional.get()`, while `updateStudent` and
  `deleteStudent` throw `RuntimeException("Student not found with id " +
  id)`. The model returns exactly these.

## Model

| member | source | states |
|---|---|---|
| `Entity.StudentEntity.constructor` | src/main/java/com/shree/restci/model/entity/StudentEntity.java:13-17 | the all-fields constructor stores exactly the given id, first name and last name |
| `Entity.StudentEntity.Empty` | src/main/java/com/shree/restci/model/entity/StudentEntity.java:19-20 | the no-argument constructor leaves id, first name and last name all null |
| `Entity.StudentEntity.GetId` | src/main/java/com/shree/restci/model/entity/StudentEntity.java:22-24 | returns the current id; as a function reading only the object it changes nothing |
| `Entity.StudentEntity.SetId` | src/main/java/com/shree/restci/model/entity/StudentEntity.java:26-28 | afterwards the id is the given one and both names are as before |
| `Entity.StudentEntity.GetFirstName` | src/main/java/com/shree/restci/model/entity/StudentEntity.java:30-32 | returns the current first name and changes nothing |
| `Entity.StudentEntity.SetFirstName` | src/main/java/com/shree/restci/model/entity/StudentEntity.java:34-36 | afterwards the first name is the given one; id and last name are as before |
| `Entity.StudentEntity.GetLastName` | src/main/java/com/shree/restci/model/entity/StudentEntity.java:38-40 | returns the current last name and changes nothing |
| `Entity.StudentEntity.SetLastName` | src/main/java/com/shree/restci/model/entity/StudentEntity.java:42-44 | afterwards the last name is the given one; id and first name are as before |
| `Mapper.Copy` | src/main/java/com/shree/restci/mapper/StudentMapper.java:30 | the record built from an entity has the entity's id, first name and last name |
| `Mapper.ToDto` | src/main/java/com/shree/restci/mapper/StudentMapper.java:13-16 | null maps to null and only null does; otherwise the record carries the entity's three fields |
| `Mapper.ToEntity` | src/main/java/com/shree/restci/mapper/StudentMapper.java:18-25 | null maps to null and only null does; otherwise the entity is fresh, and mapping it back with `ToDto` gives the same record (round trip, id included even when null) |
| `Mapper.CopyAll` | src/main/java/com/shree/restci/mapper/StudentMapper.java:29-31 | the streamed map keeps the length, and element i is the copy of entity i |
| `Mapper.ToDtos` | src/main/java/com/shree/restci/mapper/StudentMapper.java:27-32 | a null list gives the empty list; otherwise the result has the list's length and element i is what `ToDto` makes of entity i, so order is kept |
| `Repository.StudentRepository.FindById` | src/main/java/com/shree/restci/service/studentService/StudentServiceImpl.java:22 | the lookup the service relies on: present exactly when the key is stored, and then it is the stored entity, whose id is the key |
| `Repository.StudentRepository.ExistsById` | src/main/java/com/shree/restci/service/studentService/StudentServiceImpl.java:49 | true exactly when the key is stored |
| `Repository.StudentRepository.FindAll` | src/main/java/com/shree/restci/service/studentService/StudentServiceImpl.java:27 | lists every stored entity once: as many entries as stored records, each one the entity stored under its own id, none twice |
| `Repository.StudentRepository.Save` | src/main/java/com/shree/restci/service/studentService/StudentServiceImpl.java:32 | stores the entity's names under a key that becomes its id and changes no other record; the stored record is the argument or a new object, and no other object enters the store; a new entity gets an unused key, an already stored one keeps its key |
| `Repository.StudentRepository.Persist` | src/main/java/com/shree/restci/service/studentService/StudentServiceImpl.java:32 | the insert half of `save`: the entity gets the next key, which was unused, as its id, keeps its names, and is added under that key with every other record unchanged |
| `Repository.StudentRepository.Merge` | src/main/java/com/shree/restci/service/studentService/StudentServiceImpl.java:41 | the update half of `save`: the entity replaces the record under its own id and every other record is unchanged |
| `Repository.StudentRepository.DeleteById` | src/main/java/com/shree/restci/service/studentService/StudentServiceImpl.java:52 | removes exactly that key, and records one more call with that id |
| `Service.NaturalString` | src/main/java/com/shree/restci/service/studentService/StudentServiceImpl.java:44 | the digits of a natural number as Java prints them: decimal digits only, no leading zero, denoting exactly that number |
| `Service.DecimalString` | src/main/java/com/shree/restci/service/studentService/StudentServiceImpl.java:44 | the `Long` id as string concatenation renders it: a leading minus exactly for negative ids, then the canonical digits of the magnitude |
| `Service.NotFound` | src/main/java/com/shree/restci/service/studentService/StudentServiceImpl.java:44 | the exception thrown for a missing student is a `RuntimeException` ("Student not found with id " followed by the id) |
| `Service.NotFoundNamesId` | src/main/java/com/shree/restci/service/studentService/StudentServiceImpl.java:50 | the not-found exception identifies the id: equal exceptions come from equal ids |
| `Service.StudentServiceImpl.constructor` | src/main/java/com/shree/restci/service/studentService/StudentServiceImpl.java:16-18 | the service holds the repository it is given |
| `Service.StudentServiceImpl.GetStudent` | src/main/java/com/shree/restci/service/studentService/StudentServiceImpl.java:21-23 | succeeds exactly when the id is stored, returning that stored record (whose id is the one asked for); otherwise throws NoSuchElementException "No value present" (the constant `NoValuePresent`), as `Optional.get()` does on an empty result |
| `Service.StudentServiceImpl.GetStudents` | src/main/java/com/shree/restci/service/studentService/StudentServiceImpl.java:26-28 | one record per stored student: as many as stored, each equal to the stored record under its id, no id twice, and every stored record present |
| `Service.StudentServiceImpl.CreateStudent` | src/main/java/com/shree/restci/service/studentService/StudentServiceImpl.java:31-33 | the result carries a store-assigned id and the given names, and the store gains or replaces exactly that record; without an id the key is new; every stored entity afterwards was stored before or is new |
| `Service.StudentServiceImpl.UpdateStudent` | src/main/java/com/shree/restci/service/studentService/StudentServiceImpl.java:36-45 | on a stored id only that record's two names change, its id stays the path id whatever the body's id is, and the updated record is returned; on a missing id it throws "Student not found with id …" and the store is unchanged; every stored entity afterwards was stored before or is new |
| `Service.StudentServiceImpl.OverwriteNames` | src/main/java/com/shree/restci/service/studentService/StudentServiceImpl.java:38-43 | the function mapped over the lookup result: sets the stored entity's two names in place, saves it, and returns the record with the path id and the new names; only that record changes, and no object other than old or new ones is stored |
| `Service.StudentServiceImpl.DeleteStudent` | src/main/java/com/shree/restci/service/studentService/StudentServiceImpl.java:48-53 | on a stored id exactly that record is removed, with one `deleteById` call; on a missing id it throws "Student not found with id …" and the repository is untouched; every stored entity afterwards was stored before |
| `ServiceProperties.CreateThenGet` | src/main/java/com/shree/restci/service/studentService/StudentServiceImpl.java:21-33 | fetching a just-created student by its new id returns the created record with the names that were sent |
| `ServiceProperties.DeleteTwice` | src/main/java/com/shree/restci/service/studentService/StudentServiceImpl.java:48-53 | deleting the same id twice: the second call always throws, so deletion is not idempotent |
| `ServiceProperties.UpdateKeepsId` | src/main/java/com/shree/restci/service/studentService/StudentServiceImpl.java:31-45 | create a student, update it with any body (whatever id the body carries), then get it: the update returns the store-assigned id with the body's names, and the get returns the same record |

## Left out

- The HTTP controller, its routes, status codes and JSON serialisation: web plumbing around the service.
- The `StudentService` interface: it only declares the signatures that `StudentServiceImpl` implements.
- Spring annotations and dependency injection; the service is built with its repository passed in.
- The real Spring Data/JPA repository, SQL and `@GeneratedValue` key generation: the stand-in store only supplies contracts for `findById`, `existsById`, `findAll`, `save` and `deleteById`.
- Repository.StudentRepository.Save: does not say under which key a detached entity that already carries an id is stored, because that is JPA merge behaviour outside the modelled source.
- Repository.StudentRepository.FindAll: promises no order, because the order is whatever the store returns; the stand-in happens to list by key.
- Null ids and null request bodies passed to the service (`findById(null)`, `save(null)` and the like throw inside the repository): the HTTP layer never passes them, so the service parameters are non-null values.
- Null elements inside a list given to `toDtos` (the stream would throw a NullPointerException): lists come from `findAll`, which never holds null.
- The 64-bit range of `Long` ids: no arithmetic is done on ids, so they are unbounded integers.
- Faults raised by the store itself (connectivity, constraint violations), which propagate unchanged: they are not part of the modelled code.
