/** The business rules (service/studentService/StudentServiceImpl.java): look
    up, list, create, update and delete students through the repository. */
module Service {
  import opened Wrappers
  import opened Model
  import opened Entity
  import Mapper
  import opened Repository

  /** The unchecked exceptions the service lets escape. */
  datatype Exception =
    | NoSuchElementException(message: string)  // `Optional.get()` on an empty result
    | RuntimeException(message: string)        // thrown by the service itself

  /** A non-empty string of decimal digits without leading zeros: the form
      in which Java writes a non-negative `long`. */
  ghost predicate CanonicalDigits(s: string) {
    |s| > 0 && (forall i :: 0 <= i < |s| ==> '0' <= s[i] <= '9') && (s[0] == '0' ==> |s| == 1)
  }

  /** The number a string of decimal digits denotes. */
  ghost function DigitsValue(s: string): nat
    requires forall i :: 0 <= i < |s| ==> '0' <= s[i] <= '9'
  {
    if s == [] then 0 else 10 * DigitsValue(s[..|s| - 1]) + (s[|s| - 1] - '0') as nat
  }

  /** Java's decimal rendering of a `long`, as string concatenation uses it:
      a minus sign exactly for negative numbers, followed by the digits of the
      magnitude without leading zeros. */
  function DecimalString(n: int): (s: string)
    ensures n < 0 ==> |s| > 1 && s[0] == '-' && CanonicalDigits(s[1..]) && DigitsValue(s[1..]) == -n
    ensures n >= 0 ==> CanonicalDigits(s) && DigitsValue(s) == n
  {
    if n < 0 then
      var t := NaturalString(-n);
      assert ("-" + t)[1..] == t;
      "-" + t
    else NaturalString(n)
  }

  /** The decimal digits of a natural number, most significant first. */
  function NaturalString(n: nat): (s: string)
    ensures CanonicalDigits(s) && DigitsValue(s) == n
  {
    var last := ['0' + (n % 10) as char];
    if n < 10 then last
    else
      var prefix := NaturalString(n / 10);
      assert (prefix + last)[..|prefix + last| - 1] == prefix;
      prefix + last
  }

  /** The exception `updateStudent` and `deleteStudent` throw for a missing
      student: a `RuntimeException` whose message ends in the id. */
  function NotFound(id: int): (e: Exception)
    ensures e.RuntimeException?
  {
    RuntimeException("Student not found with id " + DecimalString(id))
  }

  /** The message of that exception names the id: two different ids never
      give the same exception. */
  lemma {:induction false} NotFoundNamesId(a: int, b: int)
    requires NotFound(a) == NotFound(b)
    ensures a == b
  {
    var prefix := "Student not found with id ";
    var sa, sb := DecimalString(a), DecimalString(b);
    assert (prefix + sa)[|prefix|..] == sa && (prefix + sb)[|prefix|..] == sb;
    assert sa == sb;
  }

  /** What `Optional.get()` throws on an empty result. */
  const NoValuePresent := NoSuchElementException("No value present")

  class StudentServiceImpl {
    const studentRepository: StudentRepository

    ghost predicate Valid()
      reads this, studentRepository, studentRepository.rows.Values
    {
      studentRepository.Valid()
    }

    /** The students currently stored, by id: only a shorter name for the
        repository's `Table()`. */
    ghost function Students(): map<int, Student>
      reads this, studentRepository, studentRepository.rows.Values
    {
      studentRepository.Table()
    }

    constructor (studentRepository: StudentRepository)
      requires studentRepository.Valid()
      ensures this.studentRepository == studentRepository && Valid()
    {
      this.studentRepository := studentRepository;
    }

    /** `getStudent`: the stored student with this id; a missing id makes
        `Optional.get()` throw. */
    method GetStudent(id: int) returns (r: Result<Student, Exception>)
      requires Valid()
      ensures r.Ok? <==> id in Students()
      ensures r.Ok? ==> r.value == Students()[id] && r.value.id == Some(id)
      ensures r.Err? ==> r.error == NoValuePresent
    {
      var found := studentRepository.FindById(id);
      if found.None? {
        return Err(NoValuePresent);
      }
      var dto := Mapper.ToDto(found.value);
      r := Ok(dto.value);
    }

    /** `getStudents`: one transport record per stored student, each as it is
        stored, none twice. */
    method GetStudents() returns (r: seq<Student>)
      requires Valid()
      ensures |r| == |Students()|
      ensures forall i :: 0 <= i < |r| ==> r[i].id.Some? && r[i].id.value in Students() && Students()[r[i].id.value] == r[i]
      ensures forall i, j :: 0 <= i < j < |r| ==> r[i].id != r[j].id
      ensures forall k :: k in Students() ==> Students()[k] in r
    {
      var all := studentRepository.FindAll();
      r := Mapper.ToDtos(Some(all));
      forall k | k in Students()
        ensures Students()[k] in r
      {
        var i :| 0 <= i < |all| && all[i] == studentRepository.rows[k];
        assert r[i] == Students()[k];
      }
    }

    /** `createStudent`: saves the converted record and returns what was
        stored, which carries the store's key and the given names. A record
        without an id becomes a new student. */
    method CreateStudent(student: Student) returns (r: Student)
      requires Valid()
      modifies studentRepository
      ensures Valid()
      ensures forall o :: o in studentRepository.rows.Values ==> o in old(studentRepository.rows.Values) || fresh(o)
      ensures r.id.Some? && r.firstName == student.firstName && r.lastName == student.lastName
      ensures Students() == old(Students())[r.id.value := r]
      ensures student.id.None? ==> r.id.value !in old(Students())
      ensures studentRepository.deleteCalls == old(studentRepository.deleteCalls)
    {
      var entity := Mapper.ToEntity(Some(student));
      var saved := studentRepository.Save(entity);
      var dto := Mapper.ToDto(saved);
      r := dto.value;
    }

    /** `updateStudent`: overwrites the two names of the stored student with
        the given ones and keeps its id, whatever id the given record
        carries; every other student is unchanged. A missing id throws and
        changes nothing. */
    method UpdateStudent(id: int, updatedStudent: Student) returns (r: Result<Student, Exception>)
      requires Valid()
      modifies studentRepository, studentRepository.rows.Values
      ensures Valid()
      ensures forall o :: o in studentRepository.rows.Values ==> o in old(studentRepository.rows.Values) || fresh(o)
      ensures r.Ok? <==> old(id in Students())
      ensures r.Ok? ==> r.value == Student(Some(id), updatedStudent.firstName, updatedStudent.lastName)
      ensures r.Ok? ==> Students() == old(Students())[id := r.value]
      ensures r.Err? ==> r.error == NotFound(id) && Students() == old(Students())
      ensures studentRepository.deleteCalls == old(studentRepository.deleteCalls)
    {
      var found := studentRepository.FindById(id);
      match found
      case None =>
        r := Err(NotFound(id));
      case Some(existing) =>
        var updated := OverwriteNames(id, existing, updatedStudent);
        r := Ok(updated);
    }

    /** The function `updateStudent` maps over the lookup result: overwrite
        the stored entity's names in place, save it and convert the saved
        entity. */
    method OverwriteNames(id: int, existing: StudentEntity, updatedStudent: Student) returns (r: Student)
      requires Valid() && id in studentRepository.rows && studentRepository.rows[id] == existing
      modifies studentRepository, existing
      ensures Valid()
      ensures forall o :: o in studentRepository.rows.Values ==> o in old(studentRepository.rows.Values) || fresh(o)
      ensures r == Student(Some(id), updatedStudent.firstName, updatedStudent.lastName)
      ensures Students() == old(Students())[id := r]
      ensures studentRepository.deleteCalls == old(studentRepository.deleteCalls)
    {
      ghost var before := studentRepository.Table();
      assert forall k :: k in studentRepository.rows && k != id ==> studentRepository.rows[k] != existing;
      existing.SetFirstName(updatedStudent.firstName);
      existing.SetLastName(updatedStudent.lastName);
      assert studentRepository.Table() == before[id := Mapper.Copy(existing)];
      var saved := studentRepository.Save(existing);
      var dto := Mapper.ToDto(saved);
      r := dto.value;
    }

    /** `deleteStudent`: checks that the student exists, then deletes it with
        exactly one `deleteById`; a missing id throws and deletes nothing. */
    method DeleteStudent(id: int) returns (r: Result<(), Exception>)
      requires Valid()
      modifies studentRepository
      ensures Valid()
      ensures forall o :: o in studentRepository.rows.Values ==> o in old(studentRepository.rows.Values) || fresh(o)
      ensures r.Ok? <==> old(id in Students())
      ensures r.Ok? ==> Students() == old(Students()) - {id}
      ensures r.Ok? ==> studentRepository.deleteCalls == old(studentRepository.deleteCalls) + [id]
      ensures r.Err? ==> r.error == NotFound(id) && unchanged(studentRepository)
    {
      var present := studentRepository.ExistsById(id);
      if !present {
        return Err(NotFound(id));
      }
      studentRepository.DeleteById(id);
      r := Ok(());
    }
  }
}
