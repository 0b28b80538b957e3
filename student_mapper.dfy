/** Conversions between the persisted entity and the transport record
    (mapper/StudentMapper.java). A null argument is `null` or `None`. */
module Mapper {
  import opened Wrappers
  import opened Model
  import opened Entity

  /** The field-by-field copy of a non-null entity into a transport record. */
  function Copy(e: StudentEntity): (s: Student)
    reads e
    ensures s.id == e.id && s.firstName == e.firstName && s.lastName == e.lastName
  {
    Student(e.GetId(), e.GetFirstName(), e.GetLastName())
  }

  /** `toDto`: null maps to null, anything else to a copy of its fields. */
  function ToDto(e: StudentEntity?): (r: Option<Student>)
    reads e
    ensures r.None? <==> e == null
    ensures e != null ==> r.value.id == e.id && r.value.firstName == e.firstName && r.value.lastName == e.lastName
  {
    if e == null then None else Some(Copy(e))
  }

  /** `toEntity`: null maps to null, anything else to a fresh entity holding
      the record's id (possibly null) and both names, so that mapping it back
      with `toDto` gives the record again. */
  method ToEntity(dto: Option<Student>) returns (entity: StudentEntity?)
    ensures entity == null <==> dto.None?
    ensures entity != null ==> fresh(entity)
    ensures ToDto(entity) == dto
  {
    if dto.None? {
      return null;
    }
    entity := new StudentEntity.Empty();
    entity.SetId(dto.value.id);
    entity.SetFirstName(dto.value.firstName);
    entity.SetLastName(dto.value.lastName);
  }

  /** The element-wise copy that `toDtos` streams over a list. */
  function CopyAll(es: seq<StudentEntity>): (r: seq<Student>)
    reads es
    ensures |r| == |es|
    ensures forall i :: 0 <= i < |es| ==> r[i] == Copy(es[i])
  {
    if es == [] then [] else [Copy(es[0])] + CopyAll(es[1..])
  }

  /** `toDtos`: a null list maps to the empty list; otherwise each element is
      mapped as `toDto` maps it, in order. */
  function ToDtos(entities: Option<seq<StudentEntity>>): (r: seq<Student>)
    reads if entities.Some? then entities.value else []
    ensures entities.None? ==> r == []
    ensures entities.Some? ==> |r| == |entities.value|
    ensures entities.Some? ==> forall i :: 0 <= i < |r| ==> ToDto(entities.value[i]) == Some(r[i])
  {
    match entities
    case None => []
    case Some(es) => CopyAll(es)
  }
}
