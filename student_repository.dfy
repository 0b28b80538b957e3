/** The store behind the service. The Spring Data repository the service is
    written against (`StudentRepository`) is not part of this model: this
    class stands in for it, and only the contracts of its methods are what the
    service relies on. Records live in a map from key to the stored entity;
    keys are handed out from a counter, as a database sequence does. */
module Repository {
  import opened Wrappers
  import opened Model
  import opened Entity
  import Mapper

  class StudentRepository {
    /** The stored (managed) entities, by primary key. */
    var rows: map<int, StudentEntity>
    /** The keys in use lie in `[lowId, nextId)`; `nextId` is the next key
        the store will assign to a new record. Where the range starts is
        the store's business, so nothing is promised about which keys can
        occur. */
    var lowId: int
    var nextId: int
    /** Every key passed to `DeleteById`, oldest first. */
    ghost var deleteCalls: seq<int>

    /** Every stored entity carries its own key as its id, and every key in
        use lies below `nextId`, so a key handed out from the counter is new. */
    ghost predicate Valid()
      reads this, rows.Values
    {
      lowId <= nextId && forall k :: k in rows ==> rows[k].id == Some(k) && lowId <= k < nextId
    }

    /** The store's contents as transport records; in a valid store each
        record's id is its key. */
    ghost function Table(): (t: map<int, Student>)
      reads this, rows.Values
      ensures t.Keys == rows.Keys
      ensures Valid() ==> forall k :: k in t ==> t[k].id == Some(k)
    {
      map k | k in rows :: Mapper.Copy(rows[k])
    }

    constructor ()
      ensures Valid() && Table() == map[] && deleteCalls == []
    {
      rows := map[];
      lowId, nextId := 1, 1;
      deleteCalls := [];
    }

    /** `findById`: the stored entity under `id`, or empty. */
    method FindById(id: int) returns (r: Option<StudentEntity>)
      requires Valid()
      ensures r.Some? <==> id in Table()
      ensures r.Some? ==> r.value == rows[id] && Mapper.Copy(r.value) == Table()[id]
      ensures r.Some? ==> r.value.id == Some(id)
    {
      r := if id in rows then Some(rows[id]) else None;
    }

    /** `existsById`. */
    method ExistsById(id: int) returns (b: bool)
      requires Valid()
      ensures b <==> id in Table()
    {
      b := id in rows;
    }

    /** `findAll`: every stored entity exactly once, in an order the store
        chooses (this stand-in lists them by ascending key). */
    method FindAll() returns (all: seq<StudentEntity>)
      requires Valid()
      ensures |all| == |Table()|
      ensures forall i :: 0 <= i < |all| ==> all[i].id.Some? && all[i].id.value in rows && rows[all[i].id.value] == all[i]
      ensures forall i, j :: 0 <= i < j < |all| ==> all[i] != all[j]
      ensures forall k :: k in rows ==> rows[k] in all
    {
      ghost var listed: set<int> := {};
      all := [];
      for key := lowId to nextId
        invariant listed <= rows.Keys && |all| == |listed|
        invariant forall k :: k in rows ==> (k in listed <==> k < key)
        invariant forall i :: 0 <= i < |all| ==> all[i].id.Some? && all[i].id.value in listed && rows[all[i].id.value] == all[i]
        invariant forall i, j :: 0 <= i < j < |all| ==> all[i].id.value < all[j].id.value
        invariant forall k :: k in listed ==> rows[k] in all
      {
        if key in rows {
          all := all + [rows[key]];
          listed := listed + {key};
        }
      }
      assert listed == rows.Keys;
    }

    /** `save`: stores the entity and returns the stored record with its key
        as id. A new entity (null id) gets a key not in use; an entity that is
        already stored keeps its key. Where a detached entity that carries an
        id ends up is left open. */
    method Save(e: StudentEntity) returns (saved: StudentEntity)
      requires Valid()
      modifies this, e
      ensures Valid() && deleteCalls == old(deleteCalls)
      ensures saved.id.Some? && (saved == e || fresh(saved))
      ensures forall o :: o in rows.Values ==> o in old(rows.Values) || o == e || fresh(o)
      ensures saved.firstName == old(e.firstName) && saved.lastName == old(e.lastName)
      ensures rows == old(rows)[saved.id.value := saved]
      ensures Table() == old(Table())[saved.id.value := Student(saved.id, old(e.firstName), old(e.lastName))]
      ensures old(e.id).None? ==> saved.id.value !in old(Table())
      ensures old(e.id).Some? && old(e.id).value in old(rows) && old(rows)[old(e.id).value] == e ==> saved.id == old(e.id)
    {
      if e.id.Some? && e.id.value in rows {
        Merge(e);
      } else {
        Persist(e);
      }
      saved := e;
    }

    /** The insert half of `save`: the entity takes the next key as its id. */
    method Persist(e: StudentEntity)
      requires Valid() && (e.id.None? || e.id.value !in rows)
      modifies this, e
      ensures Valid() && deleteCalls == old(deleteCalls)
      ensures e.id == Some(old(nextId)) && old(nextId) !in old(rows)
      ensures e.firstName == old(e.firstName) && e.lastName == old(e.lastName)
      ensures rows == old(rows)[old(nextId) := e]
      ensures Table() == old(Table())[old(nextId) := Mapper.Copy(e)]
    {
      assert forall k :: k in rows ==> rows[k] != e;
      e.SetId(Some(nextId));
      rows := rows[nextId := e];
      nextId := nextId + 1;
      assert forall k :: k in old(rows) ==> rows[k] == old(rows)[k] && rows[k] != e;
    }

    /** The update half of `save`: the entity is stored under its own id. */
    method Merge(e: StudentEntity)
      requires Valid() && e.id.Some? && e.id.value in rows
      modifies this
      ensures Valid() && deleteCalls == old(deleteCalls)
      ensures rows == old(rows)[e.id.value := e]
      ensures Table() == old(Table())[e.id.value := Mapper.Copy(e)]
    {
      rows := rows[e.id.value := e];
    }

    /** `deleteById`: removes the record under `id`. This stand-in treats a
        missing key as a no-op; the service never relies on that, since it
        checks `existsById` first. */
    method DeleteById(id: int)
      requires Valid()
      modifies this
      ensures Valid()
      ensures rows == old(rows) - {id}
      ensures Table() == old(Table()) - {id}
      ensures deleteCalls == old(deleteCalls) + [id]
    {
      rows := rows - {id};
      deleteCalls := deleteCalls + [id];
    }
  }
}
