/**
 * Identity of the Kotlin `BaseEntity`: an id that is never null, the `persisted` flag, the
 * `isActive` default, and `equals`/`hashCode` by id.
 */
module BaseEntityModel {
  import opened Wrappers

  /** A `java.util.UUID`: its two 64-bit halves. */
  datatype Uuid = Uuid(mostSigBits: bv64, leastSigBits: bv64)

  /** `UUID.hashCode()`: the two 32-bit halves of `mostSigBits ^ leastSigBits`, xor-ed. */
  function UuidHash(u: Uuid): bv32 {
    var hilo := u.mostSigBits ^ u.leastSigBits;
    ((hilo >> 32) as bv32) ^ ((hilo & 0xFFFF_FFFF) as bv32)
  }

  /** The argument of `equals(other: Any?)`: null, a value that is no entity, or an entity. */
  datatype Other = Null | NotAnEntity | Entity(entity: BaseEntity)

  class BaseEntity {
    var id: Uuid
    var persisted: bool
    var clientId: Option<Uuid>
    var createdBy: Option<string>
    var modifiedBy: Option<string>
    var version: Option<int>
    var isActive: bool

    /**
     * `BaseEntity(givenId)`: the id is the given one, or the freshly drawn `randomId`
     * (`UUID.randomUUID()`) when none is given; the entity counts as persisted exactly when
     * an id was given; it starts active, with no audit data.
     */
    constructor (givenId: Option<Uuid>, randomId: Uuid)
      ensures id == (if givenId.Some? then givenId.value else randomId)
      ensures persisted <==> givenId.Some?
      ensures IsNew() <==> givenId.None?
      ensures isActive
      ensures clientId.None? && createdBy.None? && modifiedBy.None? && version.None?
    {
      id := if givenId.Some? then givenId.value else randomId;
      persisted := givenId.Some?;
      clientId := None;
      createdBy := None;
      modifiedBy := None;
      version := None;
      isActive := true;
    }

    function GetId(): Uuid
      reads this
    {
      id
    }

    /** `setId`: replaces the id and nothing else; in particular `persisted` is kept. */
    method SetId(newId: Uuid)
      modifies this
      ensures id == newId
      ensures persisted == old(persisted) && isActive == old(isActive)
      ensures clientId == old(clientId) && version == old(version)
      ensures createdBy == old(createdBy) && modifiedBy == old(modifiedBy)
    {
      id := newId;
    }

    /** `isNew()`: an entity is new exactly when it was not built from a given id. */
    function IsNew(): (r: bool)
      reads this
      ensures r <==> !persisted
    {
      !persisted
    }

    /** `hashCode()`: the hash of the id, so two entities with one id hash alike. */
    function HashCode(): (h: bv32)
      reads this
      ensures h == UuidHash(GetId())
    {
      UuidHash(id)
    }

    /**
     * `equals(other)`: true for this very object, false for null and for a value that is no
     * entity, otherwise true exactly when the ids agree; equal entities have equal hash codes.
     */
    function Equals(other: Other): (r: bool)
      reads this, if other.Entity? then {other.entity} else {}
      ensures other == Entity(this) ==> r
      ensures other.Null? || other.NotAnEntity? ==> !r
      ensures other.Entity? ==> (r <==> other.entity.id == id)
      ensures r ==> other.Entity? && other.entity.HashCode() == HashCode()
    {
      if other.Entity? && other.entity == this then true
      else if other.Null? then false
      else if !other.Entity? then false
      else GetId() == other.entity.GetId()
    }
  }

  /** `equals` is symmetric between two entities. */
  lemma EqualsSymmetric(a: BaseEntity, b: BaseEntity)
    ensures a.Equals(Entity(b)) <==> b.Equals(Entity(a))
  {
  }

  /** `equals` is transitive across three entities. */
  lemma EqualsTransitive(a: BaseEntity, b: BaseEntity, c: BaseEntity)
    requires a.Equals(Entity(b)) && b.Equals(Entity(c))
    ensures a.Equals(Entity(c))
  {
  }
}
