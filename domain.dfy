/** The audited entity record shared by every persisted entity (BaseEntity),
    the payloads of the two concrete entities, and the tags that stand for
    the entity types a unit of work hands out repositories for. */
module Domain {

  /** A GUID. Only equality and the all-zero default value matter here. */
  type Guid = nat

  /** Guid.Empty, the value a Guid property holds when nothing assigns it. */
  const EmptyGuid: Guid := 0

  /** A DateTime, as a tick count. */
  type Timestamp = int

  datatype Option<T> = None | Some(value: T)

  /** What Ebook and Category add to the base record (Price, a decimal, is
      not modelled; see the README). */
  datatype Payload =
    | EbookFields(title: string, description: string, author: string,
                  publisher: Option<string>, language: string, pages: int,
                  categoryId: Option<Guid>, coverImageUrl: string)
    | CategoryFields(name: string)

  /** BaseEntity: the identifier, the audit stamps and the soft-delete fields. */
  datatype Entity = Entity(
    id: Guid,
    createdBy: Guid,
    createdAt: Timestamp,
    updatedBy: Option<Guid>,
    updatedAt: Option<Timestamp>,
    isDeleted: bool,
    deletedBy: Option<Guid>,
    deletedAt: Option<Timestamp>,
    payload: Payload)

  /** The entity types a repository can be asked for. Ebook and Category
      derive from BaseEntity; NonAuditedKind stands for any other class type,
      which GetRepository<T> accepts as well. */
  datatype EntityKind = EbookKind | CategoryKind | NonAuditedKind

  /** typeof(BaseEntity).IsAssignableFrom(typeof(T)). */
  predicate IsBaseEntity(kind: EntityKind) {
    kind != NonAuditedKind
  }

  /** A row of an entity type carries that type's fields: the Ebook table
      holds Ebooks and the Category table holds Categories. */
  predicate PayloadFits(kind: EntityKind, e: Entity) {
    match kind
    case EbookKind => e.payload.EbookFields?
    case CategoryKind => e.payload.CategoryFields?
    case NonAuditedKind => true
  }

  predicate NeverUpdated(e: Entity) {
    e.updatedBy.None? && e.updatedAt.None?
  }

  predicate NoDeletionStamp(e: Entity) {
    e.deletedBy.None? && e.deletedAt.None?
  }

  /** A record as the property initialisers leave it: Guid.NewGuid() and
      DateTime.UtcNow are the parameters id and now. */
  function NewEntity(id: Guid, now: Timestamp, payload: Payload): (e: Entity)
    ensures e.id == id && e.createdAt == now && e.createdBy == EmptyGuid
    ensures !e.isDeleted
    ensures NeverUpdated(e) && NoDeletionStamp(e)
    ensures e.payload == payload
  {
    Entity(id, EmptyGuid, now, None, None, false, None, None, payload)
  }

  /** The record couples nothing: the flag and the stamps can each be set
      without the others, so any such relation has to come from the code that
      writes them. */
  lemma {:induction false} FlagAndStampsAreIndependent(id: Guid, now: Timestamp, payload: Payload)
    ensures exists e: Entity :: e.isDeleted && NoDeletionStamp(e)
    ensures exists e: Entity :: !e.isDeleted && e.deletedAt.Some? && e.deletedBy.Some?
  {
    var created := NewEntity(id, now, payload);
    var flagged := created.(isDeleted := true);
    assert flagged.isDeleted && NoDeletionStamp(flagged);
    var stamped := created.(deletedBy := Some(EmptyGuid), deletedAt := Some(now));
    assert !stamped.isDeleted && stamped.deletedAt.Some? && stamped.deletedBy.Some?;
  }
}
