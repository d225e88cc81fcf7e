/** GenericRepository<T>: the gateway to one entity type's table. Queries are
    functions over the table; writes are methods on a class that shares the
    session (DbContext) with every other repository of its unit of work. Each
    write saves at once, so it is visible as soon as it returns true. */
module Repositories {
  import opened Domain
  import opened Persistence

  // ---------------------------------------------------------------------
  // Enumerating a table

  predicate IsLeast(m: Guid, ids: set<Guid>) {
    m in ids && forall id :: id in ids ==> m <= id
  }

  lemma {:induction false} LeastExists(ids: set<Guid>)
    requires ids != {}
    ensures exists m :: IsLeast(m, ids)
  {
    var x :| x in ids;
    var rest := ids - {x};
    if rest == {} {
      assert ids == {x};
      assert IsLeast(x, ids);
    } else {
      LeastExists(rest);
      var m :| IsLeast(m, rest);
      var least := if x < m then x else m;
      forall id | id in ids
        ensures least <= id
      {
        if id != x {
          assert id in rest;
        }
      }
      assert IsLeast(least, ids);
    }
  }

  function LeastId(ids: set<Guid>): (least: Guid)
    requires ids != {}
    ensures IsLeast(least, ids)
  {
    LeastExists(ids);
    var m :| IsLeast(m, ids);
    m
  }

  /** The ids in ascending order. The database returns the rows of a query
      without ORDER BY in an order it leaves unspecified; the model fixes that
      order to ascending Id. */
  function SortedIds(ids: set<Guid>): (r: seq<Guid>)
    ensures forall i, j :: 0 <= i < j < |r| ==> r[i] < r[j]
    ensures forall id :: id in r <==> id in ids
    ensures |r| == |ids|
    decreases ids
  {
    if ids == {} then []
    else
      var least := LeastId(ids);
      [least] + SortedIds(ids - {least})
  }

  /** ToListAsync over a table: its rows, in the order above. */
  function Rows(t: Table): (rows: seq<Entity>)
  {
    var ids := SortedIds(t.Keys);
    seq(|ids|, i requires 0 <= i < |ids| => t[ids[i]])
  }

  /** The list holds every row of the table once and nothing else. */
  lemma RowsAreTheTable(t: Table)
    requires KeyedById(t)
    ensures |Rows(t)| == |t|
    ensures forall e :: e in Rows(t) <==> e.id in t && t[e.id] == e
    ensures forall i, j :: 0 <= i < j < |Rows(t)| ==> Rows(t)[i].id < Rows(t)[j].id
  {
    var ids := SortedIds(t.Keys);
    var rows := Rows(t);
    assert forall i :: 0 <= i < |rows| ==> rows[i] == t[ids[i]] && rows[i].id == ids[i];
    forall e: Entity | e.id in t && t[e.id] == e
      ensures e in rows
    {
      var i :| 0 <= i < |ids| && ids[i] == e.id;
      assert rows[i] == e;
    }
  }

  // ---------------------------------------------------------------------
  // Queries: GetAllAsync and GetByIdAsync

  /** The Where clauses GetAllAsync adds, in conjunction: the soft-delete
      predicate when T is a BaseEntity, then the caller's filter if any. */
  predicate Passes(isBaseEntity: bool, filter: Option<Entity -> bool>, e: Entity) {
    && (!isBaseEntity || !e.isDeleted)
    && (filter.None? || filter.value(e))
  }

  /** The rows that pass both Where clauses. */
  function Selected(t: Table, isBaseEntity: bool, filter: Option<Entity -> bool>): (selected: Table)
  {
    map id | id in t && Passes(isBaseEntity, filter, t[id]) :: t[id]
  }

  /** An orderBy argument that, as OrderBy/ThenBy do, only rearranges the
      rows it is given. */
  ghost predicate OnlyPermutes(orderBy: Option<seq<Entity> -> seq<Entity>>) {
    orderBy.Some? ==> forall s :: multiset(orderBy.value(s)) == multiset(s)
  }

  /** The list GetAllAsync returns. Includes only attach related entities and
      do not change which rows come back, so they are not parameters. */
  function GetAll(t: Table, isBaseEntity: bool, filter: Option<Entity -> bool>,
                  orderBy: Option<seq<Entity> -> seq<Entity>>): (result: seq<Entity>)
  {
    var listed := Rows(Selected(t, isBaseEntity, filter));
    if orderBy.Some? then orderBy.value(listed) else listed
  }

  /** The row GetByIdAsync returns: matched on Id alone, deleted or not. */
  function Find(t: Table, id: Guid): (found: Option<Entity>)
  {
    if id in t then Some(t[id]) else None
  }

  /** GetAllAsync returns exactly the stored rows that pass the soft-delete
      predicate (for a BaseEntity type) AND the caller's filter, each once;
      without orderBy they come in ascending Id order. */
  lemma GetAllReturnsPassingRows(t: Table, isBaseEntity: bool, filter: Option<Entity -> bool>,
                                 orderBy: Option<seq<Entity> -> seq<Entity>>)
    requires KeyedById(t)
    requires OnlyPermutes(orderBy)
    ensures forall e :: e in GetAll(t, isBaseEntity, filter, orderBy) <==>
      && e.id in t && t[e.id] == e
      && (!isBaseEntity || !e.isDeleted)
      && (filter.None? || filter.value(e))
    ensures |GetAll(t, isBaseEntity, filter, orderBy)| == |Selected(t, isBaseEntity, filter)|
    ensures orderBy.None? ==> forall i, j :: 0 <= i < j < |GetAll(t, isBaseEntity, filter, orderBy)| ==>
      GetAll(t, isBaseEntity, filter, orderBy)[i].id < GetAll(t, isBaseEntity, filter, orderBy)[j].id
  {
    var s := Selected(t, isBaseEntity, filter);
    var listed := Rows(s);
    var rows := GetAll(t, isBaseEntity, filter, orderBy);
    assert KeyedById(s);
    RowsAreTheTable(s);
    if orderBy.Some? {
      PermutationKeepsRows(listed, rows);
    } else {
      assert rows == listed;
    }
    forall e
      ensures e in rows <==> e.id in t && t[e.id] == e && Passes(isBaseEntity, filter, e)
    {
      assert e in rows <==> e in listed;
      assert e in listed <==> e.id in s && s[e.id] == e;
    }
  }

  lemma PermutationKeepsRows(listed: seq<Entity>, rows: seq<Entity>)
    requires multiset(rows) == multiset(listed)
    ensures |rows| == |listed|
    ensures forall e :: e in rows <==> e in listed
  {
    assert |rows| == |multiset(rows)| == |multiset(listed)| == |listed|;
    forall e
      ensures e in rows <==> e in listed
    {
      assert e in rows <==> e in multiset(rows);
      assert e in listed <==> e in multiset(listed);
    }
  }

  /** A caller's filter narrows the soft-delete predicate and cannot widen it:
      for a BaseEntity type no soft-deleted row comes back, whatever the
      filter accepts. */
  lemma FilterCannotRevealDeleted(t: Table, filter: Option<Entity -> bool>,
                                  orderBy: Option<seq<Entity> -> seq<Entity>>)
    requires KeyedById(t)
    requires OnlyPermutes(orderBy)
    ensures forall e :: e in GetAll(t, true, filter, orderBy) ==> !e.isDeleted
  {
    GetAllReturnsPassingRows(t, true, filter, orderBy);
  }

  /** Filtering is ANDed: GetAll with a filter is GetAll without one,
      then filtered. */
  lemma FilterComposes(t: Table, isBaseEntity: bool, f: Entity -> bool)
    ensures Selected(t, isBaseEntity, Some(f)) == Selected(Selected(t, isBaseEntity, None), false, Some(f))
  {
  }

  /** For a type that is not a BaseEntity no deletion filter applies: with no
      caller filter every stored row comes back, soft-deleted or not. */
  lemma NonAuditedTypeReturnsEveryRow(t: Table)
    requires KeyedById(t)
    ensures forall e :: e in GetAll(t, false, None, None) <==> e.id in t && t[e.id] == e
    ensures |GetAll(t, false, None, None)| == |t|
  {
    assert Selected(t, false, None) == t;
    RowsAreTheTable(t);
  }

  /** GetByIdAsync finds every row GetAllAsync lists, and it also finds the
      soft-deleted rows GetAllAsync leaves out. */
  lemma GetByIdSeesAllThatGetAllSees(t: Table, isBaseEntity: bool, filter: Option<Entity -> bool>,
                                     orderBy: Option<seq<Entity> -> seq<Entity>>)
    requires KeyedById(t)
    requires OnlyPermutes(orderBy)
    ensures forall e :: e in GetAll(t, isBaseEntity, filter, orderBy) ==> Find(t, e.id) == Some(e)
    ensures forall id :: id in t && t[id].isDeleted ==> Find(t, id) == Some(t[id]) && t[id] !in GetAll(t, true, filter, orderBy)
  {
    GetAllReturnsPassingRows(t, isBaseEntity, filter, orderBy);
    GetAllReturnsPassingRows(t, true, filter, orderBy);
  }

  // ---------------------------------------------------------------------
  // The row updates the writes perform

  /** The two assignments SoftDeleteAsync makes on the loaded entity:
      IsDeleted := true and DeletedAt := now; DeletedBy is left as it is. */
  function MarkDeleted(e: Entity, now: Timestamp): (d: Entity)
    ensures d.isDeleted && d.deletedAt == Some(now)
    ensures d.(isDeleted := e.isDeleted, deletedAt := e.deletedAt) == e
  {
    e.(isDeleted := true, deletedAt := Some(now))
  }

  /** The table after a soft delete of a stored id. */
  function SoftDeleted(t: Table, id: Guid, now: Timestamp): (t': Table)
    requires id in t
    ensures t'.Keys == t.Keys
    ensures t'[id] == MarkDeleted(t[id], now)
    ensures forall other :: other in t && other != id ==> t'[other] == t[other]
  {
    t[id := MarkDeleted(t[id], now)]
  }

  /** The row AddAsync stores: the ORM generates the Guid key on add when
      the entity still holds Guid.Empty, and keeps any other Id. */
  function WithKey(e: Entity, generatedId: Guid): (stored: Entity)
    ensures e.id != EmptyGuid ==> stored == e
    ensures e.id == EmptyGuid ==> stored.id == generatedId
    ensures stored.(id := e.id) == e
  {
    if e.id == EmptyGuid then e.(id := generatedId) else e
  }

  /** An Ebook row whose required CategoryId names the given Category. */
  predicate ReferencesCategory(e: Entity, categoryId: Guid) {
    e.payload.EbookFields? && e.payload.categoryId == Some(categoryId)
  }

  /** The session's tables after a hard delete of a stored id. The Ebook to
      Category relationship is required, so the ORM's convention deletes the
      Ebooks of a deleted Category with it (cascade); any other delete
      removes that one row. */
  function HardDeleted(tables: map<EntityKind, Table>, kind: EntityKind, id: Guid): (r: map<EntityKind, Table>)
    ensures TableOf(r, kind) == TableOf(tables, kind) - {id}
    ensures kind != CategoryKind ==> forall other :: other != kind ==> TableOf(r, other) == TableOf(tables, other)
    ensures kind == CategoryKind ==> forall other :: other != kind && other != EbookKind ==>
      TableOf(r, other) == TableOf(tables, other)
    ensures kind == CategoryKind ==> forall ebookId :: ebookId in TableOf(tables, EbookKind) ==>
      (ebookId in TableOf(r, EbookKind) <==> !ReferencesCategory(TableOf(tables, EbookKind)[ebookId], id))
    ensures kind == CategoryKind ==> forall ebookId :: ebookId in TableOf(r, EbookKind) ==>
      ebookId in TableOf(tables, EbookKind) && TableOf(r, EbookKind)[ebookId] == TableOf(tables, EbookKind)[ebookId]
  {
    var removed := tables[kind := TableOf(tables, kind) - {id}];
    if kind == CategoryKind then
      var ebooks := TableOf(tables, EbookKind);
      removed[EbookKind := map ebookId | ebookId in ebooks && !ReferencesCategory(ebooks[ebookId], id) :: ebooks[ebookId]]
    else
      removed
  }

  /** After a Category is hard-deleted no Ebook is left that references it,
      and every other Ebook is kept as it was. */
  lemma DeleteCategoryLeavesNoOrphans(tables: map<EntityKind, Table>, id: Guid)
    ensures forall e :: e in TableOf(HardDeleted(tables, CategoryKind, id), EbookKind).Values ==>
      !ReferencesCategory(e, id)
    ensures forall ebookId :: ebookId in TableOf(tables, EbookKind) && !ReferencesCategory(TableOf(tables, EbookKind)[ebookId], id) ==>
      Find(TableOf(HardDeleted(tables, CategoryKind, id), EbookKind), ebookId) == Some(TableOf(tables, EbookKind)[ebookId])
  {
    var after := TableOf(HardDeleted(tables, CategoryKind, id), EbookKind);
    forall e | e in after.Values
      ensures !ReferencesCategory(e, id)
    {
      var ebookId :| ebookId in after && after[ebookId] == e;
    }
  }

  /** A hard delete keeps every table keyed by Id and holding its own type. */
  lemma HardDeletedKeepsTablesValid(tables: map<EntityKind, Table>, kind: EntityKind, id: Guid)
    requires TablesValid(tables)
    ensures TablesValid(HardDeleted(tables, kind, id))
  {
    var r := HardDeleted(tables, kind, id);
    forall k | k in r
      ensures KeyedById(r[k]) && RowsFit(k, r[k])
    {
      assert r[k] == TableOf(r, k);
      if k == kind || (kind == CategoryKind && k == EbookKind) {
        assert forall x :: x in r[k] ==> x in TableOf(tables, k) && r[k][x] == TableOf(tables, k)[x];
      } else {
        assert r[k] == TableOf(tables, k);
      }
    }
  }

  /** After a soft delete, GetAllAsync of a BaseEntity type no longer lists
      the row while GetByIdAsync still returns it, flagged. */
  lemma SoftDeleteHidesFromGetAllOnly(t: Table, id: Guid, now: Timestamp,
                                      filter: Option<Entity -> bool>,
                                      orderBy: Option<seq<Entity> -> seq<Entity>>)
    requires KeyedById(t) && id in t
    requires OnlyPermutes(orderBy)
    ensures KeyedById(SoftDeleted(t, id, now))
    ensures forall e :: e in GetAll(SoftDeleted(t, id, now), true, filter, orderBy) ==> e.id != id
    ensures Find(SoftDeleted(t, id, now), id) == Some(MarkDeleted(t[id], now))
    ensures Find(SoftDeleted(t, id, now), id).value.isDeleted
  {
    var t' := SoftDeleted(t, id, now);
    assert KeyedById(t');
    GetAllReturnsPassingRows(t', true, filter, orderBy);
  }

  /** A soft delete removes exactly that one row from what GetAllAsync
      selects, and only when the row was still selected. */
  lemma SoftDeleteNarrowsSelection(t: Table, id: Guid, now: Timestamp,
                                                      filter: Option<Entity -> bool>)
    requires id in t
    ensures Selected(SoftDeleted(t, id, now), true, filter) == Selected(t, true, filter) - {id}
  {
  }

  /** Repeating a soft delete keeps the row deleted; only DeletedAt moves to
      the later call's time. */
  lemma SoftDeleteAgainRestamps(t: Table, id: Guid, first: Timestamp, second: Timestamp)
    requires id in t
    ensures SoftDeleted(SoftDeleted(t, id, first), id, second) == SoftDeleted(t, id, second)
  {
  }

  /** The tables after AddAsync stored a row of the given type. */
  function Added(tables: map<EntityKind, Table>, kind: EntityKind, row: Entity): (r: map<EntityKind, Table>)
    ensures TableOf(r, kind) == TableOf(tables, kind)[row.id := row]
    ensures forall other :: other != kind ==> TableOf(r, other) == TableOf(tables, other)
  {
    tables[kind := TableOf(tables, kind)[row.id := row]]
  }

  /** Add then GetById returns the stored row (the entity under its key)
      field for field; a hard delete of it gives the type's table back as it
      was, and every table when the type is not Category, whose delete
      cascades. */
  lemma AddThenGetByIdThenDelete(tables: map<EntityKind, Table>, kind: EntityKind, e: Entity, generatedId: Guid)
    requires WithKey(e, generatedId).id !in TableOf(tables, kind)
    ensures var row := WithKey(e, generatedId);
            Find(TableOf(Added(tables, kind, row), kind), row.id) == Some(row)
    ensures var row := WithKey(e, generatedId);
            TableOf(HardDeleted(Added(tables, kind, row), kind, row.id), kind) == TableOf(tables, kind)
    ensures var row := WithKey(e, generatedId);
            kind != CategoryKind ==> forall other ::
              TableOf(HardDeleted(Added(tables, kind, row), kind, row.id), other) == TableOf(tables, other)
  {
    var row := WithKey(e, generatedId);
    var after := HardDeleted(Added(tables, kind, row), kind, row.id);
    assert TableOf(tables, kind)[row.id := row] - {row.id} == TableOf(tables, kind);
    if kind != CategoryKind {
      forall other
        ensures TableOf(after, other) == TableOf(tables, other)
      {
        if other != kind {
          assert TableOf(after, other) == TableOf(Added(tables, kind, row), other);
        }
      }
    }
  }

  /** The repository ties IsDeleted to DeletedAt but never sets DeletedBy: a
      row as BaseEntity initialises it, once soft-deleted, is flagged and
      time-stamped while DeletedBy stays unset. */
  lemma SoftDeleteLeavesDeletedByUnset(t: Table, id: Guid, created: Timestamp, payload: Payload, now: Timestamp)
    requires id in t && t[id] == NewEntity(id, created, payload)
    ensures SoftDeleted(t, id, now)[id].isDeleted
    ensures SoftDeleted(t, id, now)[id].deletedAt == Some(now)
    ensures SoftDeleted(t, id, now)[id].deletedBy.None?
  {
    assert NoDeletionStamp(t[id]);
  }

  /** A newly constructed entity that is added is listed by GetAllAsync of its
      BaseEntity type (it is not soft-deleted) and found by GetByIdAsync. */
  lemma NewEntityIsListedAfterAdd(t: Table, id: Guid, now: Timestamp, payload: Payload)
    requires KeyedById(t) && id !in t
    ensures NewEntity(id, now, payload) in GetAll(t[id := NewEntity(id, now, payload)], true, None, None)
    ensures Find(t[id := NewEntity(id, now, payload)], id) == Some(NewEntity(id, now, payload))
  {
    var e := NewEntity(id, now, payload);
    var t' := t[id := e];
    assert KeyedById(t');
    GetAllReturnsPassingRows(t', true, None, None);
  }

  // ---------------------------------------------------------------------
  // The repository object

  class GenericRepository {
    const context: DbContext
    const kind: EntityKind
    /** typeof(BaseEntity).IsAssignableFrom(typeof(T)). */
    const isBaseEntity: bool

    /** The constructor takes its table with context.Set<T>(), which a
        disposed session refuses. */
    constructor (context: DbContext, kind: EntityKind)
      requires !context.disposed
      ensures this.context == context && this.kind == kind
      ensures isBaseEntity == IsBaseEntity(kind)
    {
      this.context := context;
      this.kind := kind;
      isBaseEntity := IsBaseEntity(kind);
    }

    /** dbSet: this entity type's table in the shared session. */
    function Store(): Table
      reads context
    {
      context.Set(kind)
    }

    /** GetAllAsync: the stored rows through both Where clauses, then
        orderBy; a storage fault, or a disposed session, is rethrown. Reads
        change nothing. */
    method GetAllAsync(filter: Option<Entity -> bool>, orderBy: Option<seq<Entity> -> seq<Entity>>,
                       fault: bool)
      returns (r: Result<seq<Entity>>)
      ensures fault || context.disposed ==> r == Failed
      ensures !fault && !context.disposed ==> r == Ok(GetAll(Store(), isBaseEntity, filter, orderBy))
    {
      if fault || context.disposed {
        return Failed;
      }
      var query := Store();
      query := Selected(query, isBaseEntity, None);
      if filter.Some? {
        query := Selected(query, false, filter);
        FilterComposes(Store(), isBaseEntity, filter.value);
      }
      var rows := Rows(query);
      if orderBy.Some? {
        rows := orderBy.value(rows);
      }
      r := Ok(rows);
    }

    /** GetByIdAsync: the row whose Id matches, soft-deleted or not, or none;
        a storage fault, or a disposed session, is rethrown. */
    method GetByIdAsync(id: Guid, fault: bool) returns (r: Result<Option<Entity>>)
      ensures fault || context.disposed ==> r == Failed
      ensures !fault && !context.disposed && id in Store() ==> r == Ok(Some(Store()[id]))
      ensures !fault && !context.disposed && id !in Store() ==> r == Ok(None)
    {
      if fault || context.disposed {
        return Failed;
      }
      r := Ok(Find(Store(), id));
    }

    /** AddAsync: inserts and saves at once; an entity still holding
        Guid.Empty is stored under the key the ORM generates (generatedId).
        A storage fault, a disposed session, or a second row with the same
        key comes back as false. */
    method AddAsync(entity: Entity, generatedId: Guid, fault: bool) returns (ok: bool)
      requires context.Valid() && PayloadFits(kind, entity)
      requires generatedId != EmptyGuid
      modifies context`tables, context`pendingChanges
      ensures context.Valid()
      ensures ok == (!fault && !context.disposed && WithKey(entity, generatedId).id !in old(Store()))
      ensures ok ==> context.tables == Added(old(context.tables), kind, WithKey(entity, generatedId))
      ensures ok ==> context.pendingChanges == 0
      ensures !ok ==> unchanged(context)
    {
      var row := WithKey(entity, generatedId);
      if row.id in Store() {
        return false;
      }
      var saved := context.SaveChanges(fault);
      if saved.Failed? {
        return false;
      }
      context.tables := Added(context.tables, kind, row);
      ok := true;
    }

    /** UpdateAsync: replaces the whole row and saves at once. A storage
        fault, including a row that is not there to update, comes back as
        false, and so does a disposed session. */
    method UpdateAsync(entity: Entity, fault: bool) returns (ok: bool)
      requires context.Valid() && PayloadFits(kind, entity)
      modifies context`tables, context`pendingChanges
      ensures context.Valid()
      ensures ok == (!fault && !context.disposed && entity.id in old(Store()))
      ensures ok ==> context.tables == old(context.tables)[kind := old(Store())[entity.id := entity]]
      ensures ok ==> context.pendingChanges == 0
      ensures !ok ==> unchanged(context)
    {
      if entity.id !in Store() {
        return false;
      }
      var saved := context.SaveChanges(fault);
      if saved.Failed? {
        return false;
      }
      context.tables := context.tables[kind := Store()[entity.id := entity]];
      ok := true;
    }

    /** DeleteAsync: a hard delete. Not found, a storage fault or a disposed
        session is false; a found row is removed whether or not it was
        soft-deleted, together with what the cascade removes. */
    method DeleteAsync(id: Guid, fault: bool) returns (ok: bool)
      requires context.Valid()
      modifies context`tables, context`pendingChanges
      ensures context.Valid()
      ensures ok == (!fault && !context.disposed && id in old(Store()))
      ensures ok ==> context.tables == HardDeleted(old(context.tables), kind, id)
      ensures ok ==> context.pendingChanges == 0
      ensures !ok ==> unchanged(context)
    {
      var found := GetByIdAsync(id, fault);
      if found.Failed? || found.value.None? {
        return false;
      }
      var saved := context.SaveChanges(fault);
      if saved.Failed? {
        return false;
      }
      HardDeletedKeepsTablesValid(context.tables, kind, id);
      context.tables := HardDeleted(context.tables, kind, id);
      ok := true;
    }

    /** SoftDeleteAsync: on a stored row of a BaseEntity type, sets IsDeleted
        and DeletedAt (now stands for DateTime.UtcNow), saves and returns
        true, also when the row was deleted already. An absent id or a type
        that is not a BaseEntity gives false, as do a storage fault and a
        disposed session. */
    method SoftDeleteAsync(id: Guid, now: Timestamp, fault: bool) returns (ok: bool)
      requires context.Valid()
      modifies context`tables, context`pendingChanges
      ensures context.Valid()
      ensures ok == (!fault && !context.disposed && isBaseEntity && id in old(Store()))
      ensures ok ==> context.tables == old(context.tables)[kind := SoftDeleted(old(Store()), id, now)]
      ensures ok ==> context.pendingChanges == 0
      ensures !ok ==> unchanged(context)
    {
      if fault || context.disposed {
        return false;
      }
      var entity := Find(Store(), id);
      if entity.Some? && isBaseEntity {
        var saved := context.SaveChanges(fault);
        if saved.Failed? {
          return false;
        }
        context.tables := context.tables[kind := Store()[id := MarkDeleted(entity.value, now)]];
        return true;
      }
      ok := false;
    }
  }
}
