/** The database session (EbookStoreDbContext) as the data-access layer sees
    it: one table of rows per entity type, keyed by the rows' Id, and a count
    of changes the session tracks but has not saved yet. */
module Persistence {
  import opened Domain

  /** One DbSet<T> with its saved rows. */
  type Table = map<Guid, Entity>

  /** An operation that rethrows a storage fault instead of returning. */
  datatype Result<T> = Ok(value: T) | Failed

  /** Every row is stored under its own Id (the primary key). */
  ghost predicate KeyedById(t: Table) {
    forall id :: id in t ==> t[id].id == id
  }

  /** Every row of the table carries the fields of the table's entity type. */
  ghost predicate RowsFit(kind: EntityKind, t: Table) {
    forall id :: id in t ==> PayloadFits(kind, t[id])
  }

  /** The table of one entity type (empty until written). */
  function TableOf(tables: map<EntityKind, Table>, kind: EntityKind): (table: Table) {
    if kind in tables then tables[kind] else map[]
  }

  ghost predicate TablesValid(tables: map<EntityKind, Table>) {
    forall kind :: kind in tables ==> KeyedById(tables[kind]) && RowsFit(kind, tables[kind])
  }

  class DbContext {
    var tables: map<EntityKind, Table>
    /** Changes the session tracks on entities it loaded and that code outside
        the repositories mutated; SaveChanges writes them out. */
    var pendingChanges: nat
    var disposed: bool

    ghost predicate Valid()
      reads this
    {
      TablesValid(tables)
    }

    constructor (tables: map<EntityKind, Table>, pendingChanges: nat)
      requires TablesValid(tables)
      ensures Valid()
      ensures this.tables == tables && this.pendingChanges == pendingChanges && !disposed
    {
      this.tables := tables;
      this.pendingChanges := pendingChanges;
      disposed := false;
    }

    /** context.Set<T>(). */
    function Set(kind: EntityKind): Table
      reads this
    {
      TableOf(tables, kind)
    }

    /** SaveChangesAsync: writes out every tracked change and returns how many
        there were, or raises a storage fault and keeps them. A disposed
        session raises (ObjectDisposedException) whatever the database does. */
    method SaveChanges(fault: bool) returns (r: Result<nat>)
      modifies this`pendingChanges
      ensures fault || disposed ==> r == Failed && pendingChanges == old(pendingChanges)
      ensures !fault && !disposed ==> r == Ok(old(pendingChanges)) && pendingChanges == 0
    {
      if fault || disposed {
        r := Failed;
      } else {
        r := Ok(pendingChanges);
        pendingChanges := 0;
      }
    }

    method Dispose()
      modifies this`disposed
      ensures disposed
    {
      disposed := true;
    }
  }
}
