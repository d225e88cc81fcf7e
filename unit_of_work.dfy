/** UnitOfWork: owns one session, hands out one GenericRepository per entity
    type (created on first request and cached), saves whatever the session
    still tracks, and disposes the session at most once. */
module UnitOfWorks {
  import opened Domain
  import opened Persistence
  import opened Repositories

  class UnitOfWork {
    const context: DbContext
    var disposed: bool
    /** The repository cache, keyed by entity type. */
    var repositories: map<EntityKind, GenericRepository>
    /** How many times this unit of work has disposed its session. */
    ghost var contextDisposals: nat

    /** Every cached repository is the one for its key and works on this
        unit of work's session; the session is disposed at most once, and
        only once the flag is set. */
    ghost predicate Valid()
      reads this
    {
      && (forall kind :: kind in repositories ==>
            && repositories[kind].kind == kind
            && repositories[kind].isBaseEntity == IsBaseEntity(kind)
            && repositories[kind].context == context)
      && contextDisposals <= 1
      && (!disposed ==> contextDisposals == 0)
    }

    constructor (context: DbContext)
      ensures Valid()
      ensures this.context == context
      ensures repositories == map[] && !disposed && contextDisposals == 0
    {
      this.context := context;
      disposed := false;
      repositories := map[];
      contextDisposals := 0;
    }

    /** GetRepository<T>: the cached repository for the type, or a new one on
        the shared session that is cached from then on. The flag is not
        consulted, but a new repository needs an open session: on a disposed
        one its constructor raises, and nothing is cached (Failed). */
    method GetRepository(kind: EntityKind) returns (r: Result<GenericRepository>)
      requires Valid()
      modifies this`repositories
      ensures Valid()
      ensures r.Ok? ==> r.value.kind == kind && r.value.context == context
      ensures r.Ok? ==> r.value.isBaseEntity == IsBaseEntity(kind)
      ensures kind in old(repositories) ==> r == Ok(old(repositories)[kind]) && repositories == old(repositories)
      ensures kind !in old(repositories) && context.disposed ==> r == Failed && repositories == old(repositories)
      ensures kind !in old(repositories) && !context.disposed ==>
        r.Ok? && fresh(r.value) && repositories == old(repositories)[kind := r.value]
    {
      if kind in repositories {
        r := Ok(repositories[kind]);
      } else if context.disposed {
        r := Failed;
      } else {
        var repo := new GenericRepository(context, kind);
        repositories := repositories[kind := repo];
        r := Ok(repo);
      }
    }

    /** CompleteAsync: the number of changes SaveChanges wrote out, or the
        storage fault, rethrown; a disposed session raises too. The unit of
        work's own flag is not consulted. */
    method CompleteAsync(fault: bool) returns (r: Result<nat>)
      modifies context`pendingChanges
      ensures fault || context.disposed ==> r == Failed && context.pendingChanges == old(context.pendingChanges)
      ensures !fault && !context.disposed ==> r == Ok(old(context.pendingChanges)) && context.pendingChanges == 0
    {
      r := context.SaveChanges(fault);
    }

    /** Dispose(bool): does nothing once disposed; otherwise disposes the
        session if disposing and sets the flag. */
    method DisposeCore(disposing: bool)
      requires Valid()
      modifies this`disposed, this`contextDisposals, context`disposed
      ensures Valid()
      ensures disposed
      ensures old(disposed) ==> contextDisposals == old(contextDisposals) && unchanged(context)
      ensures !old(disposed) && disposing ==> contextDisposals == 1 && context.disposed
      ensures !old(disposed) && !disposing ==> contextDisposals == 0 && unchanged(context)
    {
      if !disposed {
        if disposing {
          context.Dispose();
          contextDisposals := contextDisposals + 1;
        }
        disposed := true;
      }
    }

    /** Dispose(): Dispose(true); finalisation is suppressed. */
    method Dispose()
      requires Valid()
      modifies this`disposed, this`contextDisposals, context`disposed
      ensures Valid()
      ensures disposed
      ensures old(disposed) ==> contextDisposals == old(contextDisposals) && unchanged(context)
      ensures !old(disposed) ==> contextDisposals == 1 && context.disposed
    {
      DisposeCore(true);
    }
  }

  // ---------------------------------------------------------------------
  // What callers can rely on, from the contracts above alone

  /** Two requests for the same type give back the same repository, and the
      second adds nothing to the cache; both fail only for a type not cached
      on a disposed session. */
  method SameTypeSameRepository(uow: UnitOfWork, kind: EntityKind)
    returns (first: Result<GenericRepository>, second: Result<GenericRepository>)
    requires uow.Valid()
    modifies uow`repositories
    ensures uow.Valid()
    ensures first == second
    ensures first.Ok? <==> kind in old(uow.repositories) || !uow.context.disposed
    ensures first.Ok? ==> kind in uow.repositories && uow.repositories[kind] == first.value
    ensures old(uow.repositories).Keys <= uow.repositories.Keys
  {
    first := uow.GetRepository(kind);
    var cacheAfterFirst := uow.repositories;
    second := uow.GetRepository(kind);
    assert uow.repositories == cacheAfterFirst;
  }

  /** Repositories of two types obtained from one unit of work share its
      session, so a write through one is seen by the other's session. */
  method RepositoriesShareTheSession(uow: UnitOfWork, a: EntityKind, b: EntityKind)
    returns (ra: Result<GenericRepository>, rb: Result<GenericRepository>)
    requires uow.Valid()
    modifies uow`repositories
    ensures ra.Ok? ==> ra.value.context == uow.context
    ensures rb.Ok? ==> rb.value.context == uow.context
    ensures a != b && ra.Ok? && rb.Ok? ==> ra.value != rb.value
  {
    ra := uow.GetRepository(a);
    rb := uow.GetRepository(b);
  }

  /** Soft delete as the catalogue uses it: afterwards GetAll leaves the row
      out and GetById still returns it, flagged. */
  method SoftDeleteThenRead(uow: UnitOfWork, id: Guid, now: Timestamp)
    returns (deleted: bool, listed: Result<seq<Entity>>, byId: Result<Option<Entity>>)
    requires uow.Valid() && uow.context.Valid() && !uow.context.disposed
    requires id in uow.context.Set(EbookKind)
    modifies uow`repositories, uow.context`tables, uow.context`pendingChanges
    ensures deleted
    ensures listed.Ok? && forall e :: e in listed.value ==> e.id != id
    ensures byId.Ok? && byId.value.Some? && byId.value.value.id == id && byId.value.value.isDeleted
  {
    var repo := uow.GetRepository(EbookKind);
    var ebooks := repo.value;
    deleted := ebooks.SoftDeleteAsync(id, now, false);
    listed := ebooks.GetAllAsync(None, None, false);
    byId := ebooks.GetByIdAsync(id, false);
    var before := old(uow.context.Set(EbookKind));
    SoftDeleteHidesFromGetAllOnly(before, id, now, None, None);
  }

  /** Each repository write saves at once, so a CompleteAsync right after a
      successful write has nothing left to save. A repository that cannot be
      created raises out of the caller, as does the CompleteAsync after it. */
  method CompleteAfterAddSavesNothing(uow: UnitOfWork, kind: EntityKind, e: Entity, generatedId: Guid)
    returns (added: bool, saved: Result<nat>)
    requires uow.Valid() && uow.context.Valid() && PayloadFits(kind, e)
    requires generatedId != EmptyGuid
    modifies uow`repositories, uow.context`tables, uow.context`pendingChanges
    ensures added ==> saved == Ok(0)
    ensures added <==> !uow.context.disposed && WithKey(e, generatedId).id !in old(uow.context.Set(kind))
  {
    var repo := uow.GetRepository(kind);
    if repo.Failed? {
      return false, Failed;
    }
    added := repo.value.AddAsync(e, generatedId, false);
    saved := uow.CompleteAsync(false);
  }

  /** The round trip through an open unit of work: Add, then CompleteAsync
      (nothing left to save), then GetById returns the stored row field for
      field, then Delete succeeds and gives the type's table back; every table
      is as before unless the type is Category, whose delete cascades. */
  method AddThenReadThenDelete(uow: UnitOfWork, kind: EntityKind, e: Entity, generatedId: Guid)
    returns (added: bool, saved: Result<nat>, byId: Result<Option<Entity>>, deleted: bool)
    requires uow.Valid() && uow.context.Valid() && !uow.context.disposed && PayloadFits(kind, e)
    requires generatedId != EmptyGuid
    modifies uow`repositories, uow.context`tables, uow.context`pendingChanges
    ensures added <==> WithKey(e, generatedId).id !in old(uow.context.Set(kind))
    ensures added ==> saved == Ok(0)
    ensures added ==> byId == Ok(Some(WithKey(e, generatedId)))
    ensures added ==> deleted && uow.context.Set(kind) == old(uow.context.Set(kind))
    ensures added && kind != CategoryKind ==> forall other :: uow.context.Set(other) == old(uow.context.Set(other))
  {
    var repo := uow.GetRepository(kind);
    var store := repo.value;
    added := store.AddAsync(e, generatedId, false);
    saved := uow.CompleteAsync(false);
    var row := WithKey(e, generatedId);
    byId := store.GetByIdAsync(row.id, false);
    deleted := store.DeleteAsync(row.id, false);
    if added {
      AddThenGetByIdThenDelete(old(uow.context.tables), kind, e, generatedId);
    }
  }

  /** After Dispose the unit of work still hands out the repositories it
      cached (its flag is not consulted), while a type not cached yet raises,
      as its constructor needs the session. Every call through a handed-out
      repository fails: writes return false, reads raise; CompleteAsync
      raises too. */
  method UseAfterDispose(uow: UnitOfWork, kind: EntityKind, id: Guid, now: Timestamp)
    returns (repo: Result<GenericRepository>, softDeleted: bool, byId: Result<Option<Entity>>,
             saved: Result<nat>)
    requires uow.Valid() && uow.context.Valid() && !uow.disposed
    modifies uow`disposed, uow`contextDisposals, uow`repositories
    modifies uow.context`disposed, uow.context`tables, uow.context`pendingChanges
    ensures repo.Ok? <==> kind in old(uow.repositories)
    ensures repo.Ok? ==> repo.value == old(uow.repositories)[kind]
    ensures uow.repositories == old(uow.repositories)
    ensures !softDeleted && byId == Failed && saved == Failed
    ensures uow.context.tables == old(uow.context.tables)
  {
    uow.Dispose();
    repo := uow.GetRepository(kind);
    if repo.Ok? {
      softDeleted := repo.value.SoftDeleteAsync(id, now, false);
      byId := repo.value.GetByIdAsync(id, false);
    } else {
      softDeleted, byId := false, Failed;
    }
    saved := uow.CompleteAsync(false);
  }
}
