# EbookStore data-access layer, in Dafny

A model of the data-access core of the EbookStore catalogue backend: the
audited entity record every persisted entity shares (`BaseEntity`), the
generic repository that reads and writes one entity type's table
(`GenericRepository<T>`), and the unit of work that hands out one repository
per entity type over a single database session (`UnitOfWork`).

- `domain.dfy`, module `Domain`: `BaseEntity` as the datatype `Entity`, the
  Ebook and Category payloads, and `EntityKind`, the tag that stands for the
  entity type `T` (Ebook, Category, or a class that does not derive from
  `BaseEntity`).
- `persistence.dfy`, module `Persistence`: the session (`DbContext`), holding
  one table per entity type as a `map<Guid, Entity>` keyed by Id, and a count
  of changes it tracks but has not saved. `SaveChanges` writes those out and
  returns the count.
- `repositories.dfy`, module `Repositories`: the queries as functions over a
  table (`Selected`, `GetAll`, `Find`), the row and table updates the writes
  perform (`WithKey` and `Added` for Add, `MarkDeleted` and `SoftDeleted` for
  SoftDelete, `HardDeleted` with its cascade for Delete), the lemmas that
  relate them, and the class
  `GenericRepository` whose methods are the six repository operations. Every
  write saves at once, so there is no change buffer inside the repository.
- `unit_of_work.dfy`, module `UnitOfWorks`: the class `UnitOfWork` with its
  repository cache (a map from `EntityKind` to repository), `CompleteAsync`,
  and the `disposed` flag. It ends with client methods that derive, from the
  contracts alone, what callers rely on.

Parameters stand in for what the model does not compute. `now` stands for
`DateTime.UtcNow`. `id` stands for `Guid.NewGuid()`. `generatedId` stands for
the key the ORM generates for an entity added with Id = Guid.Empty. `fault` says whether the
database raises an error during the call. Writes turn a fault into `false`
and leave the session as it was. Reads and `CompleteAsync` return `Failed`,
which stands for rethrowing the exception.

Three behaviours of the code that callers depend on:

- `GetAllAsync` ANDs the caller's filter with the soft-delete predicate
  (GenericRepository.cs:39-47). A filter narrows the result and never
  replaces the predicate. `FilterCannotRevealDeleted` proves that no filter
  brings a soft-deleted row back.
- Every repository write calls `SaveChangesAsync` itself
  (GenericRepository.cs:91,107,130,151). A `CompleteAsync` after repository
  writes therefore returns only the changes the session still tracks. That
  is 0 right after a successful write (`CompleteAfterAddSavesNothing`).
- Neither `GetRepository` nor `CompleteAsync` reads the unit of work's
  `disposed` flag (UnitOfWork.cs:24-42). Once the session itself is
  disposed, it raises on every use. A repository already cached is still
  handed out; a type not cached yet raises out of `GetRepository`, because
  the repository's constructor calls `context.Set<T>()`
  (GenericRepository.cs:19). Writes turn the session's error into `false`;
  reads and `CompleteAsync` rethrow it (`UseAfterDispose`).

Two effects of the object-relational mapper's conventions change what a
write does, and the model includes them:

- The Ebook to Category relationship is required
  (EbookStoreDbContext.cs:17-21), so deleting a Category also deletes its
  Ebooks (`HardDeleted`).
- An entity added with Id = Guid.Empty gets a generated key (`WithKey`).

Every table is keyed by its rows' Ids and holds only rows of its own entity
type (`DbContext.Valid`).

## Model

| member | source | states |
|---|---|---|
| Domain.NewEntity | EbookStore.Domain/Common/BaseEntity.cs:7-14 | a new record has the given Id and creation time, `CreatedBy` = Guid.Empty, is not soft-deleted, and has no update or deletion stamp |
| Domain.FlagAndStampsAreIndependent | EbookStore.Domain/Common/BaseEntity.cs:12-14 | the record does not tie `IsDeleted` to `DeletedBy`/`DeletedAt`: there are records flagged without stamps and stamped without the flag |
| Repositories.SortedIds | EbookStore.Infrastructure/Repositories/GenericRepository.cs:54 | the order in which the model lists a table: every id once, strictly ascending |
| Repositories.RowsAreTheTable | EbookStore.Infrastructure/Repositories/GenericRepository.cs:54 | listing a table yields each stored row exactly once and nothing else, in ascending Id order |
| Repositories.GetAllReturnsPassingRows | EbookStore.Infrastructure/Repositories/GenericRepository.cs:39-54 | GetAll returns exactly the stored rows that are not soft-deleted (for a BaseEntity type) AND satisfy the caller's filter, each once; an `orderBy` that only permutes does not change this |
| Repositories.PermutationKeepsRows | EbookStore.Infrastructure/Repositories/GenericRepository.cs:49-52 | a reordering by `orderBy` keeps the same rows and the same count |
| Repositories.FilterCannotRevealDeleted | EbookStore.Infrastructure/Repositories/GenericRepository.cs:39-47 | for a BaseEntity type, no filter makes GetAll return a soft-deleted row |
| Repositories.FilterComposes | EbookStore.Infrastructure/Repositories/GenericRepository.cs:39-47 | the selection with a filter equals the selection without one, then filtered |
| Repositories.NonAuditedTypeReturnsEveryRow | EbookStore.Infrastructure/Repositories/GenericRepository.cs:39-42 | for a type that is not a BaseEntity, GetAll without a filter returns every stored row, soft-deleted or not |
| Repositories.GetByIdSeesAllThatGetAllSees | EbookStore.Infrastructure/Repositories/GenericRepository.cs:63-76 | GetById finds every row GetAll lists, and it also finds the soft-deleted rows GetAll leaves out |
| Repositories.MarkDeleted | EbookStore.Infrastructure/Repositories/GenericRepository.cs:148-149 | a soft delete sets `IsDeleted` and `DeletedAt := now` and leaves every other field, `DeletedBy` included, as it was |
| Repositories.SoftDeleted | EbookStore.Infrastructure/Repositories/GenericRepository.cs:145-151 | a soft delete keeps the table's keys, changes only the targeted row, and changes it by `MarkDeleted` |
| Repositories.SoftDeleteHidesFromGetAllOnly | EbookStore.Infrastructure/Repositories/GenericRepository.cs:145-153 | after a soft delete, GetAll of a BaseEntity type no longer lists the row, and GetById still returns it with `IsDeleted` set |
| Repositories.SoftDeleteNarrowsSelection | EbookStore.Infrastructure/Repositories/GenericRepository.cs:145-153 | a soft delete removes exactly that row from GetAll's selection and nothing else |
| Repositories.SoftDeleteAgainRestamps | EbookStore.Infrastructure/Repositories/GenericRepository.cs:145-153 | soft-deleting a row that is already deleted keeps it deleted and only moves `DeletedAt` to the later time |
| Repositories.AddThenGetByIdThenDelete | EbookStore.Infrastructure/Repositories/GenericRepository.cs:63-131 | after Add stores an entity under its key (`WithKey`, `Added`), GetById returns that row field for field; a hard delete of it (`HardDeleted`) gives the type's table back, and every table when the type is not Category |
| Repositories.NewEntityIsListedAfterAdd | EbookStore.Infrastructure/Repositories/GenericRepository.cs:85-92 | a newly constructed entity that is added is listed by GetAll of a BaseEntity type and found by GetById |
| Repositories.WithKey | EbookStore.Infrastructure/Repositories/GenericRepository.cs:90 | an entity added with Id = Guid.Empty is stored under the generated key; any other Id is kept; no other field changes |
| Repositories.Added | EbookStore.Infrastructure/Repositories/GenericRepository.cs:90-91 | an Add stores the row under its Id in its own type's table and leaves every other table as it was |
| Repositories.SoftDeleteLeavesDeletedByUnset | EbookStore.Infrastructure/Repositories/GenericRepository.cs:145-151 | a row as BaseEntity initialises it, once soft-deleted, is flagged and has `DeletedAt` set, while `DeletedBy` stays unset: the repository ties the flag to the time stamp only |
| Repositories.HardDeleted | EbookStore.Persistence/Data/EbookStoreDbContext.cs:17-21 | a hard delete removes the row from its own table; deleting a Category also removes exactly the Ebooks that reference it; every other table is unchanged |
| Repositories.DeleteCategoryLeavesNoOrphans | EbookStore.Persistence/Data/EbookStoreDbContext.cs:17-21 | after a Category is hard-deleted no Ebook references it, and every Ebook that did not reference it is still stored as it was |
| Repositories.HardDeletedKeepsTablesValid | EbookStore.Infrastructure/Repositories/GenericRepository.cs:129-130 | a hard delete keeps every table keyed by its rows' Ids and holding only rows of its own type |
| Repositories.GenericRepository.constructor | EbookStore.Infrastructure/Repositories/GenericRepository.cs:16-21 | a repository needs an open session (it takes its table with `Set<T>()`); it works on that session and on the table of its type, and knows whether its type is a BaseEntity |
| Repositories.GenericRepository.GetAllAsync | EbookStore.Infrastructure/Repositories/GenericRepository.cs:23-61 | changes nothing; returns GetAll of the stored table (soft-delete predicate AND filter, then orderBy), or rethrows a fault or a disposed session |
| Repositories.GenericRepository.GetByIdAsync | EbookStore.Infrastructure/Repositories/GenericRepository.cs:63-83 | changes nothing; returns the stored row with that Id (deleted or not), or none when absent; rethrows a fault or a disposed session |
| Repositories.GenericRepository.AddAsync | EbookStore.Infrastructure/Repositories/GenericRepository.cs:85-99 | true exactly when there is no fault, the session is not disposed and the row's key (generated if the Id was Guid.Empty) is new; then the row is stored at once and nothing else changes; otherwise false and nothing changes |
| Repositories.GenericRepository.UpdateAsync | EbookStore.Infrastructure/Repositories/GenericRepository.cs:101-115 | true exactly when there is no fault, the session is not disposed and the row exists; then the whole row is replaced at once and nothing else changes; otherwise false and nothing changes |
| Repositories.GenericRepository.DeleteAsync | EbookStore.Infrastructure/Repositories/GenericRepository.cs:117-138 | an absent Id, a fault or a disposed session gives false and no change; a present Id (soft-deleted or not) is removed with whatever the cascade removes (`HardDeleted`), and the result is true |
| Repositories.GenericRepository.SoftDeleteAsync | EbookStore.Infrastructure/Repositories/GenericRepository.cs:140-163 | true exactly when there is no fault, the session is not disposed, the type is a BaseEntity and the Id is stored, also when the row is already deleted; then only that row changes, by `MarkDeleted`; otherwise false and nothing changes |
| UnitOfWorks.UnitOfWork.constructor | EbookStore.Infrastructure/Repositories/UnitOfWork.cs:16-22 | a new unit of work holds the given session, an empty cache, and `disposed = false` |
| UnitOfWorks.UnitOfWork.GetRepository | EbookStore.Infrastructure/Repositories/UnitOfWork.cs:24-28 | returns the cached repository for the type and leaves the cache unchanged; otherwise, on an open session, creates a fresh repository on the shared session and adds it, and on a disposed session raises and caches nothing. The cache is never shrunk or overwritten, and `disposed` is not consulted |
| UnitOfWorks.UnitOfWork.CompleteAsync | EbookStore.Infrastructure/Repositories/UnitOfWork.cs:30-42 | returns the number of changes the session saved and clears them, or rethrows a fault or a disposed session and keeps them; the unit of work's `disposed` flag is not consulted |
| UnitOfWorks.UnitOfWork.DisposeCore | EbookStore.Infrastructure/Repositories/UnitOfWork.cs:44-55 | once disposed, nothing changes; otherwise disposes the session if `disposing` and sets `disposed`; the session is disposed at most once |
| UnitOfWorks.UnitOfWork.Dispose | EbookStore.Infrastructure/Repositories/UnitOfWork.cs:57-61 | the first call disposes the session and sets `disposed`; later calls change nothing |
| UnitOfWorks.SameTypeSameRepository | EbookStore.Infrastructure/Repositories/UnitOfWork.cs:24-28 | two requests for the same type give the same outcome: the same repository instance, now cached, or, only for an uncached type on a disposed session, the same failure |
| UnitOfWorks.RepositoriesShareTheSession | EbookStore.Infrastructure/Repositories/UnitOfWork.cs:26-27 | every repository handed out holds the unit of work's single session, and repositories of distinct types are distinct objects |
| UnitOfWorks.SoftDeleteThenRead | EbookStore.Infrastructure/Repositories/GenericRepository.cs:140-153 | through an open unit of work: soft-deleting a stored Ebook succeeds, GetAll then leaves it out, and GetById still returns it flagged |
| UnitOfWorks.UseAfterDispose | EbookStore.Infrastructure/Repositories/UnitOfWork.cs:24-60 | after Dispose, GetRepository hands out exactly the repositories cached before and raises for any other type; through a handed-out one SoftDelete returns false and GetById rethrows; CompleteAsync rethrows; no table and no cache entry changes |
| UnitOfWorks.AddThenReadThenDelete | EbookStore.Infrastructure/Repositories/GenericRepository.cs:85-131 | through an open unit of work: Add succeeds exactly when the stored key is new; then CompleteAsync saves 0 changes, GetById returns the stored row field for field, and Delete succeeds and gives the type's table back, every table unless the type is Category |
| UnitOfWorks.CompleteAfterAddSavesNothing | EbookStore.Infrastructure/Repositories/GenericRepository.cs:85-92 | Add saves at once, so a CompleteAsync right after a successful Add saves 0 changes; the Add succeeds exactly when the session is open and the stored key is new |

## Left out

- Logging (`ILogger`) has no effect on the model. The `Task`/`async` machinery is left out: every call runs to completion in sequence.
- The thread safety of `ConcurrentDictionary` is left out. The cache is a plain map updated in sequence.
- `includes`/`Include` only attach related entities and do not change which rows come back, so they are not parameters. Which related entities end up populated is not modelled.
- Change tracking is not modelled. After a failed save, the real session keeps the failed change tracked; the model discards it. Changes made by code outside the repositories only appear as the count `pendingChanges`, not in the tables.
- Repositories.GenericRepository.UpdateAsync: an entity whose Id is Guid.Empty would be inserted under a generated key by the ORM; the model treats it like any other absent Id and returns false. An Update of an Id that is not stored is treated as a storage fault; the database raises it.
- Repositories.GenericRepository.AddAsync: a second row with an Id already stored is treated as a storage fault; the database raises it. An Ebook whose Category does not exist is not rejected by the model; the database raises that as a fault, which is what `fault` stands for.
- Repositories.GenericRepository.DeleteAsync: the cascade is modelled only for the Ebook to Category relationship configured at EbookStoreDbContext.cs:17-21. The model does not check referential integrity beyond that.
- Row order: a query without `orderBy` comes back in an order the database leaves unspecified; the model fixes it to ascending Id. `orderBy` is any function on the list of rows. Every lemma about the rows GetAll returns assumes it only permutes them (`OnlyPermutes`).
- `Guid` is modelled as a natural number and `DateTime` as an integer tick count. `Price` (a `decimal`) is not part of the Ebook payload. The validation attributes on the transfer objects are not part of this model.
- Controllers, the identity module, seeding, migrations, dependency injection wiring and the mapping profiles are not part of this model. The controllers' checks of `DeletedBy`, which `SoftDeleteAsync` never sets, are controller behaviour and are left out with them.
