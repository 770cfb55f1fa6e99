/**
 * The generic repository: the data-access operations over one table of the
 * shared context. Every mutator only stages a change, except RemoveAll,
 * which also commits.
 */
module Repositories {
  import opened Wrappers
  import opened Entities
  import opened Tracking
  import opened Database

  class GenericRepository<T> {
    const context: ApplicationDbContext
    /** The context's table for T. */
    const dbSet: DbSet<T>

    ghost predicate Valid()
      reads context.Sets()
    {
      context.Valid() && dbSet in context.Sets()
    }

    /** A repository over `dbSet`, which must be the table of `context` that holds T. */
    constructor (context: ApplicationDbContext, dbSet: DbSet<T>)
      requires dbSet in context.Sets()
      ensures this.context == context && this.dbSet == dbSet
    {
      this.context := context;
      this.dbSet := dbSet;
    }

    /** Every committed row of the table, each once, in no particular order. */
    method GetAll() returns (all: seq<Row<T>>)
      requires Valid()
      ensures Lists(all, dbSet.rows)
    {
      var rows := dbSet.rows;
      var rest := rows.Keys;
      all := [];
      while rest != {}
        invariant rest <= rows.Keys
        invariant forall i :: 0 <= i < |all| ==> all[i].id in rows && all[i].id !in rest && rows[all[i].id] == all[i].entity
        invariant forall id :: id in rows && id !in rest ==> exists i :: 0 <= i < |all| && all[i].id == id
        invariant forall i, j :: 0 <= i < j < |all| ==> all[i].id != all[j].id
        decreases rest
      {
        var key := Pick(rest);
        var listed := all;
        all := all + [Row(key, rows[key])];
        forall id | id in rows && id !in rest - {key} ensures exists i :: 0 <= i < |all| && all[i].id == id {
          if id == key {
            assert all[|listed|].id == id;
          } else {
            var i :| 0 <= i < |listed| && listed[i].id == id;
            assert all[i] == listed[i];
          }
        }
        rest := rest - {key};
      }
    }

    /** The committed row with key `id`, or None (not an error) when there is none. */
    method GetById(id: int) returns (found: Option<T>)
      requires Valid()
      ensures found.Some? <==> id in dbSet.rows
      ensures found.Some? ==> found.value == dbSet.rows[id]
    {
      found := if id in dbSet.rows then Some(dbSet.rows[id]) else None;
    }

    /**
     * Stages the insertion of `entity` and returns the Id the store has
     * generated for it, a key no committed or staged row of the table uses.
     */
    method Add(entity: T) returns (id: int)
      requires Valid()
      modifies dbSet
      ensures Valid()
      ensures id == old(dbSet.nextId) && id !in dbSet.rows && id !in InsertedIds(old(dbSet.staged))
      ensures dbSet.rows == old(dbSet.rows) && dbSet.nextId == id + 1
      ensures dbSet.staged == old(dbSet.staged) + [Insert(id, entity)]
    {
      id := dbSet.Add(entity);
    }

    /** Stages the replacement of row `id` by `entity`. */
    method Update(id: int, entity: T)
      requires Valid()
      modifies dbSet
      ensures Valid()
      ensures dbSet.rows == old(dbSet.rows) && dbSet.nextId == old(dbSet.nextId)
      ensures dbSet.staged == old(dbSet.staged) + [Modify(id, entity)]
    {
      dbSet.Update(id, entity);
    }

    /** Stages the removal of row `id`. */
    method Delete(id: int)
      requires Valid()
      modifies dbSet
      ensures Valid()
      ensures dbSet.rows == old(dbSet.rows) && dbSet.nextId == old(dbSet.nextId)
      ensures dbSet.staged == old(dbSet.staged) + [Remove(id)]
    {
      dbSet.Remove(id);
    }

    /** Commits everything staged in the shared context, in every table. */
    method SaveChanges() returns (ok: bool)
      requires Valid()
      modifies context.Sets()
      ensures Valid()
      ensures ok <==> && Apply(old(context.tasks.rows), old(context.tasks.staged)).Some?
                      && Apply(old(context.columns.rows), old(context.columns.staged)).Some?
                      && Apply(old(context.users.rows), old(context.users.staged)).Some?
      ensures Flushed(context.tasks, ok, old(context.tasks.staged))
      ensures Flushed(context.columns, ok, old(context.columns.staged))
      ensures Flushed(context.users, ok, old(context.users.staged))
      ensures Flushed(dbSet, ok, old(dbSet.staged))
    {
      ok := context.SaveChanges();
    }

    /** Stages the removal of every committed row, each once, in some order `removed`. */
    method RemoveRange() returns (ghost removed: seq<int>)
      requires Valid()
      modifies dbSet
      ensures Valid()
      ensures Enumerates(removed, dbSet.rows.Keys)
      ensures dbSet.rows == old(dbSet.rows) && dbSet.nextId == old(dbSet.nextId)
      ensures dbSet.staged == old(dbSet.staged) + Removals(removed)
    {
      var rest := dbSet.rows.Keys;
      removed := [];
      while rest != {}
        invariant Valid()
        invariant rest <= dbSet.rows.Keys
        invariant dbSet.rows == old(dbSet.rows) && dbSet.nextId == old(dbSet.nextId)
        invariant dbSet.staged == old(dbSet.staged) + Removals(removed)
        invariant forall i, j :: 0 <= i < j < |removed| ==> removed[i] != removed[j]
        invariant forall i :: 0 <= i < |removed| ==> removed[i] in dbSet.rows && removed[i] !in rest
        invariant forall k :: k in dbSet.rows && k !in rest ==> exists i :: 0 <= i < |removed| && removed[i] == k
        decreases rest
      {
        var id := Pick(rest);
        assert Removals<T>(removed + [id]) == Removals<T>(removed) + [Remove(id)];
        Delete(id);
        var before := removed;
        removed := removed + [id];
        forall k | k in dbSet.rows && k !in rest - {id} ensures exists i :: 0 <= i < |removed| && removed[i] == k {
          if k == id {
            assert removed[|before|] == k;
          } else {
            var i :| 0 <= i < |before| && before[i] == k;
            assert removed[i] == before[i];
          }
        }
        rest := rest - {id};
      }
    }

    /**
     * Stages the removal of every committed row, then commits the whole
     * context at once, with no separate SaveChanges. The commit succeeds
     * exactly when every table's staged changes, this table's removals
     * included, apply. From an idle context it succeeds and the table ends
     * up empty.
     */
    method RemoveAll() returns (ok: bool, ghost removed: seq<int>)
      requires Valid()
      modifies context.Sets()
      ensures Valid()
      ensures Enumerates(removed, old(dbSet.rows.Keys))
      ensures ok <==> && Apply(old(dbSet.rows), old(dbSet.staged) + Removals(removed)).Some?
                      && (dbSet as object != context.tasks ==> Apply(old(context.tasks.rows), old(context.tasks.staged)).Some?)
                      && (dbSet as object != context.columns ==> Apply(old(context.columns.rows), old(context.columns.staged)).Some?)
                      && (dbSet as object != context.users ==> Apply(old(context.users.rows), old(context.users.staged)).Some?)
      ensures Flushed(dbSet, ok, old(dbSet.staged) + Removals(removed))
      ensures dbSet as object != context.tasks ==> Flushed(context.tasks, ok, old(context.tasks.staged))
      ensures dbSet as object != context.columns ==> Flushed(context.columns, ok, old(context.columns.staged))
      ensures dbSet as object != context.users ==> Flushed(context.users, ok, old(context.users.staged))
      ensures old(context.Idle()) ==> ok && dbSet.rows == map[] && context.Idle()
    {
      removed := RemoveRange();
      if old(context.Idle()) {
        assert dbSet.staged == Removals(removed);
        RemoveEveryRow(dbSet.rows, removed);
        EmptyCommits(context);
      }
      ok := context.SaveChanges();
    }
  }

  /** Adding an entity and saving makes it findable under the returned Id, with equal fields. */
  method AddSaveFind<T>(repository: GenericRepository<T>, entity: T) returns (id: int, found: Option<T>)
    requires repository.Valid() && repository.context.Idle()
    modifies repository.context.Sets()
    ensures repository.Valid() && repository.context.Idle()
    ensures id !in old(repository.dbSet.rows) && found == Some(entity)
    ensures repository.dbSet.rows == old(repository.dbSet.rows)[id := entity]
  {
    id := repository.Add(entity);
    ApplySingle(repository.dbSet.rows, Insert(id, entity));
    EmptyCommits(repository.context);
    var ok := repository.SaveChanges();
    assert ok;
    found := repository.GetById(id);
  }

  /** Updating a committed row and saving makes the lookup return the new value; other rows stay. */
  method UpdateSaveFind<T>(repository: GenericRepository<T>, id: int, entity: T) returns (found: Option<T>)
    requires repository.Valid() && repository.context.Idle()
    requires id in repository.dbSet.rows
    modifies repository.context.Sets()
    ensures repository.Valid() && repository.context.Idle()
    ensures found == Some(entity)
    ensures repository.dbSet.rows == old(repository.dbSet.rows)[id := entity]
  {
    repository.Update(id, entity);
    ApplySingle(repository.dbSet.rows, Modify(id, entity));
    EmptyCommits(repository.context);
    var ok := repository.SaveChanges();
    assert ok;
    found := repository.GetById(id);
  }

  /** Deleting a committed row and saving makes the lookup return None; other rows stay. */
  method DeleteSaveFind<T>(repository: GenericRepository<T>, id: int) returns (found: Option<T>)
    requires repository.Valid() && repository.context.Idle()
    requires id in repository.dbSet.rows
    modifies repository.context.Sets()
    ensures repository.Valid() && repository.context.Idle()
    ensures found == None
    ensures repository.dbSet.rows == old(repository.dbSet.rows) - {id}
  {
    repository.Delete(id);
    ApplySingle(repository.dbSet.rows, Change.Remove(id));
    EmptyCommits(repository.context);
    var ok := repository.SaveChanges();
    assert ok;
    found := repository.GetById(id);
  }

  /** After RemoveAll, GetAll lists nothing, whatever the table held before. */
  method RemoveAllThenGetAll<T>(repository: GenericRepository<T>) returns (all: seq<Row<T>>)
    requires repository.Valid() && repository.context.Idle()
    modifies repository.context.Sets()
    ensures repository.Valid() && repository.context.Idle()
    ensures all == []
  {
    var ok, removed := repository.RemoveAll();
    all := repository.GetAll();
    ListsCount(all, repository.dbSet.rows);
  }
}
