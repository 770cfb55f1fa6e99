/**
 * The shared database context: one table per entity kind, and the single
 * commit that flushes what is staged in all of them at once.
 */
module Database {
  import opened Wrappers
  import opened Entities
  import opened Tracking

  /** The seed rows of the Columns table. */
  const SEED_COLUMNS: map<int, ColumnEntity> :=
    map[1 := ColumnEntity(Some("ToDo")), 2 := ColumnEntity(Some("InProgress")), 3 := ColumnEntity(Some("Done"))]

  class ApplicationDbContext {
    const tasks: DbSet<TaskEntity>
    const columns: DbSet<ColumnEntity>
    const users: DbSet<UserEntity>

    /** The objects that make up the context's state. */
    ghost function Sets(): set<object>
    {
      {tasks as object, columns as object, users as object}
    }

    ghost predicate Valid()
      reads Sets()
    {
      && tasks as object != columns && tasks as object != users && columns as object != users
      && tasks.Valid() && columns.Valid() && users.Valid()
    }

    /** Nothing is staged in any table: the state of a context at the start of a request. */
    predicate Idle()
      reads Sets()
    {
      tasks.staged == [] && columns.staged == [] && users.staged == []
    }

    /** A newly created database: no tasks, no users, and the three seed columns. */
    constructor ()
      ensures Valid() && Idle() && fresh(Sets())
      ensures tasks.rows == map[] && users.rows == map[] && columns.rows == SEED_COLUMNS
    {
      tasks := new DbSet(map[], 1);
      columns := new DbSet(SEED_COLUMNS, 4);
      users := new DbSet(map[], 1);
    }

    /**
     * Commits everything staged in the three tables as one unit: it succeeds
     * exactly when every table's changes can be applied, and then applies
     * all of them; otherwise it writes nothing.
     */
    method SaveChanges() returns (ok: bool)
      requires Valid()
      modifies Sets()
      ensures Valid()
      ensures ok <==> && Apply(old(tasks.rows), old(tasks.staged)).Some?
                      && Apply(old(columns.rows), old(columns.staged)).Some?
                      && Apply(old(users.rows), old(users.staged)).Some?
      ensures Flushed(tasks, ok, old(tasks.staged))
      ensures Flushed(columns, ok, old(columns.staged))
      ensures Flushed(users, ok, old(users.staged))
    {
      var t := Apply(tasks.rows, tasks.staged);
      var c := Apply(columns.rows, columns.staged);
      var u := Apply(users.rows, users.staged);
      ok := t.Some? && c.Some? && u.Some?;
      if ok {
        CommitKeepsValid(tasks.rows, tasks.staged, tasks.nextId);
        CommitKeepsValid(columns.rows, columns.staged, columns.nextId);
        CommitKeepsValid(users.rows, users.staged, users.nextId);
        tasks.rows, tasks.staged := t.value, [];
        columns.rows, columns.staged := c.value, [];
        users.rows, users.staged := u.value, [];
      }
    }
  }

  /** In every table of `context`, committing nothing succeeds and keeps the rows. */
  lemma EmptyCommits(context: ApplicationDbContext)
    ensures Apply(context.tasks.rows, []) == Some(context.tasks.rows)
    ensures Apply(context.columns.rows, []) == Some(context.columns.rows)
    ensures Apply(context.users.rows, []) == Some(context.users.rows)
  {
    ApplyNone(context.tasks.rows);
    ApplyNone(context.columns.rows);
    ApplyNone(context.users.rows);
  }

  /** The seed holds exactly the board's three columns under Ids 1, 2 and 3. */
  lemma SeedColumns()
    ensures SEED_COLUMNS.Keys == {1, 2, 3}
    ensures SEED_COLUMNS[1].name == Some("ToDo")
    ensures SEED_COLUMNS[2].name == Some("InProgress")
    ensures SEED_COLUMNS[3].name == Some("Done")
  {
  }
}
