/**
 * The unit of work: the Tasks, Columns and Users repositories over one
 * shared context, and the single commit that persists what any of them
 * staged.
 */
module Data {
  import opened Entities
  import opened Tracking
  import opened Database
  import opened Repositories

  class UnitOfWork {
    const context: ApplicationDbContext
    const tasks: GenericRepository<TaskEntity>
    const columns: GenericRepository<ColumnEntity>
    const users: GenericRepository<UserEntity>

    /** Each repository works on its own table of the one shared context. */
    ghost predicate Valid()
      reads context.Sets()
    {
      && context.Valid()
      && tasks.context == context && tasks.dbSet == context.tasks
      && columns.context == context && columns.dbSet == context.columns
      && users.context == context && users.dbSet == context.users
    }

    /** The unit of work builds its three repositories over the context it is given, and keeps them. */
    constructor (context: ApplicationDbContext)
      requires context.Valid()
      ensures Valid() && this.context == context
      ensures fresh(tasks) && fresh(columns) && fresh(users)
    {
      this.context := context;
      tasks := new GenericRepository(context, context.tasks);
      columns := new GenericRepository(context, context.columns);
      users := new GenericRepository(context, context.users);
    }

    /**
     * Commits, in one step, everything staged through any of the three
     * repositories. It has the same contract as SaveChanges called on any
     * one of them, since all three share this context.
     */
    method SaveChanges() returns (ok: bool)
      requires Valid()
      modifies context.Sets()
      ensures Valid()
      ensures ok <==> && Apply(old(context.tasks.rows), old(context.tasks.staged)).Some?
                      && Apply(old(context.columns.rows), old(context.columns.staged)).Some?
                      && Apply(old(context.users.rows), old(context.users.staged)).Some?
      ensures Flushed(context.tasks, ok, old(context.tasks.staged))
      ensures Flushed(context.columns, ok, old(context.columns.staged))
      ensures Flushed(context.users, ok, old(context.users.staged))
    {
      ok := context.SaveChanges();
    }
  }

  /**
   * Changes staged through different repositories are all persisted by one
   * commit of the unit of work, and each repository then reads back what
   * was staged through it.
   */
  method StageThroughEachThenSave(unitOfWork: UnitOfWork, task: TaskEntity, column: ColumnEntity, user: UserEntity)
    returns (taskId: int, columnId: int, userId: int)
    requires unitOfWork.Valid() && unitOfWork.context.Idle()
    modifies unitOfWork.context.Sets()
    ensures unitOfWork.Valid() && unitOfWork.context.Idle()
    ensures unitOfWork.context.tasks.rows == old(unitOfWork.context.tasks.rows)[taskId := task]
    ensures unitOfWork.context.columns.rows == old(unitOfWork.context.columns.rows)[columnId := column]
    ensures unitOfWork.context.users.rows == old(unitOfWork.context.users.rows)[userId := user]
  {
    taskId := unitOfWork.tasks.Add(task);
    columnId := unitOfWork.columns.Add(column);
    userId := unitOfWork.users.Add(user);
    ApplySingle(old(unitOfWork.context.tasks.rows), Insert(taskId, task));
    ApplySingle(old(unitOfWork.context.columns.rows), Insert(columnId, column));
    ApplySingle(old(unitOfWork.context.users.rows), Insert(userId, user));
    var ok := unitOfWork.SaveChanges();
    assert ok;
  }
}
