/**
 * The task endpoints: create, read, list, update and delete task cards,
 * with images uploaded to the blob storage and foreign keys checked
 * against the Columns and Users tables first.
 */
module Tasks {
  import opened Wrappers
  import opened Entities
  import opened Tracking
  import opened Database
  import opened Repositories
  import opened Data
  import opened Services
  import opened Responses

  /** The files of a request; a form with no Files uploads nothing. */
  function FilesOf(request: TaskCreateRequest): (files: seq<FormFile>)
  {
    request.files.GetOr([])
  }

  /** `uploaded` holds one blob per file of `files`, in the same order, with its name and bytes. */
  ghost predicate OnePerFile(files: seq<FormFile>, uploaded: seq<Blob>)
  {
    && |uploaded| == |files|
    && forall i :: 0 <= i < |files| ==> uploaded[i].name == files[i].fileName && uploaded[i].content == files[i].content
  }

  /** The storage kept the blobs it held and gained one blob per file of `files`, in order. */
  twostate predicate UploadedEach(storage: StorageService, files: seq<FormFile>)
    reads storage
  {
    && |storage.blobs| == |old(storage.blobs)| + |files|
    && storage.blobs[..|old(storage.blobs)|] == old(storage.blobs)
    && OnePerFile(files, storage.blobs[|old(storage.blobs)|..])
  }

  /** The URLs of the blobs uploaded between the two states, in upload order. */
  twostate function UploadedUrls(storage: StorageService): seq<string>
    requires |old(storage.blobs)| <= |storage.blobs|
    reads storage
  {
    Urls(storage.blobs[|old(storage.blobs)|..])
  }

  /** The task CreateTask stores: every field from the form, and the given image URLs. */
  function NewTask(request: TaskCreateRequest, imageUrls: seq<string>): (task: TaskEntity)
  {
    TaskEntity(request.name, request.description, request.deadline, request.isFavoriteTask,
               request.status, request.userId, request.columnId, Some(imageUrls))
  }

  /**
   * The task UpdateTask stores in place of `existing`: every field from the
   * form, and the existing image URLs (none when they are null) followed by
   * the `uploaded` ones.
   */
  function UpdatedTask(existing: TaskEntity, request: TaskCreateRequest, uploaded: seq<string>): (task: TaskEntity)
  {
    NewTask(request, existing.imageUrls.GetOr([]) + uploaded)
  }

  /**
   * An update never loses an image: the old URLs are a prefix of the new
   * list and the uploads follow them. Every other field comes from the form.
   */
  lemma UpdateKeepsImages(existing: TaskEntity, request: TaskCreateRequest, uploaded: seq<string>)
    ensures UpdatedTask(existing, request, uploaded).imageUrls.Some?
    ensures existing.imageUrls.GetOr([]) <= UpdatedTask(existing, request, uploaded).imageUrls.value
    ensures UpdatedTask(existing, request, uploaded).imageUrls.value[|existing.imageUrls.GetOr([])|..] == uploaded
    ensures UpdatedTask(existing, request, uploaded).(imageUrls := None) == NewTask(request, []).(imageUrls := None)
  {
  }

  /** Repeating an update that uploads nothing changes nothing more. */
  lemma UpdateWithoutFilesIdempotent(existing: TaskEntity, request: TaskCreateRequest)
    ensures UpdatedTask(UpdatedTask(existing, request, []), request, []) == UpdatedTask(existing, request, [])
  {
    assert existing.imageUrls.GetOr([]) + [] == existing.imageUrls.GetOr([]);
  }

  class TaskController {
    const unitOfWork: UnitOfWork
    const storageService: StorageService

    ghost predicate Valid()
      reads unitOfWork.context.Sets()
    {
      unitOfWork.Valid()
    }

    constructor (unitOfWork: UnitOfWork, storageService: StorageService)
      ensures this.unitOfWork == unitOfWork && this.storageService == storageService
    {
      this.unitOfWork := unitOfWork;
      this.storageService := storageService;
    }

    function TaskRows(): (rows: map<int, TaskEntity>)
      reads unitOfWork.context.tasks
    {
      unitOfWork.context.tasks.rows
    }

    function ColumnRows(): (rows: map<int, ColumnEntity>)
      reads unitOfWork.context.columns
    {
      unitOfWork.context.columns.rows
    }

    function UserRows(): (rows: map<int, UserEntity>)
      reads unitOfWork.context.users
    {
      unitOfWork.context.users.rows
    }

    /**
     * Uploads each file in turn, appending the URL of each to `imageUrls`:
     * `result` is `imageUrls` followed by the new blobs' URLs in file order.
     */
    method UploadFiles(files: seq<FormFile>, imageUrls: seq<string>) returns (result: seq<string>)
      modifies storageService
      ensures UploadedEach(storageService, files)
      ensures result == imageUrls + UploadedUrls(storageService)
    {
      ghost var before := storageService.blobs;
      result := imageUrls;
      for i := 0 to |files|
        invariant |storageService.blobs| == |before| + i
        invariant storageService.blobs[..|before|] == before
        invariant OnePerFile(files[..i], storageService.blobs[|before|..])
        invariant result == imageUrls + Urls(storageService.blobs[|before|..])
      {
        ghost var uploaded := storageService.blobs[|before|..];
        var url := storageService.UploadImage(files[i].content, files[i].fileName);
        assert storageService.blobs[|before|..] == uploaded + [Blob(files[i].fileName, files[i].content, url)];
        assert Urls(storageService.blobs[|before|..]) == Urls(uploaded) + [url];
        result := result + [url];
      }
    }

    /**
     * Creates a task. A column Id that does not exist is reported first; then
     * a user Id that does not exist; in both cases nothing is uploaded or
     * stored. Otherwise the images are uploaded, one per file, and the task
     * is stored under a fresh Id, with every field from the form and the
     * image URLs in file order.
     */
    method CreateTask(request: TaskCreateRequest) returns (r: ActionResult<Row<TaskEntity>>)
      requires Valid() && unitOfWork.context.Idle()
      modifies unitOfWork.context.Sets(), storageService
      ensures Valid() && unitOfWork.context.Idle()
      ensures request.columnId !in old(ColumnRows()) ==>
        && r == BadRequest(ColumnMissing(request.columnId))
        && unchanged(unitOfWork.context.Sets()) && unchanged(storageService)
      ensures request.columnId in old(ColumnRows()) && request.userId !in old(UserRows()) ==>
        && r == BadRequest(UserMissing(request.userId))
        && unchanged(unitOfWork.context.Sets()) && unchanged(storageService)
      ensures request.columnId in old(ColumnRows()) && request.userId in old(UserRows()) ==>
        var id := old(unitOfWork.context.tasks.nextId);
        && UploadedEach(storageService, FilesOf(request))
        && id !in old(TaskRows())
        && r == CreatedAtAction("GetTaskById", id, Row(id, NewTask(request, UploadedUrls(storageService))))
        && TaskRows() == old(TaskRows())[id := NewTask(request, UploadedUrls(storageService))]
        && ColumnRows() == old(ColumnRows()) && UserRows() == old(UserRows())
    {
      var column := unitOfWork.columns.GetById(request.columnId);
      if column.None? {
        return BadRequest(ColumnMissing(request.columnId));
      }
      var user := unitOfWork.users.GetById(request.userId);
      if user.None? {
        return BadRequest(UserMissing(request.userId));
      }
      var imageUrls := UploadFiles(FilesOf(request), []);
      assert imageUrls == UploadedUrls(storageService) by {
        assert [] + UploadedUrls(storageService) == UploadedUrls(storageService);
      }
      var task := NewTask(request, imageUrls);
      var id := unitOfWork.tasks.Add(task);
      ApplySingle(TaskRows(), Insert(id, task));
      EmptyCommits(unitOfWork.context);
      var saved := unitOfWork.SaveChanges();
      assert saved;
      r := CreatedAtAction("GetTaskById", id, Row(id, task));
    }

    /** The task with Id `id`, or NotFound when there is none. */
    method GetTaskById(id: int) returns (r: ActionResult<Row<TaskEntity>>)
      requires Valid()
      ensures id in TaskRows() ==> r == Ok(Row(id, TaskRows()[id]))
      ensures id !in TaskRows() ==> r == NotFound
    {
      var task := unitOfWork.tasks.GetById(id);
      if task.None? {
        return NotFound;
      }
      r := Ok(Row(id, task.value));
    }

    /** Every task, each once with its Id. */
    method GetTasks() returns (r: ActionResult<seq<Row<TaskEntity>>>)
      requires Valid()
      ensures r.Ok? && Lists(r.value, TaskRows())
    {
      var tasks := unitOfWork.tasks.GetAll();
      r := Ok(tasks);
    }

    /**
     * Overwrites task `id` from the form. A missing task is reported first,
     * then a missing column, then a missing user; in each case nothing is
     * uploaded or stored. Otherwise the images are uploaded and the task
     * becomes UpdatedTask of its old value; no other row changes.
     */
    method UpdateTask(id: int, request: TaskCreateRequest) returns (r: ActionResult<Row<TaskEntity>>)
      requires Valid() && unitOfWork.context.Idle()
      modifies unitOfWork.context.Sets(), storageService
      ensures Valid() && unitOfWork.context.Idle()
      ensures id !in old(TaskRows()) ==>
        r == NotFound && unchanged(unitOfWork.context.Sets()) && unchanged(storageService)
      ensures id in old(TaskRows()) && request.columnId !in old(ColumnRows()) ==>
        && r == BadRequest(ColumnMissing(request.columnId))
        && unchanged(unitOfWork.context.Sets()) && unchanged(storageService)
      ensures id in old(TaskRows()) && request.columnId in old(ColumnRows()) && request.userId !in old(UserRows()) ==>
        && r == BadRequest(UserMissing(request.userId))
        && unchanged(unitOfWork.context.Sets()) && unchanged(storageService)
      ensures id in old(TaskRows()) && request.columnId in old(ColumnRows()) && request.userId in old(UserRows()) ==>
        && r == NoContent
        && UploadedEach(storageService, FilesOf(request))
        && TaskRows() == old(TaskRows())[id := UpdatedTask(old(TaskRows()[id]), request, UploadedUrls(storageService))]
        && ColumnRows() == old(ColumnRows()) && UserRows() == old(UserRows())
    {
      var existing := unitOfWork.tasks.GetById(id);
      if existing.None? {
        return NotFound;
      }
      var column := unitOfWork.columns.GetById(request.columnId);
      if column.None? {
        return BadRequest(ColumnMissing(request.columnId));
      }
      var user := unitOfWork.users.GetById(request.userId);
      if user.None? {
        return BadRequest(UserMissing(request.userId));
      }
      var imageUrls := UploadFiles(FilesOf(request), existing.value.imageUrls.GetOr([]));
      var task := existing.value.(
        name := request.name,
        description := request.description,
        status := request.status,
        deadline := request.deadline,
        isFavoriteTask := request.isFavoriteTask,
        columnId := request.columnId,
        imageUrls := Some(imageUrls),
        userId := request.userId);
      unitOfWork.tasks.Update(id, task);
      ApplySingle(TaskRows(), Modify(id, task));
      EmptyCommits(unitOfWork.context);
      var saved := unitOfWork.SaveChanges();
      assert saved;
      r := NoContent;
    }

    /** Deletes task `id`, or reports NotFound and changes nothing when there is none. */
    method DeleteTask(id: int) returns (r: ActionResult<Row<TaskEntity>>)
      requires Valid() && unitOfWork.context.Idle()
      modifies unitOfWork.context.Sets()
      ensures Valid() && unitOfWork.context.Idle()
      ensures id !in old(TaskRows()) ==> r == NotFound && unchanged(unitOfWork.context.Sets())
      ensures id in old(TaskRows()) ==>
        && r == NoContent
        && TaskRows() == old(TaskRows()) - {id}
        && ColumnRows() == old(ColumnRows()) && UserRows() == old(UserRows())
    {
      var task := unitOfWork.tasks.GetById(id);
      if task.None? {
        return NotFound;
      }
      unitOfWork.tasks.Delete(id);
      ApplySingle(TaskRows(), Change.Remove(id));
      EmptyCommits(unitOfWork.context);
      var saved := unitOfWork.SaveChanges();
      assert saved;
      r := NoContent;
    }
  }

  /** A created task is found under the Id the creation reported, with the same fields. */
  method CreateThenGet(controller: TaskController, request: TaskCreateRequest)
    returns (created: ActionResult<Row<TaskEntity>>, fetched: ActionResult<Row<TaskEntity>>)
    requires controller.Valid() && controller.unitOfWork.context.Idle()
    requires request.columnId in controller.ColumnRows() && request.userId in controller.UserRows()
    modifies controller.unitOfWork.context.Sets(), controller.storageService
    ensures created.CreatedAtAction? && fetched == Ok(created.value)
    ensures created.value.entity.name == request.name && created.value.entity.columnId == request.columnId
  {
    created := controller.CreateTask(request);
    fetched := controller.GetTaskById(created.routeId);
  }

  /** A deleted task is no longer found. */
  method DeleteThenGet(controller: TaskController, id: int)
    returns (deleted: ActionResult<Row<TaskEntity>>, fetched: ActionResult<Row<TaskEntity>>)
    requires controller.Valid() && controller.unitOfWork.context.Idle()
    requires id in controller.TaskRows()
    modifies controller.unitOfWork.context.Sets()
    ensures deleted == NoContent && fetched == NotFound
  {
    deleted := controller.DeleteTask(id);
    fetched := controller.GetTaskById(id);
  }

  /** Sending the same file-less update twice leaves the task as the first update left it. */
  method UpdateTwiceWithoutFiles(controller: TaskController, id: int, request: TaskCreateRequest)
    returns (first: ActionResult<Row<TaskEntity>>, second: ActionResult<Row<TaskEntity>>)
    requires controller.Valid() && controller.unitOfWork.context.Idle()
    requires id in controller.TaskRows()
    requires request.columnId in controller.ColumnRows() && request.userId in controller.UserRows()
    requires request.files == None
    modifies controller.unitOfWork.context.Sets(), controller.storageService
    ensures first == NoContent && second == NoContent
    ensures controller.TaskRows() == old(controller.TaskRows())[id := UpdatedTask(old(controller.TaskRows()[id]), request, [])]
    ensures controller.storageService.blobs == old(controller.storageService.blobs)
  {
    first := controller.UpdateTask(id, request);
    second := controller.UpdateTask(id, request);
    UpdateWithoutFilesIdempotent(old(controller.TaskRows()[id]), request);
  }
}
