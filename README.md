# Task management back end: a verified model

This project models the request-handling core of a small task-board web API:

- Task cards sit in board columns and belong to users. Each card can carry image URLs.
- The API stores everything in three tables (Tasks, Columns and Users), all keyed by an integer Id. The tables sit behind one ORM context.

The model has four layers:

- **Tables (`Tracking`)**
  - `DbSet<T>` is one table. It holds:
    - the committed rows, as a map from Id to entity;
    - the changes staged since the last commit: inserts, updates and removals;
    - the store's key generator.
  - `Apply` is the meaning of a commit. The staged changes apply in order, and the commit fails as a whole (`None`) when:
    - an insert meets a key already in use, or
    - an update or removal names a missing row.
  - Staging an insert takes the next key, so a key generated for an inserted row is never already in use.
- **Context (`Database`) and repositories (`Repositories`, `Data`)**
  - `ApplicationDbContext` holds the three tables. The Columns table is seeded with ToDo, InProgress and Done under Ids 1 to 3.
  - Its `SaveChanges` commits all three tables at once: either every table's changes apply, or none do.
  - `GenericRepository<T>` is the data-access layer over one table of that shared context. Its methods:
    - list and look up committed rows;
    - stage inserts, updates and deletes;
    - `RemoveAll`, which stages the removal of every row and commits by itself.
  - `UnitOfWork` holds the Tasks, Columns and Users repositories over one context, with one `SaveChanges`.
  - The project's `TaskRepository`, `ColumnRepository` and `UserRepository` add nothing the controllers use. They appear here as `GenericRepository<TaskEntity>`, `GenericRepository<ColumnEntity>` and `GenericRepository<UserEntity>`.
- **Task endpoints (`Tasks`)**
  - `TaskController` has five actions: create, get by Id, list, update and delete.
  - Each action checks, in the source's order, that the referenced task, column and user exist, and answers with the source's result kinds and messages.
  - Images are uploaded to a blob store (`Services.StorageService`) one file at a time. The returned URLs are appended in file order.
  - An update keeps the stored URL list and appends the new URLs to it.
- **Authentication endpoints (`Authentication`)**
  - Registration checks that the username is unused, hashes the password and inserts the user.
  - Login looks the user up by username and compares the stored hash with the hash of the entered password. An unknown user and a wrong password get the same answer.
  - The hash (SHA-256 then Base64 in the source) is an uninterpreted function `hash: string -> string`, fixed per controller.

Nulls are `Option` values. A C# exception that the controllers turn into a 500 response is `InternalServerError`. The entity Id is not a field of the entity datatypes: it is the key of the row, and `Row(id, entity)` pairs the two wherever the source returns an entity with its Id.

Every controller action that writes (CreateTask, UpdateTask, DeleteTask and CreateUser) requires the context to be idle on entry, meaning no change is staged in any table. This holds for the source's request-scoped context. From an idle context each commit the controllers make provably succeeds. The read-only actions (GetTaskById, GetTasks and Login) accept any context.

## Model

| member | source | states |
|---|---|---|
| Tracking.ApplyOne | TaskManagementApp/Repositories/GenericRepository.cs:27-40 | An insert applies exactly when its key is unused. An update or removal applies exactly when its row exists. When a change applies, the new key set is the old one plus or minus that key, every other row is kept, and an insert or update stores its entity. |
| Tracking.ApplyConcat | TaskManagementApp/Repositories/GenericRepository.cs:49-52 | Committing `a + b` is committing `a` and then `b`. A failure in `a` fails the whole commit. |
| Tracking.Apply | TaskManagementApp/Repositories/GenericRepository.cs:49-52 | A commit applies the staged changes in order and fails as a whole when one of them does not apply. A successful commit creates no key other than the committed keys and the keys it inserts. |
| Tracking.ApplyFrame | TaskManagementApp/Repositories/GenericRepository.cs:49-52 | A successful commit leaves untouched, present or absent, every row that no staged change names. |
| Tracking.RemoveEveryRow | TaskManagementApp/Repositories/GenericRepository.cs:42-46 | Removing every row exactly once, in any order, commits successfully and leaves the table empty. |
| Tracking.ListsCount | TaskManagementApp/Repositories/GenericRepository.cs:17-20 | A listing that names each row once has exactly as many entries as the table has rows. |
| Tracking.CommitKeepsValid | TaskManagementApp/Repositories/GenericRepository.cs:49-52 | After a commit every key is still below the key generator, so later generated keys stay fresh. |
| Tracking.DbSet.constructor | TaskManagementApp/Data/ApplicationDbContext.cs:10-12 | A table starts with its seed rows, nothing staged, and a key generator above every seed key. |
| Tracking.DbSet.Add | TaskManagementApp/Repositories/GenericRepository.cs:29 | Returns the next generated key, which is neither committed nor staged for insertion. Stages exactly one insert under it and commits nothing. |
| Tracking.DbSet.Update | TaskManagementApp/Repositories/GenericRepository.cs:34 | Stages exactly one update and commits nothing. |
| Tracking.DbSet.Remove | TaskManagementApp/Repositories/GenericRepository.cs:39 | Stages exactly one removal and commits nothing. |
| Database.ApplicationDbContext.constructor | TaskManagementApp/Data/ApplicationDbContext.cs:10-22 | A new database has three distinct tables: no tasks, no users, and the three seed columns. Nothing is staged. |
| Database.SeedColumns | TaskManagementApp/Data/ApplicationDbContext.cs:19-21 | The seed is exactly Ids 1, 2 and 3, named ToDo, InProgress and Done. |
| Database.ApplicationDbContext.SaveChanges | TaskManagementApp/Data/UnitOfWork.cs:23 | Succeeds exactly when every table's staged changes apply. It then applies all of them and clears what was staged. On failure it writes nothing and keeps every staged change. |
| Repositories.GenericRepository.constructor | TaskManagementApp/Repositories/GenericRepository.cs:11-15 | The repository is bound to the given context and to that context's table for T. |
| Repositories.GenericRepository.GetAll | TaskManagementApp/Repositories/GenericRepository.cs:17-20 | Lists every committed row exactly once, each with its Id and stored entity. Changes nothing. |
| Repositories.GenericRepository.GetById | TaskManagementApp/Repositories/GenericRepository.cs:22-25 | Returns the committed entity exactly when its Id is present, and otherwise None rather than an error. Changes nothing. |
| Repositories.GenericRepository.Add | TaskManagementApp/Repositories/GenericRepository.cs:27-30 | Stages one insert under a freshly generated key that no committed or staged row uses. |
| Repositories.GenericRepository.Update | TaskManagementApp/Repositories/GenericRepository.cs:32-35 | Stages one update of the given row and commits nothing. |
| Repositories.GenericRepository.Delete | TaskManagementApp/Repositories/GenericRepository.cs:37-40 | Stages one removal of the given row and commits nothing. |
| Repositories.GenericRepository.RemoveRange | TaskManagementApp/Repositories/GenericRepository.cs:44 | Stages the removal of every committed row, each exactly once. |
| Repositories.GenericRepository.RemoveAll | TaskManagementApp/Repositories/GenericRepository.cs:42-46 | Stages a removal of every row and commits with no separate SaveChanges. The commit succeeds exactly when every table's staged changes apply, this table's new removals included. From an idle context the commit succeeds, the table is empty and the other tables are committed as usual. |
| Repositories.GenericRepository.SaveChanges | TaskManagementApp/Repositories/GenericRepository.cs:49-52 | The same contract as the shared context's commit: it flushes every table, not only this repository's. |
| Repositories.AddSaveFind | TaskManagementApp.Tests/GenericRepositoryTests.cs:34-47 | After Add and SaveChanges the entity is stored under an Id no other row had, GetById returns it unchanged, and no other row changes. |
| Repositories.UpdateSaveFind | TaskManagementApp.Tests/GenericRepositoryTests.cs:93-110 | After Update and SaveChanges, GetById returns the new value and every other row is unchanged. |
| Repositories.DeleteSaveFind | TaskManagementApp.Tests/GenericRepositoryTests.cs:113-127 | After Delete and SaveChanges, GetById returns None and every other row remains. |
| Repositories.RemoveAllThenGetAll | TaskManagementApp.Tests/GenericRepositoryTests.cs:130-145 | After RemoveAll, GetAll returns the empty list, whatever the table held before. |
| Data.UnitOfWork.constructor | TaskManagementApp/Data/UnitOfWork.cs:15-21 | Builds the three repositories over the one context it is given, each bound to its own table. The repositories are fixed from then on. |
| Data.UnitOfWork.SaveChanges | TaskManagementApp/Data/UnitOfWork.cs:23 | Commits, in one step, everything staged through any of the three repositories. It has the same contract as each repository's SaveChanges. |
| Data.StageThroughEachThenSave | TaskManagementApp/Data/UnitOfWork.cs:8-23 | Inserts staged through the three repositories are all persisted by one commit of the unit of work. Each table then holds exactly its old rows plus its new one. |
| Responses.NatToString | TaskManagementApp/Controllers/TaskController.cs:32 | The decimal rendering of an Id: at least one character, digits only, and no leading zero. |
| Responses.NatToStringValue | TaskManagementApp/Controllers/TaskController.cs:32 | Reading the decimal rendering back gives the number. |
| Responses.ParseIntToString | TaskManagementApp/Controllers/TaskController.cs:32 | Reading an interpolated Id back, minus sign included, gives the Id. |
| Responses.IntToStringInjective | TaskManagementApp/Controllers/TaskController.cs:32 | Different Ids, negative ones included, are rendered differently. |
| Responses.ColumnMissingNamesId | TaskManagementApp/Controllers/TaskController.cs:32 | The missing-column message reads back as "Column with Id", then the requested column Id, then "does not exist.". It never reads back as a missing-user message. |
| Responses.UserMissingNamesId | TaskManagementApp/Controllers/TaskController.cs:39 | The missing-user message reads back as "User with Id", then the requested user Id, then "does not exist.". It never reads back as a missing-column message. |
| Responses.MissingMessagesDistinct | TaskManagementApp/Controllers/TaskController.cs:32-39 | A missing-column message never equals a missing-user message, and each message identifies its Id. |
| Services.StorageService.UploadImage | TaskManagementApp/Services/StorageService.cs:24-32 | Records exactly one new blob with the given name and bytes, and returns that blob's URL. |
| Tasks.TaskController.constructor | TaskManagementApp/Controllers/TaskController.cs:17-21 | The controller is bound to the given unit of work and storage service. |
| Tasks.UpdateKeepsImages | TaskManagementApp/Controllers/TaskController.cs:143-162 | An update never loses an image. The old URL list, or the empty list when it is null, is a prefix of the new one, and exactly the uploaded URLs follow it. Every other field comes from the form. |
| Tasks.UpdateWithoutFilesIdempotent | TaskManagementApp/Controllers/TaskController.cs:143-162 | Applying the same file-less update twice gives the same task as applying it once. |
| Tasks.TaskController.UploadFiles | TaskManagementApp/Controllers/TaskController.cs:42-52 | Uploads one blob per file, in file order, with each file's name and bytes. The result is the starting URL list followed by the new blobs' URLs in that order. |
| Tasks.TaskController.CreateTask | TaskManagementApp/Controllers/TaskController.cs:26-70 | A missing column gives BadRequest with the column message, checked first and regardless of the user. Otherwise a missing user gives BadRequest with the user message. In both cases nothing is uploaded or stored. On success exactly one task is added under a fresh Id, with every form field and one URL per file in order (the empty list when Files is null). The response is CreatedAtAction naming GetTaskById with that Id, and nothing else changes. |
| Tasks.TaskController.GetTaskById | TaskManagementApp/Controllers/TaskController.cs:84-92 | NotFound exactly when no task has the Id. Otherwise Ok with the stored task. Changes nothing. |
| Tasks.TaskController.GetTasks | TaskManagementApp/Controllers/TaskController.cs:106-108 | Ok with every task exactly once. Changes nothing. |
| Tasks.TaskController.UpdateTask | TaskManagementApp/Controllers/TaskController.cs:122-168 | NotFound, then the column BadRequest, then the user BadRequest, in that order, each with nothing uploaded or stored. On success the response is NoContent and only that task changes. It gets every form field, keeps its Id, and its old URLs come first with the new uploads after them. |
| Tasks.TaskController.DeleteTask | TaskManagementApp/Controllers/TaskController.cs:182-193 | NotFound with no change when the task is missing. Otherwise NoContent, and only that task is removed. |
| Tasks.CreateThenGet | TaskManagementApp.Tests/TaskControllerTests.cs:86-113 | A successful creation reports an Id under which GetTaskById returns exactly the created task. |
| Tasks.DeleteThenGet | TaskManagementApp.Tests/TaskControllerTests.cs:161-180 | After a successful delete, GetTaskById on the same Id returns NotFound. |
| Tasks.UpdateTwiceWithoutFiles | TaskManagementApp/Controllers/TaskController.cs:143-165 | Sending the same file-less update twice uploads nothing and leaves the task as a single update would. |
| Authentication.AuthenticationController.constructor | TaskManagementApp/Controllers/AuthenticationController.cs:19-23 | The controller is bound to the given context and works on its Users table. The configured hash is fixed from then on. |
| Authentication.AuthenticationController.VerifyPassword | TaskManagementApp/Controllers/AuthenticationController.cs:103-106 | The hash of a password verifies that password. A null stored hash verifies no password. |
| Authentication.AuthenticationController.HashThenVerify | TaskManagementApp/Controllers/AuthenticationController.cs:93-106 | A stored hash verifies the password it was made from. A null stored hash verifies none. Another password is accepted exactly when its hash is equal. |
| Authentication.AuthenticationController.CreateUser | TaskManagementApp/Controllers/AuthenticationController.cs:31-55 | A taken username gives BadRequest "Username already exists." and stores nothing. A missing password gives a server error and stores nothing. Otherwise exactly one user is added under a fresh Id, holding the request's username and role and the hash of its password, and the response is Ok. Other tables do not change. A fresh username is held by exactly one user afterwards, and every username held by at most one user still is. |
| Authentication.AuthenticationController.FindByUsername | TaskManagementApp/Controllers/AuthenticationController.cs:64-65 | None exactly when no user has the username. Otherwise some stored user with that username, with its Id. |
| Authentication.AuthenticationController.Login | TaskManagementApp/Controllers/AuthenticationController.cs:64-89 | An unknown username gives Unauthorized "Invalid username or password.", and so does a wrong password. For a known username a missing password gives a server error. A success returns a user with that username whose stored hash matches the password: its Id, username and role, and no password. When only one user has the username, the answer is determined by that user. Changes nothing. |
| Authentication.RegisterThenLogin | TaskManagementApp.Tests/AuthenticationControllerTests.cs:107-129 | A user registered with a fresh username and password p can log in with p. The reply carries its new Id, username and role. |
| Authentication.RegisterThenLoginWrong | TaskManagementApp/Controllers/AuthenticationController.cs:67-70 | After registering, a password whose hash differs is refused with the shared Unauthorized message. |
| Authentication.RegisterTwice | TaskManagementApp.Tests/AuthenticationControllerTests.cs:39-61 | A second registration of the same username is refused with BadRequest "Username already exists.". |

## Left out

- Tasks.TaskController.CreateTask, UpdateTask and DeleteTask, and Authentication.AuthenticationController.CreateUser: these require an idle context on entry. Under that precondition their single commit always succeeds, so the 500 that a failed commit would produce is not modelled.
- Tasks.TaskController.CreateTask: the navigation properties are not modelled. These are `TaskEntity.User` and `TaskEntity.Column` (TaskManagementApp/Models/TaskEntity.cs:27, 31), `ColumnEntity.Tasks` and `UserEntity.Tasks`. In the source, the two existence checks load the column and the user into the context, and the ORM sets the new task's `Column` and `User` to them when the task is added. The 201 body is serialized with cycles ignored (TaskManagementApp/Program.cs:19), so it also carries that column and that owner, including the owner's password hash. The model's 201 value holds only the task's own fields and Id.
- Thrown exceptions other than the missing password are not modelled: a failed upload, a database error, a NOT NULL violation for the `[Required]` task Name and Status on a relational database. The model has no 500 path for them.
- Services.StorageService.UploadImage: the contract does not fix the URL's shape. The Azure Blob SDK call, the network and the "image/png" content type are not modelled. DownloadImageFromUrlAsync is not used by the modelled flows.
- The random `Guid` prefix of each blob name is not modelled, so a blob is stored under the file's own name. A file is its name and its bytes, not a stream.
- Authentication.AuthenticationController.HashPassword: SHA-256 and Base64 are not modelled; the stored form is the controller's configured `hash` of the password, and HashPassword carries no contract of its own. With an uninterpreted hash, the model cannot state that the stored hash differs from the plaintext.
- Authentication.AuthenticationController.Login: when two users share a username, the contract states only what an answer implies. The database picks the first match in an unspecified order, so the model picks any matching user.
- Repositories.GenericRepository.GetById reads committed rows only. The ORM also finds entities that are staged but not yet saved; that change-tracker behaviour is not modelled.
- Update and Delete take the entity's Id rather than the tracked entity object, because the Id is the row key. Object identity and aliasing of tracked entities are not modelled. In particular, UpdateTask's in-place append to the stored URL list is modelled by its final value.
- ORM internals are not modelled: foreign-key enforcement at commit and the cascade deletes on Columns and Users. No controller deletes a column or a user. The generic Delete and RemoveAll over Columns or Users would, and there the model keeps the tasks that the database cascade-deletes (TaskManagementApp/Data/ApplicationDbContext.cs:25-36).
- Tracking.DbSet: staged changes are kept as a list applied in order, not merged per entity as the ORM's change tracker merges them. Staging a second change to the same row that the first makes invalid fails the whole commit in the model. For example, `Delete(id); Delete(id); SaveChanges()` fails, where the ORM issues one DELETE. The same holds for RemoveAll called while a removal is already staged.
- Usernames are compared exactly, as the in-memory database provider compares them. The case-insensitive, trailing-space-insensitive default collation of SQL Server is not modelled. So UsernameTaken, FindByUsername, and Login's `username == request.username`, describe exact comparison only.
- Ids are unbounded integers. The 32-bit range of C# `int` and key-generator exhaustion are not modelled.
- The deadline (`DateOnly?`) is an opaque day number.
- `TaskRepository.GetAllWithColumnsAsync` (an eager-loading query no controller uses) is not modelled.
- Not modelled, as parts of the program with no effect on the store: logging, async execution (everything runs sequentially), the Swagger file-upload filter, dependency injection and hosting.
- Concurrency is not modelled, including two simultaneous registrations of one username.
- TaskManagementApp/DTOs/UserRequest.cs is not part of this model. Its three nullable fields (username, password, role) are inferred from how the controllers use them.
