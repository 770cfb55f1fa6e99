/**
 * The persisted entities and the request bodies the controllers accept.
 *
 * An entity's `Id` is not a field of these datatypes: it is the key under
 * which the entity is stored in its table (see `Tracking.DbSet`), and
 * `Row` pairs the two wherever the source hands out an entity with its Id.
 */
module Entities {
  import opened Wrappers

  /** A calendar date with no time component, kept opaque. */
  datatype Date = Date(dayNumber: int)

  /** A task card on the board; `columnId` and `userId` are foreign keys. */
  datatype TaskEntity = TaskEntity(
    name: Option<string>,
    description: Option<string>,
    deadline: Option<Date>,
    isFavoriteTask: bool,
    status: Option<string>,
    userId: int,
    columnId: int,
    imageUrls: Option<seq<string>>)

  /** A board column (ToDo, InProgress, Done). */
  datatype ColumnEntity = ColumnEntity(name: Option<string>)

  /** A registered user; `password` holds the password hash. */
  datatype UserEntity = UserEntity(
    username: Option<string>,
    role: Option<string>,
    password: Option<string>)

  /** An entity together with its Id. */
  datatype Row<T> = Row(id: int, entity: T)

  /** An uploaded form file: its original file name and its bytes. */
  datatype FormFile = FormFile(fileName: string, content: seq<bv8>)

  /**
   * The multipart form of CreateTask and UpdateTask. `id` is bound from
   * the form but neither flow reads it.
   */
  datatype TaskCreateRequest = TaskCreateRequest(
    name: Option<string>,
    description: Option<string>,
    deadline: Option<Date>,
    isFavoriteTask: bool,
    status: Option<string>,
    columnId: int,
    files: Option<seq<FormFile>>,
    userId: int,
    id: int)

  /** The JSON body of CreateUser and Login; `password` is plaintext. */
  datatype UserRequest = UserRequest(
    username: Option<string>,
    password: Option<string>,
    role: Option<string>)
}
