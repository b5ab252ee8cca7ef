/** Option and Result types shared by the store, the services and the scheduler. */
module Base {

  datatype Option<T> = None | Some(value: T)

  /** The failures the in-memory tables can report in place of a rejected SQL statement. */
  datatype DbError =
    | UniqueViolation   // INSERT of an ip that is already in ip_records
    | NotFound          // SELECT by id found no row

  datatype Result<T> = Ok(value: T) | Err(error: DbError)
}
