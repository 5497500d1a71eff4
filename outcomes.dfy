/** Optional values and the error outcomes the library service reports. */
module Outcomes {

  /** A nullable value: a SQL NULL column or an omitted request field. */
  datatype Option<+T> = None | Some(value: T)

  /** The HTTP failures of the service: 404, 400 and 401. */
  datatype Error =
    | NotFound      // 404: the referenced book does not exist
    | Conflict      // 400: a loan already exists, or no active loan exists
    | Unauthorized  // 401: unknown user name or wrong password

  /** Either the value an endpoint returns, or the error it raises. */
  datatype Result<+T> = Ok(value: T) | Err(error: Error)
}
