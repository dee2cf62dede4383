/** The nullable returns and the two HTTP exceptions of the user service and its controller. */
module Outcomes {

  /** `User | null` in the service's lookups. */
  datatype Option<+T> = None | Some(value: T)

  /** The exceptions the core throws: `NotFoundException` and `BadRequestException`. */
  datatype Error = NotFound | BadRequest

  /** A call that either returns a value or throws one of the two exceptions. */
  datatype Result<+T> = Ok(value: T) | Err(error: Error)
}
