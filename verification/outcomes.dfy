/** Outcomes shared by the store model and the controllers. */
module Outcomes {

  /** An optional value, in place of Java's Optional and of null. */
  datatype Option<+T> = None | Some(value: T)

  /** What a controller call answers. Each error variant stands for one HTTP
      status the controller throws: 400, 404, 409 and 503 respectively. */
  datatype Response<+T> =
    | Ok(value: T)
    | BadRequest
    | NotFound
    | Conflict
    | Unavailable
}
