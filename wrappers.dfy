/** Result and option shapes shared by the renderer modules. */
module Wrappers {

  /** `Result<(), &'static str>`: success, or an error carrying its message. */
  datatype Status = Ok | Err(message: string)

  datatype Option<+T> = None | Some(value: T)
}
