/** Outcome types shared by every service of the model. Go functions return
    `(value, error)` pairs; here a call returns either a value or the error's
    message, and `Option` stands for Go's nil-able values and missing rows. */
module Results {

  datatype Option<+T> = None | Some(value: T)

  /** `Err` carries the message the Go code builds with `errors.New` or
      `fmt.Errorf`, or the message of the store error it passes through. */
  datatype Result<+T> = Ok(value: T) | Err(error: string)
}
