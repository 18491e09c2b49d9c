/** Failure-compatible result types shared by the modules of the model. Go's
    `(value, error)` pairs become `Result`; errors carry the message text that the
    source builds with `fmt.Errorf`, so wrapped causes stay visible. */
module Wrappers {

  datatype Option<+T> = None | Some(value: T)

  datatype Result<+T> = Ok(value: T) | Err(error: string)
}
