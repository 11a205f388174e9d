/** Option and Result, for the error returns of the Go code. */
module Results {

  datatype Option<+T> = None | Some(value: T)

  datatype Result<+T, +E> = Ok(value: T) | Err(error: E)
}

/** The value types of the `data` package. */
module Models {

  /** A credentials document: as stored in the `credentials` collection its
      `Password` is the ciphertext that `encrypt` produced. */
  datatype Credentials = Credentials(Username: string, Password: string)

  /** The errors the data layer returns. `EncryptFailed` and `WriteFailed`
      carry the site the Go code wraps into its message. */
  datatype Error =
    | ErrNotFound
    | EncryptFailed(site: string, cause: string)
    | WriteFailed(site: string)
}
