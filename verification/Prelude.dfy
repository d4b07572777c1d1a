/** Small datatypes shared by every component of the model. */
module Prelude {

  /** A value that may be absent: the source's `T | None`. */
  datatype Option<+T> = None | Some(value: T)

  /** A value or the exception that the source raises in its place. */
  datatype Result<+T, +E> = Ok(value: T) | Err(error: E)

  /** A verified principal: what ownership rows and budgets are keyed by. */
  datatype Principal = Principal(id: string, tenant: string, stdio: bool) {
    /** The single trusted caller of a local stdio server. */
    predicate IsLocal() {
      id == "local" && stdio
    }

    /** The pair that is stored in ownership rows. */
    function Identity(): (string, string) {
      (id, tenant)
    }
  }
}
