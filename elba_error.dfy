/** Return codes of the library (inc/elba_error.h). */
module ElbaError {

  /** A usage error: the program is to stop gracefully. */
  const TERMINATE: int := -2

  /** A fatal failure: a missing argument or an impossible request. */
  const FAILURE: int := -1

  /** Everything went as expected. */
  const SUCCESS: int := 0
}
