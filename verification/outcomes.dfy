/** How a call of the modelled code ends: it returns a value or raises. */
module Outcomes {

  /** The exceptions the modelled code raises on its own account. */
  datatype Exception =
    | DebomaticError   // raised right after an error message was recorded
    | AttributeError   // `self._keyring` read before anything was assigned to it
    | TypeError        // `None` handed to the process launcher as the keyring path

  datatype Outcome<+T> = Returned(value: T) | Raised(exc: Exception)
}
