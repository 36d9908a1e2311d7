/** The kernel-wide result codes used by the modelled routines. */
module Statuses {
  datatype Status = Ok | ErrInvalid | ErrNoMemory | ErrNotFound | ErrUnsupported
}
