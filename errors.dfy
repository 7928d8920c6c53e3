// Error values. The app's constant package is not part of this model, so
// its errors are represented by their Go names; the two defined in the
// files modelled here (runtime.ErrModuleType, bytes.ErrTooLarge) carry
// their own text.
module Errors {
  const ErrConflict: string := "ErrConflict"
  const ErrNotFound: string := "ErrNotFound"
  const ErrForbidden: string := "ErrForbidden"
  const ErrUnavailable: string := "ErrUnavailable"
  const ErrInternalError: string := "ErrInternalError"
  const ErrNodeClosed: string := "ErrNodeClosed"
  const ErrInvalidNode: string := "ErrInvalidNode"
  const ErrModuleType: string := "[engine:Registry] Module Error: wrong type"
  const ErrTooLarge: string := "bytes.Buffer: too large"
}
