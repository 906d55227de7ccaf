/** The status codes of the reader API that this model can return. */
module Status {
  datatype Status = OK | ErrTimeout | ErrDependency | ErrInvalidCfg | ErrNotFound | ErrInternal
}
