/** What several components share. */
module Common {
  /** The source spells this `size_type(-1)`: an index that is never a position. */
  const NPOS: int := -1

  datatype Option<T> = None | Some(value: T)
}
