/** Values shared by the catalogue and the indexer. */
module Common {

  /** A value that may be absent: SQL `NULL`, a row not found, or the
      indexer's `None` result. */
  datatype Option<T> = None | Some(value: T)

  /** A modification time as the filesystem reports it; the catalogue only
      stores and compares these, never interprets them. */
  type Timestamp = int
}
