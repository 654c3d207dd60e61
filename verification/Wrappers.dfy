/** What several modules share. */
module Wrappers {

  /** A pointer that may be null, or an answer that may be missing. */
  datatype Option<+T> = None | Some(value: T)

  /** An event handler; `id` stands for its address. */
  datatype Handler = Handler(id: nat)

  const INVALID_HANDLE: int := -1

  function One(b: bool): nat {
    if b then 1 else 0
  }
}
