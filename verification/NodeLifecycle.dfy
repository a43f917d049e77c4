/** The residency of one merge node (src/storage/NodeLifecycle.cpp). Each transition answers whether it
    was allowed, together with the state after it. */
module NodeLifecycle {

  datatype State = Resident | Spilling | Stored | Loading | Corrupted | Removed

  datatype AsyncWriteState = Queued | Writing | WriteStored | WriteFailed | WriteCancelled

  function BeginSpill(s: State): (bool, State) {
    if s == Resident then (true, Spilling) else (false, s)
  }

  function CompleteSpill(s: State): (bool, State) {
    if s == Spilling then (true, Stored) else (false, s)
  }

  function FailSpill(s: State): (bool, State) {
    if s == Spilling then (true, Resident) else (false, s)
  }

  /** The error text it records is left out. */
  function FinishAsyncSpill(s: State, result: AsyncWriteState): (bool, State) {
    if s != Spilling then (false, s)
    else if result == WriteStored then (true, Stored)
    else if result != WriteFailed && result != WriteCancelled then (false, s)
    else (false, Resident)
  }

  function BeginLoad(s: State): (bool, State) {
    if s == Stored then (true, Loading) else (false, s)
  }

  function CompleteLoad(s: State): (bool, State) {
    if s == Loading then (true, Resident) else (false, s)
  }

  function FailLoad(s: State, artifactExists: bool): (bool, State) {
    if s == Loading then (true, if artifactExists then Corrupted else Removed) else (false, s)
  }
}
