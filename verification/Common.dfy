/** Types and constants that several components share. */
module Common {

  datatype Option<+T> = None | Some(value: T)

  datatype Direction = ServerBound | ClientBound

  const QUEUE_CAPACITY := 10 // of a handler's command channel
}
