/** The bounded buffers of the control plane: both event logs retain their
    newest 256 events. */
module Retention {

  const EVENT_LIMIT: nat := 256

  /** The part of a full log that is still retained. */
  function Window<T>(log: seq<T>): seq<T> {
    if |log| <= EVENT_LIMIT then log else log[|log| - EVENT_LIMIT..]
  }

  lemma WindowSnoc<T>(log: seq<T>, x: T)
    ensures Window(Window(log) + [x]) == Window(log + [x])
  {
  }

  /** How many events have left the window. */
  function Lost<T>(log: seq<T>): (n: nat)
    ensures n <= |log|
  {
    if |log| <= EVENT_LIMIT then 0 else |log| - EVENT_LIMIT
  }

  lemma WindowIsTail<T>(log: seq<T>)
    ensures Window(log) == log[Lost(log)..] && |Window(log)| == (if |log| < 256 then |log| else 256)
  {
  }
}
