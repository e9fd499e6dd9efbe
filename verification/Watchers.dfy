/** The watchers of the event loop and the entries of its timer heaps. */
module Watchers {

  // Priorities after ABSPRI: EV_MINPRI..EV_MAXPRI shifted to start at 0.
  const NUMPRI := 5

  type Priority = p: int | 0 <= p < NUMPRI

  // An event mask, a C int, as the set of its bits: bitwise or is union.
  type Mask = set<nat>

  const EV_READ: Mask := {0}
  const EV_WRITE: Mask := {1}
  const EV__IOFDSET: Mask := {7}
  const EV_TIMER: Mask := {8}

  /** The fields that ev_watcher, ev_timer and ev_periodic share.  `active` is 0 for a
      stopped watcher and else its back-pointer into the array that holds it;
      `pending` is 0 or one more than its slot on the pending stack of its priority. */
  class Watcher {
    const priority: Priority
    var active: int
    var pending: nat
    var at: real
    var repeat: real     // ev_timer
    var offset: real     // ev_periodic
    var interval: real   // ev_periodic

    constructor (priority: Priority, after: real, repeat: real)
      ensures this.priority == priority
      ensures active == 0 && pending == 0
      ensures at == after && this.repeat == repeat
    {
      this.priority := priority;
      active, pending := 0, 0;
      at, this.repeat := after, repeat;
      offset, interval := 0.0, 0.0;
    }
  }

  /** A heap element: a watcher and the cached copy of its deadline. */
  datatype Anhe = Anhe(at: real, w: Watcher)
}
