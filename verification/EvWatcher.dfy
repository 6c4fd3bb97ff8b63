/** The fields every libev watcher starts with, and those of its timer and io forms. */
module EvWatcher {

  /** EV_MAXPRI - EV_MINPRI + 1. */
  const NUMPRI: nat := 5

  /** ABSPRI(w): a priority shifted so that it indexes the pending queues. */
  type Priority = p: nat | p < NUMPRI

  /** An event mask, as the set of its one bits: OR is union and AND is intersection. */
  type Events = set<nat>

  const EV_READ: Events := {0}
  const EV_WRITE: Events := {1}
  const EV__IOFDSET: Events := {7}
  const EV_TIMER: Events := {8}

  class Watcher {
    const pri: Priority
    /** 0 when stopped; otherwise the heap slot of a timer, or 1 for an io watcher. */
    var active: nat
    /** 0 when nothing is pending; otherwise 1 plus the slot held in the queue of `pri`. */
    var pending: nat
    var at: real
    var repeat: real
    var fd: nat
    var events: Events

    constructor (pri: Priority)
      ensures this.pri == pri && active == 0 && pending == 0
    {
      this.pri := pri;
      active, pending := 0, 0;
      at, repeat := 0.0, 0.0;
      fd, events := 0, {};
    }
  }
}
