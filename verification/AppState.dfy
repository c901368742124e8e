/** The state shared by all handlers: the import lock. */
module AppState {
  import opened Basics

  /** At most one import at a time: the lock is only ever tried, never waited for. */
  class ImportLock {
    var locked: bool

    constructor ()
      ensures !locked
    {
      locked := false;
    }

    /** A guard if the lock was free, nothing otherwise. */
    method TryLockOwned() returns (guard: Option<OwnedGuard>)
      modifies this
      ensures locked
      ensures guard.Some? <==> !old(locked)
      ensures guard.Some? ==> fresh(guard.value) && guard.value.live && guard.value.lock == this
    {
      if locked {
        guard := None;
      } else {
        locked := true;
        var g := new OwnedGuard(this);
        guard := Some(g);
      }
    }
  }

  /** Owning the guard is holding the lock; dropping it frees the lock. */
  class OwnedGuard {
    const lock: ImportLock
    var live: bool

    constructor (lock: ImportLock)
      ensures this.lock == lock && live
    {
      this.lock := lock;
      this.live := true;
    }

    method Drop()
      requires live && lock.locked
      modifies this, lock
      ensures !live && !lock.locked
    {
      live := false;
      lock.locked := false;
    }
  }
}
