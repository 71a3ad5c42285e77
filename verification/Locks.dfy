/** The lock guards of proxy/utils/locks.hpp over a shared mutex.  Early `unlock` is allowed and the
    destructor must then not release again. */
module Locks {

  /** `std::shared_mutex`: how often it is held shared, and whether it is held exclusively. */
  class SharedMutex {
    var readers: nat
    var writer: bool
    /** How many times the mutex was released, by readers and writers together. */
    ghost var releases: nat

    constructor ()
      ensures readers == 0 && !writer && releases == 0
    {
      readers, writer, releases := 0, false, 0;
    }

    /** `lock_shared()` returns only when no writer holds the mutex. */
    method LockShared()
      requires !writer
      modifies `readers, `writer, `releases
      ensures readers == old(readers) + 1 && !writer && releases == old(releases)
    {
      readers := readers + 1;
    }

    method UnlockShared()
      requires readers > 0
      modifies `readers, `writer, `releases
      ensures readers == old(readers) - 1 && writer == old(writer) && releases == old(releases) + 1
    {
      readers := readers - 1;
      releases := releases + 1;
    }

    /** `lock()` returns only when nobody holds the mutex. */
    method Lock()
      requires !writer && readers == 0
      modifies `readers, `writer, `releases
      ensures writer && readers == 0 && releases == old(releases)
    {
      writer := true;
    }

    method Unlock()
      requires writer
      modifies `readers, `writer, `releases
      ensures !writer && readers == old(readers) && releases == old(releases) + 1
    {
      writer := false;
      releases := releases + 1;
    }
  }

  class ReaderLock {
    const mutex: SharedMutex
    var locked: bool

    /** A guard that still owns its share: that share is counted in the mutex. */
    ghost predicate Valid()
      reads `locked, mutex`readers, mutex`writer
    {
      locked ==> mutex.readers > 0
    }

    constructor (mutex: SharedMutex)
      requires !mutex.writer
      modifies mutex`readers, mutex`writer, mutex`releases
      ensures Valid() && locked && this.mutex == mutex
      ensures mutex.readers == old(mutex.readers) + 1 && !mutex.writer
      ensures mutex.releases == old(mutex.releases)
    {
      this.mutex := mutex;
      this.locked := true;
      new;
      mutex.LockShared();
    }

    method Unlock()
      requires Valid()
      modifies `locked, mutex`readers, mutex`writer, mutex`releases
      ensures !locked && mutex.writer == old(mutex.writer)
      ensures mutex.readers == old(mutex.readers) - if old(locked) then 1 else 0
      ensures mutex.releases == old(mutex.releases) + if old(locked) then 1 else 0
    {
      if locked {
        mutex.UnlockShared();
        locked := false;
      }
    }

    /** `~ReaderLock()`; the guard is gone afterwards and its flag is left as it was. */
    method Destroy()
      requires Valid()
      modifies mutex`readers, mutex`writer, mutex`releases
      ensures mutex.writer == old(mutex.writer)
      ensures mutex.readers == old(mutex.readers) - if locked then 1 else 0
      ensures mutex.releases == old(mutex.releases) + if locked then 1 else 0
    {
      if locked {
        mutex.UnlockShared();
      }
    }
  }

  class WriterLock {
    const mutex: SharedMutex
    var locked: bool

    ghost predicate Valid()
      reads `locked, mutex`readers, mutex`writer
    {
      locked ==> mutex.writer
    }

    constructor (mutex: SharedMutex)
      requires !mutex.writer && mutex.readers == 0
      modifies mutex`readers, mutex`writer, mutex`releases
      ensures Valid() && locked && this.mutex == mutex
      ensures mutex.writer && mutex.readers == 0 && mutex.releases == old(mutex.releases)
    {
      this.mutex := mutex;
      this.locked := true;
      new;
      mutex.Lock();
    }

    method Unlock()
      requires Valid()
      modifies `locked, mutex`readers, mutex`writer, mutex`releases
      ensures !locked && mutex.readers == old(mutex.readers)
      ensures mutex.writer == (old(mutex.writer) && !old(locked))
      ensures mutex.releases == old(mutex.releases) + if old(locked) then 1 else 0
    {
      if locked {
        mutex.Unlock();
        locked := false;
      }
    }

    /** `~WriterLock()`. */
    method Destroy()
      requires Valid()
      modifies mutex`readers, mutex`writer, mutex`releases
      ensures mutex.readers == old(mutex.readers)
      ensures mutex.writer == (old(mutex.writer) && !locked)
      ensures mutex.releases == old(mutex.releases) + if locked then 1 else 0
    {
      if locked {
        mutex.Unlock();
      }
    }
  }

  /** A whole guarded scope with any number of early unlocks: acquired once, released exactly once. */
  method ReaderScope(mutex: SharedMutex, earlyUnlocks: nat)
    requires !mutex.writer
    modifies mutex`readers, mutex`writer, mutex`releases
    ensures mutex.readers == old(mutex.readers) && !mutex.writer
    ensures mutex.releases == old(mutex.releases) + 1
  {
    var lock := new ReaderLock(mutex);
    for i := 0 to earlyUnlocks
      invariant lock.Valid() && lock.mutex == mutex && !mutex.writer
      invariant lock.locked == (i == 0)
      invariant mutex.readers == old(mutex.readers) + if i == 0 then 1 else 0
      invariant mutex.releases == old(mutex.releases) + if i == 0 then 0 else 1
    {
      lock.Unlock();
    }
    lock.Destroy();
  }

  method WriterScope(mutex: SharedMutex, earlyUnlocks: nat)
    requires !mutex.writer && mutex.readers == 0
    modifies mutex`readers, mutex`writer, mutex`releases
    ensures !mutex.writer && mutex.readers == 0
    ensures mutex.releases == old(mutex.releases) + 1
  {
    var lock := new WriterLock(mutex);
    for i := 0 to earlyUnlocks
      invariant lock.Valid() && lock.mutex == mutex && mutex.readers == 0
      invariant lock.locked == mutex.writer == (i == 0)
      invariant mutex.releases == old(mutex.releases) + if i == 0 then 0 else 1
    {
      lock.Unlock();
    }
    lock.Destroy();
  }
}
