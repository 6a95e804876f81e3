/**
 * The user-level counting semaphore of hw08/semlib2.c: a value `sval`
 * guarded by a mutex and a condition variable. The mutex and the condition
 * variable only serialise the operations and wake waiters; here each
 * operation is one atomic step, and a wait that would block is a
 * precondition. The same counter also stands for the System V semaphores
 * the shared-memory programs use through semWait and semPost.
 */
module Semaphore {
  class Sem {
    var sval: int

    /** A semaphore initialised with a non-negative value stays non-negative. */
    predicate Valid()
      reads this
    {
      sval >= 0
    }

    constructor (value: int)
      ensures sval == value
    {
      sval := value;
    }

    /**
     * sem_init: refused (-1) for a process-shared semaphore, which leaves
     * the value alone; otherwise the value is set and 0 returned.
     */
    method Init(pshared: int, value: int) returns (r: int)
      modifies this
      ensures pshared != 0 ==> r == -1 && sval == old(sval)
      ensures pshared == 0 ==> r == 0 && sval == value
      ensures r == 0 && value >= 0 ==> Valid()
    {
      if pshared != 0 {
        return -1;
      }
      sval := value;
      return 0;
    }

    /**
     * sem_wait once it no longer blocks: it blocks exactly while the value
     * is 0, then takes one unit.
     */
    method Wait()
      requires sval != 0
      modifies this
      ensures sval == old(sval) - 1
      ensures old(Valid()) ==> Valid()
    {
      sval := sval - 1;
    }

    /** sem_trywait: -1 and no change at 0, otherwise one unit taken and 0. */
    method TryWait() returns (r: int)
      modifies this
      ensures old(sval) == 0 ==> r == -1 && sval == 0
      ensures old(sval) != 0 ==> r == 0 && sval == old(sval) - 1
      ensures old(Valid()) ==> Valid()
    {
      if sval == 0 {
        return -1;
      }
      sval := sval - 1;
      return 0;
    }

    /**
     * sem_post: one unit more; a waiter is signalled exactly when the value
     * was 0 (only then can a thread be waiting).
     */
    method Post() returns (signalled: bool)
      modifies this
      ensures sval == old(sval) + 1
      ensures signalled <==> old(sval) == 0
      ensures old(Valid()) ==> Valid()
    {
      signalled := sval == 0;
      sval := sval + 1;
    }

    /** sem_getvalue: the current value, with no change. */
    method GetValue() returns (v: int)
      ensures v == sval
    {
      v := sval;
    }
  }
}
