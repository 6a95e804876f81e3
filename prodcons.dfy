/**
 * The producer and consumer loops of hw08 over the bounded buffer.
 *
 * Guarded variant (prodcons_m.c): the producer stores only while the
 * buffer is not full and the consumer takes only while it is not empty,
 * each under the mutex, so every store or take is one atomic step. The
 * busy-waiting and shared-memory variants (prodcons_t.c, producer.c with
 * consumer.c) run the same steps without a lock; the runs below describe
 * them only if each step is atomic, which their code does not ensure.
 *
 * Semaphore variants (prodcons_s.c, producer_s.c with consumer_s.c): each
 * side brackets its step with waits and posts on Empty, Full and Mutex, and
 * a trace records those operations in the order they happen.
 *
 * Thread interleaving is an input: `pick[k]` says which side the scheduler
 * would like to run at step k; a side that cannot proceed (it would block,
 * or it has finished its NLOOPS iterations) gives the turn to the other.
 * rand() results are inputs too.
 */
module ProdCons {
  import opened Ring
  import opened Semaphore

  /**
   * One producer iteration once its guard let it through: make an item from
   * a rand() result and store it at the back of the buffer.
   */
  method ProduceItem(b: BoundedBuffer, rnd: int) returns (data: int)
    requires b.Valid() && b.counter != b.buf.Length && rnd >= 0
    modifies b, b.buf
    ensures b.Valid()
    ensures data == ItemValue(rnd)
    ensures b.Contents() == old(b.Contents()) + [data]
  {
    data := (rnd % 100) * 10000;
    b.Store(data);
  }

  /** One consumer iteration once its guard let it through: take the oldest item. */
  method ConsumeItem(b: BoundedBuffer) returns (data: int)
    requires b.Valid() && b.counter != 0
    modifies b
    ensures b.Valid()
    ensures data == old(b.Contents())[0]
    ensures b.Contents() == old(b.Contents())[1..]
  {
    data := b.Take();
  }

  /**
   * One scheduler step of a guarded run: the preferred side runs if its
   * guard lets it through and it has iterations left, otherwise the other
   * side runs, which then always can.
   */
  method GuardedStep(b: BoundedBuffer, nloops: nat, rands: seq<int>, preferProducer: bool,
                     produced: seq<int>, consumed: seq<int>)
    returns (produced': seq<int>, consumed': seq<int>)
    requires b.Valid()
    requires |rands| == nloops && forall k :: 0 <= k < nloops ==> rands[k] >= 0
    requires |produced| <= nloops && |consumed| <= |produced|
    requires |produced| < nloops || |consumed| < nloops
    requires forall k :: 0 <= k < |produced| ==> produced[k] == ItemValue(rands[k])
    requires consumed == produced[..|consumed|]
    requires b.Contents() == produced[|consumed|..]
    modifies b, b.buf
    ensures b.Valid()
    ensures |produced'| <= nloops && |consumed'| <= |produced'|
    ensures |produced'| + |consumed'| == |produced| + |consumed| + 1
    ensures forall k :: 0 <= k < |produced'| ==> produced'[k] == ItemValue(rands[k])
    ensures consumed' == produced'[..|consumed'|]
    ensures b.Contents() == produced'[|consumed'|..]
  {
    b.CounterIsSize();
    var canProduce := |produced| < nloops && b.counter != b.buf.Length;
    var canConsume := |consumed| < nloops && b.counter != 0;
    if canProduce && (preferProducer || !canConsume) {
      var data := ProduceItem(b, rands[|produced|]);
      assert produced[|consumed|..] + [data] == (produced + [data])[|consumed|..];
      produced', consumed' := produced + [data], consumed;
    } else {
      var data := ConsumeItem(b);
      assert produced[|consumed|..][1..] == produced[|consumed| + 1..];
      produced', consumed' := produced, consumed + [data];
    }
  }

  /**
   * NLOOPS iterations of each side of a guarded variant over a fresh buffer
   * of capacity maxBuf, interleaved as `pick` asks. The run never gets stuck,
   * each side completes exactly NLOOPS iterations, every item has the form
   * (rand() % 100) * 10000, and the items are consumed in the order they
   * were produced.
   */
  method RunGuarded(maxBuf: int, nloops: nat, rands: seq<int>, pick: seq<bool>)
    returns (produced: seq<int>, consumed: seq<int>)
    requires maxBuf > 0
    requires |rands| == nloops && forall k :: 0 <= k < nloops ==> rands[k] >= 0
    requires |pick| == 2 * nloops
    ensures |produced| == nloops && |consumed| == nloops
    ensures forall k :: 0 <= k < nloops ==> produced[k] == ItemValue(rands[k])
    ensures consumed == produced
  {
    var b := new BoundedBuffer(maxBuf);
    produced, consumed := [], [];
    var step := 0;
    while |produced| < nloops || |consumed| < nloops
      invariant b.Valid() && fresh(b) && fresh(b.buf)
      invariant |produced| <= nloops && |consumed| <= |produced|
      invariant step == |produced| + |consumed|
      invariant forall k :: 0 <= k < |produced| ==> produced[k] == ItemValue(rands[k])
      invariant consumed == produced[..|consumed|]
      invariant b.Contents() == produced[|consumed|..]
      decreases 2 * nloops - step
    {
      produced, consumed := GuardedStep(b, nloops, rands, pick[step], produced, consumed);
      step := step + 1;
    }
  }

  /** The three semaphores of the semaphore variants. */
  datatype SemName = EmptySem | FullSem | MutexSem

  /** One event of an iteration, in the order it happens. */
  datatype Event = Wait(s: SemName) | Post(s: SemName) | Stored(v: int) | Taken(v: int)

  /**
   * Semaphore set-up (sem_init in prodcons_s.c, semInitValue in
   * consumer_s.c): Empty = MAX_BUF, Full = 0, Mutex = 1.
   */
  method InitSemaphores(maxBuf: int) returns (empty: Sem, full: Sem, mutex: Sem)
    requires maxBuf > 0
    ensures fresh(empty) && fresh(full) && fresh(mutex)
    ensures empty != full && empty != mutex && full != mutex
    ensures empty.sval == maxBuf && full.sval == 0 && mutex.sval == 1
  {
    empty := new Sem(maxBuf);
    full := new Sem(0);
    mutex := new Sem(1);
  }

  /**
   * The semaphore protocol between iterations: Empty counts the free slots,
   * Full the items, and the mutex is free.
   */
  predicate Protocol(b: BoundedBuffer, empty: Sem, full: Sem, mutex: Sem)
    reads b, empty, full, mutex
  {
    b.Valid() &&
    empty.sval == b.buf.Length - b.counter && full.sval == b.counter && mutex.sval == 1
  }

  /** The operations of the semaphore variants as they happen, oldest first. */
  class Trace {
    var events: seq<Event>

    constructor ()
      ensures events == []
    {
      events := [];
    }
  }

  /** sem_wait (semWait) on the semaphore called `name`, recorded in the trace. */
  method WaitOn(s: Sem, name: SemName, log: Trace)
    requires s.sval != 0
    modifies s, log
    ensures s.sval == old(s.sval) - 1
    ensures log.events == old(log.events) + [Wait(name)]
  {
    s.Wait();
    log.events := log.events + [Wait(name)];
  }

  /** sem_post (semPost) on the semaphore called `name`, recorded in the trace. */
  method PostOn(s: Sem, name: SemName, log: Trace)
    modifies s, log
    ensures s.sval == old(s.sval) + 1
    ensures log.events == old(log.events) + [Post(name)]
  {
    var _ := s.Post();
    log.events := log.events + [Post(name)];
  }

  /**
   * The producer's critical section: it can only be entered with the mutex
   * taken (value 0), and the store is recorded in the trace.
   */
  method StoreLocked(b: BoundedBuffer, mutex: Sem, rnd: int, log: Trace) returns (data: int)
    requires b.Valid() && b.counter != b.buf.Length && rnd >= 0
    requires mutex.sval == 0
    modifies b, b.buf, log
    ensures b.Valid()
    ensures data == ItemValue(rnd)
    ensures b.Contents() == old(b.Contents()) + [data]
    ensures log.events == old(log.events) + [Stored(data)]
  {
    data := ProduceItem(b, rnd);
    log.events := log.events + [Stored(data)];
  }

  /**
   * The consumer's critical section: it can only be entered with the mutex
   * taken (value 0), and the take is recorded in the trace.
   */
  method TakeLocked(b: BoundedBuffer, mutex: Sem, log: Trace) returns (data: int)
    requires b.Valid() && b.counter != 0
    requires mutex.sval == 0
    modifies b, log
    ensures b.Valid()
    ensures data == old(b.Contents())[0]
    ensures b.Contents() == old(b.Contents())[1..]
    ensures log.events == old(log.events) + [Taken(data)]
  {
    data := ConsumeItem(b);
    log.events := log.events + [Taken(data)];
  }

  /**
   * One producer iteration of a semaphore variant: wait Empty, wait Mutex,
   * store, post Mutex, post Full, in that order, as the trace records. Its
   * precondition is only that the wait on Empty does not block; the
   * protocol then guarantees a free slot and a free mutex.
   */
  method ProduceWithSemaphores(b: BoundedBuffer, empty: Sem, full: Sem, mutex: Sem, rnd: int, log: Trace)
    returns (data: int)
    requires empty != full && empty != mutex && full != mutex
    requires Protocol(b, empty, full, mutex) && empty.sval > 0 && rnd >= 0
    modifies b, b.buf, empty, full, mutex, log
    ensures Protocol(b, empty, full, mutex)
    ensures data == ItemValue(rnd)
    ensures b.Contents() == old(b.Contents()) + [data]
    ensures log.events == old(log.events) + [Wait(EmptySem), Wait(MutexSem), Stored(data), Post(MutexSem), Post(FullSem)]
  {
    WaitOn(empty, EmptySem, log);
    WaitOn(mutex, MutexSem, log);
    data := StoreLocked(b, mutex, rnd, log);
    PostOn(mutex, MutexSem, log);
    PostOn(full, FullSem, log);
  }

  /**
   * One consumer iteration of a semaphore variant: wait Full, wait Mutex,
   * take, post Mutex, post Empty, in that order, as the trace records. Its
   * precondition is only that the wait on Full does not block; the
   * protocol then guarantees an item and a free mutex.
   */
  method ConsumeWithSemaphores(b: BoundedBuffer, empty: Sem, full: Sem, mutex: Sem, log: Trace)
    returns (data: int)
    requires empty != full && empty != mutex && full != mutex
    requires Protocol(b, empty, full, mutex) && full.sval > 0
    modifies b, empty, full, mutex, log
    ensures Protocol(b, empty, full, mutex)
    ensures data == old(b.Contents())[0]
    ensures b.Contents() == old(b.Contents())[1..]
    ensures log.events == old(log.events) + [Wait(FullSem), Wait(MutexSem), Taken(data), Post(MutexSem), Post(EmptySem)]
  {
    WaitOn(full, FullSem, log);
    WaitOn(mutex, MutexSem, log);
    data := TakeLocked(b, mutex, log);
    PostOn(mutex, MutexSem, log);
    PostOn(empty, EmptySem, log);
  }

  /**
   * One scheduler step of the semaphore run: the preferred side runs if its
   * first wait does not block and it has iterations left, otherwise the
   * other side runs, which then always can.
   */
  method SemaphoreStep(b: BoundedBuffer, empty: Sem, full: Sem, mutex: Sem, nloops: nat,
                       rands: seq<int>, preferProducer: bool, produced: seq<int>, consumed: seq<int>, log: Trace)
    returns (produced': seq<int>, consumed': seq<int>)
    requires empty != full && empty != mutex && full != mutex
    requires Protocol(b, empty, full, mutex)
    requires |rands| == nloops && forall k :: 0 <= k < nloops ==> rands[k] >= 0
    requires |produced| <= nloops && |consumed| <= |produced|
    requires |produced| < nloops || |consumed| < nloops
    requires forall k :: 0 <= k < |produced| ==> produced[k] == ItemValue(rands[k])
    requires consumed == produced[..|consumed|]
    requires b.Contents() == produced[|consumed|..]
    modifies b, b.buf, empty, full, mutex, log
    ensures Protocol(b, empty, full, mutex)
    ensures |produced'| <= nloops && |consumed'| <= |produced'|
    ensures |log.events| == |old(log.events)| + 5
    ensures |produced'| + |consumed'| == |produced| + |consumed| + 1
    ensures forall k :: 0 <= k < |produced'| ==> produced'[k] == ItemValue(rands[k])
    ensures consumed' == produced'[..|consumed'|]
    ensures b.Contents() == produced'[|consumed'|..]
  {
    b.CounterIsSize();
    var canProduce := |produced| < nloops && empty.sval > 0;
    var canConsume := |consumed| < nloops && full.sval > 0;
    if canProduce && (preferProducer || !canConsume) {
      var data := ProduceWithSemaphores(b, empty, full, mutex, rands[|produced|], log);
      assert produced[|consumed|..] + [data] == (produced + [data])[|consumed|..];
      produced', consumed' := produced + [data], consumed;
    } else {
      var data := ConsumeWithSemaphores(b, empty, full, mutex, log);
      assert produced[|consumed|..][1..] == produced[|consumed| + 1..];
      produced', consumed' := produced, consumed + [data];
    }
  }

  /**
   * NLOOPS iterations of each side of a semaphore variant, interleaved as
   * `pick` asks (a side runs only when its first wait does not block). The
   * run completes, items are consumed in production order, and the
   * semaphores end where they started: Empty = MAX_BUF, Full = 0, Mutex = 1.
   */
  method RunWithSemaphores(maxBuf: int, nloops: nat, rands: seq<int>, pick: seq<bool>)
    returns (produced: seq<int>, consumed: seq<int>, emptyEnd: int, fullEnd: int, mutexEnd: int)
    requires maxBuf > 0
    requires |rands| == nloops && forall k :: 0 <= k < nloops ==> rands[k] >= 0
    requires |pick| == 2 * nloops
    ensures |produced| == nloops && |consumed| == nloops
    ensures forall k :: 0 <= k < nloops ==> produced[k] == ItemValue(rands[k])
    ensures consumed == produced
    ensures emptyEnd == maxBuf && fullEnd == 0 && mutexEnd == 1
  {
    var b := new BoundedBuffer(maxBuf);
    var empty, full, mutex := InitSemaphores(maxBuf);
    var log := new Trace();
    produced, consumed := [], [];
    var step := 0;
    while |produced| < nloops || |consumed| < nloops
      invariant fresh(b) && fresh(b.buf) && fresh(empty) && fresh(full) && fresh(mutex) && fresh(log)
      invariant |log.events| == 5 * step
      invariant empty != full && empty != mutex && full != mutex
      invariant Protocol(b, empty, full, mutex) && b.buf.Length == maxBuf
      invariant |produced| <= nloops && |consumed| <= |produced|
      invariant step == |produced| + |consumed|
      invariant forall k :: 0 <= k < |produced| ==> produced[k] == ItemValue(rands[k])
      invariant consumed == produced[..|consumed|]
      invariant b.Contents() == produced[|consumed|..]
      decreases 2 * nloops - step
    {
      b.CounterIsSize();
      produced, consumed := SemaphoreStep(b, empty, full, mutex, nloops, rands, pick[step], produced, consumed, log);
      step := step + 1;
    }
    b.CounterIsSize();
    emptyEnd := empty.GetValue();
    fullEnd := full.GetValue();
    mutexEnd := mutex.GetValue();
  }
}
