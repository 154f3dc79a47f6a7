/**
 cpLock: a bounded buffer guarded by three counting semaphores (Lab1/lock.hpp,
 Lab3/src/include/lock.hpp), taken one semaphore operation at a time.
 */
module Locks {
  datatype CpLock = CpLock(empty: nat, full: nat, mutex: nat)

  /** Where a thread is in pGet/pRelease or in cGet/cRelease; IN is the guarded section, LEFT follows the post to mutex. */
  datatype Phase = IDLE | WANT | GOT | IN | LEFT

  /** A guarded buffer with its one producer and its one consumer. */
  datatype Channel<T> = Channel(lock: CpLock, queue: seq<T>, p: Phase, c: Phase)

  function NewChannel<T>(cap: nat): Channel<T>
  {
    Channel(CpLock(cap, 0, 1), [], IDLE, IDLE)
  }

  function Holds(phase: Phase): nat
  {
    if phase == GOT || phase == IN || phase == LEFT then 1 else 0
  }

  /** The counters account for the buffer and for both threads. */
  predicate ChannelOk<T>(ch: Channel<T>, cap: nat)
  {
    && ch.lock.empty + ch.lock.full + Holds(ch.p) + Holds(ch.c) == cap
    && ch.lock.mutex + (if ch.p == IN then 1 else 0) + (if ch.c == IN then 1 else 0) == 1
    && |ch.queue| == ch.lock.full + (if ch.p == LEFT then 1 else 0) + (if ch.c == GOT || ch.c == IN then 1 else 0)
  }

  // ---------- the steps ----------

  predicate ProducerCan<T>(ch: Channel<T>)
  {
    match ch.p
    case IDLE => false
    case WANT => ch.lock.empty > 0
    case GOT => ch.lock.mutex > 0
    case IN => true
    case LEFT => true
  }

  /** The producer waits for a free place, then for the mutex; it adds its item in the guarded section; then it counts it. */
  function ProducerStep<T>(ch: Channel<T>, item: T): Channel<T>
    requires ProducerCan(ch)
  {
    match ch.p
    case IDLE => ch
    case WANT => ch.(lock := ch.lock.(empty := ch.lock.empty - 1), p := GOT)
    case GOT => ch.(lock := ch.lock.(mutex := ch.lock.mutex - 1), p := IN)
    case IN => ch.(lock := ch.lock.(mutex := ch.lock.mutex + 1), p := LEFT, queue := ch.queue + [item])
    case LEFT => ch.(lock := ch.lock.(full := ch.lock.full + 1), p := IDLE)
  }

  predicate ConsumerCan<T>(ch: Channel<T>)
  {
    match ch.c
    case IDLE => false
    case WANT => ch.lock.full > 0
    case GOT => ch.lock.mutex > 0
    case IN => ch.queue != []
    case LEFT => true
  }

  /** The consumer waits for an item, then for the mutex; it takes the item in the guarded section; then it frees the place. */
  function ConsumerStep<T>(ch: Channel<T>): Channel<T>
    requires ConsumerCan(ch)
  {
    match ch.c
    case IDLE => ch
    case WANT => ch.(lock := ch.lock.(full := ch.lock.full - 1), c := GOT)
    case GOT => ch.(lock := ch.lock.(mutex := ch.lock.mutex - 1), c := IN)
    case IN => ch.(lock := ch.lock.(mutex := ch.lock.mutex + 1), c := LEFT, queue := ch.queue[1..])
    case LEFT => ch.(lock := ch.lock.(empty := ch.lock.empty + 1), c := IDLE)
  }

  // ---------- what the steps keep ----------

  /** A producer's step keeps the accounts, never touches the consumer, and never overfills the buffer. */
  lemma ProducerKeeps<T>(ch: Channel<T>, cap: nat, item: T)
    requires ChannelOk(ch, cap) && ProducerCan(ch)
    ensures ChannelOk(ProducerStep(ch, item), cap) && ProducerStep(ch, item).c == ch.c
    ensures ProducerStep(ch, item).queue == if ch.p == IN then ch.queue + [item] else ch.queue
    ensures |ProducerStep(ch, item).queue| <= cap
  {
  }

  /** A consumer's step likewise; in the guarded section there is always something to take. */
  lemma ConsumerKeeps<T>(ch: Channel<T>, cap: nat)
    requires ChannelOk(ch, cap)
    ensures ch.c == IN ==> ch.queue != [] && ConsumerCan(ch)
    ensures ConsumerCan(ch) ==> ChannelOk(ConsumerStep(ch), cap) && ConsumerStep(ch).p == ch.p
    ensures ConsumerCan(ch) ==> ConsumerStep(ch).queue == if ch.c == IN then ch.queue[1..] else ch.queue
  {
  }

  /**
   When neither side can move, a waiting producer means a full buffer nobody is reading from,
   and a waiting consumer means an empty buffer nobody is writing to: they never wait for each other.
   */
  lemma StuckMeans<T>(ch: Channel<T>, cap: nat)
    requires ChannelOk(ch, cap) && cap >= 1 && !ProducerCan(ch) && !ConsumerCan(ch)
    ensures ch.p != IDLE ==> ch.p == WANT && ch.c == IDLE && |ch.queue| == cap
    ensures ch.c != IDLE ==> ch.c == WANT && ch.p == IDLE && ch.queue == []
  {
  }

  function Rank(phase: Phase): nat
  {
    match phase
    case IDLE => 0
    case LEFT => 1
    case IN => 2
    case GOT => 3
    case WANT => 4
  }
}
