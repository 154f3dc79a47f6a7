/**
 The table of sockets shared by the accepting thread and the workers of Lab2
 (Lab2/src/sockethandle.cpp, Lab2/src/main.cpp), one semaphore operation at a time.
 */
module Slots {
  import opened Remainders

  /**
   thread_scheduling: waiting for a connection, in pGet, holding the mutex before and after the
   socket is placed, in pRelease.
   */
  datatype SchedulerPc = ACCEPTING | S_WANT(fd: int) | S_GOT(fd: int) | S_IN(fd: int) | S_PLACED | S_LEFT

  /**
   socket_worker: looking at its slot, serving, in cGet, holding the mutex before and after the
   slot is cleared, in cRelease.
   */
  datatype WorkerPc = LOOKING | SERVING(fd: int) | W_WANT(fd: int) | W_GOT(fd: int) | W_IN(fd: int) | W_CLEARED | W_LEFT

  datatype Move = Connect(fd: int) | Schedule | Serve(id: nat)

  // ---------- counting ----------

  /** 1 for a worker that has taken from full and not yet posted empty. */
  function Token(pc: WorkerPc): nat
  {
    if pc.W_GOT? || pc.W_IN? || pc.W_CLEARED? || pc.W_LEFT? then 1 else 0
  }

  /** 1 for a worker that has taken from full and not yet cleared its slot. */
  function Taker(pc: WorkerPc): nat
  {
    if pc.W_GOT? || pc.W_IN? then 1 else 0
  }

  function InMutex(pc: WorkerPc): nat
  {
    if pc.W_IN? || pc.W_CLEARED? then 1 else 0
  }

  function Tokens(ws: seq<WorkerPc>): nat
  {
    if ws == [] then 0 else Tokens(ws[..|ws| - 1]) + Token(ws[|ws| - 1])
  }

  function Takers(ws: seq<WorkerPc>): nat
  {
    if ws == [] then 0 else Takers(ws[..|ws| - 1]) + Taker(ws[|ws| - 1])
  }

  function InMutexes(ws: seq<WorkerPc>): nat
  {
    if ws == [] then 0 else InMutexes(ws[..|ws| - 1]) + InMutex(ws[|ws| - 1])
  }

  function Busy(flags: seq<int>): nat
  {
    if flags == [] then 0 else Busy(flags[..|flags| - 1]) + if flags[|flags| - 1] != 0 then 1 else 0
  }

  lemma {:induction false} CountsChange(ws: seq<WorkerPc>, id: nat, pc: WorkerPc)
    requires id < |ws|
    ensures Tokens(ws[id := pc]) == Tokens(ws) - Token(ws[id]) + Token(pc)
    ensures Takers(ws[id := pc]) == Takers(ws) - Taker(ws[id]) + Taker(pc)
    ensures InMutexes(ws[id := pc]) == InMutexes(ws) - InMutex(ws[id]) + InMutex(pc)
  {
    var k := |ws| - 1;
    if id < k {
      CountsChange(ws[..k], id, pc);
      assert ws[id := pc][..k] == ws[..k][id := pc];
    } else {
      assert ws[id := pc][..k] == ws[..k];
    }
  }

  lemma {:induction false} BusyChanges(flags: seq<int>, id: nat, fd: int)
    requires id < |flags|
    ensures Busy(flags[id := fd]) == Busy(flags) - (if flags[id] != 0 then 1 else 0) + (if fd != 0 then 1 else 0)
  {
    var k := |flags| - 1;
    if id < k {
      BusyChanges(flags[..k], id, fd);
      assert flags[id := fd][..k] == flags[..k][id := fd];
    } else {
      assert flags[id := fd][..k] == flags[..k];
    }
  }

  /** Fewer busy slots than slots: one is free. */
  lemma {:induction false} SomeFree(flags: seq<int>) returns (k: nat)
    requires Busy(flags) < |flags|
    ensures k < |flags| && flags[k] == 0
  {
    var last := |flags| - 1;
    if flags[last] == 0 {
      k := last;
    } else {
      k := SomeFree(flags[..last]);
    }
  }

  lemma {:induction false} AllBusy(flags: seq<int>)
    ensures Busy(flags) <= |flags|
    ensures Busy(flags) == |flags| <==> forall k :: 0 <= k < |flags| ==> flags[k] != 0
    ensures Busy(flags) == 0 <==> forall k :: 0 <= k < |flags| ==> flags[k] == 0
  {
    if flags != [] {
      AllBusy(flags[..|flags| - 1]);
    }
  }

  lemma {:induction false} CountsRelate(ws: seq<WorkerPc>)
    ensures Takers(ws) <= Tokens(ws) && InMutexes(ws) <= Tokens(ws)
    ensures Tokens(ws) > 0 ==> exists k :: 0 <= k < |ws| && Token(ws[k]) == 1
    ensures InMutexes(ws) > 0 ==> exists k :: 0 <= k < |ws| && InMutex(ws[k]) == 1
  {
    if ws != [] {
      CountsRelate(ws[..|ws| - 1]);
    }
  }

  // ---------- what becomes of a descriptor ----------

  /** The descriptor in a slot whose worker has not served it yet. */
  function Waiting(flag: int, pc: WorkerPc): multiset<int>
  {
    if flag == 0 || pc.W_WANT? || pc.W_GOT? || pc.W_IN? then multiset{} else multiset{flag}
  }

  function AllWaiting(flags: seq<int>, ws: seq<WorkerPc>): multiset<int>
    requires |flags| == |ws|
  {
    if ws == [] then multiset{}
    else AllWaiting(flags[..|ws| - 1], ws[..|ws| - 1]) + Waiting(flags[|ws| - 1], ws[|ws| - 1])
  }

  lemma Swapped(a: multiset<int>, u: multiset<int>, v: multiset<int>)
    ensures a + u + v == a + v + u
  {
  }

  lemma BothMore(a: multiset<int>, u: multiset<int>, b: multiset<int>, v: multiset<int>, x: multiset<int>)
    requires a + u == b + v
    ensures a + x + u == b + x + v
  {
    Swapped(a, x, u);
    Swapped(b, x, v);
  }

  lemma {:induction false} WaitingChanges(flags: seq<int>, ws: seq<WorkerPc>, id: nat, flag: int, pc: WorkerPc)
    requires id < |flags| == |ws|
    ensures AllWaiting(flags[id := flag], ws[id := pc]) + Waiting(flags[id], ws[id]) == AllWaiting(flags, ws) + Waiting(flag, pc)
  {
    hide Waiting;
    var k := |ws| - 1;
    var flags', ws' := flags[id := flag], ws[id := pc];
    var init, last := AllWaiting(flags[..k], ws[..k]), Waiting(flags[k], ws[k]);
    if id < k {
      WaitingChanges(flags[..k], ws[..k], id, flag, pc);
      assert flags'[..k] == flags[..k][id := flag] && ws'[..k] == ws[..k][id := pc];
      BothMore(AllWaiting(flags'[..k], ws'[..k]), Waiting(flags[id], ws[id]), init, Waiting(flag, pc), last);
    } else {
      assert flags'[..k] == flags[..k] && ws'[..k] == ws[..k];
      Swapped(init, last, Waiting(flag, pc));
    }
  }

  /** The descriptor the scheduler holds. */
  function Held(pc: SchedulerPc): multiset<int>
  {
    match pc
    case S_WANT(fd) => multiset{fd}
    case S_GOT(fd) => multiset{fd}
    case S_IN(fd) => multiset{fd}
    case _ => multiset{}
  }

  ghost predicate Accounted(accepted: seq<int>, served: seq<int>, waiting: multiset<int>, held: multiset<int>)
  {
    multiset(accepted) == multiset(served) + waiting + held
  }

  lemma AccountsAccept(accepted: seq<int>, served: seq<int>, waiting: multiset<int>, fd: int)
    requires Accounted(accepted, served, waiting, multiset{})
    ensures Accounted(accepted + [fd], served, waiting, multiset{fd})
  {
  }

  lemma AccountsPlace(accepted: seq<int>, served: seq<int>, waiting: multiset<int>, waiting': multiset<int>, fd: int)
    requires Accounted(accepted, served, waiting, multiset{fd}) && waiting' + multiset{} == waiting + multiset{fd}
    ensures Accounted(accepted, served, waiting', multiset{})
  {
    Swapped(multiset(served), waiting, multiset{fd});
    assert multiset(served) + waiting + multiset{fd} == multiset(served) + (waiting + multiset{fd});
  }

  lemma AccountsServe(accepted: seq<int>, served: seq<int>, waiting: multiset<int>, waiting': multiset<int>,
                      held: multiset<int>, fd: int)
    requires Accounted(accepted, served, waiting, held) && waiting' + multiset{fd} == waiting + multiset{}
    ensures Accounted(accepted, served + [fd], waiting', held)
  {
    assert waiting == waiting' + multiset{fd};
    assert multiset(served + [fd]) == multiset(served) + multiset{fd};
    assert multiset(served) + (waiting' + multiset{fd}) + held == multiset(served) + multiset{fd} + waiting' + held;
  }

  lemma SameWaiting(waiting: multiset<int>, waiting': multiset<int>, m: multiset<int>)
    requires waiting' + m == waiting + m
    ensures waiting' == waiting
  {
    forall x
      ensures waiting'[x] == waiting[x]
    {
      assert (waiting' + m)[x] == (waiting + m)[x];
    }
  }

  /** The steps a worker takes until its slot is clear and it looks again. */
  function WorkerRank(flag: int, pc: WorkerPc): nat
  {
    match pc
    case LOOKING => if flag == 0 then 0 else 7
    case SERVING(_) => 6
    case W_WANT(_) => 5
    case W_GOT(_) => 4
    case W_IN(_) => 3
    case W_CLEARED => if flag == 0 then 2 else 9
    case W_LEFT => if flag == 0 then 1 else 8
  }

  function WorkerRanks(flags: seq<int>, ws: seq<WorkerPc>): nat
    requires |flags| == |ws|
  {
    if ws == [] then 0
    else WorkerRanks(flags[..|ws| - 1], ws[..|ws| - 1]) + WorkerRank(flags[|ws| - 1], ws[|ws| - 1])
  }

  lemma {:induction false} RanksChange(flags: seq<int>, ws: seq<WorkerPc>, id: nat, flag: int, pc: WorkerPc)
    requires id < |flags| == |ws|
    ensures WorkerRanks(flags[id := flag], ws[id := pc]) + WorkerRank(flags[id], ws[id]) ==
            WorkerRanks(flags, ws) + WorkerRank(flag, pc)
  {
    hide WorkerRank;
    var k := |ws| - 1;
    var flags', ws' := flags[id := flag], ws[id := pc];
    if id < k {
      RanksChange(flags[..k], ws[..k], id, flag, pc);
      assert flags'[..k] == flags[..k][id := flag] && ws'[..k] == ws[..k][id := pc];
    } else {
      assert flags'[..k] == flags[..k] && ws'[..k] == ws[..k];
    }
  }

  /** The steps of the scheduler, and of the worker to come, until it accepts again. */
  function SchedulerRank(pc: SchedulerPc): nat
  {
    match pc
    case ACCEPTING => 0
    case S_WANT(_) => 12
    case S_GOT(_) => 11
    case S_IN(_) => 10
    case S_PLACED => 2
    case S_LEFT => 1
  }

  // ---------- the table ----------

  class SlotTable {
    const n: nat
    const socketFlag: array<int>
    var lastFitPos: nat
    var empty: nat
    var full: nat
    var mutex: nat
    var scheduler: SchedulerPc
    var workers: seq<WorkerPc>

    // the descriptors accepted and served so far
    ghost var accepted: seq<int>
    ghost var served: seq<int>

    /** The worker's slot holds what it is serving. */
    static predicate SlotFits(pc: WorkerPc, flag: int)
    {
      match pc
      case SERVING(fd) => fd != 0 && flag == fd
      case W_WANT(fd) => fd != 0 && flag == fd
      case W_GOT(fd) => fd != 0 && flag == fd
      case W_IN(fd) => fd != 0 && flag == fd
      case _ => true
    }

    ghost predicate Valid()
      reads this, socketFlag
    {
      && n >= 1 && socketFlag.Length == |workers| == n && lastFitPos < n
      && (scheduler.S_WANT? || scheduler.S_GOT? || scheduler.S_IN? ==> scheduler.fd != 0)
      && empty + full + Tokens(workers) + (if scheduler.ACCEPTING? || scheduler.S_WANT? then 0 else 1) == n
      && mutex + InMutexes(workers) + (if scheduler.S_IN? || scheduler.S_PLACED? then 1 else 0) == 1
      && Busy(socketFlag[..]) == full + Takers(workers) + (if scheduler.S_PLACED? || scheduler.S_LEFT? then 1 else 0)
      && (forall id {:trigger workers[id]} :: 0 <= id < n ==> SlotFits(workers[id], socketFlag[id]))
      && Conserved()
    }

    /** Every accepted descriptor is served, waits in a slot or is with the scheduler: in one of these, once. */
    ghost predicate Conserved()
      reads this, socketFlag
      requires socketFlag.Length == |workers|
    {
      Accounted(accepted, served, AllWaiting(socketFlag[..], workers), Held(scheduler))
    }

    /** The steps left until every accepted descriptor is served and its slot free. */
    ghost function Rank(): nat
      reads this, socketFlag
      requires socketFlag.Length == |workers|
    {
      SchedulerRank(scheduler) + WorkerRanks(socketFlag[..], workers)
    }

    constructor (threads: nat)
      requires threads >= 1
      ensures Valid() && n == threads && fresh(socketFlag) && accepted == served == [] && Rank() == 0
    {
      n := threads;
      socketFlag := new int[threads](_ => 0);
      lastFitPos := 0;
      empty, full, mutex := threads, 0, 1;
      scheduler := ACCEPTING;
      workers := seq(threads, _ => LOOKING);
      accepted, served := [], [];
      new;
      NobodyCounts(threads);
      NobodyWaits(socketFlag[..], threads);
      AllBusy(socketFlag[..]);
    }

    /** Accept has returned a descriptor. */
    method Accept(fd: int)
      requires Valid() && scheduler == ACCEPTING && fd != 0
      modifies `scheduler, `accepted
      ensures Valid() && scheduler == S_WANT(fd) && accepted == old(accepted) + [fd] && Rank() == old(Rank()) + 12
    {
      hide Busy, Tokens, Takers, InMutexes, AllWaiting, WorkerRanks, Accounted;
      AccountsAccept(accepted, served, AllWaiting(socketFlag[..], workers), fd);
      scheduler, accepted := S_WANT(fd), accepted + [fd];
    }

    predicate SchedulerCan()
      reads this
    {
      match scheduler
      case ACCEPTING => false
      case S_WANT(_) => empty > 0
      case S_GOT(_) => mutex > 0
      case _ => true
    }

    /** When pGet has returned, some slot is free. */
    lemma FreeSlotExists() returns (k: nat)
      requires Valid() && scheduler.S_IN?
      ensures k < n && socketFlag[k] == 0
    {
      CountsRelate(workers);
      k := SomeFree(socketFlag[..]);
    }

    /** The circular probe: it ends within thread_num steps, at the first free slot. */
    method Probe() returns (probes: nat)
      requires Valid() && scheduler.S_IN?
      modifies `lastFitPos
      ensures Valid() && probes < n && lastFitPos == Position(n, old(lastFitPos), probes) && socketFlag[lastFitPos] == 0
      ensures forall i: nat {:trigger Position(n, old(lastFitPos), i)} :: i < probes ==>
                socketFlag[Position(n, old(lastFitPos), i)] != 0
    {
      hide Busy, Tokens, Takers, InMutexes, SlotFits, Position, AllWaiting;
      ghost var k := FreeSlotExists();
      ghost var start, ahead := lastFitPos, Ahead(n, lastFitPos, k);
      probes := 0;
      PositionStarts(n, start);
      while socketFlag[lastFitPos] != 0
        invariant probes <= ahead && lastFitPos < n && lastFitPos == Position(n, start, probes)
        invariant forall i: nat {:trigger Position(n, start, i)} :: i < probes ==> socketFlag[Position(n, start, i)] != 0
        decreases ahead - probes
      {
        PositionMoves(n, start, probes);
        lastFitPos := (lastFitPos + 1) % n;
        probes := probes + 1;
      }
    }

    /** The accepted descriptor goes to the first free slot; every slot that was in use keeps its own. */
    method Place() returns (probes: nat)
      requires Valid() && scheduler.S_IN?
      modifies `scheduler, `lastFitPos, socketFlag
      ensures Valid() && scheduler == S_PLACED && probes < n && lastFitPos == Position(n, old(lastFitPos), probes)
      ensures forall i: nat {:trigger Position(n, old(lastFitPos), i)} :: i < probes ==>
                old(socketFlag[..])[Position(n, old(lastFitPos), i)] != 0
      ensures old(socketFlag[..])[lastFitPos] == 0
      ensures socketFlag[..] == old(socketFlag[..])[lastFitPos := old(scheduler).fd]
      ensures Rank() < old(Rank())
    {
      hide Busy, Tokens, Takers, InMutexes, Position, AllWaiting, WorkerRanks, Accounted;
      probes := Probe();
      BusyChanges(socketFlag[..], lastFitPos, scheduler.fd);
      PlacedIsAccounted(lastFitPos);
      socketFlag[lastFitPos] := scheduler.fd;
      assert socketFlag[..] == old(socketFlag[..])[lastFitPos := scheduler.fd];
      scheduler := S_PLACED;
    }

    /** The scheduler's other steps: pGet and pRelease. */
    method StepScheduler()
      requires Valid() && SchedulerCan() && !scheduler.S_IN?
      modifies `scheduler, `empty, `full, `mutex
      ensures Valid() && Rank() < old(Rank())
      ensures scheduler == match old(scheduler)
                           case S_WANT(fd) => S_GOT(fd)
                           case S_GOT(fd) => S_IN(fd)
                           case S_PLACED => S_LEFT
                           case _ => ACCEPTING
    {
      hide Busy, Tokens, Takers, InMutexes, AllWaiting, WorkerRanks, Accounted;
      match scheduler {
        case S_WANT(fd) => empty, scheduler := empty - 1, S_GOT(fd);
        case S_GOT(fd) => mutex, scheduler := mutex - 1, S_IN(fd);
        case S_PLACED => mutex, scheduler := mutex + 1, S_LEFT;
        case S_LEFT => full, scheduler := full + 1, ACCEPTING;
      }
    }

    predicate WorkerCan(id: nat)
      reads this, socketFlag
      requires id < |workers| && id < socketFlag.Length
    {
      match workers[id]
      case LOOKING => socketFlag[id] != 0
      case W_WANT(_) => full > 0
      case W_GOT(_) => mutex > 0
      case _ => true
    }

    /** A worker's step. Only the worker clears its slot, and only after it has served what was there. */
    method StepWorker(id: nat)
      requires Valid() && id < n && WorkerCan(id)
      modifies `workers, `empty, `full, `mutex, `served, socketFlag
      ensures Valid() && Rank() < old(Rank())
      ensures served == old(served) + if old(workers[id]).SERVING? then [old(socketFlag[id])] else []
      ensures socketFlag[..] == if old(workers[id]).W_IN? then old(socketFlag[..])[id := 0] else old(socketFlag[..])
      ensures old(workers[id]) == LOOKING ==> workers[id] == SERVING(old(socketFlag[id]))
      ensures forall j :: 0 <= j < n && j != id ==> workers[j] == old(workers[j])
    {
      hide Busy, Tokens, Takers, InMutexes, AllWaiting, WorkerRanks, Accounted;
      match workers[id] {
        case LOOKING => Begin(id);
        case SERVING(fd) => EndServing(id, fd);
        case W_WANT(fd) => WaitFull(id, fd);
        case W_GOT(fd) => LockClear(id, fd);
        case W_IN(_) => Clear(id);
        case W_CLEARED => UnlockClear(id);
        case W_LEFT => PostEmpty(id);
      }
    }

    /** The worker finds a descriptor in its slot. */
    method Begin(id: nat)
      requires Valid() && id < n && workers[id].LOOKING? && socketFlag[id] != 0
      modifies `workers
      ensures Valid() && workers == old(workers)[id := SERVING(socketFlag[id])] && Rank() < old(Rank())
    {
      hide Busy, Tokens, Takers, InMutexes, AllWaiting, WorkerRanks, Accounted;
      Changes(id, socketFlag[id], SERVING(socketFlag[id]));
      workers := workers[id := SERVING(socketFlag[id])];
    }

    /** It has served that descriptor. */
    method EndServing(id: nat, fd: int)
      requires Valid() && id < n && workers[id] == SERVING(fd)
      modifies `workers, `served
      ensures Valid() && workers == old(workers)[id := W_WANT(fd)] && served == old(served) + [fd] && Rank() < old(Rank())
    {
      hide Busy, Tokens, Takers, InMutexes, AllWaiting, WorkerRanks, Accounted;
      Changes(id, fd, W_WANT(fd));
      ServedIsAccounted(id, fd);
      workers, served := workers[id := W_WANT(fd)], served + [fd];
    }

    /** How the counts change when slot id holds flag and its worker goes on to pc. */
    lemma Changes(id: nat, flag: int, pc: WorkerPc)
      requires Valid() && id < n
      ensures Tokens(workers[id := pc]) == Tokens(workers) - Token(workers[id]) + Token(pc)
      ensures Takers(workers[id := pc]) == Takers(workers) - Taker(workers[id]) + Taker(pc)
      ensures InMutexes(workers[id := pc]) == InMutexes(workers) - InMutex(workers[id]) + InMutex(pc)
      ensures WorkerRanks(socketFlag[..][id := flag], workers[id := pc]) + WorkerRank(socketFlag[id], workers[id]) ==
              WorkerRanks(socketFlag[..], workers) + WorkerRank(flag, pc)
      ensures Waiting(flag, pc) == Waiting(socketFlag[id], workers[id]) ==>
                AllWaiting(socketFlag[..][id := flag], workers[id := pc]) == AllWaiting(socketFlag[..], workers)
      ensures flag == socketFlag[id] ==> socketFlag[..][id := flag] == socketFlag[..]
    {
      hide Busy, Tokens, Takers, InMutexes, SlotFits, Token, Taker, InMutex, AllWaiting, WorkerRanks, WorkerRank, Waiting,
           Conserved;
      CountsChange(workers, id, pc);
      RanksChange(socketFlag[..], workers, id, flag, pc);
      WaitingChanges(socketFlag[..], workers, id, flag, pc);
      if Waiting(flag, pc) == Waiting(socketFlag[id], workers[id]) {
        SameWaiting(AllWaiting(socketFlag[..], workers), AllWaiting(socketFlag[..][id := flag], workers[id := pc]),
                    Waiting(flag, pc));
      }
    }

    /** The account when worker id has served the descriptor in its slot. */
    lemma ServedIsAccounted(id: nat, fd: int)
      requires Valid() && id < n && workers[id] == SERVING(fd)
      ensures Accounted(accepted, served + [fd], AllWaiting(socketFlag[..], workers[id := W_WANT(fd)]), Held(scheduler))
    {
      hide Busy, Tokens, Takers, InMutexes, AllWaiting, Accounted;
      WaitingChanges(socketFlag[..], workers, id, fd, W_WANT(fd));
      assert socketFlag[..][id := fd] == socketFlag[..];
      AccountsServe(accepted, served, AllWaiting(socketFlag[..], workers),
                    AllWaiting(socketFlag[..], workers[id := W_WANT(fd)]), Held(scheduler), fd);
    }

    /** The account when the scheduler has put its descriptor into a free slot. */
    lemma PlacedIsAccounted(pos: nat)
      requires Valid() && pos < n && socketFlag[pos] == 0 && scheduler.S_IN?
      ensures Accounted(accepted, served, AllWaiting(socketFlag[..][pos := scheduler.fd], workers), multiset{})
      ensures WorkerRanks(socketFlag[..][pos := scheduler.fd], workers) <= WorkerRanks(socketFlag[..], workers) + 7
    {
      hide Busy, Tokens, Takers, InMutexes, AllWaiting, Accounted, WorkerRanks;
      var fd := scheduler.fd;
      assert SlotFits(workers[pos], socketFlag[pos]) && workers[pos := workers[pos]] == workers;
      WaitingChanges(socketFlag[..], workers, pos, fd, workers[pos]);
      RanksChange(socketFlag[..], workers, pos, fd, workers[pos]);
      AccountsPlace(accepted, served, AllWaiting(socketFlag[..], workers),
                    AllWaiting(socketFlag[..][pos := fd], workers), fd);
    }

    /** cGet: the semaphore, then the mutex. */
    method WaitFull(id: nat, fd: int)
      requires Valid() && id < n && full > 0 && workers[id] == W_WANT(fd)
      modifies `workers, `full
      ensures Valid() && Rank() < old(Rank()) && workers == old(workers)[id := W_GOT(fd)]
    {
      hide Busy, Tokens, Takers, InMutexes, AllWaiting, WorkerRanks, Accounted;
      Changes(id, socketFlag[id], W_GOT(fd));
      full, workers := full - 1, workers[id := W_GOT(fd)];
    }

    method LockClear(id: nat, fd: int)
      requires Valid() && id < n && mutex > 0 && workers[id] == W_GOT(fd)
      modifies `workers, `mutex
      ensures Valid() && Rank() < old(Rank()) && workers == old(workers)[id := W_IN(fd)]
    {
      hide Busy, Tokens, Takers, InMutexes, AllWaiting, WorkerRanks, Accounted;
      Changes(id, socketFlag[id], W_IN(fd));
      mutex, workers := mutex - 1, workers[id := W_IN(fd)];
    }

    method Clear(id: nat)
      requires Valid() && id < n && workers[id].W_IN?
      modifies `workers, socketFlag
      ensures Valid() && Rank() < old(Rank())
      ensures workers == old(workers)[id := W_CLEARED] && socketFlag[..] == old(socketFlag[..])[id := 0]
    {
      hide Busy, Tokens, Takers, InMutexes, AllWaiting, WorkerRanks, Accounted;
      Changes(id, 0, W_CLEARED);
      BusyChanges(socketFlag[..], id, 0);
      socketFlag[id] := 0;
      assert socketFlag[..] == old(socketFlag[..])[id := 0];
      workers := workers[id := W_CLEARED];
    }

    /** cRelease: the mutex, then the semaphore. */
    method UnlockClear(id: nat)
      requires Valid() && id < n && workers[id].W_CLEARED?
      modifies `workers, `mutex
      ensures Valid() && Rank() < old(Rank()) && workers == old(workers)[id := W_LEFT]
    {
      hide Busy, Tokens, Takers, InMutexes, AllWaiting, WorkerRanks, Accounted;
      Changes(id, socketFlag[id], W_LEFT);
      mutex, workers := mutex + 1, workers[id := W_LEFT];
    }

    method PostEmpty(id: nat)
      requires Valid() && id < n && workers[id].W_LEFT?
      modifies `workers, `empty
      ensures Valid() && Rank() < old(Rank()) && workers == old(workers)[id := LOOKING]
    {
      hide Busy, Tokens, Takers, InMutexes, AllWaiting, WorkerRanks, Accounted;
      Changes(id, socketFlag[id], LOOKING);
      empty, workers := empty + 1, workers[id := LOOKING];
    }

    /**
     Any interleaving of connections, the scheduler and the workers; whoever is blocked lets its
     turn pass. steps counts the turns that did not pass: twelve for each descriptor accepted, and
     every one has been served.
     */
    method RunFor(moves: seq<Move>) returns (ghost steps: nat)
      requires Valid() && forall i :: 0 <= i < |moves| && moves[i].Connect? ==> moves[i].fd != 0
      modifies this, socketFlag
      ensures Valid() && old(accepted) <= accepted && old(served) <= served
      ensures Rank() + steps <= old(Rank()) + 12 * (|accepted| - |old(accepted)|)
    {
      hide Busy, Tokens, Takers, InMutexes, AllWaiting, WorkerRanks, Conserved;
      steps := 0;
      for i := 0 to |moves|
        invariant Valid() && old(accepted) <= accepted && old(served) <= served
        invariant Rank() + steps <= old(Rank()) + 12 * (|accepted| - |old(accepted)|)
      {
        match moves[i] {
          case Connect(fd) =>
            if scheduler == ACCEPTING {
              Accept(fd);
            }
          case Schedule =>
            if SchedulerCan() {
              Schedule();
              steps := steps + 1;
            }
          case Serve(id) =>
            if id < n && WorkerCan(id) {
              StepWorker(id);
              steps := steps + 1;
            }
        }
      }
    }

    /** The scheduler's next step. */
    method Schedule()
      requires Valid() && SchedulerCan()
      modifies `scheduler, `lastFitPos, `empty, `full, `mutex, socketFlag
      ensures Valid() && Rank() < old(Rank())
    {
      hide Busy, Tokens, Takers, InMutexes, AllWaiting, WorkerRanks, Conserved;
      if scheduler.S_IN? {
        var probes := Place();
      } else {
        StepScheduler();
      }
    }

    /** Without further connections the threads come to rest, and then every accepted descriptor has been served. */
    method ServeAll()
      requires Valid()
      modifies this, socketFlag
      ensures Valid() && accepted == old(accepted) && multiset(served) == multiset(accepted)
      ensures scheduler == ACCEPTING && forall k :: 0 <= k < n ==> socketFlag[k] == 0 && workers[k] == LOOKING
    {
      hide Busy, Tokens, Takers, InMutexes, AllWaiting, WorkerRanks, Conserved;
      while true
        invariant Valid() && accepted == old(accepted)
        decreases Rank()
      {
        if SchedulerCan() {
          Schedule();
          continue;
        }
        var id := 0;
        while id < n && !WorkerCan(id)
          invariant id <= n && forall j :: 0 <= j < id ==> !WorkerCan(j)
        {
          id := id + 1;
        }
        if id == n {
          break;
        }
        StepWorker(id);
      }
      AtRest();
    }

    /** When nobody can move, every accepted descriptor has been served. */
    lemma AtRest()
      requires Valid() && !SchedulerCan() && forall id: nat :: id < n ==> !WorkerCan(id)
      ensures Rank() == 0 && multiset(served) == multiset(accepted)
      ensures scheduler == ACCEPTING && forall k :: 0 <= k < n ==> socketFlag[k] == 0 && workers[k] == LOOKING
    {
      if scheduler != ACCEPTING || exists k :: 0 <= k < n && socketFlag[k] != 0 {
        NoDeadlock();
        assert false;
      }
      forall k: nat | k < n
        ensures workers[k] == LOOKING
      {
        assert !WorkerCan(k);
      }
      NobodyRanks(socketFlag[..], workers);
    }

    /** Unless the scheduler waits for a connection and no slot is in use, somebody can move. */
    lemma NoDeadlock()
      requires Valid() && (scheduler != ACCEPTING || exists k :: 0 <= k < n && socketFlag[k] != 0)
      ensures SchedulerCan() || exists id: nat :: id < n && WorkerCan(id)
    {
      CountsRelate(workers);
      AllBusy(socketFlag[..]);
      if Tokens(workers) > 0 {
        if InMutexes(workers) > 0 {
          var k :| 0 <= k < n && InMutex(workers[k]) == 1;
          assert WorkerCan(k);
        } else {
          var k :| 0 <= k < n && Token(workers[k]) == 1;
          assert WorkerCan(k) || SchedulerCan();
        }
      } else if !SchedulerCan() {
        var k :| 0 <= k < n && socketFlag[k] != 0;
        assert WorkerCan(k);
      }
    }
  }

  lemma {:induction false} NobodyCounts(k: nat)
    ensures Tokens(seq(k, _ => LOOKING)) == Takers(seq(k, _ => LOOKING)) == InMutexes(seq(k, _ => LOOKING)) == 0
  {
    if k > 0 {
      NobodyCounts(k - 1);
      assert seq(k, _ => LOOKING)[..k - 1] == seq(k - 1, _ => LOOKING);
    }
  }

  lemma {:induction false} NobodyRanks(flags: seq<int>, ws: seq<WorkerPc>)
    requires |flags| == |ws| && forall k :: 0 <= k < |ws| ==> ws[k] == LOOKING && flags[k] == 0
    ensures WorkerRanks(flags, ws) == 0 && AllWaiting(flags, ws) == multiset{}
  {
    if ws != [] {
      NobodyRanks(flags[..|ws| - 1], ws[..|ws| - 1]);
    }
  }

  lemma NobodyWaits(flags: seq<int>, k: nat)
    requires |flags| == k && forall i :: 0 <= i < k ==> flags[i] == 0
    ensures WorkerRanks(flags, seq(k, _ => LOOKING)) == 0 && AllWaiting(flags, seq(k, _ => LOOKING)) == multiset{}
  {
    NobodyRanks(flags, seq(k, _ => LOOKING));
  }

  /** The i-th position after start, going round. */
  function Position(n: nat, start: nat, i: nat): (k: nat)
    requires n >= 1
    ensures k < n
  {
    (start + i) % n
  }

  lemma PositionStarts(n: nat, start: nat)
    requires start < n
    ensures Position(n, start, 0) == start
  {
  }

  lemma PositionMoves(n: nat, start: nat, i: nat)
    requires n >= 1
    ensures Position(n, start, i + 1) == (Position(n, start, i) + 1) % n
  {
    NextPosition(n, start + i);
  }

  /** How far ahead position k is, going round. */
  ghost function Ahead(n: nat, from: nat, k: nat): (d: nat)
    requires from < n && k < n
    ensures d < n && Position(n, from, d) == k
  {
    if from <= k then k - from else k + n - from
  }
}
