/**
 How the coordinator hands a task to a participant's thread and gets the result back, over a
 pair of cpLock(1) (Lab3/src/coordinator.cc, Lab3/src/include/lock.hpp). A result is shown by
 the task it was produced for.
 */
module Rendezvous {
  import opened Locks

  /** The coordinator's side: between tasks, posting one, having posted it, reading its result, holding that result. */
  datatype PosterPc<T> = AT_REST | POSTING(task: T) | POSTED(task: T) | READING(task: T) | HOLDING(task: T, result: T)

  /** The thread's side: in _ptaskSem.cGet, in _pRetSem.pGet, in _ptaskSem.cRelease, in _pRetSem.pRelease. */
  datatype WorkerPc<T> = TAKING | CLAIMING | DROPPING(result: T) | REPLYING(result: T)

  /** retFirst tells which lock the thread gives back first: pRecovery the result's, pWorking the task's. */
  datatype State<T> = State(retFirst: bool, task: Channel<T>, ret: Channel<T>, poster: PosterPc<T>, worker: WorkerPc<T>)

  function Initial<T>(retFirst: bool): State<T>
  {
    State(retFirst, NewChannel(1).(c := WANT), NewChannel(1), AT_REST, TAKING)
  }

  // ---------- the steps ----------

  predicate WorkerCan<T>(s: State<T>)
  {
    match s.worker
    case TAKING => ConsumerCan(s.task)
    case CLAIMING => ProducerCan(s.ret)
    case DROPPING(_) => ConsumerCan(s.task)
    case REPLYING(_) => ProducerCan(s.ret)
  }

  /** The next semaphore operation of pWorking or pRecovery; the work itself goes with the one that ends pGet. */
  function WorkerStep<T>(s: State<T>): State<T>
    requires WorkerCan(s)
  {
    match s.worker
    case TAKING =>
      if s.task.c == GOT then s.(task := ConsumerStep(s.task), ret := s.ret.(p := WANT), worker := CLAIMING)
      else s.(task := ConsumerStep(s.task))
    case CLAIMING =>
      if s.ret.p == GOT && s.task.queue != [] then
        var result := s.task.queue[0];
        s.(ret := ProducerStep(s.ret, result), worker := if s.retFirst then REPLYING(result) else DROPPING(result))
      else if s.task.queue != [] then s.(ret := ProducerStep(s.ret, s.task.queue[0]))
      else s
    case DROPPING(result) =>
      if s.task.c != LEFT then s.(task := ConsumerStep(s.task))
      else if s.retFirst then s.(task := ConsumerStep(s.task).(c := WANT), worker := TAKING)
      else s.(task := ConsumerStep(s.task), worker := REPLYING(result))
    case REPLYING(result) =>
      if s.ret.p != LEFT then s.(ret := ProducerStep(s.ret, result))
      else if s.retFirst then s.(ret := ProducerStep(s.ret, result), worker := DROPPING(result))
      else s.(ret := ProducerStep(s.ret, result), task := s.task.(c := WANT), worker := TAKING)
  }

  predicate PosterCan<T>(s: State<T>)
  {
    match s.poster
    case AT_REST => true
    case POSTING(_) => ProducerCan(s.task)
    case POSTED(_) => true
    case READING(_) => ConsumerCan(s.ret)
    case HOLDING(_, _) => ConsumerCan(s.ret)
  }

  /** The next operation of the coordinator; next is the task it posts when it is at rest. */
  function PosterStep<T>(s: State<T>, next: T): State<T>
    requires PosterCan(s)
  {
    match s.poster
    case AT_REST => s.(task := s.task.(p := WANT), poster := POSTING(next))
    case POSTING(task) =>
      if s.task.p == LEFT then s.(task := ProducerStep(s.task, task), poster := POSTED(task))
      else s.(task := ProducerStep(s.task, task))
    case POSTED(task) => s.(ret := s.ret.(c := WANT), poster := READING(task))
    case READING(task) =>
      if s.ret.c == IN then s.(ret := ConsumerStep(s.ret), poster := HOLDING(task, s.ret.queue[0]))
      else s.(ret := ConsumerStep(s.ret))
    case HOLDING(task, result) => s.(ret := ConsumerStep(s.ret), poster := AT_REST)
  }

  // ---------- what every interleaving keeps ----------

  predicate PosterFits<T>(s: State<T>)
  {
    match s.poster
    case AT_REST => s.task.p == IDLE && s.ret.c == IDLE
    case POSTING(_) => s.task.p != IDLE && s.ret.c == IDLE
    case POSTED(_) => s.task.p == IDLE && s.ret.c == IDLE
    case READING(_) => s.task.p == IDLE && (s.ret.c == WANT || s.ret.c == GOT || s.ret.c == IN)
    case HOLDING(_, _) => s.task.p == IDLE && s.ret.c == LEFT
  }

  predicate WorkerFits<T>(s: State<T>)
  {
    match s.worker
    case TAKING => (s.task.c == WANT || s.task.c == GOT) && s.ret.p == IDLE
    case CLAIMING => s.task.c == IN && (s.ret.p == WANT || s.ret.p == GOT)
    case DROPPING(_) => (s.task.c == IN || s.task.c == LEFT) && s.ret.p == if s.retFirst then IDLE else IN
    case REPLYING(_) => (s.ret.p == IN || s.ret.p == LEFT) && s.task.c == if s.retFirst then IN else IDLE
  }

  /** The task t is posted and its result not read: it is in one place only, and nothing else is anywhere. */
  ghost predicate Outstanding<T>(s: State<T>, t: T)
  {
    match s.worker
    case TAKING => (s.task.queue == [t] && s.ret.queue == []) || (s.task.queue == [] && s.ret.queue == [t])
    case CLAIMING => s.task.queue == [t] && s.ret.queue == []
    case DROPPING(result) =>
      && result == t && s.task.queue == (if s.task.c == IN then [t] else [])
      && s.ret.queue == if s.retFirst then [t] else []
    case REPLYING(result) =>
      && result == t && s.task.queue == (if s.retFirst then [t] else [])
      && s.ret.queue == if s.ret.p == LEFT then [t] else []
  }

  /** No result is to be read; the thread may still be giving the last task's lock back. */
  ghost predicate NoneOutstanding<T>(s: State<T>)
  {
    && s.ret.queue == []
    && match s.worker
       case TAKING => s.task.queue == []
       case CLAIMING => false
       case DROPPING(result) => s.retFirst && s.task.queue == if s.task.c == IN then [result] else []
       case REPLYING(_) => false
  }

  ghost predicate Inv<T>(s: State<T>)
  {
    && ChannelOk(s.task, 1) && ChannelOk(s.ret, 1) && PosterFits(s) && WorkerFits(s)
    && match s.poster
       case AT_REST => NoneOutstanding(s)
       case POSTING(t) => if s.task.p == LEFT then Outstanding(s, t) else NoneOutstanding(s)
       case POSTED(t) => Outstanding(s, t)
       case READING(t) => Outstanding(s, t)
       case HOLDING(t, result) => NoneOutstanding(s) && result == t
  }

  lemma InitialInv<T>(retFirst: bool)
    ensures Inv<T>(Initial(retFirst))
  {
  }

  lemma WorkerKeepsInv<T>(s: State<T>)
    requires Inv(s) && WorkerCan(s)
    ensures Inv(WorkerStep(s)) && WorkerStep(s).poster == s.poster
  {
    ConsumerKeeps(s.task, 1);
    if s.task.queue != [] && ProducerCan(s.ret) {
      ProducerKeeps(s.ret, 1, s.task.queue[0]);
    }
    if s.worker.REPLYING? {
      ProducerKeeps(s.ret, 1, s.worker.result);
    }
  }

  lemma PosterKeepsInv<T>(s: State<T>, next: T)
    requires Inv(s) && PosterCan(s)
    ensures Inv(PosterStep(s, next))
  {
    ConsumerKeeps(s.ret, 1);
    if s.poster.POSTING? {
      ProducerKeeps(s.task, 1, s.poster.task);
    }
  }

  /** The result the coordinator reads is the one for the task it has just posted, in every interleaving. */
  lemma ResultIsNotStale<T>(s: State<T>)
    requires Inv(s) && s.poster.HOLDING?
    ensures s.poster.result == s.poster.task
  {
  }

  /** The two locks never stop both sides. */
  lemma NoDeadlock<T>(s: State<T>)
    requires Inv(s)
    ensures PosterCan(s) || WorkerCan(s)
  {
    if !PosterCan(s) && !WorkerCan(s) {
      ConsumerKeeps(s.task, 1);
      ConsumerKeeps(s.ret, 1);
    }
  }

  // ---------- runs ----------

  datatype Move<T> = Post(next: T) | Work

  /** Any interleaving of the two sides; a side that is blocked lets its turn pass. */
  function Run<T>(s: State<T>, moves: seq<Move<T>>): State<T>
  {
    if moves == [] then s
    else
      var before := Run(s, moves[..|moves| - 1]);
      match moves[|moves| - 1]
      case Post(next) => if PosterCan(before) then PosterStep(before, next) else before
      case Work => if WorkerCan(before) then WorkerStep(before) else before
  }

  /** The tasks handed over to the coordinator while it was at rest, in order. */
  function Posted<T>(s: State<T>, moves: seq<Move<T>>): seq<T>
  {
    if moves == [] then []
    else
      var init, move := moves[..|moves| - 1], moves[|moves| - 1];
      Posted(s, init) + if move.Post? && Run(s, init).poster == AT_REST then [move.next] else []
  }

  /** The results it has come to hold, in order. */
  function Read<T>(s: State<T>, moves: seq<Move<T>>): seq<T>
  {
    if moves == [] then []
    else
      var init := moves[..|moves| - 1];
      var before, after := Run(s, init), Run(s, moves);
      Read(s, init) + if after.poster.HOLDING? && !before.poster.HOLDING? then [after.poster.result] else []
  }

  /** The task whose result is still to be read, if there is one. */
  function Owed<T>(poster: PosterPc<T>): seq<T>
  {
    match poster
    case AT_REST => []
    case POSTING(task) => [task]
    case POSTED(task) => [task]
    case READING(task) => [task]
    case HOLDING(_, _) => []
  }

  /** In every interleaving the results read are those of the tasks handed over, in order, none skipped and none twice. */
  lemma {:induction false} ResultsAreThoseOfTasks<T>(retFirst: bool, moves: seq<Move<T>>)
    ensures var start := Initial(retFirst);
            Posted(start, moves) == Read(start, moves) + Owed(Run(start, moves).poster)
  {
    hide Inv, WorkerStep, PosterStep;
    if moves != [] {
      var start := Initial<T>(retFirst);
      var init, move := moves[..|moves| - 1], moves[|moves| - 1];
      var before := Run(start, init);
      ResultsAreThoseOfTasks(retFirst, init);
      EveryRun(retFirst, init);
      if WorkerCan(before) {
        WorkerKeepsInv(before);
      }
      if move.Post? && PosterCan(before) {
        PosterMoves(before, move.next);
      }
    }
  }

  lemma PosterMoves<T>(s: State<T>, next: T)
    requires Inv(s) && PosterCan(s)
    ensures s.poster == AT_REST ==> Owed(PosterStep(s, next).poster) == [next]
    ensures PosterStep(s, next).poster.HOLDING? ==>
              !s.poster.HOLDING? && Owed(s.poster) == [PosterStep(s, next).poster.result]
    ensures s.poster != AT_REST && !PosterStep(s, next).poster.HOLDING? ==> Owed(PosterStep(s, next).poster) == Owed(s.poster)
  {
    PosterKeepsInv(s, next);
  }

  lemma {:induction false} EveryRun<T>(retFirst: bool, moves: seq<Move<T>>)
    ensures Inv(Run(Initial(retFirst), moves))
    ensures var s := Run(Initial(retFirst), moves);
            (PosterCan(s) || WorkerCan(s)) && (s.poster.HOLDING? ==> s.poster.result == s.poster.task)
  {
    hide Inv, WorkerStep, PosterStep;
    if moves == [] {
      InitialInv<T>(retFirst);
    } else {
      EveryRun(retFirst, moves[..|moves| - 1]);
      var before := Run(Initial(retFirst), moves[..|moves| - 1]);
      if WorkerCan(before) {
        WorkerKeepsInv(before);
      }
      if PosterCan(before) && moves[|moves| - 1].Post? {
        PosterKeepsInv(before, moves[|moves| - 1].next);
      }
    }
    var s := Run(Initial(retFirst), moves);
    NoDeadlock(s);
    if s.poster.HOLDING? {
      ResultIsNotStale(s);
    }
  }

  // ---------- progress ----------

  function PosterRank<T>(s: State<T>): nat
  {
    match s.poster
    case POSTING(_) => 4 + Rest(s.task.p)
    case POSTED(_) => 4
    case READING(_) => Rest(s.ret.c) - (if s.ret.c == IDLE then 0 else 1)
    case _ => 0
  }

  /** The operations left in a lock's use. */
  function Rest(phase: Phase): nat
  {
    match phase
    case IDLE => 0
    case WANT => 4
    case GOT => 3
    case IN => 2
    case LEFT => 1
  }

  /** The operations of the thread until it is back at the task's lock. */
  function Cycle<T>(s: State<T>): nat
  {
    match s.worker
    case TAKING => if s.task.c == GOT then 7 else 0
    case CLAIMING => if s.ret.p == WANT then 6 else 5
    case DROPPING(_) => (if s.retFirst then 0 else 2) + (if s.task.c == IN then 2 else 1)
    case REPLYING(_) => (if s.retFirst then 2 else 0) + (if s.ret.p == IN then 2 else 1)
  }

  /** What is left to do until the result of the task in hand is held. */
  function Rank<T>(s: State<T>): nat
  {
    PosterRank(s) + Cycle(s) +
    if (s.poster.POSTING? && s.task.p != LEFT) || (s.worker.TAKING? && s.task.c == WANT && s.task.queue != []) then 8 else 0
  }

  lemma WorkerLowers<T>(s: State<T>)
    requires Inv(s) && WorkerCan(s) && Owed(s.poster) != []
    ensures Rank(WorkerStep(s)) < Rank(s)
  {
    ConsumerKeeps(s.task, 1);
  }

  lemma PosterLowers<T>(s: State<T>, next: T)
    requires Inv(s) && PosterCan(s) && Owed(s.poster) != []
    ensures Rank(PosterStep(s, next)) < Rank(s)
  {
    ConsumerKeeps(s.ret, 1);
  }

  predicate Enabled<T>(s: State<T>, move: Move<T>)
  {
    match move
    case Post(_) => PosterCan(s)
    case Work => WorkerCan(s)
  }

  /** Every move is one its side can make when its turn comes. */
  predicate AllEnabled<T>(s: State<T>, moves: seq<Move<T>>)
  {
    forall i {:trigger moves[i]} :: 0 <= i < |moves| ==> Enabled(Run(s, moves[..i]), moves[i])
  }

  /** While the result of t has not been held, every enabled move brings it nearer. */
  lemma {:induction false} StillOwed<T>(s: State<T>, t: T, moves: seq<Move<T>>)
    requires Inv(s) && Owed(s.poster) == [t] && AllEnabled(s, moves)
    requires forall k :: 0 <= k <= |moves| ==> Run(s, moves[..k]).poster != HOLDING(t, t)
    ensures Inv(Run(s, moves)) && Owed(Run(s, moves).poster) == [t] && Rank(Run(s, moves)) + |moves| <= Rank(s)
  {
    hide Inv, WorkerStep, PosterStep, Rank;
    if moves != [] {
      var n := |moves| - 1;
      var init := moves[..n];
      forall k | 0 <= k <= n
        ensures init[..k] == moves[..k]
      {
      }
      assert forall i :: 0 <= i < n ==> init[i] == moves[i];
      StillOwed(s, t, init);
      var before := Run(s, init);
      assert moves[..|moves|] == moves && Enabled(before, moves[n]);
      OneMove(before, t, moves[n]);
    }
  }

  lemma OneMove<T>(s: State<T>, t: T, move: Move<T>)
    requires Inv(s) && Owed(s.poster) == [t] && Enabled(s, move)
    ensures var after := if move.Post? then PosterStep(s, move.next) else WorkerStep(s);
            Inv(after) && Rank(after) < Rank(s) && (after.poster == HOLDING(t, t) || Owed(after.poster) == [t])
  {
    hide Inv, Rank, WorkerStep;
    if move.Post? {
      PosterKeepsInv(s, move.next);
      PosterLowers(s, move.next);
      PosterMoves(s, move.next);
      if PosterStep(s, move.next).poster.HOLDING? {
        ResultIsNotStale(PosterStep(s, move.next));
      }
    } else {
      WorkerKeepsInv(s);
      WorkerLowers(s);
    }
  }

  /** Enough enabled moves, of whichever sides, and the result of the task in hand has been held. */
  lemma ResultArrives<T>(s: State<T>, t: T, moves: seq<Move<T>>)
    requires Inv(s) && Owed(s.poster) == [t] && AllEnabled(s, moves) && |moves| >= Rank(s)
    ensures exists k :: 0 <= k <= |moves| && Run(s, moves[..k]).poster == HOLDING(t, t)
  {
    hide Inv, Run, AllEnabled;
    if forall k :: 0 <= k <= |moves| ==> Run(s, moves[..k]).poster != HOLDING(t, t) {
      StillOwed(s, t, moves);
      OwedHasRank(Run(s, moves));
    }
  }

  lemma OwedHasRank<T>(s: State<T>)
    requires Inv(s) && Owed(s.poster) != []
    ensures Rank(s) > 0
  {
  }
}
