/**
 The solving pipeline: a thread that reads file names, one that reads the files, the solvers
 and the printer, any of them a step at a time (Lab1/fileManager.cpp, Lab1/solverManager.cpp,
 Lab1/main.cpp).
 */
module Pipelines {
  import opened Wrappers
  import opened Locks
  import opened LaneSteps
  import opened PuzzleText
  import opened Sudoku

  /** filenameReadThread: about to read a name, waiting for filenameLock, holding it, done. */
  datatype NamesPc = N_READ | N_WANT(name: string) | N_LOCKED(name: string) | N_DONE

  /**
   problemReadThread: at the loop's head, holding filenameLock, having found no name, in a file,
   writing end markers, done.
   */
  datatype ReaderPc = R_START | R_LOCKED | R_EMPTY | R_FILE(todo: seq<string>) | R_EOF(left: nat) | R_DONE

  /** answerPrinter: at the loop's head, waiting for the next result, holding it, done. */
  datatype PrinterPc = P_NEXT | P_WAIT | P_RELEASE(result: Item) | P_DONE

  datatype Holder = FREE | NAMES | READER

  datatype Thread = NamesThread | ReaderThread | SolverThread(id: nat) | PrinterThread

  /** The puzzles of all files, in order. */
  function Flatten(disk: string -> seq<string>, names: seq<string>): seq<string>
  {
    if names == [] then [] else disk(names[0]) + Flatten(disk, names[1..])
  }

  lemma {:induction false} FlattenSum(disk: string -> seq<string>, a: seq<string>, b: seq<string>)
    ensures Flatten(disk, a + b) == Flatten(disk, a) + Flatten(disk, b)
  {
    if a == [] {
      assert a + b == b;
    } else {
      assert (a + b)[1..] == a[1..] + b;
      FlattenSum(disk, a[1..], b);
    }
  }

  function AnswerLines(answer: string -> string, ps: seq<string>, k: nat): (lines: seq<string>)
    requires k <= |ps|
    ensures |lines| == k
  {
    seq(k, i requires 0 <= i < k => answer(ps[i]))
  }

  function Todo(pc: ReaderPc): seq<string>
  {
    if pc.R_FILE? then pc.todo else []
  }

  function Over(k: nat, size: nat): nat
  {
    if k > size then k - size else 0
  }

  function Least(a: nat, b: nat): nat
  {
    if a < b then a else b
  }

  function NamesCost(pc: NamesPc): nat
  {
    match pc
    case N_READ => 2
    case N_WANT(_) => 1
    case N_LOCKED(_) => 0
    case N_DONE => 0
  }

  function ReaderCost(pc: ReaderPc): nat
  {
    match pc
    case R_FILE(_) => 6
    case R_START => 5
    case R_LOCKED => 4
    case R_EMPTY => 3
    case R_EOF(_) => 2
    case R_DONE => 1
  }

  function PrinterCost(pc: PrinterPc): nat
  {
    if pc.P_RELEASE? || pc.P_NEXT? then 5 else 0
  }

  function Sum(problems: seq<Channel<Item>>, pcs: seq<SolverPc>, results: seq<Channel<Item>>, k: nat): nat
    requires k <= |problems| == |pcs| == |results|
  {
    if k == 0 then 0 else Sum(problems, pcs, results, k - 1) + Cost(problems[k - 1], pcs[k - 1], results[k - 1])
  }

  lemma {:induction false} SumUpdate(problems: seq<Channel<Item>>, pcs: seq<SolverPc>, results: seq<Channel<Item>>,
                                     k: nat, id: nat, p: Channel<Item>, pc: SolverPc, r: Channel<Item>)
    requires id < |problems| == |pcs| == |results| && k <= |problems|
    ensures Sum(problems[id := p], pcs[id := pc], results[id := r], k) ==
            Sum(problems, pcs, results, k) + if id < k then Cost(p, pc, r) - Cost(problems[id], pcs[id], results[id]) else 0
  {
    hide Cost;
    if k > 0 {
      SumUpdate(problems, pcs, results, k - 1, id, p, pc, r);
    }
  }

  lemma NothingYet(ps: seq<string>, n: nat, cap: nat, answer: string -> string, id: nat)
    requires n >= 1
    ensures LaneOk(ps, n, cap, answer, id, 0, 0, NewChannel(cap).(c := WANT), S_TAKE, NewChannel(cap))
  {
    assert Stream(ps, n, id, 0, 0) == [];
  }

  /** The puzzles of the names in the buffer and of those not yet there. */
  function Waiting(disk: string -> seq<string>, buffer: seq<string>, names: seq<string>, k: nat): seq<string>
    requires k <= |names|
  {
    Flatten(disk, buffer) + Flatten(disk, names[k..])
  }

  /** A name that is pushed moves from the names still to read to the buffer. */
  lemma NamePushed(disk: string -> seq<string>, buffer: seq<string>, names: seq<string>, k: nat)
    requires k < |names|
    ensures Waiting(disk, buffer + [names[k]], names, k + 1) == Waiting(disk, buffer, names, k)
  {
    assert names[k..] == [names[k]] + names[k + 1..];
    FlattenSum(disk, buffer, [names[k]]);
    FlattenSum(disk, [names[k]], names[k + 1..]);
  }

  lemma NamePopped(disk: string -> seq<string>, buffer: seq<string>, names: seq<string>, k: nat)
    requires k <= |names| && buffer != []
    ensures Waiting(disk, buffer, names, k) == disk(buffer[0]) + Waiting(disk, buffer[1..], names, k)
  {
  }

  lemma NothingWaits(disk: string -> seq<string>, names: seq<string>)
    ensures Waiting(disk, [], names, |names|) == []
    ensures Waiting(disk, [], names, 0) == Flatten(disk, names)
  {
    assert names[|names|..] == [] && names[0..] == names;
  }

  lemma EmptyText()
    ensures Text([]) == ""
  {
  }

  /** A lane as its solver, the reader (writing an item, or 0) and the printer (reading a result, or 0) see it. */
  ghost predicate LaneFits(ps: seq<string>, n: nat, cap: nat, answer: string -> string, id: nat, popped: nat, pushed: nat,
                           problems: Channel<Item>, pc: SolverPc, results: Channel<Item>,
                           writing: nat, reading: nat, holding: bool)
    requires n >= 1
  {
    && LaneOk(ps, n, cap, answer, id, popped, pushed, problems, pc, results)
    && (problems.p != IDLE <==> writing > 0 && Goes(writing, n, id))
    && (problems.p != IDLE ==> pushed == writing - if problems.p == LEFT then 0 else 1)
    && (results.c != IDLE <==> reading > 0 && Goes(reading, n, id))
    && (results.c != IDLE ==> (holding <==> results.c == LEFT))
  }

  class Pipeline {
    const n: nat
    const cap: nat
    const names: seq<string>
    const disk: string -> seq<string>
    const answer: string -> string
    const printer: Printer

    var namesPc: NamesPc
    var nextName: nat
    var readFile: bool
    var lock: Holder
    var filenameBuffer: seq<string>

    var readerPc: ReaderPc
    var problemNumber: nat
    var writing: Option<Item>

    var problemLanes: seq<Channel<Item>>
    var solvers: seq<SolverPc>
    var resultLanes: seq<Channel<Item>>

    var printerPc: PrinterPc
    var resultNumber: nat
    var endNumber: nat

    // how many items have entered the problem lanes, and left the result lanes
    ghost var pushed: nat
    ghost var popped: nat

    /** All puzzles of all files. */
    ghost function Puzzles(): seq<string>
    {
      Flatten(disk, names)
    }

    ghost predicate Configured()
    {
      n >= 1 && cap >= 1 && forall i :: 0 <= i < |Puzzles()| ==> IsLine(answer(Puzzles()[i]))
    }

    /** filenameLock, the name buffer and the end of input. */
    ghost predicate HandOffOk()
      reads `nextName, `namesPc, `lock, `readerPc, `readFile, `filenameBuffer
    {
      && nextName <= |names|
      && (lock == NAMES <==> namesPc.N_LOCKED?)
      && (lock == READER <==> readerPc.R_LOCKED? || readerPc.R_EMPTY? || readerPc.R_EOF?)
      && (namesPc.N_WANT? || namesPc.N_LOCKED? ==> nextName < |names| && namesPc.name == names[nextName])
      && (namesPc == N_DONE <==> !readFile) && (namesPc == N_DONE ==> nextName == |names|)
      && (readerPc == R_EMPTY ==> filenameBuffer == [])
      && (readerPc.R_EOF? || readerPc == R_DONE ==> filenameBuffer == [] && namesPc == N_DONE)
    }

    /** What the reader has still to hand out. */
    ghost predicate ReaderOk()
      reads `readerPc, `problemNumber, `writing, `pushed, `filenameBuffer, `nextName
      requires nextName <= |names|
    {
      && (match readerPc
          case R_EOF(left) => left <= n && problemNumber == |Puzzles()| + n - left
          case R_DONE => problemNumber == |Puzzles()| + n
          case _ =>
            && problemNumber <= |Puzzles()|
            && Puzzles()[problemNumber..] ==
               Todo(readerPc) + Waiting(disk, filenameBuffer, names, nextName))
      && pushed <= |Puzzles()| + n
      && (writing.Some? ==> (readerPc.R_FILE? || readerPc.R_EOF?) && problemNumber >= 1 &&
                            pushed <= problemNumber <= pushed + 1 &&
                            writing.value == ItemAt(Puzzles(), problemNumber))
      && (writing == None ==> pushed == problemNumber)
    }

    /** The number of the item the reader is writing, 0 for none. */
    ghost function WritingNo(): nat
      reads `writing, `problemNumber
    {
      if writing.Some? then problemNumber else 0
    }

    /** The number of the result the printer is reading, 0 for none. */
    ghost function ReadingNo(): nat
      reads `printerPc, `resultNumber
    {
      if printerPc.P_WAIT? || printerPc.P_RELEASE? then resultNumber else 0
    }

    ghost predicate LanesOk()
      reads `problemLanes, `solvers, `resultLanes, `writing, `problemNumber, `printerPc, `resultNumber, `popped, `pushed
      requires n >= 1
    {
      && |problemLanes| == |solvers| == |resultLanes| == n
      && forall id: nat {:trigger solvers[id]} :: id < n ==>
           LaneFits(Puzzles(), n, cap, answer, id, popped, pushed, problemLanes[id], solvers[id], resultLanes[id],
                    WritingNo(), ReadingNo(), printerPc.P_RELEASE?)
    }

    /** How many results the printer is through with. */
    ghost function Processed(): nat
      reads `printerPc, `resultNumber
    {
      if (printerPc.P_WAIT? || printerPc.P_RELEASE?) && resultNumber > 0 then resultNumber - 1 else resultNumber
    }

    ghost predicate PrinterOk()
      reads `printerPc, `resultNumber, `endNumber, `popped
    {
      && resultNumber <= |Puzzles()| + n && endNumber == Over(Processed(), |Puzzles()|)
      && match printerPc
         case P_NEXT => popped == resultNumber && endNumber < n
         case P_WAIT => resultNumber >= 1 && popped == resultNumber - 1
         case P_RELEASE(result) =>
           resultNumber >= 1 && popped == resultNumber && result == Answer(answer, ItemAt(Puzzles(), resultNumber))
         case P_DONE => popped == resultNumber == |Puzzles()| + n
    }

    /** What has been printed, or is in the printer's buffer, is the answers in order. */
    ghost predicate Shows()
      reads `printerPc, `resultNumber, printer, printer.resultBuf
    {
      if printerPc == P_DONE then printer.out == Text(AnswerLines(answer, Puzzles(), |Puzzles()|))
      else
        printer.Valid() && printer.Shown() == Text(AnswerLines(answer, Puzzles(), Least(Processed(), |Puzzles()|)))
    }

    ghost predicate Valid()
      reads this, printer, printer.resultBuf
    {
      Configured() && HandOffOk() && ReaderOk() && LanesOk() && PrinterOk() && Shows()
    }

    /** An upper bound on the steps that are left, not counting the reader's vain looks for a name. */
    ghost function Measure(): nat
      reads this
      requires Configured() && HandOffOk() && ReaderOk() && LanesOk() && pushed <= |Puzzles()| + n
    {
      3 * (|names| - nextName) + NamesCost(namesPc)
      + 7 * (|filenameBuffer| + |names| - nextName) + ReaderCost(readerPc)
      + 5 * (|Puzzles()| + n - problemNumber) + 15 * (|Puzzles()| + n - pushed)
      + PrinterCost(printerPc) + Sum(problemLanes, solvers, resultLanes, n)
    }

    constructor (n: nat, cap: nat, batch: nat, names: seq<string>, disk: string -> seq<string>, answer: string -> string)
      requires n >= 1 && cap >= 1 && batch >= 1
      requires forall i :: 0 <= i < |Flatten(disk, names)| ==> IsLine(answer(Flatten(disk, names)[i]))
      ensures Valid() && fresh(printer) && fresh(printer.resultBuf)
      ensures this.n == n && this.names == names && this.disk == disk && this.answer == answer && readerPc == R_START
    {
      hide Flatten, LaneOk, Text, Waiting;
      this.n, this.cap, this.names, this.disk, this.answer := n, cap, names, disk, answer;
      printer := new Printer(batch);
      namesPc, nextName, readFile, lock, filenameBuffer := N_READ, 0, true, FREE, [];
      readerPc, problemNumber, writing := R_START, 0, None;
      problemLanes := seq(n, _ => NewChannel<Item>(cap).(c := WANT));
      solvers := seq(n, _ => S_TAKE);
      resultLanes := seq(n, _ => NewChannel<Item>(cap));
      printerPc, resultNumber, endNumber := P_NEXT, 0, 0;
      pushed, popped := 0, 0;
      new;
      NothingWaits(disk, names);
      EmptyText();
      forall id: nat | id < n
        ensures LaneFits(Puzzles(), n, cap, answer, id, 0, 0, problemLanes[id], solvers[id], resultLanes[id], 0, 0, false)
      {
        NothingYet(Puzzles(), n, cap, answer, id);
      }
    }

    lemma Startable()
      requires readerPc == R_START
      ensures !Doomed()
    {
    }

    // ---------- the solvers ----------

    method StepSolver(id: nat)
      requires Valid() && id < n && SolverCan(problemLanes[id], solvers[id], resultLanes[id])
      modifies `problemLanes, `solvers, `resultLanes
      ensures Valid() && pushed <= |Puzzles()| + n && Measure() < old(Measure())
    {
      hide LaneOk, SolverStep, Cost, SolverCan, Puzzles, Sum, HandOffOk, PrinterOk, Shows, WritingNo, ReadingNo;
      SolverStepOk(Puzzles(), n, cap, answer, id, popped, pushed, problemLanes[id], solvers[id], resultLanes[id]);
      var (p, pc, r) := SolverStep(answer, problemLanes[id], solvers[id], resultLanes[id]);
      SumUpdate(problemLanes, solvers, resultLanes, n, id, p, pc, r);
      problemLanes, solvers, resultLanes := problemLanes[id := p], solvers[id := pc], resultLanes[id := r];
    }

    // ---------- the file names ----------

    predicate NamesCan()
      reads `namesPc, `lock
    {
      match namesPc
      case N_READ => true
      case N_WANT(_) => lock == FREE
      case N_LOCKED(_) => true
      case N_DONE => false
    }

    /** filenameReadThread, one step. */
    method StepNames()
      requires Valid() && NamesCan()
      modifies `namesPc, `nextName, `readFile, `lock, `filenameBuffer
      ensures Valid() && pushed <= |Puzzles()| + n && Measure() < old(Measure())
      ensures Doomed() ==> old(Doomed())
    {
      hide LanesOk, PrinterOk, Shows, Configured, Puzzles, Sum, Waiting, ReaderCost, PrinterCost;
      match namesPc {
        case N_READ =>
          if nextName < |names| {
            namesPc := N_WANT(names[nextName]);
          } else {
            readFile, namesPc := false, N_DONE;
          }
        case N_WANT(name) =>
          lock, namesPc := NAMES, N_LOCKED(name);
        case N_LOCKED(name) => PushName();
      }
    }

    /** Under the lock, the name enters the name buffer. */
    method PushName()
      requires Valid() && namesPc.N_LOCKED?
      modifies `namesPc, `nextName, `lock, `filenameBuffer
      ensures Valid() && pushed <= |Puzzles()| + n && Measure() < old(Measure())
      ensures Doomed() ==> old(Doomed())
    {
      hide LanesOk, PrinterOk, Shows, Configured, Puzzles, Sum, Waiting, ReaderCost, PrinterCost;
      NamePushed(disk, filenameBuffer, names, nextName);
      filenameBuffer, nextName := filenameBuffer + [namesPc.name], nextName + 1;
      lock, namesPc := FREE, N_READ;
    }

    // ---------- the reader ----------

    predicate ReaderCan()
      reads `readerPc, `lock, `writing, `problemLanes, `problemNumber
      requires n >= 1 && |problemLanes| == n
    {
      match readerPc
      case R_START => lock == FREE
      case R_LOCKED => true
      case R_EMPTY => true
      case R_FILE(_) => writing.Some? ==> ProducerCan(problemLanes[problemNumber % n])
      case R_EOF(_) => writing.Some? ==> ProducerCan(problemLanes[problemNumber % n])
      case R_DONE => false
    }

    /** The reader has found no name and goes back to look again. */
    predicate LooksInVain()
      reads `readerPc, `readFile
    {
      readerPc == R_EMPTY && readFile
    }

    /** There is no name to find, but there may be one later. */
    predicate NoNameYet()
      reads `filenameBuffer, `readFile
    {
      readFile && filenameBuffer == []
    }

    /** The reader is on its way to finding no name. */
    predicate Doomed()
      reads `filenameBuffer, `readFile, `readerPc
    {
      NoNameYet() && (readerPc == R_LOCKED || readerPc == R_EMPTY)
    }

    /** problemReadThread, one step. */
    method StepReader()
      requires Valid() && ReaderCan()
      modifies `lock, `filenameBuffer, `readerPc, `problemNumber, `writing, `problemLanes, `pushed
      ensures Valid() && pushed <= |Puzzles()| + n
      ensures !old(LooksInVain()) ==> Measure() < old(Measure())
      ensures Doomed() ==> old(Doomed()) || (old(NoNameYet()) && old(readerPc) == R_START)
      ensures old(LooksInVain()) ==> readerPc == R_START
    {
      hide LaneFits, Flatten, Text, Sum, Waiting, AnswerLines;
      if writing.Some? {
        WriteOn();
      } else if readerPc.R_FILE? && readerPc.todo != [] {
        BeginWrite(Some(readerPc.todo[0]), R_FILE(readerPc.todo[1..]));
      } else if readerPc.R_EOF? && readerPc.left > 0 {
        BeginWrite(None, R_EOF(readerPc.left - 1));
      } else {
        LookForFile();
      }
    }

    /** The steps under filenameLock, and those between files. */
    method LookForFile()
      requires Valid() && ReaderCan() && writing == None && !(readerPc.R_FILE? && readerPc.todo != [])
      requires !(readerPc.R_EOF? && readerPc.left > 0)
      modifies `lock, `filenameBuffer, `readerPc
      ensures Valid() && pushed <= |Puzzles()| + n
      ensures !old(LooksInVain()) ==> Measure() < old(Measure())
      ensures Doomed() ==> old(Doomed()) || (old(NoNameYet()) && old(readerPc) == R_START)
      ensures old(LooksInVain()) ==> readerPc == R_START
    {
      hide LanesOk, PrinterOk, Shows, Sum, Waiting, Puzzles;
      if readerPc == R_LOCKED {
        TakeName();
      } else if readerPc == R_EMPTY {
        GiveUp();
      } else {
        match readerPc {
          case R_START =>
            lock, readerPc := READER, R_LOCKED;
          case R_FILE(_) =>
            readerPc := R_START;
          case R_EOF(_) =>
            lock, readerPc := FREE, R_DONE;
        }
      }
    }

    /** Under the lock, the next name is taken if there is one. */
    method TakeName()
      requires Valid() && readerPc == R_LOCKED && writing == None
      modifies `lock, `filenameBuffer, `readerPc
      ensures Valid() && pushed <= |Puzzles()| + n && Measure() < old(Measure())
      ensures Doomed() ==> old(Doomed())
    {
      hide LanesOk, PrinterOk, Shows, Sum, Waiting, Puzzles;
      if |filenameBuffer| == 0 {
        readerPc := R_EMPTY;
      } else {
        NamePopped(disk, filenameBuffer, names, nextName);
        readerPc, filenameBuffer, lock := R_FILE(disk(filenameBuffer[0])), filenameBuffer[1..], FREE;
      }
    }

    /** There is no name: the end of the input if no more can come, another look if they can. */
    method GiveUp()
      requires Valid() && readerPc == R_EMPTY && writing == None
      modifies `lock, `readerPc
      ensures Valid() && pushed <= |Puzzles()| + n && !Doomed()
      ensures !old(LooksInVain()) ==> Measure() < old(Measure())
      ensures old(LooksInVain()) ==> readerPc == R_START
    {
      hide LanesOk, PrinterOk, Shows, Sum, Waiting, Puzzles;
      NothingWaits(disk, names);
      if !readFile {
        readerPc := R_EOF(n);
      } else {
        lock, readerPc := FREE, R_START;
      }
    }

    /** problemWriter begins: problemNumber moves on, and the lane's pGet starts. */
    method BeginWrite(item: Item, next: ReaderPc)
      requires Valid() && writing == None
      requires || (readerPc.R_FILE? && readerPc.todo != [] && item == Some(readerPc.todo[0]) && next == R_FILE(readerPc.todo[1..]))
               || (readerPc.R_EOF? && readerPc.left > 0 && item == None && next == R_EOF(readerPc.left - 1))
      modifies `readerPc, `problemNumber, `writing, `problemLanes
      ensures Valid() && pushed <= |Puzzles()| + n && Measure() < old(Measure())
    {
      hide LaneOk, Puzzles, LanesOk, PrinterOk, Shows, Sum, Cost, Waiting;
      ghost var rest := Waiting(disk, filenameBuffer, names, nextName);
      if readerPc.R_FILE? {
        NextPuzzle(Puzzles(), problemNumber, readerPc.todo, rest);
      }
      LanesCounted();
      StartLane(item);
      readerPc := next;
    }

    /** The lane of the next item sees the reader coming. */
    method StartLane(item: Item)
      requires Configured() && LanesOk() && writing == None && pushed == problemNumber
      modifies `problemNumber, `writing, `problemLanes
      ensures LanesOk() && problemNumber == old(problemNumber) + 1 && writing == Some(item)
      ensures Sum(problemLanes, solvers, resultLanes, n) == old(Sum(problemLanes, solvers, resultLanes, n)) + 4
    {
      hide LaneOk, Puzzles, Sum, Cost;
      problemNumber := problemNumber + 1;
      var id := problemNumber % n;
      SidesOk(Puzzles(), n, cap, answer, id, popped, pushed, problemLanes[id], solvers[id], resultLanes[id]);
      SumUpdate(problemLanes, solvers, resultLanes, n, id, problemLanes[id].(p := WANT), solvers[id], resultLanes[id]);
      Unchanged(solvers, resultLanes, id);
      problemLanes := problemLanes[id := problemLanes[id].(p := WANT)];
      writing := Some(item);
    }

    /** problemWriter goes on at its lane. */
    method WriteOn()
      requires Valid() && writing.Some? && ReaderCan()
      modifies `writing, `problemLanes, `pushed
      ensures Valid() && pushed <= |Puzzles()| + n && Measure() < old(Measure())
    {
      hide LaneFits, Puzzles, HandOffOk, PrinterOk, Shows, Sum, ProducerStep, ReaderCost, PrinterCost, NamesCost;
      if problemLanes[problemNumber % n].p == IN {
        PushItem();
      } else {
        PassLock();
      }
    }

    /** In the guarded section the item enters the lane. */
    method PushItem()
      requires Valid() && writing.Some? && ReaderCan() && problemLanes[problemNumber % n].p == IN
      modifies `problemLanes, `pushed
      ensures Valid() && pushed <= |Puzzles()| + n && Measure() < old(Measure())
    {
      hide LaneOk, Puzzles, HandOffOk, PrinterOk, Shows, Sum, Cost, Waiting, ItemAt, ProducerStep,
           ReaderCost, PrinterCost, NamesCost;
      var id := problemNumber % n;
      var lane := problemLanes[id];
      ReaderStepOk(Puzzles(), n, cap, answer, id, popped, problemNumber, lane, solvers[id], resultLanes[id]);
      ProducerPhases(lane, writing.value);
      var lane' := ProducerStep(lane, writing.value);
      SumUpdate(problemLanes, solvers, resultLanes, n, id, lane', solvers[id], resultLanes[id]);
      Unchanged(solvers, resultLanes, id);
      forall j: nat | j < n && j != id
        ensures LaneOk(Puzzles(), n, cap, answer, j, popped, pushed + 1, problemLanes[j], solvers[j], resultLanes[j])
      {
        OthersPushed(Puzzles(), n, cap, answer, j, popped, pushed, problemLanes[j], solvers[j], resultLanes[j]);
      }
      pushed := pushed + 1;
      problemLanes := problemLanes[id := lane'];
    }

    /** A step before or after the guarded section; the last one ends the writing. */
    method PassLock()
      requires Valid() && writing.Some? && ReaderCan() && problemLanes[problemNumber % n].p != IN
      modifies `writing, `problemLanes
      ensures Valid() && pushed <= |Puzzles()| + n && Measure() < old(Measure())
    {
      hide LaneOk, Puzzles, HandOffOk, PrinterOk, Shows, Sum, Cost, Waiting, ItemAt, ProducerStep,
           ReaderCost, PrinterCost, NamesCost;
      var id := problemNumber % n;
      var lane := problemLanes[id];
      ReaderStepOk(Puzzles(), n, cap, answer, id, popped, problemNumber, lane, solvers[id], resultLanes[id]);
      ProducerPhases(lane, writing.value);
      var lane' := ProducerStep(lane, writing.value);
      SumUpdate(problemLanes, solvers, resultLanes, n, id, lane', solvers[id], resultLanes[id]);
      Unchanged(solvers, resultLanes, id);
      problemLanes := problemLanes[id := lane'];
      if lane.p == LEFT {
        writing := None;
      }
    }

    // ---------- the printer ----------

    predicate PrinterCan()
      reads `printerPc, `resultLanes, `resultNumber
      requires n >= 1 && |resultLanes| == n
    {
      match printerPc
      case P_NEXT => true
      case P_WAIT => ConsumerCan(resultLanes[resultNumber % n])
      case P_RELEASE(_) => true
      case P_DONE => false
    }

    /** answerPrinter, one step. */
    method StepPrinter()
      requires Valid() && PrinterCan()
      modifies this`printerPc, this`resultNumber, this`endNumber, this`resultLanes, this`popped, printer, printer.resultBuf
      ensures Valid() && pushed <= |Puzzles()| + n && Measure() < old(Measure())
    {
      hide LanesOk, PrinterOk, Shows, HandOffOk, ReaderOk, Configured, Puzzles, Sum;
      match printerPc {
        case P_NEXT => BeginRead();
        case P_WAIT => ReadOn();
        case P_RELEASE(result) => TakeResult(result);
      }
    }

    /** resultNumber moves on, and the lane's cGet starts. */
    method BeginRead()
      requires Valid() && printerPc == P_NEXT
      modifies `printerPc, `resultNumber, `resultLanes
      ensures Valid() && pushed <= |Puzzles()| + n && Measure() < old(Measure())
    {
      hide LaneOk, Puzzles, HandOffOk, ReaderOk, Sum, Cost, Text, AnswerLines;
      LanesCounted();
      resultNumber := resultNumber + 1;
      var id := resultNumber % n;
      SidesOk(Puzzles(), n, cap, answer, id, popped, pushed, problemLanes[id], solvers[id], resultLanes[id]);
      SumUpdate(problemLanes, solvers, resultLanes, n, id, problemLanes[id], solvers[id], resultLanes[id].(c := WANT));
      UnchangedToo(problemLanes, solvers, id);
      resultLanes := resultLanes[id := resultLanes[id].(c := WANT)];
      printerPc := P_WAIT;
    }

    method ReadOn()
      requires Valid() && printerPc == P_WAIT && PrinterCan()
      modifies `printerPc, `resultLanes, `popped
      ensures Valid() && pushed <= |Puzzles()| + n && Measure() < old(Measure())
    {
      hide LaneFits, Puzzles, HandOffOk, ReaderOk, Shows, Sum, ConsumerStep, ReaderCost, NamesCost, Text, AnswerLines;
      if resultLanes[resultNumber % n].c == IN {
        PopResult();
      } else {
        PassResultLock();
      }
    }

    /** In the guarded section the printer takes the result. */
    method PopResult()
      requires Valid() && printerPc == P_WAIT && PrinterCan() && resultLanes[resultNumber % n].c == IN
      modifies `printerPc, `resultLanes, `popped
      ensures Valid() && pushed <= |Puzzles()| + n && Measure() < old(Measure())
    {
      hide LaneOk, Puzzles, HandOffOk, ReaderOk, Sum, Cost, Text, AnswerLines, Answer, ItemAt, ConsumerStep, Configured,
           ReaderCost, NamesCost;
      LanesCounted();
      var id := resultNumber % n;
      var lane := resultLanes[id];
      PrinterStepOk(Puzzles(), n, cap, answer, id, resultNumber, pushed, problemLanes[id], solvers[id], lane);
      ConsumerPhases(lane);
      var lane' := ConsumerStep(lane);
      SumUpdate(problemLanes, solvers, resultLanes, n, id, problemLanes[id], solvers[id], lane');
      UnchangedToo(problemLanes, solvers, id);
      forall j: nat | j < n && j != id
        ensures LaneOk(Puzzles(), n, cap, answer, j, popped + 1, pushed, problemLanes[j], solvers[j], resultLanes[j])
      {
        OthersPopped(Puzzles(), n, cap, answer, j, popped, pushed, problemLanes[j], solvers[j], resultLanes[j]);
      }
      popped, printerPc := popped + 1, P_RELEASE(lane.queue[0]);
      resultLanes := resultLanes[id := lane'];
    }

    /** A step before the guarded section. */
    method PassResultLock()
      requires Valid() && printerPc == P_WAIT && PrinterCan() && resultLanes[resultNumber % n].c != IN
      modifies `resultLanes
      ensures Valid() && pushed <= |Puzzles()| + n && Measure() < old(Measure())
    {
      hide LaneOk, Puzzles, HandOffOk, ReaderOk, Sum, Cost, Text, AnswerLines, Answer, ItemAt, ConsumerStep, Configured,
           ReaderCost, NamesCost;
      LanesCounted();
      var id := resultNumber % n;
      var lane := resultLanes[id];
      PrinterStepOk(Puzzles(), n, cap, answer, id, resultNumber, pushed, problemLanes[id], solvers[id], lane);
      ConsumerPhases(lane);
      var lane' := ConsumerStep(lane);
      SumUpdate(problemLanes, solvers, resultLanes, n, id, problemLanes[id], solvers[id], lane');
      UnchangedToo(problemLanes, solvers, id);
      resultLanes := resultLanes[id := lane'];
    }

    /** The slot is given back, and the result goes to the output or is counted as an end marker. */
    method TakeResult(result: Item)
      requires Valid() && printerPc == P_RELEASE(result)
      modifies this`printerPc, this`endNumber, this`resultLanes, printer, printer.resultBuf
      ensures Valid() && pushed <= |Puzzles()| + n && Measure() < old(Measure())
    {
      hide LanesOk, Puzzles, HandOffOk, ReaderOk, Sum, Text, AnswerLines;
      LanesCounted();
      ShowResult(result);
      if endNumber == n {
        printer.Finish();
      }
      ReleaseLane(if endNumber == n then P_DONE else P_NEXT);
    }

    /** cRelease at the lane of the result. */
    method ReleaseLane(next: PrinterPc)
      requires Configured() && LanesOk() && printerPc.P_RELEASE? && (next == P_NEXT || next == P_DONE) && resultNumber >= 1
      modifies `resultLanes, `printerPc
      ensures LanesOk() && printerPc == next
      ensures Sum(problemLanes, solvers, resultLanes, n) == old(Sum(problemLanes, solvers, resultLanes, n)) - 1
    {
      hide LaneOk, Puzzles, Sum, Cost, ConsumerStep;
      var id := resultNumber % n;
      SidesOk(Puzzles(), n, cap, answer, id, popped, pushed, problemLanes[id], solvers[id], resultLanes[id]);
      var lane := ConsumerStep(resultLanes[id]);
      SumUpdate(problemLanes, solvers, resultLanes, n, id, problemLanes[id], solvers[id], lane);
      UnchangedToo(problemLanes, solvers, id);
      resultLanes := resultLanes[id := lane];
      printerPc := next;
    }

    method ShowResult(result: Item)
      requires Configured() && PrinterOk() && Shows() && printerPc == P_RELEASE(result)
      modifies this`endNumber, printer, printer.resultBuf
      ensures printer.Valid() && endNumber == Over(resultNumber, |Puzzles()|)
      ensures printer.Shown() == Text(AnswerLines(answer, Puzzles(), Least(resultNumber, |Puzzles()|)))
    {
      hide Puzzles, Text, AnswerLines;
      if result.Some? {
        MoreAnswers(answer, Puzzles(), resultNumber);
        printer.Emit(result.value);
      } else {
        endNumber := endNumber + 1;
      }
    }

    // ---------- whole runs ----------

    predicate Final()
      reads `namesPc, `readerPc, `solvers, `printerPc
    {
      && namesPc == N_DONE && readerPc == R_DONE && printerPc == P_DONE
      && forall id :: 0 <= id < |solvers| ==> solvers[id] == S_DONE
    }

    predicate Can(t: Thread)
      reads this
      requires n >= 1 && |problemLanes| == |solvers| == |resultLanes| == n
    {
      match t
      case NamesThread => NamesCan()
      case ReaderThread => ReaderCan()
      case SolverThread(id) => id < n && SolverCan(problemLanes[id], solvers[id], resultLanes[id])
      case PrinterThread => PrinterCan()
    }

    /** A step that is not the first of a vain look for a name. */
    predicate Useful(t: Thread)
      reads this
      requires n >= 1 && |problemLanes| == |solvers| == |resultLanes| == n
    {
      Can(t) && !(t == ReaderThread && readerPc == R_START && NoNameYet())
    }

    /** No deadlock: until everybody is done, somebody has a useful step. */
    lemma SomebodyCan()
      requires Valid() && !Final()
      ensures exists t :: Useful(t)
    {
      hide Puzzles, LaneFits, Shows, PrinterOk, SolverCan, HandOffOk, ReaderOk;
      if !exists t :: Useful(t) {
        assert !Useful(NamesThread) && !Useful(ReaderThread) && !Useful(PrinterThread);
        forall id: nat | id < n
          ensures !SolverCan(problemLanes[id], solvers[id], resultLanes[id])
        {
          assert !Useful(SolverThread(id));
        }
        EverybodyWaits();
        assert false;
      }
    }

    /** If nobody can take a useful step, everybody is done. */
    lemma EverybodyWaits()
      requires Valid() && !NamesCan() && !Useful(ReaderThread) && !PrinterCan()
      requires forall id: nat {:trigger solvers[id]} :: id < n ==> !SolverCan(problemLanes[id], solvers[id], resultLanes[id])
      ensures Final()
    {
      hide Puzzles, LaneOk, Shows, SolverCan, Stuck, Stream;
      assert namesPc == N_DONE;
      forall id: nat | id < n
        ensures Stuck(problemLanes[id], solvers[id], resultLanes[id])
      {
        LaneIsStuck(id);
      }
      var ps := Puzzles();
      if writing.Some? {
        var r := problemNumber % n;
        StuckReader(ps, n, cap, answer, r, popped, pushed, problemLanes[r], solvers[r], resultLanes[r]);
        StreamNonempty(ps, n, r, popped, pushed);
        PrinterStuckHere();
        assert false;
      }
      assert readerPc == R_DONE;
      if printerPc != P_DONE {
        PrinterStuckHere();
        assert false;
      }
      forall id: nat | id < n
        ensures solvers[id] == S_DONE
      {
        EmptyStream(ps, n, id, pushed);
        StuckSolver(ps, n, cap, answer, id, popped, pushed, problemLanes[id], solvers[id], resultLanes[id]);
        EveryLaneMarked(ps, n, id);
        MarkedHasEnded(ps, n, cap, answer, id, popped, pushed, problemLanes[id], solvers[id], resultLanes[id]);
      }
    }

    lemma LaneIsStuck(id: nat)
      requires Valid() && id < n && !Useful(ReaderThread) && !PrinterCan() && namesPc == N_DONE
      requires !SolverCan(problemLanes[id], solvers[id], resultLanes[id])
      ensures Stuck(problemLanes[id], solvers[id], resultLanes[id])
    {
      hide Puzzles, Shows, LaneOk, HandOffOk;
      LanePhases(Puzzles(), n, cap, answer, id, popped, pushed, problemLanes[id], solvers[id], resultLanes[id]);
      assert HandOffOk();
    }

    /** A printer that cannot move waits for an item the reader has not handed out yet. */
    lemma PrinterStuckHere()
      requires Valid() && printerPc != P_DONE && !PrinterCan()
      requires forall id: nat {:trigger solvers[id]} :: id < n ==> Stuck(problemLanes[id], solvers[id], resultLanes[id])
      ensures popped == pushed
    {
      hide Puzzles, LaneOk, Shows, SolverCan, Stuck, Stream, HandOffOk;
      var ps, q := Puzzles(), resultNumber % n;
      StuckPrinter(ps, n, cap, answer, q, popped, pushed, problemLanes[q], solvers[q], resultLanes[q]);
      WaitsForLater(ps, n, q, popped, pushed);
    }

    /** Thread t takes its next step. */
    method Step(t: Thread)
      requires Valid() && Can(t)
      modifies this, printer, printer.resultBuf
      ensures Valid() && pushed <= |Puzzles()| + n
      ensures !(t == ReaderThread && old(LooksInVain())) ==> Measure() < old(Measure())
      ensures Doomed() ==> old(Doomed()) || (t == ReaderThread && !old(Useful(t)))
      ensures t == ReaderThread && old(LooksInVain()) ==> readerPc == R_START
    {
      hide Puzzles, LanesOk, Shows, PrinterOk, HandOffOk, ReaderOk, SolverCan;
      match t {
        case NamesThread => StepNames();
        case ReaderThread => StepReader();
        case SolverThread(id) => StepSolver(id);
        case PrinterThread => StepPrinter();
      }
    }

    /** Any interleaving whatever: at every moment, what has been printed is the beginning of the right text. */
    method RunFor(schedule: seq<Thread>)
      requires Valid()
      modifies this, printer, printer.resultBuf
      ensures Valid() && printer.out <= Text(AnswerLines(answer, Puzzles(), |Puzzles()|))
    {
      hide Puzzles, LanesOk, PrinterOk, HandOffOk, ReaderOk, Can, Text, AnswerLines;
      for i := 0 to |schedule|
        invariant Valid()
      {
        LanesCounted();
        if Can(schedule[i]) {
          Step(schedule[i]);
        }
      }
      AnswersBegin(answer, Puzzles(), Least(Processed(), |Puzzles()|));
    }

    /** Some thread with a useful step. */
    method Choose() returns (t: Thread)
      requires Valid() && !Final()
      ensures n >= 1 && |problemLanes| == |solvers| == |resultLanes| == n && Useful(t)
    {
      hide Puzzles, LaneFits, Shows, PrinterOk, SolverCan, HandOffOk, ReaderOk;
      if NamesCan() {
        return NamesThread;
      }
      if Useful(ReaderThread) {
        return ReaderThread;
      }
      if PrinterCan() {
        return PrinterThread;
      }
      for id := 0 to n
        invariant forall j: nat {:trigger solvers[j]} :: j < id ==> !SolverCan(problemLanes[j], solvers[j], resultLanes[j])
      {
        if SolverCan(problemLanes[id], solvers[id], resultLanes[id]) {
          return SolverThread(id);
        }
      }
      SomebodyCan();
      assert false;
      t := NamesThread;
    }

    lemma VainIsDoomed()
      requires Valid() && LooksInVain()
      ensures Doomed()
    {
      hide Puzzles, LanesOk, Shows, PrinterOk, ReaderOk;
    }

    /** When everybody is done, every item that was handed out has been printed or counted. */
    lemma Drained()
      requires Valid() && Final()
      ensures forall id: nat {:trigger problemLanes[id]} :: id < n ==> problemLanes[id].queue == [] && resultLanes[id].queue == []
      ensures printer.out == Text(AnswerLines(answer, Puzzles(), |Puzzles()|)) && endNumber == n
    {
      hide Puzzles, LaneOk, HandOffOk, Text, AnswerLines;
      forall id: nat | id < n
        ensures problemLanes[id].queue == [] && resultLanes[id].queue == []
      {
        EmptyLane(Puzzles(), n, cap, answer, id, popped, problemLanes[id], solvers[id], resultLanes[id]);
      }
    }

    lemma LanesCounted()
      requires Valid()
      ensures n >= 1 && |problemLanes| == |solvers| == |resultLanes| == n && pushed <= |Puzzles()| + n
    {
    }

    /**
     Any complete run in which the reader looks for a name in vain at most patience times: it
     comes to an end, with every answer printed, each on its line, in the order of the puzzles.
     */
    method RunToEnd(patience: nat)
      requires Valid() && !Doomed()
      modifies this, printer, printer.resultBuf
      ensures Valid() && Final() && printer.out == Text(AnswerLines(answer, Puzzles(), |Puzzles()|))
      ensures |solvers| == |problemLanes| == |resultLanes| == n && endNumber == n
      ensures forall id: nat {:trigger problemLanes[id]} :: id < n ==> problemLanes[id].queue == [] && resultLanes[id].queue == []
    {
      hide Puzzles, LanesOk, PrinterOk, HandOffOk, ReaderOk, Can, Text, AnswerLines, LooksInVain, Measure;
      var vain := patience;
      LanesCounted();
      while !Final()
        invariant Valid() && pushed <= |Puzzles()| + n && (vain == 0 ==> !Doomed())
        decreases vain, Measure()
      {
        var t: Thread := *;
        LanesCounted();
        if !Can(t) || (vain == 0 && !Useful(t)) {
          t := Choose();
        }
        if t == ReaderThread && LooksInVain() {
          VainIsDoomed();
          vain := vain - 1;
        }
        Step(t);
      }
      LanesCounted();
      Drained();
    }
  }

  lemma NextPuzzle(ps: seq<string>, k: nat, todo: seq<string>, rest: seq<string>)
    requires k <= |ps| && ps[k..] == todo + rest && todo != []
    ensures k < |ps| && ps[k] == todo[0] && ps[k + 1..] == todo[1..] + rest
  {
    assert ps[k..][0] == todo[0];
    assert ps[k + 1..] == ps[k..][1..];
  }

  lemma EmptyLane(ps: seq<string>, n: nat, cap: nat, answer: string -> string, id: nat, k: nat,
                  problems: Channel<Item>, pc: SolverPc, results: Channel<Item>)
    requires LaneOk(ps, n, cap, answer, id, k, k, problems, pc, results)
    ensures problems.queue == [] && results.queue == []
  {
    hide NoMore, MarkerBy, ChannelOk, PhasesFit;
    assert Stream(ps, n, id, k, k) == [];
    assert |Answers(answer, problems.queue)| == |problems.queue|;
  }

  /** The text of the first answers is the beginning of the text of all. */
  lemma {:induction false} AnswersBegin(answer: string -> string, ps: seq<string>, k: nat)
    requires k <= |ps|
    ensures Text(AnswerLines(answer, ps, k)) <= Text(AnswerLines(answer, ps, |ps|))
    decreases |ps| - k
  {
    if k < |ps| {
      AnswersBegin(answer, ps, k + 1);
      MoreAnswers(answer, ps, k + 1);
    }
  }

  lemma MoreAnswers(answer: string -> string, ps: seq<string>, k: nat)
    requires 1 <= k <= |ps|
    ensures Text(AnswerLines(answer, ps, k)) == Text(AnswerLines(answer, ps, k - 1)) + answer(ps[k - 1]) + "\n"
  {
    assert AnswerLines(answer, ps, k) == AnswerLines(answer, ps, k - 1) + [answer(ps[k - 1])];
    TextMore(AnswerLines(answer, ps, k - 1), answer(ps[k - 1]));
  }

  lemma UnchangedToo(problems: seq<Channel<Item>>, pcs: seq<SolverPc>, id: nat)
    requires id < |problems| == |pcs|
    ensures problems[id := problems[id]] == problems && pcs[id := pcs[id]] == pcs
  {
  }

  lemma ConsumerPhases(ch: Channel<Item>)
    requires ConsumerCan(ch)
    ensures ch.c == WANT ==> ConsumerStep(ch).c == GOT
    ensures ch.c == GOT ==> ConsumerStep(ch).c == IN
    ensures ch.c == IN ==> ConsumerStep(ch).c == LEFT
    ensures ch.c == LEFT ==> ConsumerStep(ch).c == IDLE
  {
  }

  lemma ProducerPhases(ch: Channel<Item>, item: Item)
    requires ProducerCan(ch)
    ensures ch.p == WANT ==> ProducerStep(ch, item).p == GOT
    ensures ch.p == GOT ==> ProducerStep(ch, item).p == IN
    ensures ch.p == IN ==> ProducerStep(ch, item).p == LEFT
    ensures ch.p == LEFT ==> ProducerStep(ch, item).p == IDLE
  {
  }

  lemma Unchanged(pcs: seq<SolverPc>, results: seq<Channel<Item>>, id: nat)
    requires id < |pcs| == |results|
    ensures pcs[id := pcs[id]] == pcs && results[id := results[id]] == results
  {
  }

  // ---------- files ----------

  /** The puzzles the reader takes from each file, as ReadFile does. */
  function FilePuzzles(content: string -> string): string -> seq<string>
  {
    name => Lines(content(name), |content(name)| / STEP)
  }

  /** A file of whole lines of 82 bytes, none of them NUL. */
  ghost predicate WholeLines(text: string)
  {
    && |text| > 0 && |text| % STEP == 0
    && (forall i: nat {:trigger EndOfLine(i)} :: EndOfLine(i) < |text| ==> text[EndOfLine(i)] == '\n')
    && forall i :: 0 <= i < |text| ==> text[i] != '\0'
  }

  function Concat(content: string -> string, names: seq<string>): string
  {
    if names == [] then "" else content(names[0]) + Concat(content, names[1..])
  }

  lemma {:induction false} TextOfSum(a: seq<string>, b: seq<string>)
    ensures Text(a + b) == Text(a) + Text(b)
  {
    hide Text;
    if b == [] {
      assert a + b == a;
      EmptyText();
    } else {
      var init := b[..|b| - 1];
      TextOfSum(a, init);
      assert b == init + [b[|b| - 1]];
      assert a + b == (a + init) + [b[|b| - 1]];
      TextMore(a + init, b[|b| - 1]);
      TextMore(init, b[|b| - 1]);
    }
  }

  lemma OneFile(text: string)
    requires WholeLines(text)
    ensures AreLines(Lines(text, |text| / STEP)) && Text(Lines(text, |text| / STEP)) == text
  {
    hide Lines, Text, IsLine;
    var k := |text| / STEP;
    assert STEP * k == |text|;
    LinesOfText(text, k);
    forall i: nat | i < k
      ensures EndOfLine(i) < |text| && text[EndOfLine(i)] == '\n'
    {
    }
    LinesAreText(text, k);
  }

  lemma LinesTogether(a: seq<string>, b: seq<string>)
    requires AreLines(a) && AreLines(b)
    ensures AreLines(a + b)
  {
    hide IsLine;
  }

  /** The puzzles of all files are lines, and with their newlines they are the files. */
  lemma {:induction false} FilesAreLines(content: string -> string, names: seq<string>)
    requires forall name :: name in names ==> WholeLines(content(name))
    ensures AreLines(Flatten(FilePuzzles(content), names))
    ensures Text(Flatten(FilePuzzles(content), names)) == Concat(content, names)
  {
    hide Lines, Text, WholeLines, AreLines;
    if names == [] {
      EmptyText();
      NoLines();
    } else {
      var here, rest := FilePuzzles(content)(names[0]), Flatten(FilePuzzles(content), names[1..]);
      OneFile(content(names[0]));
      FilesAreLines(content, names[1..]);
      LinesTogether(here, rest);
      TextOfSum(here, rest);
    }
  }

  lemma NoLines()
    ensures AreLines([])
  {
  }

  /**
   The program on any files of whole lines, with any number of solvers, any capacity of the
   lanes and any batch size: it prints each puzzle's answer and a newline, in input order.
   */
  method SolveFiles(n: nat, cap: nat, batch: nat, names: seq<string>, content: string -> string, answer: string -> string,
                    patience: nat)
    returns (out: string)
    requires n >= 1 && cap >= 1 && batch >= 1
    requires forall name :: name in names ==> WholeLines(content(name))
    requires forall line {:trigger answer(line)} :: line in Flatten(FilePuzzles(content), names) ==> IsLine(answer(line))
    ensures var ps := Flatten(FilePuzzles(content), names);
            Text(ps) == Concat(content, names) && out == Text(AnswerLines(answer, ps, |ps|))
  {
    hide Flatten, Text, WholeLines, IsLine, AnswerLines;
    FilesAreLines(content, names);
    var p := new Pipeline(n, cap, batch, names, FilePuzzles(content), answer);
    p.Startable();
    p.RunToEnd(patience);
    out := p.printer.out;
  }

  /**
   The same for files of digits and an answer that is a solver's: every line printed completes
   the puzzle of the same number if that can be completed, and repeats it otherwise.
   */
  method SolvePuzzleFiles(n: nat, cap: nat, batch: nat, names: seq<string>, content: string -> string,
                          answer: string -> string, patience: nat)
    returns (out: string)
    requires n >= 1 && cap >= 1 && batch >= 1
    requires forall name :: name in names ==> WholeLines(content(name))
    requires forall line :: line in Flatten(FilePuzzles(content), names) ==> HasDigits(line)
    requires forall line {:trigger answer(line)} :: IsLine(line) && HasDigits(line) ==> Solves(line, answer(line))
    ensures var ps := Flatten(FilePuzzles(content), names);
            var lines := AnswerLines(answer, ps, |ps|);
            && Text(ps) == Concat(content, names) && out == Text(lines)
            && forall i {:trigger ps[i]} :: 0 <= i < |ps| ==> Solves(ps[i], lines[i])
  {
    hide Flatten, Text, WholeLines, Solves, IsLine, HasDigits;
    ghost var ps := Flatten(FilePuzzles(content), names);
    FilesAreLines(content, names);
    forall line | line in ps
      ensures IsLine(line) && IsLine(answer(line)) && Solves(line, answer(line))
    {
      assert Solves(line, answer(line));
      SolutionIsLine(line, answer(line));
    }
    out := SolveFiles(n, cap, batch, names, content, answer, patience);
  }

  lemma SolutionIsLine(line: string, result: string)
    requires IsLine(line) && Solves(line, result)
    ensures IsLine(result)
  {
    hide NoClash, Extends;
    if exists b :: IsCompletion(Clues(line), b) {
      assert IsFull(Clues(result));
      forall i | 0 <= i < |result|
        ensures result[i] != '\0'
      {
        assert Clues(result)[i] >= 1;
      }
    }
  }
}
