/** One lane of the solving pipeline: its problem queue, its solver and its result queue (Lab1/solverManager.cpp). */
module LaneSteps {
  import opened Wrappers
  import opened Locks
  import opened Remainders

  /** A puzzle or answer, or the end marker. */
  type Item = Option<string>

  // ---------- which items belong to a lane ----------

  /** The k-th item the reader hands out, counting from 1: the puzzles, then end markers. */
  function ItemAt(ps: seq<string>, k: nat): Item
    requires k >= 1
  {
    if k <= |ps| then Some(ps[k - 1]) else None
  }

  predicate Goes(k: nat, n: nat, id: nat)
    requires n >= 1
  {
    k % n == id
  }

  /** The items of lane id among those numbered from + 1 to to. */
  function Stream(ps: seq<string>, n: nat, id: nat, from: nat, to: nat): (s: seq<Item>)
    requires n >= 1 && from <= to
  {
    if from == to then []
    else Stream(ps, n, id, from, to - 1) + if Goes(to, n, id) then [ItemAt(ps, to)] else []
  }

  lemma {:induction false} StreamFront(ps: seq<string>, n: nat, id: nat, from: nat, to: nat)
    requires n >= 1 && from < to
    ensures Stream(ps, n, id, from, to) ==
            (if Goes(from + 1, n, id) then [ItemAt(ps, from + 1)] else []) + Stream(ps, n, id, from + 1, to)
  {
    if from + 1 < to {
      StreamFront(ps, n, id, from, to - 1);
    } else {
      assert Stream(ps, n, id, from, from) == [];
    }
  }

  /** After number k no further item goes to lane id. */
  ghost predicate NoMore(ps: seq<string>, n: nat, id: nat, k: nat)
    requires n >= 1
  {
    forall j: nat {:trigger Goes(j, n, id)} :: k < j <= |ps| + n ==> !Goes(j, n, id)
  }

  /** Lane id's end marker is among the first k items. */
  ghost predicate MarkerBy(ps: seq<string>, n: nat, id: nat, k: nat)
    requires n >= 1
  {
    exists j: nat {:trigger Goes(j, n, id)} :: |ps| < j <= k && Goes(j, n, id)
  }

  /** The end markers reach every lane. */
  lemma EveryLaneMarked(ps: seq<string>, n: nat, id: nat)
    requires n >= 1 && id < n
    ensures MarkerBy(ps, n, id, |ps| + n)
  {
    var j := EveryResidue(n, id, |ps|);
    assert Goes(j, n, id);
  }

  lemma {:induction false} EveryResidue(n: nat, id: nat, base: nat) returns (j: nat)
    requires n >= 1 && id < n
    ensures base < j <= base + n && j % n == id
  {
    if base == 0 {
      j := if id == 0 then n else id;
    } else {
      j := EveryResidue(n, id, base - 1);
      if j == base {
        NextRound(n, j);
        j := j + n;
      }
    }
  }

  lemma MarkerIsLast(ps: seq<string>, n: nat, id: nat, k: nat)
    requires n >= 1 && k > |ps| && Goes(k, n, id)
    ensures NoMore(ps, n, id, k)
  {
    forall j: nat | k < j <= |ps| + n
      ensures !Goes(j, n, id)
    {
      NearDiffer(n, k, j);
    }
  }

  /** A marker is the last item of its lane. */
  lemma {:induction false} MarkerEndsStream(ps: seq<string>, n: nat, id: nat, from: nat, to: nat, i: nat)
    requires n >= 1 && from <= to <= |ps| + n && i < |Stream(ps, n, id, from, to)| && Stream(ps, n, id, from, to)[i] == None
    ensures i == |Stream(ps, n, id, from, to)| - 1 && NoMore(ps, n, id, to)
  {
    if Goes(to, n, id) {
      if i < |Stream(ps, n, id, from, to)| - 1 {
        MarkerEndsStream(ps, n, id, from, to - 1, i);
      } else {
        MarkerIsLast(ps, n, id, to);
      }
    } else {
      MarkerEndsStream(ps, n, id, from, to - 1, i);
    }
  }

  // ---------- answers ----------

  function Answer(answer: string -> string, item: Item): Item
  {
    match item
    case None => None
    case Some(problem) => Some(answer(problem))
  }

  function Answers(answer: string -> string, items: seq<Item>): (s: seq<Item>)
    ensures |s| == |items|
  {
    seq(|items|, i requires 0 <= i < |items| => Answer(answer, items[i]))
  }

  lemma AnswersOfSum(answer: string -> string, a: seq<Item>, b: seq<Item>)
    ensures Answers(answer, a + b) == Answers(answer, a) + Answers(answer, b)
  {
  }

  // ---------- one lane ----------

  /** Where a solver is: taking a problem, giving the slot back, solving, putting the answer, done. */
  datatype SolverPc = S_TAKE | S_RELEASE(item: Item) | S_WORK(item: Item) | S_PUT(item: Item) | S_PUSHED(item: Item) | S_DONE

  function Held(answer: string -> string, pc: SolverPc): seq<Item>
  {
    match pc
    case S_TAKE => []
    case S_RELEASE(item) => [Answer(answer, item)]
    case S_WORK(item) => [Answer(answer, item)]
    case S_PUT(item) => [item]
    case S_PUSHED(_) => []
    case S_DONE => []
  }

  /** How the solver's place in solveManager and the phases of its two locks fit together. */
  predicate PhasesFit(pc: SolverPc, take: Phase, put: Phase)
  {
    match pc
    case S_TAKE => (take == WANT || take == GOT || take == IN) && put == IDLE
    case S_RELEASE(_) => take == LEFT && put == IDLE
    case S_WORK(_) => take == IDLE && put == IDLE
    case S_PUT(_) => take == IDLE && (put == WANT || put == GOT || put == IN)
    case S_PUSHED(_) => take == IDLE && put == LEFT
    case S_DONE => take == IDLE && put == IDLE
  }

  predicate Ended(pc: SolverPc)
  {
    pc == S_DONE || pc == S_PUSHED(None)
  }

  /** Answered, held and waiting items of the lane are, in this order, its items from popped + 1 to pushed. */
  ghost predicate LaneOk(ps: seq<string>, n: nat, cap: nat, answer: string -> string, id: nat, popped: nat, pushed: nat,
                         problems: Channel<Item>, pc: SolverPc, results: Channel<Item>)
  {
    && n >= 1 && popped <= pushed <= |ps| + n
    && ChannelOk(problems, cap) && ChannelOk(results, cap) && PhasesFit(pc, problems.c, results.p)
    && results.queue + Held(answer, pc) + Answers(answer, problems.queue) == Answers(answer, Stream(ps, n, id, popped, pushed))
    && (Ended(pc) ==> problems.queue == [] && NoMore(ps, n, id, pushed))
    && (None in results.queue || MarkerBy(ps, n, id, popped) ==> Ended(pc))
  }

  predicate SolverCan(problems: Channel<Item>, pc: SolverPc, results: Channel<Item>)
  {
    match pc
    case S_TAKE => ConsumerCan(problems)
    case S_RELEASE(_) => ConsumerCan(problems)
    case S_WORK(_) => true
    case S_PUT(_) => ProducerCan(results)
    case S_PUSHED(_) => ProducerCan(results)
    case S_DONE => false
  }

  /** The next step of solveManager. */
  function SolverStep(answer: string -> string, problems: Channel<Item>, pc: SolverPc, results: Channel<Item>)
    : (Channel<Item>, SolverPc, Channel<Item>)
    requires SolverCan(problems, pc, results)
  {
    match pc
    case S_TAKE =>
      (ConsumerStep(problems), if problems.c == IN then S_RELEASE(problems.queue[0]) else S_TAKE, results)
    case S_RELEASE(item) => (ConsumerStep(problems), S_WORK(item), results)
    case S_WORK(item) => (problems, S_PUT(Answer(answer, item)), results.(p := WANT))
    case S_PUT(item) => (problems, if results.p == IN then S_PUSHED(item) else S_PUT(item), ProducerStep(results, item))
    case S_PUSHED(item) =>
      if item == None then (problems, S_DONE, ProducerStep(results, item))
      else (problems.(c := WANT), S_TAKE, ProducerStep(results, item))
    case S_DONE => (problems, pc, results)
  }

  /** What is left to do in the lane, counted in steps. */
  function Cost(problems: Channel<Item>, pc: SolverPc, results: Channel<Item>): nat
  {
    Rank(problems.p) + Rank(problems.c) + Rank(results.p) + Rank(results.c) + 15 * |problems.queue| + 5 * |results.queue|
    + match pc
      case S_TAKE => 0
      case S_RELEASE(_) => 15
      case S_WORK(_) => 15
      case S_PUT(_) => 10
      case S_PUSHED(_) => 5
      case S_DONE => 0
  }

  /** A solver's step keeps its lane in order and is progress; the other sides of its buffers see nothing but the buffers. */
  lemma SolverStepOk(ps: seq<string>, n: nat, cap: nat, answer: string -> string, id: nat, popped: nat, pushed: nat,
                     problems: Channel<Item>, pc: SolverPc, results: Channel<Item>)
    requires LaneOk(ps, n, cap, answer, id, popped, pushed, problems, pc, results) && SolverCan(problems, pc, results)
    ensures var (problems', pc', results') := SolverStep(answer, problems, pc, results);
            && LaneOk(ps, n, cap, answer, id, popped, pushed, problems', pc', results')
            && problems'.p == problems.p && results'.c == results.c
            && Cost(problems', pc', results') < Cost(problems, pc, results)
  {
    hide *;
    if pc.S_TAKE? || pc.S_RELEASE? || pc.S_WORK? {
      SolverTakesOk(ps, n, cap, answer, id, popped, pushed, problems, pc, results);
    } else {
      SolverPutsOk(ps, n, cap, answer, id, popped, pushed, problems, pc, results);
    }
  }

  lemma SolverTakesOk(ps: seq<string>, n: nat, cap: nat, answer: string -> string, id: nat, popped: nat, pushed: nat,
                     problems: Channel<Item>, pc: SolverPc, results: Channel<Item>)
    requires LaneOk(ps, n, cap, answer, id, popped, pushed, problems, pc, results) && SolverCan(problems, pc, results)
    requires pc.S_TAKE? || pc.S_RELEASE? || pc.S_WORK?
    ensures var (problems', pc', results') := SolverStep(answer, problems, pc, results);
            && LaneOk(ps, n, cap, answer, id, popped, pushed, problems', pc', results')
            && problems'.p == problems.p && results'.c == results.c
            && Cost(problems', pc', results') < Cost(problems, pc, results)
  {
    hide NoMore, Stream, Answers, Answer, MarkerBy;
    ConsumerKeeps(problems, cap);
    if pc == S_TAKE && problems.c == IN {
      AnswersOfSum(answer, [problems.queue[0]], problems.queue[1..]);
      AnswersOfOne(answer, problems.queue[0]);
      assert problems.queue == [problems.queue[0]] + problems.queue[1..];
    }
  }

  lemma SolverPutsOk(ps: seq<string>, n: nat, cap: nat, answer: string -> string, id: nat, popped: nat, pushed: nat,
                     problems: Channel<Item>, pc: SolverPc, results: Channel<Item>)
    requires LaneOk(ps, n, cap, answer, id, popped, pushed, problems, pc, results) && SolverCan(problems, pc, results)
    requires pc.S_PUT? || pc.S_PUSHED? || pc.S_DONE?
    ensures var (problems', pc', results') := SolverStep(answer, problems, pc, results);
            && LaneOk(ps, n, cap, answer, id, popped, pushed, problems', pc', results')
            && problems'.p == problems.p && results'.c == results.c
            && Cost(problems', pc', results') < Cost(problems, pc, results)
  {
    hide NoMore, Stream, Answers, Answer, MarkerBy, ItemAt, Goes;
    if !pc.S_DONE? {
      ProducerKeeps(results, cap, pc.item);
    }
    if pc == S_PUT(None) && results.p == IN {
      MarkerEnds(ps, n, answer, id, popped, pushed, results.queue, Answers(answer, problems.queue));
      AnswersLength(answer, problems.queue);
    }
  }

  lemma AnswersOfOne(answer: string -> string, item: Item)
    ensures Answers(answer, [item]) == [Answer(answer, item)]
  {
  }

  lemma AnswersLength(answer: string -> string, items: seq<Item>)
    ensures |Answers(answer, items)| == |items|
  {
  }

  /** An end marker in a lane's stream has nothing behind it, now or later. */
  lemma MarkerEnds(ps: seq<string>, n: nat, answer: string -> string, id: nat, from: nat, to: nat,
                   before: seq<Item>, after: seq<Item>)
    requires n >= 1 && from <= to <= |ps| + n
    requires before + [None] + after == Answers(answer, Stream(ps, n, id, from, to))
    ensures after == [] && NoMore(ps, n, id, to)
  {
    hide NoMore, Stream;
    var s := Stream(ps, n, id, from, to);
    assert Answers(answer, s)[|before|] == None;
    assert Answer(answer, s[|before|]) == None;
    MarkerEndsStream(ps, n, id, from, to, |before|);
  }

  // ---------- the reader's and the printer's side of a lane ----------

  /** The reader's step at the lane of item number k, which it is writing. */
  lemma ReaderStepOk(ps: seq<string>, n: nat, cap: nat, answer: string -> string, id: nat, popped: nat, k: nat,
                     problems: Channel<Item>, pc: SolverPc, results: Channel<Item>)
    requires n >= 1 && k >= 1 && problems.p != IDLE && ProducerCan(problems) && Goes(k, n, id) && k <= |ps| + n
    requires LaneOk(ps, n, cap, answer, id, popped, if problems.p == LEFT then k else k - 1, problems, pc, results)
    ensures var problems' := ProducerStep(problems, ItemAt(ps, k));
            && LaneOk(ps, n, cap, answer, id, popped, if problems.p == LEFT || problems'.p == LEFT then k else k - 1,
                      problems', pc, results)
            && problems'.c == problems.c
            && Cost(problems', pc, results) < Cost(problems, pc, results) + if problems.p == IN then 15 else 0
  {
    ProducerKeeps(problems, cap, ItemAt(ps, k));
    if problems.p == IN {
      assert Goes(k, n, id);
      AnswersOfSum(answer, problems.queue, [ItemAt(ps, k)]);
      AnswersOfSum(answer, Stream(ps, n, id, popped, k - 1), [ItemAt(ps, k)]);
    }
  }

  /** A lane the pushed item does not belong to stays as it is. */
  lemma OthersPushed(ps: seq<string>, n: nat, cap: nat, answer: string -> string, id: nat, popped: nat, pushed: nat,
                     problems: Channel<Item>, pc: SolverPc, results: Channel<Item>)
    requires LaneOk(ps, n, cap, answer, id, popped, pushed, problems, pc, results)
    requires pushed < |ps| + n && !Goes(pushed + 1, n, id)
    ensures LaneOk(ps, n, cap, answer, id, popped, pushed + 1, problems, pc, results)
  {
  }

  /** The printer's step at the lane of result number k, which it is waiting for. */
  lemma PrinterStepOk(ps: seq<string>, n: nat, cap: nat, answer: string -> string, id: nat, k: nat, pushed: nat,
                      problems: Channel<Item>, pc: SolverPc, results: Channel<Item>)
    requires n >= 1 && k >= 1 && ConsumerCan(results) && results.c != LEFT && Goes(k, n, id)
    requires LaneOk(ps, n, cap, answer, id, k - 1, pushed, problems, pc, results)
    ensures var results' := ConsumerStep(results);
            && (results.c != IN ==> LaneOk(ps, n, cap, answer, id, k - 1, pushed, problems, pc, results'))
            && (results.c == IN ==> k - 1 < pushed && results.queue[0] == Answer(answer, ItemAt(ps, k)) &&
                                    LaneOk(ps, n, cap, answer, id, k, pushed, problems, pc, results'))
            && results'.p == results.p
            && Cost(problems, pc, results') + (if results.c == IN then 5 else 0) < Cost(problems, pc, results)
  {
    hide NoMore, Stream, Held, Answer, Answers, MarkerBy, ItemAt, Goes;
    ConsumerKeeps(results, cap);
    if results.c == IN {
      PrinterTakesOk(ps, n, cap, answer, id, k, pushed, problems, pc, results);
    }
  }

  lemma PrinterTakesOk(ps: seq<string>, n: nat, cap: nat, answer: string -> string, id: nat, k: nat, pushed: nat,
                       problems: Channel<Item>, pc: SolverPc, results: Channel<Item>)
    requires n >= 1 && k >= 1 && ConsumerCan(results) && results.c == IN && Goes(k, n, id)
    requires LaneOk(ps, n, cap, answer, id, k - 1, pushed, problems, pc, results)
    ensures k - 1 < pushed && results.queue[0] == Answer(answer, ItemAt(ps, k))
    ensures LaneOk(ps, n, cap, answer, id, k, pushed, problems, pc, ConsumerStep(results))
  {
    hide NoMore, Stream, Held, Answer, Answers, MarkerBy, ItemAt, Goes;
    ConsumerKeeps(results, cap);
    var s, rest := Stream(ps, n, id, k - 1, pushed), Held(answer, pc) + Answers(answer, problems.queue);
    assert results.queue + rest == Answers(answer, s);
    EmptyStream(ps, n, id, pushed);
    StreamFront(ps, n, id, k - 1, pushed);
    AnswersOfSum(answer, [ItemAt(ps, k)], Stream(ps, n, id, k, pushed));
    AnswersOfOne(answer, ItemAt(ps, k));
    TailOfSum(results.queue, rest, Answer(answer, ItemAt(ps, k)), Answers(answer, Stream(ps, n, id, k, pushed)));
    assert results.queue[1..] + Held(answer, pc) + Answers(answer, problems.queue) == results.queue[1..] + rest;
    if MarkerBy(ps, n, id, k) {
      MarkerNext(ps, n, answer, id, k);
    }
  }

  lemma MarkerNext(ps: seq<string>, n: nat, answer: string -> string, id: nat, k: nat)
    requires n >= 1 && k >= 1 && MarkerBy(ps, n, id, k)
    ensures MarkerBy(ps, n, id, k - 1) || Answer(answer, ItemAt(ps, k)) == None
  {
    var j: nat :| |ps| < j <= k && Goes(j, n, id);
    assert j < k ==> MarkerBy(ps, n, id, k - 1);
  }

  lemma EmptyStream(ps: seq<string>, n: nat, id: nat, k: nat)
    requires n >= 1
    ensures Stream(ps, n, id, k, k) == []
  {
  }

  lemma TailOfSum(a: seq<Item>, b: seq<Item>, x: Item, s: seq<Item>)
    requires a != [] && a + b == [x] + s
    ensures a[0] == x && a[1..] + b == s
  {
    assert a[0] == (a + b)[0];
    assert a[1..] + b == (a + b)[1..];
  }

  lemma OthersPopped(ps: seq<string>, n: nat, cap: nat, answer: string -> string, id: nat, popped: nat, pushed: nat,
                     problems: Channel<Item>, pc: SolverPc, results: Channel<Item>)
    requires LaneOk(ps, n, cap, answer, id, popped, pushed, problems, pc, results)
    requires popped < pushed && !Goes(popped + 1, n, id)
    ensures LaneOk(ps, n, cap, answer, id, popped + 1, pushed, problems, pc, results)
  {
    hide NoMore;
    StreamFront(ps, n, id, popped, pushed);
  }

  /** Reader and printer may begin to wait, and the printer may give its slot back. */
  lemma SidesOk(ps: seq<string>, n: nat, cap: nat, answer: string -> string, id: nat, popped: nat, pushed: nat,
                problems: Channel<Item>, pc: SolverPc, results: Channel<Item>)
    requires LaneOk(ps, n, cap, answer, id, popped, pushed, problems, pc, results)
    ensures problems.p == IDLE ==>
              LaneOk(ps, n, cap, answer, id, popped, pushed, problems.(p := WANT), pc, results) &&
              Cost(problems.(p := WANT), pc, results) == Cost(problems, pc, results) + 4
    ensures results.c == IDLE ==>
              LaneOk(ps, n, cap, answer, id, popped, pushed, problems, pc, results.(c := WANT)) &&
              Cost(problems, pc, results.(c := WANT)) == Cost(problems, pc, results) + 4
    ensures results.c == LEFT ==>
              ConsumerCan(results) && ConsumerStep(results).c == IDLE && ConsumerStep(results).p == results.p &&
              LaneOk(ps, n, cap, answer, id, popped, pushed, problems, pc, ConsumerStep(results)) &&
              Cost(problems, pc, ConsumerStep(results)) == Cost(problems, pc, results) - 1
  {
    hide Stream, NoMore, MarkerBy, Answers, Answer;
  }

  // ---------- waiting ----------

  /** Nothing can move in the lane. */
  predicate Stuck(problems: Channel<Item>, pc: SolverPc, results: Channel<Item>)
  {
    && !ProducerCan(problems) && !ConsumerCan(problems) && !ProducerCan(results) && !ConsumerCan(results)
    && !SolverCan(problems, pc, results)
  }

  /** In a stuck lane a waiting reader faces a solver stopped by a full result queue, or one that has ended. */
  lemma StuckReader(ps: seq<string>, n: nat, cap: nat, answer: string -> string, id: nat, popped: nat, pushed: nat,
                    problems: Channel<Item>, pc: SolverPc, results: Channel<Item>)
    requires LaneOk(ps, n, cap, answer, id, popped, pushed, problems, pc, results) && cap >= 1
    requires Stuck(problems, pc, results) && problems.p != IDLE
    ensures popped <= pushed && results.c == IDLE && |Stream(ps, n, id, popped, pushed)| > 0
  {
    hide Stream, NoMore, MarkerBy;
    StuckMeans(problems, cap);
    StuckMeans(results, cap);
    assert |Answers(answer, Stream(ps, n, id, popped, pushed))| == |Stream(ps, n, id, popped, pushed)|;
  }

  /** In a stuck lane a waiting printer has nothing to wait for that is already on its way. */
  lemma StuckPrinter(ps: seq<string>, n: nat, cap: nat, answer: string -> string, id: nat, popped: nat, pushed: nat,
                     problems: Channel<Item>, pc: SolverPc, results: Channel<Item>)
    requires LaneOk(ps, n, cap, answer, id, popped, pushed, problems, pc, results) && cap >= 1
    requires Stuck(problems, pc, results) && results.c != IDLE
    ensures popped <= pushed && Stream(ps, n, id, popped, pushed) == [] && problems.p == IDLE
  {
    hide Stream, NoMore, MarkerBy;
    StuckMeans(problems, cap);
    StuckMeans(results, cap);
    assert |Answers(answer, Stream(ps, n, id, popped, pushed))| == |Stream(ps, n, id, popped, pushed)|;
  }

  /** A solver that waits when both neighbours are through with its lane has ended. */
  lemma StuckSolver(ps: seq<string>, n: nat, cap: nat, answer: string -> string, id: nat, popped: nat, pushed: nat,
                    problems: Channel<Item>, pc: SolverPc, results: Channel<Item>)
    requires LaneOk(ps, n, cap, answer, id, popped, pushed, problems, pc, results) && cap >= 1
    requires Stuck(problems, pc, results) && problems.p == IDLE && results.c == IDLE
    requires Stream(ps, n, id, popped, pushed) == []
    ensures pc == S_DONE || pc == S_TAKE
  {
    hide Stream, NoMore, MarkerBy;
    StuckMeans(problems, cap);
    StuckMeans(results, cap);
  }

  lemma StreamNonempty(ps: seq<string>, n: nat, id: nat, from: nat, to: nat)
    requires n >= 1 && from <= to && Stream(ps, n, id, from, to) != []
    ensures from < to
  {
  }

  /** If nothing of the next item's lane is on its way, that item has not been handed out. */
  lemma WaitsForLater(ps: seq<string>, n: nat, id: nat, popped: nat, pushed: nat)
    requires n >= 1 && popped <= pushed && Goes(popped + 1, n, id) && Stream(ps, n, id, popped, pushed) == []
    ensures popped == pushed
  {
    if popped < pushed {
      StreamFront(ps, n, id, popped, pushed);
    }
  }

  lemma MarkedHasEnded(ps: seq<string>, n: nat, cap: nat, answer: string -> string, id: nat, popped: nat, pushed: nat,
                       problems: Channel<Item>, pc: SolverPc, results: Channel<Item>)
    requires LaneOk(ps, n, cap, answer, id, popped, pushed, problems, pc, results) && MarkerBy(ps, n, id, popped)
    ensures Ended(pc)
  {
  }

  /** A solver that cannot move leaves both its buffers alone. */
  lemma LanePhases(ps: seq<string>, n: nat, cap: nat, answer: string -> string, id: nat, popped: nat, pushed: nat,
                   problems: Channel<Item>, pc: SolverPc, results: Channel<Item>)
    requires LaneOk(ps, n, cap, answer, id, popped, pushed, problems, pc, results) && !SolverCan(problems, pc, results)
    ensures !ConsumerCan(problems) && !ProducerCan(results) && popped <= pushed <= |ps| + n
  {
    hide Stream, NoMore, MarkerBy, Answers;
  }
}
