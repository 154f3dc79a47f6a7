/** What a run of commands and recoveries commits, command by command. */
module Histories {
  import opened Resp
  import opened Kv
  import opened Participants
  import opened RecoverySteps
  import opened ClusterSteps
  import opened LastWrites
  import opened Decimal
  import opened Wrappers

  /** The commands that are sent out to be committed. */
  predicate IsUpdate(cmd: seq<string>)
  {
    |cmd| >= 1 && cmd[0] in {"SET", "DEL"}
  }

  /**
   The commands of a run with their replies. base is what was committed before the run, and
   origin says of each entry committed since by which command it came.
   */
  datatype History = History(base: seq<string>, cmds: seq<seq<string>>, replies: seq<string>, origin: seq<nat>)

  /** The log is base and then the events of some of the updates, in their order, each at most once. */
  ghost predicate InOrder(h: History, log: seq<string>)
  {
    && |h.cmds| == |h.replies|
    && h.base <= log && |log| == |h.base| + |h.origin|
    && (forall i {:trigger h.origin[i]} :: 0 <= i < |h.origin| ==>
          h.origin[i] < |h.cmds| && IsUpdate(h.cmds[h.origin[i]]) && log[|h.base| + i] == ArrayMessage(h.cmds[h.origin[i]]))
    && (forall i, j :: 0 <= i < j < |h.origin| ==> h.origin[i] < h.origin[j])
  }

  /** The first command later than all committed ones. */
  function Next(h: History): nat
  {
    if h.origin == [] then 0 else h.origin[|h.origin| - 1] + 1
  }

  /** Command j is an update later than all committed ones and was answered by an error. */
  predicate Unanswered(h: History, j: nat)
    requires |h.cmds| == |h.replies|
  {
    Next(h) <= j < |h.cmds| && IsUpdate(h.cmds[j]) && h.replies[j] == ERROR_MESSAGE
  }

  /** A log longer than the committed one has one event more, that of such an update. */
  ghost predicate Explains(h: History, committed: seq<string>, log: seq<string>)
    requires |h.cmds| == |h.replies|
  {
    committed < log ==>
      exists j: nat {:trigger Unanswered(h, j)} :: Unanswered(h, j) && log == committed + [ArrayMessage(h.cmds[j])]
  }

  /** h after one more command, committed or not. */
  function Told(h: History, cmd: seq<string>, reply: string, committed: bool): History
  {
    History(h.base, h.cmds + [cmd], h.replies + [reply], if committed then h.origin + [|h.cmds|] else h.origin)
  }

  /** No more is committed than commands were given. */
  lemma {:induction false} FewCommitted(h: History, log: seq<string>, n: nat)
    requires InOrder(h, log) && n <= |h.origin|
    ensures n < |h.origin| ==> n <= h.origin[n]
    ensures n <= |h.cmds|
  {
    hide ArrayMessage;
    if n > 0 {
      FewCommitted(h, log, n - 1);
    }
  }

  lemma NextWithin(h: History, log: seq<string>)
    requires InOrder(h, log)
    ensures Next(h) <= |h.cmds|
  {
    hide ArrayMessage;
  }

  lemma AppendedOrigin(h: History, log: seq<string>, j: nat)
    requires InOrder(h, log) && Next(h) <= j < |h.cmds| && IsUpdate(h.cmds[j])
    ensures InOrder(h.(origin := h.origin + [j]), log + [ArrayMessage(h.cmds[j])])
  {
    hide ArrayMessage, IsUpdate;
    var h', log' := h.(origin := h.origin + [j]), log + [ArrayMessage(h.cmds[j])];
    forall i | 0 <= i < |h'.origin|
      ensures h'.origin[i] < |h.cmds| && IsUpdate(h.cmds[h'.origin[i]])
      ensures log'[|h.base| + i] == ArrayMessage(h.cmds[h'.origin[i]])
    {
      assert i < |h.origin| ==> h'.origin[i] == h.origin[i];
    }
  }

  lemma LongerHistory(h: History, log: seq<string>, cmd: seq<string>, reply: string)
    requires InOrder(h, log)
    ensures InOrder(Told(h, cmd, reply, false), log) && Next(Told(h, cmd, reply, false)) <= |h.cmds|
  {
    hide ArrayMessage, IsUpdate;
    var h' := Told(h, cmd, reply, false);
    forall i | 0 <= i < |h.origin|
      ensures h'.cmds[h.origin[i]] == h.cmds[h.origin[i]]
    {
    }
  }

  lemma CommandInOrder(h: History, log: seq<string>, cmd: seq<string>, reply: string, log': seq<string>)
    requires InOrder(h, log) && (log' == log || (IsUpdate(cmd) && log' == log + [ArrayMessage(cmd)]))
    ensures InOrder(Told(h, cmd, reply, log' != log), log')
  {
    hide ArrayMessage, IsUpdate, InOrder;
    LongerHistory(h, log, cmd, reply);
    if log' != log {
      AppendedOrigin(Told(h, cmd, reply, false), log, |h.cmds|);
    }
  }

  lemma CommandExplains(h: History, committed: seq<string>, cmd: seq<string>, reply: string, committed': seq<string>,
                        p0: Part, p: Part)
    requires |h.cmds| == |h.replies| && Next(h) <= |h.cmds| && Explains(h, committed, p0.log)
    requires committed' == committed || committed' == committed + [ArrayMessage(cmd)]
    requires GrownBy(p0, p, committed, ArrayMessage(cmd), IsUpdate(cmd) && (reply == ERROR_MESSAGE || committed' != committed))
    ensures Explains(Told(h, cmd, reply, committed' != committed), committed', p.log)
  {
    hide Accepted, ArrayMessage, IsUpdate;
    var h' := Told(h, cmd, reply, committed' != committed);
    if committed' < p.log {
      assert committed < p.log;
      if p == p0 {
        var j: nat :| Unanswered(h, j) && p0.log == committed + [ArrayMessage(h.cmds[j])];
        assert h'.cmds[j] == h.cmds[j] && h'.replies[j] == h.replies[j];
        assert Unanswered(h', j);
      } else {
        assert Unanswered(h', |h.cmds|);
      }
    }
  }

  /** h' accounts for more entries than h, all of them events of updates that were answered by an error. */
  ghost predicate TakenOver(h: History, h': History)
    requires |h.cmds| == |h.replies|
  {
    && h' == h.(origin := h'.origin) && h.origin <= h'.origin
    && forall i {:trigger h'.origin[i]} :: |h.origin| <= i < |h'.origin| ==>
         h'.origin[i] < |h.replies| && h.replies[h'.origin[i]] == ERROR_MESSAGE
  }

  lemma TakenOverAgain(h: History, h': History, h'': History)
    requires |h.cmds| == |h.replies| && TakenOver(h, h') && TakenOver(h', h'')
    ensures TakenOver(h, h'')
  {
    forall i | |h.origin| <= i < |h''.origin|
      ensures h''.origin[i] < |h.replies| && h.replies[h''.origin[i]] == ERROR_MESSAGE
    {
      assert i < |h'.origin| ==> h''.origin[i] == h'.origin[i];
    }
  }

  lemma SameCommands(h: History, h': History)
    requires |h.cmds| == |h.replies| && TakenOver(h, h')
    ensures h'.base == h.base && h'.cmds == h.cmds && h'.replies == h.replies
  {
  }

  /** A recovery takes over at most one event, of an update that was answered by an error. */
  lemma RecoveryInOrder(h: History, committed: seq<string>, best: seq<string>, committed': seq<string>)
    returns (h': History)
    requires InOrder(h, committed) && Explains(h, committed, best) && committed <= committed' <= best
    ensures TakenOver(h, h') && |h'.origin| <= |h.origin| + 1 && InOrder(h', committed')
    ensures committed' == committed ==> h' == h
    ensures committed' != committed ==> committed' == best
  {
    hide ArrayMessage, IsUpdate;
    if committed' == committed {
      return h;
    }
    var j: nat :| Unanswered(h, j) && best == committed + [ArrayMessage(h.cmds[j])];
    AppendedOrigin(h, committed, j);
    h' := h.(origin := h.origin + [j]);
  }

  lemma RecoveryExplains(h: History, committed: seq<string>, best: seq<string>, h': History, committed': seq<string>,
                         p0: Part, p: Part)
    requires |h.cmds| == |h.replies| && Explains(h, committed, best) && Explains(h, committed, p0.log)
    requires committed <= committed' <= best && Comparable(p0.log, best)
    requires |h'.cmds| == |h'.replies| && if committed' == committed then h' == h else committed' == best
    requires p.log <= best || p == p0 || p == FRESH
    ensures Explains(h', committed', p.log)
  {
    hide ArrayMessage, IsUpdate;
    if committed' < p.log && committed' == committed && p.log <= best {
      assert p.log == best;
    }
  }

  lemma AtMostOneMore(h: History, committed: seq<string>, log: seq<string>)
    requires |h.cmds| == |h.replies| && Explains(h, committed, log) && Comparable(log, committed)
    ensures |log| <= |committed| + 1
  {
    hide ArrayMessage, IsUpdate;
  }

  lemma FreshExplained(h: History, committed: seq<string>)
    requires |h.cmds| == |h.replies|
    ensures Explains(h, committed, FRESH.log)
  {
  }

  lemma LongestExplained(h: History, best: seq<string>, parts: map<nat, Part>, pstate: map<nat, PState>, committed: seq<string>)
    requires |h.cmds| == |h.replies| && pstate.Keys == parts.Keys && LongestOf(best, parts, pstate, committed)
    requires forall id {:trigger parts[id]} :: id in parts ==> Explains(h, committed, parts[id].log)
    ensures Explains(h, committed, best)
  {
    hide ArrayMessage, IsUpdate;
  }

  // ---------- the commands of a run, one by one ----------

  /**
   One command: the committed log before and after it, its reply, whether all logs agreed before
   and after it, and whether some participant was left with its event behind the log before it.
   */
  datatype Turn = Turn(before: seq<string>, reply: string, after: seq<string>, agreedBefore: bool, agreed: bool, held: bool)

  function Start(committed: seq<string>): Turn
  {
    Turn(committed, "", committed, true, true, false)
  }

  /** The command was committed, or no participant was left with its event. */
  predicate Clean(turn: Turn)
  {
    turn.after != turn.before || !turn.held
  }

  /**
   Each command behaves as on one store. What is committed between two commands is only what a
   recovery takes over, and that is nothing as long as the logs agree. They go on agreeing from
   one command to the next, and after it if and only if it was clean.
   */
  ghost predicate Story(start: Turn, cmds: seq<seq<string>>, turns: seq<Turn>)
    requires |turns| <= |cmds|
  {
    forall i {:trigger turns[i]} :: 0 <= i < |turns| ==>
      Continues(if i == 0 then start else turns[i - 1], cmds[i], turns[i])
  }

  ghost predicate Continues(prev: Turn, cmd: seq<string>, turn: Turn)
  {
    && prev.after <= turn.before && (prev.agreed ==> turn.agreedBefore && turn.before == prev.after)
    && Took(cmd, turn)
  }

  /** What one command does. */
  ghost predicate Took(cmd: seq<string>, turn: Turn)
  {
    && Answered(Replay(turn.before), cmd, turn.reply, Replay(turn.after))
    && (turn.after == turn.before ||
        (IsUpdate(cmd) && turn.reply != ERROR_MESSAGE && turn.after == turn.before + [ArrayMessage(cmd)]))
    && (turn.agreedBefore ==> (turn.agreed <==> Clean(turn)) && (turn.reply != ERROR_MESSAGE ==> turn.agreed))
  }

  lemma TookMeans(cmd: seq<string>, turn: Turn)
    requires Took(cmd, turn)
    ensures turn.before <= turn.after && (turn.reply == ERROR_MESSAGE ==> turn.after == turn.before)
    ensures |turn.after| == |turn.before| + if turn.after != turn.before then 1 else 0
    ensures turn.agreedBefore ==> (turn.agreed <==> Clean(turn))
  {
    hide Answered, Replay, ArrayMessage;
  }

  /**
   What a client reads from the reply to a command, in terms of what is committed: for GET the
   last write, for DEL how many of its keys had one, for SET that it was done.
   */
  ghost predicate ClientReads(cmd: seq<string>, committed: seq<string>, reply: string)
    requires |cmd| >= 1
  {
    && (cmd[0] == "GET" && |cmd| == 2 ==>
          ReadsAs(reply, match LastWrite(committed, cmd[1]) case Some(v) => v case None => "nil"))
    && (cmd[0] == "SET" && |cmd| == 3 ==> reply == "+OK\r\n")
    && (cmd[0] == "DEL" ==>
          reply != "" && reply[0] == ':' && Atoi(reply[1..]) == |Written(committed, cmd[1..])|)
  }

  /** So it is with every reply in a run that is no error. */
  lemma RepliesInRun(cmd: seq<string>, turn: Turn)
    requires Took(cmd, turn) && turn.reply != ERROR_MESSAGE && Printable(cmd) && |cmd| >= 1
    ensures ClientReads(cmd, turn.before, turn.reply)
  {
    hide Execute, Replay, ArrayMessage, ParseArray, LastWrite, Atoi, ReadsAs, RunEvent;
    var event := ArrayMessage(cmd);
    CommandReads(Replay(turn.before), cmd);
    PrintedEvent(cmd);
    var (db, reply) := Execute(Replay(turn.before), cmd);
    if cmd[0] == "GET" && |cmd| == 2 {
      GetReadsLastWrite(turn.before, event, cmd[1], db, reply);
    } else if cmd[0] == "SET" && |cmd| == 3 {
      SetAnswersOk(turn.before, event, cmd[1], db, reply);
    } else if cmd[0] == "DEL" {
      DelCounts(turn.before, event, db, reply);
    }
  }

  function Last(start: Turn, turns: seq<Turn>): Turn
  {
    if turns == [] then start else turns[|turns| - 1]
  }

  lemma StoryMore(start: Turn, cmds: seq<seq<string>>, turns: seq<Turn>, turn: Turn)
    requires |turns| < |cmds| && Story(start, cmds, turns) && Continues(Last(start, turns), cmds[|turns|], turn)
    ensures Story(start, cmds, turns + [turn])
  {
    hide Continues;
    var more := turns + [turn];
    forall i | 0 <= i < |more|
      ensures Continues(if i == 0 then start else more[i - 1], cmds[i], more[i])
    {
      if i < |turns| {
        assert more[i] == turns[i];
        assert Continues(if i == 0 then start else turns[i - 1], cmds[i], turns[i]);
      }
    }
  }

  /** Turn j, and what it follows. */
  lemma TurnAt(start: Turn, cmds: seq<seq<string>>, turns: seq<Turn>, j: nat)
    requires |turns| <= |cmds| && Story(start, cmds, turns) && j < |turns|
    ensures var prev, turn := if j == 0 then start else turns[j - 1], turns[j];
            && |prev.after| <= |turn.before| <= |turn.after|
            && (turn.reply == ERROR_MESSAGE ==> turn.after == turn.before)
            && (prev.agreed ==> (turn.agreed <==> Clean(turn)))
  {
    hide Took, Clean;
    assert Continues(if j == 0 then start else turns[j - 1], cmds[j], turns[j]);
    TookMeans(cmds[j], turns[j]);
  }

  /** All logs agree after every command of the first n if and only if every one of them was clean. */
  lemma {:induction false} AgreedThroughout(start: Turn, cmds: seq<seq<string>>, turns: seq<Turn>, n: nat)
    requires |turns| <= |cmds| && n <= |turns| && Story(start, cmds, turns) && start.agreed
    ensures (forall i :: 0 <= i < n ==> turns[i].agreed) <==> (forall i :: 0 <= i < n ==> Clean(turns[i]))
    ensures (forall i :: 0 <= i < n ==> Clean(turns[i])) ==> Last(start, turns[..n]).agreed
  {
    hide Story, Clean;
    if n > 0 {
      AgreedThroughout(start, cmds, turns, n - 1);
      TurnAt(start, cmds, turns, n - 1);
    }
  }

  /** Every reply of a run that is no error reads as it should. */
  ghost predicate AllRead(cmds: seq<seq<string>>, turns: seq<Turn>)
    requires |turns| <= |cmds|
  {
    forall i {:trigger turns[i]} :: 0 <= i < |turns| && turns[i].reply != ERROR_MESSAGE && |cmds[i]| >= 1 ==>
      ClientReads(cmds[i], turns[i].before, turns[i].reply)
  }

  lemma StoryReads(start: Turn, cmds: seq<seq<string>>, turns: seq<Turn>)
    requires |turns| <= |cmds| && Story(start, cmds, turns)
    requires forall i {:trigger cmds[i]} :: 0 <= i < |cmds| ==> Printable(cmds[i])
    ensures AllRead(cmds, turns)
  {
    hide Took, ClientReads, Printable;
    forall i | 0 <= i < |turns| && turns[i].reply != ERROR_MESSAGE && |cmds[i]| >= 1
      ensures ClientReads(cmds[i], turns[i].before, turns[i].reply)
    {
      assert Continues(if i == 0 then start else turns[i - 1], cmds[i], turns[i]);
      RepliesInRun(cmds[i], turns[i]);
    }
  }

  // ---------- where the committed entries come from ----------

  /**
   Entry i of those committed since the start: its command committed it in its own turn, or was
   answered by an error then, without committing it, and a recovery took its event over later.
   */
  ghost predicate Sourced(h: History, turns: seq<Turn>, i: nat)
    requires i < |h.origin|
  {
    var j := h.origin[i];
    && j < |turns|
    && if turns[j].after != turns[j].before then |turns[j].before| == |h.base| + i
       else turns[j].reply == ERROR_MESSAGE && |turns[j].after| <= |h.base| + i
  }

  /** So it is with every entry, and whatever a command committed in its own turn is attributed to it. */
  ghost predicate AllSourced(h: History, turns: seq<Turn>, committed: seq<string>)
  {
    && (forall i {:trigger h.origin[i]} :: 0 <= i < |h.origin| ==> Sourced(h, turns, i))
    && (forall j {:trigger turns[j]} :: 0 <= j < |turns| ==>
          && turns[j].after <= committed
          && (turns[j].after != turns[j].before ==>
                && |h.base| <= |turns[j].before| < |h.base| + |h.origin|
                && h.origin[|turns[j].before| - |h.base|] == j))
  }

  lemma RecoverySourced(start: Turn, cmds: seq<seq<string>>, turns: seq<Turn>, h: History, h': History,
                        committed: seq<string>, committed': seq<string>)
    requires |turns| <= |cmds| && Story(start, cmds, turns) && AllSourced(h, turns, committed)
    requires InOrder(h, committed) && |h.cmds| == |turns| && TakenOver(h, h') && committed <= committed'
    requires forall j :: 0 <= j < |turns| ==> turns[j].reply == h.replies[j]
    ensures AllSourced(h', turns, committed')
  {
    hide Story, ArrayMessage, IsUpdate;
    forall i: nat | i < |h'.origin|
      ensures Sourced(h', turns, i)
    {
      if i < |h.origin| {
        assert h'.origin[i] == h.origin[i] && Sourced(h, turns, i);
      } else {
        TurnAt(start, cmds, turns, h'.origin[i]);
      }
    }
  }

  lemma CommandSourced(h: History, turns: seq<Turn>, cmd: seq<string>, turn: Turn)
    requires InOrder(h, turn.before) && |h.cmds| == |turns| && AllSourced(h, turns, turn.before) && Took(cmd, turn)
    ensures AllSourced(Told(h, cmd, turn.reply, turn.after != turn.before), turns + [turn], turn.after)
  {
    hide Took, ArrayMessage, IsUpdate;
    TookMeans(cmd, turn);
    var h', more := Told(h, cmd, turn.reply, turn.after != turn.before), turns + [turn];
    forall i: nat | i < |h'.origin|
      ensures Sourced(h', more, i)
    {
      if i < |h.origin| {
        assert h'.origin[i] == h.origin[i] && Sourced(h, turns, i);
      }
    }
    forall j | 0 <= j < |more|
      ensures more[j].after <= turn.after
      ensures more[j].after != more[j].before ==>
                && |h.base| <= |more[j].before| < |h.base| + |h'.origin|
                && h'.origin[|more[j].before| - |h.base|] == j
    {
      if j < |turns| {
        assert more[j] == turns[j];
      }
    }
  }

  /** Nothing is committed before its command is given. */
  lemma GivenBeforeCommitted(start: Turn, cmds: seq<seq<string>>, turns: seq<Turn>, h: History, committed: seq<string>,
                             i: nat, k: nat)
    requires |turns| <= |cmds| && Story(start, cmds, turns) && AllSourced(h, turns, committed)
    requires i < |h.origin| && k < |turns| && |h.base| + i < |turns[k].before|
    ensures h.origin[i] < k
  {
    hide Story, AllSourced;
    assert Sourced(h, turns, i) by {
      SourcedAt(h, turns, committed, i);
    }
    if k <= h.origin[i] {
      Grows(start, cmds, turns, k, h.origin[i]);
    }
  }

  lemma SourcedAt(h: History, turns: seq<Turn>, committed: seq<string>, i: nat)
    requires AllSourced(h, turns, committed) && i < |h.origin|
    ensures Sourced(h, turns, i)
  {
    assert h.origin[i] == h.origin[i];
  }

  lemma {:induction false} Grows(start: Turn, cmds: seq<seq<string>>, turns: seq<Turn>, k: nat, j: nat)
    requires |turns| <= |cmds| && Story(start, cmds, turns) && k <= j < |turns|
    ensures |turns[k].before| <= |turns[j].before| <= |turns[j].after|
  {
    hide Story, Clean;
    TurnAt(start, cmds, turns, j);
    if k < j {
      Grows(start, cmds, turns, k, j - 1);
    }
  }
}
