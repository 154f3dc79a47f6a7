/** The participant of Lab3/src/participant.cc: its transaction counter, log and store. */
module Participants {
  import opened Wrappers
  import opened Decimal
  import opened Resp
  import opened LogText
  import opened Kv
  import opened Cycles

  const SUPER_TXID: nat := 0
  const RECOVERY_TXID: nat := 1
  const ASK_DATA_TXID: nat := 2
  const TXID_START: nat := 5

  /** A participant's memory: the committed events, oldest first, and the store. */
  datatype Part = Part(log: seq<string>, db: Store)

  const FRESH: Part := Part([], map[])

  /** _TXID: the transaction the participant expects next. */
  function Txid(p: Part): nat
  {
    TXID_START + |p.log|
  }

  /** pWorker on a parsed record: the new memory and the reply; None where the process aborts. */
  function Handle(p: Part, l: Log): Option<(Part, string)>
  {
    if l.id == SUPER_TXID then
      match RunEvent(p.db, l.event)
      case None => None
      case Some((db, reply)) => Some((p.(db := db), reply))
    else if l.id == RECOVERY_TXID then Some((p, Digits(Txid(p) - 1)))
    else if l.id == ASK_DATA_TXID then
      var tid := ToUnsigned(Strtol(l.event), TWO_64);
      if tid >= Txid(p) then Some((p, ""))
      else if tid < TXID_START then None
      else Some((p, LogToStr(Log(tid, LOG_COMMIT, p.log[tid - TXID_START]))))
    else if l.id == Txid(p) && l.state == LOG_PRE then Some((p, "PRE"))
    else if l.id == Txid(p) && l.state == LOG_COMMIT then
      match RunEvent(p.db, l.event)
      case None => None
      case Some((db, reply)) =>
        Some((Part(if reply != ERROR_MESSAGE then p.log + [l.event] else p.log, db), reply))
    else Some((p, ERROR_MESSAGE))
  }

  function Work(p: Part, task: string): Option<(Part, string)>
  {
    match StrToLog(task)
    case None => None
    case Some(l) => Handle(p, l)
  }

  /** The events of the first n transactions in lg. */
  function Events(lg: map<nat, Log>, n: nat): (s: seq<string>)
    ensures |s| == n && forall i :: 0 <= i < n && TXID_START + i in lg ==> s[i] == lg[TXID_START + i].event
  {
    seq(n, i requires 0 <= i < n => if TXID_START + i in lg then lg[TXID_START + i].event else "")
  }

  lemma EventsMore(lg: map<nat, Log>, n: nat, l: Log)
    ensures Events(lg[TXID_START + n := l], n) == Events(lg, n)
    ensures Events(lg[TXID_START + n := l], n + 1) == Events(lg, n) + [l.event]
  {
  }

  class Participant {
    var txid: nat
    var lg: map<nat, Log>
    const kvdb: KV

    /** The log holds exactly the ids from TXID_START to _TXID - 1, each under its own id. */
    ghost predicate Valid()
      reads this
    {
      && txid >= TXID_START
      && (forall t {:trigger t in lg} :: t in lg <==> TXID_START <= t < txid)
      && (forall t {:trigger lg[t]} :: t in lg ==> lg[t].id == t && lg[t].state == LOG_COMMIT)
    }

    ghost function Memory(): Part
      reads this, kvdb
      requires Valid()
    {
      Part(Events(lg, txid - TXID_START), kvdb.kvdb)
    }

    constructor ()
      ensures Valid() && fresh(kvdb) && Memory() == FRESH
    {
      txid := TXID_START;
      lg := map[];
      kvdb := new KV();
    }

    /** eventParser: runs a printed command on the store; None where parsing aborts. */
    method EventParser(event: string) returns (r: Option<string>)
      modifies kvdb
      ensures match RunEvent(old(kvdb.kvdb), event)
              case None => r == None && kvdb.kvdb == old(kvdb.kvdb)
              case Some((db, reply)) => r == Some(reply) && kvdb.kvdb == db
    {
      var parsed := ParserRESPArray(event);
      if parsed == None {
        return None;
      }
      var comds := parsed.value.0;
      if |comds| < 1 || comds[0] == "" {
        return Some(ERROR_MESSAGE);
      }
      if comds[0][0] == 'D' {
        var delnumber := kvdb.KvDELArry(comds[1..]);
        r := Some(IntegerMessage(delnumber));
      } else if comds[0][0] == 'S' {
        if |comds| != 3 {
          r := Some(ERROR_MESSAGE);
        } else {
          var rc := kvdb.KvSET(comds[1], comds[2]);
          r := Some(SUCCESS_MESSAGE);
        }
      } else if comds[0][0] == 'G' {
        if |comds| != 2 {
          r := Some(ERROR_MESSAGE);
        } else {
          var v := kvdb.KvGET(comds[1]);
          r := Some(ArrayMessage([v]));
        }
      } else if comds[0][0] == 'P' {
        r := Some("PRE");
      } else {
        r := Some(ERROR_MESSAGE);
      }
    }

    /** pWorker: answers one message of the coordinator; None where the process aborts. */
    method PWorker(task: string) returns (r: Option<string>)
      requires Valid()
      modifies this, kvdb
      ensures Valid()
      ensures match Work(old(Memory()), task)
              case None => r == None && Memory() == old(Memory())
              case Some((p, reply)) => r == Some(reply) && Memory() == p
    {
      hide RunEvent, StrToLog, LogToStr, Strtol, Digits, Events;
      var parsed := StrToLog(task);
      if parsed == None {
        return None;
      }
      var l := parsed.value;
      ghost var before := Memory();
      if l.id == SUPER_TXID {
        r := EventParser(l.event);
      } else if l.id == RECOVERY_TXID {
        r := Some(Digits(txid - 1));
      } else if l.id == ASK_DATA_TXID {
        var tid := ToUnsigned(Strtol(l.event), TWO_64);
        if tid >= txid {
          r := Some("");
        } else if tid !in lg {
          r := None;
        } else {
          assert lg[tid] == Log(tid, LOG_COMMIT, before.log[tid - TXID_START]);
          r := Some(LogToStr(lg[tid]));
        }
      } else if l.id == txid && l.state == LOG_PRE {
        r := Some("PRE");
      } else if l.id == txid && l.state == LOG_COMMIT {
        r := EventParser(l.event);
        if r.Some? && r.value != ERROR_MESSAGE {
          EventsMore(lg, txid - TXID_START, l);
          lg := lg[l.id := l];
          txid := txid + 1;
        }
      } else {
        r := Some(ERROR_MESSAGE);
      }
    }
  }

  // ---------- what a participant's memory says after any messages ----------

  /** The store is what the log says, and the log holds accepted events only. */
  ghost predicate Consistent(p: Part)
  {
    p.db == Replay(p.log) && AllAccepted(p.log)
  }

  predicate AllAccepted(log: seq<string>)
  {
    forall i {:trigger log[i]} :: 0 <= i < |log| ==> Accepted(log[i])
  }

  lemma AcceptedMore(log: seq<string>, event: string)
    requires AllAccepted(log) && Accepted(event)
    ensures AllAccepted(log + [event])
  {
    hide Accepted;
  }

  ghost predicate IsGet(event: string)
  {
    exists comds, n :: ParseArray(event) == Some((comds, n)) && |comds| > 0 && comds[0] != "" && comds[0][0] == 'G'
  }

  /** Memory after a run of records, or None once the process has died. */
  function Deliver(p: Part, ls: seq<Log>): Option<Part>
  {
    if ls == [] then Some(p)
    else
      match Deliver(p, ls[..|ls| - 1])
      case None => None
      case Some(q) =>
        match Handle(q, ls[|ls| - 1])
        case None => None
        case Some((r, _)) => Some(r)
  }

  ghost predicate OnlyGets(ls: seq<Log>)
  {
    forall i :: 0 <= i < |ls| && ls[i].id == SUPER_TXID ==> IsGet(ls[i].event)
  }

  lemma ReplayMore(log: seq<string>, event: string)
    requires RunEvent(Replay(log), event).Some?
    ensures Replay(log + [event]) == RunEvent(Replay(log), event).value.0
  {
    assert (log + [event])[..|log|] == log;
  }

  lemma RefusedChangesNothing(db: Store, event: string)
    requires RunEvent(db, event).Some? && RunEvent(db, event).value.1 == ERROR_MESSAGE
    ensures RunEvent(db, event).value.0 == db
  {
    hide ParseArray;
    var comds := ParseArray(event).value.0;
    if |comds| >= 1 {
      AnswersAreNoErrors(|db.Keys * Elements(comds[1..])|, []);
    }
  }

  lemma GetChangesNothing(db: Store, event: string)
    requires IsGet(event)
    ensures RunEvent(db, event).Some? && RunEvent(db, event).value.0 == db && RunEvent(db, event).value.1 != ""
  {
  }

  /** The record is run on the store without being logged, and changes it. */
  predicate Bypasses(p: Part, l: Log)
  {
    l.id == SUPER_TXID && Parses(l.event) && Alters(p.db, ParseArray(l.event).value.0)
  }

  /** One record extends the log by at most its own event, and keeps the memory consistent unless it bypasses the log. */
  lemma HandleKeeps(p: Part, l: Log)
    requires Consistent(p) && Handle(p, l).Some?
    ensures Consistent(Handle(p, l).value.0) <==> !Bypasses(p, l)
    ensures p.log <= Handle(p, l).value.0.log
  {
    hide RunEvent, Accepted, LogToStr, Strtol, Digits, Replay, Alters, Execute;
    if l.id == SUPER_TXID {
      RunAlters(p.db, l.event);
    } else if l.id == Txid(p) && l.state == LOG_COMMIT && l.id != RECOVERY_TXID && l.id != ASK_DATA_TXID {
      var (db, reply) := RunEvent(p.db, l.event).value;
      if reply == ERROR_MESSAGE {
        RefusedChangesNothing(p.db, l.event);
      } else {
        RunParses(p.db, l.event);
        AcceptanceIgnoresStore(p.db, l.event);
        ReplayMore(p.log, l.event);
      }
    }
  }

  lemma RunAlters(db: Store, event: string)
    requires RunEvent(db, event).Some?
    ensures Parses(event) && (RunEvent(db, event).value.0 != db <==> Alters(db, ParseArray(event).value.0))
  {
    hide Execute, ParseArray;
    AltersMeans(db, ParseArray(event).value.0);
  }

  lemma GetAlters(db: Store, event: string)
    requires IsGet(event)
    ensures Parses(event) && !Alters(db, ParseArray(event).value.0)
  {
  }

  lemma RunParses(db: Store, event: string)
    requires RunEvent(db, event).Some?
    ensures Parses(event)
  {
  }

  /** No record of the run bypasses the log at the point where it is read. */
  ghost predicate NothingBypasses(p: Part, ls: seq<Log>)
  {
    forall i {:trigger ls[..i]} :: 0 <= i < |ls| && Deliver(p, ls[..i]).Some? ==> !Bypasses(Deliver(p, ls[..i]).value, ls[i])
  }

  /** After each record of the run the store is what the log says. */
  ghost predicate AlwaysConsistent(p: Part, ls: seq<Log>)
  {
    forall i {:trigger ls[..i]} :: 0 <= i <= |ls| && Deliver(p, ls[..i]).Some? ==> Consistent(Deliver(p, ls[..i]).value)
  }

  /** Throughout a run of messages the store is the replay of the log if and only if none of them bypasses it. */
  lemma {:induction false} MemoryIsReplay(p: Part, ls: seq<Log>)
    requires Consistent(p) && Deliver(p, ls).Some?
    ensures AlwaysConsistent(p, ls) <==> NothingBypasses(p, ls)
  {
    hide Handle, Consistent, Bypasses;
    if ls == [] {
      assert ls[..0] == ls;
    } else {
      var init, l := ls[..|ls| - 1], ls[|ls| - 1];
      MemoryIsReplay(p, init);
      PrefixesOfInit(ls);
      assert ls[..|ls|] == ls && init[..|init|] == init;
      if Consistent(Deliver(p, init).value) {
        HandleKeeps(Deliver(p, init).value, l);
      }
    }
  }

  lemma PrefixesOfInit(ls: seq<Log>)
    requires ls != []
    ensures forall i {:trigger ls[..i]} {:trigger ls[..|ls| - 1][..i]} :: 0 <= i < |ls| ==> ls[..|ls| - 1][..i] == ls[..i]
  {
  }

  /** No written entry of the log ever changes. */
  lemma {:induction false} EntriesStay(p: Part, ls: seq<Log>, n: nat)
    requires n <= |ls| && Deliver(p, ls).Some?
    ensures Deliver(p, ls[..n]).Some? && p.log <= Deliver(p, ls[..n]).value.log <= Deliver(p, ls).value.log
    decreases |ls|
  {
    hide RunEvent, LogToStr, Strtol, Digits;
    if n == |ls| {
      assert ls[..n] == ls;
    }
    if ls != [] {
      var init := ls[..|ls| - 1];
      EntriesStay(p, init, if n < |ls| then n else |init|);
      assert init[..|init|] == init && (n < |ls| ==> init[..n] == ls[..n]);
    }
  }

  /** The coordinator sends nothing but GETs around the log, and they change nothing. */
  lemma GetsBypassNothing(p: Part, ls: seq<Log>)
    requires OnlyGets(ls)
    ensures NothingBypasses(p, ls)
  {
    hide IsGet, Alters, ParseArray;
    forall i | 0 <= i < |ls| && Deliver(p, ls[..i]).Some?
      ensures !Bypasses(Deliver(p, ls[..i]).value, ls[i])
    {
      if ls[i].id == SUPER_TXID {
        GetAlters(Deliver(p, ls[..i]).value.db, ls[i].event);
      }
    }
  }

  /** There is such a message: a SET sent under SUPER_TXID changes the store behind the log's back. */
  lemma SuperSetBreaksReplay()
    ensures exists l: Log :: Bypasses(FRESH, l) && Handle(FRESH, l).Some? && !Consistent(Handle(FRESH, l).value.0)
  {
    var comds := ["SET", "k", "v"];
    var event := ArrayMessage(comds);
    PrintedEvent(comds);
    var l := Log(SUPER_TXID, LOG_COMMIT, event);
    assert Bypasses(FRESH, l) && Handle(FRESH, l).Some? by {
      hide ArrayMessage, ParseArray;
    }
    HandleKeeps(FRESH, l);
  }

  lemma PrintedEvent(comds: seq<string>)
    requires Printable(comds)
    ensures ParseArray(ArrayMessage(comds)).Some? && ParseArray(ArrayMessage(comds)).value.0 == comds
  {
    hide ArrayMessage, ParseArray;
    ArrayRoundTrip(comds, "");
    assert ArrayMessage(comds) + "" == ArrayMessage(comds);
  }
}
