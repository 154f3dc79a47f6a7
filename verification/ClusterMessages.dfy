/** What a participant answers to each of the coordinator's messages. */
module ClusterMessages {
  import opened Wrappers
  import opened Decimal
  import opened Resp
  import opened LogText
  import opened Kv
  import opened Participants

  /** The largest txid strtol can read back bounds every run. */
  predicate FitsLong(id: nat)
  {
    id < TWO_63
  }

  /** The message does not make the process abort, and leaves a store that is what the log says. */
  ghost predicate Answers(p: Part, task: string)
  {
    Work(p, task).Some? && Consistent(Work(p, task).value.0)
  }

  lemma RecordReadsBack(l: Log)
    requires FitsLong(l.id) && l.state < 256
    ensures StrToLog(LogToStr(l)) == Some(l)
  {
    hide StrToLog, LogToStr;
    RecordRoundTrip(l);
  }

  lemma WorkIsHandle(p: Part, l: Log)
    requires FitsLong(l.id) && l.state < 256
    ensures Work(p, LogToStr(l)) == Handle(p, l)
  {
    hide StrToLog, LogToStr, Handle;
    RecordReadsBack(l);
  }

  lemma PrepareAnswer(p: Part, id: nat)
    requires FitsLong(id) && id >= TXID_START
    ensures Work(p, LogToStr(Log(id, LOG_PRE, ""))) ==
            Some((p, if id == Txid(p) then "PRE" else ERROR_MESSAGE))
  {
    hide Work, LogToStr;
    WorkIsHandle(p, Log(id, LOG_PRE, ""));
  }

  /** COMMIT is refused out of turn; in turn, an accepted event extends the log and is answered by the store. */
  lemma CommitAnswer(p: Part, id: nat, event: string)
    requires FitsLong(id) && id >= TXID_START && Consistent(p) && Parses(event)
    ensures Work(p, LogToStr(Log(id, LOG_COMMIT, event))).Some?
    ensures id != Txid(p) || !Accepted(event) ==>
              Work(p, LogToStr(Log(id, LOG_COMMIT, event))).value == (p, ERROR_MESSAGE)
    ensures id == Txid(p) && Accepted(event) ==>
              var (q, reply) := Work(p, LogToStr(Log(id, LOG_COMMIT, event))).value;
              && q.log == p.log + [event] && Consistent(q)
              && RunEvent(p.db, event) == Some((q.db, reply)) && reply != ERROR_MESSAGE
  {
    hide Work, LogToStr, RunEvent, Accepted, Consistent, Parses;
    var l := Log(id, LOG_COMMIT, event);
    WorkIsHandle(p, l);
    AcceptanceIgnoresStore(p.db, event);
    if id == Txid(p) {
      HandleKeeps(p, l);
      if !Accepted(event) {
        RefusedChangesNothing(p.db, event);
      }
    }
  }

  lemma GetAnswer(p: Part, event: string)
    requires IsGet(event)
    ensures Work(p, LogToStr(Log(SUPER_TXID, LOG_COMMIT, event))).Some?
    ensures Work(p, LogToStr(Log(SUPER_TXID, LOG_COMMIT, event))).value == (p, RunEvent(p.db, event).value.1)
  {
    hide Work, LogToStr, RunEvent, IsGet;
    WorkIsHandle(p, Log(SUPER_TXID, LOG_COMMIT, event));
    GetChangesNothing(p.db, event);
  }

  lemma MaxTxidAnswer(p: Part)
    ensures Work(p, LogToStr(Log(RECOVERY_TXID, LOG_PRE, ""))) == Some((p, Digits(Txid(p) - 1)))
    ensures Digits(Txid(p) - 1) != "" && Digits(Txid(p) - 1) != ERROR_MESSAGE
    ensures FitsLong(Txid(p)) ==> ToUnsigned(Strtol(Digits(Txid(p) - 1)), TWO_64) == Txid(p) - 1
  {
    hide Work, LogToStr, Strtol;
    WorkIsHandle(p, Log(RECOVERY_TXID, LOG_PRE, ""));
    StrtolOfDigits(Txid(p) - 1, "");
    assert Digits(Txid(p) - 1) + "" == Digits(Txid(p) - 1);
    assert IsDigit(Digits(Txid(p) - 1)[0]);
  }

  /** Asked for a transaction it has, a participant sends that record; it never aborts. */
  lemma AskAnswer(p: Part, tid: nat)
    requires FitsLong(tid) && tid >= TXID_START
    ensures Work(p, LogToStr(Log(ASK_DATA_TXID, LOG_COMMIT, Digits(tid)))) ==
            Some((p, if tid >= Txid(p) then "" else LogToStr(Log(tid, LOG_COMMIT, p.log[tid - TXID_START]))))
  {
    hide Work, LogToStr, Strtol, Digits;
    WorkIsHandle(p, Log(ASK_DATA_TXID, LOG_COMMIT, Digits(tid)));
    StrtolOfDigits(tid, "");
    assert Digits(tid) + "" == Digits(tid);
  }

  lemma RecordIsNotEmpty(l: Log)
    ensures LogToStr(l) != ""
  {
  }
}
