/** One participant's part in the coordinator's rounds, seen from outside. */
module ClusterSteps {
  import opened Wrappers
  import opened Decimal
  import opened Resp
  import opened LogText
  import opened Kv
  import opened Participants

  const RET_SKIP: int := 1
  const NET_ERROR: int := -7

  /** The participants' ids: 1 to n. */
  function IdsUpTo(n: nat): (ids: set<nat>)
    ensures forall id: nat :: id in ids <==> 1 <= id <= n
  {
    if n == 0 then {} else IdsUpTo(n - 1) + {n}
  }

  datatype PState = P_WORKING | P_RECOVERY | P_WAITING | P_TEMP

  /**
   What may happen to one participant between two steps of the coordinator: it crashes and
   loses its memory, its link breaks, and, if the coordinator waits for it, it reconnects.
   */
  ghost predicate Moved(s: PState, p: Part, linked: bool, s': PState, p': Part, linked': bool, mayReconnect: bool)
  {
    && (p' == p || p' == FRESH)
    && (s' == s || (mayReconnect && s == P_WAITING && s' == P_TEMP))
    && (linked' ==> (linked && p' == p) || (mayReconnect && s == P_WAITING && s' == P_TEMP))
  }

  /** The participant's log is a prefix of the committed events, all of them if it works and can be reached. */
  ghost predicate Agrees(p: Part, s: PState, linked: bool, committed: seq<string>)
  {
    && p.log <= committed
    && (s == P_WORKING && linked ==> p.log == committed)
  }

  /** Between commit rounds: the memory is p0 still or lost, and exact if the participant works and can be reached. */
  ghost predicate Serves(p0: Part, p: Part, s: PState, linked: bool, committed: seq<string>)
  {
    && (p == p0 || p == FRESH)
    && (s == P_WORKING && linked ==> p.log == committed)
  }

  /**
   The same in the commit round for event, before (done is false) or after the participant's turn.
   Whoever has taken the event in, works and can be reached has acknowledged it.
   */
  ghost predicate InRound(p0: Part, p: Part, s: PState, linked: bool, committed: seq<string>, event: string,
                          done: bool, acked: bool)
  {
    && GrownBy(p0, p, committed, event, done)
    && (s == P_WORKING && linked ==> p.log == if done && Accepted(event) then committed + [event] else committed)
    && (s == P_WORKING && linked && done && Accepted(event) ==> acked)
  }

  /** The memory is p0 still, or lost, or has taken in the event right behind the committed ones. */
  ghost predicate GrownBy(p0: Part, p: Part, committed: seq<string>, event: string, done: bool)
  {
    p == p0 || p == FRESH || (done && Accepted(event) && p.log == committed + [event])
  }

  lemma MovedServes(s: PState, p: Part, linked: bool, s': PState, p': Part, linked': bool, p0: Part, committed: seq<string>)
    requires Moved(s, p, linked, s', p', linked', true) && Serves(p0, p, s, linked, committed)
    ensures Serves(p0, p', s', linked', committed)
  {
  }

  lemma MovedInRound(s: PState, p: Part, linked: bool, s': PState, p': Part, linked': bool,
                     p0: Part, committed: seq<string>, event: string, done: bool, acked: bool)
    requires Moved(s, p, linked, s', p', linked', true) && InRound(p0, p, s, linked, committed, event, done, acked)
    ensures InRound(p0, p', s', linked', committed, event, done, acked)
  {
    hide Accepted;
  }

  lemma MovedWorks(s: PState, p: Part, linked: bool, s': PState, p': Part, linked': bool)
    requires Moved(s, p, linked, s', p', linked', true)
    ensures s == P_WORKING ==> s' == P_WORKING
    ensures s' == P_WORKING && linked' ==> s == P_WORKING && linked
  {
  }

  /** A turn that leaves the memory alone or loses it with the link. */
  lemma TurnServes(p: Part, s: PState, linked: bool, p': Part, s': PState, linked': bool, p0: Part, committed: seq<string>)
    requires Serves(p0, p, s, linked, committed) && (p' == p || (p' == FRESH && !linked'))
    requires (s' == s || s' == P_WAITING) && (linked' ==> linked)
    ensures Serves(p0, p', s', linked', committed)
  {
  }

  /** A turn in the commit round: skipped, answered, or cut off before or after the participant applied it. */
  lemma CommitTurnInRound(p0: Part, p: Part, s: PState, linked: bool, q: Part, reply: string,
                          p': Part, s': PState, linked': bool, ret: int, data: string,
                          committed: seq<string>, event: string, acked: bool)
    requires InRound(p0, p, s, linked, committed, event, false, acked) && Consistent(p)
    requires |p.log| != |committed| || !Accepted(event) ==> (q, reply) == (p, ERROR_MESSAGE)
    requires |p.log| == |committed| && Accepted(event) ==>
               q.log == p.log + [event] && RunEvent(p.db, event) == Some((q.db, reply)) && reply != ERROR_MESSAGE
    requires s != P_WORKING ==> ret == RET_SKIP && data == "" && p' == p && s' == s && linked' == linked
    requires s == P_WORKING && ret == KV_OK ==> linked && linked' && s' == s && (p', data) == (q, reply)
    requires s == P_WORKING && ret != KV_OK ==> !linked' && s' == P_WAITING && (p' in {p, FRESH} || (linked && p' == q))
    ensures InRound(p0, p', s', linked', committed, event, true, acked || (ret == KV_OK && data != ERROR_MESSAGE))
    ensures ret == KV_OK && data != ERROR_MESSAGE ==>
              Accepted(event) && RunEvent(Replay(committed), event).Some? &&
              data == RunEvent(Replay(committed), event).value.1
    ensures ret == KV_OK && Accepted(event) ==> data != ERROR_MESSAGE
  {
    hide Accepted, RunEvent, Replay, AllAccepted;
  }

  lemma RoundStarts(p0: Part, p: Part, s: PState, linked: bool, committed: seq<string>, event: string)
    ensures Serves(p0, p, s, linked, committed) <==> InRound(p0, p, s, linked, committed, event, false, false)
  {
    hide Accepted;
  }

  /** Who works and can be reached after its turn has acknowledged an accepted event. */
  lemma HolderAcked(p0: Part, p: Part, s: PState, linked: bool, committed: seq<string>, event: string, acked: bool)
    requires InRound(p0, p, s, linked, committed, event, true, acked)
    ensures s == P_WORKING && linked && Accepted(event) ==> acked
  {
    hide Accepted;
  }

  lemma RoundAcked(p0: Part, p: Part, s: PState, linked: bool, committed: seq<string>, event: string,
                   done: bool, acked: bool)
    requires InRound(p0, p, s, linked, committed, event, done, acked)
    ensures InRound(p0, p, s, linked, committed, event, done, true)
  {
    hide Accepted;
  }

  /** An acknowledged round commits its event, and whoever works and can be reached has it. */
  lemma RoundCommits(p0: Part, p: Part, s: PState, linked: bool, committed: seq<string>, event: string)
    requires InRound(p0, p, s, linked, committed, event, true, true) && Accepted(event)
    ensures Serves(p, p, s, linked, committed + [event]) && GrownBy(p0, p, committed, event, true)
  {
    hide Accepted;
  }

  /** Nobody who works and can be reached has taken in the event of a round without an acknowledgement. */
  lemma RoundFails(p0: Part, p: Part, s: PState, linked: bool, committed: seq<string>, event: string)
    requires InRound(p0, p, s, linked, committed, event, true, false)
    ensures Serves(p, p, s, linked, committed) && GrownBy(p0, p, committed, event, true)
  {
    hide Accepted;
  }

  /**
   The reply to an accepted COMMIT may be lost, or come too late. The participant has then taken
   in an event that the coordinator does not commit: the round may end so, and the logs differ.
   */
  lemma LostReplyIsAllowed(p: Part, committed: seq<string>, event: string)
    requires Consistent(p) && p.log == committed && Accepted(event)
    ensures RunEvent(p.db, event).Some?
    ensures var q := Part(committed + [event], RunEvent(p.db, event).value.0);
            && Consistent(q) && InRound(p, q, P_WAITING, false, committed, event, true, false)
            && !Agrees(q, P_WAITING, false, committed)
  {
    hide RunEvent, Replay;
    var l := Log(Txid(p), LOG_COMMIT, event);
    AcceptedParses(event);
    AcceptanceIgnoresStore(p.db, event);
    HandleKeeps(p, l);
  }

  lemma AcceptedParses(event: string)
    requires Accepted(event)
    ensures Parses(event)
  {
  }

  // ---------- participants that have taken in what is not committed ----------

  /** One message lengthens a log by at most its own event, and only under the txid that is next. */
  lemma WorkExtends(p: Part, task: string)
    requires Work(p, task).Some?
    ensures StrToLog(task).Some?
    ensures var l, q := StrToLog(task).value, Work(p, task).value.0;
            q.log == p.log || (l.id == Txid(p) && q.log == p.log + [l.event])
  {
    hide RunEvent, StrToLog, LogToStr, Strtol, Digits;
  }

  /** A longer log is committed if the shorter one was and the new event is the committed one of its number. */
  lemma StillCommitted(log: seq<string>, event: string, committed: seq<string>)
    ensures log + [event] <= committed <==>
              log <= committed && |log| < |committed| && committed[|log|] == event
  {
    if log <= committed && |log| < |committed| && committed[|log|] == event {
      assert committed[..|log| + 1] == log + [event];
    }
  }

  /**
   What holds of a participant with memory p and perhaps a request it has still to read: that leads
   to the memory settled, and the participant is astray if its log is not part of the coordinator's.
   */
  ghost predicate Follows(p: Part, late: Option<string>, settled: Part, linked: bool, astray: bool, committed: seq<string>)
  {
    && Consistent(p)
    && (astray <==> !(p.log <= committed))
    && match late
       case None => settled == p
       case Some(task) => !linked && Work(p, task).Some? && settled == Work(p, task).value.0
  }

  lemma FollowsCut(p: Part, late: Option<string>, settled: Part, linked: bool, astray: bool, committed: seq<string>)
    requires Follows(p, late, settled, linked, astray, committed)
    ensures Follows(p, late, settled, false, astray, committed)
    ensures late == None ==> settled == p && Follows(p, late, settled, true, astray, committed)
    ensures linked ==> late == None
  {
    hide Work, Consistent;
  }

  lemma FollowsDelayed(p: Part, astray: bool, committed: seq<string>, task: string)
    requires Follows(p, None, p, true, astray, committed) && Work(p, task).Some?
    ensures Follows(p, Some(task), Work(p, task).value.0, false, astray, committed)
  {
    hide Work, Consistent;
  }

  lemma FollowsAfresh(linked: bool, committed: seq<string>)
    ensures Follows(FRESH, None, FRESH, linked, false, committed)
  {
  }

  /** A message read: the participant strays if its log grows by an event that is not committed under its txid. */
  lemma FollowsWork(p: Part, late: Option<string>, settled: Part, linked: bool, astray: bool, committed: seq<string>,
                    task: string, q: Part)
    requires Follows(p, late, settled, linked, astray, committed)
    requires Work(p, task).Some? && q == Work(p, task).value.0 && Consistent(q) && StrToLog(task).Some?
    ensures var l := StrToLog(task).value;
            var committedAs := TXID_START <= l.id < TXID_START + |committed| && committed[l.id - TXID_START] == l.event;
            Follows(q, None, q, linked, astray || (|q.log| > |p.log| && !committedAs), committed)
  {
    hide Work, StrToLog, Consistent;
    WorkExtends(p, task);
    StillCommitted(p.log, StrToLog(task).value.event, committed);
  }

  lemma FollowsLate(p: Part, task: string, settled: Part, linked: bool, astray: bool, committed: seq<string>)
    requires Follows(p, Some(task), settled, linked, astray, committed)
    ensures !linked && Work(p, task).Some? && settled == Work(p, task).value.0 && p.log <= settled.log
  {
    hide Work, Consistent;
    WorkExtends(p, task);
  }

  /** One more event committed: whose whole log is committed by it is no longer astray. */
  lemma FollowsCommit(p: Part, late: Option<string>, settled: Part, linked: bool, astray: bool, committed: seq<string>,
                      event: string)
    requires Follows(p, late, settled, linked, astray, committed)
    ensures Follows(p, late, settled, linked, astray && !(p.log <= committed + [event]), committed + [event])
  {
    hide Work, Consistent;
  }

  function LateOf(late: map<nat, string>, id: nat): Option<string>
  {
    if id in late then Some(late[id]) else None
  }

  /** The same of all participants. */
  ghost predicate AllFollow(parts: map<nat, Part>, late: map<nat, string>, settled: map<nat, Part>, up: set<nat>,
                            stray: set<nat>, committed: seq<string>)
  {
    && parts.Keys == settled.Keys && late.Keys <= settled.Keys && stray <= settled.Keys
    && forall id {:trigger parts[id]} :: id in parts ==>
         Follows(parts[id], LateOf(late, id), settled[id], id in up, id in stray, committed)
  }

  lemma FollowsAt(parts: map<nat, Part>, late: map<nat, string>, settled: map<nat, Part>, up: set<nat>,
                  stray: set<nat>, committed: seq<string>, id: nat)
    requires AllFollow(parts, late, settled, up, stray, committed) && id in settled
    ensures id in parts && Follows(parts[id], LateOf(late, id), settled[id], id in up, id in stray, committed)
  {
    hide Follows;
  }

  /** Links break, and new ones come up where nothing is left to read. */
  lemma AllFollowLinks(parts: map<nat, Part>, late: map<nat, string>, settled: map<nat, Part>, up: set<nat>,
                       stray: set<nat>, committed: seq<string>, up': set<nat>)
    requires AllFollow(parts, late, settled, up, stray, committed) && up' * late.Keys <= up
    ensures AllFollow(parts, late, settled, up', stray, committed)
  {
    hide Follows;
    forall id | id in parts
      ensures Follows(parts[id], LateOf(late, id), settled[id], id in up', id in stray, committed)
    {
      FollowsCut(parts[id], LateOf(late, id), settled[id], id in up, id in stray, committed);
      assert id in up' && id in late ==> id in up' * late.Keys;
    }
  }

  /** One participant's memory becomes p, with nothing left to read. */
  lemma AllFollowBecome(parts: map<nat, Part>, late: map<nat, string>, settled: map<nat, Part>, up: set<nat>,
                        stray: set<nat>, committed: seq<string>, k: nat, p: Part, astray: bool)
    requires AllFollow(parts, late, settled, up, stray, committed) && k in settled
    requires Follows(p, None, p, k in up, astray, committed)
    ensures AllFollow(parts[k := p], late - {k}, settled[k := p], up, if astray then stray + {k} else stray - {k}, committed)
  {
    hide Follows;
    forall id | id in parts && id != k
      ensures Follows(parts[id], LateOf(late - {k}, id), settled[id], id in up, id in stray, committed)
    {
      assert LateOf(late - {k}, id) == LateOf(late, id);
    }
  }

  /** A request is given up that has reached a participant with nothing else to read. */
  lemma AllFollowDelay(parts: map<nat, Part>, late: map<nat, string>, settled: map<nat, Part>, up: set<nat>,
                       stray: set<nat>, committed: seq<string>, k: nat, task: string)
    requires AllFollow(parts, late, settled, up, stray, committed) && k in up && k in settled && Work(settled[k], task).Some?
    ensures AllFollow(parts, late[k := task], settled[k := Work(settled[k], task).value.0], up - {k}, stray, committed)
  {
    hide Follows, Work;
    FollowsCut(parts[k], LateOf(late, k), settled[k], true, k in stray, committed);
    FollowsDelayed(parts[k], k in stray, committed, task);
    forall id | id in parts && id != k
      ensures Follows(parts[id], LateOf(late[k := task], id), settled[id], id in up, id in stray, committed)
    {
      assert LateOf(late[k := task], id) == LateOf(late, id);
    }
  }

  /** One more event committed. */
  lemma AllFollowCommit(parts: map<nat, Part>, late: map<nat, string>, settled: map<nat, Part>, up: set<nat>,
                        stray: set<nat>, committed: seq<string>, event: string, stray': set<nat>)
    requires AllFollow(parts, late, settled, up, stray, committed)
    requires forall id :: id in stray' <==> id in stray && id in parts && !(parts[id].log <= committed + [event])
    ensures AllFollow(parts, late, settled, up, stray', committed + [event])
  {
    hide Follows;
    forall id | id in parts
      ensures Follows(parts[id], LateOf(late, id), settled[id], id in up, id in stray', committed + [event])
    {
      FollowsCommit(parts[id], LateOf(late, id), settled[id], id in up, id in stray, committed, event);
    }
  }

  /** Nobody has joined those who work and can be reached, and only who was lost has left them. */
  predicate Stay(before: set<nat>, after: set<nat>, lostBefore: set<nat>, lost: set<nat>)
  {
    after <= before && before - lost <= after && lostBefore <= lost
  }

  lemma StayAtFirst(w: set<nat>, l: set<nat>)
    ensures Stay(w, w, l, l)
  {
  }

  lemma StayOn(w0: set<nat>, w1: set<nat>, w2: set<nat>, l0: set<nat>, l1: set<nat>, l2: set<nat>)
    requires Stay(w0, w1, l0, l1) && Stay(w1, w2, l1, l2)
    ensures Stay(w0, w2, l0, l2) && w2 <= w1 <= w0
  {
  }

  lemma SameKeys<V>(m: map<nat, V>, k: nat, v: V)
    requires k in m
    ensures m[k := v].Keys == m.Keys
  {
  }

  lemma NothingMoved()
    ensures forall s, p, linked, may :: Moved(s, p, linked, s, p, linked, may)
  {
  }

  lemma FreshIsConsistent()
    ensures Consistent(FRESH)
  {
  }

  /** Either an error that left the store alone, or what one store answers and becomes. */
  ghost predicate Answered(db: Store, task: seq<string>, rc: string, db': Store)
  {
    (rc == ERROR_MESSAGE && db' == db) || Execute(db, task) == (db', rc)
  }

  lemma ServesMeans(p0: Part, p: Part, s: PState, linked: bool, committed: seq<string>)
    requires Serves(p0, p, s, linked, committed)
    ensures s == P_WORKING && linked ==> p.log == committed
  {
  }

  /** A printed command reads back as itself. */
  lemma CommandReads(db: Store, task: seq<string>)
    requires Printable(task) && |task| >= 1
    ensures Parses(ArrayMessage(task)) && RunEvent(db, ArrayMessage(task)) == Some(Execute(db, task))
    ensures task[0] == "GET" ==> IsGet(ArrayMessage(task))
    ensures !Accepted(ArrayMessage(task)) ==> Execute(db, task) == (db, ERROR_MESSAGE)
  {
    hide ParseArray, ArrayMessage, Execute;
    PrintedParses(db, task);
    AcceptanceIgnoresStore(db, ArrayMessage(task));
    if !Accepted(ArrayMessage(task)) {
      RefusedChangesNothing(db, ArrayMessage(task));
    }
  }

  lemma PrintedParses(db: Store, task: seq<string>)
    requires Printable(task) && |task| >= 1
    ensures Parses(ArrayMessage(task)) && RunEvent(db, ArrayMessage(task)) == Some(Execute(db, task))
    ensures task[0] == "GET" ==> IsGet(ArrayMessage(task))
  {
    hide ParseArray, ArrayMessage, Execute;
    ArrayRoundTrip(task, "");
    assert ArrayMessage(task) + "" == ArrayMessage(task);
  }
}
