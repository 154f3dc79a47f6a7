/**
 The replicated store: one coordinator (Lab3/src/coordinator.cc) and the participants it
 talks to, with processes that crash, links that break and requests that arrive late at any time.
 */
module Clusters {
  import opened Wrappers
  import opened Decimal
  import opened Resp
  import opened LogText
  import opened Kv
  import opened Participants
  import opened ClusterMessages
  import opened ClusterSteps
  import opened RecoverySteps
  import opened Histories

  class Cluster {
    const pnum: nat

    // the coordinator
    var txid: nat
    var lg: map<nat, Log>
    var pstate: map<nat, PState>
    var maxTxidTB: map<nat, nat>
    var tmpNum: nat
    var cworking: bool

    // the participants' memories, and the links over which the coordinator still reaches them
    var parts: map<nat, Part>
    var up: set<nat>

    /** Requests the coordinator has given up but that have reached the participant, which will still read them. */
    var late: map<nat, string>

    /** The memory each participant has once it has read what has reached it. */
    var settled: map<nat, Part>

    /** Participants that have applied, and kept, a COMMIT whose event the coordinator has not committed. */
    var stray: set<nat>

    /** Participants whose process has crashed or whose link has broken since this was last cleared. */
    ghost var lost: set<nat>

    function Ids(): set<nat>
    {
      IdsUpTo(pnum)
    }

    ghost predicate Valid()
      reads this
    {
      && txid >= TXID_START
      && (forall t: nat {:trigger lg[t]} {:trigger t in lg} :: TXID_START <= t < txid ==>
            t in lg && lg[t].id == t && lg[t].state == LOG_COMMIT)
      && pstate.Keys == Ids() && settled.Keys == Ids() && up <= Ids()
      && (forall id: nat {:trigger settled[id]} :: id in Ids() ==> Consistent(settled[id]))
      && AllAccepted(Committed())
      && World()
    }

    /**
     A late request is one of a participant whose link is cut, and settled is what it leads to;
     stray are exactly the participants whose log is not part of the coordinator's.
     */
    ghost predicate World()
      reads `parts, `late, `settled, `stray, `up, `lg, `txid
      requires txid >= TXID_START
    {
      AllFollow(parts, late, settled, up, stray, Committed())
    }

    /** The events of the coordinator's committed transactions. */
    function Committed(): seq<string>
      reads `lg, `txid
      requires txid >= TXID_START
    {
      Events(lg, txid - TXID_START)
    }

    /** Whoever works and can be reached has exactly the committed transactions. */
    ghost predicate Exact()
      reads this
      requires Valid()
    {
      Serving(settled)
    }

    /** The same, between the commit rounds of one command that began with the memories p0. */
    ghost predicate Serving(p0: map<nat, Part>)
      reads this
      requires Valid()
    {
      && p0.Keys == Ids()
      && forall id: nat {:trigger settled[id]} :: id in Ids() ==>
           Serves(p0[id], settled[id], pstate[id], id in up, Committed())
    }

    /**
     Every participant's log is a prefix of the committed events and stays one when late requests
     are read; a reachable working one has all of them.
     */
    ghost predicate Agreement()
      reads this
      requires Valid()
    {
      forall id: nat {:trigger settled[id]} :: id in Ids() ==> Agrees(settled[id], pstate[id], id in up, Committed())
    }

    constructor (n: nat)
      ensures Valid() && Exact() && Agreement() && pnum == n && Committed() == [] && stray == {} && late == map[]
    {
      pnum := n;
      txid := TXID_START;
      lg := map[];
      pstate := map id | id in IdsUpTo(n) :: P_WAITING;
      maxTxidTB := map[];
      tmpNum := 0;
      cworking := false;
      parts := map id | id in IdsUpTo(n) :: FRESH;
      up := {};
      late := map[];
      settled := map id | id in IdsUpTo(n) :: FRESH;
      stray := {};
      lost := {};
    }

    /** Agreement means: exact workers, nobody astray, and no late request that leads anybody astray. */
    lemma AgreementMeans()
      requires Valid()
      ensures Agreement() <==>
                && Exact() && stray == {}
                && forall id: nat {:trigger settled[id]} :: id in Ids() && id in late ==> settled[id].log <= Committed()
    {
      hide Consistent, AllAccepted, Events, World;
      forall id: nat | id in Ids()
        ensures settled[id].log <= Committed() ==> id !in stray
        ensures id !in stray && id !in late ==> settled[id].log <= Committed()
      {
        StrayMeans(id);
      }
      StrayKnown();
      if Agreement() {
        forall id: nat | id in Ids()
          ensures settled[id].log <= Committed() && Serves(settled[id], settled[id], pstate[id], id in up, Committed())
        {
          assert Agrees(settled[id], pstate[id], id in up, Committed());
        }
      } else if Exact() {
        assert forall id: nat {:trigger settled[id]} :: id in Ids() ==>
                 Serves(settled[id], settled[id], pstate[id], id in up, Committed());
      }
    }

    /** Who is astray, and what late requests can add to that. */
    lemma StrayMeans(id: nat)
      requires Valid() && id in Ids()
      ensures id in parts && (id in stray <==> !(parts[id].log <= Committed()))
      ensures id in stray ==> !(settled[id].log <= Committed())
      ensures id in up ==> id !in late
      ensures id !in late ==> settled[id] == parts[id]
    {
      hide Consistent, AllAccepted, Events, Work, IdsUpTo, AllFollow;
      FollowsAt(parts, late, settled, up, stray, Committed(), id);
      if id in late {
        FollowsLate(parts[id], late[id], settled[id], id in up, id in stray, Committed());
      }
    }

    lemma StrayKnown()
      requires Valid()
      ensures stray <= Ids()
    {
      hide Consistent, AllAccepted, Events, IdsUpTo, Follows;
    }

    twostate predicate OnlyWorldMoved(mayReconnect: bool)
      requires pstate.Keys == settled.Keys == Ids() && old(pstate.Keys) == old(settled.Keys) == Ids()
      reads this
    {
      && txid == old(txid) && lg == old(lg) && maxTxidTB == old(maxTxidTB)
      && (forall id: nat {:trigger settled[id]} :: id in Ids() ==>
            && Moved(old(pstate)[id], old(settled)[id], id in old(up), pstate[id], settled[id], id in up, mayReconnect)
            && (id !in lost ==> settled[id] == old(settled)[id] && (id in old(up) ==> id in up)))
      && old(lost) <= lost
      && (!mayReconnect ==> pstate == old(pstate))
    }

    /** What may happen to participant id at any time. */
    method InterfereWith(id: nat, mayReconnect: bool)
      requires Valid() && id in Ids()
      modifies `pstate, `parts, `late, `settled, `stray, `up, `tmpNum, `lost
      ensures Valid()
      ensures Moved(old(pstate)[id], old(settled)[id], id in old(up), pstate[id], settled[id], id in up, mayReconnect)
      ensures settled == old(settled)[id := settled[id]] && pstate == old(pstate)[id := pstate[id]]
      ensures forall j {:trigger j in up} :: j != id ==> (j in up <==> j in old(up))
      ensures lost == old(lost) || lost == old(lost) + {id}
      ensures id !in lost ==> settled == old(settled) && old(up) <= up
      ensures !mayReconnect ==> pstate == old(pstate)
    {
      hide Consistent, AllAccepted, Events, Ids, IdsUpTo, World;
      Disturb(id);
      var reconnect := *;
      if mayReconnect && pstate[id] == P_WAITING && id !in late && reconnect {
        KeepAlive(id);
      }
    }

    /** Participant id crashes, loses its link or reads a late request. */
    method Disturb(id: nat)
      requires Valid() && id in Ids()
      modifies `parts, `late, `settled, `stray, `up, `lost
      ensures Valid()
      ensures settled == old(settled) || (settled == old(settled)[id := FRESH] && id !in up)
      ensures (up == old(up) && lost == old(lost)) || (up == old(up) - {id} && lost == old(lost) + {id})
      ensures parts == old(parts) || parts == old(parts)[id := settled[id]]
      ensures late == old(late) || (late == old(late) - {id} && parts[id] == settled[id])
      ensures id !in lost ==> settled == old(settled)
    {
      hide Consistent, AllAccepted, Events, Ids, IdsUpTo, World, Answers, Outruns, Work;
      var crash, cut, arrives := *, *, *;
      if crash || cut {
        CutLink(id);
      }
      if crash {
        Crash(id);
      } else if id in late && arrives {
        LateLeadsToSettled(id);
        var p, reply := Process(id, late[id]);
      }
    }

    /** keepAlive: a participant the coordinator waits for, and that has read all the old link held, is connected again. */
    method KeepAlive(id: nat)
      requires Valid() && id in Ids() && pstate[id] == P_WAITING && id !in late
      modifies `pstate, `up, `tmpNum
      ensures Valid() && pstate == old(pstate)[id := P_TEMP] && up == old(up) + {id}
    {
      hide Consistent, AllAccepted, Events, Ids, IdsUpTo, Work, AllFollow;
      SameKeys(pstate, id, P_TEMP);
      pstate, up, tmpNum := pstate[id := P_TEMP], up + {id}, tmpNum + 1;
      AllFollowLinks(parts, late, settled, old(up), stray, Committed(), up);
    }

    /** Anything the world may do between two steps of the coordinator. */
    method Interfere(mayReconnect: bool)
      requires Valid()
      modifies `pstate, `parts, `late, `settled, `stray, `up, `tmpNum, `lost
      ensures Valid() && OnlyWorldMoved(mayReconnect)
    {
      hide Consistent, Moved, AllAccepted, Events, World, IdsUpTo;
      NothingMoved();
      for id := 1 to pnum + 1
        invariant Valid() && OnlyWorldMoved(mayReconnect)
        invariant forall j: nat {:trigger settled[j]} :: j in Ids() && id <= j ==>
                    settled[j] == old(settled)[j] && pstate[j] == old(pstate)[j] && (j in up <==> j in old(up))
      {
        assert id in Ids();
        assert settled[id] == old(settled)[id];
        InterfereWith(id, mayReconnect);
      }
    }

    /** The coordinator has committed l's event as its transaction. */
    predicate Holds(l: Log)
      reads `lg, `txid
    {
      l.id < txid && l.id in lg && lg[l.id].event == l.event
    }

    /** The log grows from p to q by a COMMIT that the coordinator has not committed. */
    predicate Outruns(p: Part, q: Part, task: string)
      reads `lg, `txid
    {
      |q.log| > |p.log| && match StrToLog(task) case None => false case Some(l) => !Holds(l)
    }

    /**
     Participant id reads a message. If that lengthens its log by an event the coordinator has
     not committed under that txid, the participant is astray.
     */
    method Process(id: nat, task: string) returns (p: Part, reply: string)
      requires Valid() && id in parts && Answers(parts[id], task) && (id in late ==> late[id] == task)
      modifies `parts, `late, `settled, `stray
      ensures Valid() && parts == old(parts)[id := p] && settled == old(settled)[id := p] && late == old(late) - {id}
      ensures Work(old(parts)[id], task) == Some((p, reply))
      ensures stray == old(stray) + if Outruns(old(parts)[id], p, task) then {id} else {}
    {
      hide Consistent, AllAccepted, Work, StrToLog, Events, Ids, IdsUpTo, Follows, Outruns;
      p, reply := Work(parts[id], task).value.0, Work(parts[id], task).value.1;
      WorkKeepsTrack(id, task);
      Become(id, p, id in stray || Outruns(parts[id], p, task));
    }

    /** Participant id's memory becomes p, with nothing left to read. */
    method Become(id: nat, p: Part, astray: bool)
      requires Valid() && id in Ids() && Consistent(p)
      requires Follows(p, None, p, id in up, astray, Committed())
      modifies `parts, `late, `settled, `stray
      ensures Valid() && parts == old(parts)[id := p] && late == old(late) - {id}
      ensures settled == old(settled)[id := p] && stray == if astray then old(stray) + {id} else old(stray) - {id}
    {
      hide Consistent, AllAccepted, Events, Ids, IdsUpTo, Follows, AllFollow;
      AllFollowBecome(parts, late, settled, up, stray, Committed(), id, p, astray);
      SameKeys(settled, id, p);
      parts, settled, late := parts[id := p], settled[id := p], late - {id};
      stray := if astray then stray + {id} else stray - {id};
    }

    lemma WorkKeepsTrack(id: nat, task: string)
      requires Valid() && id in Ids() && Answers(parts[id], task)
      ensures var q := Work(parts[id], task).value.0;
              Follows(q, None, q, id in up, id in stray || Outruns(parts[id], q, task), Committed())
    {
      hide Consistent, AllAccepted, Work, StrToLog, IdsUpTo, Follows;
      FollowsAt(parts, late, settled, up, stray, Committed(), id);
      WorkExtends(parts[id], task);
      var q := Work(parts[id], task).value.0;
      FollowsWork(parts[id], LateOf(late, id), settled[id], id in up, id in stray, Committed(), task, q);
    }

    lemma LateLeadsToSettled(id: nat)
      requires Valid() && id in Ids() && id in late
      ensures id !in up && id in parts
      ensures Answers(parts[id], late[id]) && settled[id] == Work(parts[id], late[id]).value.0
    {
      hide Consistent, AllAccepted, Events, IdsUpTo, Work, AllFollow;
      FollowsAt(parts, late, settled, up, stray, Committed(), id);
    }

    lemma LinkedIsSettled(id: nat)
      requires Valid() && id in Ids() && id in up
      ensures id !in late && id in parts && parts[id] == settled[id]
    {
      hide Consistent, AllAccepted, Events, IdsUpTo, Work, AllFollow;
      FollowsAt(parts, late, settled, up, stray, Committed(), id);
    }

    /** The process dies: its memory and what it has not read are lost. */
    method Crash(id: nat)
      requires Valid() && id in Ids()
      modifies `parts, `late, `settled, `stray
      ensures Valid() && late == old(late) - {id} && stray == old(stray) - {id}
      ensures parts == old(parts)[id := FRESH] && settled == old(settled)[id := FRESH]
    {
      hide Consistent, AllAccepted, Events, Ids, IdsUpTo, Work, Follows;
      FreshIsConsistent();
      FollowsAfresh(id in up, Committed());
      Become(id, FRESH, false);
    }

    method CutLink(id: nat)
      requires Valid() && id in Ids()
      modifies `up, `lost
      ensures Valid() && up == old(up) - {id} && lost == old(lost) + {id}
    {
      hide Consistent, AllAccepted, Events, Ids, IdsUpTo, Work, AllFollow;
      up := up - {id};
      lost := lost + {id};
      AllFollowLinks(parts, late, settled, old(up), stray, Committed(), up);
    }

    /** The coordinator gives up a request that the participant has not read yet. */
    method Delay(id: nat, task: string)
      requires Valid() && id in Ids() && id in up && Answers(settled[id], task)
      modifies `late, `settled, `up, `lost
      ensures Valid() && late == old(late)[id := task] && up == old(up) - {id} && lost == old(lost) + {id}
      ensures settled == old(settled)[id := Work(old(settled)[id], task).value.0]
    {
      hide Consistent, AllAccepted, Events, Ids, IdsUpTo, Work, AllFollow;
      AllFollowDelay(parts, late, settled, up, stray, Committed(), id, task);
      var p := Work(settled[id], task).value.0;
      SameKeys(settled, id, p);
      late, settled, up, lost := late[id := task], settled[id := p], up - {id}, lost + {id};
    }

    /** One message to a participant and its reply, or an error and a dead link; the message may then still arrive. */
    method SendAndRecv(id: nat, task: string) returns (rc: int, rmsg: string)
      requires Valid() && id in Ids() && Answers(settled[id], task)
      modifies `parts, `late, `settled, `stray, `up, `lost
      ensures Valid()
      ensures rc == KV_OK ==>
                id in old(up) && up == old(up) && lost == old(lost) &&
                Work(old(settled)[id], task) == Some((settled[id], rmsg))
      ensures rc != KV_OK ==>
                rc == NET_ERROR && up == old(up) - {id} && lost == old(lost) + {id} && rmsg == "" &&
                (settled[id] in {old(settled)[id], FRESH} ||
                 (id in old(up) && settled[id] == Work(old(settled)[id], task).value.0))
      ensures settled == old(settled)[id := settled[id]]
    {
      hide Consistent, Work, AllAccepted, Events, Ids, IdsUpTo, World;
      rc, rmsg := NET_ERROR, "";
      var requestLost, delayed, replyLost, crash := *, *, *, *;
      if id in up && !requestLost {
        LinkedIsSettled(id);
        if delayed {
          Delay(id, task);
          return;
        }
        var p, reply := Process(id, task);
        if !replyLost {
          rc, rmsg := KV_OK, reply;
          return;
        }
      }
      CutLink(id);
      if crash {
        Crash(id);
      }
    }

    /** The coordinator closes the link and waits for a new one. */
    method Close(id: nat)
      requires Valid() && id in Ids()
      modifies `up, `pstate
      ensures Valid() && up == old(up) - {id} && pstate == old(pstate)[id := P_WAITING]
    {
      hide Consistent, AllAccepted, Events, Ids, IdsUpTo, AllFollow;
      SameKeys(pstate, id, P_WAITING);
      up, pstate := up - {id}, pstate[id := P_WAITING];
      AllFollowLinks(parts, late, settled, old(up), stray, Committed(), up);
    }

    /** pWorking: what the coordinator gets for a task posted to participant id. */
    method PWorking(id: nat, task: string) returns (ret: int, data: string)
      requires Valid() && id in Ids() && Answers(settled[id], task)
      modifies `parts, `late, `settled, `stray, `up, `lost, `pstate
      ensures Valid() && settled == old(settled)[id := settled[id]]
      ensures old(pstate)[id] != P_WORKING ==>
                ret == RET_SKIP && data == "" && settled == old(settled) && up == old(up) && pstate == old(pstate) &&
                lost == old(lost)
      ensures old(pstate)[id] == P_WORKING && ret == KV_OK ==>
                id in old(up) && up == old(up) && pstate == old(pstate) && lost == old(lost) &&
                Work(old(settled)[id], task) == Some((settled[id], data))
      ensures old(pstate)[id] == P_WORKING && ret != KV_OK ==>
                up == old(up) - {id} && lost == old(lost) + {id} && data == "" && pstate == old(pstate)[id := P_WAITING] &&
                (settled[id] in {old(settled)[id], FRESH} ||
                 (id in old(up) && settled[id] == Work(old(settled)[id], task).value.0))
    {
      hide Consistent, Work, AllAccepted, Events, World, Answers, Ids, IdsUpTo;
      if pstate[id] != P_WORKING {
        return RET_SKIP, "";
      }
      ret, data := SendAndRecv(id, task);
      if ret != KV_OK {
        Close(id);
      }
    }

    /** The participants that work and can be reached. */
    ghost function Workers(): (ws: set<nat>)
      reads `pstate, `up
      ensures forall id: nat {:trigger id in ws} ::
                id in ws <==> id in Ids() && id in pstate && pstate[id] == P_WORKING && id in up
    {
      set id: nat | id in Ids() && id in pstate && pstate[id] == P_WORKING && id in up
    }

    lemma WorkersKnown()
      requires Valid()
      ensures forall id :: id in Workers() ==> 1 <= id <= pnum
    {
      hide Consistent, AllAccepted, Events, World;
    }

    /** Nobody has begun to work since, and only who was lost has stopped. */
    twostate predicate WorkersStay()
      reads this
    {
      Stay(old(Workers()), Workers(), old(lost), lost)
    }

    /** Where the participants stand in the commit round for event, those below next after their turn. */
    ghost predicate Round(p0: map<nat, Part>, event: string, next: nat, acked: bool)
      reads this
      requires Valid()
    {
      && p0.Keys == Ids()
      && forall id: nat {:trigger settled[id]} :: id in Ids() ==>
           InRound(p0[id], settled[id], pstate[id], id in up, Committed(), event, id < next, acked)
    }

    /** What happens around the coordinator leaves workers exact, and whoever worked still does unless lost. */
    method InterfereServing(ghost p0: map<nat, Part>)
      requires Valid() && Serving(p0)
      modifies `pstate, `parts, `late, `settled, `stray, `up, `tmpNum, `lost
      ensures Valid() && Serving(p0)
      ensures WorkersStay()
    {
      hide Moved, Serves, Events, Consistent, AllAccepted, World;
      Interfere(true);
      forall j: nat | j in Ids()
        ensures Serves(p0[j], settled[j], pstate[j], j in up, Committed())
      {
        assert Serves(p0[j], old(settled)[j], old(pstate)[j], j in old(up), Committed());
        MovedServes(old(pstate)[j], old(settled)[j], j in old(up), pstate[j], settled[j], j in up, p0[j], Committed());
      }
      forall j: nat | j in Ids()
        ensures j in Workers() ==> j in old(Workers())
        ensures j in old(Workers()) && j !in lost ==> j in Workers()
      {
        assert settled[j] == settled[j];
        MovedWorks(old(pstate)[j], old(settled)[j], j in old(up), pstate[j], settled[j], j in up);
      }
    }

    /** One participant's turn in the voting loop. */
    method VoteTurn(id: nat, voteReq: string, ghost p0: map<nat, Part>) returns (yes: bool)
      requires Valid() && Serving(p0) && FitsLong(txid) && id in Ids() && voteReq == LogToStr(Log(txid, LOG_PRE, ""))
      modifies `pstate, `parts, `late, `settled, `stray, `up, `tmpNum, `lost
      ensures Valid() && Serving(p0)
      ensures WorkersStay() && (id in Workers() <==> yes)
    {
      hide Consistent, Work, LogToStr, Moved, Serves, Events, AllAccepted, World;
      InterfereServing(p0);
      ServesMeans(p0[id], settled[id], pstate[id], id in up, Committed());
      PrepareAnswer(settled[id], txid);
      yes := VoteSend(id, voteReq, p0);
    }

    method VoteSend(id: nat, voteReq: string, ghost p0: map<nat, Part>) returns (yes: bool)
      requires Valid() && Serving(p0) && FitsLong(txid) && id in Ids() && voteReq == LogToStr(Log(txid, LOG_PRE, ""))
      modifies `pstate, `parts, `late, `settled, `stray, `up, `lost
      ensures Valid() && Serving(p0)
      ensures WorkersStay() && (id in Workers() <==> yes)
    {
      hide Consistent, Work, LogToStr, Moved, Serves, Events, AllAccepted, World;
      ServesMeans(p0[id], settled[id], pstate[id], id in up, Committed());
      PrepareAnswer(settled[id], txid);
      var ret, data := PWorking(id, voteReq);
      forall j: nat | j in Ids()
        ensures Serves(p0[j], settled[j], pstate[j], j in up, Committed())
      {
        assert Serves(p0[j], old(settled)[j], old(pstate)[j], j in old(up), Committed());
        TurnServes(old(settled)[j], old(pstate)[j], j in old(up), settled[j], pstate[j], j in up, p0[j], Committed());
      }
      yes := ret == KV_OK && data == "PRE";
    }

    /** The voting loop of UpdateDB: true when some working participant answers PRE. */
    method Vote(ghost p0: map<nat, Part>) returns (vote: bool)
      requires Valid() && Serving(p0) && FitsLong(txid)
      modifies `pstate, `parts, `late, `settled, `stray, `up, `tmpNum, `lost
      ensures Valid() && Serving(p0)
      ensures WorkersStay() && (Workers() != {} ==> vote) && (vote ==> old(Workers()) != {})
    {
      hide Consistent, LogToStr, Serves, Events, AllAccepted, World;
      var voteReq := LogToStr(Log(txid, LOG_PRE, ""));
      vote := false;
      for id := 1 to pnum + 1
        invariant Valid() && Serving(p0)
        invariant WorkersStay() && forall w :: w in Workers() && w < id ==> vote
        invariant vote ==> old(Workers()) != {}
      {
        var yes := VoteTurn(id, voteReq, p0);
        if yes {
          vote := true;
        }
      }
    }

    /** What happens around a commit round before the next participant's turn. */
    method InterfereInRound(ghost p0: map<nat, Part>, event: string, ghost next: nat, ghost acked: bool)
      requires Valid() && Round(p0, event, next, acked)
      modifies `pstate, `parts, `late, `settled, `stray, `up, `tmpNum, `lost
      ensures Valid() && Round(p0, event, next, acked)
      ensures WorkersStay()
    {
      hide Moved, InRound, Events, Accepted, Consistent, AllAccepted, World;
      ghost var committed := Committed();
      Interfere(true);
      forall j: nat | j in Ids()
        ensures InRound(p0[j], settled[j], pstate[j], j in up, committed, event, j < next, acked)
      {
        assert InRound(p0[j], old(settled)[j], old(pstate)[j], j in old(up), committed, event, j < next, acked);
        MovedInRound(old(pstate)[j], old(settled)[j], j in old(up), pstate[j], settled[j], j in up,
                     p0[j], committed, event, j < next, acked);
      }
      forall j: nat | j in Ids()
        ensures j in Workers() ==> j in old(Workers())
        ensures j in old(Workers()) && j !in lost ==> j in Workers()
      {
        assert settled[j] == settled[j];
        MovedWorks(old(pstate)[j], old(settled)[j], j in old(up), pstate[j], settled[j], j in up);
      }
    }

    /** One participant's turn in the commit loop. */
    method CommitTurn(id: nat, event: string, commitReq: string, ghost p0: map<nat, Part>, ghost acked: bool)
      returns (ret: int, data: string)
      requires Valid() && id in Ids() && Round(p0, event, id, acked) && FitsLong(txid) && Parses(event)
      requires commitReq == LogToStr(Log(txid, LOG_COMMIT, event))
      modifies `pstate, `parts, `late, `settled, `stray, `up, `tmpNum, `lost
      ensures Valid() && Round(p0, event, id + 1, acked || (ret == KV_OK && data != ERROR_MESSAGE))
      ensures ret == KV_OK && data != ERROR_MESSAGE ==>
                Accepted(event) && RunEvent(Replay(Committed()), event).Some? &&
                data == RunEvent(Replay(Committed()), event).value.1
      ensures WorkersStay() && (ret == KV_OK ==> id in Workers())
    {
      hide LogToStr, Round, Events, Accepted, RunEvent, Parses, Consistent, Replay, AllAccepted, World;
      InterfereInRound(p0, event, id, acked);
      ret, data := CommitSend(id, event, commitReq, p0, acked);
    }

    method CommitSend(id: nat, event: string, commitReq: string, ghost p0: map<nat, Part>, ghost acked: bool)
      returns (ret: int, data: string)
      requires Valid() && id in Ids() && Round(p0, event, id, acked) && FitsLong(txid) && Parses(event)
      requires commitReq == LogToStr(Log(txid, LOG_COMMIT, event))
      modifies `pstate, `parts, `late, `settled, `stray, `up, `lost
      ensures Valid() && Round(p0, event, id + 1, acked || (ret == KV_OK && data != ERROR_MESSAGE))
      ensures ret == KV_OK && data != ERROR_MESSAGE ==>
                Accepted(event) && RunEvent(Replay(Committed()), event).Some? &&
                data == RunEvent(Replay(Committed()), event).value.1
      ensures WorkersStay() && (ret == KV_OK ==> id in Workers())
    {
      hide Work, LogToStr, InRound, Events, Accepted, RunEvent, Parses, Consistent, Replay, AllAccepted, World;
      ghost var committed := Committed();
      CommitAnswer(settled[id], txid, event);
      ret, data := PWorking(id, commitReq);
      ghost var (q, reply) := Work(old(settled)[id], commitReq).value;
      ghost var acked' := acked || (ret == KV_OK && data != ERROR_MESSAGE);
      CommitTurnInRound(p0[id], old(settled)[id], old(pstate)[id], id in old(up), q, reply,
                        settled[id], pstate[id], id in up, ret, data, committed, event, acked);
      forall j: nat | j in Ids()
        ensures InRound(p0[j], settled[j], pstate[j], j in up, committed, event, j < id + 1, acked')
      {
        assert InRound(p0[j], old(settled)[j], old(pstate)[j], j in old(up), committed, event, j < id, acked);
        if j != id {
          assert j in up <==> j in old(up);
          RoundAcked(p0[j], settled[j], pstate[j], j in up, committed, event, j < id, acked);
        }
      }
    }

    /** The commit loop of UpdateDB: the last reply that is not an error, if there is one. */
    method Commit(event: string, ghost p0: map<nat, Part>) returns (commit: bool, rc: string)
      requires Valid() && Serving(p0) && FitsLong(txid) && Parses(event)
      modifies `pstate, `parts, `late, `settled, `stray, `up, `tmpNum, `lost
      ensures Valid() && Round(p0, event, pnum + 1, commit)
      ensures !commit ==> rc == ERROR_MESSAGE
      ensures commit ==>
                rc != ERROR_MESSAGE && Accepted(event) && RunEvent(Replay(Committed()), event).Some? &&
                rc == RunEvent(Replay(Committed()), event).value.1
      ensures WorkersStay() && (Workers() != {} && Accepted(event) ==> commit) && (commit ==> old(Workers()) != {})
    {
      hide Consistent, LogToStr, Serves, InRound, Events, Accepted, RunEvent, Parses, AllAccepted, World;
      var commitReq := LogToStr(Log(txid, LOG_COMMIT, event));
      commit, rc := false, ERROR_MESSAGE;
      forall id: nat | id in Ids()
        ensures InRound(p0[id], settled[id], pstate[id], id in up, Committed(), event, id < 1, false)
      {
        RoundStarts(p0[id], settled[id], pstate[id], id in up, Committed(), event);
      }
      for id := 1 to pnum + 1
        invariant Valid() && Round(p0, event, id, commit)
        invariant !commit ==> rc == ERROR_MESSAGE
        invariant commit ==>
                    rc != ERROR_MESSAGE && Accepted(event) && RunEvent(Replay(Committed()), event).Some? &&
                    rc == RunEvent(Replay(Committed()), event).value.1
        invariant WorkersStay() && (commit ==> old(Workers()) != {})
      {
        var ret, data := CommitTurn(id, event, commitReq, p0, commit);
        if ret == KV_OK && data != ERROR_MESSAGE {
          commit := true;
          rc := data;
        }
      }
      if Workers() != {} {
        ghost var w :| w in Workers();
        assert InRound(p0[w], settled[w], pstate[w], w in up, Committed(), event, w < pnum + 1, commit);
        HolderAcked(p0[w], settled[w], pstate[w], w in up, Committed(), event, commit);
      }
    }

    /** Every memory is p0's still, or lost, or, if that was tried, has taken in the event right behind the log committed. */
    ghost predicate Grown(p0: map<nat, Part>, committed: seq<string>, event: string, tried: bool)
      reads `settled
    {
      && p0.Keys == settled.Keys
      && forall id: nat {:trigger settled[id]} :: id in settled ==> GrownBy(p0[id], settled[id], committed, event, tried)
    }

    /** No participant holds the event right behind the log committed, or will once it has read what reached it. */
    ghost predicate NobodyHolds(committed: seq<string>, event: string)
      reads `settled
    {
      forall id: nat {:trigger settled[id]} :: id in settled ==> settled[id].log != committed + [event]
    }

    /** After a command that began in agreement, the logs agree unless somebody holds an event that is not committed. */
    lemma AgreementAfter(p0: map<nat, Part>, before: seq<string>, event: string, tried: bool)
      requires Valid() && Exact() && Grown(p0, before, event, tried)
      requires forall id: nat {:trigger p0[id]} :: id in p0 ==> p0[id].log <= before
      requires Committed() == before || Committed() == before + [event]
      ensures LogsComparable() && (!tried ==> Agreement())
      ensures Agreement() <==> Committed() != before || NobodyHolds(before, event)
    {
      hide Consistent, Events, Accepted, AllAccepted, World, Ids, IdsUpTo, PairwiseComparable;
      forall id: nat | id in Ids()
        ensures settled[id].log <= before || (tried && settled[id].log == before + [event])
        ensures pstate[id] == P_WORKING && id in up ==> settled[id].log == Committed()
      {
        assert GrownBy(p0[id], settled[id], before, event, tried);
        assert Serves(settled[id], settled[id], pstate[id], id in up, Committed());
      }
      OneEventAhead(settled, before, event, Committed());
      if Agreement() {
        forall id: nat | id in Ids()
          ensures settled[id].log <= Committed()
        {
          assert Agrees(settled[id], pstate[id], id in up, Committed());
        }
      }
    }

    lemma LogsCommitted()
      requires Valid() && Agreement()
      ensures Exact() && forall id: nat {:trigger settled[id]} :: id in Ids() ==> settled[id].log <= Committed()
    {
      hide Consistent, Events, AllAccepted, World;
      forall id: nat | id in Ids()
        ensures settled[id].log <= Committed() && Serves(settled[id], settled[id], pstate[id], id in up, Committed())
      {
        assert Agrees(settled[id], pstate[id], id in up, Committed());
      }
    }

    /**
     Two rounds with all participants for one SET or DEL. A reply other than an error is the
     single store's, and the event is then the next committed one; an error commits nothing,
     though participants cut off meanwhile may hold the event.
     */
    method UpdateDB(resp: string) returns (rc: string)
      requires Valid() && Exact() && FitsLong(txid + 1) && Parses(resp)
      modifies `pstate, `parts, `late, `settled, `stray, `up, `tmpNum, `lost, `lg, `txid
      ensures Valid() && Exact() && Grown(old(settled), old(Committed()), resp, true)
      ensures rc == ERROR_MESSAGE ==> Committed() == old(Committed())
      ensures rc != ERROR_MESSAGE ==>
                Committed() == old(Committed()) + [resp] && Accepted(resp) &&
                RunEvent(Replay(old(Committed())), resp) == Some((Replay(Committed()), rc))
      ensures WorkersStay() && (Workers() != {} && Accepted(resp) ==> rc != ERROR_MESSAGE)
      ensures rc != ERROR_MESSAGE ==> old(Workers()) != {}
      ensures old(Agreement()) ==>
                LogsComparable() && (Agreement() <==> rc != ERROR_MESSAGE || NobodyHolds(old(Committed()), resp))
    {
      hide Consistent, Serves, InRound, Events, Accepted, RunEvent, Parses, Replay, AllAccepted, World, GrownBy, Agreement,
           LogsComparable, NobodyHolds;
      ghost var p0, before, agreed := settled, Committed(), Agreement();
      if agreed {
        LogsCommitted();
      }
      rc := TwoRounds(resp);
      if agreed {
        AgreementAfter(p0, before, resp, true);
      }
    }

    method TwoRounds(resp: string) returns (rc: string)
      requires Valid() && Exact() && FitsLong(txid + 1) && Parses(resp)
      modifies `pstate, `parts, `late, `settled, `stray, `up, `tmpNum, `lost, `lg, `txid
      ensures Valid() && Exact() && Grown(old(settled), old(Committed()), resp, true)
      ensures rc == ERROR_MESSAGE ==> Committed() == old(Committed())
      ensures rc != ERROR_MESSAGE ==>
                Committed() == old(Committed()) + [resp] && Accepted(resp) &&
                RunEvent(Replay(old(Committed())), resp) == Some((Replay(Committed()), rc))
      ensures WorkersStay() && (Workers() != {} && Accepted(resp) ==> rc != ERROR_MESSAGE)
      ensures rc != ERROR_MESSAGE ==> old(Workers()) != {}
    {
      hide Consistent, Serves, InRound, Events, Accepted, RunEvent, Parses, Replay, AllAccepted, World, GrownBy,
           Workers, Ids, IdsUpTo, Stay;
      ghost var p0, w0, l0 := settled, Workers(), lost;
      ghost var committed := Committed();
      WritePrepared(resp);
      var vote := Vote(p0);
      ghost var w1, l1 := Workers(), lost;
      if !vote {
        ServedExactly(p0, resp, true);
        return ERROR_MESSAGE;
      }
      var commit;
      commit, rc := Commit(resp, p0);
      StayOn(w0, w1, Workers(), l0, l1, lost);
      if commit {
        Conclude(resp, p0);
        ReplayMore(committed, resp);
      } else {
        Abandoned(resp, p0);
      }
    }

    /** The event is noted under the next txid, as not committed yet. */
    method WritePrepared(resp: string)
      requires Valid()
      modifies `lg
      ensures Valid() && Committed() == old(Committed()) && lg == old(lg)[txid := Log(txid, LOG_PRE, resp)]
    {
      hide Consistent, Events, AllFollow, AllAccepted;
      EventsMore(lg, txid - TXID_START, Log(txid, LOG_PRE, resp));
      lg := lg[txid := Log(txid, LOG_PRE, resp)];
    }

    lemma ServedExactly(p0: map<nat, Part>, event: string, tried: bool)
      requires Valid() && Serving(p0)
      ensures Exact() && Grown(p0, Committed(), event, tried)
    {
      hide Consistent, Events, Accepted, World, AllAccepted;
      forall id: nat | id in Ids()
        ensures Serves(settled[id], settled[id], pstate[id], id in up, Committed())
        ensures GrownBy(p0[id], settled[id], Committed(), event, tried)
      {
        assert Serves(p0[id], settled[id], pstate[id], id in up, Committed());
      }
    }

    /** The round has an acknowledgement: its event is committed, and whoever holds nothing else is not astray. */
    method Conclude(resp: string, ghost p0: map<nat, Part>)
      requires Valid() && Round(p0, resp, pnum + 1, true) && Accepted(resp)
      requires txid in lg && lg[txid].id == txid && lg[txid].event == resp
      modifies `lg, `txid, `stray
      ensures Valid() && Exact() && txid == old(txid) + 1 && Committed() == old(Committed()) + [resp]
      ensures Grown(p0, old(Committed()), resp, true)
      ensures forall id :: id in stray <==> id in old(stray) && id in parts && !(parts[id].log <= Committed())
    {
      hide Consistent, Serves, InRound, Events, Accepted, AllAccepted, GrownBy;
      ghost var committed := Committed();
      CommitRecord(lg[txid].(state := LOG_COMMIT));
      forall id: nat | id in Ids()
        ensures Serves(settled[id], settled[id], pstate[id], id in up, Committed())
        ensures GrownBy(p0[id], settled[id], committed, resp, true)
      {
        assert InRound(p0[id], settled[id], pstate[id], id in up, committed, resp, true, true);
        RoundCommits(p0[id], settled[id], pstate[id], id in up, committed, resp);
      }
    }

    /** The coordinator's next record; participants whose whole log is committed by it are no longer astray. */
    method CommitRecord(l: Log)
      requires Valid() && l.id == txid && l.state == LOG_COMMIT && Accepted(l.event)
      modifies `lg, `txid, `stray
      ensures Valid() && lg == old(lg)[txid - 1 := l] && txid == old(txid) + 1
      ensures Committed() == old(Committed()) + [l.event]
      ensures forall id :: id in stray <==> id in old(stray) && id in parts && !(parts[id].log <= Committed())
    {
      hide Consistent, Events, Accepted, AllAccepted, AllFollow, Ids, IdsUpTo;
      AcceptedMore(Committed(), l.event);
      EventsMore(lg, txid - TXID_START, l);
      ghost var committed := Committed();
      lg := lg[txid := l];
      txid := txid + 1;
      stray := set id | id in stray && id in parts && !(parts[id].log <= Committed());
      AllFollowCommit(parts, late, settled, up, old(stray), committed, l.event, stray);
    }

    /** The round has none: nothing is committed, and nobody who works and can be reached has taken in the event. */
    lemma Abandoned(event: string, p0: map<nat, Part>)
      requires Valid() && Round(p0, event, pnum + 1, false)
      ensures Exact() && Grown(p0, Committed(), event, true)
    {
      hide Consistent, Serves, InRound, Events, Accepted, AllAccepted, World, GrownBy;
      forall id: nat | id in Ids()
        ensures Serves(settled[id], settled[id], pstate[id], id in up, Committed())
        ensures GrownBy(p0[id], settled[id], Committed(), event, true)
      {
        assert InRound(p0[id], settled[id], pstate[id], id in up, Committed(), event, true, false);
        RoundFails(p0[id], settled[id], pstate[id], id in up, Committed(), event);
      }
    }

    /** A GET goes from participant to participant until one answers; what it answers is the single store's reply. */
    method Request(resp: string, ghost p0: map<nat, Part>) returns (rc: string)
      requires Valid() && Serving(p0) && IsGet(resp)
      modifies `pstate, `parts, `late, `settled, `stray, `up, `tmpNum, `lost
      ensures Valid() && Serving(p0)
      ensures rc == ERROR_MESSAGE || Some((Replay(Committed()), rc)) == RunEvent(Replay(Committed()), resp)
      ensures WorkersStay() && (rc != ERROR_MESSAGE ==> old(Workers()) != {})
      ensures Workers() != {} ==> Some((Replay(Committed()), rc)) == RunEvent(Replay(Committed()), resp)
    {
      hide Consistent, Work, LogToStr, Serves, Events, RunEvent, Replay, IsGet, World, Workers, IdsUpTo, Stay;
      StayAtFirst(Workers(), lost);
      WorkersKnown();
      var getReq := LogToStr(Log(SUPER_TXID, LOG_COMMIT, resp));
      for id := 1 to pnum + 1
        invariant Valid() && Serving(p0)
        invariant WorkersStay() && forall w :: w in Workers() ==> w >= id
      {
        ghost var w0, l0 := Workers(), lost;
        InterfereServing(p0);
        ghost var w1, l1 := Workers(), lost;
        var ret, data := RequestTurn(id, resp, getReq, p0);
        StayOn(w0, w1, Workers(), l0, l1, lost);
        StayOn(old(Workers()), w0, Workers(), old(lost), l0, lost);
        if ret == KV_OK && data != "" {
          return data;
        }
      }
      return ERROR_MESSAGE;
    }

    method RequestTurn(id: nat, resp: string, getReq: string, ghost p0: map<nat, Part>)
      returns (ret: int, data: string)
      requires Valid() && Serving(p0) && IsGet(resp) && id in Ids()
      requires getReq == LogToStr(Log(SUPER_TXID, LOG_COMMIT, resp))
      modifies `pstate, `parts, `late, `settled, `stray, `up, `lost
      ensures Valid() && Serving(p0)
      ensures ret == KV_OK ==> Some((Replay(Committed()), data)) == RunEvent(Replay(Committed()), resp) && data != ""
      ensures WorkersStay() && (id in Workers() <==> ret == KV_OK)
    {
      hide Work, LogToStr, Moved, Serves, Events, RunEvent, Replay, IsGet, AllAccepted, World;
      GetAnswer(settled[id], resp);
      GetChangesNothing(settled[id].db, resp);
      ServesMeans(p0[id], settled[id], pstate[id], id in up, Committed());
      ret, data := PWorking(id, getReq);
      forall j: nat | j in Ids()
        ensures Serves(p0[j], settled[j], pstate[j], j in up, Committed())
      {
        assert Serves(p0[j], old(settled)[j], old(pstate)[j], j in old(up), Committed());
        TurnServes(old(settled)[j], old(pstate)[j], j in old(up), settled[j], pstate[j], j in up, p0[j], Committed());
      }
    }

    /** One client command, under the working mutex. */
    method Working(task: seq<string>) returns (rc: string)
      requires Valid() && Exact() && FitsLong(txid + 1) && Printable(task)
      modifies this
      ensures Valid() && Exact() && cworking == old(cworking)
      ensures Answered(Replay(old(Committed())), task, rc, Replay(Committed()))
      ensures Committed() == old(Committed()) ||
              (IsUpdate(task) && rc != ERROR_MESSAGE && Committed() == old(Committed()) + [ArrayMessage(task)])
      ensures Grown(old(settled), old(Committed()), ArrayMessage(task),
                    IsUpdate(task) && (rc == ERROR_MESSAGE || Committed() != old(Committed())))
      ensures Stay(old(Workers()), Workers(), {}, lost)
      ensures cworking && Workers() != {} && |task| >= 1 && task[0] in {"SET", "DEL", "GET"} ==>
                (Replay(Committed()), rc) == Execute(Replay(old(Committed())), task)
      ensures !cworking || old(Workers()) == {} ==> rc == ERROR_MESSAGE && Committed() == old(Committed())
      ensures old(Agreement()) ==>
                && LogsComparable() && (rc != ERROR_MESSAGE ==> Agreement())
                && (Agreement() <==> Committed() != old(Committed()) || NobodyHolds(old(Committed()), ArrayMessage(task)))
    {
      hide Serves, Events, Replay, Execute, Consistent, AllAccepted, Accepted, RunEvent, Parses, IsGet, ArrayMessage,
           Printable, World, GrownBy, Agreement, LogsComparable, NobodyHolds;
      ghost var p0, before, agreed := settled, Committed(), Agreement();
      if agreed {
        LogsCommitted();
      }
      rc := Command(task);
      if agreed {
        AgreementAfter(p0, before, ArrayMessage(task), IsUpdate(task) && (rc == ERROR_MESSAGE || Committed() != before));
      }
    }

    method Command(task: seq<string>) returns (rc: string)
      requires Valid() && Exact() && FitsLong(txid + 1) && Printable(task)
      modifies this
      ensures Valid() && Exact() && cworking == old(cworking)
      ensures Answered(Replay(old(Committed())), task, rc, Replay(Committed()))
      ensures Committed() == old(Committed()) ||
              (IsUpdate(task) && rc != ERROR_MESSAGE && Committed() == old(Committed()) + [ArrayMessage(task)])
      ensures Grown(old(settled), old(Committed()), ArrayMessage(task),
                    IsUpdate(task) && (rc == ERROR_MESSAGE || Committed() != old(Committed())))
      ensures Stay(old(Workers()), Workers(), {}, lost)
      ensures cworking && Workers() != {} && |task| >= 1 && task[0] in {"SET", "DEL", "GET"} ==>
                (Replay(Committed()), rc) == Execute(Replay(old(Committed())), task)
      ensures !cworking || old(Workers()) == {} ==> rc == ERROR_MESSAGE && Committed() == old(Committed())
    {
      hide Serves, Events, Replay, Execute, Consistent, AllAccepted, Accepted, RunEvent, Parses, IsGet, ArrayMessage,
           Printable, World, GrownBy, Agreement, LogsComparable, NobodyHolds;
      var resp := ArrayMessage(task);
      rc := ERROR_MESSAGE;
      ghost var p0 := settled;
      lost := {};
      ServedExactly(p0, resp, IsUpdate(task));
      if |task| < 1 || !cworking {
        return;
      }
      CommandReads(Replay(Committed()), task);
      if task[0] == "SET" || task[0] == "DEL" {
        rc := UpdateDB(resp);
      } else if task[0] == "GET" {
        rc := Request(resp, p0);
        ServedExactly(p0, resp, false);
      }
    }

    // ---------- recovery ----------

    ghost function Reported(id: nat): nat
      reads this
    {
      if id in maxTxidTB then maxTxidTB[id] else 0
    }

    /** Where the participants stand in phase ph, those below next after their turn for transaction ph.k. */
    ghost predicate InPlay(ph: Phase, asked: set<nat>, p0: map<nat, Part>, next: nat)
      reads this
      requires Valid() && p0.Keys == Ids()
    {
      && maxTxidTB.Keys <= asked <= Ids()
      && (forall id: nat {:trigger settled[id]} :: id in asked ==>
            Asked(At(ph, id < next), id == ph.lead, p0[id], settled[id], pstate[id], id in up, id in maxTxidTB,
                  Reported(id), id in lost))
      && (forall id: nat {:trigger settled[id]} :: id in Ids() && id !in asked ==>
            Left(p0[id], settled[id], pstate[id], id in maxTxidTB))
    }

    /** The coordinator's log is part of best, whose events are all known to be accepted. */
    ghost predicate Within(best: seq<string>)
      reads `lg, `txid
      requires txid >= TXID_START
    {
      Committed() <= best && AllAccepted(best) && FitsLong(TXID_START + |best|)
    }

    /** Moves of the world during a recovery: nobody reconnects. */
    method InterfereInPlay(ghost ph: Phase, ghost asked: set<nat>, ghost p0: map<nat, Part>, ghost next: nat)
      requires Valid() && p0.Keys == Ids() && InPlay(ph, asked, p0, next)
      modifies `pstate, `parts, `late, `settled, `stray, `up, `tmpNum, `lost
      ensures Valid() && InPlay(ph, asked, p0, next) && pstate == old(pstate)
    {
      hide Consistent, Moved, Asked, Left, World;
      label start:
      Interfere(false);
      forall id: nat | id in asked
        ensures Asked(At(ph, id < next), id == ph.lead, p0[id], settled[id], pstate[id], id in up, id in maxTxidTB,
                      Reported(id), id in lost)
      {
        assert id in Ids();
        assert Asked(At(ph, id < next), id == ph.lead, p0[id], old@start(settled)[id], old@start(pstate)[id], id in old@start(up),
                     id in maxTxidTB, Reported(id), id in old@start(lost));
        MovedAsked(At(ph, id < next), id == ph.lead, p0[id], old@start(settled)[id], old@start(pstate)[id], id in old@start(up),
                   id in maxTxidTB, Reported(id), id in old@start(lost), settled[id], id in up, id in lost);
      }
      forall id: nat | id in Ids() && id !in asked
        ensures Left(p0[id], settled[id], pstate[id], id in maxTxidTB)
      {
        assert Left(p0[id], old@start(settled)[id], old@start(pstate)[id], id in maxTxidTB);
        MovedLeft(p0[id], old@start(settled)[id], old@start(pstate)[id], id in maxTxidTB, id in old@start(up),
                  settled[id], id in up);
      }
    }

    /** Nothing about other participants has changed. */
    twostate predicate OnlyTouched(id: nat)
      requires pstate.Keys == settled.Keys == Ids() && old(pstate.Keys) == old(settled.Keys) == Ids()
      reads this
    {
      && (forall j: nat {:trigger settled[j]} :: j in Ids() && j != id ==>
            && settled[j] == old(settled)[j] && pstate[j] == old(pstate)[j] && (j in up <==> j in old(up))
            && (j in maxTxidTB <==> j in old(maxTxidTB)) && Reported(j) == old(Reported(j)) && (j in lost <==> j in old(lost)))
      && old(lost) <= lost
    }

    /** pRecovery passes a log record on only to a participant whose last transaction is the one before it. */
    ghost predicate Passes(id: nat, l: Log)
      reads this
    {
      l.id >= TXID_START ==> l.id == Reported(id) + 1
    }

    /** pRecovery: what the coordinator gets for a recovery task posted to participant id. */
    method PRecovery(id: nat, task: string) returns (ret: int, data: string)
      requires Valid() && id in Ids() && Answers(settled[id], task)
      requires StrToLog(task).Some?
      modifies `parts, `late, `settled, `stray, `up, `lost, `pstate, `maxTxidTB
      ensures Valid() && OnlyTouched(id) && maxTxidTB.Keys <= old(maxTxidTB.Keys) + {id}
      ensures old(pstate)[id] != P_RECOVERY ==>
                ret == RET_SKIP && settled[id] == old(settled)[id] && (id in up <==> id in old(up)) &&
                pstate[id] == old(pstate)[id] && lost == old(lost) && maxTxidTB == old(maxTxidTB)
      ensures old(pstate)[id] == P_RECOVERY && !old(Passes(id, StrToLog(task).value)) ==>
                ret == RET_SKIP && settled[id] == old(settled)[id] && (id in up <==> id in old(up)) &&
                pstate[id] == P_RECOVERY && lost == old(lost) && id in maxTxidTB && Reported(id) == old(Reported(id))
      ensures old(pstate)[id] == P_RECOVERY && old(Passes(id, StrToLog(task).value)) && ret == KV_OK ==>
                id in old(up) && id in up && pstate[id] == P_RECOVERY && lost == old(lost) &&
                Work(old(settled)[id], task) == Some((settled[id], data)) &&
                (data != ERROR_MESSAGE ==> id in maxTxidTB && Reported(id) == old(Reported(id)) + 1) &&
                (data == ERROR_MESSAGE ==> Reported(id) == old(Reported(id)) && (id in old(maxTxidTB) ==> id in maxTxidTB))
      ensures old(pstate)[id] == P_RECOVERY && old(Passes(id, StrToLog(task).value)) && ret != KV_OK ==>
                id !in up && id in lost && pstate[id] == P_WAITING && id !in maxTxidTB &&
                (settled[id] in {old(settled)[id], FRESH} ||
                 (id in old(up) && settled[id] == Work(old(settled)[id], task).value.0))
    {
      hide Consistent, Work, StrToLog, AllAccepted, Events, World;
      if pstate[id] != P_RECOVERY {
        return RET_SKIP, "";
      }
      var l := StrToLog(task).value;
      if l.id >= TXID_START {
        if id !in maxTxidTB {
          maxTxidTB := maxTxidTB[id := 0];
        }
        if l.id != maxTxidTB[id] + 1 {
          return RET_SKIP, "";
        }
      }
      ret, data := RecoverySend(id, task);
    }

    method RecoverySend(id: nat, task: string) returns (ret: int, data: string)
      requires Valid() && id in Ids() && Answers(settled[id], task)
      requires pstate[id] == P_RECOVERY
      modifies `parts, `late, `settled, `stray, `up, `lost, `pstate, `maxTxidTB
      ensures Valid() && OnlyTouched(id) && maxTxidTB.Keys <= old(maxTxidTB.Keys) + {id}
      ensures ret == KV_OK ==>
                id in old(up) && id in up && pstate[id] == P_RECOVERY && lost == old(lost) &&
                Work(old(settled)[id], task) == Some((settled[id], data)) &&
                (data != ERROR_MESSAGE ==> id in maxTxidTB && Reported(id) == old(Reported(id)) + 1) &&
                (data == ERROR_MESSAGE ==> maxTxidTB == old(maxTxidTB))
      ensures ret != KV_OK ==>
                id !in up && id in lost && pstate[id] == P_WAITING && id !in maxTxidTB &&
                (settled[id] in {old(settled)[id], FRESH} ||
                 (id in old(up) && settled[id] == Work(old(settled)[id], task).value.0))
    {
      hide Consistent, Work, AllAccepted, Events, Ids, IdsUpTo, World, Answers, Committed;
      ret, data := SendAndRecv(id, task);
      assert forall j: nat {:trigger settled[j]} :: j in Ids() && j != id ==>
               settled[j] == old(settled)[j] && (j in up <==> j in old(up)) && (j in lost <==> j in old(lost));
      if ret != KV_OK {
        Disconnect(id);
      } else if data != ERROR_MESSAGE {
        Advance(id);
      }
    }

    method Advance(id: nat)
      requires Valid() && id in Ids()
      modifies `maxTxidTB
      ensures Valid() && OnlyTouched(id) && id in maxTxidTB && Reported(id) == old(Reported(id)) + 1
      ensures maxTxidTB.Keys == old(maxTxidTB.Keys) + {id}
    {
      hide Consistent, AllAccepted, Events, World;
      maxTxidTB := maxTxidTB[id := (if id in maxTxidTB then maxTxidTB[id] else 0) + 1];
    }

    /** The link has failed: the coordinator closes it, waits for a new one and forgets what was reported. */
    method Disconnect(id: nat)
      requires Valid() && id in Ids()
      modifies `up, `pstate, `maxTxidTB
      ensures Valid() && OnlyTouched(id)
      ensures id !in up && id !in maxTxidTB && maxTxidTB.Keys <= old(maxTxidTB.Keys) && pstate[id] == P_WAITING
    {
      hide Consistent, AllAccepted, Events, Ids, IdsUpTo, World;
      Close(id);
      maxTxidTB := maxTxidTB - {id};
    }

    ghost predicate AskedNow(ph: Phase, p0: Part, id: nat)
      reads this
      requires pstate.Keys == settled.Keys == Ids() && id in Ids()
    {
      Asked(ph, id == ph.lead, p0, settled[id], pstate[id], id in up, id in maxTxidTB, Reported(id), id in lost)
    }

    ghost predicate LeftNow(p0: Part, id: nat)
      reads this
      requires pstate.Keys == settled.Keys == Ids() && id in Ids()
    {
      Left(p0, settled[id], pstate[id], id in maxTxidTB)
    }

    /** Transaction ph.k goes to participant id, if that is the next one it needs. */
    method PushSend(id: nat, rc: string, ghost ph: Phase, ghost p0: Part)
      requires Valid() && id in Ids() && (AskedNow(ph, p0, id) || LeftNow(p0, id)) && Within(ph.best)
      requires TXID_START <= ph.k <= ph.cap && ph.k - TXID_START < |ph.best|
      requires rc == LogToStr(Log(ph.k, LOG_COMMIT, ph.best[ph.k - TXID_START]))
      modifies `pstate, `parts, `late, `settled, `stray, `up, `lost, `maxTxidTB
      ensures Valid() && OnlyTouched(id) && maxTxidTB.Keys <= old(maxTxidTB.Keys)
      ensures old(AskedNow(ph, p0, id)) ==> AskedNow(At(ph, true), p0, id)
      ensures old(LeftNow(p0, id)) ==> LeftNow(p0, id)
    {
      hide Consistent, Work, StrToLog, LogToStr, Asked, Left, Events, AllAccepted, OnlyTouched, Ids, IdsUpTo, World;
      PushAnswer(ph.best, ph.k, settled[id], rc);
      ghost var p, s, linked, inTB, tb := settled[id], pstate[id], id in up, id in maxTxidTB, Reported(id);
      ghost var q, reply := Work(p, rc).value.0, Work(p, rc).value.1;
      if AskedNow(ph, p0, id) {
        AskedListed(ph, id == ph.lead, p0, p, s, linked, inTB, tb, id in lost);
      }
      if LeftNow(p0, id) {
        LeftWaits(p0, p, s, inTB);
      }
      ghost var lostBefore := id in lost;
      var ret, data := PRecovery(id, rc);
      if old(AskedNow(ph, p0, id)) {
        assert s != P_RECOVERY || tb + 1 != ph.k ==>
                 settled[id] == p && pstate[id] == s && (id in up) == linked && (id in maxTxidTB) == inTB && Reported(id) == tb;
        PushAsked(ph, id == ph.lead, p0, p, s, linked, inTB, tb, lostBefore, q, reply,
                  settled[id], pstate[id], id in up, id in maxTxidTB, Reported(id), id in lost);
      }
    }

    /** The world moves, then transaction ph.k goes to participant id. */
    method PushTurn(id: nat, rc: string, ghost ph: Phase, ghost asked: set<nat>, ghost p0: map<nat, Part>)
      requires Valid() && p0.Keys == Ids() && id in Ids() && InPlay(ph, asked, p0, id) && Within(ph.best)
      requires TXID_START <= ph.k <= ph.cap && ph.k - TXID_START < |ph.best|
      requires rc == LogToStr(Log(ph.k, LOG_COMMIT, ph.best[ph.k - TXID_START]))
      modifies `pstate, `parts, `late, `settled, `stray, `up, `tmpNum, `lost, `maxTxidTB
      ensures Valid() && InPlay(ph, asked, p0, id + 1) && maxTxidTB.Keys <= old(maxTxidTB.Keys)
    {
      hide Consistent, LogToStr, Moved, Asked, Left, Events, AllAccepted, World;
      InterfereInPlay(ph, asked, p0, id);
      PushInPlay(id, rc, ph, asked, p0);
    }

    method PushInPlay(id: nat, rc: string, ghost ph: Phase, ghost asked: set<nat>, ghost p0: map<nat, Part>)
      requires Valid() && p0.Keys == Ids() && id in Ids() && InPlay(ph, asked, p0, id) && Within(ph.best)
      requires TXID_START <= ph.k <= ph.cap && ph.k - TXID_START < |ph.best|
      requires rc == LogToStr(Log(ph.k, LOG_COMMIT, ph.best[ph.k - TXID_START]))
      modifies `pstate, `parts, `late, `settled, `stray, `up, `lost, `maxTxidTB
      ensures Valid() && InPlay(ph, asked, p0, id + 1) && maxTxidTB.Keys <= old(maxTxidTB.Keys)
    {
      hide Consistent, LogToStr, Moved, Asked, Left, Events, AllAccepted, World;
      assert id in asked ==> AskedNow(At(ph, false), p0[id], id);
      assert id !in asked ==> LeftNow(p0[id], id);
      PushSend(id, rc, ph, p0[id]);
      forall j: nat | j in asked
        ensures AskedNow(At(ph, j < id + 1), p0[j], j)
      {
        assert j in Ids();
        if j != id {
          assert old(AskedNow(At(ph, j < id), p0[j], j));
        }
      }
      forall j: nat | j in Ids() && j !in asked
        ensures LeftNow(p0[j], j)
      {
        assert old(LeftNow(p0[j], j));
      }
    }

    /** Transaction ph.k goes to every participant that needs it next. */
    method PushAll(rc: string, ghost ph: Phase, ghost asked: set<nat>, ghost p0: map<nat, Part>)
      requires Valid() && p0.Keys == Ids() && InPlay(ph, asked, p0, 0) && Within(ph.best)
      requires TXID_START <= ph.k <= ph.cap && ph.k - TXID_START < |ph.best|
      requires rc == LogToStr(Log(ph.k, LOG_COMMIT, ph.best[ph.k - TXID_START]))
      modifies `pstate, `parts, `late, `settled, `stray, `up, `tmpNum, `lost, `maxTxidTB
      ensures Valid() && InPlay(ph.(k := ph.k + 1), asked, p0, 0) && maxTxidTB.Keys <= old(maxTxidTB.Keys)
    {
      hide Consistent, LogToStr, Asked, Left, Events, AllAccepted, World;
      NextFirst(ph, asked, p0, 0, 1);
      for id := 1 to pnum + 1
        invariant Valid() && InPlay(ph, asked, p0, id) && maxTxidTB.Keys <= old(maxTxidTB.Keys)
      {
        PushTurn(id, rc, ph, asked, p0);
      }
      AllTurned(ph, asked, p0);
    }

    lemma NextFirst(ph: Phase, asked: set<nat>, p0: map<nat, Part>, a: nat, b: nat)
      requires Valid() && p0.Keys == Ids() && a <= 1 && b <= 1 && InPlay(ph, asked, p0, a)
      ensures InPlay(ph, asked, p0, b)
    {
      hide Consistent, Asked, Left, World;
      forall id: nat | id in asked
        ensures AskedNow(At(ph, id < b), p0[id], id)
      {
        assert id in Ids() && AskedNow(At(ph, id < a), p0[id], id);
      }
    }

    lemma AllTurned(ph: Phase, asked: set<nat>, p0: map<nat, Part>)
      requires Valid() && p0.Keys == Ids() && InPlay(ph, asked, p0, pnum + 1)
      ensures InPlay(ph.(k := ph.k + 1), asked, p0, 0)
    {
      hide Consistent, Asked, Left, World;
      forall id: nat | id in asked
        ensures AskedNow(ph.(k := ph.k + 1), p0[id], id)
      {
        assert id in Ids() && AskedNow(At(ph, id < pnum + 1), p0[id], id);
      }
    }

    /** getRecoveryLeader: the participant with the greatest txid beyond the coordinator's, 0 if there is none. */
    method GetRecoveryLeader() returns (leader: nat, maxID: nat)
      requires txid >= TXID_START && maxTxidTB.Keys <= Ids()
      ensures leader == 0 ==> maxID == txid - 1
      ensures leader != 0 ==> leader in maxTxidTB && maxID == maxTxidTB[leader] > txid - 1
      ensures forall id :: id in maxTxidTB ==> maxTxidTB[id] <= maxID
    {
      maxID, leader := txid - 1, 0;
      for id := 1 to pnum + 1
        invariant leader == 0 ==> maxID == txid - 1
        invariant leader != 0 ==> leader in maxTxidTB && maxID == maxTxidTB[leader] > txid - 1
        invariant forall j :: j in maxTxidTB && j < id ==> maxTxidTB[j] <= maxID
        invariant maxID >= txid - 1
      {
        if id in maxTxidTB && maxTxidTB[id] > maxID {
          maxID, leader := maxTxidTB[id], id;
        }
      }
    }

    /** recoveryFromC: every transaction of the coordinator's log, from the first, goes to whoever needs it next. */
    method RecoveryFromC(ghost ph: Phase, ghost asked: set<nat>, ghost p0: map<nat, Part>)
      requires Valid() && p0.Keys == Ids() && InPlay(ph, asked, p0, 0) && Within(ph.best)
      requires TXID_START <= ph.k && ph.cap == txid - 1
      modifies `pstate, `parts, `late, `settled, `stray, `up, `tmpNum, `lost, `maxTxidTB
      ensures Valid() && InPlay(ph.(k := txid), asked, p0, 0) && maxTxidTB.Keys <= old(maxTxidTB.Keys)
    {
      hide Consistent, LogToStr, Asked, Left, Events, AllAccepted, World;
      Earlier(ph, asked, p0, TXID_START);
      for tid := TXID_START to txid
        invariant Valid() && InPlay(ph.(k := tid), asked, p0, 0) && maxTxidTB.Keys <= old(maxTxidTB.Keys)
      {
        EventAt(lg, txid - TXID_START, tid, ph.best);
        assert lg[tid] == Log(tid, LOG_COMMIT, ph.best[tid - TXID_START]);
        PushAll(LogToStr(lg[tid]), ph.(k := tid), asked, p0);
      }
    }

    lemma Earlier(ph: Phase, asked: set<nat>, p0: map<nat, Part>, k: nat)
      requires Valid() && p0.Keys == Ids() && InPlay(ph, asked, p0, 0) && k <= ph.k
      ensures InPlay(ph.(k := k), asked, p0, 0)
    {
      hide Consistent, Left, Asked, World;
      forall id: nat | id in asked
        ensures AskedNow(ph.(k := k), p0[id], id)
      {
        assert id in Ids() && AskedNow(ph, p0[id], id);
        AskedCapped(ph, id == ph.lead, p0[id], settled[id], pstate[id], id in up, id in maxTxidTB, Reported(id), id in lost);
        AskedRephased(ph, ph.(k := k), id == ph.lead, id == ph.lead, p0[id], settled[id], pstate[id], id in up,
                      id in maxTxidTB, Reported(id), id in lost);
      }
    }

    /** A phase may be described anew: other bounds on the reported txids, and another leader if the old one is gone. */
    lemma Rephase(ph: Phase, ph': Phase, asked: set<nat>, p0: map<nat, Part>)
      requires Valid() && p0.Keys == Ids() && InPlay(ph, asked, p0, 0)
      requires ph'.best == ph.best
      requires forall id :: id in maxTxidTB ==>
                 (ph'.k <= ph.k || ph'.k <= maxTxidTB[id] + 1) && (ph.cap <= ph'.cap || maxTxidTB[id] <= ph'.cap)
      requires (ph'.lead == ph.lead && ph'.w == ph.w) ||
               (ph.lead in pstate && pstate[ph.lead] == P_WORKING ==> ph.lead !in up)
      ensures InPlay(ph', asked, p0, 0)
    {
      hide Consistent, Left, Asked, World;
      forall id: nat | id in asked
        ensures AskedNow(ph', p0[id], id)
      {
        assert id in Ids() && AskedNow(ph, p0[id], id);
        AskedRephased(ph, ph', id == ph.lead, id == ph'.lead, p0[id], settled[id], pstate[id], id in up,
                      id in maxTxidTB, Reported(id), id in lost);
      }
    }

    method AskSend(leader: nat, tid: nat, ghost ph: Phase, ghost p0: Part) returns (ok: bool, rc: string)
      requires Valid() && leader in Ids() && leader == ph.lead && AskedNow(ph, p0, leader)
      requires TXID_START <= tid <= ph.w && FitsLong(tid)
      modifies `pstate, `parts, `late, `settled, `stray, `up, `lost
      ensures Valid() && AskedNow(ph, p0, leader)
      ensures settled == old(settled)[leader := settled[leader]] && pstate == old(pstate)[leader := pstate[leader]]
      ensures (up == old(up) && lost == old(lost)) || (up == old(up) - {leader} && lost == old(lost) + {leader})
      ensures ok ==> tid - TXID_START < |ph.best| && rc == LogToStr(Log(tid, LOG_COMMIT, ph.best[tid - TXID_START]))
      ensures !ok && pstate[leader] == P_WORKING ==> leader !in up
    {
      hide Consistent, Work, LogToStr, Asked, Events, AllAccepted, Ids, IdsUpTo, OnlyTouched, Digits, FitsLong, World;
      AskAnswer(settled[leader], tid);
      LeaderLog(ph, p0, settled[leader], pstate[leader], leader in up, leader in maxTxidTB, Reported(leader), leader in lost);
      ghost var p, s, linked, lostBefore := settled[leader], pstate[leader], leader in up, leader in lost;
      if tid < Txid(p) {
        RecordIsNotEmpty(Log(tid, LOG_COMMIT, p.log[tid - TXID_START]));
      }
      ok, rc := false, "";
      var ret, data := PWorking(leader, LogToStr(Log(ASK_DATA_TXID, LOG_COMMIT, Digits(tid))));
      LeaderStays(ph, p0, p, s, linked, leader in maxTxidTB, Reported(leader), lostBefore,
                  settled[leader], pstate[leader], leader in up, leader in lost);
      if ret == KV_OK && data != "" {
        ok, rc := true, data;
      }
    }

    /** Asks the leader for transaction tid; on any failure the leader is no longer a reachable working one. */
    method AskLeader(leader: nat, tid: nat, ghost ph: Phase, ghost asked: set<nat>, ghost p0: map<nat, Part>)
      returns (ok: bool, rc: string)
      requires Valid() && p0.Keys == Ids() && InPlay(ph, asked, p0, 0) && leader in asked && leader == ph.lead
      requires TXID_START <= tid <= ph.w && FitsLong(tid)
      modifies `pstate, `parts, `late, `settled, `stray, `up, `tmpNum, `lost
      ensures Valid() && InPlay(ph, asked, p0, 0)
      ensures ok ==> tid - TXID_START < |ph.best| && rc == LogToStr(Log(tid, LOG_COMMIT, ph.best[tid - TXID_START]))
      ensures !ok && pstate[leader] == P_WORKING ==> leader !in up
    {
      hide Consistent, LogToStr, Moved, Asked, Left, World;
      InterfereInPlay(ph, asked, p0, 0);
      ok, rc := AskInPlay(leader, tid, ph, asked, p0);
    }

    method AskInPlay(leader: nat, tid: nat, ghost ph: Phase, ghost asked: set<nat>, ghost p0: map<nat, Part>)
      returns (ok: bool, rc: string)
      requires Valid() && p0.Keys == Ids() && InPlay(ph, asked, p0, 0) && leader in asked && leader == ph.lead
      requires TXID_START <= tid <= ph.w && FitsLong(tid)
      modifies `pstate, `parts, `late, `settled, `stray, `up, `lost
      ensures Valid() && InPlay(ph, asked, p0, 0)
      ensures ok ==> tid - TXID_START < |ph.best| && rc == LogToStr(Log(tid, LOG_COMMIT, ph.best[tid - TXID_START]))
      ensures !ok && pstate[leader] == P_WORKING ==> leader !in up
    {
      hide Consistent, LogToStr, Moved, Asked, Left, World;
      assert leader in Ids() && AskedNow(At(ph, false), p0[leader], leader);
      ok, rc := AskSend(leader, tid, ph, p0[leader]);
      forall j: nat | j in asked
        ensures AskedNow(ph, p0[j], j)
      {
        assert j in Ids();
        if j != leader {
          assert old(AskedNow(ph, p0[j], j));
        }
      }
      forall j: nat | j in Ids() && j !in asked
        ensures LeftNow(p0[j], j)
      {
        assert old(LeftNow(p0[j], j));
      }
    }

    lemma ReportsBounded(ph: Phase, asked: set<nat>, p0: map<nat, Part>)
      requires Valid() && p0.Keys == Ids() && InPlay(ph, asked, p0, 0)
      ensures forall id :: id in maxTxidTB ==> ph.k <= maxTxidTB[id] + 1 && maxTxidTB[id] <= ph.cap
      ensures maxTxidTB.Keys <= asked <= Ids()
    {
      hide Consistent, Asked, Left, World;
      forall id | id in maxTxidTB
        ensures ph.k <= maxTxidTB[id] + 1 && maxTxidTB[id] <= ph.cap
      {
        assert id in Ids() && AskedNow(ph, p0[id], id);
        AskedCapped(ph, id == ph.lead, p0[id], settled[id], pstate[id], id in up, id in maxTxidTB, Reported(id), id in lost);
      }
    }

    /** The leader is put to work before the others, and leaves the table of reported txids. */
    method Promote(leader: nat, ghost ph: Phase, ghost asked: set<nat>, ghost p0: map<nat, Part>)
      requires Valid() && p0.Keys == Ids() && InPlay(ph, asked, p0, 0) && leader in maxTxidTB && ph.lead == 0
      modifies `pstate, `maxTxidTB
      ensures Valid() && maxTxidTB == old(maxTxidTB) - {leader} && leader in asked
      ensures InPlay(ph.(lead := leader, w := old(maxTxidTB)[leader]), asked, p0, 0)
    {
      hide Consistent, Asked, Left, Events, AllAccepted, World;
      ghost var ph' := ph.(lead := leader, w := maxTxidTB[leader]);
      SameKeys(pstate, leader, P_WORKING);
      pstate := pstate[leader := P_WORKING];
      maxTxidTB := maxTxidTB - {leader};
      forall j: nat | j in asked
        ensures AskedNow(ph', p0[j], j)
      {
        assert j in Ids() && old(AskedNow(ph, p0[j], j));
        if j == leader {
          AskedLeads(ph, ph', false, p0[j], settled[j], old(pstate)[j], j in up, old(maxTxidTB)[j], j in lost);
        } else {
          assert Reported(j) == old(Reported(j));
          AskedRephased(ph, ph', false, false, p0[j], settled[j], pstate[j], j in up, j in maxTxidTB, Reported(j), j in lost);
        }
      }
      forall j: nat | j in Ids() && j !in asked
        ensures LeftNow(p0[j], j)
      {
        assert old(LeftNow(p0[j], j));
      }
    }

    /** A record the leader sent enters the coordinator's log if it is the next one there. */
    method TakeRecord(rc: string, ghost ph: Phase, ghost asked: set<nat>, ghost p0: map<nat, Part>)
      requires Valid() && p0.Keys == Ids() && InPlay(ph, asked, p0, 0) && Within(ph.best)
      requires TXID_START <= ph.k <= txid && ph.k - TXID_START < |ph.best|
      requires rc == LogToStr(Log(ph.k, LOG_COMMIT, ph.best[ph.k - TXID_START]))
      modifies `lg, `txid, `stray
      ensures Valid() && InPlay(ph, asked, p0, 0) && Within(ph.best)
      ensures txid == (if ph.k == old(txid) then ph.k + 1 else old(txid))
      ensures old(Committed()) <= Committed()
    {
      hide Consistent, LogToStr, StrToLog, Events, AllAccepted, Accepted, Asked, Left, World, Ids, IdsUpTo;
      ghost var best, tid := ph.best, ph.k;
      RecordReadsBack(Log(tid, LOG_COMMIT, best[tid - TXID_START]));
      var tempLog := StrToLog(rc).value;
      if tempLog.id == txid {
        AllAcceptedAt(best, tid - TXID_START);
        CommitRecord(tempLog);
        assert Committed() == best[..txid - TXID_START];
      }
    }

    /**
     Sends out the leader's transactions from min to maxID one by one. Either all of them have
     been sent and the coordinator holds them, or the leader is no longer reachable and working.
     */
    method LeaderRound(leader: nat, min: nat, maxID: nat, ghost best: seq<string>, ghost asked: set<nat>,
                       ghost p0: map<nat, Part>)
      returns (done: bool, minID: nat)
      requires Valid() && p0.Keys == Ids() && InPlay(Phase(best, min, maxID, leader, maxID), asked, p0, 0) && Within(best)
      requires TXID_START <= min <= txid <= maxID <= TXID_START + |best| && leader in asked
      modifies this
      ensures Valid() && InPlay(Phase(best, minID, maxID, leader, maxID), asked, p0, 0) && Within(best)
      ensures maxTxidTB.Keys <= old(maxTxidTB.Keys) && old(Committed()) <= Committed() && min <= minID <= txid
      ensures done ==> txid == maxID + 1
      ensures !done && pstate[leader] == P_WORKING ==> leader !in up
    {
      hide Consistent, LogToStr, InPlay, Events, AllAccepted, World;
      minID := min;
      while minID <= maxID
        invariant Valid() && InPlay(Phase(best, minID, maxID, leader, maxID), asked, p0, 0) && Within(best)
        invariant maxTxidTB.Keys <= old(maxTxidTB.Keys) && old(Committed()) <= Committed()
        invariant min <= minID <= txid <= maxID + 1
      {
        ghost var ph := Phase(best, minID, maxID, leader, maxID);
        var ok, rc := AskLeader(leader, minID, ph, asked, p0);
        if !ok {
          return false, minID;
        }
        TakeRecord(rc, ph, asked, p0);
        PushAll(rc, ph, asked, p0);
        minID := minID + 1;
      }
      done := true;
    }

    /** One leader of recoveryFromP: it leaves the table, and hands over what it has unless it is lost. */
    method ServeLeader(leader: nat, min: nat, maxID: nat, ghost best: seq<string>, ghost asked: set<nat>,
                       ghost p0: map<nat, Part>)
      returns (minID: nat, ghost lead: nat)
      requires Valid() && p0.Keys == Ids() && Within(best) && TXID_START <= min <= txid
      requires InPlay(Phase(best, min, TXID_START + |best|, 0, txid - 1), asked, p0, 0)
      requires leader in maxTxidTB && maxTxidTB[leader] == maxID && maxID >= txid
      requires forall id :: id in maxTxidTB ==> maxTxidTB[id] <= maxID
      modifies this
      ensures Valid() && Within(best) && old(Committed()) <= Committed()
      ensures TXID_START <= minID <= txid && InPlay(Phase(best, minID, TXID_START + |best|, lead, txid - 1), asked, p0, 0)
      ensures lead != 0 ==> forall id :: id in maxTxidTB ==> maxTxidTB[id] <= txid - 1
      ensures maxTxidTB.Keys <= old(maxTxidTB.Keys) - {leader}
    {
      hide Consistent, InPlay, Within, Events, AllAccepted, Ids, IdsUpTo, World;
      ghost var top := TXID_START + |best|;
      ReportsBounded(Phase(best, min, top, 0, txid - 1), asked, p0);
      Promote(leader, Phase(best, min, top, 0, txid - 1), asked, p0);
      Rephase(Phase(best, min, top, leader, maxID), Phase(best, min, maxID, leader, maxID), asked, p0);
      var done;
      done, minID := LeaderRound(leader, min, maxID, best, asked, p0);
      ReportsBounded(Phase(best, minID, maxID, leader, maxID), asked, p0);
      lead := if done then leader else 0;
      Rephase(Phase(best, minID, maxID, leader, maxID), Phase(best, minID, top, lead, txid - 1), asked, p0);
    }

    /**
     recoveryFromP: leader after leader hands over what the coordinator lacks, until nobody has
     more than it; then it sends out its own log. Each round takes an entry from maxTxidTB.
     */
    method RecoveryFromP(min: nat, ghost best: seq<string>, ghost asked: set<nat>, ghost p0: map<nat, Part>)
      returns (ghost lead: nat)
      requires Valid() && p0.Keys == Ids() && Within(best) && TXID_START <= min <= txid
      requires InPlay(Phase(best, min, TXID_START + |best|, 0, txid - 1), asked, p0, 0)
      modifies this
      ensures Valid() && Within(best) && old(Committed()) <= Committed()
      ensures InPlay(Phase(best, txid, txid - 1, lead, txid - 1), asked, p0, 0)
    {
      hide Consistent, InPlay, Within, Events, AllAccepted, Ids, IdsUpTo, World;
      ghost var top := TXID_START + |best|;
      var minID := min;
      lead := 0;
      while true
        invariant Valid() && Within(best) && old(Committed()) <= Committed()
        invariant TXID_START <= minID <= txid && InPlay(Phase(best, minID, top, lead, txid - 1), asked, p0, 0)
        invariant lead != 0 ==> forall id :: id in maxTxidTB ==> maxTxidTB[id] <= txid - 1
        decreases maxTxidTB.Keys
      {
        ghost var ph := Phase(best, minID, top, lead, txid - 1);
        ReportsBounded(ph, asked, p0);
        var leader, maxID := GetRecoveryLeader();
        if leader == 0 {
          Rephase(ph, ph.(cap := txid - 1), asked, p0);
          RecoveryFromC(ph.(cap := txid - 1), asked, p0);
          break;
        }
        minID, lead := ServeLeader(leader, minID, maxID, best, asked, p0);
      }
    }

    // ---------- the whole recovery ----------

    /** Of any two logs, the coordinator's included, one is a prefix of the other, also once late requests are read. */
    predicate LogsComparable()
      reads `settled, `lg, `txid
      requires txid >= TXID_START
    {
      PairwiseComparable(settled, Committed())
    }

    ghost predicate LogsFit()
      reads `settled, `txid
    {
      FitsLong(txid) && forall id {:trigger settled[id]} :: id in settled ==> FitsLong(TXID_START + |settled[id].log|)
    }

    ghost function LongestUpTo(n: nat): seq<string>
      reads this
      requires Valid() && n <= pnum
    {
      if n == 0 then Committed()
      else if pstate[n] != P_WAITING && |settled[n].log| > |LongestUpTo(n - 1)| then settled[n].log
      else LongestUpTo(n - 1)
    }

    lemma {:induction false} LongestUpToIsLongest(n: nat)
      requires Valid() && LogsComparable() && n <= pnum
      ensures Committed() <= LongestUpTo(n)
      ensures forall id: nat {:trigger settled[id]} :: 1 <= id <= n && pstate[id] != P_WAITING ==>
                settled[id].log <= LongestUpTo(n)
      ensures LongestUpTo(n) == Committed() || exists id: nat {:trigger settled[id]} ::
                id in Ids() && pstate[id] != P_WAITING && LongestUpTo(n) == settled[id].log
    {
      hide Consistent, Events, AllAccepted, FitsLong, World;
      if n > 0 {
        LongestUpToIsLongest(n - 1);
        assert n in Ids();
        assert Comparable(settled[n].log, LongestUpTo(n - 1));
      }
    }

    /** The longest log is one that recovery can work towards. */
    lemma LongestServes(longest: seq<string>)
      requires Valid() && LogsComparable() && LogsFit() && LongestOf(longest, settled, pstate, Committed())
      ensures Within(longest)
    {
      hide Events, AllAccepted, Comparable, World;
      if longest == Committed() {
        assert Within(longest);
      } else {
        var id: nat :| id in Ids() && pstate[id] != P_WAITING && longest == settled[id].log;
        assert Consistent(settled[id]);
      }
    }

    lemma LongestExists() returns (best: seq<string>)
      requires Valid() && LogsComparable() && LogsFit()
      ensures LongestOf(best, settled, pstate, Committed()) && Within(best)
    {
      hide Consistent, Events, AllAccepted, FitsLong, Comparable, Within, LogsComparable, World;
      best := LongestUpTo(pnum);
      LongestUpToIsLongest(pnum);
      LongestServes(best);
    }

    /** Where the participants stand while they are asked for their last txid, those below next already asked. */
    ghost predicate Asking(best: seq<string>, asked: set<nat>, p0: map<nat, Part>, next: nat)
      reads this
      requires Valid() && p0.Keys == Ids()
    {
      && maxTxidTB.Keys <= asked <= Ids()
      && (forall id: nat {:trigger settled[id]} :: id in asked && id < next ==>
            AskedNow(Phase(best, TXID_START, TXID_START + |best|, 0, 0), p0[id], id))
      && (forall id: nat {:trigger settled[id]} :: id in asked && id >= next ==> UnaskedNow(best, p0[id], id))
      && (forall id: nat {:trigger settled[id]} :: id in Ids() && id !in asked ==> LeftNow(p0[id], id))
    }

    ghost predicate UnaskedNow(best: seq<string>, p0: Part, id: nat)
      reads this
      requires pstate.Keys == settled.Keys == Ids() && id in Ids()
    {
      Unasked(best, p0, settled[id], pstate[id], id in up, id in maxTxidTB, id in lost)
    }

    method InterfereAsking(ghost best: seq<string>, ghost asked: set<nat>, ghost p0: map<nat, Part>, ghost next: nat)
      requires Valid() && p0.Keys == Ids() && Asking(best, asked, p0, next)
      modifies `pstate, `parts, `late, `settled, `stray, `up, `tmpNum, `lost
      ensures Valid() && Asking(best, asked, p0, next)
    {
      hide Consistent, Moved, Asked, Left, Unasked, Events, AllAccepted, World;
      ghost var ph := Phase(best, TXID_START, TXID_START + |best|, 0, 0);
      Interfere(false);
      forall id: nat | id in asked && id < next
        ensures AskedNow(ph, p0[id], id)
      {
        assert id in Ids() && old(AskedNow(ph, p0[id], id));
        MovedAsked(ph, id == ph.lead, p0[id], old(settled)[id], old(pstate)[id], id in old(up),
                   id in maxTxidTB, Reported(id), id in old(lost), settled[id], id in up, id in lost);
      }
      forall id: nat | id in asked && id >= next
        ensures UnaskedNow(best, p0[id], id)
      {
        assert id in Ids() && old(UnaskedNow(best, p0[id], id));
        MovedUnasked(best, p0[id], old(settled)[id], old(pstate)[id], id in old(up), id in maxTxidTB, id in old(lost),
                     settled[id], id in up, id in lost);
      }
      forall id: nat | id in Ids() && id !in asked
        ensures LeftNow(p0[id], id)
      {
        assert old(LeftNow(p0[id], id));
        MovedLeft(p0[id], old(settled)[id], old(pstate)[id], id in maxTxidTB, id in old(up), settled[id], id in up);
      }
    }

    /** One participant is asked for its last txid. */
    method AskTxid(id: nat, txidReq: string, ghost best: seq<string>, ghost p0: Part)
      requires Valid() && id in Ids() && (UnaskedNow(best, p0, id) || LeftNow(p0, id)) && FitsLong(TXID_START + |best|)
      requires txidReq == LogToStr(Log(RECOVERY_TXID, LOG_PRE, ""))
      modifies `parts, `late, `settled, `stray, `up, `lost, `pstate, `maxTxidTB
      ensures Valid() && OnlyTouched(id)
      ensures old(UnaskedNow(best, p0, id)) ==> AskedNow(Phase(best, TXID_START, TXID_START + |best|, 0, 0), p0, id)
      ensures old(LeftNow(p0, id)) ==> LeftNow(p0, id)
      ensures maxTxidTB.Keys <= old(maxTxidTB.Keys) + {id}
      ensures old(pstate)[id] != P_RECOVERY ==> maxTxidTB.Keys <= old(maxTxidTB.Keys)
    {
      hide Consistent, LogToStr, Asked, Unasked, Left, Events, AllAccepted, World, OnlyTouched;
      ghost var p, s, linked, inTB, lostBefore := settled[id], pstate[id], id in up, id in maxTxidTB, id in lost;
      if UnaskedNow(best, p0, id) {
        UnaskedRecovers(best, p0, p, s, linked, inTB, id in lost);
      }
      if LeftNow(p0, id) {
        LeftWaits(p0, p, s, inTB);
      }
      CollectTxid(id, txidReq);
      if old(UnaskedNow(best, p0, id)) {
        AskingIsAsked(best, p0, p, s, linked, inTB, lostBefore,
                      settled[id], pstate[id], id in up, id in maxTxidTB, Reported(id), id in lost);
      }
    }

    /** A participant in recovery reports its last txid, or its link fails. */
    method CollectTxid(id: nat, txidReq: string)
      requires Valid() && id in Ids() && txidReq == LogToStr(Log(RECOVERY_TXID, LOG_PRE, ""))
      requires pstate[id] == P_RECOVERY ==> FitsLong(Txid(settled[id])) && id !in maxTxidTB
      modifies `parts, `late, `settled, `stray, `up, `lost, `pstate, `maxTxidTB
      ensures Valid() && OnlyTouched(id) && maxTxidTB.Keys <= old(maxTxidTB.Keys) + {id}
      ensures old(pstate)[id] != P_RECOVERY ==>
                settled[id] == old(settled)[id] && pstate[id] == old(pstate)[id] && (id in up <==> id in old(up)) &&
                lost == old(lost) && maxTxidTB == old(maxTxidTB)
      ensures old(pstate)[id] == P_RECOVERY ==>
                || (id in old(up) && id in up && pstate[id] == P_RECOVERY && settled[id] == old(settled)[id] &&
                    lost == old(lost) && id in maxTxidTB && Reported(id) + 1 == Txid(settled[id]))
                || (id !in up && pstate[id] == P_WAITING && id !in maxTxidTB && id in lost &&
                    settled[id] in {old(settled)[id], FRESH})
    {
      hide Consistent, Work, StrToLog, LogToStr, Strtol, Digits, Events, AllAccepted, World;
      RecordReadsBack(Log(RECOVERY_TXID, LOG_PRE, ""));
      MaxTxidAnswer(settled[id]);
      var ret, data := PRecovery(id, txidReq);
      if ret == KV_OK && data != "" {
        Report(id, ToUnsigned(Strtol(data), TWO_64));
      }
    }

    method Report(id: nat, last: nat)
      requires Valid() && id in Ids()
      modifies `maxTxidTB
      ensures Valid() && OnlyTouched(id) && maxTxidTB == old(maxTxidTB)[id := last]
    {
      hide Consistent, AllAccepted, Events, World;
      maxTxidTB := maxTxidTB[id := last];
    }

    /** One participant's turn in the asking loop; agrees tells that it reported no txid but the coordinator's last. */
    method AskTurn(id: nat, txidReq: string, ghost best: seq<string>, ghost asked: set<nat>, ghost p0: map<nat, Part>)
      returns (agrees: bool)
      requires Valid() && p0.Keys == Ids() && Asking(best, asked, p0, id) && id in Ids() && FitsLong(TXID_START + |best|)
      requires txidReq == LogToStr(Log(RECOVERY_TXID, LOG_PRE, ""))
      modifies `pstate, `parts, `late, `settled, `stray, `up, `tmpNum, `lost, `maxTxidTB
      ensures Valid() && Asking(best, asked, p0, id + 1)
      ensures agrees && (forall j :: j in old(maxTxidTB) ==> old(maxTxidTB)[j] == txid - 1) ==>
                forall j :: j in maxTxidTB ==> maxTxidTB[j] == txid - 1
    {
      hide Consistent, LogToStr, Asked, Left, Unasked, Events, AllAccepted, World;
      InterfereAsking(best, asked, p0, id);
      ghost var before := maxTxidTB;
      AskInTurn(id, txidReq, best, asked, p0);
      forall j | j in maxTxidTB && j != id
        ensures j in before && maxTxidTB[j] == before[j]
      {
        var touched := settled[j];
      }
      agrees := id in maxTxidTB ==> maxTxidTB[id] == txid - 1;
    }

    method AskInTurn(id: nat, txidReq: string, ghost best: seq<string>, ghost asked: set<nat>, ghost p0: map<nat, Part>)
      requires Valid() && p0.Keys == Ids() && Asking(best, asked, p0, id) && id in Ids() && FitsLong(TXID_START + |best|)
      requires txidReq == LogToStr(Log(RECOVERY_TXID, LOG_PRE, ""))
      modifies `parts, `late, `settled, `stray, `up, `lost, `pstate, `maxTxidTB
      ensures Valid() && Asking(best, asked, p0, id + 1) && OnlyTouched(id)
    {
      hide Consistent, LogToStr, Asked, Left, Unasked, Events, AllAccepted, IdsUpTo, World;
      ghost var ph := Phase(best, TXID_START, TXID_START + |best|, 0, 0);
      assert id in asked ==> UnaskedNow(best, p0[id], id);
      assert id !in asked ==> LeftNow(p0[id], id);
      if id !in asked {
        LeftWaits(p0[id], settled[id], pstate[id], id in maxTxidTB);
      }
      AskTxid(id, txidReq, best, p0[id]);
      forall j: nat | j in asked && j < id + 1
        ensures AskedNow(ph, p0[j], j)
      {
        assert j in Ids();
        if j != id {
          assert old(AskedNow(ph, p0[j], j));
        }
      }
      forall j: nat | j in asked && j >= id + 1
        ensures UnaskedNow(best, p0[j], j)
      {
        assert j in Ids() && old(UnaskedNow(best, p0[j], j));
      }
      forall j: nat | j in Ids() && j !in asked
        ensures LeftNow(p0[j], j)
      {
        assert old(LeftNow(p0[j], j));
      }
    }

    /** All participants are asked; consistent tells that whoever reported holds exactly the coordinator's transactions. */
    method AskAll(ghost best: seq<string>, ghost asked: set<nat>, ghost p0: map<nat, Part>) returns (consistent: bool)
      requires Valid() && p0.Keys == Ids() && Asking(best, asked, p0, 1) && Within(best) && maxTxidTB == map[]
      modifies `pstate, `parts, `late, `settled, `stray, `up, `tmpNum, `lost, `maxTxidTB
      ensures Valid() && Within(best) && InPlay(Phase(best, TXID_START, TXID_START + |best|, 0, 0), asked, p0, 0)
      ensures consistent ==> forall j :: j in maxTxidTB ==> maxTxidTB[j] == txid - 1
    {
      hide Consistent, LogToStr, Asked, Left, Unasked, Events, AllAccepted, World;
      var txidReq := LogToStr(Log(RECOVERY_TXID, LOG_PRE, ""));
      consistent := true;
      for id := 1 to pnum + 1
        invariant Valid() && Asking(best, asked, p0, id)
        invariant consistent ==> forall j :: j in maxTxidTB ==> maxTxidTB[j] == txid - 1
      {
        var agrees := AskTurn(id, txidReq, best, asked, p0);
        if !agrees {
          consistent := false;
        }
      }
      ghost var ph := Phase(best, TXID_START, TXID_START + |best|, 0, 0);
      forall id: nat | id in asked
        ensures AskedNow(At(ph, id < 0), p0[id], id)
      {
        assert id in Ids() && AskedNow(ph, p0[id], id);
      }
      forall id: nat | id in Ids() && id !in asked
        ensures LeftNow(p0[id], id)
      {
        assert LeftNow(p0[id], id);
      }
    }

    /** The first transaction somebody may lack, counting from the txid the coordinator stood at when it began to wait. */
    method FirstMissing(entered: nat) returns (min: nat)
      requires TXID_START <= entered && maxTxidTB.Keys <= Ids()
      requires forall id :: id in maxTxidTB ==> TXID_START <= maxTxidTB[id] + 1
      ensures TXID_START <= min <= entered
      ensures forall id :: id in maxTxidTB ==> min <= maxTxidTB[id] + 1
      ensures min == entered || exists id :: id in maxTxidTB && min == maxTxidTB[id] + 1
    {
      var minID := entered - 1;
      for id := 1 to pnum + 1
        invariant TXID_START - 1 <= minID <= entered - 1
        invariant forall j :: j in maxTxidTB && j < id ==> minID <= maxTxidTB[j]
        invariant minID == entered - 1 || exists j :: j in maxTxidTB && minID == maxTxidTB[j]
      {
        if id in maxTxidTB && maxTxidTB[id] < minID {
          minID := maxTxidTB[id];
        }
      }
      min := minID + 1;
    }

    /** Every connected participant enters the recovery state. */
    method EnterRecovery()
      requires Valid()
      modifies `pstate
      ensures Valid()
      ensures forall id: nat {:trigger pstate[id]} :: id in Ids() ==> pstate[id] == Entering(old(pstate)[id])
    {
      hide Consistent, Events, AllAccepted, World;
      for id := 1 to pnum + 1
        invariant Valid()
        invariant forall j: nat {:trigger pstate[j]} :: j in Ids() ==>
                    pstate[j] == if j < id then Entering(old(pstate)[j]) else old(pstate)[j]
      {
        if pstate[id] == P_TEMP || pstate[id] == P_WORKING {
          SameKeys(pstate, id, P_RECOVERY);
          pstate := pstate[id := P_RECOVERY];
        }
      }
    }

    ghost function PutToWorkState(id: nat, s: PState): PState
      reads this
      requires txid >= TXID_START
    {
      if id in maxTxidTB && maxTxidTB[id] == txid - 1 then P_WORKING else s
    }

    ghost predicate RecoveredNow(best: seq<string>, p0: Part, id: nat)
      reads this
      requires Valid() && id in Ids()
    {
      Recovered(best, Committed(), p0, settled[id], pstate[id], id in up, id in lost)
    }

    /** Whoever stands at the coordinator's last txid goes to work. */
    method PutToWork(ghost ph: Phase, ghost asked: set<nat>, ghost p0: map<nat, Part>)
      requires Valid() && p0.Keys == Ids() && InPlay(ph, asked, p0, 0) && Within(ph.best)
      requires ph.k == txid && ph.cap == ph.w == txid - 1
      modifies `pstate
      ensures Valid() && Within(ph.best)
      ensures forall id: nat {:trigger settled[id]} :: id in asked ==> id in Ids() && RecoveredNow(ph.best, p0[id], id)
      ensures forall id: nat {:trigger settled[id]} :: id in Ids() && id !in asked ==> LeftNow(p0[id], id)
    {
      hide Consistent, Events, AllAccepted, Asked, Left, Recovered, World, IdsUpTo;
      for id := 1 to pnum + 1
        invariant Valid()
        invariant forall j: nat {:trigger pstate[j]} :: j in Ids() ==>
                    pstate[j] == if j < id then PutToWorkState(j, old(pstate)[j]) else old(pstate)[j]
      {
        if id in maxTxidTB && maxTxidTB[id] == txid - 1 {
          SameKeys(pstate, id, P_WORKING);
          pstate := pstate[id := P_WORKING];
        }
      }
      forall id: nat | id in asked
        ensures RecoveredNow(ph.best, p0[id], id)
      {
        assert id in Ids() && old(AskedNow(ph, p0[id], id));
        assert pstate[id] == PutToWorkState(id, old(pstate)[id]);
        AskedRecovered(ph, Committed(), id == ph.lead, p0[id], settled[id], old(pstate)[id], id in up, id in maxTxidTB,
                       Reported(id), id in lost, pstate[id]);
      }
      forall id: nat | id in Ids() && id !in asked
        ensures LeftNow(p0[id], id)
      {
        assert old(LeftNow(p0[id], id));
        assert pstate[id] == PutToWorkState(id, old(pstate)[id]);
      }
    }

    /** The recovery takes note of whom it is connected to; a link that is already dead counts as a failure. */
    method BeginRecovery() returns (ghost best: seq<string>, ghost asked: set<nat>)
      requires Valid() && LogsComparable() && LogsFit()
      modifies `cworking, `maxTxidTB, `pstate, `lost
      ensures Valid() && Within(best) && maxTxidTB == map[] && Asking(best, asked, settled, 1)
      ensures LongestOf(best, settled, old(pstate), Committed())
      ensures forall id: nat :: id in asked <==> id in Ids() && old(pstate)[id] != P_WAITING
    {
      hide Consistent, Events, AllAccepted, Comparable, FitsLong, Asking, Within, World;
      best := LongestExists();
      asked := set id | id in Ids() && pstate[id] != P_WAITING;
      Prepare(best, asked);
    }

    method Prepare(ghost best: seq<string>, ghost asked: set<nat>)
      requires Valid() && Within(best)
      requires forall id: nat :: id in asked <==> id in Ids() && pstate[id] != P_WAITING
      requires forall id: nat {:trigger settled[id]} :: id in asked && id in Ids() ==> settled[id].log <= best
      modifies `cworking, `maxTxidTB, `pstate, `lost
      ensures Valid() && Within(best) && maxTxidTB == map[] && Asking(best, asked, settled, 1)
    {
      hide Consistent, Events, AllAccepted, Asked, Unasked, Left, Within, World, Entering, IdsUpTo, AskedNow;
      cworking, maxTxidTB := false, map[];
      lost := asked - up;
      EnterRecovery();
      forall id: nat | id in Ids()
        ensures id in asked ==> UnaskedNow(best, settled[id], id)
        ensures id !in asked ==> LeftNow(settled[id], id)
      {
        assert pstate[id] == Entering(old(pstate)[id]);
        RecoveryStarts(best, settled[id], old(pstate)[id], id in up, id in lost);
      }
    }

    /** Brings the coordinator and everybody who has reported to the same transactions. */
    method CatchUp(entered: nat, consistent: bool, ghost best: seq<string>, ghost asked: set<nat>, ghost p0: map<nat, Part>)
      returns (ghost lead: nat)
      requires Valid() && p0.Keys == Ids() && Within(best) && TXID_START <= entered <= txid
      requires InPlay(Phase(best, TXID_START, TXID_START + |best|, 0, 0), asked, p0, 0)
      requires consistent ==> forall j :: j in maxTxidTB ==> maxTxidTB[j] == txid - 1
      modifies this
      ensures Valid() && Within(best) && old(Committed()) <= Committed()
      ensures InPlay(Phase(best, txid, txid - 1, lead, txid - 1), asked, p0, 0)
    {
      hide Consistent, InPlay, Events, AllAccepted, World;
      ghost var ph := Phase(best, TXID_START, TXID_START + |best|, 0, 0);
      ReportsBounded(ph, asked, p0);
      NobodyLeads(ph, 0);
      if consistent {
        Rephase(ph, Phase(best, txid, txid - 1, 0, txid - 1), asked, p0);
        lead := 0;
      } else {
        var min := FirstMissing(entered);
        Rephase(ph, Phase(best, min, TXID_START + |best|, 0, txid - 1), asked, p0);
        lead := RecoveryFromP(min, best, asked, p0);
      }
    }

    lemma NobodyLeads(ph: Phase, lead: nat)
      requires Valid() && lead == 0
      ensures lead !in pstate
    {
    }

    /** Where recovery leaves participant id, whose memory was p0; served tells that it was connected. */
    ghost predicate AfterRecovery(best: seq<string>, p0: Part, served: bool, id: nat)
      reads this
      requires Valid() && id in Ids()
    {
      && (pstate[id] == P_WORKING || pstate[id] == P_WAITING)
      && (pstate[id] == P_WORKING && id in up ==> settled[id].log == Committed())
      && (p0.log <= settled[id].log || settled[id] == FRESH)
      && (settled[id].log <= best || settled[id] == p0 || settled[id] == FRESH)
      && (served && id !in lost ==> id in up)
      && (served && id in up ==> pstate[id] == P_WORKING && p0.log <= settled[id].log)
    }

    lemma RecoveryResults(best: seq<string>, asked: set<nat>, p0: map<nat, Part>)
      requires Valid() && p0.Keys == Ids()
      requires forall id: nat {:trigger settled[id]} :: id in asked ==> id in Ids() && RecoveredNow(best, p0[id], id)
      requires forall id: nat {:trigger settled[id]} :: id in Ids() && id !in asked ==> LeftNow(p0[id], id)
      ensures forall id: nat {:trigger settled[id]} :: id in Ids() ==> AfterRecovery(best, p0[id], id in asked, id)
    {
      hide Consistent, Events, AllAccepted, Recovered, Left, World;
      forall id: nat | id in Ids()
        ensures AfterRecovery(best, p0[id], id in asked, id)
      {
        if id in asked {
          assert RecoveredNow(best, p0[id], id);
          RecoveredMeans(best, Committed(), p0[id], settled[id], pstate[id], id in up, id in lost);
        } else {
          assert LeftNow(p0[id], id);
          LeftMeans(p0[id], settled[id], pstate[id], id in maxTxidTB);
          FreshIsConsistent();
          LeftIsAfterRecovery(best, p0[id], id);
        }
      }
    }

    lemma LeftIsAfterRecovery(best: seq<string>, p0: Part, id: nat)
      requires Valid() && id in Ids() && pstate[id] == P_WAITING && (settled[id] == p0 || settled[id] == FRESH)
      ensures AfterRecovery(best, p0, false, id)
    {
      hide Consistent, Events, AllAccepted, World;
    }

    /** The steps of a recovery, once enough participants have connected. */
    method RecoveryRounds(entered: nat) returns (ghost best: seq<string>, ghost asked: set<nat>)
      requires Valid() && LogsComparable() && LogsFit() && TXID_START <= entered <= txid
      modifies this
      ensures Valid() && Within(best) && cworking && old(Committed()) <= Committed()
      ensures LongestOf(best, old(settled), old(pstate), old(Committed()))
      ensures forall id: nat :: id in asked <==> id in Ids() && old(pstate)[id] != P_WAITING
      ensures forall id: nat {:trigger settled[id]} :: id in Ids() ==> AfterRecovery(best, old(settled)[id], id in asked, id)
    {
      hide Consistent, InPlay, Asking, Events, AllAccepted, Within, LogsComparable, LongestOf, AskedNow, LeftNow,
           UnaskedNow, RecoveredNow, AfterRecovery, World;
      ghost var p0 := settled;
      best, asked := BeginRecovery();
      var consistent := AskAll(best, asked, p0);
      ghost var lead := CatchUp(entered, consistent, best, asked, p0);
      PutToWork(Phase(best, txid, txid - 1, lead, txid - 1), asked, p0);
      RecoveryResults(best, asked, p0);
      FinishRecovery(best, asked, p0);
    }

    method FinishRecovery(ghost best: seq<string>, ghost asked: set<nat>, ghost p0: map<nat, Part>)
      requires Valid() && p0.Keys == Ids() && Within(best)
      requires forall id: nat {:trigger settled[id]} :: id in Ids() ==> AfterRecovery(best, p0[id], id in asked, id)
      modifies `tmpNum, `cworking
      ensures Valid() && Within(best) && cworking
      ensures forall id: nat {:trigger settled[id]} :: id in Ids() ==> AfterRecovery(best, p0[id], id in asked, id)
    {
      hide Consistent, Events, AllAccepted, World;
      tmpNum, cworking := 0, true;
    }

    /**
     Recovery, once enough participants have connected; entered is where _TXID stood when the
     coordinator began to wait for them. It keeps every committed entry, leaves nobody half
     recovered, gives every participant that works and can be reached exactly the coordinator's
     log, whatever becomes of the others, and ends with the longest log it was connected to if
     somebody who has that log stays reachable.
     */
    method Recovery(entered: nat) returns (ghost longest: seq<string>)
      requires Valid() && LogsComparable() && LogsFit() && TXID_START <= entered <= txid
      modifies this
      ensures Valid() && Exact() && LogsComparable() && cworking
      ensures LongestOf(longest, old(settled), old(pstate), old(Committed()))
      ensures old(Committed()) <= Committed() <= longest
      ensures forall id: nat {:trigger settled[id]} :: id in Ids() ==>
                && (pstate[id] == P_WORKING || pstate[id] == P_WAITING)
                && (pstate[id] == P_WORKING && id in up ==> settled[id].log == Committed())
                && (old(settled)[id].log <= settled[id].log || settled[id] == FRESH)
                && (settled[id].log <= longest || settled[id] == old(settled)[id] || settled[id] == FRESH)
      ensures forall id: nat {:trigger settled[id]} :: id in Ids() && old(pstate)[id] != P_WAITING ==>
                && (id !in lost ==> id in up)
                && (id in up ==> pstate[id] == P_WORKING && old(settled)[id].log <= settled[id].log == Committed())
      ensures longest == old(Committed()) || Survivor(old(pstate), old(settled), longest) ==> Committed() == longest
      ensures Committed() == longest && NobodyAhead(old(settled), longest) ==> Agreement()
      ensures old(Agreement()) ==> Agreement() && Committed() == old(Committed())
    {
      hide Consistent, Events, AllAccepted, LongestOf, PairwiseComparable, Agreement, World, NobodyAhead;
      ghost var asked, agreed := {}, Agreement();
      if agreed {
        LogsCommitted();
      }
      longest, asked := RecoveryRounds(entered);
      LongestComparable(longest, old(settled), old(pstate), old(Committed()));
      StillComparable(longest, old(settled), old(Committed()), settled, Committed());
      ExactAfterRecovery(longest, old(settled), asked);
      if agreed {
        AgreementRecovered(longest, asked, old(settled), old(pstate), old(Committed()));
      }
    }

    /** Somebody who was connected, in state s0 and with memory p0, had the log best and can still be reached. */
    ghost predicate Survivor(s0: map<nat, PState>, p0: map<nat, Part>, best: seq<string>)
      reads `up
    {
      exists id: nat {:trigger p0[id]} ::
        id in Ids() && id in s0 && id in p0 && s0[id] != P_WAITING && id in up && p0[id].log == best
    }

    /** No log goes beyond best. */
    ghost predicate NobodyAhead(p0: map<nat, Part>, best: seq<string>)
    {
      forall id: nat {:trigger p0[id]} :: id in p0 ==> p0[id].log <= best
    }

    /** Whoever works is exact; and if best was reached and nobody had more, all logs agree. */
    lemma ExactAfterRecovery(best: seq<string>, p0: map<nat, Part>, asked: set<nat>)
      requires Valid() && p0.Keys == Ids()
      requires forall id: nat {:trigger settled[id]} :: id in Ids() ==> AfterRecovery(best, p0[id], id in asked, id)
      ensures Exact()
      ensures Committed() == best && NobodyAhead(p0, best) ==> Agreement()
    {
      hide Consistent, Events, AllAccepted, World;
      forall id: nat | id in Ids()
        ensures Serves(settled[id], settled[id], pstate[id], id in up, Committed())
        ensures Committed() == best && NobodyAhead(p0, best) ==> settled[id].log <= best
      {
        assert AfterRecovery(best, p0[id], id in asked, id);
      }
    }

    /** Any two participants that are not astray have the same event under every txid they share, the committed one. */
    lemma SharedEntriesAgree(i: nat, j: nat, t: nat)
      requires Valid() && i in Ids() - stray && j in Ids() - stray && i in parts && j in parts
      requires TXID_START <= t < Txid(parts[i]) && t < Txid(parts[j])
      ensures t in lg && parts[i].log[t - TXID_START] == parts[j].log[t - TXID_START] == lg[t].event
    {
      hide Consistent, Events, AllAccepted, World;
      StrayMeans(i);
      StrayMeans(j);
      var k := t - TXID_START;
      assert parts[i].log[k] == Committed()[k] && parts[j].log[k] == Committed()[k];
      EventAt(lg, txid - TXID_START, t, Committed());
    }

    /** From agreement, the longest log is the committed one, and there is agreement again. */
    lemma AgreementRecovered(best: seq<string>, asked: set<nat>, p0: map<nat, Part>, s0: map<nat, PState>, before: seq<string>)
      requires Valid() && p0.Keys == s0.Keys == Ids() && LongestOf(best, p0, s0, before) && before <= Committed() <= best
      requires forall id: nat {:trigger settled[id]} :: id in Ids() ==> AfterRecovery(best, p0[id], id in asked, id)
      requires forall id: nat {:trigger p0[id]} :: id in Ids() ==> p0[id].log <= before
      ensures Agreement() && Committed() == before
    {
      hide Consistent, Events, AllAccepted, World;
      assert best == before;
      forall id: nat | id in Ids()
        ensures Agrees(settled[id], pstate[id], id in up, Committed())
      {
        assert AfterRecovery(best, p0[id], id in asked, id);
      }
    }

    // ---------- whole runs ----------

    /** h accounts for the committed log and for every log that goes beyond it. */
    ghost predicate AccountedFor(h: History)
      reads this
      requires Valid()
    {
      && InOrder(h, Committed())
      && forall id: nat {:trigger settled[id]} :: id in Ids() ==> Explains(h, Committed(), settled[id].log)
    }

    /** No log goes beyond the committed one by more than one entry, so every txid fits. */
    lemma LogsWillFit(h: History, bound: nat)
      requires Valid() && AccountedFor(h) && LogsComparable() && |h.cmds| < bound && FitsLong(TXID_START + |h.base| + bound)
      ensures LogsFit() && FitsLong(txid + 1)
    {
      hide Consistent, Events, AllAccepted, World, Explains;
      FewCommitted(h, Committed(), |h.origin|);
      forall id: nat | id in Ids()
        ensures |settled[id].log| <= |Committed()| + 1
      {
        assert Explains(h, Committed(), settled[id].log) && Comparable(settled[id].log, Committed());
        AtMostOneMore(h, Committed(), settled[id].log);
      }
    }

    lemma NextTxidFits(h: History, bound: nat)
      requires Valid() && AccountedFor(h) && |h.cmds| < bound && FitsLong(TXID_START + |h.base| + bound)
      ensures FitsLong(txid + 1)
    {
      hide Consistent, Events, AllAccepted, World, Explains;
      FewCommitted(h, Committed(), |h.origin|);
    }

    /** Around the coordinator anything happens; agreement and the account of all logs stay. */
    method InterfereBetween(ghost h: History)
      requires Valid() && Exact() && AccountedFor(h)
      modifies `pstate, `parts, `late, `settled, `stray, `up, `tmpNum, `lost
      ensures Valid() && Exact() && AccountedFor(h) && (old(Agreement()) ==> Agreement())
    {
      hide Serves, Events, Consistent, AllAccepted, World, Explains, Agreement;
      ghost var p0, agreed := settled, Agreement();
      if agreed {
        LogsCommitted();
      }
      InterfereServing(p0);
      ServedExactly(p0, "", false);
      forall id: nat | id in Ids()
        ensures Explains(h, Committed(), settled[id].log)
      {
        assert Explains(h, Committed(), p0[id].log);
        assert GrownBy(p0[id], settled[id], Committed(), "", false);
        FreshExplained(h, Committed());
      }
      if agreed {
        AgreementAfter(p0, Committed(), "", false);
      }
    }

    /** A recovery from comparable logs; what it takes over comes from an update answered by an error. */
    method RecoverBetween(entered: nat, ghost h: History, ghost bound: nat) returns (ghost h': History)
      requires Valid() && Exact() && AccountedFor(h) && LogsComparable() && TXID_START <= entered <= txid
      requires |h.cmds| < bound && FitsLong(TXID_START + |h.base| + bound)
      modifies this
      ensures Valid() && Exact() && AccountedFor(h') && TakenOver(h, h') && old(Committed()) <= Committed()
      ensures old(Agreement()) ==> Agreement() && Committed() == old(Committed())
    {
      hide Serves, Events, Consistent, AllAccepted, World, Explains, Agreement, LongestOf, PairwiseComparable, LogsFit,
           Comparable;
      ghost var p0, s0, before := settled, pstate, Committed();
      LogsWillFit(h, bound);
      ghost var longest := Recovery(entered);
      LongestComparable(longest, p0, s0, before);
      assert Explains(h, before, longest) by {
        LongestExplained(h, longest, p0, s0, before);
      }
      h' := RecoveryInOrder(h, before, longest, Committed());
      forall id: nat | id in Ids()
        ensures Explains(h', Committed(), settled[id].log)
      {
        assert Explains(h, before, p0[id].log) && Comparable(p0[id].log, longest);
        RecoveryExplains(h, before, longest, h', Committed(), p0[id], settled[id]);
      }
    }

    /** From now on commands are turned away: a recovery is due, though it may still wait for the mutexes. */
    method AnnounceRecovery(ghost h: History)
      requires Valid() && Exact() && AccountedFor(h)
      modifies `cworking
      ensures Valid() && Exact() && AccountedFor(h) && !cworking && (Agreement() <==> old(Agreement()))
    {
      hide Serves, Agrees, Events, Consistent, AllAccepted, World, Explains, InOrder;
      cworking := false;
    }

    /**
     Between two commands: crashes, broken links, late requests and reconnections, and any number
     of recoveries, the last of which may only have been announced when the next command arrives.
     comparable is false if one was due while two logs contradicted each other.
     */
    method BetweenCommands(entered: nat, ghost h: History, ghost bound: nat)
      returns (entered': nat, comparable: bool, ghost h': History)
      requires Valid() && Exact() && AccountedFor(h) && TXID_START <= entered <= txid
      requires |h.cmds| < bound && FitsLong(TXID_START + |h.base| + bound)
      modifies this
      ensures Valid() && Exact() && AccountedFor(h') && TakenOver(h, h') && old(Committed()) <= Committed()
      ensures old(Agreement()) ==> Agreement() && Committed() == old(Committed()) && comparable
      ensures TXID_START <= entered' <= txid && (!comparable ==> !LogsComparable())
    {
      hide Agreement, Events, LogsComparable, Consistent, AllAccepted, World, Exact, Explains;
      entered', comparable, h' := entered, true, h;
      var choice: int := *;
      for s := 0 to (if choice > 0 then choice else 0)
        invariant Valid() && Exact() && AccountedFor(h') && TakenOver(h, h') && old(Committed()) <= Committed()
        invariant old(Agreement()) ==> Agreement() && Committed() == old(Committed())
        invariant TXID_START <= entered' <= txid && comparable
      {
        InterfereBetween(h');
        var scheduled := *;
        if scheduled && tmpNum != 0 {
          AgreementCompares();
          comparable := LogsComparable();
          if !comparable {
            return;
          }
          ghost var h0 := h';
          h' := RecoverBetween(entered', h0, bound);
          TakenOverAgain(h, h0, h');
          entered' := txid;
        }
      }
      var announced := *;
      if announced && tmpNum != 0 {
        AnnounceRecovery(h');
      }
    }

    lemma AgreementCompares()
      requires Valid()
      ensures Agreement() ==> LogsComparable()
    {
      hide Events, Consistent, AllAccepted, World, PairwiseComparable;
      if Agreement() {
        LogsCommitted();
        OneEventAhead(settled, Committed(), "", Committed());
      }
    }

    /** One command, with its place in the account. */
    method NextCommand(cmd: seq<string>, ghost h: History) returns (rc: string, ghost h': History, ghost turn: Turn)
      requires Valid() && Exact() && AccountedFor(h) && FitsLong(txid + 1) && Printable(cmd)
      modifies this
      ensures Valid() && Exact() && AccountedFor(h')
      ensures h' == Told(h, cmd, rc, Committed() != old(Committed())) && old(txid) <= txid
      ensures turn == Turn(old(Committed()), rc, Committed(), old(Agreement()), Agreement(),
                           !NobodyHolds(old(Committed()), ArrayMessage(cmd)))
      ensures Took(cmd, turn)
    {
      hide Serves, Events, Replay, Consistent, AllAccepted, Printable, World, GrownBy, Agreement, LogsComparable, NobodyHolds,
           Explains, Answered, ArrayMessage, IsUpdate;
      ghost var p0, before, agreed := settled, Committed(), Agreement();
      rc := Working(cmd);
      h' := Told(h, cmd, rc, Committed() != before);
      turn := Turn(before, rc, Committed(), agreed, Agreement(), !NobodyHolds(before, ArrayMessage(cmd)));
      CommandInOrder(h, before, cmd, rc, Committed());
      NextWithin(h, before);
      forall id: nat | id in Ids()
        ensures Explains(h', Committed(), settled[id].log)
      {
        assert Explains(h, before, p0[id].log);
        assert GrownBy(p0[id], settled[id], before, ArrayMessage(cmd),
                       IsUpdate(cmd) && (rc == ERROR_MESSAGE || Committed() != before));
        CommandExplains(h, before, cmd, rc, Committed(), p0[id], settled[id]);
      }
    }

    /**
     Any run of commands, with anything happening around and within them. Each command is
     answered by an error, without effect for now, or as by one store that has run what is
     committed. What is committed are updates in their order, each at most once: each in its own
     turn, or, if that ended in an error, by a later recovery. As long as every update is
     committed or left with nobody, all logs agree. The run goes on through every recovery that
     finds comparable logs, and while the logs agree that is every recovery.
     */
    method Run(cmds: seq<seq<string>>) returns (replies: seq<string>, ghost h: History, ghost turns: seq<Turn>)
      requires Valid() && Agreement() && FitsLong(txid + |cmds|)
      requires forall i {:trigger cmds[i]} :: 0 <= i < |cmds| ==> Printable(cmds[i])
      modifies this
      ensures Valid() && Exact()
      ensures |turns| == |replies| <= |cmds| && (|replies| < |cmds| ==> !LogsComparable())
      ensures forall i {:trigger turns[i]} :: 0 <= i < |replies| ==> turns[i].reply == replies[i]
      ensures Story(Start(old(Committed())), cmds, turns) && AllRead(cmds, turns)
      ensures h.base == old(Committed()) && h.cmds == cmds[..|replies|] && h.replies == replies
      ensures InOrder(h, Committed()) && AllSourced(h, turns, Committed())
      ensures |replies| == |cmds| ==>
                var last := Last(Start(old(Committed())), turns);
                last.after == Committed() && (last.agreed <==> Agreement())
      ensures (forall i :: 0 <= i < |turns| ==> Clean(turns[i])) ==> |replies| == |cmds| && Agreement()
    {
      hide Agreement, Events, Consistent, AllAccepted, Printable, World, Exact, Explains, Took, LogsComparable,
           Story, Clean, ArrayMessage, IsUpdate, AllSourced, TakenOver, InOrder, AllRead;
      replies, turns, h := [], [], History(Committed(), [], [], []);
      ghost var start := Start(Committed());
      StartsAccounted(h, start, cmds);
      var entered := txid;
      while |replies| < |cmds|
        invariant Valid() && Exact() && AccountedFor(h) && TXID_START <= entered <= txid
        invariant |turns| == |replies| <= |cmds| && (Last(start, turns).agreed <==> Agreement())
        invariant Last(start, turns).after == Committed() && Story(start, cmds, turns)
        invariant forall i {:trigger turns[i]} :: 0 <= i < |replies| ==> turns[i].reply == replies[i]
        invariant h.base == old(Committed()) && h.cmds == cmds[..|replies|] && h.replies == replies
        invariant AllSourced(h, turns, Committed())
        decreases |cmds| - |replies|
      {
        ghost var h0, before, turn := h, Committed(), Last(start, turns);
        var comparable;
        entered, comparable, h := BetweenCommands(entered, h, |cmds|);
        SameCommands(h0, h);
        RecoverySourced(start, cmds, turns, h0, h, before, Committed());
        if !comparable {
          AgreedThroughout(start, cmds, turns, |turns|);
          assert turns[..|turns|] == turns;
          StoryReads(start, cmds, turns);
          return;
        }
        NextTxidFits(h, |cmds|);
        ghost var h1 := h;
        var rc;
        rc, h, turn := NextCommand(cmds[|replies|], h1);
        CommandSourced(h1, turns, cmds[|replies|], turn);
        StoryMore(start, cmds, turns, turn);
        replies, turns := replies + [rc], turns + [turn];
      }
      AgreedThroughout(start, cmds, turns, |turns|);
      assert turns[..|turns|] == turns;
      StoryReads(start, cmds, turns);
    }

    lemma StartsAccounted(h: History, start: Turn, cmds: seq<seq<string>>)
      requires Valid() && Agreement() && h == History(Committed(), [], [], [])
      ensures Exact() && AccountedFor(h) && Story(start, cmds, []) && AllSourced(h, [], Committed())
    {
      hide Consistent, Events, AllAccepted, World, ArrayMessage;
      LogsCommitted();
    }
  }
}
