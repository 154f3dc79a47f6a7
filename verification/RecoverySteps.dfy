/** One participant's part in a recovery, seen from outside. */
module RecoverySteps {
  import opened Resp
  import opened LogText
  import opened Kv
  import opened Participants
  import opened ClusterMessages
  import opened ClusterSteps

  /**
   How far a recovery has come: every log in play is a prefix of best, all transactions
   before k have been sent out, no reported txid exceeds cap, and lead (0 for nobody) may
   already work, its last transaction being w.
   */
  datatype Phase = Phase(best: seq<string>, k: nat, cap: nat, lead: nat, w: nat)

  /** A participant the recovery has asked; p0 is its memory at the start. */
  ghost predicate Asked(ph: Phase, isLead: bool, p0: Part, p: Part, s: PState, linked: bool, inTB: bool, tb: nat, lost: bool)
  {
    && p.log <= ph.best && (p0.log <= p.log || (p == FRESH && !linked))
    && (s == P_RECOVERY <==> inTB) && s != P_TEMP
    && (inTB ==> ph.k <= tb + 1 && tb <= ph.cap && (linked ==> tb + 1 == Txid(p)))
    && (s == P_WORKING && linked ==> isLead && Txid(p) == ph.w + 1)
    && (linked || lost) && (linked ==> s != P_WAITING)
  }

  /** The phase as a participant sees it before or after its turn for transaction k. */
  ghost function At(ph: Phase, done: bool): Phase
  {
    if done then ph.(k := ph.k + 1) else ph
  }

  /** A participant the coordinator is not connected to: recovery leaves it alone. */
  ghost predicate Left(p0: Part, p: Part, s: PState, inTB: bool)
  {
    s == P_WAITING && !inTB && (p == p0 || p == FRESH)
  }

  lemma MovedAsked(ph: Phase, isLead: bool, p0: Part, p: Part, s: PState, linked: bool, inTB: bool, tb: nat, lost: bool,
                   p': Part, linked': bool, lost': bool)
    requires Asked(ph, isLead, p0, p, s, linked, inTB, tb, lost)
    requires Moved(s, p, linked, s, p', linked', false)
    requires !lost' ==> !lost && p' == p && (linked ==> linked')
    ensures Asked(ph, isLead, p0, p', s, linked', inTB, tb, lost')
  {
  }

  lemma MovedLeft(p0: Part, p: Part, s: PState, inTB: bool, linked: bool, p': Part, linked': bool)
    requires Left(p0, p, s, inTB) && Moved(s, p, linked, s, p', linked', false)
    ensures Left(p0, p', s, inTB)
  {
  }

  /** Sending out transaction k to one participant: skipped, applied, or cut off. */
  lemma PushAsked(ph: Phase, isLead: bool, p0: Part, p: Part, s: PState, linked: bool, inTB: bool, tb: nat, lost: bool,
                  q: Part, reply: string, p': Part, s': PState, linked': bool, inTB': bool, tb': nat, lost': bool)
    requires Asked(ph, isLead, p0, p, s, linked, inTB, tb, lost) && TXID_START <= ph.k <= ph.cap
    requires ph.k - TXID_START < |ph.best|
    requires Txid(p) != ph.k ==> (q, reply) == (p, ERROR_MESSAGE)
    requires Txid(p) == ph.k ==> q.log == p.log + [ph.best[ph.k - TXID_START]] && reply != ERROR_MESSAGE
    requires lost ==> lost'
    requires s != P_RECOVERY || tb + 1 != ph.k ==>
               p' == p && s' == s && linked' == linked && inTB' == inTB && tb' == tb && lost' == lost
    requires s == P_RECOVERY && tb + 1 == ph.k ==>
               || (linked && linked' && s' == s && p' == q && inTB' && lost' == lost &&
                   tb' == if reply != ERROR_MESSAGE then tb + 1 else tb)
               || (!linked' && s' == P_WAITING && !inTB' && lost' && (p' in {p, FRESH} || (linked && p' == q)))
    ensures Asked(ph.(k := ph.k + 1), isLead, p0, p', s', linked', inTB', tb', lost')
  {
    var n := ph.k - TXID_START;
    if Txid(p) == ph.k {
      assert p.log == ph.best[..n];
      assert q.log == ph.best[..n + 1];
    }
  }

  lemma AskedRephased(ph: Phase, ph': Phase, isLead: bool, isLead': bool, p0: Part, p: Part, s: PState, linked: bool,
                      inTB: bool, tb: nat, lost: bool)
    requires Asked(ph, isLead, p0, p, s, linked, inTB, tb, lost)
    requires ph'.best == ph.best && (inTB ==> (ph'.k <= ph.k || ph'.k <= tb + 1) && (ph.cap <= ph'.cap || tb <= ph'.cap))
    requires (isLead' == isLead && ph'.w == ph.w) || (isLead && s == P_WORKING ==> !linked)
    ensures Asked(ph', isLead', p0, p, s, linked, inTB, tb, lost)
  {
  }

  /** A participant that reported the greatest txid may work as the leader. */
  lemma AskedLeads(ph: Phase, ph': Phase, isLead: bool, p0: Part, p: Part, s: PState, linked: bool, tb: nat, lost: bool)
    requires Asked(ph, isLead, p0, p, s, linked, true, tb, lost) && ph'.best == ph.best && ph'.w == tb
    ensures Asked(ph', true, p0, p, P_WORKING, linked, false, 0, lost)
  {
  }

  lemma AskedCapped(ph: Phase, isLead: bool, p0: Part, p: Part, s: PState, linked: bool, inTB: bool, tb: nat, lost: bool)
    requires Asked(ph, isLead, p0, p, s, linked, inTB, tb, lost)
    ensures inTB ==> ph.k <= tb + 1 && tb <= ph.cap
  {
  }

  /** A reachable working leader has exactly the transactions up to ph.w. */
  lemma LeaderLog(ph: Phase, p0: Part, p: Part, s: PState, linked: bool, inTB: bool, tb: nat, lost: bool)
    requires Asked(ph, true, p0, p, s, linked, inTB, tb, lost)
    ensures p.log <= ph.best && (s == P_WORKING && linked ==> Txid(p) == ph.w + 1)
  {
  }

  lemma LeaderStays(ph: Phase, p0: Part, p: Part, s: PState, linked: bool, inTB: bool, tb: nat, lost: bool,
                    p': Part, s': PState, linked': bool, lost': bool)
    requires Asked(ph, true, p0, p, s, linked, inTB, tb, lost)
    requires (p' == p && s' == s && linked' == linked && lost' == lost) ||
             (s == P_WORKING && s' == P_WAITING && !linked' && lost' && p' in {p, FRESH})
    ensures Asked(ph, true, p0, p', s', linked', inTB, tb, lost')
  {
  }

  lemma AllAcceptedAt(log: seq<string>, i: nat)
    requires AllAccepted(log) && i < |log|
    ensures Accepted(log[i]) && Parses(log[i])
  {
  }

  /** Which participants pRecovery talks to. */
  lemma AskedListed(ph: Phase, isLead: bool, p0: Part, p: Part, s: PState, linked: bool, inTB: bool, tb: nat, lost: bool)
    requires Asked(ph, isLead, p0, p, s, linked, inTB, tb, lost)
    ensures s == P_RECOVERY <==> inTB
  {
  }

  lemma LeftWaits(p0: Part, p: Part, s: PState, inTB: bool)
    requires Left(p0, p, s, inTB)
    ensures s == P_WAITING && !inTB
  {
  }

  /** What a participant does with transaction k of best when it is sent out. */
  lemma PushAnswer(best: seq<string>, k: nat, p: Part, rc: string)
    requires AllAccepted(best) && FitsLong(TXID_START + |best|) && Consistent(p)
    requires TXID_START <= k && k - TXID_START < |best|
    requires rc == LogToStr(Log(k, LOG_COMMIT, best[k - TXID_START]))
    ensures StrToLog(rc).Some? && StrToLog(rc).value.id == k
    ensures Work(p, rc).Some? && Consistent(Work(p, rc).value.0)
    ensures Txid(p) != k ==> Work(p, rc).value == (p, ERROR_MESSAGE)
    ensures Txid(p) == k ==>
              Work(p, rc).value.0.log == p.log + [best[k - TXID_START]] && Work(p, rc).value.1 != ERROR_MESSAGE
  {
    hide Consistent, Work, StrToLog, LogToStr, Accepted, AllAccepted;
    var event := best[k - TXID_START];
    RecordReadsBack(Log(k, LOG_COMMIT, event));
    AllAcceptedAt(best, k - TXID_START);
    CommitAnswer(p, k, event);
  }

  lemma EventAt(lg: map<nat, Log>, n: nat, tid: nat, best: seq<string>)
    requires TXID_START <= tid < TXID_START + n && tid in lg && Events(lg, n) <= best
    ensures lg[tid].event == best[tid - TXID_START]
  {
    assert Events(lg, n)[tid - TXID_START] == best[tid - TXID_START];
  }

  /** A participant the recovery is about to ask. */
  ghost predicate Unasked(best: seq<string>, p0: Part, p: Part, s: PState, linked: bool, inTB: bool, lost: bool)
  {
    s == P_RECOVERY && !inTB && (p == p0 || (p == FRESH && !linked)) && p0.log <= best && (lost || linked)
  }

  lemma MovedUnasked(best: seq<string>, p0: Part, p: Part, s: PState, linked: bool, inTB: bool, lost: bool,
                     p': Part, linked': bool, lost': bool)
    requires Unasked(best, p0, p, s, linked, inTB, lost) && Moved(s, p, linked, s, p', linked', false)
    requires !lost' ==> !lost && p' == p && (linked ==> linked')
    ensures Unasked(best, p0, p', s, linked', inTB, lost')
  {
  }

  /** Asked for its last txid, a participant reports it, or its link fails. */
  lemma AskingIsAsked(best: seq<string>, p0: Part, p: Part, s: PState, linked: bool, inTB: bool, lost: bool,
                      p': Part, s': PState, linked': bool, inTB': bool, tb': nat, lost': bool)
    requires Unasked(best, p0, p, s, linked, inTB, lost)
    requires || (linked && linked' && s' == s && p' == p && lost' == lost && inTB' && tb' + 1 == Txid(p))
             || (!linked' && s' == P_WAITING && !inTB' && lost' && p' in {p, FRESH})
    ensures Asked(Phase(best, TXID_START, TXID_START + |best|, 0, 0), false, p0, p', s', linked', inTB', tb', lost')
  {
  }

  lemma UnaskedRecovers(best: seq<string>, p0: Part, p: Part, s: PState, linked: bool, inTB: bool, lost: bool)
    requires Unasked(best, p0, p, s, linked, inTB, lost)
    ensures s == P_RECOVERY && !inTB && p.log <= best
  {
  }

  /** A participant a recovery asked, when it is over. */
  ghost predicate Recovered(best: seq<string>, committed: seq<string>, p0: Part, p: Part, s: PState, linked: bool, lost: bool)
  {
    && p.log <= best && (p0.log <= p.log || (p == FRESH && !linked))
    && (s == P_WORKING || s == P_WAITING)
    && (s == P_WORKING && linked ==> p.log == committed)
    && (linked || lost) && (linked ==> s == P_WORKING)
  }

  /** Whoever has reported the coordinator's own last txid goes to work. */
  lemma AskedRecovered(ph: Phase, committed: seq<string>, isLead: bool, p0: Part, p: Part, s: PState, linked: bool,
                       inTB: bool, tb: nat, lost: bool, s': PState)
    requires Asked(ph, isLead, p0, p, s, linked, inTB, tb, lost) && committed <= ph.best
    requires ph.k == TXID_START + |committed| && ph.cap == ph.w == ph.k - 1
    requires s' == if inTB && tb == ph.k - 1 then P_WORKING else s
    ensures Recovered(ph.best, committed, p0, p, s', linked, lost)
  {
  }

  /** Recovery starts with every participant that is not waited for. */
  function Entering(s: PState): PState
  {
    if s == P_TEMP || s == P_WORKING then P_RECOVERY else s
  }

  lemma RecoveryStarts(best: seq<string>, p: Part, s: PState, linked: bool, lost: bool)
    ensures s == P_WAITING ==> Left(p, p, Entering(s), false)
    ensures s != P_WAITING && p.log <= best && (lost || linked) ==> Unasked(best, p, p, Entering(s), linked, false, lost)
  {
  }

  lemma RecoveredMeans(best: seq<string>, committed: seq<string>, p0: Part, p: Part, s: PState, linked: bool, lost: bool)
    requires Recovered(best, committed, p0, p, s, linked, lost)
    ensures p.log <= best && (p0.log <= p.log || p == FRESH)
    ensures s == P_WORKING || s == P_WAITING
    ensures s == P_WORKING && linked ==> p.log == committed
    ensures (linked || lost) && (linked ==> s == P_WORKING && p0.log <= committed)
  {
  }

  lemma LeftMeans(p0: Part, p: Part, s: PState, inTB: bool)
    requires Left(p0, p, s, inTB)
    ensures s == P_WAITING && (p == p0 || p == FRESH)
  {
  }

  predicate Comparable(a: seq<string>, b: seq<string>)
  {
    a <= b || b <= a
  }

  /** Of any two of these logs, the coordinator's included, one is a prefix of the other. */
  predicate PairwiseComparable(parts: map<nat, Part>, committed: seq<string>)
  {
    && (forall i {:trigger parts[i]} :: i in parts ==>
          Comparable(parts[i].log, committed))
    && (forall i, j {:trigger parts[i], parts[j]} :: i in parts && j in parts ==> Comparable(parts[i].log, parts[j].log))
  }

  /** Logs that are part of one log, or that and the same event more, are comparable. */
  lemma OneEventAhead(parts: map<nat, Part>, before: seq<string>, event: string, committed: seq<string>)
    requires forall i {:trigger parts[i]} :: i in parts ==> parts[i].log <= before || parts[i].log == before + [event]
    requires committed == before || committed == before + [event]
    ensures PairwiseComparable(parts, committed)
  {
  }

  /**
   Why recovery needs comparable logs: it asks for last txids only, and two participants whose
   last events contradict each other report the same.
   */
  lemma ContradictionIsNotSeen(p: Part, q: Part, committed: seq<string>, event: string, other: string)
    requires p.log == committed + [event] && q.log == committed + [other] && event != other
    ensures !Comparable(p.log, q.log)
    ensures var req := LogToStr(Log(RECOVERY_TXID, LOG_PRE, ""));
            && Work(p, req).Some? && Work(q, req).Some? && Work(p, req).value.1 == Work(q, req).value.1
  {
    hide Work, LogToStr;
    MaxTxidAnswer(p);
    MaxTxidAnswer(q);
    assert p.log[|committed|] != q.log[|committed|];
  }

  /** best is the longest log among the coordinator's and those of the participants it is connected to. */
  ghost predicate LongestOf(best: seq<string>, parts: map<nat, Part>, pstate: map<nat, PState>, committed: seq<string>)
    requires pstate.Keys == parts.Keys
  {
    && committed <= best
    && (forall id {:trigger parts[id]} :: id in parts && pstate[id] != P_WAITING ==> parts[id].log <= best)
    && (best == committed || exists id {:trigger parts[id]} ::
          id in parts && pstate[id] != P_WAITING && best == parts[id].log)
  }

  lemma LongestComparable(best: seq<string>, parts: map<nat, Part>, pstate: map<nat, PState>, committed: seq<string>)
    requires pstate.Keys == parts.Keys && LongestOf(best, parts, pstate, committed) && PairwiseComparable(parts, committed)
    ensures forall i {:trigger parts[i]} :: i in parts ==> Comparable(parts[i].log, best)
  {
    hide Comparable;
  }

  /** Logs that were left alone, lost, or brought within best are still comparable. */
  lemma StillComparable(best: seq<string>, parts: map<nat, Part>, committed: seq<string>,
                        parts': map<nat, Part>, committed': seq<string>)
    requires PairwiseComparable(parts, committed) && parts'.Keys == parts.Keys
    requires forall i {:trigger parts[i]} :: i in parts ==> Comparable(parts[i].log, best)
    requires committed' <= best
    requires forall i {:trigger parts'[i]} :: i in parts' ==>
               parts'[i].log <= best || parts'[i] == parts[i] || parts'[i] == FRESH
    ensures PairwiseComparable(parts', committed')
  {
    forall i, j | i in parts' && j in parts'
      ensures Comparable(parts'[i].log, parts'[j].log) && Comparable(parts'[i].log, committed')
    {
      assert Comparable(parts[i].log, best) && Comparable(parts[j].log, best) && Comparable(parts[i].log, parts[j].log);
    }
  }
}
