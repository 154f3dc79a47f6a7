/** The store of Lab3/src/kv.cc and the commands participants run on it. */
module Kv {
  import opened Resp
  import opened Wrappers
  import opened Cycles

  const KV_DEL: int := -10

  type Store = map<string, string>

  class KV {
    var kvdb: Store

    constructor ()
      ensures kvdb == map[]
    {
      kvdb := map[];
    }

    method KvSET(k: string, v: string) returns (rc: int)
      modifies this
      ensures rc == KV_OK && kvdb == old(kvdb)[k := v]
    {
      kvdb := kvdb[k := v];
      rc := KV_OK;
    }

    method KvDEL(k: string) returns (rc: int)
      modifies this
      ensures kvdb == old(kvdb) - {k}
      ensures rc == if k in old(kvdb) then KV_OK else KV_DEL
    {
      if k in kvdb {
        kvdb := kvdb - {k};
        rc := KV_OK;
      } else {
        rc := KV_DEL;
      }
    }

    /** Removes every key of ks; the number returned counts each removed key once. */
    method KvDELArry(ks: seq<string>) returns (number: nat)
      modifies this
      ensures kvdb == old(kvdb) - Elements(ks)
      ensures number == |old(kvdb).Keys * Elements(ks)|
    {
      hide Elements;
      ghost var before := kvdb;
      assert ks[..0] == [];
      NothingRemoved(before);
      number := 0;
      for i := 0 to |ks|
        invariant kvdb == before - Elements(ks[..i])
        invariant number == |before.Keys * Elements(ks[..i])|
      {
        OneMore(before.Keys, ks, i);
        OneLess(before, ks, i);
        var rc := KvDEL(ks[i]);
        if rc == KV_OK {
          number := number + 1;
        }
      }
      assert ks[..|ks|] == ks;
    }

    method KvGET(k: string) returns (v: string)
      ensures v == if k in kvdb then kvdb[k] else "nil"
    {
      if k in kvdb {
        v := kvdb[k];
      } else {
        v := "nil";
      }
    }
  }

  lemma OneMore(keys: set<string>, ks: seq<string>, i: nat)
    requires i < |ks|
    ensures Elements(ks[..i + 1]) == Elements(ks[..i]) + {ks[i]}
    ensures |keys * Elements(ks[..i + 1])| ==
            |keys * Elements(ks[..i])| + if ks[i] in keys - Elements(ks[..i]) then 1 else 0
  {
    assert ks[..i + 1] == ks[..i] + [ks[i]];
    assert Elements(ks[..i + 1]) == Elements(ks[..i]) + {ks[i]};
    if ks[i] in keys - Elements(ks[..i]) {
      assert keys * Elements(ks[..i + 1]) == keys * Elements(ks[..i]) + {ks[i]};
    } else {
      assert keys * Elements(ks[..i + 1]) == keys * Elements(ks[..i]);
    }
  }

  lemma NothingRemoved(db: Store)
    ensures Elements<string>([]) == {} && db - Elements<string>([]) == db
  {
  }

  lemma OneLess(db: Store, ks: seq<string>, i: nat)
    requires i < |ks|
    ensures db - Elements(ks[..i]) - {ks[i]} == db - Elements(ks[..i + 1])
    ensures ks[i] in db - Elements(ks[..i]) <==> ks[i] in db.Keys - Elements(ks[..i])
  {
    assert ks[..i + 1] == ks[..i] + [ks[i]];
    assert Elements(ks[..i + 1]) == Elements(ks[..i]) + {ks[i]};
  }

  /** What one command does to the store and answers. */
  function Execute(db: Store, comds: seq<string>): (Store, string)
  {
    if |comds| < 1 || comds[0] == "" then (db, ERROR_MESSAGE)
    else if comds[0][0] == 'D' then
      (db - Elements(comds[1..]), IntegerMessage(|db.Keys * Elements(comds[1..])|))
    else if comds[0][0] == 'S' then
      if |comds| != 3 then (db, ERROR_MESSAGE) else (db[comds[1] := comds[2]], SUCCESS_MESSAGE)
    else if comds[0][0] == 'G' then
      if |comds| != 2 then (db, ERROR_MESSAGE)
      else (db, ArrayMessage([if comds[1] in db then db[comds[1]] else "nil"]))
    else if comds[0][0] == 'P' then (db, "PRE")
    else (db, ERROR_MESSAGE)
  }

  /** The command changes the store: it deletes a key that is there, or sets one to what it does not hold. */
  predicate Alters(db: Store, comds: seq<string>)
  {
    && |comds| >= 1 && comds[0] != ""
    && ((comds[0][0] == 'D' && exists k :: k in comds[1..] && k in db) ||
        (comds[0][0] == 'S' && |comds| == 3 && (comds[1] !in db || db[comds[1]] != comds[2])))
  }

  lemma AltersMeans(db: Store, comds: seq<string>)
    ensures Execute(db, comds).0 != db <==> Alters(db, comds)
  {
    hide IntegerMessage, ArrayMessage;
  }

  /** An event is a printed command; None where parsing it aborts. */
  function RunEvent(db: Store, event: string): Option<(Store, string)>
  {
    match ParseArray(event)
    case None => None
    case Some((comds, _)) => Some(Execute(db, comds))
  }

  /** The event parses, and its command is answered by something other than an error. */
  predicate Accepted(event: string)
  {
    RunEvent(map[], event).Some? && RunEvent(map[], event).value.1 != ERROR_MESSAGE
  }

  predicate Parses(event: string)
  {
    ParseArray(event).Some?
  }

  lemma AnswersAreNoErrors(n: int, raw: seq<string>)
    ensures IntegerMessage(n) != ERROR_MESSAGE && ArrayMessage(raw) != ERROR_MESSAGE
  {
    hide Decimal.ToString, Decimal.ToInt32, StringMessages;
    assert IntegerMessage(n)[0] == ':' && ArrayMessage(raw)[0] == '*' && ERROR_MESSAGE[0] == '-';
  }

  lemma RefusalIgnoresStore(db: Store, db': Store, comds: seq<string>)
    ensures Execute(db, comds).1 == ERROR_MESSAGE <==> Execute(db', comds).1 == ERROR_MESSAGE
  {
    hide Execute;
    WhenRefused(db, comds);
    WhenRefused(db', comds);
  }

  /** The commands that are answered by an error. */
  predicate Refused(comds: seq<string>)
  {
    || |comds| < 1 || comds[0] == ""
    || (comds[0][0] == 'S' && |comds| != 3) || (comds[0][0] == 'G' && |comds| != 2)
    || comds[0][0] !in {'D', 'S', 'G', 'P'}
  }

  lemma WhenRefused(db: Store, comds: seq<string>)
    ensures Execute(db, comds).1 == ERROR_MESSAGE <==> Refused(comds)
  {
    hide IntegerMessage, ArrayMessage;
    if |comds| >= 1 {
      AnswersAreNoErrors(|db.Keys * Elements(comds[1..])|, []);
    }
    if |comds| == 2 {
      AnswersAreNoErrors(0, [if comds[1] in db then db[comds[1]] else "nil"]);
    }
  }

  /** Whether an event is refused depends on the event alone, never on the store. */
  lemma AcceptanceIgnoresStore(db: Store, event: string)
    requires Parses(event)
    ensures RunEvent(db, event).Some?
    ensures RunEvent(db, event).value.1 != ERROR_MESSAGE <==> Accepted(event)
  {
    hide Execute, ParseArray;
    RefusalIgnoresStore(db, map[], ParseArray(event).value.0);
  }

  /** The store after running a log from the empty store. */
  function Replay(log: seq<string>): Store
  {
    if log == [] then map[]
    else
      match RunEvent(Replay(log[..|log| - 1]), log[|log| - 1])
      case None => Replay(log[..|log| - 1])
      case Some((db, _)) => db
  }
}
