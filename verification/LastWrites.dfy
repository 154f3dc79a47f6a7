/** What commands answer, in terms of the commands before them. */
module LastWrites {
  import opened Wrappers
  import opened Cycles
  import opened Decimal
  import opened Resp
  import opened Kv
  import opened Participants

  /** The event is a command that sets key k. */
  predicate Sets(event: string, k: string)
  {
    match ParseArray(event)
    case None => false
    case Some((cmd, _)) => |cmd| == 3 && cmd[0] != "" && cmd[0][0] == 'S' && cmd[1] == k
  }

  function SetValue(event: string, k: string): string
    requires Sets(event, k)
  {
    ParseArray(event).value.0[2]
  }

  /** The event is a command that deletes key k. */
  predicate Deletes(event: string, k: string)
  {
    match ParseArray(event)
    case None => false
    case Some((cmd, _)) => |cmd| >= 1 && cmd[0] != "" && cmd[0][0] == 'D' && k in cmd[1..]
  }

  /** The value of the last command that sets k, unless a later one deletes it. */
  function LastWrite(log: seq<string>, k: string): Option<string>
  {
    if log == [] then None
    else
      var event := log[|log| - 1];
      if Sets(event, k) then Some(SetValue(event, k))
      else if Deletes(event, k) then None
      else LastWrite(log[..|log| - 1], k)
  }

  /** Entry i of the log sets k to v, and no later one sets or deletes it. */
  ghost predicate WritesLast(log: seq<string>, i: nat, k: string, v: string)
  {
    && i < |log| && Sets(log[i], k) && SetValue(log[i], k) == v
    && forall j {:trigger log[j]} :: i < j < |log| ==> !Sets(log[j], k) && !Deletes(log[j], k)
  }

  lemma {:induction false} LastWriteMeans(log: seq<string>, k: string, v: string)
    ensures LastWrite(log, k) == Some(v) <==> exists i: nat :: WritesLast(log, i, k, v)
  {
    hide Sets, Deletes, SetValue;
    if log != [] {
      var n := |log| - 1;
      LastWriteMeans(log[..n], k, v);
      if Sets(log[n], k) {
        assert SetValue(log[n], k) == v ==> WritesLast(log, n, k, v);
      } else if i: nat :| WritesLast(log, i, k, v) {
        assert WritesLast(log[..n], i, k, v);
      } else if i: nat :| WritesLast(log[..n], i, k, v) && !Deletes(log[n], k) {
        assert log[i] == log[..n][i];
        assert WritesLast(log, i, k, v);
      }
    }
  }

  /** The store after a log holds each key's last write. */
  lemma {:induction false} ReplayHolds(log: seq<string>, k: string)
    ensures LastWrite(log, k) == if k in Replay(log) then Some(Replay(log)[k]) else None
  {
    hide ParseArray, IntegerMessage, ArrayMessage;
    if log != [] {
      ReplayHolds(log[..|log| - 1], k);
    }
  }

  lemma Appended(log: seq<string>, event: string, k: string)
    ensures LastWrite(log + [event], k) ==
            if Sets(event, k) then Some(SetValue(event, k)) else if Deletes(event, k) then None else LastWrite(log, k)
  {
    hide Sets, Deletes, SetValue;
    assert (log + [event])[..|log|] == log;
  }

  // ---------- sizes ----------

  lemma {:induction false} ParsedSizes(message: string, pos: nat, n: nat)
    requires ParseStrings(message, pos, n).Some?
    ensures forall i :: 0 <= i < n ==> |ParseStrings(message, pos, n).value.0[i]| < TWO_31
  {
    hide Strtol, ToString;
    if n > 0 {
      ParsedSizes(message, pos, n - 1);
    }
  }

  /** What a message parses to can be printed. */
  lemma ParsedIsPrintable(event: string)
    requires Parses(event)
    ensures Printable(ParseArray(event).value.0)
  {
    hide Strtol, ToString, ParseStrings;
    var number := Atoi(event[1..]);
    ParsedSizes(event, |ToString(number)| + 3, if number < 0 then 0 else number);
  }

  lemma {:induction false} WrittenIsPrintable(log: seq<string>, k: string)
    ensures LastWrite(log, k).Some? ==> |LastWrite(log, k).value| < TWO_31
  {
    hide ParseArray;
    if log != [] {
      WrittenIsPrintable(log[..|log| - 1], k);
      if Sets(log[|log| - 1], k) {
        ParsedIsPrintable(log[|log| - 1]);
      }
    }
  }

  // ---------- replies ----------

  /** The reply is a list of one string, read back whole. */
  predicate ReadsAs(reply: string, value: string)
  {
    ParseArray(reply) == Some(([value], |reply|))
  }

  /** GET answers the key's last write, or nil, and changes nothing. */
  lemma GetReadsLastWrite(log: seq<string>, event: string, k: string, db: Store, reply: string)
    requires Parses(event) && var cmd := ParseArray(event).value.0; |cmd| == 2 && cmd[0] != "" && cmd[0][0] == 'G' && cmd[1] == k
    requires RunEvent(Replay(log), event) == Some((db, reply))
    ensures db == Replay(log)
    ensures ReadsAs(reply, match LastWrite(log, k) case Some(v) => v case None => "nil")
  {
    hide ParseArray, ArrayMessage, Replay, LastWrite;
    ReplayHolds(log, k);
    WrittenIsPrintable(log, k);
    var value := match LastWrite(log, k) case Some(v) => v case None => "nil";
    ArrayRoundTrip([value], "");
    assert ArrayMessage([value]) + "" == ArrayMessage([value]);
  }

  /** SET answers +OK, and every GET after it, before the next write, reads what was set. */
  lemma SetAnswersOk(log: seq<string>, event: string, k: string, db: Store, reply: string)
    requires Sets(event, k) && RunEvent(Replay(log), event) == Some((db, reply))
    ensures reply == "+OK\r\n" && LastWrite(log + [event], k) == Some(SetValue(event, k))
    ensures db == Replay(log + [event])
  {
    hide ParseArray, ArrayMessage, Replay, LastWrite;
    Appended(log, event, k);
    ReplayMore(log, event);
  }

  /** Those of the keys that have a value. */
  function Written(log: seq<string>, keys: seq<string>): (ks: set<string>)
    ensures forall k :: k in ks <==> k in keys && LastWrite(log, k).Some?
  {
    set k | k in keys && LastWrite(log, k).Some?
  }

  /** DEL answers how many of the listed keys had a value, each counted once, and leaves none of them. */
  lemma DelCounts(log: seq<string>, event: string, db: Store, reply: string)
    requires Parses(event) && var cmd := ParseArray(event).value.0; |cmd| >= 1 && cmd[0] != "" && cmd[0][0] == 'D'
    requires RunEvent(Replay(log), event) == Some((db, reply))
    ensures var keys := ParseArray(event).value.0[1..];
            && reply != "" && reply[0] == ':'
            && Atoi(reply[1..]) == |Written(log, keys)|
            && forall k :: k in keys ==> LastWrite(log + [event], k) == None
    ensures db == Replay(log + [event])
  {
    hide ParseArray, Replay, LastWrite, Atoi, ToString;
    var keys := ParseArray(event).value.0[1..];
    var present := Replay(log).Keys * Elements(keys);
    forall k | k in keys
      ensures k in present <==> LastWrite(log, k).Some?
      ensures LastWrite(log + [event], k) == None
    {
      ReplayHolds(log, k);
      Appended(log, event, k);
    }
    assert present == Written(log, keys);
    ParsedIsPrintable(event);
    CountElements(keys);
    SubsetIsSmaller(present, Elements(keys));
    CountReadsBack(|present|);
    ReplayMore(log, event);
  }

  lemma CountReadsBack(n: nat)
    requires n < TWO_31
    ensures IntegerMessage(n) != "" && IntegerMessage(n)[0] == ':' && Atoi(IntegerMessage(n)[1..]) == n
  {
    hide Atoi, Digits;
    AtoiOfDigits(n, CRLF);
    assert IntegerMessage(n)[1..] == Digits(n) + CRLF;
  }

  /** What a command does not write keeps its GET reply. */
  lemma OthersKeepTheirReply(log: seq<string>, event: string, k: string, get: string)
    requires !Sets(event, k) && !Deletes(event, k)
    requires Parses(get) && var cmd := ParseArray(get).value.0; |cmd| == 2 && cmd[0] != "" && cmd[0][0] == 'G' && cmd[1] == k
    ensures RunEvent(Replay(log + [event]), get).Some? && RunEvent(Replay(log), get).Some?
    ensures RunEvent(Replay(log + [event]), get).value.1 == RunEvent(Replay(log), get).value.1
  {
    hide ParseArray, Replay, LastWrite, ArrayMessage, Sets, Deletes;
    Appended(log, event, k);
    ReplayHolds(log, k);
    ReplayHolds(log + [event], k);
  }

  /** The error is answered to malformed commands only, whatever the store. */
  lemma ErrorsAreExact(db: Store, event: string)
    requires Parses(event)
    ensures RunEvent(db, event).Some?
    ensures RunEvent(db, event).value.1 == "-ERROR\r\n" <==> Refused(ParseArray(event).value.0)
  {
    hide ParseArray, Execute;
    WhenRefused(db, ParseArray(event).value.0);
  }
}
