/** Log records as text: logToStr and strToLog of Lab3/src/logger.cc. */
module LogText {
  import opened Wrappers
  import opened Decimal
  import opened Resp

  const LOG_PRE: nat := 1
  const LOG_COMMIT: nat := 2

  datatype Log = Log(id: nat, state: nat, event: string)

  /** An id fits uint64_t, a state uint8_t. */
  predicate IsLog(l: Log)
  {
    l.id < TWO_64 && l.state < 256
  }

  const TXID_TAG: string := "TXID: "
  const STATE_TAG: string := "S: "

  function LogToStr(l: Log): string
  {
    TXID_TAG + (Digits(l.id) + (CRLF + (STATE_TAG + (Digits(l.state) + (CRLF + (CRLF + l.event))))))
  }

  /** std::string::find: the first place of pat in s. */
  function Find(s: string, pat: string): (r: Option<nat>)
    ensures r.Some? ==> r.value + |pat| <= |s|
  {
    if pat <= s then Some(0)
    else if s == [] then None
    else
      match Find(s[1..], pat)
      case None => None
      case Some(k) => Some(k + 1)
  }

  /** std::string::substr(pos, count); a count below zero is a huge size_t, a pos past the end throws. */
  function SubStr(s: string, pos: nat, count: int): Option<string>
  {
    if pos > |s| then None
    else if count < 0 || pos + count > |s| then Some(s[pos..])
    else Some(s[pos..pos + count])
  }

  function ToUnsigned(z: int, modulus: int): nat
    requires modulus > 0
  {
    z % modulus
  }

  /** The number between tag and the end of the line, and what follows the line. */
  function ReadField(s: string, tag: string, skip: nat): Option<(int, string)>
  {
    match (Find(s, tag), Find(s, CRLF))
    case (Some(begin), Some(end)) =>
      (match SubStr(s, begin + |tag|, end - begin - |tag|)
       case None => None
       case Some(field) =>
         if end + skip > |s| then None else Some((Strtol(field), s[end + skip..])))
    case _ => None
  }

  /** strToLog; None where the source asserts or throws. */
  function StrToLog(str: string): Option<Log>
  {
    match ReadField(str, TXID_TAG, 2)
    case None => None
    case Some((id, rest)) =>
      match ReadField(rest, STATE_TAG, 4)
      case None => None
      case Some((state, event)) => Some(Log(ToUnsigned(id, TWO_64), ToUnsigned(state, 256), event))
  }

  lemma {:induction false} FindAfter(a: string, pat: string, b: string)
    requires pat != [] && forall i :: 0 <= i < |a| ==> a[i] != pat[0]
    ensures Find(a + (pat + b), pat) == Some(|a|)
  {
    if a == [] {
      assert a + (pat + b) == pat + b;
    } else {
      FindAfter(a[1..], pat, b);
      var s := a + (pat + b);
      assert s[0] == a[0];
      assert s[1..] == a[1..] + (pat + b);
    }
  }

  /** A field printed as tag, digits, line end reads back as far as long reaches, whatever follows. */
  lemma FieldReadsBack(tag: string, n: nat, skip: nat, mid: string, rest: string)
    requires tag != [] && skip == 2 + |mid|
    requires forall i :: 0 <= i < |tag| ==> tag[i] != '\r'
    ensures ReadField(tag + (Digits(n) + (CRLF + (mid + rest))), tag, skip) == Some((Clamp(n), rest))
  {
    hide Digits, Strtol, Find;
    var d := Digits(n);
    var s := tag + (d + (CRLF + (mid + rest)));
    FindAfter([], tag, d + (CRLF + (mid + rest)));
    assert [] + s == s;
    FindAfter(tag + d, CRLF, mid + rest);
    assert s == (tag + d) + (CRLF + (mid + rest));
    assert s[|tag|..|tag| + |d|] == d;
    StrtolOfDigits(n, "");
    assert d + "" == d;
    var end := |tag + d|;
    assert s == (tag + d + CRLF + mid) + rest;
    assert s[end + skip..] == rest;
  }

  /** What strToLog makes of a printed record. */
  lemma ParseOfPrint(l: Log)
    requires l.state < 256
    ensures StrToLog(LogToStr(l)) == Some(l.(id := Clamp(l.id)))
  {
    hide Digits, ReadField;
    var rest := STATE_TAG + (Digits(l.state) + (CRLF + (CRLF + l.event)));
    FieldReadsBack(TXID_TAG, l.id, 2, "", rest);
    assert "" + rest == rest;
    FieldReadsBack(STATE_TAG, l.state, 4, CRLF, l.event);
  }

  /** strToLog undoes logToStr, whatever the event holds, exactly for ids that fit a signed long. */
  lemma RecordRoundTrip(l: Log)
    requires IsLog(l)
    ensures StrToLog(LogToStr(l)) == Some(l) <==> l.id < TWO_63
  {
    hide StrToLog, LogToStr;
    ParseOfPrint(l);
  }
}
