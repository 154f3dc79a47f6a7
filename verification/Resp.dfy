/**
 The RESP messages of Lab3/src/parser.cc. A message is read from a C string; a read outside
 it, a failed assert and an exception are all None.
 */
module Resp {
  import opened Wrappers
  import opened Decimal

  const CRLF: string := "\r\n"
  const SUCCESS_MESSAGE: string := "+OK\r\n"
  const ERROR_MESSAGE: string := "-ERROR\r\n"

  /** getStringMessage; the length goes through an int. */
  function StringMessage(raw: string): string
  {
    "$" + ToString(ToInt32(|raw|)) + CRLF + raw + CRLF
  }

  /** getIntergerMessage. */
  function IntegerMessage(raw: int): string
  {
    ":" + ToString(raw) + CRLF
  }

  /** The messages of raw, one after the other. */
  function StringMessages(raw: seq<string>): string
  {
    if raw == [] then "" else StringMessages(raw[..|raw| - 1]) + StringMessage(raw[|raw| - 1])
  }

  /** What getRESPArry prints. */
  function ArrayMessage(raw: seq<string>): string
  {
    "*" + ToString(ToInt32(|raw|)) + CRLF + StringMessages(raw)
  }

  method GetRESPArray(raw: seq<string>) returns (rc: string)
    ensures rc == ArrayMessage(raw)
  {
    hide ToString, ToInt32, StringMessage;
    rc := "*";
    var number := ToInt32(|raw|);
    rc := rc + ToString(number);
    rc := rc + CRLF;
    ghost var head := rc;
    for i := 0 to |raw|
      invariant rc == head + StringMessages(raw[..i])
    {
      assert raw[..i + 1][..i] == raw[..i];
      rc := rc + StringMessage(raw[i]);
    }
    assert raw[..|raw|] == raw;
    Assoc("*", ToString(number), CRLF);
  }

  lemma Assoc<T>(a: seq<T>, b: seq<T>, c: seq<T>)
    ensures (a + b) + c == a + (b + c)
  {
  }

  lemma Rest<T>(a: seq<T>, b: seq<T>)
    ensures (a + b)[|a|..] == b && (a + b)[..|a|] == a
  {
  }

  /** parseStringMessage: the string and the number of characters it took. */
  function ParseString(message: string): (r: Option<(string, nat)>)
    ensures r.Some? ==> r.value.1 >= 6
  {
    if message == [] || message[0] != '$' then None
    else
      var strl := Atoi(message[1..]);
      var pos := 3 + |ToString(strl)|;
      if strl < 0 || pos + strl > |message| then None
      else Some((message[pos..pos + strl], pos + strl + 2))
  }

  /** number strings read one after the other, and the position behind them. */
  function ParseStrings(message: string, pos: nat, number: nat): (r: Option<(seq<string>, nat)>)
    ensures r.Some? ==> |r.value.0| == number
  {
    if number == 0 then Some(([], pos))
    else
      match ParseStrings(message, pos, number - 1)
      case None => None
      case Some((init, p)) =>
        if p > |message| then None
        else
          match ParseString(message[p..])
          case None => None
          case Some((s, len)) => Some((init + [s], p + len))
  }

  /** parserRESPArry: the strings and the number of characters they took. */
  function ParseArray(message: string): Option<(seq<string>, nat)>
  {
    if message == [] || message[0] != '*' then None
    else
      var number := Atoi(message[1..]);
      var pos := |ToString(number)| + 3;
      ParseStrings(message, pos, if number < 0 then 0 else number)
  }

  method ParserRESPArray(message: string) returns (r: Option<(seq<string>, nat)>)
    ensures r == ParseArray(message)
  {
    hide ToString, Atoi, ParseString;
    if message == [] || message[0] != '*' {
      return None;
    }
    var number := Atoi(message[1..]);
    var pos := |ToString(number)| + 3;
    var rc := [];
    ghost var start := pos;
    var i := 0;
    while i < number
      invariant 0 <= i && (i <= number || i == 0)
      invariant ParseStrings(message, start, i) == Some((rc, pos))
    {
      if pos > |message| {
        ParseStringsStops(message, start, i + 1, number);
        return None;
      }
      var tmp := ParseString(message[pos..]);
      if tmp == None {
        ParseStringsStops(message, start, i + 1, number);
        return None;
      }
      rc := rc + [tmp.value.0];
      pos := pos + tmp.value.1;
      i := i + 1;
    }
    return Some((rc, pos));
  }

  lemma {:induction false} ParseStringsStops(message: string, pos: nat, i: nat, n: nat)
    requires i <= n && ParseStrings(message, pos, i) == None
    ensures ParseStrings(message, pos, n) == None
    decreases n - i
  {
    hide ParseString;
    if i < n {
      ParseStringsStops(message, pos, i + 1, n);
    }
  }

  /** Every size fits the int it is printed through. */
  predicate Printable(raw: seq<string>)
  {
    |raw| < TWO_31 && forall i :: 0 <= i < |raw| ==> |raw[i]| < TWO_31
  }

  lemma PrintedSize(n: nat)
    requires n < TWO_31
    ensures ToInt32(n) == n && ToString(n) == Digits(n)
  {
  }

  /** What parseStringMessage reads, by its parts. */
  lemma ParseStringParts(m: string, strl: nat, size: nat)
    requires m != [] && m[0] == '$' && Atoi(m[1..]) == strl && |ToString(strl)| == size
    requires 3 + size + strl <= |m|
    ensures ParseString(m) == Some((m[3 + size..3 + size + strl], 3 + size + strl + 2))
  {
  }

  /** Parsing a printed string gives it back, whatever it holds and whatever follows. */
  lemma StringRoundTrip(raw: string, rest: string)
    requires |raw| < TWO_31
    ensures ParseString(StringMessage(raw) + rest) == Some((raw, |StringMessage(raw)|))
  {
    hide ToString, Digits, Atoi, ToInt32, ParseString;
    var d := Digits(|raw|);
    PrintedSize(|raw|);
    var tail := CRLF + (raw + (CRLF + rest));
    var m := StringMessage(raw) + rest;
    assert m == "$" + (d + tail) by {
      Assoc("$" + d + CRLF + raw, CRLF, rest);
      Assoc("$" + d + CRLF, raw, CRLF + rest);
      Assoc("$" + d, CRLF, raw + (CRLF + rest));
      Assoc("$", d, tail);
    }
    AtoiOfDigits(|raw|, tail);
    assert m[1..] == d + tail;
    var pos := 3 + |d|;
    assert m == ("$" + d + CRLF) + (raw + (CRLF + rest));
    Rest("$" + d + CRLF, raw + (CRLF + rest));
    assert m[pos..] == raw + (CRLF + rest);
    assert m[pos..pos + |raw|] == m[pos..][..|raw|] == raw;
    ParseStringParts(m, |raw|, |d|);
  }

  lemma {:induction false} MessagesSplit(raw: seq<string>, n: nat) returns (after: string)
    requires n <= |raw|
    ensures StringMessages(raw) == StringMessages(raw[..n]) + after
    decreases |raw|
  {
    hide StringMessage;
    if n < |raw| {
      var a := MessagesSplit(raw[..|raw| - 1], n);
      assert raw[..|raw| - 1][..n] == raw[..n];
      after := a + StringMessage(raw[|raw| - 1]);
      Assoc(StringMessages(raw[..n]), a, StringMessage(raw[|raw| - 1]));
    } else {
      assert raw[..n] == raw;
      after := "";
    }
  }

  lemma NoMessages()
    ensures StringMessages([]) == ""
  {
  }

  lemma MessagesMore(raw: seq<string>, n: nat)
    requires n < |raw|
    ensures StringMessages(raw[..n + 1]) == StringMessages(raw[..n]) + StringMessage(raw[n])
  {
    hide StringMessage;
    assert raw[..n + 1][..n] == raw[..n] && raw[..n + 1][n] == raw[n];
  }

  lemma {:induction false} StringsRoundTrip(raw: seq<string>, head: string, rest: string, n: nat)
    requires Printable(raw) && n <= |raw|
    ensures ParseStrings(head + (StringMessages(raw) + rest), |head|, n) ==
            Some((raw[..n], |head| + |StringMessages(raw[..n])|))
  {
    hide StringMessage, StringMessages, ParseString;
    var m := head + (StringMessages(raw) + rest);
    NoMessages();
    if n > 0 {
      StringsRoundTrip(raw, head, rest, n - 1);
      MessagesMore(raw, n - 1);
      var done, msg := StringMessages(raw[..n - 1]), StringMessage(raw[n - 1]);
      var after := MessagesSplit(raw, n);
      assert m == (head + done) + (msg + (after + rest)) by {
        Assoc(done + msg, after, rest);
        Assoc(done, msg, after + rest);
        Assoc(head, done, msg + (after + rest));
      }
      var p := |head| + |done|;
      Rest(head + done, msg + (after + rest));
      assert m[p..] == msg + (after + rest);
      StringRoundTrip(raw[n - 1], after + rest);
      assert raw[..n - 1] + [raw[n - 1]] == raw[..n];
    }
  }

  lemma ParseArrayParts(m: string, number: nat, size: nat)
    requires m != [] && m[0] == '*' && Atoi(m[1..]) == number && |ToString(number)| == size
    ensures ParseArray(m) == ParseStrings(m, size + 3, number)
  {
  }

  /** parserRESPArry undoes getRESPArry and tells exactly how far it read. */
  lemma ArrayRoundTrip(raw: seq<string>, rest: string)
    requires Printable(raw)
    ensures ParseArray(ArrayMessage(raw) + rest) == Some((raw, |ArrayMessage(raw)|))
  {
    hide ToString, Digits, Atoi, ToInt32, ParseArray, ParseStrings, StringMessages;
    var d := Digits(|raw|);
    PrintedSize(|raw|);
    var head, body := "*" + d + CRLF, StringMessages(raw);
    var m := ArrayMessage(raw) + rest;
    assert m == head + (body + rest) && m == "*" + (d + (CRLF + (body + rest))) by {
      Assoc(head, body, rest);
      Assoc("*" + d, CRLF, body + rest);
      Assoc("*", d, CRLF + (body + rest));
    }
    AtoiOfDigits(|raw|, CRLF + (body + rest));
    assert m[1..] == d + (CRLF + (body + rest));
    ParseArrayParts(m, |raw|, |d|);
    StringsRoundTrip(raw, head, rest, |raw|);
    assert raw[..|raw|] == raw;
  }
}
