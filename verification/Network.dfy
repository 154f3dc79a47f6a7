/** The decoding loops of Lab3/src/network.cc over a source that delivers chunks of any size. */
module Network {
  import opened Wrappers
  import opened Decimal
  import opened Resp

  const KV_NETWORK_CLOSE: int := -7
  const KV_BAD_COMMAD: int := -11
  const HEADER_LEN: nat := 9

  // ---------- the number in a frame header: eight bytes, least significant first ----------

  function Bytes(n: nat, k: nat): (s: string)
    ensures |s| == k
  {
    if k == 0 then [] else [(n % 256) as char] + Bytes(n / 256, k - 1)
  }

  function FromBytes(s: string): nat
  {
    if s == [] then 0 else s[0] as nat % 256 + 256 * FromBytes(s[1..])
  }

  function Pow256(k: nat): nat
  {
    if k == 0 then 1 else 256 * Pow256(k - 1)
  }

  lemma {:induction false} BytesRoundTrip(n: nat, k: nat)
    requires n < Pow256(k)
    ensures FromBytes(Bytes(n, k)) == n
  {
    if k > 0 {
      BytesRoundTrip(n / 256, k - 1);
      assert Bytes(n, k)[1..] == Bytes(n / 256, k - 1);
    }
  }

  /** What send puts on the wire; the length is a uint64_t. */
  function Frame(msg: string): string
  {
    "~" + Bytes(|msg| % TWO_64, 8) + msg
  }

  // ---------- what a byte stream says ----------

  /** The place of the first c in s. */
  function IndexOfChar(s: string, c: char): (r: Option<nat>)
    ensures r.Some? ==> r.value < |s| && s[r.value] == c && c !in s[..r.value]
    ensures r.None? ==> c !in s
  {
    if s == [] then None
    else if s[0] == c then Some(0)
    else
      match IndexOfChar(s[1..], c)
      case None => None
      case Some(k) => assert s[..k + 1] == [s[0]] + s[1..][..k]; Some(k + 1)
  }

  /** The first frame in s and the position behind it, if all of it is there. */
  function DecodeFrame(s: string): Option<(string, nat)>
  {
    match IndexOfChar(s, '~')
    case None => None
    case Some(i) =>
      if i + HEADER_LEN > |s| then None
      else
        var len := FromBytes(s[i + 1..i + HEADER_LEN]);
        if i + HEADER_LEN + len > |s| then None
        else Some((s[i + HEADER_LEN..i + HEADER_LEN + len], i + HEADER_LEN + len))
  }

  lemma {:induction false} IndexAfter(g: string, c: char, rest: string)
    requires c !in g
    ensures IndexOfChar(g + [c] + rest, c) == Some(|g|)
  {
    var s := g + [c] + rest;
    assert s[|g|] == c;
    forall i | 0 <= i < |g|
      ensures s[i] != c
    {
      assert s[i] == g[i];
    }
    assert forall j :: |g| < j <= |s| ==> c in s[..j] by {
      forall j | |g| < j <= |s|
        ensures c in s[..j]
      {
        assert s[..j][|g|] == c;
      }
    }
  }

  /** Decoding undoes framing behind any garbage without a tilde, and reads no further. */
  lemma DecodeUndoesFrame(g: string, msg: string, rest: string)
    requires '~' !in g && |msg| < TWO_64
    ensures DecodeFrame(g + Frame(msg) + rest) == Some((msg, |g| + HEADER_LEN + |msg|))
  {
    hide Bytes, FromBytes;
    var b := Bytes(|msg|, 8);
    assert Pow256(8) == TWO_64 by {
      PowOf8();
    }
    BytesRoundTrip(|msg|, 8);
    var s := g + Frame(msg) + rest;
    assert Frame(msg) == "~" + b + msg;
    assert s == g + ['~'] + (b + msg + rest);
    IndexAfter(g, '~', b + msg + rest);
    assert s[|g| + 1..|g| + HEADER_LEN] == b;
    assert s[|g| + HEADER_LEN..|g| + HEADER_LEN + |msg|] == msg;
  }

  lemma PowOf8()
    ensures Pow256(8) == TWO_64
  {
    assert Pow256(4) == TWO_32;
    assert Pow256(6) == 0x10000 * Pow256(4);
    assert Pow256(8) == 0x10000 * Pow256(6);
  }

  // ---------- an abstract connection ----------

  /** Bytes that arrive in chunks of whatever size; after the last one the peer has closed. */
  class ByteSource {
    const data: string
    var pos: nat

    ghost predicate Valid()
      reads this
    {
      pos <= |data|
    }

    ghost function Rest(): string
      reads this
      requires Valid()
    {
      data[pos..]
    }

    constructor (bytes: string)
      ensures Valid() && pos == 0 && Rest() == bytes
    {
      data := bytes;
      pos := 0;
    }

    /** At least one and at most limit of the next bytes. */
    method Recv(limit: nat) returns (rc: int, chunk: string)
      requires Valid() && limit > 0
      modifies this
      ensures Valid() && pos == old(pos) + |chunk| && chunk == data[old(pos)..pos]
      ensures if old(pos) == |data| then rc == KV_NETWORK_CLOSE else rc == KV_OK && 1 <= |chunk| <= limit
    {
      if pos == |data| {
        return KV_NETWORK_CLOSE, "";
      }
      var n :| 1 <= n <= limit && pos + n <= |data|;
      rc, chunk := KV_OK, data[pos..pos + n];
      pos := pos + n;
    }
  }

  /** The first t bytes hold no tilde and header is empty, or header starts at the first tilde. */
  ghost predicate HeaderSoFar(s: string, t: nat, header: string)
  {
    t <= |s| && |header| <= HEADER_LEN &&
    if header == "" then '~' !in s[..t]
    else |header| <= t && header == s[t - |header|..t] && IndexOfChar(s, '~') == Some(t - |header|)
  }

  lemma HeaderStarts(s: string)
    ensures HeaderSoFar(s, 0, "")
  {
  }

  lemma FirstTilde(s: string, i: nat)
    requires i < |s| && s[i] == '~' && '~' !in s[..i]
    ensures IndexOfChar(s, '~') == Some(i)
  {
    assert s == s[..i] + ['~'] + s[i + 1..];
    IndexAfter(s[..i], '~', s[i + 1..]);
  }

  lemma HeaderFound(s: string, t: nat, chunk: string, p: nat)
    requires p < |chunk| && chunk[p] == '~' && '~' !in chunk[..p]
    requires t <= |s| && '~' !in s[..t] && 0 < |chunk| <= HEADER_LEN && t + |chunk| <= |s| && chunk == s[t..t + |chunk|]
    ensures HeaderSoFar(s, t + |chunk|, chunk[p..])
  {
    hide IndexOfChar;
    assert s[..t + p] == s[..t] + chunk[..p];
    FirstTilde(s, t + p);
    assert chunk[p..] == s[t + p..t + |chunk|];
  }

  lemma HeaderGrows(s: string, t: nat, header: string, chunk: string)
    requires HeaderSoFar(s, t, header) && |header| < HEADER_LEN && 0 < |chunk| <= HEADER_LEN - |header|
    requires t + |chunk| <= |s| && chunk == s[t..t + |chunk|]
    ensures header != "" ==> HeaderSoFar(s, t + |chunk|, header + chunk)
    ensures header == "" && IndexOfChar(chunk, '~') == None ==> HeaderSoFar(s, t + |chunk|, "")
    ensures header == "" && IndexOfChar(chunk, '~').Some? ==>
              HeaderSoFar(s, t + |chunk|, chunk[IndexOfChar(chunk, '~').value..])
  {
    hide IndexOfChar;
    if header == "" {
      match IndexOfChar(chunk, '~') {
        case None => assert s[..t + |chunk|] == s[..t] + chunk;
        case Some(p) => HeaderFound(s, t, chunk, p);
      }
    } else {
      assert header + chunk == s[t - |header|..t + |chunk|];
    }
  }

  lemma SliceOfRest(data: string, start: nat, pos: nat, len: nat)
    requires start <= pos && pos + len <= |data|
    ensures data[pos..pos + len] == data[start..][pos - start..pos - start + len]
  {
  }

  lemma HeaderCutOff(s: string, header: string)
    requires HeaderSoFar(s, |s|, header) && |header| < HEADER_LEN
    ensures DecodeFrame(s) == None
  {
    assert s[..|s|] == s;
  }

  /** A complete header tells where the body starts and how long it is. */
  lemma HeaderComplete(s: string, t: nat, header: string)
    requires HeaderSoFar(s, t, header) && |header| == HEADER_LEN
    ensures header[1..] == s[t - HEADER_LEN + 1..t]
    ensures DecodeFrame(s) == if t + FromBytes(header[1..]) > |s| then None
                              else Some((s[t..t + FromBytes(header[1..])], t + FromBytes(header[1..])))
  {
  }

  /** The header loop of recv; a chunk without a tilde is dropped until one has been seen. */
  method RecvHeader(peer: ByteSource) returns (rc: int, header: string)
    requires peer.Valid()
    modifies peer
    ensures peer.Valid() && old(peer.pos) <= peer.pos && rc in {KV_OK, KV_NETWORK_CLOSE}
    ensures rc == KV_OK ==> |header| == HEADER_LEN && HeaderSoFar(old(peer.Rest()), peer.pos - old(peer.pos), header)
    ensures rc == KV_NETWORK_CLOSE ==> DecodeFrame(old(peer.Rest())) == None
  {
    hide IndexOfChar, DecodeFrame, HeaderSoFar;
    ghost var s, start := peer.Rest(), peer.pos;
    header := "";
    HeaderStarts(s);
    rc := KV_OK;
    var headerLen := 0;
    while headerLen != HEADER_LEN
      invariant peer.Valid() && start <= peer.pos && headerLen == |header| && rc == KV_OK
      invariant HeaderSoFar(s, peer.pos - start, header) && headerLen <= HEADER_LEN
      decreases |peer.data| - peer.pos
    {
      var chunk;
      rc, chunk := peer.Recv(HEADER_LEN - headerLen);
      if rc == KV_NETWORK_CLOSE {
        HeaderCutOff(s, header);
        return;
      }
      SliceOfRest(peer.data, start, peer.pos - |chunk|, |chunk|);
      HeaderGrows(s, peer.pos - |chunk| - start, header, chunk);
      if headerLen == 0 {
        match IndexOfChar(chunk, '~') {
          case Some(p) =>
            header := chunk[p..];
            headerLen := headerLen + |chunk| - p;
          case None =>
        }
      } else {
        header := header + chunk;
        headerLen := headerLen + |chunk|;
      }
    }
  }

  /** Exactly len further bytes, or close. */
  method RecvBody(peer: ByteSource, len: nat) returns (rc: int, content: string)
    requires peer.Valid()
    modifies peer
    ensures peer.Valid() && old(peer.pos) <= peer.pos && rc in {KV_OK, KV_NETWORK_CLOSE}
    ensures rc == KV_OK <==> len <= |old(peer.Rest())|
    ensures rc == KV_OK ==> content == old(peer.Rest())[..len] && peer.pos == old(peer.pos) + len
  {
    ghost var s, start := peer.Rest(), peer.pos;
    content := "";
    rc := KV_OK;
    while |content| != len
      invariant peer.Valid() && peer.pos == start + |content| && |content| <= len
      invariant content == s[..|content|] && rc == KV_OK
      decreases len - |content|
    {
      var chunk;
      rc, chunk := peer.Recv(len - |content|);
      if rc == KV_NETWORK_CLOSE {
        return;
      }
      assert s[..|content| + |chunk|] == s[..|content|] + chunk;
      content := content + chunk;
    }
  }

  /** recv: the body of the next frame, wherever the chunks are cut; close if the frame is cut off. */
  method Recv(peer: ByteSource) returns (rc: int, content: string)
    requires peer.Valid()
    modifies peer
    ensures peer.Valid() && rc in {KV_OK, KV_NETWORK_CLOSE}
    ensures rc == KV_OK <==> DecodeFrame(old(peer.Rest())).Some?
    ensures rc == KV_OK ==> DecodeFrame(old(peer.Rest())) == Some((content, peer.pos - old(peer.pos)))
  {
    hide IndexOfChar, DecodeFrame, FromBytes;
    ghost var s, start := peer.Rest(), peer.pos;
    var header;
    content := "";
    rc, header := RecvHeader(peer);
    if rc == KV_NETWORK_CLOSE {
      return;
    }
    ghost var t := peer.pos - start;
    HeaderComplete(s, t, header);
    assert peer.Rest() == s[t..];
    rc, content := RecvBody(peer, FromBytes(header[1..]));
    assert rc == KV_OK ==> content == s[t..t + |content|];
  }

  /** The body length announced by the first header in s, if that header is complete. */
  function Announced(s: string): Option<nat>
  {
    match IndexOfChar(s, '~')
    case None => None
    case Some(i) => if i + HEADER_LEN > |s| then None else Some(FromBytes(s[i + 1..i + HEADER_LEN]))
  }

  lemma HeaderAnnounces(s: string, t: nat, header: string)
    requires HeaderSoFar(s, t, header) && |header| == HEADER_LEN
    ensures Announced(s) == Some(FromBytes(header[1..]))
  {
  }

  /** The body loop of sendAndRecv, whose recvLen is an int. */
  method RecvReplyBody(peer: ByteSource, len: nat) returns (rc: int, rmsg: string)
    requires peer.Valid() && len < TWO_31
    modifies peer
    ensures peer.Valid() && rc in {KV_OK, KV_NETWORK_CLOSE}
    ensures rc == KV_OK <==> len <= |old(peer.Rest())|
    ensures rc == KV_OK ==> rmsg == old(peer.Rest())[..len] && peer.pos == old(peer.pos) + len
  {
    ghost var s, start := peer.Rest(), peer.pos;
    rmsg := "";
    rc := KV_OK;
    while |rmsg| != len
      invariant peer.Valid() && peer.pos == start + |rmsg| && |rmsg| <= len
      invariant rmsg == s[..|rmsg|] && rc == KV_OK
      decreases len - |rmsg|
    {
      var recvLen := ToInt32(len - |rmsg|);
      var chunk;
      rc, chunk := peer.Recv(recvLen);
      if rc != KV_OK {
        return;
      }
      assert s[..|rmsg| + |chunk|] == s[..|rmsg|] + chunk;
      rmsg := rmsg + chunk;
    }
  }

  /**
   The receiving half of sendAndRecv: the body of the reply's frame, wherever the chunks are
   cut. An empty reply leaves the caller's string as it was.
   */
  method RecvReply(peer: ByteSource, before: string) returns (rc: int, rmsg: string)
    requires peer.Valid()
    requires Announced(peer.Rest()).Some? ==> Announced(peer.Rest()).value < TWO_31
    modifies peer
    ensures peer.Valid() && rc in {KV_OK, KV_NETWORK_CLOSE}
    ensures rc == KV_OK <==> DecodeFrame(old(peer.Rest())).Some?
    ensures rc == KV_OK ==>
              var (body, n) := DecodeFrame(old(peer.Rest())).value;
              rmsg == (if body == "" then before else body) && peer.pos == old(peer.pos) + n
  {
    hide IndexOfChar, DecodeFrame, FromBytes, Announced;
    ghost var s, start := peer.Rest(), peer.pos;
    var header;
    rmsg := before;
    rc, header := RecvHeader(peer);
    if rc != KV_OK {
      return;
    }
    ghost var t := peer.pos - start;
    HeaderComplete(s, t, header);
    HeaderAnnounces(s, t, header);
    assert peer.Rest() == s[t..];
    var contentLen := FromBytes(header[1..]);
    if contentLen == 0 {
      return;
    }
    rc, rmsg := RecvReplyBody(peer, contentLen);
    assert rc == KV_OK ==> rmsg == s[t..t + |rmsg|];
  }

  /** Over any chunking, recv returns exactly the framed message and stops right behind its frame. */
  method RecvFramed(g: string, msg: string, rest: string) returns (rc: int, content: string, consumed: nat)
    requires '~' !in g && |msg| < TWO_64
    ensures rc == KV_OK && content == msg && consumed == |g + Frame(msg)|
  {
    var peer := new ByteSource(g + Frame(msg) + rest);
    DecodeUndoesFrame(g, msg, rest);
    rc, content := Recv(peer);
    consumed := peer.pos;
  }

  // ---------- commands from clients ----------

  predicate AllDigits(s: string)
  {
    forall i :: 0 <= i < |s| ==> IsDigit(s[i])
  }

  /** What reading a number line such as "*3\r\n" byte by byte comes to. */
  datatype Line = Number(text: string, consumed: nat) | Bad | CutOff

  /** The byte loop of recvCommand: skip to mark, then digits up to CR, then LF. */
  function ReadLine(s: string, mark: char, step: nat, header: string, at: nat): (r: Line)
    ensures r.Number? ==> at < r.consumed <= at + |s|
    ensures r.Number? && AllDigits(header) ==> AllDigits(r.text)
    decreases |s|
  {
    if s == [] then CutOff
    else if step == 0 then ReadLine(s[1..], mark, if s[0] == mark then 1 else 0, header, at + 1)
    else if step == 1 then
      if s[0] == '\r' then ReadLine(s[1..], mark, 2, header, at + 1)
      else if !IsDigit(s[0]) then Bad
      else ReadLine(s[1..], mark, 1, header + [s[0]], at + 1)
    else if s[0] == '\n' then Number(header, at + 1)
    else Bad
  }

  method RecvLine(peer: ByteSource, mark: char) returns (rc: int, header: string)
    requires peer.Valid()
    modifies peer
    ensures peer.Valid() && old(peer.pos) <= peer.pos
    ensures match ReadLine(old(peer.Rest()), mark, 0, "", 0)
            case Number(text, consumed) => rc == KV_OK && header == text && peer.pos == old(peer.pos) + consumed
            case Bad => rc == KV_BAD_COMMAD
            case CutOff => rc == KV_NETWORK_CLOSE
  {
    ghost var s, start := peer.Rest(), peer.pos;
    header := "";
    var step := 0;
    while true
      invariant peer.Valid() && start <= peer.pos && step <= 2
      invariant ReadLine(peer.Rest(), mark, step, header, peer.pos - start) == ReadLine(s, mark, 0, "", 0)
      decreases |peer.data| - peer.pos
    {
      ghost var rest := peer.Rest();
      var byte;
      rc, byte := peer.Recv(1);
      if rc != KV_OK {
        return;
      }
      assert byte == [rest[0]] && peer.Rest() == rest[1..];
      if step == 0 {
        if byte[0] == mark {
          step := 1;
        }
      } else if step == 1 {
        if byte[0] == '\r' {
          step := 2;
          continue;
        }
        if !IsDigit(byte[0]) {
          rc := KV_BAD_COMMAD;
          return;
        }
        header := header + byte;
      } else {
        if byte[0] != '\n' {
          rc := KV_BAD_COMMAD;
        }
        return;
      }
    }
  }

  /** strtol of a line of digits. */
  function Count(text: string): nat
    requires AllDigits(text)
  {
    DigitPrefixOf(text, "");
    assert text + "" == text;
    Strtol(text)
  }

  datatype Items = Items(list: seq<string>, consumed: nat) | Failed(rc: int)

  /** One bulk string at position at: its length line, then that many bytes. */
  function DecodeItem(s: string, at: nat): (r: Items)
    ensures r.Items? ==> |r.list| == 1 && at <= r.consumed <= |s|
    ensures r.Failed? ==> r.rc in {KV_BAD_COMMAD, KV_NETWORK_CLOSE}
  {
    if at > |s| then Failed(KV_NETWORK_CLOSE)
    else
      match ReadLine(s[at..], '$', 0, "", 0)
      case Bad => Failed(KV_BAD_COMMAD)
      case CutOff => Failed(KV_NETWORK_CLOSE)
      case Number(text, n) =>
        var len := Count(text);
        if at + n + len > |s| then Failed(KV_NETWORK_CLOSE)
        else Items([s[at + n..at + n + len]], at + n + len)
  }

  function DecodeItems(s: string, at: nat, n: nat): (r: Items)
    requires at <= |s|
    ensures r.Items? ==> |r.list| == n && at <= r.consumed <= |s|
    ensures r.Failed? ==> r.rc in {KV_BAD_COMMAD, KV_NETWORK_CLOSE}
  {
    if n == 0 then Items([], at)
    else
      var init := DecodeItems(s, at, n - 1);
      if init.Failed? then init
      else
        var item := DecodeItem(s, init.consumed);
        if item.Failed? then item else Items(init.list + item.list, item.consumed)
  }

  /** What recvCommand makes of a byte stream. */
  function DecodeCommand(s: string): (r: Items)
    ensures r.Failed? ==> r.rc in {KV_BAD_COMMAD, KV_NETWORK_CLOSE}
  {
    match ReadLine(s, '*', 0, "", 0)
    case Bad => Failed(KV_BAD_COMMAD)
    case CutOff => Failed(KV_NETWORK_CLOSE)
    case Number(text, n) =>
      DecodeItems(s, n, Count(text))
  }

  /** One turn of the loop of recvCommand: a length line and that many bytes. */
  method RecvItem(peer: ByteSource, ghost s: string, ghost start: nat) returns (rc: int, content: string)
    requires peer.Valid() && start <= peer.pos <= |peer.data| && s == peer.data[start..]
    modifies peer
    ensures peer.Valid() && start <= peer.pos
    ensures match DecodeItem(s, old(peer.pos) - start)
            case Items(list, consumed) => rc == KV_OK && list == [content] && peer.pos == start + consumed
            case Failed(e) => rc == e
  {
    hide ReadLine, Strtol;
    var header;
    content := "";
    assert peer.Rest() == s[peer.pos - start..];
    rc, header := RecvLine(peer, '$');
    if rc != KV_OK {
      return;
    }
    ghost var at := peer.pos - start;
    assert peer.Rest() == s[at..];
    rc, content := RecvBody(peer, Count(header));
    assert rc == KV_OK ==> content == s[at..at + |content|];
  }

  /** recvCommand: the strings a client sent, wherever the chunks are cut. */
  method RecvCommand(peer: ByteSource) returns (rc: int, strs: seq<string>)
    requires peer.Valid()
    modifies peer
    ensures peer.Valid()
    ensures match DecodeCommand(old(peer.Rest()))
            case Items(list, consumed) => rc == KV_OK && strs == list && peer.pos == old(peer.pos) + consumed
            case Failed(e) => rc == e
  {
    hide ReadLine, Strtol, DecodeItem;
    ghost var s, start := peer.Rest(), peer.pos;
    var header;
    strs := [];
    rc, header := RecvLine(peer, '*');
    if rc != KV_OK {
      return;
    }
    var num := Count(header);
    ghost var at := peer.pos - start;
    for i := 0 to num
      invariant peer.Valid() && at <= peer.pos - start && rc == KV_OK
      invariant DecodeItems(s, at, i) == Items(strs, peer.pos - start)
    {
      var content;
      rc, content := RecvItem(peer, s, start);
      if rc != KV_OK {
        ItemsStop(s, at, i + 1, num);
        return;
      }
      strs := strs + [content];
    }
  }

  lemma {:induction false} ItemsStop(s: string, at: nat, i: nat, n: nat)
    requires at <= |s| && i <= n && DecodeItems(s, at, i).Failed?
    ensures DecodeItems(s, at, n) == DecodeItems(s, at, i)
    decreases n - i
  {
    if i < n {
      ItemsStop(s, at, i + 1, n);
    }
  }

  lemma {:induction false} SkipToMark(g: string, mark: char, rest: string, header: string, at: nat)
    requires mark !in g
    ensures ReadLine(g + ([mark] + rest), mark, 0, header, at) == ReadLine(rest, mark, 1, header, at + |g| + 1)
  {
    var s := g + ([mark] + rest);
    if g == [] {
      assert s == [mark] + rest && s[1..] == rest;
    } else {
      assert s[0] == g[0] && s[1..] == g[1..] + ([mark] + rest);
      SkipToMark(g[1..], mark, rest, header, at + 1);
    }
  }

  lemma {:induction false} ReadDigits(d: string, mark: char, rest: string, header: string, at: nat)
    requires AllDigits(d)
    ensures ReadLine(d + rest, mark, 1, header, at) == ReadLine(rest, mark, 1, header + d, at + |d|)
  {
    if d == [] {
      assert d + rest == rest && header + d == header;
    } else {
      assert (d + rest)[1..] == d[1..] + rest && (d + rest)[0] == d[0];
      ReadDigits(d[1..], mark, rest, header + [d[0]], at + 1);
      assert header + [d[0]] + d[1..] == header + d;
    }
  }

  /** The line end, or what is refused in its place. */
  lemma ReadEnd(mark: char, rest: string, header: string, at: nat)
    requires rest != [] ==> !IsDigit(rest[0])
    ensures ReadLine(rest, mark, 1, header, at) ==
            if rest == [] || rest == ['\r'] then CutOff
            else if CRLF <= rest then Number(header, at + 2)
            else Bad
  {
    if |rest| >= 2 {
      assert rest[..2] == [rest[0], rest[1]];
    }
  }

  /**
   Every stream is some text without the mark, then perhaps the mark, digits, and something else.
   The line is read exactly if that begins with CR LF, and refused exactly if it cannot do so.
   */
  lemma LineVerdict(g: string, mark: char, d: string, rest: string)
    requires mark !in g && AllDigits(d) && (rest != [] ==> !IsDigit(rest[0]))
    ensures ReadLine(g + ([mark] + (d + rest)), mark, 0, "", 0) ==
            if rest == [] || rest == ['\r'] then CutOff
            else if CRLF <= rest then Number(d, |g| + 1 + |d| + 2)
            else Bad
  {
    hide ReadLine, AllDigits, IsDigit;
    SkipToMark(g, mark, d + rest, "", 0);
    ReadDigits(d, mark, rest, "", |g| + 1);
    ReadEnd(mark, rest, "" + d, |g| + 1 + |d|);
    assert "" + d == d;
  }

  /** Where a line is refused, so is the command. */
  lemma BadLineBadCommand(s: string)
    ensures ReadLine(s, '*', 0, "", 0) == Bad ==> DecodeCommand(s) == Failed(KV_BAD_COMMAD)
    ensures ReadLine(s, '$', 0, "", 0) == Bad ==> DecodeItem(s, 0) == Failed(KV_BAD_COMMAD)
  {
    hide ReadLine, DecodeItems, AllDigits;
    assert s[0..] == s;
  }

  lemma {:induction false} NoMarkNoLine(s: string, mark: char, header: string, at: nat)
    requires mark !in s
    ensures ReadLine(s, mark, 0, header, at) == CutOff
  {
    if s != [] {
      NoMarkNoLine(s[1..], mark, header, at + 1);
    }
  }

  /** Every stream has that form. */
  lemma {:induction false} LineForm(s: string, mark: char) returns (g: string, d: string, rest: string)
    requires mark in s
    ensures s == g + ([mark] + (d + rest)) && mark !in g && AllDigits(d) && (rest != [] ==> !IsDigit(rest[0]))
  {
    if s[0] == mark {
      g, d := "", DigitPrefix(s[1..]);
      rest := s[1..][|d|..];
    } else {
      g, d, rest := LineForm(s[1..], mark);
      g := [s[0]] + g;
    }
  }

  /** A printed number line reads back behind anything without its mark. */
  lemma LineReadsBack(g: string, mark: char, n: nat, rest: string)
    requires mark !in g && n < TWO_31
    ensures ReadLine(g + ([mark] + (Digits(n) + (CRLF + rest))), mark, 0, "", 0) ==
            Number(Digits(n), |g| + 1 + |Digits(n)| + 2)
    ensures AllDigits(Digits(n)) && Count(Digits(n)) == n
  {
    hide ReadLine, Digits, Strtol, AllDigits, Count;
    CountOfDigits(n);
    LineVerdict(g, mark, Digits(n), CRLF + rest);
  }

  lemma CountOfDigits(n: nat)
    requires n < TWO_31
    ensures AllDigits(Digits(n)) && Count(Digits(n)) == n
  {
    hide Digits, Strtol;
    StrtolOfDigits(n, "");
    assert Digits(n) + "" == Digits(n);
  }

  /** One printed string reads back behind anything without a dollar sign, up to its final line end. */
  lemma ItemReadsBack(s: string, at: nat, g: string, raw: string, rest: string)
    requires at <= |s| && s[at..] == g + (StringMessage(raw) + rest) && '$' !in g && |raw| < TWO_31
    ensures DecodeItem(s, at) == Items([raw], at + |g| + |StringMessage(raw)| - 2)
  {
    hide ReadLine, Strtol, Digits, ToString, ToInt32;
    PrintedSize(|raw|);
    var d := Digits(|raw|);
    var tail := raw + (CRLF + rest);
    assert s[at..] == g + (['$'] + (d + (CRLF + tail)));
    LineReadsBack(g, '$', |raw|, tail);
    var n := |g| + 1 + |d| + 2;
    assert s[at..][n..] == tail;
    assert s[at + n..at + n + |raw|] == tail[..|raw|] == raw;
  }

  /** Where the reader stands after n strings: the last one's line end is still unread. */
  ghost function Unread(n: nat): string
  {
    if n == 0 then "" else CRLF
  }

  lemma UnreadRest(head: string, done: string, g: string, next: string)
    requires |g| <= |done| && done[|done| - |g|..] == g
    ensures (head + (done + next))[|head| + |done| - |g|..] == g + next
  {
    var a := done[..|done| - |g|];
    assert done == a + g;
    assert head + (done + next) == (head + a) + (g + next);
  }

  /** The n-th string reads back where the reader stands after n - 1 of them. */
  lemma NextItemReadsBack(s: string, head: string, raw: seq<string>, rest: string, n: nat)
    requires Printable(raw) && n < |raw| && s == head + (StringMessages(raw) + rest)
    ensures |StringMessages(raw[..n])| >= |Unread(n)|
    ensures StringMessages(raw[..n + 1]) == StringMessages(raw[..n]) + StringMessage(raw[n])
    ensures DecodeItem(s, |head| + |StringMessages(raw[..n])| - |Unread(n)|) ==
            Items([raw[n]], |head| + |StringMessages(raw[..n])| + |StringMessage(raw[n])| - 2)
  {
    hide StringMessage, StringMessages, DecodeItem, Unread;
    MessagesMore(raw, n);
    var done, msg, g := StringMessages(raw[..n]), StringMessage(raw[n]), Unread(n);
    var after := MessagesSplit(raw, n + 1);
    assert StringMessages(raw) + rest == done + (msg + (after + rest)) by {
      Assoc(done + msg, after, rest);
      Assoc(done, msg, after + rest);
    }
    MessagesEnd(raw[..n]);
    UnreadRest(head, done, g, msg + (after + rest));
    UnreadIs(n);
    ItemReadsBack(s, |head| + |done| - |g|, g, raw[n], after + rest);
  }

  lemma UnreadIs(n: nat)
    ensures '$' !in Unread(n) && |Unread(n + 1)| == 2 && |Unread(0)| == 0
  {
  }

  lemma {:induction false} ItemsReadBack(s: string, head: string, raw: seq<string>, rest: string, n: nat)
    requires Printable(raw) && n <= |raw| && s == head + (StringMessages(raw) + rest)
    ensures |StringMessages(raw[..n])| >= |Unread(n)|
    ensures DecodeItems(s, |head|, n) == Items(raw[..n], |head| + |StringMessages(raw[..n])| - |Unread(n)|)
  {
    hide StringMessage, StringMessages, DecodeItem, Unread, Printable;
    NoMessages();
    UnreadIs(if n > 0 then n - 1 else 0);
    if n > 0 {
      ItemsReadBack(s, head, raw, rest, n - 1);
      NextItemReadsBack(s, head, raw, rest, n - 1);
      assert raw[..n - 1] + [raw[n - 1]] == raw[..n];
      MessageEnd(raw[n - 1]);
    }
  }

  lemma MessageEnd(raw: string)
    ensures |StringMessage(raw)| >= 2
  {
  }

  /** A printed list of strings ends with a line end, unless it is empty. */
  lemma MessagesEnd(raw: seq<string>)
    ensures |StringMessages(raw)| >= |Unread(|raw|)|
    ensures StringMessages(raw)[|StringMessages(raw)| - |Unread(|raw|)|..] == Unread(|raw|)
  {
    hide ToString;
  }

  /** recvCommand recovers exactly the list getRESPArry printed, behind anything without a star. */
  lemma CommandReadsBack(g: string, raw: seq<string>, rest: string)
    requires Printable(raw) && '*' !in g
    ensures DecodeCommand(g + ArrayMessage(raw) + rest) ==
            Items(raw, |g + ArrayMessage(raw)| - |Unread(|raw|)|)
  {
    hide ReadLine, Strtol, Digits, ToString, ToInt32, StringMessages, DecodeItems;
    PrintedSize(|raw|);
    var d, body := Digits(|raw|), StringMessages(raw);
    var s := g + ArrayMessage(raw) + rest;
    assert s == g + (['*'] + (d + (CRLF + (body + rest))));
    LineReadsBack(g, '*', |raw|, body + rest);
    var head := g + ['*'] + d + CRLF;
    assert s == head + (body + rest);
    ItemsReadBack(s, head, raw, rest, |raw|);
    assert raw[..|raw|] == raw;
  }
}
