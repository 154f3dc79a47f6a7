/**
 Puzzle files and the printed answers: 82-byte lines, read and written in batches
 (Lab1/fileManager.cpp, Lab1/solverManager.cpp).
 */
module PuzzleText {
  const LINE: nat := 81
  const STEP: nat := 82

  /** What %s prints of a buffer: everything before the first NUL. */
  function CString(s: string): string
  {
    if s == [] || s[0] == '\0' then [] else [s[0]] + CString(s[1..])
  }

  lemma {:induction false} CStringStops(s: string, k: nat)
    requires k < |s| && s[k] == '\0' && forall i :: 0 <= i < k ==> s[i] != '\0'
    ensures CString(s) == s[..k]
  {
    if k > 0 {
      CStringStops(s[1..], k - 1);
      assert s[..k] == [s[0]] + s[1..][..k - 1];
    }
  }

  /** One puzzle or answer: 81 characters, none of them NUL. */
  predicate IsLine(line: string)
  {
    |line| == LINE && forall i :: 0 <= i < |line| ==> line[i] != '\0'
  }

  predicate AreLines(lines: seq<string>)
  {
    forall i :: 0 <= i < |lines| ==> IsLine(lines[i])
  }

  /** The lines, each with its newline. */
  function Text(lines: seq<string>): string
  {
    if lines == [] then "" else Text(lines[..|lines| - 1]) + lines[|lines| - 1] + "\n"
  }

  lemma TextMore(lines: seq<string>, line: string)
    ensures Text(lines + [line]) == Text(lines) + line + "\n"
  {
    assert (lines + [line])[..|lines|] == lines;
  }

  /** The first n lines of a file. */
  function Lines(content: string, n: nat): (lines: seq<string>)
    requires STEP * n <= |content|
    ensures |lines| == n
  {
    if n == 0 then [] else Lines(content, n - 1) + [content[STEP * (n - 1)..STEP * (n - 1) + LINE]]
  }

  /** Where line i ends. */
  function EndOfLine(i: nat): nat
  {
    STEP * i + LINE
  }

  /** A file of whole lines is the text of its lines. */
  lemma {:induction false} LinesAreText(content: string, n: nat)
    requires STEP * n <= |content|
    requires forall i: nat {:trigger EndOfLine(i)} :: i < n ==> content[EndOfLine(i)] == '\n'
    ensures Text(Lines(content, n)) == content[..STEP * n]
  {
    if n > 0 {
      LinesAreText(content, n - 1);
      TextMore(Lines(content, n - 1), content[STEP * (n - 1)..STEP * (n - 1) + LINE]);
      assert content[EndOfLine(n - 1)] == '\n';
    }
  }

  lemma {:induction false} LinesOfText(content: string, n: nat)
    requires STEP * n <= |content| && forall i :: 0 <= i < |content| ==> content[i] != '\0'
    ensures AreLines(Lines(content, n))
  {
    if n > 0 {
      LinesOfText(content, n - 1);
    }
  }

  // ---------- reading a file ----------

  /** strncpy of one line into a fresh buffer of 82 bytes, the last of them NUL. */
  method CopyLine(lineBuf: array<char>, at: nat) returns (line: string)
    requires at + LINE <= lineBuf.Length && forall i :: at <= i < at + LINE ==> lineBuf[i] != '\0'
    ensures line == lineBuf[at..at + LINE]
  {
    var singleLine := new char[STEP](_ => '\0');
    for i := 0 to LINE
      invariant singleLine[..i] == lineBuf[at..at + i]
    {
      singleLine[i] := lineBuf[at + i];
    }
    singleLine[LINE] := '\0';
    assert singleLine[..LINE] == lineBuf[at..at + LINE];
    forall i | 0 <= i < LINE
      ensures singleLine[..][i] != '\0'
    {
      assert singleLine[..LINE][i] == lineBuf[at..at + LINE][i] == lineBuf[at + i];
    }
    CStringStops(singleLine[..], LINE);
    line := CString(singleLine[..]);
  }

  /** Reads len bytes at pos into the buffer. */
  method ReadAt(content: string, pos: nat, len: nat, lineBuf: array<char>)
    requires pos + len <= |content| && len <= lineBuf.Length
    modifies lineBuf
    ensures lineBuf[..len] == content[pos..pos + len]
  {
    for i := 0 to len
      invariant lineBuf[..i] == content[pos..pos + i]
    {
      lineBuf[i] := content[pos + i];
    }
  }

  lemma SliceOfSlice(a: string, b: string, at: nat, len: nat, k: nat)
    requires len <= |a| && at + len <= |b| && a[..len] == b[at..at + len] && k + LINE <= len
    ensures a[k..k + LINE] == b[at + k..at + k + LINE]
  {
    assert a[k..k + LINE] == a[..len][k..k + LINE];
    var u, w := b[at + k..at + k + LINE], b[at..at + len][k..k + LINE];
    forall i | 0 <= i < LINE
      ensures u[i] == w[i]
    {
      assert w[i] == b[at..at + len][k + i];
    }
    assert u == w;
  }

  lemma PrefixOfRead(a: string, b: string, at: nat, len: nat)
    requires 0 < len <= |a| && at + len <= |b| && a[..len] == b[at..at + len]
    ensures a[..len - 1] == b[at..at + len - 1]
  {
    assert a[..len - 1] == a[..len][..len - 1];
    assert b[at..at + len - 1] == b[at..at + len][..len - 1];
  }

  /** Hands the first count lines of the buffer, which hold the file from line first on, to problemWriter. */
  method TakeLines(content: string, lineBuf: array<char>, ghost first: nat, count: nat, problems: seq<string>)
    returns (more: seq<string>)
    requires STEP * (first + count) <= |content| && STEP * count - 1 <= lineBuf.Length
    requires count > 0 && lineBuf[..STEP * count - 1] == content[STEP * first..STEP * (first + count) - 1]
    requires forall i :: 0 <= i < |content| ==> content[i] != '\0'
    requires problems == Lines(content, first)
    ensures more == Lines(content, first + count)
  {
    more := problems;
    for i := 0 to count
      invariant more == Lines(content, first + i)
    {
      assert STEP * (first + i) == STEP * first + STEP * i;
      forall k | STEP * i <= k < STEP * i + LINE
        ensures lineBuf[k] != '\0'
      {
        assert lineBuf[..STEP * count - 1][k] == content[STEP * first + k];
      }
      var singleLine := CopyLine(lineBuf, STEP * i);
      SliceOfSlice(lineBuf[..], content, STEP * first, STEP * count - 1, STEP * i);
      more := more + [singleLine];
    }
  }

  /**
   The batch loop of problemReadThread on one file of whole lines: whatever the batch size,
   it hands over every line of the file once and in order.
   */
  method ReadFile(content: string, batch: nat) returns (problems: seq<string>)
    requires batch >= 1 && |content| > 0 && |content| % STEP == 0
    requires forall i :: 0 <= i < |content| ==> content[i] != '\0'
    ensures problems == Lines(content, |content| / STEP)
  {
    var lineBuf := new char[batch * STEP];
    var pos, lastSize := 0, |content| - 1;
    problems := [];
    ghost var taken: nat := 0;
    while pos + STEP * batch - 1 <= lastSize
      invariant pos == STEP * taken && pos <= |content|
      invariant problems == Lines(content, taken)
      decreases |content| - pos
    {
      assert STEP * (taken + batch) == pos + STEP * batch;
      ReadAt(content, pos, STEP * batch - 1, lineBuf);
      problems := TakeLines(content, lineBuf, taken, batch, problems);
      pos, taken := pos + STEP * batch, taken + batch;
    }
    var len := 0;
    if pos <= lastSize {
      len := (lastSize - pos + 1) / STEP * STEP;
    }
    if len != 0 {
      ReadAt(content, pos, lastSize - pos + 1, lineBuf);
      var readSize := (lastSize - pos + 1 + 1) / STEP;
      assert STEP * readSize == |content| - pos && STEP * (taken + readSize) == |content|;
      PrefixOfRead(lineBuf[..], content, pos, lastSize - pos + 1);
      problems := TakeLines(content, lineBuf, taken, readSize, problems);
    }
  }

  // ---------- printing the answers ----------

  /** The printer's buffer of BATCH_NUMBER lines, and what has gone to standard output. */
  class Printer {
    const batch: nat
    const resultBuf: array<char>
    var pos: nat
    var out: string

    ghost predicate Valid()
      reads this, resultBuf
    {
      && batch >= 1 && resultBuf.Length == batch * STEP
      && pos % STEP == 0 && pos < resultBuf.Length
      && (pos > 0 ==> resultBuf[pos - 1] == '\n')
      && forall i :: 0 <= i < pos ==> resultBuf[i] != '\0'
    }

    /** Everything printed or still in the buffer. */
    ghost function Shown(): string
      requires Valid()
      reads this, resultBuf
    {
      out + resultBuf[..pos]
    }

    constructor (b: nat)
      requires b >= 1
      ensures Valid() && fresh(resultBuf) && batch == b && Shown() == "" && pos == 0
    {
      batch := b;
      resultBuf := new char[b * STEP];
      pos, out := 0, "";
    }

    /** One answer goes into the buffer; a full buffer goes out. */
    method Emit(result: string)
      requires Valid() && IsLine(result)
      modifies this, resultBuf
      ensures Valid() && Shown() == old(Shown()) + result + "\n"
    {
      ghost var before := resultBuf[..pos];
      RoomForLine(pos, batch);
      CopyIn(result);
      resultBuf[pos + LINE] := '\n';
      ghost var line := resultBuf[..pos + STEP];
      LineFollows(before, result, line);
      pos := pos + STEP;
      if pos >= resultBuf.Length {
        assert resultBuf[..] == line;
        Flush(line);
      }
    }

    method CopyIn(result: string)
      requires Valid() && IsLine(result)
      modifies resultBuf
      ensures resultBuf[..pos + LINE] == old(resultBuf[..pos]) + result
    {
      RoomForLine(pos, batch);
      for i := 0 to LINE
        invariant resultBuf[..pos + i] == old(resultBuf[..pos]) + result[..i]
      {
        resultBuf[pos + i] := result[i];
      }
    }

    method Flush(ghost full: string)
      requires batch >= 1 && resultBuf.Length == batch * STEP && pos == resultBuf.Length && resultBuf[..] == full
      requires full[|full| - 1] == '\n' && forall i :: 0 <= i < |full| ==> full[i] != '\0'
      modifies this, resultBuf
      ensures Valid() && pos == 0 && out == old(out) + full
    {
      resultBuf[resultBuf.Length - 1] := '\0';
      CStringStops(resultBuf[..], resultBuf.Length - 1);
      assert resultBuf[..resultBuf.Length - 1] == full[..|full| - 1];
      out := out + CString(resultBuf[..]) + "\n";
      pos := 0;
    }

    /** After the last answer, what is left in the buffer goes out. */
    method Finish()
      requires Valid()
      modifies this, resultBuf
      ensures out == old(Shown())
    {
      if pos != 0 {
        ghost var left := resultBuf[..pos];
        resultBuf[pos - 1] := '\0';
        CStringStops(resultBuf[..], pos - 1);
        assert resultBuf[..pos - 1] == left[..pos - 1];
        out := out + CString(resultBuf[..]) + "\n";
      }
    }
  }

  lemma RoomForLine(pos: nat, batch: nat)
    requires pos % STEP == 0 && pos < batch * STEP
    ensures pos + STEP <= batch * STEP && (pos + STEP) % STEP == 0
  {
  }

  lemma LineFollows(before: string, result: string, line: string)
    requires IsLine(result) && |line| == |before| + STEP
    requires line[..|before| + LINE] == before + result && line[|line| - 1] == '\n'
    requires forall i :: 0 <= i < |before| ==> before[i] != '\0'
    ensures line == before + result + "\n"
    ensures forall i :: 0 <= i < |line| ==> line[i] != '\0'
  {
    assert line == line[..|before| + LINE] + [line[|line| - 1]];
  }
}
