/**
 Streaming line search (syscalls/ece391grep.c, with the string helpers of
 syscalls/ece391support.c): a 1024-byte buffer is refilled, scanned for newlines, searched,
 and its partial last line is shifted to the front in place.
 */
module Grep {
  import opened Bytes
  import opened GrepSpec
  import opened Streams

  /**
   An open file as the read call sees it: every read is full except at end of file, and the
   read numbered failingRead, if any, reports -1.
   */
  class InputFile {
    const content: seq<byte>
    const failingRead: Option<nat>
    var pos: nat
    var calls: nat

    constructor (content: seq<byte>, failingRead: Option<nat>)
      ensures this.content == content && this.failingRead == failingRead && pos == 0 && calls == 0
    {
      this.content, this.failingRead, pos, calls := content, failingRead, 0, 0;
    }

    method Read(buf: array<byte>, off: nat, n: nat) returns (cnt: int)
      requires pos <= |content| && off + n <= buf.Length
      modifies this, buf
      ensures cnt == -1 <==> failingRead == Some(old(calls))
      ensures calls == old(calls) + 1
      ensures cnt == -1 ==> pos == old(pos) && buf[..] == old(buf[..])
      ensures cnt != -1 ==> cnt == Min(n, |content| - old(pos))
      ensures cnt != -1 ==> pos == old(pos) + cnt
      ensures cnt != -1 ==> buf[..] == old(buf[..off]) + content[old(pos)..pos] + old(buf[off + cnt..])
    {
      if failingRead == Some(calls) {
        calls := calls + 1;
        return -1;
      }
      calls := calls + 1;
      cnt := Min(n, |content| - pos);
      var i := 0;
      while i < cnt
        invariant 0 <= i <= cnt
        invariant forall k :: 0 <= k < buf.Length ==>
          buf[k] == if off <= k < off + i then content[pos + k - off] else old(buf[k])
        modifies buf
      {
        buf[off + i] := content[pos + i];
        i := i + 1;
      }
      pos := pos + cnt;
    }
  }

  method FdPuts(out: Output, a: array<byte>, off: nat, ghost end: nat)
    requires CString(a, off, end)
    modifies out
    ensures out.written == old(out.written) + a[off..end]
  {
    var len := StrLen(a, off, end);
    out.Write(a[off..off + len]);
  }

  /** Copies the string at src down to the front of the same array, terminator included. */
  method StrCpyDown(a: array<byte>, src: nat, ghost end: nat)
    requires 0 < src && CString(a, src, end)
    modifies a
    ensures forall k :: 0 <= k <= end - src ==> a[k] == old(a[src + k])
    ensures forall k :: end - src < k < a.Length ==> a[k] == old(a[k])
  {
    ghost var was := a[..];
    assert was[end] == NUL && forall k :: src <= k < end ==> was[k] != NUL;
    hide CString;
    var i := 0;
    a[i] := a[src + i];
    while a[i] != NUL
      invariant 0 <= i <= end - src
      invariant forall k :: 0 <= k <= i ==> a[k] == was[src + k]
      invariant forall k :: i < k < a.Length ==> a[k] == was[k]
      decreases end - src - i
    {
      i := i + 1;
      a[i] := a[src + i];
    }
    assert was[src + i] == NUL;
  }

  /** t and s agree before position i, which is one of the first n, and differ there. */
  ghost predicate FirstDifference(t: seq<byte>, s: seq<byte>, n: nat, i: nat) {
    i < n && i <= |t| && i <= |s| && t[..i] == s[..i] && CharAt(t, i) != CharAt(s, i)
  }

  lemma MismatchDiffers(t: seq<byte>, s: seq<byte>, n: nat, i: nat)
    requires i < n && i <= |t| && i <= |s| && CharAt(t, i) != CharAt(s, i)
    ensures Take(t, n) != Take(s, n)
  {
    assert i < |t| ==> Take(t, n)[i] == t[i];
    assert i < |s| ==> Take(s, n)[i] == s[i];
  }

  lemma OccursIsTake(s: seq<byte>, line: seq<byte>, i: nat)
    requires i <= |line|
    ensures OccursAt(s, line, i) <==> Take(line[i..], |s|) == Take(s, |s|)
  {
    assert Take(s, |s|) == s;
    var t := Take(line[i..], |s|);
    assert forall k :: 0 <= k < |t| ==> t[k] == line[i + k];
    if t == s {
      assert forall k :: 0 <= k < |s| ==> line[i + k] == s[k];
    }
  }

  /**
   Zero exactly when the C strings at a + off and s agree on their first n characters; otherwise the
   difference of the first two that differ.
   */
  method StrNCmp(a: array<byte>, off: nat, s: seq<byte>, n: nat, ghost end: nat) returns (r: int)
    requires CString(a, off, end) && NoNul(s)
    ensures r == 0 <==> Take(a[off..end], n) == Take(s, n)
    ensures r != 0 ==>
      exists i: nat :: FirstDifference(a[off..end], s, n, i) && r == CharAt(a[off..end], i) as int - CharAt(s, i) as int
  {
    if n == 0 {
      return 0;
    }
    ghost var t := a[off..end];
    var i, left := 0, n;
    while a[off + i] == CharAt(s, i)
      invariant 0 <= i <= |s| && i <= |t| && left == n - i > 0
      invariant forall k :: 0 <= k < i ==> t[k] == s[k]
      decreases end - off - i
    {
      left := left - 1;
      if a[off + i] == NUL || left == 0 {
        return 0;
      }
      i := i + 1;
    }
    MismatchDiffers(t, s, n, i);
    r := a[off + i] as int - CharAt(s, i) as int;
    assert FirstDifference(t, s, n, i) && CharAt(t, i) == a[off + i];
  }

  /** Trying the positions of the line one by one decides whether it matches. */
  lemma NoMatch(s: seq<byte>, line: seq<byte>)
    requires forall i :: 0 <= i < |line| ==> s == [] || !OccursAt(s, line, i)
    ensures !Matches(s, line)
  {
  }

  lemma FirstByteDiffers(s: seq<byte>, line: seq<byte>, i: nat)
    requires i < |line| && CharAt(s, 0) != line[i]
    ensures s == [] || !OccursAt(s, line, i)
  {
    assert s != [] ==> line[i + 0] != s[0];
  }

  /** Whether the pattern occurs in data[start..end), decided position by position. */
  method SearchLine(data: array<byte>, start: nat, end: nat, s: seq<byte>) returns (found: bool)
    requires CString(data, start, end) && NoNul(s)
    ensures found <==> Matches(s, data[start..end])
  {
    hide OccursAt, Take;
    ghost var line := data[start..end];
    var check := start;
    while check < end
      invariant start <= check <= end
      invariant forall i :: 0 <= i < check - start ==> s == [] || !OccursAt(s, line, i)
    {
      ghost var i := check - start;
      assert data[check..end] == line[i..];
      OccursIsTake(s, line, i);
      if CharAt(s, 0) == data[check] {
        var c := StrNCmp(data, check, s, |s|, end);
        if c == 0 {
          assert s != [] && OccursAt(s, line, i);
          return true;
        }
      } else {
        FirstByteDiffers(s, line, i);
      }
      check := check + 1;
    }
    NoMatch(s, line);
    return false;
  }

  /** Everything written since before is the rendering of the printed hits. */
  ghost predicate Wrote(out: Output, before: seq<byte>, fname: seq<byte>, printed: seq<seq<byte>>)
    reads out
  {
    out.written == before + Render(fname, printed)
  }

  function Ascii(s: string): (b: seq<byte>)
    requires forall i :: 0 <= i < |s| ==> s[i] < 128 as char
    ensures |b| == |s| && forall i :: 0 <= i < |s| ==> b[i] as int == s[i] as int
  {
    seq(|s|, i requires 0 <= i < |s| => s[i] as int as byte)
  }

  const OPEN_FAILED: seq<byte> := Ascii("file open failed\n")
  const READ_FAILED: seq<byte> := Ascii("file read failed\n")
  const CLOSE_FAILED: seq<byte> := Ascii("file close failed\n")

  lemma {:induction false} RenderConcat(fname: seq<byte>, a: seq<seq<byte>>, b: seq<seq<byte>>)
    ensures Render(fname, a + b) == Render(fname, a) + Render(fname, b)
  {
    hide RenderLine;
    if b == [] {
      assert a + b == a;
    } else {
      var front, last := b[..|b| - 1], b[|b| - 1];
      RenderConcat(fname, a, front);
      ConcatTail(a, b, |b| - 1);
      ConcatAssoc(Render(fname, a), Render(fname, front), RenderLine(fname, last));
    }
  }

  lemma RenderAppend(fname: seq<byte>, before: seq<byte>, printed: seq<seq<byte>>, more: seq<seq<byte>>)
    ensures before + Render(fname, printed) + Render(fname, more) == before + Render(fname, printed + more)
  {
    RenderConcat(fname, printed, more);
    ConcatAssoc(before, Render(fname, printed), Render(fname, more));
  }

  /** Terminates the line data[start..end) in place, searches it and prints it on a match. */
  method SearchAndPrint(s: seq<byte>, fname: seq<byte>, data: array<byte>, start: nat, end: nat, out: Output,
                        ghost text: seq<byte>, ghost before: seq<byte>, ghost printed: seq<seq<byte>>)
    requires start <= end <= |text| && end < data.Length && NoNul(text) && NoNul(s)
    requires forall k :: start <= k < end ==> data[k] == text[k]
    requires Wrote(out, before, fname, printed)
    modifies data, out
    ensures forall k :: 0 <= k < data.Length && k != end ==> data[k] == old(data[k])
    ensures data[end] == NUL
    ensures Wrote(out, before, fname, printed + Hit(s, text[start..end]))
  {
    data[end] := NUL;
    ghost var line := text[start..end];
    assert data[start..end] == line;
    RenderAppend(fname, before, printed, Hit(s, line));
    var found := SearchLine(data, start, end, s);
    if found {
      out.Write(fname);
      out.Write([COLON]);
      FdPuts(out, data, start, end);
      out.Write([NL]);
      assert Render(fname, [line]) == [] + RenderLine(fname, line);
    }
  }

  /** The hits printed are those of the texts done with: what came before, and the buffered bytes in front. */
  ghost predicate Printed(printed: seq<seq<byte>>, printed0: seq<seq<byte>>, s: seq<byte>, front: seq<byte>) {
    printed == printed0 + Hits(s, Pieces(front))
  }

  lemma PrintedStep(printed: seq<seq<byte>>, printed0: seq<seq<byte>>, s: seq<byte>, text: seq<byte>, i: nat, e: nat)
    requires i <= e <= |text| <= BUFSIZE && EndsLine(text[..i])
    requires (forall k :: i <= k < e ==> text[k] != NL) && (e < |text| ==> text[e] == NL)
    requires Printed(printed, printed0, s, text[..i])
    ensures Printed(printed + Hit(s, text[i..e]), printed0, s, text[..After(e, |text|)])
    ensures e < |text| ==> EndsLine(text[..e + 1])
  {
    hide Hit, Hits, Pieces;
    LineStep(s, text, i, e);
    ConcatAssoc(printed0, Hits(s, Pieces(text[..i])), Hit(s, text[i..e]));
  }

  /** One complete line: searched, printed on a match, and accounted for. */
  method ConsumeLine(s: seq<byte>, fname: seq<byte>, data: array<byte>, start: nat, end: nat, out: Output,
                     ghost text: seq<byte>, ghost before: seq<byte>, ghost printed0: seq<seq<byte>>,
                     ghost printed1: seq<seq<byte>>)
    returns (ghost printed: seq<seq<byte>>)
    requires start <= end <= |text| <= BUFSIZE < data.Length && NoNul(text) && NoNul(s)
    requires forall k :: start <= k < |text| ==> data[k] == text[k]
    requires (forall k :: start <= k < end ==> data[k] != NL) && (end < |text| ==> data[end] == NL)
    requires EndsLine(text[..start]) && Printed(printed1, printed0, s, text[..start])
    requires Wrote(out, before, fname, printed1)
    modifies data, out
    ensures forall k :: 0 <= k < data.Length && k != end ==> data[k] == old(data[k])
    ensures data[end] == NUL && (end < |text| ==> EndsLine(text[..end + 1]))
    ensures Printed(printed, printed0, s, text[..After(end, |text|)]) && Wrote(out, before, fname, printed)
  {
    hide Printed, Wrote, Hit, NoNul, EndsLine;
    PrintedStep(printed1, printed0, s, text, start, end);
    SearchAndPrint(s, fname, data, start, end, out, text, before, printed1);
    printed := printed1 + Hit(s, text[start..end]);
  }

  /** Moves the unfinished line data[start..end) to the front of the buffer. */
  method ShiftDown(data: array<byte>, start: nat, end: nat, ghost text: seq<byte>)
    requires 0 < start <= end == |text| < data.Length && NoNul(text)
    requires forall k :: start <= k < end ==> data[k] == text[k]
    modifies data
    ensures data[..end - start] == text[start..] && NoNul(data[..end - start])
    ensures forall k :: end < k < data.Length ==> data[k] == old(data[k])
    ensures data[end] == NUL || data[end] == old(data[end])
  {
    data[end] := NUL;
    StrCpyDown(data, start, end);
    assert forall k :: 0 <= k < end - start ==> data[k] == text[start + k];
  }

  method FindLineEnd(data: array<byte>, lineStart: nat, last: nat) returns (lineEnd: nat)
    requires lineStart <= last <= data.Length
    ensures lineStart <= lineEnd <= last
    ensures forall k :: lineStart <= k < lineEnd ==> data[k] != NL
    ensures lineEnd < last ==> data[lineEnd] == NL
  {
    lineEnd := lineStart;
    while lineEnd < last && data[lineEnd] != NL
      invariant lineStart <= lineEnd <= last
      invariant forall k :: lineStart <= k < lineEnd ==> data[k] != NL
    {
      lineEnd := lineEnd + 1;
    }
  }

  lemma NothingHeld()
    ensures NoNul([])
  {
  }

  lemma NothingPrinted(printed0: seq<seq<byte>>, s: seq<byte>)
    ensures Printed(printed0, printed0, s, []) && EndsLine([])
  {
    NoPieces();
    assert Hits(s, []) == [] && printed0 + [] == printed0;
  }

  /** What is held when the scan stands at the start of the text's last line, or has taken all of it. */
  lemma HeldIs(text: seq<byte>, start: nat)
    requires start <= |text| && EndsLine(text[..start]) && forall k :: start <= k < |text| ==> text[k] != NL
    ensures Held(false, text) == if start == 0 then 0 else |text| - start
  {
    if start > 0 { assert text[..start][start - 1] == NL; }
    LineStartIs(text, |text|, start);
  }

  /**
   One pass over the buffered bytes text == data[..n): every complete line is searched, and an unfinished
   one is moved to the front for the next refill. Of a full buffer exactly Held bytes stay; of the last
   bytes of a file an unfinished line may also be searched at once, when a newline of an earlier round
   happens to lie behind it.
   */
  method ScanBuffer(s: seq<byte>, fname: seq<byte>, data: array<byte>, n: nat, cnt: nat, out: Output,
                    ghost before: seq<byte>, ghost printed0: seq<seq<byte>>)
    returns (last: nat, ghost printed: seq<seq<byte>>)
    requires NoNul(s) && data.Length == BUFSIZE + 1 && n <= BUFSIZE && NoNul(data[..n])
    requires n == BUFSIZE ==> cnt != 0
    requires Wrote(out, before, fname, printed0)
    modifies data, out
    ensures var text, stale := old(data[..n]), old(data[BUFSIZE]) == NL;
            && last < BUFSIZE && last <= n && data[..last] == text[n - last..] && NoNul(data[..last])
            && (if n == BUFSIZE then last == Held(stale, text)
                else last == 0 || (last == Held(false, text) && cnt != 0))
            && (last > 0 ==> EndsLine(text[..n - last]))
            && (data[BUFSIZE] == NL <==> StaysStale(stale, text))
            && Printed(printed, printed0, s, text[..n - last])
    ensures Wrote(out, before, fname, printed)
  {
    hide Printed, Wrote, NoNul, EndsLine, Held;
    NothingHeld();
    NothingPrinted(printed0, s);
    last, printed := n, printed0;
    ghost var text := data[..n];
    var lineStart := 0;
    assert text[..0] == [];
    assert forall k :: 0 <= k < n ==> text[k] == data[k];
    while true
      invariant 0 <= lineStart <= last == n && (lineStart < n || n == 0)
      invariant forall k :: lineStart <= k < last ==> data[k] == text[k]
      invariant data[BUFSIZE] == old(data[BUFSIZE])
      invariant EndsLine(text[..lineStart]) && Printed(printed, printed0, s, text[..lineStart])
      invariant Wrote(out, before, fname, printed)
      decreases last - lineStart
    {
      var lineEnd := FindLineEnd(data, lineStart, last);
      if lineEnd == n { HeldIs(text, lineStart); }
      if data[lineEnd] != NL && cnt != 0 && lineStart != 0 {
        ShiftDown(data, lineStart, lineEnd, text);
        last := last - lineStart;
        return;
      }
      printed := ConsumeLine(s, fname, data, lineStart, lineEnd, out, text, before, printed0, printed);
      lineStart := lineEnd + 1;
      if lineStart >= last {
        if lineEnd < n { HeldIs(text, n); }
        HeldStale(text);
        last := 0;
        assert data[..last] == [] == text[n..] && text[..n - last] == text[..n];
        return;
      }
    }
  }

  lemma HeldStale(text: seq<byte>)
    ensures Held(true, text) == 0
  {
  }

  /** Tops the buffer up behind the data[..last) bytes already held. */
  method Refill(data: array<byte>, last: nat, file: InputFile) returns (cnt: int)
    requires last < BUFSIZE < data.Length && file.pos <= |file.content|
    requires NoNul(data[..last]) && NoNul(file.content)
    modifies data, file
    ensures file.calls == old(file.calls) + 1
    ensures cnt == -1 <==> file.failingRead == Some(old(file.calls))
    ensures cnt == -1 ==> file.pos == old(file.pos)
    ensures cnt != -1 ==> cnt == Min(BUFSIZE - last, |file.content| - old(file.pos)) && file.pos == old(file.pos) + cnt
    ensures cnt != -1 ==> NoNul(data[..last + cnt]) && data[BUFSIZE] == old(data[BUFSIZE])
    ensures cnt != -1 ==> data[..last + cnt] == old(data[..last]) + file.content[old(file.pos)..file.pos]
  {
    cnt := file.Read(data, last, BUFSIZE - last);
  }

  /**
   Between rounds: the printed hits are those of the bytes read without the ones held, and what is still
   to be searched is cut as if the text began there.
   */
  ghost predicate Done(content: seq<byte>, stale0: bool, printed: seq<seq<byte>>, s: seq<byte>,
                       pos: nat, last: nat, stale: bool) {
    && last <= pos <= |content| && last < BUFSIZE
    && var x := content[..pos - last];
       && printed == Hits(s, PiecesFrom(stale0, x))
       && if pos < |content| then Cut(stale0, x, stale)
          else PiecesFrom(stale0, content) == PiecesFrom(stale0, x) + Pieces(content[pos - last..])
  }

  lemma DoneStart(content: seq<byte>, stale0: bool, s: seq<byte>)
    ensures Done(content, stale0, [], s, 0, 0, stale0)
  {
    var x := content[..0];
    assert x == [] && PiecesFrom(stale0, x) == [] && Hits(s, []) == [];
    forall y: seq<byte> ensures PiecesFrom(stale0, x + y) == PiecesFrom(stale0, x) + PiecesFrom(stale0, y) {
      assert x + y == y;
    }
    if content == [] { assert content[0..] == []; }
  }

  /** A round: the first k of the buffered bytes b are done with, the others held. */
  lemma RoundDone(content: seq<byte>, stale0: bool, printed0: seq<seq<byte>>, s: seq<byte>, pos: nat, last: nat,
                  stale: bool, n: nat, b: seq<byte>, k: nat, printed: seq<seq<byte>>)
    requires Done(content, stale0, printed0, s, pos, last, stale)
    requires n == Min(BUFSIZE - last, |content| - pos) && b == content[pos - last..pos + n] && k <= |b|
    requires if |b| == BUFSIZE then k == |b| - Held(stale, b)
             else k == |b| || (EndsLine(b[..k]) && n > 0)
    requires Printed(printed, printed0, s, b[..k]) && |b| - k < BUFSIZE
    ensures Done(content, stale0, printed, s, pos + n, |b| - k, StaysStale(stale, b))
  {
    hide PiecesFrom, Cut, Pieces, Hits, Held, EndsLine, StaysStale;
    var x, z, rest := content[..pos - last], b[..k], b[k..];
    assert content[..pos + n - (|b| - k)] == x + z;
    ShortPieces(stale, z);
    ShortPieces(stale, b);
    NoPieces();
    if pos < |content| {
      CutAt(stale0, x, stale, z);
    } else {
      assert z == b && x + z == content && PiecesFrom(stale0, x + z) == PiecesFrom(stale0, x) + Pieces(z);
    }
    HitsConcat(s, PiecesFrom(stale0, x), Pieces(z));
    if |b| == BUFSIZE {
      PassCuts(stale, b, k);
      CutCut(stale0, x, stale, z, StaysStale(stale, b));
    }
    if pos + n == |content| {
      assert content[pos + n - (|b| - k)..] == rest && content == x + b && b == z + rest;
      RoundEnds(stale0, x, stale, b, k, pos < |content|);
      ConcatAssoc(PiecesFrom(stale0, x), Pieces(z), Pieces(rest));
    }
  }

  lemma RoundEnds(stale0: bool, x: seq<byte>, stale: bool, b: seq<byte>, k: nat, cut: bool)
    requires k <= |b| <= BUFSIZE && |b| - k < BUFSIZE
    requires if cut then Cut(stale0, x, stale)
             else k == |b| && PiecesFrom(stale0, x + b) == PiecesFrom(stale0, x) + Pieces(b)
    requires if |b| == BUFSIZE then k == |b| - Held(stale, b) else k == |b| || EndsLine(b[..k])
    ensures PiecesFrom(stale0, x + b) == PiecesFrom(stale0, x) + (Pieces(b[..k]) + Pieces(b[k..]))
  {
    hide PiecesFrom, Pieces, Cut;
    assert b[..k] + b[k..] == b;
    if cut {
      CutAt(stale0, x, stale, b);
      ShortPieces(stale, b);
    }
    if k == |b| {
      NoPieces();
      assert b[..k] == b && b[k..] == [] && Pieces(b) + [] == Pieces(b);
    } else {
      PiecesConcat(b[..k], b[k..]);
    }
  }

  /** The rounds of the program are those of the specification, as long as the file goes on. */
  ghost predicate Tracks(content: seq<byte>, stale0: bool, calls: nat, pos: nat, last: nat, stale: bool) {
    var st := Rounds(content, stale0, calls);
    && pos == st.pos
    && (if pos < |content| then last == st.held && stale == st.stale else last == st.held || last == 0)
  }

  lemma TracksStep(content: seq<byte>, stale0: bool, calls: nat, pos: nat, last: nat, stale: bool,
                   n: nat, b: seq<byte>, last': nat)
    requires Tracks(content, stale0, calls, pos, last, stale) && last <= pos <= |content| && last < BUFSIZE
    requires n == Min(BUFSIZE - last, |content| - pos) && b == content[pos - last..pos + n]
    requires if |b| == BUFSIZE then last' == Held(stale, b) else last' == 0 || (last' == Held(false, b) && n != 0)
    ensures Tracks(content, stale0, calls + 1, pos + n, last', StaysStale(stale, b))
  {
    hide Held;
  }

  /** A read fails before the file is read to its end. */
  predicate FailingRead(content: seq<byte>, stale: bool, failing: Option<nat>) {
    failing.Some? && Reaches(content, stale, failing.value)
  }

  /**
   When read k fails, so many bytes read are still held and not searched. At the end of the file an
   unfinished last line may have been searched already.
   */
  predicate StoppedAt(content: seq<byte>, stale: bool, k: nat, held: nat) {
    var st := Rounds(content, stale, k);
    held == st.held || (held == 0 && st.pos == |content|)
  }

  /** The hits of the bytes read by the first k reads, without the ones held. */
  ghost function HitsBefore(s: seq<byte>, content: seq<byte>, stale: bool, k: nat, held: nat): seq<seq<byte>>
    requires StoppedAt(content, stale, k, held)
  {
    Hits(s, PiecesFrom(stale, content[..Rounds(content, stale, k).pos - held]))
  }

  /** The held bytes are the last ones read. */
  ghost predicate Holds(b: seq<byte>, content: seq<byte>, pos: nat) {
    |b| <= pos <= |content| && b == content[pos - |b|..pos]
  }

  lemma HoldsNothing(b: seq<byte>, content: seq<byte>, pos: nat)
    requires b == [] && pos == 0
    ensures Holds(b, content, pos)
  {
    assert content[0..0] == [];
  }

  lemma RoundsStart(content: seq<byte>, stale: bool, s: seq<byte>, out: Output, fname: seq<byte>)
    ensures Done(content, stale, [], s, 0, 0, stale) && Tracks(content, stale, 0, 0, 0, stale)
    ensures Reaches(content, stale, 0) && Wrote(out, out.written, fname, [])
  {
    DoneStart(content, stale, s);
    assert out.written + [] == out.written;
  }

  /** Read i failed, as the specification says, and what was printed is what it says. */
  lemma FailsHere(content: seq<byte>, stale0: bool, printed: seq<seq<byte>>, s: seq<byte>, i: nat, pos: nat, last: nat,
                  stale: bool)
    requires Done(content, stale0, printed, s, pos, last, stale) && Tracks(content, stale0, i, pos, last, stale)
    requires Reaches(content, stale0, i)
    ensures FailingRead(content, stale0, Some(i)) && StoppedAt(content, stale0, i, last)
    ensures printed == HitsBefore(s, content, stale0, i, last)
  {
  }

  /** Read i came back empty, so no later one is made, and everything is printed. */
  lemma EndsHere(content: seq<byte>, stale0: bool, printed: seq<seq<byte>>, s: seq<byte>, i: nat, last0: nat,
                 stale: bool, stale': bool, failing: Option<nat>)
    requires Tracks(content, stale0, i, |content|, last0, stale) && (failing.Some? ==> failing.value > i)
    requires Done(content, stale0, printed, s, |content|, 0, stale')
    ensures !FailingRead(content, stale0, failing) && printed == Hits(s, PiecesFrom(stale0, content))
  {
    hide PiecesFrom, Hits, Rounds, Cut, Pieces;
    if failing.Some? { RoundsStay(content, stale0, i, failing.value - 1); }
    assert content[..|content| - 0] == content;
  }

  lemma GoesOn(content: seq<byte>, stale0: bool, i: nat, pos: nat, last: nat, stale: bool)
    requires Tracks(content, stale0, i, pos, last, stale)
    ensures pos < |content| ==> Reaches(content, stale0, i + 1)
  {
  }

  /** The refill loop, up to the end of the file or the failing read. */
  method ScanFile(s: seq<byte>, fname: seq<byte>, file: InputFile, data: array<byte>, out: Output)
    returns (ok: bool, ghost held: nat)
    requires NoNul(s) && data.Length == BUFSIZE + 1
    requires file.pos == 0 && file.calls == 0 && NoNul(file.content)
    modifies data, out, file
    ensures ok == !FailingRead(file.content, old(data[BUFSIZE]) == NL, file.failingRead)
    ensures ok ==>
      out.written == old(out.written) + Render(fname, Hits(s, PiecesFrom(old(data[BUFSIZE]) == NL, file.content)))
    ensures !ok ==>
      file.failingRead.Some? && StoppedAt(file.content, old(data[BUFSIZE]) == NL, file.failingRead.value, held)
    ensures !ok ==>
      var stale, at := old(data[BUFSIZE]) == NL, file.failingRead.value;
      out.written == old(out.written) + Render(fname, HitsBefore(s, file.content, stale, at, held))
  {
    hide Done, Tracks, Reaches, Wrote, NoNul, FailingRead, StoppedAt, HitsBefore, PiecesFrom, Hits, Render, Holds;
    ghost var before, content, stale0 := out.written, file.content, data[BUFSIZE] == NL;
    ghost var printed: seq<seq<byte>> := [];
    var last := 0;
    NothingHeld();
    RoundsStart(content, stale0, s, out, fname);
    assert data[..last] == [];
    HoldsNothing(data[..last], content, file.pos);
    var cnt := 0;
    ghost var i, last0, stale := 0, 0, stale0;
    while true
      invariant 0 <= last < BUFSIZE && last <= file.pos <= |content| && NoNul(data[..last])
      invariant Holds(data[..last], content, file.pos)
      invariant Done(content, stale0, printed, s, file.pos, last, data[BUFSIZE] == NL)
      invariant Tracks(content, stale0, file.calls, file.pos, last, data[BUFSIZE] == NL)
      invariant Reaches(content, stale0, file.calls)
      invariant file.failingRead.Some? ==> file.failingRead.value >= file.calls
      invariant Wrote(out, before, fname, printed)
      decreases |content| - file.pos
    {
      GoesOn(content, stale0, file.calls, file.pos, last, data[BUFSIZE] == NL);
      i, last0, stale := file.calls, last, data[BUFSIZE] == NL;
      cnt, last, printed := RefillAndScan(s, fname, file, data, out, last, stale0, before, printed);
      if cnt <= 0 {
        break;
      }
    }
    WroteMeans(out, before, fname, printed);
    held := last;
    ok := cnt == 0;
    if ok {
      EndsHere(content, stale0, printed, s, i, last0, stale, data[BUFSIZE] == NL, file.failingRead);
    } else {
      FailsHere(content, stale0, printed, s, i, file.pos, last, stale);
    }
  }

  /** One round of the refill loop: a read, and a pass over the buffer unless the read failed. */
  method RefillAndScan(s: seq<byte>, fname: seq<byte>, file: InputFile, data: array<byte>, out: Output, last0: nat,
                       ghost stale0: bool, ghost before: seq<byte>, ghost printed0: seq<seq<byte>>)
    returns (cnt: int, last: nat, ghost printed: seq<seq<byte>>)
    requires NoNul(s) && data.Length == BUFSIZE + 1 && NoNul(file.content)
    requires last0 < BUFSIZE && last0 <= file.pos <= |file.content| && NoNul(data[..last0])
    requires Holds(data[..last0], file.content, file.pos)
    requires Done(file.content, stale0, printed0, s, file.pos, last0, data[BUFSIZE] == NL)
    requires Tracks(file.content, stale0, file.calls, file.pos, last0, data[BUFSIZE] == NL)
    requires Wrote(out, before, fname, printed0)
    modifies data, out, file
    ensures cnt >= -1 && Wrote(out, before, fname, printed)
    ensures cnt == -1 <==> file.failingRead == Some(old(file.calls))
    ensures cnt == -1 ==> last == last0 && printed == printed0 && file.pos == old(file.pos)
    ensures cnt == -1 ==> Tracks(file.content, stale0, old(file.calls), file.pos, last, old(data[BUFSIZE]) == NL)
    ensures cnt == -1 ==> Done(file.content, stale0, printed, s, file.pos, last, old(data[BUFSIZE]) == NL)
    ensures cnt != -1 ==> file.calls == old(file.calls) + 1 && file.pos == old(file.pos) + cnt <= |file.content|
    ensures cnt != -1 ==> last < BUFSIZE && last <= file.pos && NoNul(data[..last])
    ensures cnt != -1 ==> Holds(data[..last], file.content, file.pos)
    ensures cnt != -1 ==> Done(file.content, stale0, printed, s, file.pos, last, data[BUFSIZE] == NL)
    ensures cnt != -1 ==> Tracks(file.content, stale0, file.calls, file.pos, last, data[BUFSIZE] == NL)
    ensures cnt == 0 <==> cnt != -1 && old(file.pos) == |file.content|
    ensures cnt == 0 ==> last == 0
  {
    hide Done, Tracks, Wrote, NoNul, Printed, Held, EndsLine, StaysStale;
    last, printed := last0, printed0;
    ghost var stale, pos := data[BUFSIZE] == NL, file.pos;
    cnt := Refill(data, last, file);
    if cnt == -1 {
      return;
    }
    last := last + cnt;
    ghost var b := data[..last];
    assert b == file.content[pos - last0..pos + cnt] by { TwoStretches(file.content, pos - last0, pos, pos + cnt); }
    var n := last;
    last, printed := ScanBuffer(s, fname, data, n, cnt, out, before, printed0);
    RoundDone(file.content, stale0, printed0, s, pos, last0, stale, cnt, b, n - last, printed);
    TracksStep(file.content, stale0, file.calls - 1, pos, last0, stale, cnt, b, last);
    assert b[n - last..] == file.content[file.pos - last..file.pos];
  }

  lemma TwoStretches(t: seq<byte>, i: nat, j: nat, k: nat)
    requires i <= j <= k <= |t|
    ensures t[i..j] + t[j..k] == t[i..k]
  {
  }

  /**
   Prints "fname:line" for each hit of pattern s in the file, and reports what failed. data is the stack
   buffer; its last byte is read before it is ever written, so whether that is a newline decides how the
   text is cut. file == null stands for a failing open call.
   */
  method DoOneFile(s: seq<byte>, fname: seq<byte>, file: InputFile?, closeFails: bool,
                   data: array<byte>, out: Output) returns (r: int)
    requires NoNul(s) && data.Length == BUFSIZE + 1
    requires file != null ==> file.pos == 0 && file.calls == 0 && NoNul(file.content)
    modifies data, out, file
    ensures file == null ==> r == -1 && out.written == old(out.written) + OPEN_FAILED
    ensures file != null ==>
      var stale := old(data[BUFSIZE]) == NL;
      if FailingRead(file.content, stale, file.failingRead) then
        var k := file.failingRead.value;
        && r == -1
        && exists held :: StoppedAt(file.content, stale, k, held)
             && out.written
                == old(out.written) + Render(fname, HitsBefore(s, file.content, stale, k, held)) + READ_FAILED
      else
        && r == (if closeFails then -1 else 0)
        && out.written == old(out.written) + Render(fname, Hits(s, PiecesFrom(stale, file.content)))
                          + if closeFails then CLOSE_FAILED else []
  {
    if file == null {
      out.Write(OPEN_FAILED);
      return -1;
    }
    hide FailingRead, HitsBefore, Render, PiecesFrom, StoppedAt;
    var ok;
    ghost var held;
    ok, held := ScanFile(s, fname, file, data, out);
    if !ok {
      out.Write(READ_FAILED);
      return -1;
    }
    if closeFails {
      out.Write(CLOSE_FAILED);
      return -1;
    }
    assert out.written + [] == out.written;
    return 0;
  }

  lemma WroteMeans(out: Output, before: seq<byte>, fname: seq<byte>, printed: seq<seq<byte>>)
    requires Wrote(out, before, fname, printed)
    ensures out.written == before + Render(fname, printed)
  {
  }

  const SMALL: seq<byte> := [97, 10, 98, 10, 99, 97, 10]          // "a\nb\nca\n"
  const SMALL_OUTPUT: seq<byte> := [102, 58, 97, 10, 102, 58, 99, 97, 10]   // "f:a\nf:ca\n"

  /** The search for "a" in file "f" with the three lines a, b and ca. */
  method SearchSmall(out: Output)
    requires out.written == []
    modifies out
    ensures out.written == SMALL_OUTPUT
  {
    var file := new InputFile(SMALL, None);
    var data := new byte[BUFSIZE + 1](_ => NUL);
    SmallHits();
    var r := DoOneFile([97], [102], file, false, data, out);
  }

  const X: seq<byte> := [97]
  const Y: seq<byte> := [98]
  const Z: seq<byte> := [99, 97]

  lemma SmallHits()
    ensures Render([102], Hits([97], PiecesFrom(false, SMALL))) == SMALL_OUTPUT
  {
    hide Hits, Hit, Matches, PiecesFrom, Render;
    SmallPieces();
    SmallMatches();
    assert [X, Y, Z] == [X] + [Y, Z] && [Y, Z] == [Y] + [Z] && [Z] == [Z] + [];
    HitsCons([97], X, [Y, Z]);
    HitsCons([97], Y, [Z]);
    HitsCons([97], Z, []);
    NoHits([97]);
    assert Hits([97], [X, Y, Z]) == [X, Z];
    SmallRendered();
  }

  lemma SmallMatches()
    ensures Hit([97], X) == [X] && Hit([97], Y) == [] && Hit([97], Z) == [Z]
  {
    assert OccursAt([97], X, 0) && OccursAt([97], Z, 1);
    forall i ensures !OccursAt([97], Y, i) {
      assert i == 0 ==> Y[i + 0] != [97][0];
    }
  }

  lemma SmallRendered()
    ensures Render([102], [X, Z]) == SMALL_OUTPUT
  {
    assert [X, Z][..1] == [X] && [X][..0] == [];
    assert Render([102], [X]) == [] + RenderLine([102], X) == [102, 58, 97, 10];
    assert Render([102], [X, Z]) == Render([102], [X]) + RenderLine([102], Z);
  }

  lemma SmallPieces()
    ensures PiecesFrom(false, SMALL) == [X, Y, Z]
  {
    hide LineLen, Pieces;
    var b: seq<byte>, c: seq<byte> := [98, 10, 99, 97, 10], [99, 97, 10];
    LineLenIs(SMALL, 1);
    LineLenIs(b, 1);
    LineLenIs(c, 2);
    NoPieces();
    assert SMALL[..1] == [97] && SMALL[2..] == b && b[..1] == [98] && b[2..] == c && c[..2] == [99, 97] && c[3..] == [];
    PiecesFirst(SMALL);
    PiecesFirst(b);
    PiecesFirst(c);
  }
}
