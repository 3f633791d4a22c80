/**
 Command lines (syscalls/ece391emulate.c): a command is cut into words in place, and a program's
 arguments are joined back into one line.
 */
module Arguments {
  import opened Bytes

  const MAX_COMMAND: nat := 1023
  const MAX_ARGS: nat := 1024
  const DOT: byte := 46
  const SLASH: byte := 47
  const NULL: int := -1

  predicate Separates(c: byte) { c == SP || c == NL }

  // ---------------------------------------------------------------- words

  /** Length of the part before the first space or newline. */
  function WordLen(text: seq<byte>): (n: nat)
    ensures n <= |text| && (n < |text| ==> Separates(text[n]))
    ensures forall i :: 0 <= i < n ==> !Separates(text[i])
  {
    if text == [] || Separates(text[0]) then 0 else 1 + WordLen(text[1..])
  }

  /** What follows the word that text begins with, its separator excluded. */
  function AfterWord(text: seq<byte>): (rest: seq<byte>)
    ensures text != [] ==> |rest| < |text|
  {
    var n := WordLen(text);
    if n < |text| then text[n + 1..] else []
  }

  /** The arguments the tokeniser finds: words until the end, or a newline where a word should begin. */
  function Tokens(text: seq<byte>): seq<seq<byte>>
    decreases |text|
  {
    if text == [] || text[0] == NL then []
    else if text[0] == SP then Tokens(text[1..])
    else [text[..WordLen(text)]] + Tokens(AfterWord(text))
  }

  /** The parts between single spaces, empty ones included. */
  function Fields(text: seq<byte>): seq<seq<byte>> {
    if text == [] then [[]]
    else
      var rest := Fields(text[1..]);
      if text[0] == SP then [[]] + rest else [[text[0]] + rest[0]] + rest[1..]
  }

  function NonEmpty(fields: seq<seq<byte>>): seq<seq<byte>> {
    if fields == [] then []
    else (if fields[0] == [] then [] else [fields[0]]) + NonEmpty(fields[1..])
  }

  /** The maximal words without spaces. */
  function Words(text: seq<byte>): seq<seq<byte>> { NonEmpty(Fields(text)) }

  /** Parts with single spaces between them. */
  function Spaced(parts: seq<seq<byte>>): seq<byte>
    requires parts != []
  {
    if |parts| == 1 then parts[0] else parts[0] + ([SP] + Spaced(parts[1..]))
  }

  /** The fields are the parts between the spaces of a text: no space in any of them, and together the text. */
  lemma {:induction false} FieldsSplit(text: seq<byte>)
    ensures Fields(text) != [] && Spaced(Fields(text)) == text
    ensures forall i :: 0 <= i < |Fields(text)| ==> SP !in Fields(text)[i]
  {
    if text != [] {
      FieldsSplit(text[1..]);
      var c, rest, all := text[0], Fields(text[1..]), Fields(text);
      assert text == [c] + text[1..];
      if c == SP {
        assert all[1..] == rest;
        assert [] + ([SP] + Spaced(rest)) == text;
      } else {
        assert all[1..] == rest[1..] && all[0] == [c] + rest[0];
        FirstLonger(c, rest, all);
      }
    }
  }

  lemma FirstLonger(c: byte, rest: seq<seq<byte>>, all: seq<seq<byte>>)
    requires rest != [] && all == [[c] + rest[0]] + rest[1..]
    ensures Spaced(all) == [c] + Spaced(rest)
  {
    assert all[1..] == rest[1..];
    if |rest| > 1 { ConcatAssoc([c], rest[0], [SP] + Spaced(rest[1..])); }
  }

  /** The words are the fields that are not empty, each as often as it occurs, in their order. */
  lemma {:induction false} WordsAreFields(fields: seq<seq<byte>>, w: seq<byte>)
    ensures multiset(NonEmpty(fields))[w] == if w == [] then 0 else multiset(fields)[w]
  {
    if fields != [] {
      WordsAreFields(fields[1..], w);
      assert fields == [fields[0]] + fields[1..];
    }
  }

  lemma {:induction false} NonEmptyConcat(a: seq<seq<byte>>, b: seq<seq<byte>>)
    ensures NonEmpty(a + b) == NonEmpty(a) + NonEmpty(b)
  {
    if a == [] {
      assert a + b == b;
    } else {
      NonEmptyConcat(a[1..], b);
      ConcatParts(a, b, 1);
      ConcatAssoc(if a[0] == [] then [] else [a[0]], NonEmpty(a[1..]), NonEmpty(b));
    }
  }

  ghost predicate NoNewline(text: seq<byte>) {
    forall i :: 0 <= i < |text| ==> text[i] != NL
  }

  lemma {:induction false} WordLenIs(text: seq<byte>, n: nat)
    requires n <= |text| && (n < |text| ==> Separates(text[n]))
    requires forall i :: 0 <= i < n ==> !Separates(text[i])
    ensures WordLen(text) == n
  {
    if n > 0 { WordLenIs(text[1..], n - 1); }
  }

  /** The first field of a text without newlines is its first word, and the others are the rest's. */
  lemma {:induction false} FieldsOfWord(text: seq<byte>)
    requires NoNewline(text)
    ensures var n := WordLen(text);
            Fields(text) == [text[..n]] + if n < |text| then Fields(text[n + 1..]) else []
  {
    if text != [] && text[0] != SP {
      var t := text[1..];
      FieldsOfWord(t);
      var n := WordLen(t);
      assert WordLen(text) == n + 1;
      hide WordLen;
      assert [text[0]] + t[..n] == text[..n + 1];
      assert n < |t| ==> t[n + 1..] == text[n + 2..];
    }
  }

  lemma NonEmptyCons(w: seq<byte>, fields: seq<seq<byte>>)
    ensures NonEmpty([w] + fields) == (if w == [] then [] else [w]) + NonEmpty(fields)
  {
    assert ([w] + fields)[1..] == fields;
  }

  /** The words of a text are its first one, when it is not empty, and those of the rest. */
  lemma WordsOf(text: seq<byte>)
    requires NoNewline(text)
    ensures var n := WordLen(text);
            Words(text) == (if n == 0 then [] else [text[..n]]) + Words(AfterWord(text))
  {
    FieldsOfWord(text);
    var n := WordLen(text);
    NonEmptyCons(text[..n], if n < |text| then Fields(text[n + 1..]) else []);
    assert Words([]) == [] by { NonEmptyCons([], []); }
  }

  /** Without newlines the tokeniser yields exactly the maximal words. */
  lemma {:induction false} TokensAreWords(text: seq<byte>)
    requires NoNewline(text)
    ensures Tokens(text) == Words(text)
    decreases |text|
  {
    WordsOf(text);
    if text != [] {
      TokensAreWords(AfterWord(text));
    }
  }

  /** A newline at the end changes nothing. */
  lemma {:induction false} TrailingNewline(text: seq<byte>)
    requires NoNewline(text)
    ensures Tokens(text + [NL]) == Tokens(text)
    decreases |text|
  {
    hide WordLen;
    if text != [] {
      var longer := text + [NL];
      assert longer[0] == text[0];
      if text[0] == SP {
        TrailingNewline(text[1..]);
        assert longer[1..] == text[1..] + [NL];
      } else {
        WordBeforeNewline(text);
        if WordLen(text) < |text| { TrailingNewline(AfterWord(text)); }
      }
    }
  }

  lemma WordBeforeNewline(text: seq<byte>)
    requires NoNewline(text)
    ensures var longer, n := text + [NL], WordLen(text);
            && WordLen(longer) == n && longer[..n] == text[..n]
            && AfterWord(longer) == if n < |text| then AfterWord(text) + [NL] else []
  {
    hide WordLen, NoNewline;
    var longer, n := text + [NL], WordLen(text);
    AppendParts(text, n);
    WordLenIs(longer, n);
    if n < |text| { AppendParts(text, n + 1); }
  }

  lemma AppendParts(text: seq<byte>, n: nat)
    requires n <= |text|
    ensures var longer := text + [NL];
            && longer[..n] == text[..n] && longer[n..] == text[n..] + [NL]
            && (n == |text| ==> longer[n + 1..] == [])
            && longer[n] == (if n < |text| then text[n] else NL)
            && forall i :: 0 <= i < n ==> longer[i] == text[i]
  {
  }

  /** What a command means: its first part and the arguments after it. */
  function Program(command: seq<byte>): seq<byte> { command[..WordLen(command)] }
  function Args(command: seq<byte>): seq<seq<byte>> { Tokens(AfterWord(command)) }

  lemma {:induction false} NoEmptyField(fields: seq<seq<byte>>)
    ensures [] !in NonEmpty(fields)
  {
    if fields != [] { NoEmptyField(fields[1..]); }
  }

  /** The line that a command is, with or without a newline at its end, has the command's parts. */
  lemma LineParts(command: seq<byte>, newline: bool)
    requires NoNewline(command)
    ensures var line := command + if newline then [NL] else [];
            Program(line) == Program(command) && Args(line) == Words(AfterWord(command))
  {
    hide WordLen, Tokens, Words;
    TokensAreWords(AfterWord(command));
    if newline {
      WordBeforeNewline(command);
      if WordLen(command) < |command| { TrailingNewline(AfterWord(command)); } else { NoMore([], []); }
    } else {
      assert command + [] == command;
    }
  }

  /**
   Main result for the tokeniser: a command without newlines, except perhaps at its end, is cut into
   exactly its maximal words if and only if it begins with one. Otherwise the first space ends an
   empty program name.
   */
  lemma CommandIsWords(command: seq<byte>, newline: bool)
    requires NoNewline(command)
    ensures var line := command + if newline then [NL] else [];
            [Program(line)] + Args(line) == Words(command) <==> command != [] && command[0] != SP
  {
    LineParts(command, newline);
    WordsOf(command);
    NoEmptyField(Fields(command));
    var line := command + if newline then [NL] else [];
    assert ([Program(line)] + Args(line))[0] == Program(line);
    assert Program(line) in [Program(line)] + Args(line);
  }

  const LS: seq<byte> := [108, 115]

  /** A command with a space in front: the program is the directory, and the command its argument. */
  lemma SpaceInFront()
    ensures Program([SP] + LS) == [] && Args([SP] + LS) == [LS] && Words([SP] + LS) == [LS]
  {
    var text := [SP] + LS;
    assert AfterWord(text) == LS;
    WordLenIs(LS, 2);
    assert AfterWord(LS) == [] && LS[..2] == LS;
    NoMore([], []);
    assert Tokens(LS) == [LS] + Tokens([]);
    WordsOf(text);
    TokensAreWords(LS);
  }

  // ---------------------------------------------------------------- the join

  /** The arguments on one line, one space between them. */
  function Join(args: seq<seq<byte>>): seq<byte> {
    if args == [] then []
    else if |args| == 1 then args[0]
    else args[0] + [SP] + Join(args[1..])
  }

  /** The join is the arguments with single spaces between them, and nothing else. */
  lemma {:induction false} JoinIsSpaced(args: seq<seq<byte>>)
    ensures args == [] ==> Join(args) == []
    ensures args != [] ==> Join(args) == Spaced(args)
  {
    if |args| > 1 {
      JoinIsSpaced(args[1..]);
      ConcatAssoc(args[0], [SP], Join(args[1..]));
    }
  }

  /** Arguments without spaces are the fields of their join. */
  lemma {:induction false} FieldsOfJoin(args: seq<seq<byte>>)
    requires args != [] && forall i :: 0 <= i < |args| ==> SP !in args[i]
    ensures Fields(Join(args)) == args
  {
    if |args| == 1 {
      FieldsOfPart(args[0], []);
      assert args[0] + [] == args[0] && [args[0]] == args;
    } else {
      FieldsOfJoin(args[1..]);
      FieldsOfPart(args[0], [SP] + Join(args[1..]));
      ConcatAssoc(args[0], [SP], Join(args[1..]));
      assert ([SP] + Join(args[1..]))[1..] == Join(args[1..]);
    }
  }

  lemma {:induction false} FieldsOfPart(part: seq<byte>, rest: seq<byte>)
    requires SP !in part && (rest == [] || rest[0] == SP)
    ensures Fields(part + rest) == [part] + if rest == [] then [] else Fields(rest[1..])
  {
    if part == [] {
      assert part + rest == rest;
    } else {
      FieldsOfPart(part[1..], rest);
      ConcatParts(part, rest, 1);
      assert [part[0]] + part[1..] == part;
    }
  }

  ghost predicate Plain(args: seq<seq<byte>>) {
    forall i :: 0 <= i < |args| ==> args[i] != [] && forall k :: 0 <= k < |args[i]| ==> !Separates(args[i][k])
  }

  /** Cutting a join of plain words gives the words back. */
  lemma {:induction false} TokensOfJoin(args: seq<seq<byte>>)
    requires Plain(args)
    ensures Tokens(Join(args)) == args
  {
    if |args| == 1 {
      TokensOfWord(args[0], []);
      assert args[0] + [] == args[0] && args == [args[0]] + [];
    } else if |args| > 1 {
      TokensOfJoin(args[1..]);
      TokensOfWord(args[0], [SP] + Join(args[1..]));
      ConcatAssoc(args[0], [SP], Join(args[1..]));
    }
  }

  /** A text that begins with a plain word, and ends there or goes on with a space. */
  lemma TokensOfWord(w: seq<byte>, rest: seq<byte>)
    requires Plain([w]) && (rest == [] || rest[0] == SP)
    ensures Tokens(w + rest) == [w] + Tokens(if rest == [] then [] else rest[1..])
  {
    hide WordLen;
    assert Plain([w]) ==> w != [] && forall k :: 0 <= k < |w| ==> !Separates(([w])[0][k]);
    ConcatParts(w, rest, |w|);
    ConcatTail(w, rest, 0);
    if rest != [] { ConcatTail(w, rest, 1); }
    WordLenIs(w + rest, |w|);
    assert w[..|w|] == w;
    assert AfterWord(w + rest) == if rest == [] then [] else rest[1..];
  }

  // ---------------------------------------------------------------- the programs

  /** buf holds the C string w at offset at. */
  ghost predicate Holds(buf: array<byte>, at: int, w: seq<byte>)
    reads buf
  {
    && 0 <= at && at + |w| < buf.Length && buf[at + |w|] == NUL
    && forall k :: 0 <= k < |w| ==> buf[at + k] == w[k]
  }

  /** buf still holds the command text from scan on, terminated. */
  ghost predicate Pending(buf: array<byte>, command: seq<byte>, scan: nat)
    reads buf
  {
    && 2 <= scan <= 2 + |command| < buf.Length && buf[2 + |command|] == NUL
    && forall k :: scan <= k < 2 + |command| ==> buf[k] == command[k - 2]
  }

  /** The words found so far are in place before scan, each with its terminator. */
  ghost predicate Found(buf: array<byte>, args: seq<int>, words: seq<seq<byte>>, scan: nat)
    reads buf
  {
    && |args| == |words|
    && forall k :: 0 <= k < |words| ==> Holds(buf, args[k], words[k]) && args[k] + |words[k]| <= scan
  }

  /** "./" and the command, terminated. */
  method CopyCommand(command: seq<byte>, buf: array<byte>)
    requires |command| + 3 <= buf.Length
    modifies buf
    ensures buf[0] == DOT && buf[1] == SLASH && Pending(buf, command, 2)
  {
    buf[0] := DOT;
    buf[1] := SLASH;
    var i := 0;
    while i < |command|
      invariant 0 <= i <= |command| && buf[0] == DOT && buf[1] == SLASH
      invariant forall k :: 2 <= k < 2 + i ==> buf[k] == command[k - 2]
    {
      buf[2 + i] := command[i];
      i := i + 1;
    }
    buf[2 + i] := NUL;
  }

  /** Moves to the end of the word at scan. */
  method ScanWord(buf: array<byte>, ghost command: seq<byte>, scan: nat) returns (end: nat)
    requires Pending(buf, command, scan) && NoNul(command)
    ensures end == scan + WordLen(command[scan - 2..])
    ensures Pending(buf, command, end) && forall k :: scan <= k < end ==> buf[k] == command[k - 2]
    ensures end < 2 + |command| <==> buf[end] != NUL
  {
    ghost var text := command[scan - 2..];
    end := scan;
    while buf[end] != NUL && buf[end] != SP && buf[end] != NL
      invariant scan <= end <= 2 + |command|
      invariant forall k :: 0 <= k < end - scan ==> !Separates(text[k])
      decreases 2 + |command| - end
    {
      assert text[end - scan] == command[end - 2] == buf[end];
      end := end + 1;
    }
    assert end < 2 + |command| ==> text[end - scan] == command[end - 2] == buf[end];
    WordLenIs(text, end - scan);
  }

  /** The program name and the arguments, in the order of the argument vector. */
  function Vector(command: seq<byte>): seq<seq<byte>> {
    [[DOT, SLASH] + Program(command)] + Args(command)
  }

  /**
   The tokeniser inside ece391_execute: buf ends up holding the words, args where each one starts,
   NULL behind the last. -1 for a command that is too long.
   */
  method Tokenise(command: seq<byte>, buf: array<byte>, args: array<int>) returns (r: int)
    requires buf.Length == MAX_COMMAND + 3 && args.Length == MAX_ARGS && NoNul(command)
    modifies buf, args
    ensures r == if |command| > MAX_COMMAND then -1 else |Vector(command)|
    ensures r != -1 ==> r < MAX_ARGS && args[r] == NULL
    ensures r != -1 ==> forall k :: 0 <= k < r ==> Holds(buf, args[k], Vector(command)[k])
    ensures r != -1 ==> r > 0 && Holds(buf, args[0], [46, 47] + Program(command))
  {
    hide Tokens, WordLen;
    if MAX_COMMAND < |command| {
      return -1;
    }
    CopyCommand(command, buf);
    var scan := ScanWord(buf, command, 2);
    args[0] := 0;
    var nArg := 1;
    ghost var words := [[DOT, SLASH] + Program(command)];
    assert command[2 - 2..] == command;
    if buf[scan] != NUL {
      buf[scan] := NUL;
      scan := scan + 1;
      assert Found(buf, args[..nArg], words, scan);
      assert command[scan - 2..] == AfterWord(command);
      nArg := ParseArguments(command, buf, args, scan, words);
    } else {
      NoMore([], words);
    }
    args[nArg] := NULL;
    return nArg;
  }

  lemma NoMore(text: seq<byte>, words: seq<seq<byte>>)
    requires text == [] || text[0] == NL
    ensures words + Tokens(text) == words
  {
  }

  lemma OneMore(text: seq<byte>, words: seq<seq<byte>>)
    requires text != [] && !Separates(text[0])
    ensures 0 < WordLen(text) && words + Tokens(text) == (words + [text[..WordLen(text)]]) + Tokens(AfterWord(text))
    ensures AfterWord(text) == if WordLen(text) < |text| then text[WordLen(text) + 1..] else []
  {
    ConcatAssoc(words, [text[..WordLen(text)]], Tokens(AfterWord(text)));
  }

  /** The loop over the arguments. */
  method ParseArguments(command: seq<byte>, buf: array<byte>, args: array<int>, scan0: nat, ghost first: seq<seq<byte>>)
    returns (nArg: nat)
    requires args.Length == MAX_ARGS && |command| <= MAX_COMMAND && NoNul(command) && |first| == 1
    requires 3 <= scan0 && Pending(buf, command, scan0) && Found(buf, args[..1], first, scan0)
    modifies buf, args
    ensures 0 < nArg < MAX_ARGS == args.Length && nArg == 1 + |Tokens(command[scan0 - 2..])|
    ensures Found(buf, args[..nArg], first + Tokens(command[scan0 - 2..]), 2 + |command|)
  {
    hide Tokens, WordLen, AfterWord;
    var scan := scan0;
    nArg := 1;
    ghost var words, all := first, first + Tokens(command[scan0 - 2..]);
    while true
      invariant Pending(buf, command, scan) && 1 <= nArg == |words|
      invariant 2 * nArg <= scan + if scan == 2 + |command| then 1 else 0
      invariant Found(buf, args[..nArg], words, scan)
      invariant words + Tokens(command[scan - 2..]) == all
      decreases 2 + |command| - scan
    {
      scan := SkipSpaces(buf, command, scan);
      ghost var text := command[scan - 2..];
      if buf[scan] == NUL || buf[scan] == NL {
        buf[scan] := NUL;
        NoMore(text, words);
        return;
      }
      OneMore(text, words);
      scan := TakeWord(command, buf, args, scan, nArg, words);
      nArg := nArg + 1;
      words := words + [text[..WordLen(text)]];
    }
  }

  /** One argument: its start is recorded and its separator becomes its terminator. */
  method TakeWord(command: seq<byte>, buf: array<byte>, args: array<int>, scan: nat, nArg: nat,
                  ghost words: seq<seq<byte>>)
    returns (next: nat)
    requires Pending(buf, command, scan) && NoNul(command) && nArg < args.Length
    requires Found(buf, args[..nArg], words, scan) && nArg == |words|
    requires buf[scan] != NUL && !Separates(buf[scan])
    modifies buf, args
    ensures Pending(buf, command, next) && command[next - 2..] == AfterWord(command[scan - 2..])
    ensures Found(buf, args[..nArg + 1], words + [command[scan - 2..][..WordLen(command[scan - 2..])]], next)
    ensures scan < next && (next == scan + 1 ==> next == 2 + |command|)
  {
    hide AfterWord, WordLen;
    ghost var text := command[scan - 2..];
    assert text[0] == command[scan - 2] == buf[scan];
    AfterWordIs(text);
    args[nArg] := scan;
    next := ScanWord(buf, command, scan);
    if buf[next] != NUL {
      buf[next] := NUL;
      next := next + 1;
    }
    assert args[..nArg + 1] == args[..nArg] + [scan];
    assert Found(buf, args[..nArg], words, next);
    FoundMore(buf, args[..nArg], words, scan, text[..WordLen(text)], next);
  }

  lemma FoundMore(buf: array<byte>, args: seq<int>, words: seq<seq<byte>>, at: int, w: seq<byte>, scan: nat)
    requires Found(buf, args, words, scan) && Holds(buf, at, w) && at + |w| <= scan
    ensures Found(buf, args + [at], words + [w], scan)
  {
    hide Holds;
  }

  lemma AfterWordIs(text: seq<byte>)
    requires text != [] && !Separates(text[0])
    ensures 0 < WordLen(text) && AfterWord(text) == if WordLen(text) < |text| then text[WordLen(text) + 1..] else []
  {
  }

  lemma SkipOne(text: seq<byte>)
    requires text != [] && text[0] == SP
    ensures Tokens(text) == Tokens(text[1..])
  {
  }

  method SkipSpaces(buf: array<byte>, ghost command: seq<byte>, scan0: nat) returns (scan: nat)
    requires Pending(buf, command, scan0) && NoNul(command)
    ensures scan0 <= scan && Pending(buf, command, scan)
    ensures Tokens(command[scan - 2..]) == Tokens(command[scan0 - 2..])
    ensures buf[scan] != SP && (buf[scan] == NUL <==> scan == 2 + |command|)
  {
    hide Tokens;
    scan := scan0;
    while buf[scan] == SP
      invariant scan0 <= scan && Pending(buf, command, scan)
      invariant Tokens(command[scan - 2..]) == Tokens(command[scan0 - 2..])
      decreases 2 + |command| - scan
    {
      ghost var text := command[scan - 2..];
      SkipOne(text);
      assert text[1..] == command[scan + 1 - 2..];
      scan := scan + 1;
    }
  }

  /** The part of the join before argument k, a space behind every argument included. */
  function JoinedBefore(args: seq<seq<byte>>, k: nat): seq<byte>
    requires k <= |args|
  {
    if k == 0 then [] else JoinedBefore(args, k - 1) + args[k - 1] + [SP]
  }

  lemma {:induction false} JoinSplits(args: seq<seq<byte>>, k: nat)
    requires k < |args|
    ensures Join(args) == JoinedBefore(args, k) + Join(args[k..])
  {
    if k == 0 {
      assert args[0..] == args;
    } else {
      JoinSplits(args, k - 1);
      assert args[k - 1..][1..] == args[k..];
      assert Join(args[k - 1..]) == args[k - 1] + [SP] + Join(args[k..]);
      assert JoinedBefore(args, k) + Join(args[k..])
          == JoinedBefore(args, k - 1) + (args[k - 1] + [SP] + Join(args[k..]));
    }
  }

  /** Where argument k goes, and whether it is the last thing there. */
  lemma JoinStep(args: seq<seq<byte>>, k: nat)
    requires k < |args|
    ensures JoinedBefore(args, k + 1) == JoinedBefore(args, k) + args[k] + [SP]
    ensures if k + 1 == |args| then Join(args) == JoinedBefore(args, k) + args[k]
            else |Join(args)| > |JoinedBefore(args, k)| + |args[k]|
  {
    JoinSplits(args, k);
    assert args[k..][1..] == args[k + 1..];
  }

  lemma JoinNothing(args: seq<seq<byte>>)
    ensures JoinedBefore(args, 0) == [] && (args == [] ==> Join(args) == [])
    ensures forall nbytes: int :: NoneFills(args, 0, nbytes)
  {
  }

  /** Some prefix of the join that ends behind an argument fills the limit exactly. */
  ghost predicate Overruns(args: seq<seq<byte>>, nbytes: int) {
    nbytes >= 0 && exists k :: 0 < k <= |args| && |JoinedBefore(args, k)| - 1 == nbytes
  }

  /** None of the first k arguments ends where the limit is. */
  ghost predicate NoneFills(args: seq<seq<byte>>, k: nat, nbytes: int)
    requires k <= |args|
  {
    forall j :: 0 < j <= k ==> |JoinedBefore(args, j)| - 1 != nbytes
  }

  lemma {:induction false} JoinedGrows(args: seq<seq<byte>>, j: nat, k: nat)
    requires j <= k <= |args|
    ensures |JoinedBefore(args, j)| + (k - j) <= |JoinedBefore(args, k)|
  {
    if j < k { JoinedGrows(args, j, k - 1); }
  }

  /** Argument k of the arguments, put where the join so far ends, fills the limit, or stays below it. */
  lemma OverrunAt(args: seq<seq<byte>>, k: nat, nbytes: int)
    requires k < |args| && NoneFills(args, k, nbytes)
    ensures |JoinedBefore(args, k + 1)| == |JoinedBefore(args, k)| + |args[k]| + 1
    ensures nbytes >= 0 && |JoinedBefore(args, k)| + |args[k]| == nbytes ==> Overruns(args, nbytes)
    ensures |JoinedBefore(args, k)| + |args[k]| != nbytes ==> NoneFills(args, k + 1, nbytes)
  {
  }

  /** When argument k does not fit, or is the last one and stays below the limit, only earlier ones can fill it. */
  lemma OverrunsBefore(args: seq<seq<byte>>, k: nat, nbytes: int)
    requires k <= |args| && (k == |args| || |JoinedBefore(args, k + 1)| - 1 > nbytes)
    requires NoneFills(args, k, nbytes)
    ensures !Overruns(args, nbytes)
  {
    hide JoinedBefore;
    forall j | 0 < j <= |args| ensures |JoinedBefore(args, j)| - 1 != nbytes {
      if j > k { JoinedGrows(args, k + 1, j); }
    }
  }

  /** The loop of ece391_getargs: the arguments that fit are joined, left bytes of the limit remain. */
  method JoinArguments(argv: seq<seq<byte>>, buf: array<byte>, nbytes: int) returns (at: nat, left: int, fits: bool)
    requires argv != [] && nbytes <= buf.Length && (Overruns(argv[1..], nbytes) ==> nbytes < buf.Length)
    modifies buf
    ensures fits ==> at <= buf.Length && buf[..at] == Join(argv[1..]) && at + left == nbytes
    ensures !fits ==> |Join(argv[1..])| > nbytes
    ensures forall k :: 0 <= k < buf.Length && k > nbytes ==> buf[k] == old(buf[k])
    ensures 0 <= nbytes < buf.Length ==> buf[nbytes] == if Overruns(argv[1..], nbytes) then NUL else old(buf[nbytes])
  {
    ghost var args := argv[1..];
    JoinNothing(args);
    hide Join, JoinedBefore, Overruns, NoneFills;
    at, left := 0, nbytes;
    var idx := 1;
    while idx < |argv|
      invariant 1 <= idx <= |argv| && (idx == |argv| ==> args == [])
      invariant at + left == nbytes && at <= buf.Length && (at > 0 ==> left >= 0)
      invariant buf[..at] == JoinedBefore(args, idx - 1)
      invariant NoneFills(args, idx - 1, nbytes)
      invariant forall k :: 0 <= k < buf.Length && k >= nbytes ==> buf[k] == old(buf[k])
      decreases |argv| - idx
    {
      JoinStep(args, idx - 1);
      OverrunAt(args, idx - 1, nbytes);
      var len := |argv[idx]|;
      if len > left {
        OverrunsBefore(args, idx - 1, nbytes);
        return at, left, false;
      }
      AppendArgument(buf, at, argv[idx], JoinedBefore(args, idx - 1));
      at := at + len;
      left := left - len;
      idx := idx + 1;
      if idx >= |argv| {
        if left != 0 { OverrunsBefore(args, |args|, nbytes); }
        return at, left, true;
      }
      if left < 1 {
        return at, left, false;
      }
      AppendByte(buf, at, SP, JoinedBefore(args, idx - 2) + args[idx - 2]);
      at := at + 1;
      left := left - 1;
    }
    OverrunsBefore(args, |args|, nbytes);
    return at, left, true;
  }

  /**
   ece391_getargs on the argument vector argv, whose first element is the program. It succeeds
   exactly when the join and its terminator fit into nbytes. Byte nbytes, one behind the limit, is
   written exactly when a prefix of the join fills the limit; only then has it to be there.
   */
  method GetArgs(argv: seq<seq<byte>>, buf: array<byte>, nbytes: int) returns (r: int)
    requires argv != [] && nbytes <= buf.Length && (Overruns(argv[1..], nbytes) ==> nbytes < buf.Length)
    modifies buf
    ensures r == if |Join(argv[1..])| < nbytes then 0 else -1
    ensures r == 0 ==> buf[..|Join(argv[1..])| + 1] == Join(argv[1..]) + [NUL]
    ensures forall k :: 0 <= k < buf.Length && k > nbytes ==> buf[k] == old(buf[k])
    ensures 0 <= nbytes < buf.Length ==> buf[nbytes] == if Overruns(argv[1..], nbytes) then NUL else old(buf[nbytes])
  {
    hide Join, Overruns;
    var at, left, fits := JoinArguments(argv, buf, nbytes);
    if !fits || left < 1 {
      return -1;
    }
    AppendByte(buf, at, NUL, Join(argv[1..]));
    return 0;
  }

  /** ece391_strcpy of an argument behind what was joined so far. */
  method AppendArgument(buf: array<byte>, at: nat, w: seq<byte>, ghost joined: seq<byte>)
    requires at + |w| < buf.Length && buf[..at] == joined
    modifies buf
    ensures buf[..at + |w|] == joined + w && buf[at + |w|] == NUL
    ensures forall k :: at + |w| < k < buf.Length ==> buf[k] == old(buf[k])
  {
    StrCpy(buf, at, w);
  }

  method AppendByte(buf: array<byte>, at: nat, c: byte, ghost joined: seq<byte>)
    requires at < buf.Length && buf[..at] == joined
    modifies buf
    ensures buf[..at + 1] == joined + [c] && buf[at] == c
    ensures forall k :: at < k < buf.Length ==> buf[k] == old(buf[k])
  {
    buf[at] := c;
  }

  const AB: seq<byte> := [97, 98]
  const C: seq<byte> := [99]

  /** With room for two bytes and the arguments "ab" and "c", the call fails and writes a third byte. */
  method OverrunByOne(buf: array<byte>)
    requires buf.Length == 3 && buf[2] != NUL
    modifies buf
    ensures buf[2] == NUL
  {
    var args := [AB, C];
    assert JoinedBefore(args, 0) == [] && JoinedBefore(args, 1) == AB + [SP];
    assert Overruns(args, 2);
    assert [LS, AB, C][1..] == args;
    var r := GetArgs([LS, AB, C], buf, 2);
  }

  /** A program's arguments reach it unchanged: joined by one program and cut again, they are the same. */
  lemma ArgumentsSurvive(program: seq<byte>, args: seq<seq<byte>>)
    requires Plain([program] + args)
    ensures Program(Join([program] + args)) == program && Args(Join([program] + args)) == args
  {
    var all := [program] + args;
    TokensOfJoin(all);
    var text := Join(all);
    assert all[1..] == args && all[0] == program;
    assert text[0] == program[0];
    assert Tokens(text) == [Program(text)] + Args(text);
    assert ([Program(text)] + Args(text))[0] == Program(text) && ([Program(text)] + Args(text))[1..] == Args(text);
  }
}
