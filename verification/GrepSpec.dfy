/**
 What the line search of syscalls/ece391grep.c prints: the lines of a text and those that contain a
 pattern, the pieces its 1024-byte buffer cuts a text into, and when the two agree.
 */
module GrepSpec {
  import opened Bytes

  const BUFSIZE: nat := 1024

  // ---------------------------------------------------------------- specification

  /** The lines of a text; a last line without a newline counts when it is not empty. */
  function Lines(text: seq<byte>): seq<seq<byte>>
    decreases |text|
  {
    var n := LineLen(text);
    if n < |text| then [text[..n]] + Lines(text[n + 1..])
    else if n == 0 then []
    else [text]
  }

  /** What the scanner treats as a line: a line is cut after every BUFSIZE bytes. */
  function Pieces(text: seq<byte>): seq<seq<byte>>
    decreases |text|
  {
    var n := LineLen(text);
    if n >= BUFSIZE then [text[..BUFSIZE]] + Pieces(text[BUFSIZE..])
    else if n < |text| then [text[..n]] + Pieces(text[n + 1..])
    else if n == 0 then []
    else [text]
  }

  /**
   The pieces while a newline is left over in the byte behind the buffer: the end of a full buffer
   then counts as the end of a line. The first such cut overwrites the newline.
   */
  function StalePieces(text: seq<byte>): seq<seq<byte>>
    decreases |text|, 0
  {
    if |text| < BUFSIZE then Pieces(text)
    else Pieces(text[..BUFSIZE]) + PiecesFrom(text[BUFSIZE - 1] == NL, text[BUFSIZE..])
  }

  /** The pieces of a text, given whether the byte behind the buffer is a newline. */
  function PiecesFrom(stale: bool, text: seq<byte>): seq<seq<byte>>
    decreases |text|, 1
  {
    if stale then StalePieces(text) else Pieces(text)
  }

  ghost predicate OccursAt(s: seq<byte>, line: seq<byte>, i: int) {
    0 <= i <= |line| - |s| && forall k :: 0 <= k < |s| ==> line[i + k] == s[k]
  }

  /** The pattern is non-empty and occurs in the line. */
  ghost predicate Matches(s: seq<byte>, line: seq<byte>) {
    s != [] && exists i :: OccursAt(s, line, i)
  }

  ghost function Hits(s: seq<byte>, lines: seq<seq<byte>>): seq<seq<byte>> {
    if lines == [] then []
    else Hit(s, lines[0]) + Hits(s, lines[1..])
  }

  ghost function Hit(s: seq<byte>, line: seq<byte>): seq<seq<byte>> {
    if Matches(s, line) then [line] else []
  }

  function RenderLine(fname: seq<byte>, line: seq<byte>): seq<byte> {
    fname + [COLON] + line + [NL]
  }

  /** The bytes printed for a list of hits: one "fname:line\n" each. */
  function Render(fname: seq<byte>, hits: seq<seq<byte>>): seq<byte> {
    if hits == [] then [] else Render(fname, hits[..|hits| - 1]) + RenderLine(fname, hits[|hits| - 1])
  }

  const COLON: byte := 58

  // ---------------------------------------------------------------- facts about the specification

  lemma {:induction false} HitsConcat(s: seq<byte>, a: seq<seq<byte>>, b: seq<seq<byte>>)
    ensures Hits(s, a + b) == Hits(s, a) + Hits(s, b)
  {
    hide Hit;
    if a == [] {
      assert a + b == b;
    } else {
      HitsConcat(s, a[1..], b);
      assert (a + b)[0] == a[0] && (a + b)[1..] == a[1..] + b;
      var h := Hit(s, a[0]);
      assert (h + Hits(s, a[1..])) + Hits(s, b) == h + (Hits(s, a[1..]) + Hits(s, b));
    }
  }

  lemma HitsCons(s: seq<byte>, line: seq<byte>, rest: seq<seq<byte>>)
    ensures Hits(s, [line] + rest) == Hit(s, line) + Hits(s, rest)
  {
    assert ([line] + rest)[1..] == rest;
  }

  lemma HitIs(s: seq<byte>, line: seq<byte>)
    ensures Hit(s, line) == if Matches(s, line) then [line] else []
  {
  }

  /** Every piece fits the buffer. */
  lemma {:induction false} PiecesFit(s: seq<byte>, text: seq<byte>)
    ensures forall h <- Hits(s, Pieces(text)) :: |h| <= BUFSIZE
    decreases |text|
  {
    hide Matches, Pieces, Hits, Hit, LineLen;
    NoPieces();
    NoHits(s);
    if text != [] {
      var n := LineLen(text);
      var first, rest := text[..Min(n, BUFSIZE)], if n >= BUFSIZE then text[BUFSIZE..] else AfterLine(text);
      PiecesFirst(text);
      PiecesFit(s, rest);
      HitsCons(s, first, Pieces(rest));
      HitIs(s, first);
    }
  }

  lemma NoHits(s: seq<byte>)
    ensures Hits(s, []) == []
  {
  }

  lemma {:induction false} HitsAreMatchingLines(s: seq<byte>, lines: seq<seq<byte>>)
    ensures forall l :: l in Hits(s, lines) <==> l in lines && Matches(s, l)
  {
    if lines != [] {
      HitsAreMatchingLines(s, lines[1..]);
      assert lines == [lines[0]] + lines[1..];
    }
  }

  /** Each matching line is a hit as often as it occurs; with HitsConcat, in the order of the lines. */
  lemma {:induction false} HitsCount(s: seq<byte>, lines: seq<seq<byte>>, l: seq<byte>)
    ensures multiset(Hits(s, lines))[l] == if Matches(s, l) then multiset(lines)[l] else 0
  {
    hide Matches;
    if lines != [] {
      HitsCount(s, lines[1..], l);
      assert lines == [lines[0]] + lines[1..];
    }
  }

  /** A run of bytes without a newline, when it does not match, is cut into pieces that do not match. */
  lemma {:induction false} CutOfNonMatch(s: seq<byte>, text: seq<byte>)
    requires !Matches(s, text[..LineLen(text)])
    ensures Hits(s, Pieces(text)) == Hits(s, Pieces(AfterLine(text)))
    decreases |text|
  {
    hide Matches, LineLen;
    var n := LineLen(text);
    if n >= BUFSIZE {
      var rest := text[BUFSIZE..];
      LineLenIs(rest, n - BUFSIZE);
      PrefixParts(text, n, BUFSIZE);
      if Matches(s, text[..n][..BUFSIZE]) { SubMatch(s, text[..n], 0, BUFSIZE); }
      if Matches(s, text[..n][BUFSIZE..n]) { SubMatch(s, text[..n], BUFSIZE, n); }
      CutOfNonMatch(s, rest);
      if n < |text| { PrefixParts(text, n + 1, BUFSIZE); }
    } else if n < |text| {
      HitsConcat(s, [text[..n]], Pieces(text[n + 1..]));
    } else if n > 0 {
      assert text[..n] == text;
    }
  }

  lemma SubMatch(s: seq<byte>, line: seq<byte>, lo: nat, hi: nat)
    requires lo <= hi <= |line| && Matches(s, line[lo..hi])
    ensures Matches(s, line)
  {
    var i :| OccursAt(s, line[lo..hi], i);
    assert OccursAt(s, line, lo + i);
  }

  /** No line longer than the buffer contains the pattern. */
  ghost predicate NoLongMatch(s: seq<byte>, lines: seq<seq<byte>>) {
    forall l :: l in lines && |l| > BUFSIZE ==> !Matches(s, l)
  }

  lemma {:induction false} ShortMatchesSuffice(s: seq<byte>, text: seq<byte>)
    requires NoLongMatch(s, Lines(text))
    ensures Hits(s, Pieces(text)) == Hits(s, Lines(text))
    decreases |text|
  {
    if text != [] {
      LinesStep(s, text);
      ShortMatchesSuffice(s, AfterLine(text));
      if Matches(s, text[..LineLen(text)]) {
        PiecesOfShortLine(s, text);
      } else {
        CutOfNonMatch(s, text);
      }
    }
  }

  /** What follows the first line. */
  function AfterLine(text: seq<byte>): (rest: seq<byte>)
    ensures text != [] ==> |rest| < |text|
  {
    var n := LineLen(text);
    if n < |text| then text[n + 1..] else []
  }

  /** A text that is not empty has a first line. */
  lemma LinesFirst(text: seq<byte>)
    requires text != []
    ensures Lines(text) == [text[..LineLen(text)]] + Lines(AfterLine(text))
  {
    assert text[..|text|] == text;
  }

  lemma LinesStep(s: seq<byte>, text: seq<byte>)
    requires text != []
    ensures var first := text[..LineLen(text)];
            && Hits(s, Lines(text)) == Hit(s, first) + Hits(s, Lines(AfterLine(text)))
            && (NoLongMatch(s, Lines(text)) ==> NoLongMatch(s, Lines(AfterLine(text))))
            && (NoLongMatch(s, Lines(text)) && Matches(s, first) ==> |first| <= BUFSIZE)
  {
    var first, rest := text[..LineLen(text)], AfterLine(text);
    LinesFirst(text);
    assert first in Lines(text) && forall l :: l in Lines(rest) ==> l in Lines(text);
    assert ([first] + Lines(rest))[1..] == Lines(rest);
  }

  lemma EmptyLine(s: seq<byte>)
    ensures !Matches(s, [])
  {
  }

  lemma PiecesOfShortLine(s: seq<byte>, text: seq<byte>)
    requires text != [] && LineLen(text) <= BUFSIZE && Matches(s, text[..LineLen(text)])
    ensures Hits(s, Pieces(text)) == [text[..LineLen(text)]] + Hits(s, Pieces(AfterLine(text)))
  {
    hide Matches, Pieces, Hits, Hit, LineLen, AfterLine;
    var n := LineLen(text);
    PiecesFirst(text);
    HitIs(s, text[..n]);
    if n == BUFSIZE {
      HitsCons(s, text[..n], Pieces(text[n..]));
      NewlineAlone(s, text);
    } else {
      HitsCons(s, text[..n], Pieces(AfterLine(text)));
    }
  }

  /** The newline behind a line, taken for a line of its own, is no hit. */
  lemma NewlineAlone(s: seq<byte>, text: seq<byte>)
    ensures Hits(s, Pieces(text[LineLen(text)..])) == Hits(s, Pieces(AfterLine(text)))
  {
    hide Matches, Pieces, Hits, Hit, LineLen;
    var n, rest := LineLen(text), AfterLine(text);
    if n < |text| {
      var tail := text[n..];
      LineLenIs(tail, 0);
      PiecesFirst(tail);
      EmptyLine(s);
      HitIs(s, []);
      HitsCons(s, [], Pieces(rest));
      assert tail[..0] == [] && tail[1..] == rest;
    } else {
      assert text[n..] == rest;
    }
  }

  /** Without a left-over newline, the hits are the matching lines exactly when none of them is too long. */
  lemma ShortExactly(s: seq<byte>, text: seq<byte>)
    ensures Hits(s, Pieces(text)) == Hits(s, Lines(text)) <==> NoLongMatch(s, Lines(text))
  {
    PiecesFit(s, text);
    HitsAreMatchingLines(s, Lines(text));
    if NoLongMatch(s, Lines(text)) {
      ShortMatchesSuffice(s, text);
    }
  }

  lemma {:induction false} LinesShort(text: seq<byte>)
    ensures forall l <- Lines(text) :: |l| <= |text|
    decreases |text|
  {
    if LineLen(text) < |text| { LinesShort(text[LineLen(text) + 1..]); }
  }

  ghost predicate EndsLine(text: seq<byte>) {
    text == [] || text[|text| - 1] == NL
  }

  /** A text that ends a line has a newline in its first one, and what follows that ends a line too. */
  lemma EndsLineParts(a: seq<byte>, b: seq<byte>)
    requires EndsLine(a) && a != []
    ensures var n := LineLen(a);
            && n < |a| && EndsLine(a[n + 1..]) && LineLen(a + b) == n
            && (a + b)[..n] == a[..n] && (a + b)[n + 1..] == a[n + 1..] + b
  {
    hide LineLen;
    var n := LineLen(a);
    assert a[|a| - 1] == NL;
    ConcatParts(a, b, n);
    ConcatParts(a, b, n + 1);
    LineLenIs(a + b, n);
  }

  /** Lines of a text split behind a newline. */
  lemma {:induction false} LinesConcat(a: seq<byte>, b: seq<byte>)
    requires EndsLine(a)
    ensures Lines(a + b) == Lines(a) + Lines(b)
    decreases |a|
  {
    hide LineLen, EndsLine, Lines;
    NoLines();
    if a == [] {
      assert a + b == b;
    } else {
      var n := LineLen(a);
      EndsLineParts(a, b);
      LinesFirst(a);
      LinesFirst(a + b);
      LinesConcat(a[n + 1..], b);
      ConcatAssoc([a[..n]], Lines(a[n + 1..]), Lines(b));
    }
  }

  /** Where the line that reaches up to position k begins. */
  function LineStart(text: seq<byte>, k: nat): (h: nat)
    requires k <= |text|
    ensures h <= k && (h > 0 ==> text[h - 1] == NL)
    ensures forall i :: h <= i < k ==> text[i] != NL
  {
    if k == 0 || text[k - 1] == NL then k else LineStart(text, k - 1)
  }

  /** The line around the end of the first buffer. */
  function LineAcross(text: seq<byte>): seq<byte>
    requires |text| >= BUFSIZE
  {
    text[LineStart(text, BUFSIZE)..BUFSIZE + LineLen(text[BUFSIZE..])]
  }

  /** The cut at a left-over newline falls inside a matching line. */
  ghost predicate CutsMatch(s: seq<byte>, text: seq<byte>)
    decreases |text|
  {
    |text| >= BUFSIZE &&
    if text[BUFSIZE - 1] == NL then CutsMatch(s, text[BUFSIZE..])
    else LineLen(text[BUFSIZE..]) > 0 && Matches(s, LineAcross(text))
  }

  /** A text that fits the buffer has no long lines, so its pieces' hits are its matching lines. */
  lemma FullBuffer(s: seq<byte>, p: seq<byte>)
    requires |p| <= BUFSIZE
    ensures Hits(s, Pieces(p)) == Hits(s, Lines(p)) && NoLongMatch(s, Lines(p))
  {
    LinesShort(p);
    ShortExactly(s, p);
  }

  /** The bytes around the end of the first buffer when it falls inside a line. */
  lemma AcrossBytes(text: seq<byte>)
    requires |text| >= BUFSIZE && text[BUFSIZE - 1] != NL
    ensures var h, rest := LineStart(text, BUFSIZE), text[BUFSIZE..];
            var front, l := text[..h], text[h..BUFSIZE];
            && h < BUFSIZE && EndsLine(front) && l != [] && (forall i :: 0 <= i < |l| ==> l[i] != NL)
            && text == front + (l + rest) && text[..BUFSIZE] == front + l
            && LineAcross(text) == l + rest[..LineLen(rest)]
  {
    hide LineLen, LineStart;
    var h := LineStart(text, BUFSIZE);
    ThreeParts(text, h, BUFSIZE);
    TwoParts(text, h, BUFSIZE, LineLen(text[BUFSIZE..]));
    NoNewlineBetween(text, h, BUFSIZE);
  }

  lemma NoNewlineBetween(text: seq<byte>, h: nat, k: nat)
    requires h <= k <= |text| && (forall i :: h <= i < k ==> text[i] != NL) && (h > 0 ==> text[h - 1] == NL)
    ensures EndsLine(text[..h]) && forall i :: 0 <= i < k - h ==> text[h..k][i] != NL
  {
  }

  /** What the lines of a text are when its first buffer ends inside a line. */
  lemma AcrossParts(s: seq<byte>, text: seq<byte>)
    requires |text| >= BUFSIZE && text[BUFSIZE - 1] != NL
    ensures var h, rest := LineStart(text, BUFSIZE), text[BUFSIZE..];
            var before, after, first, l := Lines(text[..h]), AfterLine(rest), LineAcross(text), text[h..BUFSIZE];
            && h < BUFSIZE && NoLongMatch(s, before) && |l| <= BUFSIZE
            && first == l + rest[..LineLen(rest)]
            && Lines(text) == before + [first] + Lines(after)
            && Hits(s, Pieces(text[..BUFSIZE])) == Hits(s, before) + Hit(s, l)
  {
    hide LineLen, LineStart, Lines, Pieces, Hits, Hit, NoLongMatch, LineAcross, EndsLine, AfterLine;
    var h, rest := LineStart(text, BUFSIZE), text[BUFSIZE..];
    var front, l := text[..h], text[h..BUFSIZE];
    AcrossBytes(text);
    FullBuffer(s, text[..BUFSIZE]);
    FullBuffer(s, front);
    LinesConcat(front, l + rest);
    LinesConcat(front, l);
    AcrossFirst(l, rest);
    OneLine(l);
    HitsConcat(s, Lines(front), [l]);
    OneHit(s, l);
    ConcatAssoc(Lines(front), [l + rest[..LineLen(rest)]], Lines(AfterLine(rest)));
  }

  lemma OneLine(l: seq<byte>)
    requires l != [] && forall i :: 0 <= i < |l| ==> l[i] != NL
    ensures Lines(l) == [l]
  {
    LineLenIs(l, |l|);
  }

  lemma OneHit(s: seq<byte>, line: seq<byte>)
    ensures Hits(s, [line]) == Hit(s, line)
  {
    assert Hits(s, []) == [] && Hit(s, line) + [] == Hit(s, line);
  }

  lemma LongerLine(l: seq<byte>, rest: seq<byte>)
    requires forall i :: 0 <= i < |l| ==> l[i] != NL
    ensures LineLen(l + rest) == |l| + LineLen(rest)
  {
    hide LineLen;
    LineLenIs(l + rest, |l| + LineLen(rest));
  }

  lemma AfterLonger(l: seq<byte>, rest: seq<byte>)
    requires forall i :: 0 <= i < |l| ==> l[i] != NL
    ensures AfterLine(l + rest) == AfterLine(rest)
  {
    hide LineLen;
    LongerLine(l, rest);
    if LineLen(rest) < |rest| { ConcatTail(l, rest, LineLen(rest) + 1); }
  }

  lemma AcrossFirst(l: seq<byte>, rest: seq<byte>)
    requires l != [] && forall i :: 0 <= i < |l| ==> l[i] != NL
    ensures Lines(l + rest) == [l + rest[..LineLen(rest)]] + Lines(AfterLine(rest))
  {
    hide LineLen, Lines, AfterLine;
    LongerLine(l, rest);
    AfterLonger(l, rest);
    ConcatTail(l, rest, LineLen(rest));
    LinesFirst(l + rest);
  }

  /** The pieces of a first line: none matches, or the first hit is no longer than that line. */
  lemma {:induction false} FirstHit(s: seq<byte>, text: seq<byte>)
    ensures var hits := Hits(s, Pieces(text));
            || hits == Hits(s, Pieces(AfterLine(text)))
            || (hits != [] && |hits[0]| <= LineLen(text))
    decreases |text|
  {
    hide Matches;
    var n := LineLen(text);
    if n >= BUFSIZE {
      var rest := text[BUFSIZE..];
      LineLenIs(rest, n - BUFSIZE);
      FirstHit(s, rest);
      if n < |text| { assert rest[n - BUFSIZE + 1..] == text[n + 1..]; }
    } else if n > 0 || n < |text| {
      assert n == |text| ==> text[..n] == text;
    }
  }

  /** A cut inside a matching line shows: the line itself is not among the hits where it should be. */
  lemma CutShows(s: seq<byte>, l: seq<byte>, rest: seq<byte>, first: seq<byte>)
    requires first == l + rest[..LineLen(rest)] && LineLen(rest) > 0 && l != [] && Matches(s, first)
    ensures Hit(s, l) + Hits(s, Pieces(rest)) != [first] + Hits(s, Lines(AfterLine(rest)))
  {
    var hits, lines := Hits(s, Pieces(rest)), Lines(AfterLine(rest));
    var expected := [first] + Hits(s, lines);
    assert expected[0] == first;
    if Matches(s, l) {
      assert (Hit(s, l) + hits)[0] == l;
    } else {
      assert Hit(s, l) + hits == hits;
      FirstHit(s, rest);
      PiecesFit(s, rest);
      ShortExactly(s, AfterLine(rest));
      if k :| k in lines && |k| > BUFSIZE && Matches(s, k) {
        HitsAreMatchingLines(s, lines);
        assert k in expected;
      }
    }
  }

  /** The hits when the first buffer is cut inside a line at a left-over newline. */
  lemma CutExactly(s: seq<byte>, text: seq<byte>)
    requires |text| >= BUFSIZE && text[BUFSIZE - 1] != NL
    ensures Hits(s, StalePieces(text)) == Hits(s, Lines(text))
       <==> NoLongMatch(s, Lines(text)) && !CutsMatch(s, text)
  {
    hide Matches, Lines, Pieces, LineStart, LineAcross;
    var h, rest, first := LineStart(text, BUFSIZE), text[BUFSIZE..], LineAcross(text);
    var before, after, l := Lines(text[..h]), AfterLine(rest), text[h..BUFSIZE];
    AcrossParts(s, text);
    HitsConcat(s, Pieces(text[..BUFSIZE]), Pieces(rest));
    HitsConcat(s, before + [first], Lines(after));
    HitsConcat(s, before, [first]);
    OneHit(s, first);
    ConcatAssoc(Hits(s, before), Hit(s, l), Hits(s, Pieces(rest)));
    ConcatAssoc(Hits(s, before), Hit(s, first), Hits(s, Lines(after)));
    if Matches(s, first) && LineLen(rest) > 0 {
      CutShows(s, l, rest, first);
      SamePrefix(Hits(s, before), Hit(s, l) + Hits(s, Pieces(rest)), [first] + Hits(s, Lines(after)));
    } else {
      if LineLen(rest) == 0 { assert first == l && rest[..0] == []; EmptyLine(s); }
      NoPartMatches(s, l, rest, first);
      CutOfNonMatch(s, rest);
      ShortExactly(s, after);
      SamePrefix(Hits(s, before) + Hit(s, l), Hits(s, Pieces(after)), Hits(s, Lines(after)));
      assert first in Lines(text) && forall k :: k in Lines(text) <==> k in before || k == first || k in Lines(after);
    }
  }

  lemma NoPartMatches(s: seq<byte>, l: seq<byte>, rest: seq<byte>, first: seq<byte>)
    requires first == l + rest[..LineLen(rest)] && (LineLen(rest) > 0 ==> !Matches(s, first))
    ensures !Matches(s, rest[..LineLen(rest)]) && Hit(s, l) == Hit(s, first)
  {
    var r := rest[..LineLen(rest)];
    if r == [] {
      assert l + r == l;
      EmptyLine(s);
    } else {
      assert first[..|l|] == l && first[|l|..|first|] == r;
      if Matches(s, l) { SubMatch(s, first, 0, |l|); }
      if Matches(s, r) { SubMatch(s, first, |l|, |first|); }
    }
  }

  lemma SamePrefix<T>(a: seq<T>, b: seq<T>, c: seq<T>)
    ensures a + b == a + c <==> b == c
  {
    assert (a + b)[|a|..] == b && (a + c)[|a|..] == c;
  }

  /**
   Main correctness statement about the search: the scanner's hits are exactly the matching lines,
   in order, if and only if no matching line is longer than the buffer and none is cut at a newline
   left over behind the buffer.
   */
  lemma {:induction false} ExactlyWhen(s: seq<byte>, text: seq<byte>, stale: bool)
    ensures Hits(s, PiecesFrom(stale, text)) == Hits(s, Lines(text))
       <==> NoLongMatch(s, Lines(text)) && !(stale && CutsMatch(s, text))
    decreases |text|
  {
    if !stale || |text| < BUFSIZE {
      ShortExactly(s, text);
    } else if text[BUFSIZE - 1] != NL {
      CutExactly(s, text);
    } else {
      hide Matches, Lines, Pieces, Hits;
      var p, rest := text[..BUFSIZE], text[BUFSIZE..];
      ExactlyWhen(s, rest, true);
      FullBuffer(s, p);
      LinesConcat(p, rest);
      assert p + rest == text;
      HitsConcat(s, Pieces(p), PiecesFrom(true, rest));
      HitsConcat(s, Lines(p), Lines(rest));
      SamePrefix(Hits(s, Lines(p)), Hits(s, PiecesFrom(true, rest)), Hits(s, Lines(rest)));
    }
  }

  /** Lines is the split it claims to be: newline-free parts whose "\n"-terminated join is the text. */
  lemma {:induction false} LinesSplitText(text: seq<byte>)
    ensures forall l <- Lines(text) :: NL !in l
    ensures Unlines(Lines(text)) == text + Missing(text)
  {
    NoNewlineInside(text);
    LinesJoin(text);
  }

  lemma {:induction false} NoNewlineInside(text: seq<byte>)
    ensures forall l <- Lines(text) :: NL !in l
    decreases |text|
  {
    if LineLen(text) < |text| {
      NoNewlineInside(text[LineLen(text) + 1..]);
    }
  }

  lemma {:induction false} LinesJoin(text: seq<byte>)
    ensures Unlines(Lines(text)) == text + Missing(text)
    decreases |text|
  {
    hide Unlines;
    var n := LineLen(text);
    if n < |text| {
      var first, rest := text[..n], text[n + 1..];
      LinesJoin(rest);
      UnlinesCons(first, Lines(rest));
      assert text == first + [NL] + rest && Missing(text) == Missing(rest);
      ConcatAssoc(first + [NL], rest, Missing(rest));
    } else if n > 0 {
      UnlinesCons(text, []);
      assert [text] + [] == [text];
      NoLines();
    } else {
      NoLines();
    }
  }

  lemma NoLines()
    ensures Lines([]) == [] && Unlines([]) == []
  {
  }

  /** The newline a last line may lack. */
  ghost function Missing(text: seq<byte>): seq<byte> {
    if text == [] || text[|text| - 1] == NL then [] else [NL]
  }

  lemma UnlinesCons(line: seq<byte>, lines: seq<seq<byte>>)
    ensures Unlines([line] + lines) == line + [NL] + Unlines(lines)
  {
    assert ([line] + lines)[1..] == lines;
  }

  ghost function Unlines(lines: seq<seq<byte>>): seq<byte> {
    if lines == [] then [] else lines[0] + [NL] + Unlines(lines[1..])
  }

  // ---------------------------------------------------------------- what the output is

  /** A line that reports a hit: the file name, a colon, and the hit. */
  ghost predicate Reports(line: seq<byte>, fname: seq<byte>, hit: seq<byte>) {
    && |line| == |fname| + 1 + |hit|
    && line[..|fname|] == fname && line[|fname|] == 58 && line[|fname| + 1..] == hit
  }

  /** Each line reports the hit at its place. */
  ghost predicate ReportsAll(lines: seq<seq<byte>>, fname: seq<byte>, hits: seq<seq<byte>>) {
    |lines| == |hits| && forall i :: 0 <= i < |hits| ==> Reports(lines[i], fname, hits[i])
  }

  lemma ReportsMore(lines: seq<seq<byte>>, last: seq<seq<byte>>, fname: seq<byte>, hits: seq<seq<byte>>)
    requires hits != [] && ReportsAll(lines, fname, hits[..|hits| - 1])
    requires |last| == 1 && Reports(last[0], fname, hits[|hits| - 1])
    ensures ReportsAll(lines + last, fname, hits)
  {
    hide Reports;
  }

  /** The lines of the output are the hits, in their order, each one reported once; nothing follows the last. */
  lemma {:induction false} OutputReportsHits(fname: seq<byte>, hits: seq<seq<byte>>)
    requires NL !in fname && forall i :: 0 <= i < |hits| ==> NL !in hits[i]
    ensures ReportsAll(Lines(Render(fname, hits)), fname, hits)
    ensures EndsLine(Render(fname, hits)) && (hits != [] ==> Render(fname, hits) != [])
  {
    assert EndsLine([]);
    hide Reports, LineLen, Lines, EndsLine, RenderLine;
    NoLines();
    if hits != [] {
      var front, hit := hits[..|hits| - 1], hits[|hits| - 1];
      assert forall i :: 0 <= i < |front| ==> front[i] == hits[i];
      OutputReportsHits(fname, front);
      OneReport(fname, hit);
      var before, last := Render(fname, front), RenderLine(fname, hit);
      assert Render(fname, hits) == before + last;
      hide Render, ReportsAll;
      LinesConcat(before, last);
      EndsLineBehind(before, last);
      ReportsMore(Lines(before), Lines(last), fname, hits);
    }
  }

  lemma OneReport(fname: seq<byte>, hit: seq<byte>)
    requires NL !in fname && NL !in hit
    ensures |Lines(RenderLine(fname, hit))| == 1 && Reports(Lines(RenderLine(fname, hit))[0], fname, hit)
    ensures RenderLine(fname, hit) != [] && EndsLine(RenderLine(fname, hit))
  {
    var line := fname + [COLON] + hit;
    var text := RenderLine(fname, hit);
    assert text == line + [NL] && NL !in line;
    LineLenIs(text, |line|);
    assert text[..|line|] == line && text[|line| + 1..] == [];
    NoLines();
    assert line[..|fname|] == fname && line[|fname| + 1..] == hit;
  }

  lemma EndsLineBehind(a: seq<byte>, b: seq<byte>)
    requires b != [] && EndsLine(b)
    ensures a + b != [] && EndsLine(a + b)
  {
  }

  /** The hits of a file hold no newline, wherever its lines are cut. */
  lemma {:induction false} HitsAreNewlineFree(s: seq<byte>, stale: bool, text: seq<byte>)
    ensures forall i :: 0 <= i < |Hits(s, PiecesFrom(stale, text))| ==> NL !in Hits(s, PiecesFrom(stale, text))[i]
  {
    PiecesNewlineFree(stale, text);
    HitsAreMatchingLines(s, PiecesFrom(stale, text));
    var hits := Hits(s, PiecesFrom(stale, text));
    forall i | 0 <= i < |hits| ensures NL !in hits[i] {
      assert hits[i] in hits;
    }
  }

  lemma {:induction false} PiecesNewlineFree(stale: bool, text: seq<byte>)
    ensures forall l :: l in PiecesFrom(stale, text) ==> NL !in l
    decreases |text|, 1
  {
    if stale && |text| >= BUFSIZE {
      PlainPieces(text[..BUFSIZE]);
      PiecesNewlineFree(text[BUFSIZE - 1] == NL, text[BUFSIZE..]);
    } else {
      PlainPieces(text);
    }
  }

  lemma {:induction false} PlainPieces(text: seq<byte>)
    ensures forall l :: l in Pieces(text) ==> NL !in l
    decreases |text|
  {
    var n := LineLen(text);
    if n >= BUFSIZE {
      PlainPieces(text[BUFSIZE..]);
    } else if n < |text| {
      PlainPieces(text[n + 1..]);
    }
  }

  const LOW_A: byte := 97

  lemma AllMatch(line: seq<byte>)
    requires line != [] && line[0] == LOW_A
    ensures Matches([LOW_A], line)
  {
    assert OccursAt([LOW_A], line, 0);
  }

  /** A matching line of 1025 bytes is not printed as one line. */
  lemma LongLineFails()
    ensures var text := seq(BUFSIZE + 1, _ => LOW_A);
            Hits([LOW_A], Pieces(text)) != Hits([LOW_A], Lines(text))
  {
    var text := seq(BUFSIZE + 1, _ => LOW_A);
    OneLine(text);
    AllMatch(text);
    assert text in Lines(text);
    ShortExactly([LOW_A], text);
  }

  /** Two short lines, and a newline left over behind the buffer: the second line is printed in two parts. */
  lemma LeftOverFails()
    ensures var text := [NL] + seq(BUFSIZE, _ => LOW_A);
            && NoLongMatch([LOW_A], Lines(text))
            && Hits([LOW_A], PiecesFrom(true, text)) != Hits([LOW_A], Lines(text))
  {
    var line := seq(BUFSIZE, _ => LOW_A);
    var text := [NL] + line;
    OneLine(line);
    LineLenIs([NL], 0);
    LinesConcat([NL], line);
    LinesFirst([NL]);
    assert Lines(text) == [[], line];
    LineStartIs(text, BUFSIZE, 1);
    LineLenIs(text[BUFSIZE..], 1);
    AllMatch(LineAcross(text));
    ExactlyWhen([LOW_A], text, true);
  }

  lemma {:induction false} LineStartIs(text: seq<byte>, k: nat, h: nat)
    requires h <= k <= |text| && (h == 0 || text[h - 1] == NL) && forall i :: h <= i < k ==> text[i] != NL
    ensures LineStart(text, k) == h
  {
    if h < k { LineStartIs(text, k - 1, h); }
  }

  // ---------------------------------------------------------------- pieces of a text in two parts

  /** A text that is not empty has a first piece. */
  lemma PiecesFirst(text: seq<byte>)
    requires text != []
    ensures var n := LineLen(text);
            Pieces(text) == if n >= BUFSIZE then [text[..BUFSIZE]] + Pieces(text[BUFSIZE..])
                            else [text[..n]] + Pieces(AfterLine(text))
  {
    assert text[..|text|] == text;
  }

  /** Behind the end of a line the pieces begin anew. */
  lemma {:induction false} PiecesConcat(a: seq<byte>, b: seq<byte>)
    requires EndsLine(a)
    ensures Pieces(a + b) == Pieces(a) + Pieces(b)
    decreases |a|
  {
    if a == [] {
      assert a + b == b;
    } else {
      hide LineLen, Pieces, EndsLine, AfterLine;
      var n := LineLen(a);
      EndsLineParts(a, b);
      PiecesFirst(a);
      PiecesFirst(a + b);
      if n >= BUFSIZE {
        ConcatParts(a, b, BUFSIZE);
        EndsLineTail(a, BUFSIZE);
        PiecesConcat(a[BUFSIZE..], b);
        ConcatAssoc([a[..BUFSIZE]], Pieces(a[BUFSIZE..]), Pieces(b));
      } else {
        AfterLineIs(a);
        AfterLineIs(a + b);
        PiecesConcat(a[n + 1..], b);
        ConcatAssoc([a[..n]], Pieces(a[n + 1..]), Pieces(b));
      }
    }
  }

  lemma EndsLineTail(a: seq<byte>, k: nat)
    requires EndsLine(a) && k <= |a|
    ensures EndsLine(a[k..])
  {
  }

  lemma AfterLineIs(a: seq<byte>)
    requires LineLen(a) < |a|
    ensures AfterLine(a) == a[LineLen(a) + 1..]
  {
  }

  /** So they do behind a full buffer without a newline. */
  lemma PiecesOfFull(a: seq<byte>, b: seq<byte>)
    requires |a| == BUFSIZE && forall i :: 0 <= i < |a| ==> a[i] != NL
    ensures Pieces(a + b) == Pieces(a) + Pieces(b)
  {
    hide LineLen, Pieces;
    LongerLine(a, b);
    LineLenIs(a, |a|);
    PiecesFirst(a + b);
    PiecesFirst(a);
    ConcatParts(a, b, BUFSIZE);
    assert a[..BUFSIZE] == a && a[BUFSIZE..] == [] && [] + b == b;
    assert Pieces([]) == [] by { NoPieces(); }
    assert [a] + [] == [a];
  }

  lemma NoPieces()
    ensures Pieces([]) == []
  {
  }

  /** Where the next line starts when one ended at e. */
  function After(e: nat, n: nat): (i: nat)
    requires e <= n
    ensures e <= i <= n
  {
    if e < n then e + 1 else n
  }

  lemma StretchBytes(text: seq<byte>, i: nat, j: nat)
    requires i <= j <= |text|
    ensures |text[i..j]| == j - i && forall k :: 0 <= k < j - i ==> text[i..j][k] == text[i + k]
  {
  }

  lemma StretchParts(text: seq<byte>, i: nat, e: nat, j: nat)
    requires i <= e <= j <= |text|
    ensures text[..j] == text[..i] + text[i..j] && text[i..j][..e - i] == text[i..e]
  {
  }

  lemma EndsBehind(text: seq<byte>, e: nat)
    requires e < |text| && text[e] == NL
    ensures EndsLine(text[..e + 1])
  {
  }

  /** One more line, text[i..e), adds exactly its hit to those of the text before it. */
  lemma LineStep(s: seq<byte>, text: seq<byte>, i: nat, e: nat)
    requires i <= e <= |text| <= BUFSIZE && EndsLine(text[..i])
    requires (forall k :: i <= k < e ==> text[k] != NL) && (e < |text| ==> text[e] == NL)
    ensures Hits(s, Pieces(text[..After(e, |text|)])) == Hits(s, Pieces(text[..i])) + Hit(s, text[i..e])
    ensures e < |text| ==> EndsLine(text[..e + 1])
  {
    hide Pieces, Hits, Hit, LineLen, EndsLine;
    var j := After(e, |text|);
    var front, line := text[..i], text[i..j];
    StretchParts(text, i, e, j);
    StretchBytes(text, i, j);
    PiecesConcat(front, line);
    HitsConcat(s, Pieces(front), Pieces(line));
    LineAlone(s, line, e - i);
    if e < |text| { EndsBehind(text, e); }
  }

  lemma LineAlone(s: seq<byte>, text: seq<byte>, n: nat)
    requires n <= |text| <= BUFSIZE && (n == |text| || (n == |text| - 1 && text[n] == NL))
    requires forall k :: 0 <= k < n ==> text[k] != NL
    ensures Hits(s, Pieces(text)) == Hit(s, text[..n])
  {
    LineLenIs(text, n);
    OneHit(s, text[..n]);
    EmptyLine(s);
    if text != [] {
      PiecesFirst(text);
      assert Pieces([]) == [] && [text[..n]] + [] == [text[..n]];
      assert n == BUFSIZE ==> text[..BUFSIZE] == text[..n] && text[BUFSIZE..] == [];
    }
  }

  /** From here on the pieces are those of what follows, whatever that is. */
  ghost predicate Cut(stale0: bool, x: seq<byte>, stale: bool) {
    forall y: seq<byte> :: PiecesFrom(stale0, x + y) == PiecesFrom(stale0, x) + PiecesFrom(stale, y)
  }

  lemma CutAt(stale0: bool, x: seq<byte>, stale: bool, y: seq<byte>)
    requires Cut(stale0, x, stale)
    ensures PiecesFrom(stale0, x + y) == PiecesFrom(stale0, x) + PiecesFrom(stale, y)
  {
  }

  lemma CutCut(stale0: bool, x: seq<byte>, stale: bool, z: seq<byte>, stale': bool)
    requires Cut(stale0, x, stale) && Cut(stale, z, stale')
    ensures Cut(stale0, x + z, stale')
  {
    hide PiecesFrom;
    forall y: seq<byte>
      ensures PiecesFrom(stale0, (x + z) + y) == PiecesFrom(stale0, x + z) + PiecesFrom(stale', y)
    {
      ConcatAssoc(x, z, y);
      CutAt(stale0, x, stale, z + y);
      CutAt(stale, z, stale', y);
      CutAt(stale0, x, stale, z);
      ConcatAssoc(PiecesFrom(stale0, x), PiecesFrom(stale, z), PiecesFrom(stale', y));
    }
  }

  lemma ShortPieces(stale: bool, b: seq<byte>)
    requires |b| <= BUFSIZE
    ensures PiecesFrom(stale, b) == Pieces(b)
  {
    if |b| == BUFSIZE {
      assert b[..BUFSIZE] == b && b[BUFSIZE..] == [];
      assert PiecesFrom(b[BUFSIZE - 1] == NL, []) == [];
    }
  }

  // ---------------------------------------------------------------- the reads of a file

  /** How many bytes of a buffer full of text are held for the next round: an unfinished last line, unless it is all. */
  function Held(stale: bool, b: seq<byte>): (n: nat)
    ensures n <= |b| && (b != [] ==> n < |b|)
  {
    var h := LineStart(b, |b|);
    if stale || h == 0 then 0 else |b| - h
  }

  /** Whether the newline behind the buffer is still there after the round. */
  predicate StaysStale(stale: bool, b: seq<byte>) {
    stale && (|b| < BUFSIZE || b[|b| - 1] == NL)
  }

  /** How far the file was read, how many of those bytes are held, and whether a newline is behind the buffer. */
  datatype Scan = Scan(pos: nat, held: nat, stale: bool) {
    ghost predicate Ok(content: seq<byte>) { held <= pos <= |content| && held < BUFSIZE }
  }

  /** A round: a read fills the buffer as far as the file goes, and a pass over it holds an unfinished line. */
  function Round(content: seq<byte>, st: Scan): (r: Scan)
    requires st.Ok(content)
    ensures r.Ok(content) && st.pos <= r.pos
  {
    var n := Min(BUFSIZE - st.held, |content| - st.pos);
    var b := content[st.pos - st.held..st.pos + n];
    Scan(st.pos + n, if n == 0 then 0 else Held(st.stale && |b| == BUFSIZE, b), StaysStale(st.stale, b))
  }

  /** The state after k reads. */
  function Rounds(content: seq<byte>, stale: bool, k: nat): (r: Scan)
    ensures r.Ok(content)
  {
    if k == 0 then Scan(0, 0, stale) else Round(content, Rounds(content, stale, k - 1))
  }

  /** Read number k is made: no read before it came back empty. */
  predicate Reaches(content: seq<byte>, stale: bool, k: nat) {
    k == 0 || Rounds(content, stale, k - 1).pos < |content|
  }

  lemma {:induction false} RoundsStay(content: seq<byte>, stale: bool, j: nat, k: nat)
    requires j <= k && Rounds(content, stale, j).pos == |content|
    ensures Rounds(content, stale, k).pos == |content|
  {
    if j < k { RoundsStay(content, stale, j, k - 1); }
  }

  /** What one pass over the buffered bytes b does to the cut: its first k bytes are done with. */
  lemma PassCuts(stale: bool, b: seq<byte>, k: nat)
    requires |b| == BUFSIZE && k == |b| - Held(stale, b)
    ensures Cut(stale, b[..k], StaysStale(stale, b))
  {
    hide LineStart, Pieces;
    if stale {
      assert b[..k] == b;
      forall y: seq<byte>
        ensures PiecesFrom(stale, b + y) == PiecesFrom(stale, b) + PiecesFrom(StaysStale(stale, b), y)
      {
        ConcatParts(b, y, |b|);
        ConcatTail(b, y, 0);
        assert (b + y)[..BUFSIZE] == b && (b + y)[BUFSIZE..] == y && (b + y)[BUFSIZE - 1] == b[BUFSIZE - 1];
        ShortPieces(stale, b);
      }
    } else {
      forall y: seq<byte> ensures PiecesFrom(false, b[..k] + y) == PiecesFrom(false, b[..k]) + PiecesFrom(false, y) {
        if LineStart(b, |b|) == 0 {
          assert b[..k] == b;
          PiecesOfFull(b, y);
        } else {
          PiecesConcat(b[..k], y);
        }
      }
    }
  }
}
