/**
 add_frames (fish/fish.c): two text files are read byte by byte in step, and every place where at
 least one of them has a character other than a space becomes one blinking character.
 */
module Frames {
  import opened Bytes
  import opened BlinkSpec
  import Blink

  const COLS: nat := 80
  const OFFSET: nat := 40

  /** One add call: the place in the text, and the two characters shown there in turn. */
  datatype Shot = Shot(row: nat, col: nat, on: byte, off: byte) {
    /** The location field, an unsigned short. */
    function Location(): word { ((row * COLS + col + OFFSET) % 0x1_0000) as word }

    /** The structure handed to the add call; what it leaves open is set by the call. */
    function Entry(): Entry { BlinkSpec.Entry(Location(), on, off, LENGTH, LENGTH, 0, 0) }
  }

  const LENGTH: word := 15   // ticks of each phase

  /** The rows of a text: split at newlines, the part after the last one included. */
  function Rows(text: seq<byte>): (rows: seq<seq<byte>>)
    ensures rows != []
    decreases |text|
  {
    var n := LineLen(text);
    if n < |text| then [text[..n]] + Rows(text[n + 1..]) else [text]
  }

  function Row(rows: seq<seq<byte>>, r: nat): seq<byte> { if r < |rows| then rows[r] else [] }

  /** The character of a row, padded with spaces. */
  function Padded(row: seq<byte>, col: nat): byte { if col < |row| then row[col] else SP }

  function Width(a: seq<byte>, b: seq<byte>): nat { if |a| >= |b| then |a| else |b| }

  /** Rows with a newline between each two. */
  function Unrowed(rows: seq<seq<byte>>): seq<byte>
    requires rows != []
  {
    if |rows| == 1 then rows[0] else rows[0] + ([NL] + Unrowed(rows[1..]))
  }

  lemma UnrowedCons(first: seq<byte>, rows: seq<seq<byte>>)
    requires rows != []
    ensures Unrowed([first] + rows) == first + ([NL] + Unrowed(rows))
  {
    assert ([first] + rows)[1..] == rows;
  }

  lemma AroundNewline(text: seq<byte>, n: nat)
    requires n < |text| && text[n] == NL
    ensures text == text[..n] + ([NL] + text[n + 1..])
  {
  }

  /** The rows of a text hold no newline and, with newlines between them, are the text. */
  lemma {:induction false} RowsSplitText(text: seq<byte>)
    ensures Unrowed(Rows(text)) == text && forall r :: r in Rows(text) ==> NL !in r
    decreases |text|
  {
    hide LineLen;
    var n := LineLen(text);
    if n < |text| {
      var first, rest := text[..n], text[n + 1..];
      RowsSplitText(rest);
      assert Rows(text) == [first] + Rows(rest);
      hide Rows, Unrowed;
      UnrowedCons(first, Rows(rest));
      AroundNewline(text, n);
    }
  }

  /** The shots of one row from a column on. */
  function RowShots(a: seq<byte>, b: seq<byte>, row: nat, col: nat): seq<Shot>
    decreases Width(a, b) - col
  {
    if col >= Width(a, b) then []
    else CellShot(a, b, row, col) + RowShots(a, b, row, col + 1)
  }

  function CellShot(a: seq<byte>, b: seq<byte>, row: nat, col: nat): seq<Shot> {
    if Padded(a, col) != SP || Padded(b, col) != SP then [Shot(row, col, Padded(a, col), Padded(b, col))] else []
  }

  function First(rows: seq<seq<byte>>): seq<byte> { if rows == [] then [] else rows[0] }
  function Rest(rows: seq<seq<byte>>): seq<seq<byte>> { if rows == [] then [] else rows[1..] }

  /** All shots of two texts given by their remaining rows. */
  function Shots(a: seq<seq<byte>>, b: seq<seq<byte>>, row: nat): seq<Shot>
    decreases |a| + |b|
  {
    if a == [] && b == [] then []
    else RowShots(First(a), First(b), row, 0) + Shots(Rest(a), Rest(b), row + 1)
  }

  // ---------------------------------------------------------------- what the shots are

  predicate Before(s: Shot, t: Shot) { s.row < t.row || (s.row == t.row && s.col < t.col) }

  /** Strictly row-major, so no place occurs twice. */
  ghost predicate RowMajor(shots: seq<Shot>) {
    forall i, j :: 0 <= i < j < |shots| ==> Before(shots[i], shots[j])
  }

  /** s is at a place where one of two rows has a character other than a space, and carries both characters. */
  predicate InRow(a: seq<byte>, b: seq<byte>, s: Shot) {
    (Padded(a, s.col) != SP || Padded(b, s.col) != SP) && s.on == Padded(a, s.col) && s.off == Padded(b, s.col)
  }

  /** The same for two texts. */
  predicate InTexts(a: seq<seq<byte>>, b: seq<seq<byte>>, top: nat, s: Shot) {
    s.row >= top && InRow(Row(a, s.row - top), Row(b, s.row - top), s)
  }

  lemma {:induction false} RowShotsAre(a: seq<byte>, b: seq<byte>, row: nat, col: nat)
    ensures forall s :: s in RowShots(a, b, row, col) <==> (s.row == row && s.col >= col && InRow(a, b, s))
    ensures RowMajor(RowShots(a, b, row, col))
    decreases Width(a, b) - col
  {
    if col < Width(a, b) {
      RowShotsAre(a, b, row, col + 1);
      assert forall s :: s in CellShot(a, b, row, col) <==> (s.row == row && s.col == col && InRow(a, b, s));
      InOrder(CellShot(a, b, row, col), RowShots(a, b, row, col + 1));
    }
  }

  lemma InOrder(x: seq<Shot>, y: seq<Shot>)
    requires RowMajor(x) && RowMajor(y)
    requires forall s, t :: s in x && t in y ==> Before(s, t)
    ensures RowMajor(x + y)
  {
  }

  lemma {:induction false} ShotsFrom(a: seq<seq<byte>>, b: seq<seq<byte>>, row: nat)
    ensures forall s :: s in Shots(a, b, row) <==> InTexts(a, b, row, s)
    ensures RowMajor(Shots(a, b, row))
    decreases |a| + |b|
  {
    hide InRow, RowShots;
    if a == [] && b == [] {
      forall s: Shot ensures !InTexts(a, b, row, s) { NothingInEmpty(s); }
    } else {
      var first, rest := RowShots(First(a), First(b), row, 0), Shots(Rest(a), Rest(b), row + 1);
      RowShotsAre(First(a), First(b), row, 0);
      ShotsFrom(Rest(a), Rest(b), row + 1);
      InOrder(first, rest);
      assert Shots(a, b, row) == first + rest;
      hide Shots;
      forall s: Shot ensures s in first + rest <==> InTexts(a, b, row, s) {
        assert s in first + rest <==> s in first || s in rest;
        if s.row > row { RowBelow(a, b, row, s); }
      }
    }
  }

  lemma RowBelow(a: seq<seq<byte>>, b: seq<seq<byte>>, row: nat, s: Shot)
    requires s.row > row
    ensures InTexts(a, b, row, s) <==> InTexts(Rest(a), Rest(b), row + 1, s)
  {
    assert Row(a, s.row - row) == Row(Rest(a), s.row - (row + 1));
    assert Row(b, s.row - row) == Row(Rest(b), s.row - (row + 1));
  }

  lemma NothingInEmpty(s: Shot)
    ensures !InRow([], [], s)
  {
  }

  /**
   Main result: the shots are in row-major order without repetition, and there is one exactly for
   each place where either text has a character other than a space, with both padded characters.
   */
  lemma ShotsAreVisibleCells(a: seq<byte>, b: seq<byte>)
    ensures RowMajor(Shots(Rows(a), Rows(b), 0))
    ensures forall s :: s in Shots(Rows(a), Rows(b), 0) <==> InRow(Row(Rows(a), s.row), Row(Rows(b), s.row), s)
  {
    hide InRow;
    ShotsFrom(Rows(a), Rows(b), 0);
    assert forall s: Shot :: InTexts(Rows(a), Rows(b), 0, s) <==> InRow(Row(Rows(a), s.row), Row(Rows(b), s.row), s);
  }

  /** Every place with a character other than a space is shown, exactly once. */
  lemma EachPlaceOnce(a: seq<byte>, b: seq<byte>, row: nat, col: nat) returns (shot: Shot)
    requires Padded(Row(Rows(a), row), col) != SP || Padded(Row(Rows(b), row), col) != SP
    ensures shot == Shot(row, col, Padded(Row(Rows(a), row), col), Padded(Row(Rows(b), row), col))
    ensures multiset(Shots(Rows(a), Rows(b), 0))[shot] == 1
    ensures forall s <- Shots(Rows(a), Rows(b), 0) :: s.row == row && s.col == col ==> s == shot
  {
    shot := Shot(row, col, Padded(Row(Rows(a), row), col), Padded(Row(Rows(b), row), col));
    ShotsAreVisibleCells(a, b);
    OnceInOrder(Shots(Rows(a), Rows(b), 0), shot);
  }

  lemma {:induction false} OnceInOrder(shots: seq<Shot>, s: Shot)
    requires RowMajor(shots) && s in shots
    ensures multiset(shots)[s] == 1
  {
    var i :| 0 <= i < |shots| && shots[i] == s;
    assert shots == shots[..i] + [s] + shots[i + 1..];
    assert s !in shots[..i] && s !in shots[i + 1..];
  }

  // ---------------------------------------------------------------- the program

  /** What is left of a file at the start of a row. */
  function Left(text: seq<byte>, p: nat, eof: bool): seq<seq<byte>>
    requires p <= |text|
  {
    if eof then [] else Rows(text[p..])
  }

  /** In a row that began at start: where the file stands at column col. */
  ghost predicate AtColumn(text: seq<byte>, start: nat, over: bool, c: byte, p: nat, eof: bool, col: nat) {
    && start <= |text| && p <= |text|
    && var rows := Left(text, start, over);
       if c == NL then col >= |First(rows)| && Left(text, p, eof) == Rest(rows)
       else !over && !eof && col <= |First(rows)| && p == start + col
  }

  lemma FirstAndRest(text: seq<byte>)
    ensures First(Rows(text)) == text[..LineLen(text)]
    ensures Rest(Rows(text)) == if LineLen(text) < |text| then Rows(text[LineLen(text) + 1..]) else []
  {
    assert text[..|text|] == text;
  }

  /** Where the row that begins at start ends, and what follows it. */
  lemma RowAt(text: seq<byte>, start: nat)
    requires start <= |text|
    ensures var rows := Left(text, start, false); var n := |First(rows)|;
            && start + n <= |text|
            && (forall k :: 0 <= k < n ==> First(rows)[k] == text[start + k])
            && (start + n < |text| ==> text[start + n] == NL && Left(text, start + n + 1, false) == Rest(rows))
            && (start + n == |text| ==> Rest(rows) == [])
  {
    hide Rows, First, Rest, LineLen;
    var t := text[start..];
    var n := LineLen(t);
    FirstAndRest(t);
    Suffix(text, start, n);
    if n < |t| {
      Suffix(text, start, n + 1);
      assert Rest(Rows(t)) == Rows(text[start + n + 1..]);
    }
    assert forall k :: 0 <= k < n ==> t[..n][k] == text[start + k];
  }

  lemma Suffix(text: seq<byte>, start: nat, n: nat)
    requires start + n <= |text|
    ensures text[start..][n..] == text[start + n..]
    ensures start + n < |text| ==> text[start..][n] == text[start + n]
  {
  }

  /** The byte read for a column: the line's character there, or a newline behind it, and never one inside it. */
  ghost predicate IsAt(line: seq<byte>, col: nat, c: byte) {
    if col < |line| then c == line[col] && c != NL else c == NL
  }

  lemma NothingLeft(text: seq<byte>, p: nat)
    requires p <= |text|
    ensures Left(text, p, true) == []
  {
  }

  /** One file's part of a column: a byte is read unless the file's line is over. */
  method Advance(text: seq<byte>, c: byte, p: nat, eof: bool, ghost start: nat, ghost over: bool, ghost col: nat)
    returns (c': byte, p': nat, eof': bool)
    requires AtColumn(text, start, over, c, p, eof, col)
    ensures AtColumn(text, start, over, c', p', eof', col + 1)
    ensures IsAt(First(Left(text, start, over)), col, c')
  {
    c', p', eof' := c, p, eof;
    if c != NL {
      RowAt(text, start);
      NoNewlines(text, start, over);
      NothingLeft(text, p);
      hide Rows, First, Rest, Left, LineLen;
      var numBytes := if p < |text| then 1 else 0;
      if numBytes > 0 {
        c', p' := text[p], p + 1;
      }
      if numBytes == 0 {
        c' := NL;
        eof' := true;
      }
    }
  }

  /** One add call, on the list of blinking characters. */
  method AddShot(list: Blink.BlinkList, s: Shot, ghost start: Blink.Arena, ghost sound: bool, ghost was: Blinks,
                 ghost shots: seq<Shot>)
    requires Made(list, start, sound, was, shots)
    modifies list, list.slots, list.vmem
    ensures Made(list, start, sound, was, shots + [s])
  {
    hide Added, Addable, Placed, Blink.Placed, Blink.BlinkList.Valid, Blink.BlinkList.State, Blink.BlinkList.Contents,
      Blinks.Ok, Step;
    PlacedStep(list.arena, start, shots, s);
    if sound && Addable(shots + [s]) {
      AddableStep(shots, s);
      AddedStep(was, shots, s);
    }
    list.AddAnywhere(s.Entry());
  }

  /** One round of the outer loop: a row of both files. */
  method AddRow(a: seq<byte>, b: seq<byte>, row: nat, a0: byte, b0: byte, s0: nat, s1: nat, e0: bool, e1: bool,
                list: Blink.BlinkList, ghost start: Blink.Arena, ghost sound: bool, ghost was: Blinks,
                ghost before: seq<Shot>)
    returns (p0: nat, p1: nat, eof0: bool, eof1: bool)
    requires AtColumn(a, s0, e0, a0, s0, e0, 0) && AtColumn(b, s1, e1, b0, s1, e1, 0)
    requires Made(list, start, sound, was, before)
    modifies list, list.slots, list.vmem
    ensures Made(list, start, sound, was, before + RowShots(First(Left(a, s0, e0)), First(Left(b, s1, e1)), row, 0))
    ensures p0 <= |a| && Left(a, p0, eof0) == Rest(Left(a, s0, e0))
    ensures p1 <= |b| && Left(b, p1, eof1) == Rest(Left(b, s1, e1))
  {
    ghost var la, lb, shots := First(Left(a, s0, e0)), First(Left(b, s1, e1)), before;
    ghost var all := before + RowShots(la, lb, row, 0);
    var c0, c1;
    p0, p1, eof0, eof1, c0, c1 := s0, s1, e0, e1, a0, b0;
    var col := 0;
    hide AtColumn, RowShots, CellShot, Made, Left, First, Rest, IsAt, Width;
    while true
      invariant AtColumn(a, s0, e0, c0, p0, eof0, col) && AtColumn(b, s1, e1, c1, p1, eof1, col)
      invariant shots + RowShots(la, lb, row, col) == all
      invariant Made(list, start, sound, was, shots)
      decreases Width(la, lb) - col
    {
      c0, p0, eof0 := Advance(a, c0, p0, eof0, s0, e0, col);
      c1, p1, eof1 := Advance(b, c1, p1, eof1, s1, e1, col);
      InFile(a, s0, e0, c0, p0, eof0, col + 1);
      InFile(b, s1, e1, c1, p1, eof1, col + 1);
      RowStep(la, lb, row, col, shots);
      WidthAt(la, lb, col, c0, c1);
      if c0 == NL && c1 == NL {
        RowOver(a, s0, e0, c0, p0, eof0, col + 1);
        RowOver(b, s1, e1, c1, p1, eof1, col + 1);
        return;
      }
      AddCell(list, row, col, c0, c1, la, lb, start, sound, was, shots);
      shots := shots + CellShot(la, lb, row, col);
      col := col + 1;
    }
  }

  /** The loop over columns ends exactly behind both lines. */
  lemma WidthAt(la: seq<byte>, lb: seq<byte>, col: nat, c0: byte, c1: byte)
    requires IsAt(la, col, c0) && IsAt(lb, col, c1)
    ensures c0 == NL && c1 == NL <==> col >= Width(la, lb)
  {
  }

  /** The body of the loop over columns, when one of the lines goes on. */
  method AddCell(list: Blink.BlinkList, row: nat, col: nat, c0: byte, c1: byte, ghost la: seq<byte>,
                 ghost lb: seq<byte>, ghost start: Blink.Arena, ghost sound: bool, ghost was: Blinks,
                 ghost shots: seq<Shot>)
    requires IsAt(la, col, c0) && IsAt(lb, col, c1) && Made(list, start, sound, was, shots)
    modifies list, list.slots, list.vmem
    ensures Made(list, start, sound, was, shots + CellShot(la, lb, row, col))
  {
    hide Made;
    if (c0 != SP && c0 != NL) || (c1 != SP && c1 != NL) {
      var shot := Shot(row, col, if c0 == NL then SP else c0, if c1 == NL then SP else c1);
      assert CellShot(la, lb, row, col) == [shot];
      AddShot(list, shot, start, sound, was, shots);
    } else {
      assert shots + CellShot(la, lb, row, col) == shots;
    }
  }

  lemma InFile(text: seq<byte>, start: nat, over: bool, c: byte, p: nat, eof: bool, col: nat)
    requires AtColumn(text, start, over, c, p, eof, col)
    ensures start <= |text| && p <= |text|
  {
  }

  lemma RowOver(text: seq<byte>, start: nat, over: bool, c: byte, p: nat, eof: bool, col: nat)
    requires AtColumn(text, start, over, c, p, eof, col) && c == NL
    ensures start <= |text| && p <= |text| && Left(text, p, eof) == Rest(Left(text, start, over))
  {
  }

  lemma NoNewlines(text: seq<byte>, start: nat, over: bool)
    requires start <= |text|
    ensures forall k :: 0 <= k < |First(Left(text, start, over))| ==> First(Left(text, start, over))[k] != NL
  {
    if !over { FirstAndRest(text[start..]); }
  }

  lemma RowStep(a: seq<byte>, b: seq<byte>, row: nat, col: nat, shots: seq<Shot>)
    ensures col < Width(a, b) ==>
      shots + RowShots(a, b, row, col) == (shots + CellShot(a, b, row, col)) + RowShots(a, b, row, col + 1)
    ensures col >= Width(a, b) ==> shots + RowShots(a, b, row, col) == shots
  {
    if col < Width(a, b) { ConcatAssoc(shots, CellShot(a, b, row, col), RowShots(a, b, row, col + 1)); }
  }

  const ZERO: byte := 48   // '0', any byte but a newline

  /**
   add_frames on the contents of the two files: its add calls, one after the other, on the arena as it
   is. On a well-formed list, with no call for location 0, they are steps of the list.
   */
  method AddFrames(a: seq<byte>, b: seq<byte>, list: Blink.BlinkList)
    requires list.Shape()
    modifies list, list.slots, list.vmem
    ensures list.Contents() == Placed(list.arena, old(list.Contents()), Shots(Rows(a), Rows(b), 0))
    ensures old(list.Valid()) && Addable(Shots(Rows(a), Rows(b), 0)) ==>
      && list.Valid() && old(list.State().Ok())
      && list.State() == Added(old(list.State()), Shots(Rows(a), Rows(b), 0))
  {
    var eof0, eof1, row := false, false, 0;
    var p0: nat, p1: nat := 0, 0;
    var c0, c1 := ZERO, ZERO;
    ghost var start, sound, was, goal := list.Contents(), list.Valid(), list.State(), Shots(Rows(a), Rows(b), 0);
    ghost var shots: seq<Shot> := [];
    assert a[0..] == a && b[0..] == b && [] + goal == goal;
    MadeNothing(list);
    hide Made, RowShots, Blink.BlinkList.Valid;
    while !eof0 || !eof1
      invariant p0 <= |a| && p1 <= |b|
      invariant c0 == (if eof0 then NL else ZERO) && c1 == (if eof1 then NL else ZERO)
      invariant shots + Shots(Left(a, p0, eof0), Left(b, p1, eof1), row) == goal
      invariant Made(list, start, sound, was, shots)
      decreases |Left(a, p0, eof0)| + |Left(b, p1, eof1)|
    {
      ghost var la, lb := Left(a, p0, eof0), Left(b, p1, eof1);
      ghost var more, later := RowShots(First(la), First(lb), row, 0), Shots(Rest(la), Rest(lb), row + 1);
      ConcatAssoc(shots, more, later);
      p0, p1, eof0, eof1 := AddRow(a, b, row, c0, c1, p0, p1, eof0, eof1, list, start, sound, was, shots);
      shots := shots + more;
      if eof0 { c0 := NL; } else { c0 := ZERO; }
      if eof1 { c1 := NL; } else { c1 := ZERO; }
      row := row + 1;
    }
    assert shots + [] == shots;
    MadeMeans(list, start, sound, was, goal);
  }

  lemma MadeNothing(list: Blink.BlinkList)
    requires list.Shape()
    ensures Made(list, list.Contents(), list.Valid(), list.State(), [])
  {
    if list.Valid() { AddedNothing(list.State()); }
  }

  lemma MadeMeans(list: Blink.BlinkList, start: Blink.Arena, sound: bool, was: Blinks, shots: seq<Shot>)
    requires Made(list, start, sound, was, shots)
    ensures start.Ok() && list.Contents() == Placed(list.arena, start, shots)
    ensures sound && Addable(shots) ==> list.Valid() && was.Ok() && list.State() == Added(was, shots)
  {
  }

  // ---------------------------------------------------------------- the list they make

  /** No shot goes to location 0, where an entry would break the list. */
  ghost predicate Addable(shots: seq<Shot>) {
    forall i :: 0 <= i < |shots| ==> shots[i].Location() != 0
  }

  function Adds(shots: seq<Shot>): (ops: seq<Op>)
    ensures |ops| == |shots|
  {
    seq(|shots|, i requires 0 <= i < |shots| => AddOp(shots[i].Entry()))
  }

  /** The list and video memory after the add calls. */
  function Added(start: Blinks, shots: seq<Shot>): (r: Blinks)
    requires start.Ok() && Addable(shots)
    ensures r.Ok()
  {
    Run(start, Adds(shots))
  }

  /** The stored arena after the add calls, whatever their locations. */
  ghost function Placed(arena: seq<Blink.Node>, start: Blink.Arena, shots: seq<Shot>): (r: Blink.Arena)
    requires start.Ok() && |arena| == LOCATIONS
    ensures r.Ok()
  {
    if shots == [] then start
    else Blink.Placed(arena, Placed(arena, start, shots[..|shots| - 1]), shots[|shots| - 1].Entry())
  }

  /** What the add calls so far made of the arena, and of a well-formed list if none went to location 0. */
  ghost predicate Made(list: Blink.BlinkList, start: Blink.Arena, sound: bool, was: Blinks, shots: seq<Shot>)
    reads list, list.slots, list.nodes, list.vmem
  {
    && list.Shape() && start.Ok() && list.Contents() == Placed(list.arena, start, shots)
    && (sound && Addable(shots) ==> list.Valid() && was.Ok() && list.State() == Added(was, shots))
  }

  /** One more call on the stored arena and on the list. */
  lemma PlacedStep(arena: seq<Blink.Node>, start: Blink.Arena, shots: seq<Shot>, s: Shot)
    requires start.Ok() && |arena| == LOCATIONS
    ensures Placed(arena, start, shots + [s]) == Blink.Placed(arena, Placed(arena, start, shots), s.Entry())
  {
    assert (shots + [s])[..|shots|] == shots;
  }

  lemma AddableStep(shots: seq<Shot>, s: Shot)
    requires Addable(shots + [s])
    ensures Addable(shots) && s.Location() != 0
  {
    AddablePart(shots, [s]);
    assert s == (shots + [s])[|shots|];
  }

  lemma AddedNothing(start: Blinks)
    requires start.Ok()
    ensures Addable([]) && Added(start, []) == start
  {
  }

  lemma AddablePart(front: seq<Shot>, back: seq<Shot>)
    requires Addable(front + back)
    ensures Addable(front)
  {
    assert forall i :: 0 <= i < |front| ==> front[i] == (front + back)[i];
  }

  lemma AddedStep(start: Blinks, shots: seq<Shot>, s: Shot)
    requires start.Ok() && Addable(shots + [s])
    ensures Addable(shots) && AddOp(s.Entry()).Fine()
    ensures Added(start, shots + [s]) == Step(Added(start, shots), AddOp(s.Entry()))
  {
    AddablePart(shots, [s]);
    assert s == (shots + [s])[|shots|];
    assert Adds(shots + [s])[..|shots|] == Adds(shots);
  }

  // ---------------------------------------------------------------- what it shows over time

  /** Entry e is in the list, alone at its location, and its byte shows its status. */
  ghost predicate Displays(s: Blinks, e: Entry)
    requires s.Ok()
  {
    exists k: nat :: k < |s.list| && s.list[k] == e && Alone(s.list, k) && Shows(s.vmem, e)
  }

  /** At most one entry for each add call, each at the location of one. */
  lemma {:induction false} AddedList(vmem: seq<byte>, shots: seq<Shot>)
    requires |vmem| == VMEM && Addable(shots)
    ensures var list := Added(Blinks([], vmem), shots).list;
            && |list| <= |shots|
            && forall k :: 0 <= k < |list| ==> exists i :: 0 <= i < |shots| && shots[i].Location() == list[k].location
  {
    var start := Blinks([], vmem);
    if shots == [] {
      AddedNothing(start);
    } else {
      var front, s := shots[..|shots| - 1], shots[|shots| - 1];
      assert shots == front + [s];
      AddedStep(start, front, s);
      AddedList(vmem, front);
      var was, now := Added(start, front).list, Added(start, shots).list;
      hide Added;
      forall k | 0 <= k < |now| ensures exists i :: 0 <= i < |shots| && shots[i].Location() == now[k].location {
        if |now| > |was| && k == 0 {
          assert shots[|shots| - 1].Location() == now[0].location;
        } else {
          var earlier := was[if |now| > |was| then k - 1 else k];
          assert now[k] == earlier;
          var i :| 0 <= i < |front| && front[i].Location() == earlier.location;
          assert shots[i] == front[i];
        }
      }
    }
  }

  /** Shot j, which goes to a place of its own on the screen, is displayed after all add calls. */
  lemma {:induction false} ShotDisplayed(vmem: seq<byte>, shots: seq<Shot>, j: nat)
    requires |vmem| == VMEM && Addable(shots) && |shots| <= LOCATIONS && j < |shots|
    requires shots[j].Location() as int < LOCATIONS
    requires forall i :: 0 <= i < |shots| && i != j ==> shots[i].Location() != shots[j].Location()
    ensures Displays(Added(Blinks([], vmem), shots), Started(shots[j].Entry()))
  {
    var start, e := Blinks([], vmem), Started(shots[j].Entry());
    var front, s := shots[..|shots| - 1], shots[|shots| - 1];
    assert shots == front + [s];
    AddedStep(start, front, s);
    var was, now := Added(start, front), Added(start, shots);
    AddedList(vmem, front);
    hide Added;
    if j == |shots| - 1 {
      assert forall k :: 0 <= k < |was.list| ==> was.list[k].location != e.location;
      assert now.list[0] == e && Alone(now.list, 0) && Shows(now.vmem, e);
    } else {
      assert forall i :: 0 <= i < |front| ==> front[i] == shots[i];
      ShotDisplayed(vmem, front, j);
      DisplaysAfterAdd(was, e, s.Entry());
    }
  }

  lemma DisplaysAfterAdd(s: Blinks, e: Entry, b: Entry)
    requires s.Ok() && b.location != 0 && Displays(s, e) && b.location != e.location
    ensures Displays(Step(s, AddOp(b)), e)
  {
    var k: nat :| k < |s.list| && s.list[k] == e && Alone(s.list, k) && Shows(s.vmem, e);
    var r := Step(s, AddOp(b));
    if |r.list| > |s.list| {
      assert r.list[k + 1] == e && Alone(r.list, k + 1);
    } else {
      assert r == s;
    }
  }

  /** A displayed entry blinks: n ticks later its byte is the on character in the first half of each period. */
  lemma DisplayedBlinks(s: Blinks, e: Entry, n: nat)
    requires s.Ok() && e.onLength == e.offLength == LENGTH && Displays(s, Started(e))
    ensures 0 < e.location as int < LOCATIONS
    ensures Ticks(s, n).vmem[2 * e.location as int] == if n % 30 < 15 then e.onChar else e.offChar
  {
    var k: nat :| k < |s.list| && s.list[k] == Started(e) && Alone(s.list, k) && Shows(s.vmem, Started(e));
    assert s.list[k].Live();
    TicksShow(s, n, k);
    TicksOfEntry(s, n, k);
    BlinksPeriodically(e, n);
    BlinkState(e, n);
  }

  /** Both pictures fit: 80 columns, and every place with a character is on the screen. */
  ghost predicate Fits(shots: seq<Shot>) {
    forall i :: 0 <= i < |shots| ==> shots[i].col < COLS && shots[i].row * COLS + shots[i].col + OFFSET < LOCATIONS
  }

  lemma OnScreen(s: Shot)
    requires s.row * COLS + s.col + OFFSET < LOCATIONS
    ensures s.Location() as int == s.row * COLS + s.col + OFFSET && 1 < s.Location() as int < LOCATIONS
  {
  }

  lemma LaterLocation(s: Shot, t: Shot)
    requires Before(s, t) && s.col < COLS && t.col < COLS && s.row * COLS + s.col + OFFSET < LOCATIONS
    requires t.row * COLS + t.col + OFFSET < LOCATIONS
    ensures s.Location() < t.Location()
  {
    OnScreen(s);
    OnScreen(t);
  }

  /** Then every shot has a location of its own, and there are fewer than the list holds. */
  lemma {:induction false} OwnLocations(shots: seq<Shot>)
    requires Fits(shots) && RowMajor(shots)
    ensures Addable(shots) && |shots| <= LOCATIONS
    ensures forall i, j :: 0 <= i < j < |shots| ==> shots[i].Location() < shots[j].Location()
    ensures shots != [] ==> |shots| <= shots[|shots| - 1].Location() as int
  {
    hide Shot.Location, Before;
    forall i, j | 0 <= i < j < |shots| ensures shots[i].Location() < shots[j].Location() {
      LaterLocation(shots[i], shots[j]);
    }
    forall i | 0 <= i < |shots| ensures 0 < shots[i].Location() { OnScreen(shots[i]); }
    if |shots| > 0 { OnScreen(shots[|shots| - 1]); }
    if |shots| > 1 {
      var front := shots[..|shots| - 1];
      assert RowMajor(front) && Fits(front);
      OwnLocations(front);
    }
  }

  /**
   Main result for the picture: n ticks after the add calls, every place where one of two fitting texts has
   a character other than a space shows the first text's character in the first half of each period of 30
   ticks, and the second one's in the other half.
   */
  lemma PictureBlinks(a: seq<byte>, b: seq<byte>, vmem: seq<byte>, row: nat, col: nat, n: nat)
    requires |vmem| == VMEM && Fits(Shots(Rows(a), Rows(b), 0))
    requires Padded(Row(Rows(a), row), col) != SP || Padded(Row(Rows(b), row), col) != SP
    ensures var shots := Shots(Rows(a), Rows(b), 0); var at := 2 * (row * COLS + col + OFFSET);
            && Addable(shots) && at < VMEM
            && Ticks(Added(Blinks([], vmem), shots), n).vmem[at]
               == Padded(Row(if n % 30 < 15 then Rows(a) else Rows(b), row), col)
  {
    hide Added, Shots, Rows, Ticks, RowMajor, InRow, Row, Padded;
    var shots := Shots(Rows(a), Rows(b), 0);
    ShotsAreVisibleCells(a, b);
    OwnLocations(shots);
    var shot := EachPlaceOnce(a, b, row, col);
    assert multiset(shots)[shot] == 1 && shot in shots;
    var j :| 0 <= j < |shots| && shots[j] == shot;
    ShotDisplayed(vmem, shots, j);
    DisplayedBlinks(Added(Blinks([], vmem), shots), shot.Entry(), n);
  }
}
