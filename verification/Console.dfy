/**
 The console as the kernel keeps it: video memory with the cursor globals for the displayed
 terminal, a saved copy for each hidden one, and the keyboard buffer mirrored into the displayed
 terminal's line buffer (lib.c, terminal.c, keyboard.c). Every operation is proved to be the
 step of the same name on the logical View of module Terminals.
 */
module Console {
  import opened Bytes
  import opened Limits
  import opened Screen
  import opened Terminals

  /** The loop nest of vertical_scrolling and vertical_scrolling_term, on either one's cells. */
  method ScrollRows(mem: array<Cell>)
    requires mem.Length == PAGE
    modifies mem
    ensures mem[..] == RowsUp(old(mem[..]))
  {
    var i := 0;
    while i < ROWS - 1
      invariant 0 <= i <= ROWS - 1
      invariant forall k :: 0 <= k < PAGE ==> mem[k] == if k < COLS * i then old(mem[k + COLS]) else old(mem[k])
    {
      var j := 0;
      while j < COLS
        invariant 0 <= j <= COLS
        invariant forall k :: 0 <= k < PAGE ==>
          mem[k] == if k < COLS * i + j then old(mem[k + COLS]) else old(mem[k])
      {
        mem[COLS * i + j] := mem[COLS * (i + 1) + j];
        j := j + 1;
      }
      i := i + 1;
    }
    var j := 0;
    while j < COLS
      invariant 0 <= j <= COLS
      invariant forall k :: 0 <= k < PAGE ==>
        mem[k] == if k < CELLS - COLS then old(mem[k + COLS])
                  else if k < CELLS - COLS + j then BLANK else old(mem[k])
    {
      mem[COLS * (ROWS - 1) + j] := BLANK;
      j := j + 1;
    }
  }

  /** terminal_t: what is kept for a terminal while it is hidden; the line buffer is always live. */
  class Terminal {
    const video: array<Cell>
    const line: array<byte>
    var cursorX: nat
    var cursorY: nat
    var bufPos: nat

    constructor ()
      ensures fresh(video) && fresh(line) && video.Length == PAGE && line.Length == LINE_BYTES
      ensures cursorX == 0 && cursorY == 0 && bufPos == 0 && line[..] == Zeros()
    {
      video := new Cell[PAGE](_ => Cell(0, 0));
      line := new byte[LINE_BYTES](_ => NUL);
      cursorX, cursorY, bufPos := 0, 0, 0;
    }

    /** The saved screen. */
    ghost function Saved(): Screen
      reads this, video
    {
      Screen(video[..], cursorX, cursorY)
    }

    /** vertical_scrolling_term */
    method VerticalScrolling()
      requires video.Length == PAGE && cursorX < COLS
      modifies this`cursorY, video
      ensures Saved() == Scroll(old(video[..]), old(cursorX), old(cursorY))
    {
      if cursorY >= ROWS {
        cursorY := ROWS - 1;
        ScrollRows(video);
      }
    }

    /** putc_term: the step of putc, on the saved screen. */
    method PutChar(c: byte)
      requires Saved().InGrid()
      modifies this`cursorX, this`cursorY, video
      ensures Saved() == Put(old(Saved()), c)
    {
      if c == NL || c == CR {
        cursorY := cursorY + 1;
        cursorX := 0;
        VerticalScrolling();
      } else {
        video[COLS * cursorY + cursorX] := Cell(c, ATTRIB);
        assert video[..] == old(video[..])[old(Saved()).Pos() := Cell(c, ATTRIB)];
        cursorX := cursorX + 1;
        if cursorX >= COLS {
          cursorX := 0;
          cursorY := cursorY + 1;
        }
        VerticalScrolling();
      }
    }
  }

  class Console {
    const video: array<Cell>
    const keyboard: array<byte>
    const terms: seq<Terminal>
    var screenX: nat
    var screenY: nat
    var current: nat
    var scheduled: nat
    var bufferPosition: nat
    var ctrlPressed: bool
    var shiftPressed: bool
    var capsState: bool
    var altPressed: bool

    /** terminal_init, on a video memory that was cleared before. */
    constructor (video: array<Cell>)
      requires video.Length == PAGE
      ensures Valid() && this.video == video && current == scheduled == 0
      ensures Mods() == Modifiers(false, false, false, false) && fresh(keyboard)
      ensures forall t :: 0 <= t < TERMINALS ==> fresh(terms[t]) && fresh(terms[t].video) && fresh(terms[t].line)
      ensures Shown() == Screen(video[..], 0, 0)
      ensures forall t :: 0 <= t < TERMINALS ==> LineOf(t) == Line(Zeros(), 0)
    {
      var t0 := new Terminal();
      var t1 := new Terminal();
      var t2 := new Terminal();
      this.video, terms := video, [t0, t1, t2];
      keyboard := new byte[LINE_BYTES](_ => NUL);
      screenX, screenY, current, scheduled, bufferPosition := 0, 0, 0, 0, 0;
      ctrlPressed, shiftPressed, capsState, altPressed := false, false, false, false;
      new;
      assert keyboard[..] == Zeros();
      assert Shape();
      StartIsValid();
    }

    lemma StartIsValid()
      requires Shape() && current == scheduled == screenX == screenY == bufferPosition == 0
      requires keyboard[..] == Zeros()
      requires forall t :: 0 <= t < TERMINALS ==>
        terms[t].cursorX == terms[t].cursorY == terms[t].bufPos == 0 && terms[t].line[..] == Zeros()
      ensures Valid() && forall t :: 0 <= t < TERMINALS ==> LineOf(t) == Line(Zeros(), 0)
    {
      hide Zeros;
    }

    /** Sizes, and no two buffers are the same. */
    ghost predicate Shape() {
      && video.Length == PAGE && keyboard.Length == LINE_BYTES && |terms| == TERMINALS
      && (forall i :: 0 <= i < TERMINALS ==>
            && terms[i].video.Length == PAGE && terms[i].video != video
            && terms[i].line.Length == LINE_BYTES && terms[i].line != keyboard)
      && (forall i, j :: 0 <= i < j < TERMINALS ==>
            terms[i] != terms[j] && terms[i].video != terms[j].video && terms[i].line != terms[j].line)
    }

    ghost function Repr(): set<object>
      requires |terms| == TERMINALS
    {
      {this, video, keyboard}
      + {terms[0], terms[0].video, terms[0].line}
      + {terms[1], terms[1].video, terms[1].line}
      + {terms[2], terms[2].video, terms[2].line}
    }

    /** What the video memory shows. */
    ghost function Shown(): Screen
      reads this, video
    {
      Screen(video[..], screenX, screenY)
    }

    ghost function ScreenOf(t: nat): Screen
      requires Shape() && t < TERMINALS
      reads Repr()
    {
      if t == current then Shown() else terms[t].Saved()
    }

    ghost function LineOf(t: nat): Line
      requires Shape() && t < TERMINALS
      reads Repr()
    {
      Line(terms[t].line[..], if t == current then bufferPosition else terms[t].bufPos)
    }

    ghost function Mods(): Modifiers
      reads this
    {
      Modifiers(ctrlPressed, shiftPressed, capsState, altPressed)
    }

    ghost function Logical(): View
      requires Shape()
      reads Repr()
    {
      View(current, [ScreenOf(0), ScreenOf(1), ScreenOf(2)], [LineOf(0), LineOf(1), LineOf(2)], keyboard[..],
           Mods())
    }

    ghost predicate Valid()
      reads if |terms| == TERMINALS then Repr() else {}
    {
      Shape() && scheduled < TERMINALS && Logical().Ok()
    }

    /** What validity says about the fields the displayed terminal is kept in. */
    lemma InRange()
      requires Valid()
      ensures bufferPosition <= LINE_MAX && current < TERMINALS && Shown().InGrid()
      ensures Logical().displayed == current && |Logical().screens| == |Logical().lines| == TERMINALS
      ensures Logical().Line() == LineOf(current) && Logical().screens[current] == Shown()
      ensures Logical().keys == keyboard[..]
      ensures Logical().mods == Mods()
    {
      assert Logical().lines[current] == LineOf(current) && Logical().screens[current] == ScreenOf(current);
    }

    /** Nothing that belongs to terminal t while it is hidden changed. */
    twostate predicate Kept(t: nat)
      requires Shape() && t < TERMINALS
      reads Repr()
    {
      && terms[t].Saved() == old(terms[t].Saved()) && terms[t].bufPos == old(terms[t].bufPos)
      && terms[t].line[..] == old(terms[t].line[..])
    }

    /** A change to the modifier states only. */
    twostate lemma ModifiersChanged()
      requires Shape() && current == old(current) < TERMINALS && bufferPosition == old(bufferPosition)
      requires Shown() == old(Shown()) && keyboard[..] == old(keyboard[..])
      requires forall t :: 0 <= t < TERMINALS ==> Kept(t)
      ensures Logical() == old(Logical()).(mods := Mods())
    {
      ghost var v := old(Logical());
      forall t | 0 <= t < TERMINALS ensures ScreenOf(t) == v.screens[t] && LineOf(t) == v.lines[t] {
        assert Kept(t);
      }
    }

    lemma HiddenIs(t: nat)
      requires Valid() && t < TERMINALS && t != current
      ensures Logical().screens[t] == terms[t].Saved() && terms[t].Saved().InGrid() && current < TERMINALS
    {
      assert Logical().screens[t] == ScreenOf(t);
    }

    /** A change to the screen of hidden terminal i only. */
    twostate lemma HiddenChanged(i: nat)
      requires Shape() && i < TERMINALS && i != current == old(current) && current < TERMINALS && Mods() == old(Mods())
      requires Shown() == old(Shown()) && keyboard[..] == old(keyboard[..]) && bufferPosition == old(bufferPosition)
      requires terms[i].line[..] == old(terms[i].line[..]) && terms[i].bufPos == old(terms[i].bufPos)
      requires forall t :: 0 <= t < TERMINALS && t != i ==> Kept(t)
      ensures Logical() == old(Logical()).(screens := old(Logical().screens)[i := terms[i].Saved()])
    {
      ghost var v := old(Logical());
      forall t | 0 <= t < TERMINALS
        ensures ScreenOf(t) == (if t == i then terms[i].Saved() else v.screens[t]) && LineOf(t) == v.lines[t]
      {
        if t != i { assert Kept(t); }
      }
    }

    /** A change to the displayed terminal only. */
    twostate lemma DisplayedChanged()
      requires Shape() && current == old(current) < TERMINALS && Mods() == old(Mods())
      requires forall t :: 0 <= t < TERMINALS && t != current ==> Kept(t)
      ensures var v := old(Logical());
              Logical() == v.(keys := keyboard[..], lines := v.lines[current := LineOf(current)],
                              screens := v.screens[current := Shown()])
    {
      ghost var v := old(Logical());
      forall t | 0 <= t < TERMINALS && t != current
        ensures ScreenOf(t) == v.screens[t] && LineOf(t) == v.lines[t]
      {
        assert Kept(t);
      }
    }

    // -------------------------------------------------------------- lib.c

    method VerticalScrolling()
      requires Shape() && screenX < COLS
      modifies this`screenY, video
      ensures Shown() == Scroll(old(video[..]), old(screenX), old(screenY))
    {
      if screenY >= ROWS {
        screenY := ROWS - 1;
        ScrollRows(video);
      }
    }

    method PutChar(c: byte)
      requires Shape() && Shown().InGrid()
      modifies this`screenX, this`screenY, video
      ensures Shown() == Put(old(Shown()), c)
    {
      if c == NL || c == CR {
        screenY := screenY + 1;
        screenX := 0;
        VerticalScrolling();
      } else {
        video[COLS * screenY + screenX] := Cell(c, ATTRIB);
        assert video[..] == old(video[..])[old(Shown()).Pos() := Cell(c, ATTRIB)];
        screenX := screenX + 1;
        if screenX >= COLS {
          screenX := 0;
          screenY := screenY + 1;
        }
        VerticalScrolling();
      }
    }

    method BackspaceHandler()
      requires Shape() && Shown().InGrid()
      modifies this`screenX, this`screenY, video
      ensures Shown() == Erase(old(Shown()))
    {
      if screenX == 0 && screenY == 0 {
        return;
      }
      if screenX == 0 {
        screenY := screenY - 1;
        screenX := COLS - 1;
      } else {
        screenX := screenX - 1;
      }
      var p := COLS * screenY + screenX;
      video[p] := video[p].(ch := SP);
      assert video[..] == old(video[..])[p := Cell(SP, old(video[p]).attr)];
    }

    method CleanScreen()
      requires Shape()
      modifies this`screenX, this`screenY, video
      ensures Shown() == Clean(old(Shown()))
    {
      var i := 0;
      while i < ROWS
        invariant 0 <= i <= ROWS
        invariant forall k :: 0 <= k < PAGE ==> video[k] == if k < COLS * i then BLANK else old(video[k])
      {
        var j := 0;
        while j < COLS
          invariant 0 <= j <= COLS
          invariant forall k :: 0 <= k < PAGE ==> video[k] == if k < COLS * i + j then BLANK else old(video[k])
        {
          video[COLS * i + j] := BLANK;
          j := j + 1;
        }
        i := i + 1;
      }
      screenX := 0;
      screenY := 0;
    }

    // -------------------------------------------------------------- terminal.c

    /** putc on the displayed terminal and putc_term on a hidden one are the same logical step. */
    method PutOnDisplayed(c: byte)
      requires Valid()
      modifies Repr()
      ensures Valid() && scheduled == old(scheduled) && current == old(current)
      ensures Logical() == PutOn(old(Logical()), current, c)
    {
      hide Put, Logical;
      InRange();
      ghost var before := Logical();
      PutChar(c);
      DisplayedChanged();
      assert before.lines[current := LineOf(current)] == before.lines;
    }

    method PutOnHidden(c: byte, t: nat)
      requires Valid() && t < TERMINALS && t != current
      modifies Repr()
      ensures Valid() && scheduled == old(scheduled) && current == old(current)
      ensures Logical() == PutOn(old(Logical()), t, c)
    {
      hide Put, Logical;
      HiddenIs(t);
      terms[t].PutChar(c);
      HiddenChanged(t);
    }

    method TerminalWrite(buf: array?<byte>, nbytes: int) returns (count: int)
      requires Valid() && (buf != null ==> nbytes <= buf.Length && buf !in Repr())
      modifies Repr()
      ensures Valid() && scheduled == old(scheduled)
      ensures buf == null ==> count == -1 && Logical() == old(Logical())
      ensures buf != null ==> count == (if nbytes < 0 then 0 else nbytes)
      ensures buf != null ==> Logical() == WriteTo(old(Logical()), scheduled, buf[..count])
    {
      if buf == null {
        return -1;
      }
      if current == scheduled {
        count := WriteDisplayed(buf, nbytes);
      } else {
        count := WriteHidden(buf, nbytes);
      }
    }

    /** The loop over putc. */
    method WriteDisplayed(buf: array<byte>, nbytes: int) returns (count: int)
      requires Valid() && nbytes <= buf.Length && buf !in Repr() && current == scheduled
      modifies Repr()
      ensures Valid() && scheduled == old(scheduled)
      ensures count == if nbytes < 0 then 0 else nbytes
      ensures Logical() == WriteTo(old(Logical()), scheduled, buf[..count])
    {
      hide Logical, WriteTo, PutOn, View.Ok;
      ghost var before, text := Logical(), buf[..];
      count := 0;
      WriteToNothing(before, scheduled);
      while count < nbytes
        invariant 0 <= count <= |text| && (count <= nbytes || count == 0)
        invariant Valid() && scheduled == old(scheduled) && current == scheduled
        invariant buf[..] == text && Logical() == WriteTo(before, scheduled, text[..count])
      {
        WriteToExtend(before, scheduled, text[..count], text[count]);
        TakeOneMore(text, count);
        PutOnDisplayed(buf[count]);
        count := count + 1;
      }
    }

    /** The loop over putc_term. */
    method WriteHidden(buf: array<byte>, nbytes: int) returns (count: int)
      requires Valid() && nbytes <= buf.Length && buf !in Repr() && current != scheduled
      modifies Repr()
      ensures Valid() && scheduled == old(scheduled)
      ensures count == if nbytes < 0 then 0 else nbytes
      ensures Logical() == WriteTo(old(Logical()), scheduled, buf[..count])
    {
      hide Logical, WriteTo, PutOn, View.Ok;
      ghost var before, text := Logical(), buf[..];
      count := 0;
      WriteToNothing(before, scheduled);
      while count < nbytes
        invariant 0 <= count <= |text| && (count <= nbytes || count == 0)
        invariant Valid() && scheduled == old(scheduled) && current != scheduled
        invariant buf[..] == text && Logical() == WriteTo(before, scheduled, text[..count])
      {
        WriteToExtend(before, scheduled, text[..count], text[count]);
        TakeOneMore(text, count);
        PutOnHidden(buf[count], scheduled);
        count := count + 1;
      }
    }

    method ReadToCurTerminalBuffer(index: nat, input: byte)
      requires Shape() && current < TERMINALS && index < LINE_BYTES
      modifies terms[current].line
      ensures terms[current].line[..] == old(terms[current].line[..])[index := input]
    {
      terms[current].line[index] := input;
    }

    method SaveTerminal(tid: nat)
      requires Shape() && tid < TERMINALS
      modifies this`bufferPosition, keyboard, terms[tid], terms[tid].video
      ensures terms[tid].Saved() == old(Shown()) && terms[tid].bufPos == old(bufferPosition)
      ensures keyboard[..] == Zeros()
    {
      terms[tid].cursorX := screenX;
      terms[tid].cursorY := screenY;
      terms[tid].bufPos := SaveBufPos();
      CopyPage(terms[tid].video, video);
      CleanKeyboardBuffer();
    }

    method RestoreTerminal(tid: nat)
      requires Shape() && tid < TERMINALS
      modifies this`bufferPosition, this`screenX, this`screenY, keyboard, video
      ensures Shown() == terms[tid].Saved() && bufferPosition == terms[tid].bufPos
      ensures keyboard[..] == Zeros()
    {
      CleanKeyboardBuffer();
      screenX := terms[tid].cursorX;
      screenY := terms[tid].cursorY;
      GiveBufPos(terms[tid].bufPos);
      CopyPage(video, terms[tid].video);
    }

    /** The console side of terminal_switch; the process side is Processes.Kernel.TerminalSwitch. */
    method TerminalSwitch(newId: nat)
      requires Valid() && newId < TERMINALS
      modifies Repr()
      ensures Valid() && scheduled == old(scheduled)
      ensures Logical() == SwitchTo(old(Logical()), newId)
    {
      if newId == current {
        return;
      }
      hide Logical;
      SaveTerminal(current);
      RestoreTerminal(newId);
      current := newId;
      Switched(newId);
    }

    /** The displayed terminal was saved, another one restored. */
    twostate lemma Switched(newId: nat)
      requires Shape() && old(current) != current == newId < TERMINALS && old(current) < TERMINALS
        && Mods() == old(Mods())
      requires Shown() == old(terms[newId].Saved()) && bufferPosition == old(terms[newId].bufPos)
      requires terms[old(current)].Saved() == old(Shown()) && terms[old(current)].bufPos == old(bufferPosition)
      requires keyboard[..] == Zeros() && terms[old(current)].line[..] == old(terms[current].line[..])
      requires forall t :: 0 <= t < TERMINALS && t != old(current) ==> Kept(t)
      ensures Logical() == SwitchTo(old(Logical()), newId)
    {
      ghost var v := old(Logical());
      forall t | 0 <= t < TERMINALS ensures ScreenOf(t) == v.screens[t] && LineOf(t) == v.lines[t] {
        if t != old(current) { assert Kept(t); }
      }
    }

    /**
     terminal_read: the displayed terminal's line goes to index at of the memory in which the caller
     has nbytes bytes there. The count is checked and then does not limit the copy. A read whose
     arguments are accepted waits until the line is entered.
     */
    method TerminalRead(memory: array?<byte>, at: nat, nbytes: int) returns (r: int)
      requires Valid() && (memory != null ==> memory !in Repr())
      requires memory != null && 0 <= nbytes < 1024 ==> Logical().Entered() && at + bufferPosition <= memory.Length
      modifies Repr(), memory
      ensures Valid() && scheduled == old(scheduled)
      ensures r == -1 <==> memory == null || nbytes < 0 || nbytes >= 1024
      ensures r == -1 ==> Logical() == old(Logical()) && (memory != null ==> memory[..] == old(memory[..]))
      ensures r != -1 ==> r == old(bufferPosition) && Logical() == ReadLine(old(Logical()))
      ensures r != -1 ==> r == |old(Logical().Line().Text())|
                          && memory[..] == Stored(old(memory[..]), at, old(Logical().Line().Text()))
      ensures r > nbytes && r != -1 ==> memory[at + nbytes] == old(Logical().Line().Text())[nbytes]
      ensures 0 <= r <= nbytes && at + nbytes <= memory.Length ==> memory[at + nbytes..] == old(memory[at + nbytes..])
    {
      if memory == null || nbytes < 0 || nbytes >= 1024 {
        return -1;
      }
      hide *;
      ghost var before, was := Logical(), memory[..];
      r := CopyLine(memory, at);
      StoreBehind(was, at, before.Line().Text(), nbytes);
      assert Logical() == before;
      CleanBuffer();
      ForgetPosition();
      ReadWipes(before);
    }

    /** The saved position of the displayed terminal, which nothing reads before it is saved again. */
    method ForgetPosition()
      requires Valid()
      modifies terms[current]
      ensures Valid() && Logical() == old(Logical())
    {
      terms[current].bufPos := 0;
      assert Logical().lines == old(Logical().lines);
    }

    /** The copy loop: it stops at the first newline, which is the end of the edited line. */
    method CopyLine(memory: array<byte>, at: nat) returns (i: nat)
      requires Valid() && Logical().Entered()
      requires memory !in Repr() && at + bufferPosition <= memory.Length
      modifies memory
      ensures i == bufferPosition == |Logical().Line().Text()|
      ensures memory[..] == Stored(old(memory[..]), at, Logical().Line().Text())
    {
      InRange();
      FirstNewlineEndsLine(Logical());
      var source := terms[current].line;
      hide Logical;
      i := 0;
      while source[i] != NL
        invariant i <= bufferPosition
        invariant forall k :: 0 <= k < memory.Length ==>
          memory[k] == if at <= k < at + i then source[k - at] else old(memory[k])
        decreases bufferPosition - i
      {
        memory[at + i] := source[i];
        i := i + 1;
      }
      assert i == bufferPosition;
      StoredIs(old(memory[..]), at, source[..i], memory[..]);
    }

    // -------------------------------------------------------------- keyboard.c

    method SaveBufPos() returns (pos: nat)
      ensures pos == bufferPosition
    {
      pos := bufferPosition;
    }

    method GiveBufPos(pos: nat)
      modifies this`bufferPosition
      ensures bufferPosition == pos
    {
      bufferPosition := pos;
    }

    method CheckEnter() returns (entered: bool)
      requires Valid()
      ensures entered <==> Logical().Entered()
    {
      InRange();
      entered := keyboard[bufferPosition] == NL;
    }

    method CleanKeyboardBuffer()
      requires keyboard.Length == LINE_BYTES
      modifies this`bufferPosition, keyboard
      ensures keyboard[..] == Zeros() && bufferPosition == 0
    {
      var i := 0;
      while i < LINE_BYTES
        invariant 0 <= i <= LINE_BYTES
        invariant forall k :: 0 <= k < i ==> keyboard[k] == NUL
      {
        keyboard[i] := NUL;
        i := i + 1;
      }
      bufferPosition := 0;
    }

    method CleanBuffer()
      requires Valid()
      modifies this`bufferPosition, keyboard, terms[current].line
      ensures Valid() && Logical() == WipeLine(old(Logical()))
    {
      hide Logical;
      InRange();
      ghost var before := Logical();
      var i := 0;
      while i < LINE_BYTES
        invariant 0 <= i <= LINE_BYTES
        invariant forall k :: 0 <= k < i ==> keyboard[k] == NUL && terms[current].line[k] == NUL
      {
        keyboard[i] := NUL;
        ReadToCurTerminalBuffer(i, keyboard[i]);
        i := i + 1;
      }
      bufferPosition := 0;
      assert keyboard[..] == Zeros() && terms[current].line[..] == Zeros();
      DisplayedChanged();
      assert before.screens[current := Shown()] == before.screens;
    }

    /** Stores one character in the keyboard buffer and mirrors it in the displayed terminal's line. */
    method StoreKey(c: byte)
      requires Shape() && current < TERMINALS && bufferPosition < LINE_BYTES
      modifies keyboard, terms[current].line
      ensures keyboard[..] == old(keyboard[..])[bufferPosition := c]
      ensures terms[current].line[..] == old(terms[current].line[..])[bufferPosition := c]
    {
      keyboard[bufferPosition] := c;
      ReadToCurTerminalBuffer(bufferPosition, keyboard[bufferPosition]);
    }

    /** Stores, mirrors and echoes one character when the line has room. */
    method TypeOne(c: byte)
      requires Valid() && c != NL
      modifies Repr()
      ensures Valid() && scheduled == old(scheduled)
      ensures Logical() == TypeChar(old(Logical()), c)
    {
      hide Put, Logical, View.Ok;
      InRange();
      ghost var before := Logical();
      TypeCharOk(before, c);
      if bufferPosition < LINE_MAX {
        StoreKey(c);
        bufferPosition := bufferPosition + 1;
        PutChar(c);
        DisplayedChanged();
      }
    }

    method EnterKey()
      requires Valid()
      modifies Repr()
      ensures Valid() && scheduled == old(scheduled)
      ensures Logical() == PressEnter(old(Logical()))
    {
      hide Put, Logical, View.Ok;
      InRange();
      ghost var before := Logical();
      EnterOk(before);
      StoreKey(NL);
      PutChar(NL);
      DisplayedChanged();
    }

    method BackspaceKey()
      requires Valid()
      modifies Repr()
      ensures Valid() && scheduled == old(scheduled)
      ensures Logical() == PressBackspace(old(Logical()))
    {
      hide Erase, Logical, View.Ok;
      InRange();
      ghost var before := Logical();
      BackspaceOk(before);
      if bufferPosition > 0 {
        bufferPosition := bufferPosition - 1;
        BackspaceHandler();
        DisplayedChanged();
        assert before.keys == keyboard[..];
      }
    }

    method TabKey()
      requires Valid()
      modifies Repr()
      ensures Valid() && scheduled == old(scheduled)
      ensures Logical() == TypeTab(old(Logical()), 4)
    {
      hide TypeChar;
      var i := 0;
      while i < 4
        invariant 0 <= i <= 4
        invariant Valid() && scheduled == old(scheduled)
        invariant Logical() == TypeTab(old(Logical()), i)
      {
        TypeOne(SP);
        i := i + 1;
      }
    }

    method CtrlL()
      requires Valid()
      modifies Repr()
      ensures Valid() && scheduled == old(scheduled)
      ensures Logical() == PressCtrlL(old(Logical()))
    {
      hide Clean, Logical;
      InRange();
      ghost var before := Logical();
      CleanScreen();
      DisplayedChanged();
      assert before.lines[current := LineOf(current)] == before.lines;
      CleanBuffer();
    }

    /** The modifier cases of handle_special_key. */
    method ModifierKey(scancode: nat) returns (handled: bool)
      modifies this`capsState, this`shiftPressed, this`altPressed, this`ctrlPressed
      ensures handled <==> Modifier(scancode)
      ensures Mods() == NextModifiers(old(Mods()), scancode)
    {
      handled := true;
      if scancode == CAPS_PRESSED {
        capsState := !capsState;
      } else if scancode == CAPS_RELEASED {
      } else if scancode == LSHIFT_PRESSED || scancode == RSHIFT_PRESSED {
        shiftPressed := true;
      } else if scancode == LSHIFT_RELEASED || scancode == RSHIFT_RELEASED {
        shiftPressed := false;
      } else if scancode == ALT_PRESSED {
        altPressed := true;
      } else if scancode == ALT_RELEASED {
        altPressed := false;
      } else if scancode == CTRL_PRESSED {
        ctrlPressed := true;
      } else if scancode == CTRL_RELEASED {
        ctrlPressed := false;
      } else {
        handled := false;
      }
    }

    /** handle_special_key */
    method HandleSpecialKey(scancode: nat) returns (handled: bool)
      requires Valid()
      modifies Repr()
      ensures Valid() && scheduled == old(scheduled)
      ensures handled <==> Special(scancode)
      ensures Logical() == if handled then SpecialKey(old(Logical()), scancode) else old(Logical())
    {
      hide PressBackspace, TypeTab, SwitchTo, Logical, NextModifiers;
      InRange();
      ghost var before := Logical();
      handled := ModifierKey(scancode);
      ModifiersChanged();
      if handled {
        return;
      }
      OtherKey(before.mods, scancode);
      handled := true;
      if scancode == BACKSPACE {
        BackspaceKey();
      } else if scancode == TAB {
        TabKey();
      } else if scancode == F1 {
        if altPressed { TerminalSwitch(0); }
      } else if scancode == F2 {
        if altPressed { TerminalSwitch(1); }
      } else if scancode == F3 {
        if altPressed { TerminalSwitch(2); }
      } else {
        handled := false;
      }
    }

    /** handle_keyboard_irq for the byte read from the keyboard port. */
    method HandleKeyboardIrq(scancode: nat)
      requires Valid() && scancode < 256
      modifies Repr()
      ensures Valid() && scheduled == old(scheduled)
      ensures Logical() == Key(old(Logical()), scancode)
    {
      hide SpecialKey, PressCtrlL, PressEnter, TypeChar;
      var handled := HandleSpecialKey(scancode);
      if handled {
        return;
      }
      if scancode < KEY_COUNT {
        var key := if shiftPressed && capsState then KeyTable(scancode).both
                   else if shiftPressed then KeyTable(scancode).shifted
                   else if capsState then KeyTable(scancode).capital
                   else KeyTable(scancode).plain;
        if ctrlPressed && (key == UPPER_L || key == LOWER_L) {
          CtrlL();
          return;
        }
        if key == NL {
          EnterKey();
          return;
        }
        TypeOne(key);
      }
    }

    // -------------------------------------------------------------- runs

    /** One event, whatever it is; lines is what a read returned. */
    method Perform(e: Event) returns (lines: seq<seq<byte>>)
      requires Valid() && e.Legal()
      modifies Repr()
      ensures Valid() && Logical() == Step(old(Logical()), e) && lines == Returned(old(Logical()), e)
    {
      hide Logical, View.Ok, Key, WriteTo, SwitchTo, ReadLine;
      lines := [];
      match e {
        case KeyEvent(scancode) => HandleKeyboardIrq(scancode);
        case WriteEvent(t, text) => WriteText(t, text);
        case SwitchEvent(t) => TerminalSwitch(t);
        case ReadEvent => lines := ReadText();
      }
    }

    /** A write by a process of terminal t, which the scheduler chose. */
    method WriteText(t: nat, text: seq<byte>)
      requires Valid() && t < TERMINALS
      modifies Repr()
      ensures Valid() && Logical() == WriteTo(old(Logical()), t, text)
    {
      hide Logical, View.Ok, WriteTo;
      Schedule(t);
      var buf := new byte[|text|](i requires 0 <= i < |text| => text[i]);
      assert buf[..|text|] == text;
      var count := TerminalWrite(buf, |text|);
    }

    /** A read into a buffer that holds any line, if its wait is over. */
    method ReadText() returns (lines: seq<seq<byte>>)
      requires Valid()
      modifies Repr()
      ensures Valid() && Logical() == ReadLine(old(Logical()))
      ensures lines == if old(Logical().Entered()) then [old(Logical().Line().Text())] else []
    {
      hide Logical, View.Ok;
      lines := [];
      var entered := CheckEnter();
      if entered {
        InRange();
        var memory := new byte[LINE_BYTES];
        var r := TerminalRead(memory, 0, LINE_MAX);
        assert memory[..r] == old(Logical().Line().Text());
        lines := [memory[..r]];
      }
    }

    method Schedule(t: nat)
      requires Valid() && t < TERMINALS
      modifies this`scheduled
      ensures Valid() && scheduled == t && Logical() == old(Logical())
    {
      scheduled := t;
      assert Logical().screens == old(Logical().screens) && Logical().lines == old(Logical().lines);
    }

    /**
     Any run of events, on video memory, backing pages and buffers, is the run of the logical steps, and
     its reads return the lines that run hands over.
     */
    method Play(es: Events) returns (lines: seq<seq<byte>>)
      requires Valid()
      modifies Repr()
      ensures Valid() && Logical() == Run(old(Logical()), es) && lines == AllReturned(old(Logical()), es)
    {
      hide Logical, View.Ok, Step, Returned;
      ghost var goal, all := Run(Logical(), es), AllReturned(Logical(), es);
      assert es[0..] == es;
      lines := [];
      for i := 0 to |es|
        invariant Valid() && Run(Logical(), es[i..]) == goal
        invariant lines + AllReturned(Logical(), es[i..]) == all
      {
        assert es[i..][0] == es[i] && es[i..][1..] == es[i + 1..];
        ghost var v, before := Logical(), lines;
        var more := Perform(es[i]);
        ConcatAssoc(before, more, AllReturned(Logical(), es[i + 1..]));
        lines := lines + more;
      }
    }
  }

  /** The keys a, b and Enter on an empty line, and a read of one byte: the byte behind it is overwritten. */
  method ReadBeyondCount(c: Console) returns (memory: array<byte>)
    requires c.Valid() && c.Logical().Line() == Line(Zeros(), 0)
    requires c.Logical().mods == Modifiers(false, false, false, false)
    modifies c.Repr()
    ensures fresh(memory) && memory.Length == 2 && memory[1] == 98
  {
    hide Console.Logical, View.Ok, Key, Zeros;
    ghost var v := c.Logical();
    TypedLine(v);
    c.HandleKeyboardIrq(A_KEY);
    c.HandleKeyboardIrq(B_KEY);
    c.HandleKeyboardIrq(ENTER_KEY);
    c.InRange();
    memory := new byte[2](_ => NUL);
    var r := c.TerminalRead(memory, 0, 1);
    assert memory[..][1] == memory[1];
  }

  /** memcpy of a whole 4 KB page of cells. */
  method CopyPage(dst: array<Cell>, src: array<Cell>)
    requires dst.Length == src.Length == PAGE
    modifies dst
    ensures dst[..] == old(src[..])
  {
    var i := 0;
    while i < PAGE
      invariant 0 <= i <= PAGE
      invariant forall k :: 0 <= k < PAGE ==> dst[k] == if k < i then old(src[k]) else old(dst[k])
      invariant dst != src ==> src[..] == old(src[..])
    {
      dst[i] := src[i];
      i := i + 1;
    }
  }
}
