/**
 The three virtual terminals and the line editor as values (terminal.c, keyboard.c): what each
 keyboard interrupt, write, read and switch does to the logical screen and line of each terminal,
 and what that means over whole runs.
 */
module Terminals {
  import opened Bytes
  import opened Limits
  import opened Screen

  const LINE_BYTES: nat := 128   // cells of a line buffer
  const LINE_MAX: nat := 127     // characters a line can hold

  /** A line buffer and the edit position in it. */
  datatype Line = Line(buf: seq<byte>, pos: nat) {
    ghost predicate Ok() {
      |buf| == LINE_BYTES && pos <= LINE_MAX && NL !in buf[..pos]
    }

    /** The line as edited so far. */
    function Text(): seq<byte>
      requires pos <= |buf|
    {
      buf[..pos]
    }
  }

  datatype Modifiers = Modifiers(ctrl: bool, shift: bool, caps: bool, alt: bool)

  /**
   The logical state: each terminal's screen and line wherever they are kept, the keyboard buffer,
   and the modifier keys.
   */
  datatype View = View(displayed: nat, screens: seq<Screen>, lines: seq<Line>, keys: seq<byte>, mods: Modifiers) {
    ghost predicate Ok() {
      && displayed < TERMINALS && |screens| == |lines| == TERMINALS
      && (forall t :: 0 <= t < TERMINALS ==> screens[t].InGrid() && lines[t].Ok())
      && |keys| == LINE_BYTES
      && (forall i :: 0 <= i < LINE_BYTES && keys[i] == NL ==> lines[displayed].buf[i] == NL)
    }

    function Line(): Line
      requires displayed < |lines|
    {
      lines[displayed]
    }

    /** What check_enter tests: the keyboard buffer holds a newline at the edit position. */
    predicate Entered()
      requires displayed < |lines| && lines[displayed].pos < |keys|
    {
      keys[Line().pos] == NL
    }
  }

  function Zeros(): (z: seq<byte>)
    ensures |z| == LINE_BYTES && NL !in z
  {
    seq(LINE_BYTES, _ => NUL)
  }

  // ---------------------------------------------------------------- keys

  const CAPS_PRESSED: nat := 0x3A
  const CAPS_RELEASED: nat := 0xBA
  const LSHIFT_PRESSED: nat := 0x2A
  const RSHIFT_PRESSED: nat := 0x36
  const LSHIFT_RELEASED: nat := 0xAA
  const RSHIFT_RELEASED: nat := 0xB6
  const ALT_PRESSED: nat := 0x38
  const ALT_RELEASED: nat := 0xB8
  const CTRL_PRESSED: nat := 0x1D
  const CTRL_RELEASED: nat := 0x9D
  const TAB: nat := 0x0F
  const BACKSPACE: nat := 0x0E
  const F1: nat := 0x3B
  const F2: nat := 0x3C
  const F3: nat := 0x3D
  const KEY_COUNT: nat := 58

  /** A row of scancode_map: a key alone, with shift, with caps lock, with both. */
  datatype KeyRow = KeyRow(plain: byte, shifted: byte, capital: byte, both: byte)

  /** scancode_map; scancodes without a character have 0. */
  function KeyTable(scancode: nat): KeyRow {
    match scancode
    case 2 => KeyRow(49, 33, 49, 33)
    case 3 => KeyRow(50, 64, 50, 64)
    case 4 => KeyRow(51, 35, 51, 35)
    case 5 => KeyRow(52, 36, 52, 36)
    case 6 => KeyRow(53, 37, 53, 37)
    case 7 => KeyRow(54, 94, 54, 94)
    case 8 => KeyRow(55, 38, 55, 38)
    case 9 => KeyRow(56, 42, 56, 42)
    case 10 => KeyRow(57, 40, 57, 40)
    case 11 => KeyRow(48, 41, 48, 41)
    case 12 => KeyRow(45, 95, 45, 95)
    case 13 => KeyRow(61, 43, 61, 43)
    case 14 => KeyRow(8, 8, 8, 8)
    case 16 => KeyRow(113, 81, 81, 113)
    case 17 => KeyRow(119, 87, 87, 119)
    case 18 => KeyRow(101, 69, 69, 101)
    case 19 => KeyRow(114, 82, 82, 114)
    case 20 => KeyRow(116, 84, 84, 116)
    case 21 => KeyRow(121, 89, 89, 121)
    case 22 => KeyRow(117, 85, 85, 117)
    case 23 => KeyRow(105, 73, 73, 105)
    case 24 => KeyRow(111, 79, 79, 111)
    case 25 => KeyRow(112, 80, 80, 112)
    case 26 => KeyRow(91, 123, 91, 123)
    case 27 => KeyRow(93, 125, 93, 125)
    case 28 => KeyRow(10, 10, 10, 10)
    case 30 => KeyRow(97, 65, 65, 97)
    case 31 => KeyRow(115, 83, 83, 115)
    case 32 => KeyRow(100, 68, 68, 100)
    case 33 => KeyRow(102, 70, 70, 102)
    case 34 => KeyRow(103, 71, 71, 103)
    case 35 => KeyRow(104, 72, 72, 104)
    case 36 => KeyRow(106, 74, 74, 106)
    case 37 => KeyRow(107, 75, 75, 107)
    case 38 => KeyRow(108, 76, 76, 108)
    case 39 => KeyRow(59, 58, 58, 58)
    case 40 => KeyRow(39, 34, 39, 34)
    case 41 => KeyRow(96, 126, 96, 126)
    case 43 => KeyRow(92, 124, 92, 124)
    case 44 => KeyRow(122, 90, 90, 122)
    case 45 => KeyRow(120, 88, 88, 120)
    case 46 => KeyRow(99, 67, 67, 99)
    case 47 => KeyRow(118, 86, 86, 118)
    case 48 => KeyRow(98, 66, 86, 98)
    case 49 => KeyRow(110, 78, 78, 110)
    case 50 => KeyRow(109, 77, 77, 109)
    case 51 => KeyRow(44, 60, 44, 60)
    case 52 => KeyRow(46, 62, 46, 62)
    case 53 => KeyRow(47, 63, 47, 63)
    case 57 => KeyRow(32, 32, 32, 32)
    case _ => KeyRow(0, 0, 0, 0)
  }

  /** scancode_map: the character of a key under the shift and caps lock states. */
  function KeyChar(mods: Modifiers, scancode: nat): byte
    requires scancode < KEY_COUNT
  {
    var row := KeyTable(scancode);
    if mods.shift then (if mods.caps then row.both else row.shifted) else if mods.caps then row.capital else row.plain
  }

  predicate Letter(c: byte) { 97 <= c <= 122 }

  const B_KEY: nat := 0x30
  const SEMICOLON_KEY: nat := 0x27

  /**
   What caps lock is for, and the two keys that miss it: it capitalises a letter unless the key is B,
   whose capital is V, and leaves every other key alone but the semicolon. With shift, caps lock undoes
   the capital of every letter and changes nothing else.
   */
  lemma CapsLock(scancode: nat, m: Modifiers)
    requires scancode < KEY_COUNT && !m.caps
    ensures var plain, c, caps := KeyTable(scancode).plain, KeyChar(m, scancode), KeyChar(m.(caps := true), scancode);
            if Letter(plain) then
              if m.shift then c == plain - 32 && caps == plain
              else c == plain && (caps == plain - 32 <==> scancode != B_KEY)
            else caps == c <==> m.shift || scancode != SEMICOLON_KEY
  {
  }

  /** Consecutive keys from a scancode on carry these characters, alone and with shift. */
  ghost predicate KeysAre(scancode: nat, plain: string, shifted: string) {
    && |plain| == |shifted| && scancode + |plain| <= KEY_COUNT
    && forall i, m: Modifiers :: 0 <= i < |plain| && !m.caps ==>
         KeyChar(m, scancode + i) as int == if m.shift then shifted[i] as int else plain[i] as int
  }

  lemma NumberRow()
    ensures KeysAre(2, "1234567890-=", "!@#$%^&*()_+") && KeysAre(57, " ", " ")
  {
  }

  lemma UpperRow()
    ensures KeysAre(16, "qwertyuiop[]\n", "QWERTYUIOP{}\n")
  {
  }

  lemma HomeRow()
    ensures KeysAre(30, "asdfghjkl;'`", "ASDFGHJKL:\"~")
  {
  }

  lemma LowerRow()
    ensures KeysAre(43, "\\zxcvbnm,./", "|ZXCVBNM<>?")
  {
  }

  /** The keyboard is the American one: every key that types something, alone and with shift. */
  lemma KeyboardLayout()
    ensures KeysAre(2, "1234567890-=", "!@#$%^&*()_+")
    ensures KeysAre(16, "qwertyuiop[]\n", "QWERTYUIOP{}\n")
    ensures KeysAre(30, "asdfghjkl;'`", "ASDFGHJKL:\"~")
    ensures KeysAre(43, "\\zxcvbnm,./", "|ZXCVBNM<>?") && KeysAre(57, " ", " ")
  {
    hide *;
    NumberRow();
    UpperRow();
    HomeRow();
    LowerRow();
  }

  // ---------------------------------------------------------------- steps

  /** A character typed into a line buffer: stored at the edit position while there is room. */
  function TypeChar(v: View, c: byte): View
    requires v.Ok()
  {
    var l := v.Line();
    if l.pos < LINE_MAX then
      v.(keys := v.keys[l.pos := c],
         lines := v.lines[v.displayed := Line(l.buf[l.pos := c], l.pos + 1)],
         screens := v.screens[v.displayed := Put(v.screens[v.displayed], c)])
    else v
  }

  function TypeTab(v: View, k: nat): (r: View)
    requires v.Ok()
    ensures r.Ok() && r.mods == v.mods && r.displayed == v.displayed
  {
    if k == 0 then v
    else
      TypeCharOk(TypeTab(v, k - 1), SP);
      TypeChar(TypeTab(v, k - 1), SP)
  }

  function PressEnter(v: View): View
    requires v.Ok()
  {
    var l := v.Line();
    v.(keys := v.keys[l.pos := NL],
       lines := v.lines[v.displayed := l.(buf := l.buf[l.pos := NL])],
       screens := v.screens[v.displayed := Put(v.screens[v.displayed], NL)])
  }

  function PressBackspace(v: View): View
    requires v.Ok()
  {
    var l := v.Line();
    if l.pos > 0 then
      v.(lines := v.lines[v.displayed := l.(pos := l.pos - 1)],
         screens := v.screens[v.displayed := Erase(v.screens[v.displayed])])
    else v
  }

  /** clean_buffer: both copies of the line are zeroed. */
  function WipeLine(v: View): View
    requires v.Ok()
  {
    v.(keys := Zeros(), lines := v.lines[v.displayed := Line(Zeros(), 0)])
  }

  function PressCtrlL(v: View): View
    requires v.Ok()
  {
    WipeLine(v).(screens := v.screens[v.displayed := Clean(v.screens[v.displayed])])
  }

  /** terminal_switch: another terminal is displayed; an Enter not yet read is forgotten. */
  function SwitchTo(v: View, t: nat): View
    requires t < TERMINALS
  {
    if t == v.displayed then v else v.(displayed := t, keys := Zeros())
  }

  predicate Modifier(scancode: nat) {
    scancode in {CAPS_PRESSED, CAPS_RELEASED, LSHIFT_PRESSED, RSHIFT_PRESSED, LSHIFT_RELEASED, RSHIFT_RELEASED,
                 ALT_PRESSED, ALT_RELEASED, CTRL_PRESSED, CTRL_RELEASED}
  }

  predicate Special(scancode: nat) {
    Modifier(scancode) || scancode in {BACKSPACE, TAB, F1, F2, F3}
  }

  /** Caps lock toggles when it is pressed; shift, alt and ctrl are down from press to release. */
  function NextModifiers(m: Modifiers, scancode: nat): Modifiers {
    if scancode == CAPS_PRESSED then m.(caps := !m.caps)
    else if scancode == LSHIFT_PRESSED || scancode == RSHIFT_PRESSED then m.(shift := true)
    else if scancode == LSHIFT_RELEASED || scancode == RSHIFT_RELEASED then m.(shift := false)
    else if scancode == ALT_PRESSED then m.(alt := true)
    else if scancode == ALT_RELEASED then m.(alt := false)
    else if scancode == CTRL_PRESSED then m.(ctrl := true)
    else if scancode == CTRL_RELEASED then m.(ctrl := false)
    else m
  }

  lemma OtherKey(m: Modifiers, scancode: nat)
    requires !Modifier(scancode)
    ensures NextModifiers(m, scancode) == m
  {
  }

  function SpecialKey(v: View, scancode: nat): View
    requires v.Ok()
  {
    if Modifier(scancode) then v.(mods := NextModifiers(v.mods, scancode))
    else if scancode == BACKSPACE then PressBackspace(v)
    else if scancode == TAB then TypeTab(v, 4)
    else if scancode in {F1, F2, F3} && v.mods.alt then SwitchTo(v, scancode - F1)
    else v
  }

  const LOWER_L: byte := 108
  const UPPER_L: byte := 76

  /** One keyboard interrupt. */
  function Key(v: View, scancode: nat): View
    requires v.Ok()
  {
    if Special(scancode) then SpecialKey(v, scancode)
    else if scancode >= KEY_COUNT then v
    else
      var c := KeyChar(v.mods, scancode);
      if v.mods.ctrl && (c == LOWER_L || c == UPPER_L) then PressCtrlL(v)
      else if c == NL then PressEnter(v)
      else TypeChar(v, c)
  }

  function WriteTo(v: View, t: nat, text: seq<byte>): View
    requires v.Ok() && t < TERMINALS
  {
    v.(screens := v.screens[t := Puts(v.screens[t], text)])
  }

  /** One character put on terminal t's screen, wherever it is kept. */
  function PutOn(v: View, t: nat, c: byte): View
    requires v.Ok() && t < TERMINALS
  {
    v.(screens := v.screens[t := Put(v.screens[t], c)])
  }

  lemma WriteToNothing(v: View, t: nat)
    requires v.Ok() && t < TERMINALS
    ensures WriteTo(v, t, []) == v
  {
    assert v.screens[t := v.screens[t]] == v.screens;
  }

  lemma WriteToExtend(v: View, t: nat, text: seq<byte>, c: byte)
    requires v.Ok() && t < TERMINALS
    ensures WriteTo(v, t, text).Ok()
    ensures WriteTo(v, t, text + [c]) == PutOn(WriteTo(v, t, text), t, c)
  {
    assert (text + [c])[..|text|] == text;
  }

  /** The copy phase of terminal_read, once an Enter is seen: the line is handed over and wiped. */
  function ReadLine(v: View): View
    requires v.Ok()
  {
    if v.Entered() then WipeLine(v) else v
  }

  lemma ReadWipes(v: View)
    requires v.Ok() && v.Entered()
    ensures ReadLine(v) == WipeLine(v)
  {
  }

  // ---------------------------------------------------------------- the invariant

  lemma TypeCharOk(v: View, c: byte)
    requires v.Ok() && c != NL
    ensures TypeChar(v, c).Ok()
  {
    var l := v.Line();
    if l.pos < LINE_MAX {
      assert l.buf[l.pos := c][..l.pos + 1] == l.buf[..l.pos] + [c];
    }
  }

  lemma EnterOk(v: View)
    requires v.Ok()
    ensures PressEnter(v).Ok() && PressEnter(v).Entered()
  {
    var l := v.Line();
    assert l.buf[l.pos := NL][..l.pos] == l.buf[..l.pos];
  }

  lemma BackspaceOk(v: View)
    requires v.Ok()
    ensures PressBackspace(v).Ok()
  {
    var l := v.Line();
    if l.pos > 0 {
      assert l.buf[..l.pos - 1] == l.buf[..l.pos][..l.pos - 1];
    }
  }

  lemma KeyOk(v: View, scancode: nat)
    requires v.Ok()
    ensures Key(v, scancode).Ok()
  {
    EnterOk(v);
    BackspaceOk(v);
    if !Special(scancode) && scancode < KEY_COUNT && KeyChar(v.mods, scancode) != NL {
      TypeCharOk(v, KeyChar(v.mods, scancode));
    }
  }

  /**
   When the wait of terminal_read is over, the first newline of the terminal buffer is right behind
   the edited line: the copy loop stops, and stops there.
   */
  lemma FirstNewlineEndsLine(v: View)
    requires v.Ok() && v.Entered()
    ensures v.Line().buf[v.Line().pos] == NL
    ensures forall i :: 0 <= i < v.Line().pos ==> v.Line().buf[i] != NL
  {
    assert forall i :: 0 <= i < v.Line().pos ==> v.Line().buf[i] == v.Line().buf[..v.Line().pos][i];
  }

  // ---------------------------------------------------------------- whole runs

  datatype Event = KeyEvent(scancode: nat) | WriteEvent(t: nat, text: seq<byte>) | SwitchEvent(t: nat) | ReadEvent {
    predicate Legal() {
      if KeyEvent? then scancode < 256 else WriteEvent? || SwitchEvent? ==> t < TERMINALS
    }
  }

  type Events = es: seq<Event> | forall i :: 0 <= i < |es| ==> es[i].Legal()

  function Step(v: View, e: Event): (r: View)
    requires v.Ok() && e.Legal()
    ensures r.Ok()
  {
    match e
    case KeyEvent(scancode) => KeyOk(v, scancode); Key(v, scancode)
    case WriteEvent(t, text) => WriteTo(v, t, text)
    case SwitchEvent(t) => SwitchTo(v, t)
    case ReadEvent => ReadLine(v)
  }

  function Run(v: View, es: Events): (r: View)
    requires v.Ok()
    ensures r.Ok()
    decreases |es|
  {
    if es == [] then v else Run(Step(v, es[0]), es[1..])
  }

  /** What can happen to one terminal's screen, and to its line. */
  datatype ScreenOp = PutOp(c: byte) | EraseOp | CleanOp
  datatype EditOp = TypeOp(c: byte) | RubOp | WipeOp

  function Draw(s: Screen, ops: seq<ScreenOp>): (r: Screen)
    requires s.InGrid()
    ensures r.InGrid()
  {
    if ops == [] then s
    else
      var r := Draw(s, ops[..|ops| - 1]);
      match ops[|ops| - 1]
      case PutOp(c) => Put(r, c)
      case EraseOp => Erase(r)
      case CleanOp => Clean(r)
  }

  /** A line of at most 127 characters under editing. */
  function Edit(line: seq<byte>, ops: seq<EditOp>): seq<byte> {
    if ops == [] then line
    else
      var r := Edit(line, ops[..|ops| - 1]);
      match ops[|ops| - 1]
      case TypeOp(c) => if |r| < LINE_MAX then r + [c] else r
      case RubOp => if r == [] then [] else r[..|r| - 1]
      case WipeOp => []
  }

  /** A line holds the first 127 of the characters typed on it. */
  lemma {:induction false} LineHolds127(text: seq<byte>)
    ensures Edit([], seq(|text|, i requires 0 <= i < |text| => TypeOp(text[i])))
         == if |text| <= 127 then text else text[..127]
  {
    var ops := seq(|text|, i requires 0 <= i < |text| => TypeOp(text[i]));
    if text != [] {
      var n := |text| - 1;
      var front := text[..n];
      LineHolds127(front);
      assert ops[..n] == seq(n, i requires 0 <= i < n => TypeOp(front[i]));
      assert text == front + [text[n]];
    }
  }

  /** The events of a key, by meaning: keys reach the displayed terminal only. */
  datatype Meaning = Types(c: byte, times: nat) | Enters | Rubs | Clears | Silent

  function MeaningOf(mods: Modifiers, scancode: nat): Meaning {
    if scancode == BACKSPACE then Rubs
    else if scancode == TAB then Types(SP, 4)
    else if Special(scancode) || scancode >= KEY_COUNT then Silent
    else
      var c := KeyChar(mods, scancode);
      if mods.ctrl && (c == LOWER_L || c == UPPER_L) then Clears
      else if c == NL then Enters
      else Types(c, 1)
  }

  /** What event e asks of terminal t's screen: echo of what its line accepts, or written text. */
  function ScreenOps(v: View, e: Event, t: nat): seq<ScreenOp>
    requires v.Ok() && t < TERMINALS
  {
    match e
    case WriteEvent(t', text) => if t' == t then seq(|text|, i requires 0 <= i < |text| => PutOp(text[i])) else []
    case KeyEvent(scancode) =>
      if t != v.displayed then []
      else (match MeaningOf(v.mods, scancode)
            case Types(c, times) => seq(Min(times, LINE_MAX - v.Line().pos), _ => PutOp(c))
            case Enters => [PutOp(NL)]
            case Rubs => if v.Line().pos > 0 then [EraseOp] else []
            case Clears => [CleanOp]
            case Silent => [])
    case _ => []
  }

  /** What event e asks of terminal t's line. */
  function EditOps(v: View, e: Event, t: nat): seq<EditOp>
    requires v.Ok() && t < TERMINALS
  {
    if t != v.displayed then []
    else
      match e
      case KeyEvent(scancode) =>
        (match MeaningOf(v.mods, scancode)
         case Types(c, times) => seq(times, _ => TypeOp(c))
         case Rubs => [RubOp]
         case Clears => [WipeOp]
         case _ => [])
      case ReadEvent => if v.Entered() then [WipeOp] else []
      case _ => []
  }

  function AllScreenOps(v: View, es: Events, t: nat): seq<ScreenOp>
    requires v.Ok() && t < TERMINALS
    decreases |es|
  {
    if es == [] then [] else ScreenOps(v, es[0], t) + AllScreenOps(Step(v, es[0]), es[1..], t)
  }

  function AllEditOps(v: View, es: Events, t: nat): seq<EditOp>
    requires v.Ok() && t < TERMINALS
    decreases |es|
  {
    if es == [] then [] else EditOps(v, es[0], t) + AllEditOps(Step(v, es[0]), es[1..], t)
  }

  lemma {:induction false} DrawConcat(s: Screen, a: seq<ScreenOp>, b: seq<ScreenOp>)
    requires s.InGrid()
    ensures Draw(s, a + b) == Draw(Draw(s, a), b)
  {
    if b == [] {
      assert a + b == a;
    } else {
      DrawConcat(s, a, b[..|b| - 1]);
      assert (a + b)[..|a + b| - 1] == a + b[..|b| - 1];
    }
  }

  lemma {:induction false} EditConcat(line: seq<byte>, a: seq<EditOp>, b: seq<EditOp>)
    ensures Edit(line, a + b) == Edit(Edit(line, a), b)
  {
    if b == [] {
      assert a + b == a;
    } else {
      EditConcat(line, a, b[..|b| - 1]);
      assert (a + b)[..|a + b| - 1] == a + b[..|b| - 1];
    }
  }

  lemma {:induction false} DrawPuts(s: Screen, text: seq<byte>)
    requires s.InGrid()
    ensures Draw(s, seq(|text|, i requires 0 <= i < |text| => PutOp(text[i]))) == Puts(s, text)
  {
    if text != [] {
      var shorter := text[..|text| - 1];
      DrawPuts(s, shorter);
      var ops := seq(|text|, i requires 0 <= i < |text| => PutOp(text[i]));
      assert ops[..|ops| - 1] == seq(|shorter|, i requires 0 <= i < |shorter| => PutOp(shorter[i]));
    }
  }

  lemma {:induction false} TabScreens(v: View, k: nat, t: nat)
    requires v.Ok() && t < TERMINALS
    ensures var r := TypeTab(v, k);
            && r.displayed == v.displayed
            && r.Line().pos == Min(v.Line().pos + k, LINE_MAX)
            && r.screens[t] == if t == v.displayed
                               then Draw(v.screens[t], seq(Min(k, LINE_MAX - v.Line().pos), _ => PutOp(SP)))
                               else v.screens[t]
  {
    hide Put;
    if k > 0 {
      TabScreens(v, k - 1, t);
      var room := LINE_MAX - v.Line().pos;
      if k <= room {
        var puts := seq(k, _ => PutOp(SP));
        assert puts[..k - 1] == seq(k - 1, _ => PutOp(SP));
      }
    }
  }

  lemma {:induction false} TabLines(v: View, k: nat, t: nat)
    requires v.Ok() && t < TERMINALS
    ensures var r := TypeTab(v, k);
            && r.displayed == v.displayed
            && r.lines[t].Text() == if t == v.displayed
                                    then Edit(v.lines[t].Text(), seq(k, _ => TypeOp(SP)))
                                    else v.lines[t].Text()
  {
    hide Put;
    if k > 0 {
      TabLines(v, k - 1, t);
      TypeEffect(TypeTab(v, k - 1), SP, t);
      EditOnce(v.lines[t].Text(), seq(k - 1, _ => TypeOp(SP)), TypeOp(SP));
      assert seq(k - 1, _ => TypeOp(SP)) + [TypeOp(SP)] == seq(k, _ => TypeOp(SP));
    }
  }

  lemma EditOnce(line: seq<byte>, ops: seq<EditOp>, op: EditOp)
    ensures Edit(line, ops + [op]) == Edit(Edit(line, ops), [op])
  {
    EditConcat(line, ops, [op]);
  }

  lemma TypeEffect(v: View, c: byte, t: nat)
    requires v.Ok() && t < TERMINALS
    ensures var r := TypeChar(v, c);
            && r.displayed == v.displayed && r.lines[t].pos <= |r.lines[t].buf|
            && r.lines[t].Text() == Edit(v.lines[t].Text(), if t == v.displayed then [TypeOp(c)] else [])
            && r.screens[t] == Draw(v.screens[t],
                                    if t == v.displayed && v.Line().pos < LINE_MAX then [PutOp(c)] else [])
  {
    hide Put;
    var l := v.Line();
    if l.pos < LINE_MAX {
      assert l.buf[l.pos := c][..l.pos + 1] == l.buf[..l.pos] + [c];
    }
  }

  lemma EnterKeepsText(v: View)
    requires v.Ok()
    ensures PressEnter(v).Line().pos == v.Line().pos && PressEnter(v).Line().Text() == v.Line().Text()
  {
    var l := v.Line();
    assert l.buf[l.pos := NL][..l.pos] == l.buf[..l.pos];
  }

  lemma RubEffect(v: View)
    requires v.Ok()
    ensures var l := PressBackspace(v).Line();
            l.pos <= |l.buf| && l.Text() == Edit(v.Line().Text(), [RubOp])
  {
    var l := v.Line();
    if l.pos > 0 {
      assert l.buf[..l.pos - 1] == l.buf[..l.pos][..l.pos - 1];
    }
  }

  /** One event does to each terminal what its operations say, and nothing to the others. */
  lemma StepEffect(v: View, e: Event, t: nat)
    requires v.Ok() && e.Legal() && t < TERMINALS
    ensures Step(v, e).screens[t] == Draw(v.screens[t], ScreenOps(v, e, t))
    ensures Step(v, e).lines[t].Text() == Edit(v.lines[t].Text(), EditOps(v, e, t))
  {
    match e
    case WriteEvent(_, text) => DrawPuts(v.screens[t], text);
    case SwitchEvent(_) =>
    case ReadEvent =>
    case KeyEvent(scancode) => KeyEffect(v, scancode, t);
  }

  lemma KeyEffect(v: View, scancode: nat, t: nat)
    requires v.Ok() && t < TERMINALS && scancode < 256
    ensures Step(v, KeyEvent(scancode)).screens[t] == Draw(v.screens[t], ScreenOps(v, KeyEvent(scancode), t))
    ensures Step(v, KeyEvent(scancode)).lines[t].Text()
         == Edit(v.lines[t].Text(), EditOps(v, KeyEvent(scancode), t))
  {
    hide Put, Erase, Clean;
    if scancode == TAB {
      TabScreens(v, 4, t);
      TabLines(v, 4, t);
    } else {
      match MeaningOf(v.mods, scancode) {
        case Types(c, _) =>
          TypeEffect(v, c, t);
          assert seq(1, _ => TypeOp(c)) == [TypeOp(c)];
          assert seq(1, _ => PutOp(c)) == [PutOp(c)];
        case Enters => EnterKeepsText(v);
        case Rubs => RubEffect(v);
        case Clears =>
        case Silent =>
      }
    }
  }

  /**
   Main result: over any interleaving of keys, writes, reads and terminal switches, each terminal's
   logical screen is the drawing of exactly the operations addressed to it, in order.
   */
  lemma {:induction false} ScreensAreIndependent(v: View, es: Events, t: nat)
    requires v.Ok() && t < TERMINALS
    ensures Run(v, es).screens[t] == Draw(v.screens[t], AllScreenOps(v, es, t))
    decreases |es|
  {
    if es != [] {
      StepEffect(v, es[0], t);
      ScreensAreIndependent(Step(v, es[0]), es[1..], t);
      DrawConcat(v.screens[t], ScreenOps(v, es[0], t), AllScreenOps(Step(v, es[0]), es[1..], t));
    }
  }

  /** The same for the line under edit, so what a read returns is the line as edited since the last one. */
  lemma {:induction false} LinesAreIndependent(v: View, es: Events, t: nat)
    requires v.Ok() && t < TERMINALS
    ensures Run(v, es).lines[t].Text() == Edit(v.lines[t].Text(), AllEditOps(v, es, t))
    decreases |es|
  {
    if es != [] {
      StepEffect(v, es[0], t);
      LinesAreIndependent(Step(v, es[0]), es[1..], t);
      EditConcat(v.lines[t].Text(), EditOps(v, es[0], t), AllEditOps(Step(v, es[0]), es[1..], t));
    }
  }

  ghost predicate WritesAndSwitches(es: Events) {
    forall i :: 0 <= i < |es| ==> es[i].WriteEvent? || es[i].SwitchEvent?
  }

  /** Everything written to terminal t. */
  function TextFor(es: Events, t: nat): seq<byte>
    decreases |es|
  {
    if es == [] then []
    else (if es[0].WriteEvent? && es[0].t == t then es[0].text else []) + TextFor(es[1..], t)
  }

  /** Under writes and switches only, a screen depends on the text written to it and on nothing else. */
  lemma {:induction false} ScreenIsItsText(v: View, es: Events, t: nat)
    requires v.Ok() && t < TERMINALS && WritesAndSwitches(es)
    ensures Run(v, es).screens[t] == Puts(v.screens[t], TextFor(es, t))
    decreases |es|
  {
    if es != [] {
      ScreenIsItsText(Step(v, es[0]), es[1..], t);
      PutsConcat(v.screens[t], if es[0].WriteEvent? && es[0].t == t then es[0].text else [], TextFor(es[1..], t));
    }
  }

  lemma {:induction false} PutsConcat(s: Screen, a: seq<byte>, b: seq<byte>)
    requires s.InGrid()
    ensures Puts(s, a + b) == Puts(Puts(s, a), b)
  {
    if b == [] {
      assert a + b == a;
    } else {
      PutsConcat(s, a, b[..|b| - 1]);
      assert (a + b)[..|a + b| - 1] == a + b[..|b| - 1];
    }
  }

  // ---------------------------------------------------------------- reads

  /** What an event hands to the reading program: the edited line, for a read whose wait is over. */
  function Returned(v: View, e: Event): seq<seq<byte>>
    requires v.Ok()
  {
    if e.ReadEvent? && v.Entered() then [v.Line().Text()] else []
  }

  /** The lines the reads of a run return, in order. */
  function AllReturned(v: View, es: Events): seq<seq<byte>>
    requires v.Ok()
    decreases |es|
  {
    if es == [] then [] else Returned(v, es[0]) + AllReturned(Step(v, es[0]), es[1..])
  }

  /** A read after any run returns the line of the displayed terminal as the run edited it. */
  lemma ReadReturnsLine(v: View, es: Events)
    requires v.Ok() && Run(v, es).Entered()
    ensures var t := Run(v, es).displayed;
            Returned(Run(v, es), ReadEvent) == [Edit(v.lines[t].Text(), AllEditOps(v, es, t))]
  {
    LinesAreIndependent(v, es, Run(v, es).displayed);
  }

  /**
   After a read the terminal's line begins empty: after any further run it is the edit of nothing but
   what was addressed to it since, and the next read on that terminal returns exactly that.
   */
  lemma LineSinceRead(v: View, es: Events)
    requires v.Ok() && v.Entered()
    ensures var w, t := Step(v, ReadEvent), v.displayed; var r := Run(w, es);
            && r.lines[t].Text() == Edit([], AllEditOps(w, es, t))
            && (r.Entered() && r.displayed == t ==> Returned(r, ReadEvent) == [Edit([], AllEditOps(w, es, t))])
  {
    LinesAreIndependent(Step(v, ReadEvent), es, v.displayed);
  }

  /** What an event does to cell i of the keyboard buffer: an Enter is put there, or something else, or nothing. */
  datatype Mark = EnterMark | OtherMark | NoMark

  function MarkOf(v: View, e: Event, i: nat): Mark
    requires v.Ok()
  {
    match e
    case WriteEvent(_, _) => NoMark
    case SwitchEvent(t) => if t == v.displayed then NoMark else OtherMark
    case ReadEvent => if v.Entered() then OtherMark else NoMark
    case KeyEvent(scancode) =>
      if scancode in {F1, F2, F3} then (if v.mods.alt && scancode - F1 != v.displayed then OtherMark else NoMark)
      else
        var pos := v.Line().pos;
        (match MeaningOf(v.mods, scancode)
         case Types(_, times) => if pos <= i < pos + Min(times, LINE_MAX - pos) then OtherMark else NoMark
         case Enters => if i == pos then EnterMark else NoMark
         case Clears => OtherMark
         case _ => NoMark)
  }

  function LastMark(v: View, es: Events, i: nat): Mark
    requires v.Ok()
    decreases |es|
  {
    if es == [] then NoMark
    else
      var later := LastMark(Step(v, es[0]), es[1..], i);
      if later == NoMark then MarkOf(v, es[0], i) else later
  }

  lemma {:induction false} TabMarks(v: View, k: nat, i: nat)
    requires v.Ok() && i < LINE_BYTES
    ensures var pos, r := v.Line().pos, TypeTab(v, k);
            && r.Line().pos == Min(pos + k, LINE_MAX)
            && r.keys[i] == if pos <= i < pos + Min(k, LINE_MAX - pos) then SP else v.keys[i]
  {
    hide Put;
    if k > 0 { TabMarks(v, k - 1, i); }
  }

  lemma MarkStep(v: View, e: Event, i: nat)
    requires v.Ok() && e.Legal() && i < LINE_BYTES
    ensures Step(v, e).keys[i] == NL
       <==> MarkOf(v, e, i) == EnterMark || (MarkOf(v, e, i) == NoMark && v.keys[i] == NL)
  {
    hide Put, Erase, Clean, Puts;
    if e.KeyEvent? && e.scancode == TAB { TabMarks(v, 4, i); }
  }

  lemma {:induction false} MarkAfter(v: View, es: Events, i: nat)
    requires v.Ok() && i < LINE_BYTES
    ensures Run(v, es).keys[i] == NL
       <==> LastMark(v, es, i) == EnterMark || (LastMark(v, es, i) == NoMark && v.keys[i] == NL)
    decreases |es|
  {
    if es != [] {
      MarkStep(v, es[0], i);
      MarkAfter(Step(v, es[0]), es[1..], i);
    }
  }

  /**
   The wait of a read is over exactly when the last thing that happened at the cursor's cell of the
   keyboard buffer, over any run from an empty one, was an Enter.
   */
  lemma EnteredWhen(v: View, es: Events)
    requires v.Ok() && NL !in v.keys
    ensures Run(v, es).Entered() <==> LastMark(v, es, Run(v, es).Line().pos) == EnterMark
  {
    var i := Run(v, es).Line().pos;
    MarkAfter(v, es, i);
    assert v.keys[i] != NL;
  }

  /** So an Enter outlives an edit: Enter, Backspace and one more character leave the changed line entered. */
  lemma EnterOutlivesEdit(v: View, c: byte)
    requires v.Ok() && 0 < v.Line().pos && c != NL
    ensures PressEnter(v).Ok() && PressBackspace(PressEnter(v)).Ok()
    ensures var w := TypeChar(PressBackspace(PressEnter(v)), c); var pos := v.Line().pos;
            w.Ok() && w.Entered() && w.Line().Text() == v.Line().Text()[..pos - 1] + [c]
  {
    hide Put, Erase;
    EnterOk(v);
    BackspaceOk(PressEnter(v));
    TypeCharOk(PressBackspace(PressEnter(v)), c);
    EnterKeepsText(v);
    RubEffect(PressEnter(v));
    TypeEffect(PressBackspace(PressEnter(v)), c, v.displayed);
    var l := v.Line();
    assert l.buf[..l.pos][..l.pos - 1] == l.buf[..l.pos - 1];
  }

  // ---------------------------------------------------------------- the caller's buffer

  const A_KEY: nat := 0x1E
  const ENTER_KEY: nat := 0x1C

  lemma AbEnter()
    ensures KeyTable(A_KEY).plain == 97 && KeyTable(B_KEY).plain == 98 && KeyTable(ENTER_KEY).plain == NL
    ensures !Special(A_KEY) && !Special(B_KEY) && !Special(ENTER_KEY)
  {
  }

  lemma PlainKey(v: View, scancode: nat)
    requires v.Ok() && v.mods == Modifiers(false, false, false, false) && scancode < KEY_COUNT && !Special(scancode)
    ensures var c := KeyTable(scancode).plain; Key(v, scancode) == if c == NL then PressEnter(v) else TypeChar(v, c)
  {
    hide KeyTable, Put;
  }

  lemma TypedText(v: View, c: byte)
    requires v.Ok() && v.Line().pos < LINE_MAX && c != NL
    ensures var r := TypeChar(v, c);
            r.Ok() && r.mods == v.mods && r.Line().pos == v.Line().pos + 1 && r.Line().Text() == v.Line().Text() + [c]
  {
    TypeCharOk(v, c);
    TypeEffect(v, c, v.displayed);
    assert Edit(v.Line().Text(), [TypeOp(c)]) == v.Line().Text() + [c];
  }

  /** The keys a, b and Enter on an empty line. */
  lemma TypedLine(v: View)
    requires v.Ok() && v.Line() == Line(Zeros(), 0) && v.mods == Modifiers(false, false, false, false)
    ensures Key(v, A_KEY).Ok() && Key(Key(v, A_KEY), B_KEY).Ok() && Key(Key(Key(v, A_KEY), B_KEY), ENTER_KEY).Ok()
    ensures var w := Key(Key(Key(v, A_KEY), B_KEY), ENTER_KEY);
            w.Entered() && w.Line().pos == 2 && w.Line().Text() == [97, 98]
  {
    hide Put, Key, Zeros, KeyTable, TypeChar, PressEnter;
    assert v.Line().Text() == [];
    AbEnter();
    PlainKey(v, A_KEY);
    TypedText(v, 97);
    var a := Key(v, A_KEY);
    PlainKey(a, B_KEY);
    TypedText(a, 98);
    var b := Key(a, B_KEY);
    PlainKey(b, ENTER_KEY);
    EnterOk(b);
    EnterKeepsText(b);
  }

  // ---------------------------------------------------------------- modifier keys

  predicate KeyIn(e: Event, keys: set<nat>) { e.KeyEvent? && e.scancode in keys }

  /** The last of these keys in the run was a press, or there was none and the modifier was down before. */
  ghost predicate Down(es: Events, presses: set<nat>, releases: set<nat>, before: bool) {
    || (exists i :: 0 <= i < |es| && KeyIn(es[i], presses)
         && forall j :: i < j < |es| ==> !KeyIn(es[j], presses + releases))
    || (before && forall j :: 0 <= j < |es| ==> !KeyIn(es[j], presses + releases))
  }

  lemma DownStep(es: Events, presses: set<nat>, releases: set<nat>, before: bool)
    requires es != [] && presses !! releases
    ensures Down(es, presses, releases, before)
       <==> Down(es[1..], presses, releases,
                 if KeyIn(es[0], presses) then true else if KeyIn(es[0], releases) then false else before)
  {
    var rest := es[1..];
    var now := if KeyIn(es[0], presses) then true else if KeyIn(es[0], releases) then false else before;
    assert forall j :: 0 < j < |es| ==> es[j] == rest[j - 1];
    if Down(es, presses, releases, before) {
      if i :| 0 <= i < |es| && KeyIn(es[i], presses) && forall j :: i < j < |es| ==> !KeyIn(es[j], presses + releases) {
        assert forall j :: i <= j < |rest| ==> rest[j] == es[j + 1];
        if i > 0 { assert KeyIn(rest[i - 1], presses); }
      } else {
        assert forall j :: 0 <= j < |rest| ==> rest[j] == es[j + 1];
      }
    }
    if Down(rest, presses, releases, now) {
      if i :| 0 <= i < |rest| && KeyIn(rest[i], presses)
              && forall j :: i < j < |rest| ==> !KeyIn(rest[j], presses + releases) {
        assert KeyIn(es[i + 1], presses);
      }
    }
  }

  function CapsPresses(es: Events): nat
    decreases |es|
  {
    if es == [] then 0 else (if KeyIn(es[0], {CAPS_PRESSED}) then 1 else 0) + CapsPresses(es[1..])
  }

  lemma StepModifiers(v: View, e: Event)
    requires v.Ok() && e.Legal()
    ensures Step(v, e).mods == if e.KeyEvent? then NextModifiers(v.mods, e.scancode) else v.mods
  {
    hide Put, Erase, Clean, Puts;
  }

  /** What a run makes of the modifiers, by its key events alone. */
  ghost predicate Follows(es: Events, before: Modifiers, m: Modifiers) {
    && m.shift == Down(es, {LSHIFT_PRESSED, RSHIFT_PRESSED}, {LSHIFT_RELEASED, RSHIFT_RELEASED}, before.shift)
    && m.alt == Down(es, {ALT_PRESSED}, {ALT_RELEASED}, before.alt)
    && m.ctrl == Down(es, {CTRL_PRESSED}, {CTRL_RELEASED}, before.ctrl)
    && m.caps == (before.caps != (CapsPresses(es) % 2 == 1))
  }

  lemma FollowsStep(es: Events, before: Modifiers, m: Modifiers)
    requires es != []
    requires Follows(es[1..], if es[0].KeyEvent? then NextModifiers(before, es[0].scancode) else before, m)
    ensures Follows(es, before, m)
  {
    hide Down;
    DownStep(es, {LSHIFT_PRESSED, RSHIFT_PRESSED}, {LSHIFT_RELEASED, RSHIFT_RELEASED}, before.shift);
    DownStep(es, {ALT_PRESSED}, {ALT_RELEASED}, before.alt);
    DownStep(es, {CTRL_PRESSED}, {CTRL_RELEASED}, before.ctrl);
  }

  /**
   Over any run, shift, alt and ctrl are down exactly when their last key event was a press, and caps
   lock is on exactly when its presses changed it an odd number of times.
   */
  lemma {:induction false} ModifiersFollowKeys(v: View, es: Events)
    requires v.Ok()
    ensures Follows(es, v.mods, Run(v, es).mods)
    decreases |es|
  {
    hide Step, NextModifiers;
    if es == [] {
      NothingDown(v.mods);
    } else {
      hide Follows;
      StepModifiers(v, es[0]);
      ModifiersFollowKeys(Step(v, es[0]), es[1..]);
      FollowsStep(es, v.mods, Run(v, es).mods);
    }
  }

  lemma NothingDown(m: Modifiers)
    ensures forall presses, releases, before :: Down([], presses, releases, before) == before
  {
  }

  // ---------------------------------------------------------------- which terminal is shown

  /** Event i of the run chooses terminal t: a switch to it, or its function key while Alt is down. */
  ghost predicate Chooses(es: Events, alt: bool, i: nat, t: nat)
    requires i < |es|
  {
    || es[i] == SwitchEvent(t)
    || (es[i] == KeyEvent(0x3B + t) && t < TERMINALS && Down(es[..i], {ALT_PRESSED}, {ALT_RELEASED}, alt))
  }

  /** Terminal t was chosen last, or none was chosen and it is the one shown before. */
  ghost predicate LastChosen(es: Events, alt: bool, before: nat, t: nat) {
    || (exists i :: 0 <= i < |es| && Chooses(es, alt, i, t) && forall j, u :: i < j < |es| ==> !Chooses(es, alt, j, u))
    || (t == before && forall j, u :: 0 <= j < |es| ==> !Chooses(es, alt, j, u))
  }

  lemma {:induction false} RunLast(v: View, es: Events)
    requires v.Ok() && es != []
    ensures Run(v, es) == Step(Run(v, es[..|es| - 1]), es[|es| - 1])
    decreases |es|
  {
    hide Step;
    if |es| == 1 {
      assert es[1..] == [] && es[..0] == [];
    } else {
      RunLast(Step(v, es[0]), es[1..]);
      assert es[1..][..|es| - 2] == es[..|es| - 1][1..];
    }
  }

  /** What one event does to the choice. */
  lemma StepShows(v: View, e: Event)
    requires v.Ok() && e.Legal()
    ensures Step(v, e).displayed
         == if e.SwitchEvent? then e.t
            else if e.KeyEvent? && 0x3B <= e.scancode < 0x3B + TERMINALS && v.mods.alt then e.scancode - 0x3B
            else v.displayed
  {
    hide Put, Erase, Clean, Puts, KeyChar;
  }

  lemma ChosenBefore(es: Events, alt: bool, j: nat, u: nat)
    requires j < |es| - 1
    ensures Chooses(es, alt, j, u) <==> Chooses(es[..|es| - 1], alt, j, u)
  {
    hide Down;
    assert es[..|es| - 1][..j] == es[..j] && es[..|es| - 1][j] == es[j];
  }

  lemma LastChosenStep(es: Events, alt: bool, before: nat, t: nat)
    requires es != []
    ensures var n := |es| - 1;
            LastChosen(es, alt, before, t)
            <==> Chooses(es, alt, n, t)
                 || (LastChosen(es[..n], alt, before, t) && forall u :: !Chooses(es, alt, n, u))
  {
    hide Down;
    var n := |es| - 1;
    var front := es[..n];
    forall j, u | 0 <= j < n ensures Chooses(es, alt, j, u) <==> Chooses(front, alt, j, u) {
      ChosenBefore(es, alt, j, u);
    }
    hide Chooses;
    if LastChosen(front, alt, before, t) && forall u :: !Chooses(es, alt, n, u) {
      if i :| 0 <= i < n && Chooses(front, alt, i, t) && forall j, u :: i < j < n ==> !Chooses(front, alt, j, u) {
        assert Chooses(es, alt, i, t);
      }
    }
  }

  lemma AltIsDown(v: View, es: Events)
    requires v.Ok()
    ensures Run(v, es).mods.alt == Down(es, {ALT_PRESSED}, {ALT_RELEASED}, v.mods.alt)
  {
    hide Down, Run;
    ModifiersFollowKeys(v, es);
  }

  /** The last event, seen by the choice it makes when w was the state before it. */
  lemma ChoiceShows(w: View, es: Events, alt: bool, shown: nat)
    requires es != [] && w.mods.alt == Down(es[..|es| - 1], {ALT_PRESSED}, {ALT_RELEASED}, alt)
    requires var e := es[|es| - 1];
             shown == if e.SwitchEvent? then e.t
                      else if e.KeyEvent? && 0x3B <= e.scancode < 0x3B + TERMINALS && w.mods.alt then e.scancode - 0x3B
                      else w.displayed
    ensures var n := |es| - 1;
            && (forall u :: Chooses(es, alt, n, u) ==> shown == u)
            && (shown != w.displayed ==> Chooses(es, alt, n, shown))
  {
    hide Down;
  }

  lemma LastEventShows(v: View, es: Events)
    requires v.Ok() && es != []
    ensures var n, shown := |es| - 1, Run(v, es).displayed;
            && (forall u :: Chooses(es, v.mods.alt, n, u) ==> shown == u)
            && (shown != Run(v, es[..n]).displayed ==> Chooses(es, v.mods.alt, n, shown))
  {
    hide Step, Run, Down, Chooses;
    var n := |es| - 1;
    var w := Run(v, es[..n]);
    AltIsDown(v, es[..n]);
    RunLast(v, es);
    StepShows(w, es[n]);
    ChoiceShows(w, es, v.mods.alt, Run(v, es).displayed);
  }

  /** Main result on switching: over any run, the terminal shown is the one that was chosen last. */
  lemma {:induction false} ShownIsLastChosen(v: View, es: Events, t: nat)
    requires v.Ok()
    ensures Run(v, es).displayed == t <==> LastChosen(es, v.mods.alt, v.displayed, t)
    decreases |es|
  {
    if es != [] {
      hide Step, Run, Chooses, LastChosen;
      ShownIsLastChosen(v, es[..|es| - 1], t);
      LastEventShows(v, es);
      LastChosenStep(es, v.mods.alt, v.displayed, t);
    }
  }
}
