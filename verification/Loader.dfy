/** The first half of execute (scall.c): the command is taken apart, and its program is looked up and checked. */
module Loader {
  import opened Bytes
  import opened FileSystem
  import opened Directory

  const PART_MAX: nat := 33                      // FILE_NAME_LENGTH + 1
  const MAGIC: seq<byte> := [0x7F, 0x45, 0x4C, 0x46]

  /** How many spaces a text begins with. */
  function Spaces(text: seq<byte>): (n: nat)
    ensures n <= |text| && (n < |text| ==> text[n] != SP)
    ensures forall i :: 0 <= i < n ==> text[i] == SP
  {
    if text == [] || text[0] != SP then 0 else 1 + Spaces(text[1..])
  }

  /** Length of the part before the first space. */
  function PartLen(text: seq<byte>): (n: nat)
    ensures n <= |text| && (n < |text| ==> text[n] == SP)
    ensures forall i :: 0 <= i < n ==> text[i] != SP
  {
    if text == [] || text[0] == SP then 0 else 1 + PartLen(text[1..])
  }

  function Trimmed(text: seq<byte>): seq<byte> { text[Spaces(text)..] }

  /** The program named by a command: its first word. */
  function ProgramName(command: seq<byte>): seq<byte> { Trimmed(command)[..PartLen(Trimmed(command))] }

  /** Its argument: everything from the second word on, inner and trailing spaces included. */
  function Argument(command: seq<byte>): seq<byte> { Trimmed(Trimmed(command)[PartLen(Trimmed(command))..]) }

  lemma {:induction false} SpacesIs(text: seq<byte>, n: nat)
    requires n <= |text| && (n < |text| ==> text[n] != SP)
    requires forall i :: 0 <= i < n ==> text[i] == SP
    ensures Spaces(text) == n
  {
    if n > 0 { SpacesIs(text[1..], n - 1); }
  }

  lemma {:induction false} PartLenIs(text: seq<byte>, n: nat)
    requires n <= |text| && (n < |text| ==> text[n] == SP)
    requires forall i :: 0 <= i < n ==> text[i] != SP
    ensures PartLen(text) == n
  {
    if n > 0 { PartLenIs(text[1..], n - 1); }
  }

  /** Blanks in front of a text that does not begin with one are trimmed. */
  lemma TrimmedIs(n: nat, text: seq<byte>)
    requires text != [] ==> text[0] != SP
    ensures Trimmed(Blanks(n) + text) == text
  {
    hide Spaces;
    var all := Blanks(n) + text;
    ConcatTail(Blanks(n), text, 0);
    assert forall i :: 0 <= i < n ==> all[i] == Blanks(n)[i];
    assert text != [] ==> all[n] == text[0];
    SpacesIs(all, n);
  }

  /** A word with a space behind it, or nothing, is the first part. */
  lemma PartIs(name: seq<byte>, tail: seq<byte>)
    requires (forall i :: 0 <= i < |name| ==> name[i] != SP) && (tail != [] ==> tail[0] == SP)
    ensures PartLen(name + tail) == |name| && (name + tail)[..|name|] == name && (name + tail)[|name|..] == tail
  {
    hide PartLen;
    ConcatTail(name, tail, 0);
    ConcatParts(name, tail, |name|);
    assert name[..|name|] == name;
    assert tail != [] ==> (name + tail)[|name|] == tail[0];
    PartLenIs(name + tail, |name|);
  }

  /** A command written with any spacing around its two parts has these parts. */
  lemma CommandParts(before: nat, name: seq<byte>, between: nat, argument: seq<byte>)
    requires name != [] && (forall i :: 0 <= i < |name| ==> name[i] != SP)
    requires (argument != [] ==> between > 0 && argument[0] != SP)
    ensures var command := Blanks(before) + (name + (Blanks(between) + argument));
            ProgramName(command) == name && Argument(command) == argument
  {
    var tail := Blanks(between) + argument;
    assert tail != [] ==> tail[0] == SP;
    assert (name + tail)[0] == name[0];
    hide Spaces, PartLen, Trimmed, Blanks;
    TrimmedIs(before, name + tail);
    TrimmedIs(between, argument);
    PartIs(name, tail);
  }

  function Blanks(n: nat): (s: seq<byte>)
    ensures |s| == n && forall i :: 0 <= i < n ==> s[i] == SP
  {
    seq(n, _ => SP)
  }

  /** while (command[at] == ' ') at++ */
  method SkipSpaces(command: seq<byte>, at0: nat) returns (at: nat)
    requires at0 <= |command|
    ensures at == at0 + Spaces(command[at0..])
  {
    at := at0;
    while CharAt(command, at) == SP
      invariant at0 <= at <= |command| && forall i :: at0 <= i < at ==> command[i] == SP
      decreases |command| - at
    {
      at := at + 1;
    }
    SpacesIs(command[at0..], at - at0);
  }

  /**
   Copies command[from..to) into a part, one byte at a time; more than 33 are refused. The array has one
   byte more than the kernel's, whose last byte is the 33rd.
   */
  method CopyPart(command: seq<byte>, from: nat, to: nat, part: array<byte>) returns (ok: bool)
    requires from <= to <= |command| && part.Length == PART_MAX + 1
    modifies part
    ensures ok <==> to - from <= PART_MAX
    ensures ok ==> part[..to - from] == command[from..to] && part[to - from] == NUL
    ensures to - from < PART_MAX ==> part[PART_MAX] == old(part[PART_MAX])
    ensures to - from == PART_MAX ==> part[PART_MAX] == NUL
    ensures to - from > PART_MAX ==> part[PART_MAX] == command[from + PART_MAX]
  {
    var count := 0;
    while from + count < to
      invariant 0 <= count <= to - from && count <= PART_MAX
      invariant forall k :: 0 <= k < count ==> part[k] == command[from + k]
      invariant part[PART_MAX] == old(part[PART_MAX])
    {
      part[count] := command[from + count];
      count := count + 1;
      if count > PART_MAX {
        return false;
      }
    }
    part[count] := NUL;
    return true;
  }

  method FindPartEnd(command: seq<byte>, from: nat) returns (to: nat)
    requires from <= |command|
    ensures to == from + PartLen(command[from..])
  {
    to := from;
    while to < |command| && command[to] != SP
      invariant from <= to <= |command| && forall i :: from <= i < to ==> command[i] != SP
    {
      to := to + 1;
    }
    PartLenIs(command[from..], to - from);
  }

  /** The command's two parts are short enough for execute to go on. */
  predicate PartsFit(command: seq<byte>) {
    |ProgramName(command)| <= PART_MAX && |Argument(command)| <= PART_MAX
  }

  /** Where the scan finds the parts. */
  lemma PartsAt(command: seq<byte>, from: nat, to: nat)
    requires from == Spaces(command[0..]) && from <= |command| && to == from + PartLen(command[from..])
    ensures to <= |command| && ProgramName(command) == command[from..to]
    ensures var begin := to + Spaces(command[to..]); begin <= |command| && Argument(command) == command[begin..]
  {
    hide Spaces, PartLen;
    assert command[0..] == command;
    assert command[from..][to - from..] == command[to..];
  }

  /** The parts of a command in their arrays; a part of 33 bytes or more is written past its array's end. */
  method ParseCommand(command: seq<byte>, file: array<byte>, argument: array<byte>) returns (ok: bool)
    requires file.Length == argument.Length == PART_MAX + 1 && file != argument
    modifies file, argument
    ensures ok <==> PartsFit(command)
    ensures ok ==> var name := ProgramName(command); file[..|name|] == name && file[|name|] == NUL
    ensures ok ==> var arg := Argument(command); argument[..|arg|] == arg && argument[|arg|] == NUL
    ensures var name := ProgramName(command);
            file[PART_MAX] == if |name| < PART_MAX then old(file[PART_MAX])
                              else if |name| == PART_MAX then NUL else name[PART_MAX]
    ensures var name, arg := ProgramName(command), Argument(command);
            argument[PART_MAX] == if |name| > PART_MAX || |arg| < PART_MAX then old(argument[PART_MAX])
                                  else if |arg| == PART_MAX then NUL else arg[PART_MAX]
  {
    hide Spaces, PartLen, ProgramName, Argument;
    var from := SkipSpaces(command, 0);
    var to := FindPartEnd(command, from);
    PartsAt(command, from, to);
    ok := CopyPart(command, from, to, file);
    if !ok {
      return;
    }
    var begin := SkipSpaces(command, to);
    ok := CopyPart(command, begin, |command|, argument);
  }

  /** The entry a name leads to; was is what the local entry held before, should the lookup not fill it in. */
  function Found(img: Image, name: seq<byte>, was: Dentry): Dentry
    requires Ok(img)
  {
    var k := FirstNamed(img, Take(name, NAME), 0);
    if k < SCANNED && k <= img.dentryNum then img.dentries[k] else was
  }

  /** If a name is found, the file it leads to is in the image. */
  ghost predicate HasFile(img: Image, name: seq<byte>, was: Dentry) {
    Ok(img) && (FirstNamed(img, Take(name, NAME), 0) < SCANNED ==> img.Readable(Found(img, name, was).inode))
  }

  /** The file at an inode can be read and begins with the magic number; junk is what the bytes held before. */
  ghost predicate Executable(img: Image, inode: nat, junk: seq<byte>)
    requires img.Readable(inode) && |junk| == 4
  {
    var s := ReadBytes(img, inode, 0, 4);
    ReadCount(img, inode, 0, 4) != -1 && |s| <= 4 && s + junk[|s|..] == MAGIC
  }

  /** A command that execute accepts: its parts fit, and its program is found and begins with the magic number. */
  ghost predicate Loadable(img: Image, command: seq<byte>, was: Dentry, junk: seq<byte>)
    requires HasFile(img, ProgramName(command), was) && |junk| == 4
  {
    && PartsFit(command)
    && FirstNamed(img, Take(ProgramName(command), NAME), 0) < SCANNED
    && Executable(img, Found(img, ProgramName(command), was).inode, junk)
  }

  /** The checks of execute on its command. */
  method Load(img: Image, command: seq<byte>, stack: array<byte>, at: nat, was: Dentry, data: array<byte>)
    returns (loadable: bool, d: Dentry)
    requires HasFile(img, ProgramName(command), was) && NoNul(command)
    requires at + PART_MAX < stack.Length && data.Length == 4 && data != stack
    modifies stack, data
    ensures loadable == Loadable(img, command, was, old(data[..]))
    ensures loadable ==> d == Found(img, ProgramName(command), was) && img.Readable(d.inode)
  {
    hide FirstNamed, Spaces, PartLen, ProgramName, Argument, Executable, Image.Readable;
    d := was;
    var file, argument := new byte[PART_MAX + 1], new byte[PART_MAX + 1];
    var ok := ParseCommand(command, file, argument);
    if !ok {
      return false, d;
    }
    ghost var name := ProgramName(command);
    NamePlain(command);
    StringIs(file, name);
    var length := StrLen(file, 0, |name|);
    var r;
    r, d := ReadDentryByName(img, file[..length], stack, at, was);
    if r == -1 {
      return false, d;
    }
    loadable := CheckFile(img, d.inode, data);
  }

  lemma NamePlain(command: seq<byte>)
    requires NoNul(command)
    ensures NoNul(ProgramName(command))
  {
    hide Spaces, PartLen;
  }

  lemma StringIs(file: array<byte>, name: seq<byte>)
    requires |name| < file.Length && file[..|name|] == name && file[|name|] == NUL && NoNul(name)
    ensures CString(file, 0, |name|)
  {
    forall k | 0 <= k < |name| ensures file[k] == name[k] {
      assert file[..|name|][k] == file[k];
    }
  }

  /** The read of the first four bytes and their comparison. */
  method CheckFile(img: Image, inode: nat, data: array<byte>) returns (ok: bool)
    requires img.Readable(inode) && data.Length == 4
    modifies data
    ensures ok == Executable(img, inode, old(data[..]))
  {
    var r := ReadData(img, inode, 0, data, 0, 4);
    if r == -1 {
      return false;
    }
    ok := data[0] == 0x7F && data[1] == 0x45 && data[2] == 0x4C && data[3] == 0x46;
    assert ok <==> data[..] == MAGIC;
  }

  /** A longer name or argument than 33 bytes is refused, whatever the spacing. */
  lemma LongPartsRefused(before: nat, name: seq<byte>, between: nat, argument: seq<byte>)
    requires name != [] && (forall i :: 0 <= i < |name| ==> name[i] != SP)
    requires argument != [] ==> between > 0 && argument[0] != SP
    ensures PartsFit(Blanks(before) + (name + (Blanks(between) + argument))) <==> |name| <= 33 && |argument| <= 33
  {
    hide ProgramName, Argument;
    CommandParts(before, name, between, argument);
  }

  /**
   For a program name of at most 32 bytes, whose entry counts and whose inode the header knows, execute
   accepts a command if and only if its argument has at most 33 bytes, one of the first 17 entries has the
   name, and its file begins with the magic number. A file of less than four bytes is filled up with what
   the buffer held. What the other entries are does not matter.
   */
  lemma LoadsExactly(img: Image, command: seq<byte>, was: Dentry, junk: seq<byte>)
    requires HasFile(img, ProgramName(command), was) && |junk| == 4
    requires |ProgramName(command)| <= NAME
    requires var k := FirstNamed(img, ProgramName(command), 0);
             k < SCANNED ==> k <= img.dentryNum && img.dentries[k].inode <= img.inodesNum
    ensures Loadable(img, command, was, junk)
       <==> var k := FirstNamed(img, ProgramName(command), 0);
            |Argument(command)| <= 33 && k < SCANNED && var f := img.File(img.dentries[k].inode);
            if |f| >= 4 then MAGIC <= f else f + junk[|f|..] == MAGIC
  {
    hide FirstNamed, ProgramName, Argument, Executable, Image.Readable, Image.File;
    var k := FirstNamed(img, ProgramName(command), 0);
    if k < SCANNED { ExecutableIs(img, img.dentries[k].inode, junk); }
  }

  lemma ExecutableIs(img: Image, inode: nat, junk: seq<byte>)
    requires img.Readable(inode) && inode <= img.inodesNum && |junk| == 4
    ensures var f := img.File(inode);
            Executable(img, inode, junk) <==> if |f| >= 4 then MAGIC <= f else f + junk[|f|..] == MAGIC
  {
    var f, s := img.File(inode), ReadBytes(img, inode, 0, 4);
    BytesRead(img, inode, 0, 4);
    if |f| >= 4 {
      assert s == f[..4] && s + junk[|s|..] == s;
    } else {
      assert f != [] ==> s == f[0..|f|] == f;
    }
  }

  /** An empty file is executed when the buffer happens to hold the magic number from a check before. */
  lemma EmptyFileLoads(img: Image, command: seq<byte>, was: Dentry)
    requires HasFile(img, ProgramName(command), was)
    requires PartsFit(command) && |ProgramName(command)| <= NAME
    requires var k := FirstNamed(img, ProgramName(command), 0);
             k < SCANNED && k <= img.dentryNum && img.dentries[k].inode <= img.inodesNum
             && img.Length(img.dentries[k].inode) == 0
    ensures Loadable(img, command, was, MAGIC)
  {
    LoadsExactly(img, command, was, MAGIC);
    assert [] + MAGIC[0..] == MAGIC;
  }

  const A: byte := 97

  /** A name of 33 letters is parsed, and its terminator goes behind the 33-byte array. */
  method LongNameOverruns(file: array<byte>, argument: array<byte>) returns (ok: bool)
    requires file.Length == argument.Length == PART_MAX + 1 && file != argument && file[PART_MAX] != NUL
    modifies file, argument
    ensures ok && file[PART_MAX] == NUL
  {
    var name := seq(PART_MAX, _ => A);
    CommandParts(0, name, 0, []);
    assert Blanks(0) + (name + (Blanks(0) + [])) == name;
    ok := ParseCommand(name, file, argument);
  }
}
