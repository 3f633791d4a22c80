/** The read system call (scall.c): the checks on its arguments, and the driver behind the descriptor. */
module Descriptors {
  import opened Bytes
  import opened Limits
  import opened ProcessTable
  import opened FileSystem
  import opened Directory
  import Console
  import Processes
  import Terminals

  const USER_MEM: int := 0x0800_0000
  const USER_END: int := 0x0840_0000

  predicate IsInt(n: int) { -HALF <= n < HALF }

  /** A sum of signed 32-bit numbers, which wraps around. */
  function Sum(a: int, b: int): (s: int)
    requires IsInt(a) && IsInt(b)
    ensures IsInt(s)
  {
    var s := a + b;
    if s >= HALF then s - WRAP else if s < -HALF then s + WRAP else s
  }

  /** The check on the buffer's address and size. */
  predicate RangeAccepted(addr: int, n: int)
    requires IsInt(addr) && IsInt(n)
  {
    addr >= USER_MEM && Sum(addr, n) <= USER_END
  }

  /**
   For a buffer of n bytes at any address, the check accepts exactly those inside the user page, if and
   only if it is in front of the page or address plus size does not wrap around; from the page on, a size
   that makes it wrap is always accepted.
   */
  lemma RangeExactly(addr: int, n: nat)
    requires IsInt(addr) && IsInt(n)
    ensures (RangeAccepted(addr, n) <==> 0x800_0000 <= addr && addr + n <= 0x840_0000)
       <==> addr < 0x800_0000 || addr + n < 0x8000_0000
    ensures addr >= 0x800_0000 && addr + n >= 0x8000_0000 ==> RangeAccepted(addr, n)
  {
  }

  /** A negative size is accepted exactly when it leads back from the page or from less than its size behind it. */
  lemma NegativeRange(addr: int, n: int)
    requires IsInt(addr) && IsInt(n) && n < 0
    ensures RangeAccepted(addr, n) <==> 0x800_0000 <= addr <= 0x840_0000 - n
  {
  }

  /** The largest size is accepted at the start of the user page. */
  lemma LargestSizeAccepted()
    ensures RangeAccepted(USER_MEM, HALF - 1) && USER_MEM + (HALF - 1) > USER_END
  {
  }

  /** A descriptor that can be read, with a buffer the check accepts. */
  predicate Accepted(fds: seq<Fd>, fd: nat, addr: int, n: int)
    requires |fds| == FDS && IsInt(addr) && IsInt(n)
  {
    RangeAccepted(addr, n) && fd < 7 && fd != 1 && fds[fd].flags != 0
  }

  /** With a buffer in range, exactly the open descriptors but 1 and 7 can be read, and none otherwise. */
  lemma ReadableDescriptors(fds: seq<Fd>, addr: int, n: int)
    requires |fds| == FDS && IsInt(addr) && IsInt(n)
    ensures (set fd: nat | fd < FDS && Accepted(fds, fd, addr, n))
         == (set fd: nat | fd < FDS && RangeAccepted(addr, n) && fd in {0, 2, 3, 4, 5, 6} && fds[fd].flags != 0)
    ensures forall fd: nat :: fd >= FDS ==> !Accepted(fds, fd, addr, n)
  {
  }

  /** Which descriptor the driver is told to read: for descriptor 0 it gets the position in its place. */
  function Told(fds: seq<Fd>, fd: nat): nat
    requires fd < |fds|
  {
    if fd == 0 then fds[0].position else fd
  }

  /** The file behind a descriptor is in the image, and what is read of it has room. */
  ghost predicate FileReady(img: Image, d: Fd, room: nat, n: int) {
    && 0 <= d.inode && img.Readable(d.inode) && d.position < WRAP && !Floods(img, d.inode, d.position, Word(n))
    && |ReadBytes(img, d.inode, d.position, Word(n))| <= room
  }

  ghost predicate DirectoryReady(img: Image, d: Fd, room: nat, n: int) {
    && Ok(img) && HasEntry(img, d.position)
    && (EntryAt(img, d.position).kind <= 2 ==> |Delivered(EntryAt(img, d.position), n)| <= room)
  }

  /** What the driver of a kind needs of its caller for the descriptor it is told. */
  ghost predicate Ready(img: Image, console: Console.Console, kind: nat, fds: seq<Fd>, at: nat, buf: array<byte>,
                        n: int)
    requires IsInt(n)
    reads if |console.terms| == TERMINALS then console.Repr() else {}
  {
    if kind == FILE_KIND then at < |fds| && FileReady(img, fds[at], buf.Length, n)
    else if kind == DIRECTORY_KIND then at < |fds| && DirectoryReady(img, fds[at], buf.Length, n)
    else if kind == TERMINAL_KIND then
      && console.Valid() && buf !in console.Repr()
      && (0 <= n < 1024 ==> console.Logical().Entered() && console.bufferPosition <= buf.Length)
    else kind == RTC_KIND
  }

  /** The result, the bytes and the descriptors when the file driver is told to read descriptor at. */
  function FileOutcome(img: Image, fds: seq<Fd>, at: nat, n: int): (int, seq<byte>, seq<Fd>)
    requires at < |fds| && 0 <= fds[at].inode && img.Readable(fds[at].inode)
    requires !Floods(img, fds[at].inode, fds[at].position, Word(n))
  {
    var d := fds[at];
    var r := ReadCount(img, d.inode, d.position, Word(n));
    (r, ReadBytes(img, d.inode, d.position, Word(n)), fds[at := d.(position := Word(d.position + r))])
  }

  /** The descriptors when the directory driver is told to read descriptor at. */
  function Listed(img: Image, fds: seq<Fd>, at: nat): seq<Fd>
    requires at < |fds| && Ok(img) && HasEntry(img, fds[at].position)
  {
    if EntryAt(img, fds[at].position).kind > 2 then fds
    else fds[at := fds[at].(position := fds[at].position + 1)]
  }

  /** The driver of the terminal, for a buffer that holds the line. */
  method ReadTerminal(console: Console.Console, buf: array<byte>, n: int) returns (r: int)
    requires console.Valid() && buf !in console.Repr()
    requires 0 <= n < 1024 ==> console.Logical().Entered() && console.bufferPosition <= buf.Length
    modifies console.Repr(), buf
    ensures console.Valid()
    ensures if 0 <= n < 1024 then
              var line := old(console.Logical().Line().Text());
              && r == |line| && |line| <= buf.Length && buf[..] == Stored(old(buf[..]), 0, line)
              && console.Logical() == Terminals.ReadLine(old(console.Logical()))
            else r == -1 && buf[..] == old(buf[..]) && console.Logical() == old(console.Logical())
  {
    hide Stored, Terminals.ReadLine, Console.Console.Logical;
    r := console.TerminalRead(buf, 0, n);
  }

  /**
   read. A call that is not accepted reports -1 and changes nothing; otherwise the driver of the
   descriptor decides: the rest of a file, a directory entry, an entered line, or nothing for the clock.
   */
  method Read(img: Image, console: Console.Console, fds: array<Fd>, fd: nat, addr: int, buf: array<byte>, n: int)
    returns (r: int)
    requires fds.Length == FDS && IsInt(addr) && IsInt(n) && console.Valid() && buf !in console.Repr()
    requires Accepted(fds[..], fd, addr, n) ==>
      Ready(img, console, fds[fd].kind, fds[..], Told(fds[..], fd), buf, n)
    modifies fds, buf, console.Repr()
    ensures console.Valid()
    ensures !old(Accepted(fds[..], fd, addr, n)) ==>
      r == -1 && fds[..] == old(fds[..]) && buf[..] == old(buf[..]) && console.Logical() == old(console.Logical())
    ensures old(Accepted(fds[..], fd, addr, n)) && old(fds[fd].kind) == FILE_KIND ==>
      var (count, s, after) := FileOutcome(img, old(fds[..]), Told(old(fds[..]), fd), n);
      r == count && buf[..] == s + old(buf[|s|..]) && fds[..] == after
    ensures old(Accepted(fds[..], fd, addr, n)) && old(fds[fd].kind) == DIRECTORY_KIND ==>
      var at := Told(old(fds[..]), fd); var d := EntryAt(img, old(fds[..])[at].position);
      && fds[..] == Listed(img, old(fds[..]), at)
      && if d.kind > 2 then r == 0 && buf[..] == old(buf[..])
         else r == |Delivered(d, n)| && buf[..] == Delivered(d, n) + old(buf[r..])
    ensures old(Accepted(fds[..], fd, addr, n)) && old(fds[fd].kind) == TERMINAL_KIND ==>
      && fds[..] == old(fds[..])
      && if 0 <= n < 1024 then
           var line := old(console.Logical().Line().Text());
           && r == |line| && buf[..] == Stored(old(buf[..]), 0, line)
           && console.Logical() == Terminals.ReadLine(old(console.Logical()))
         else r == -1 && buf[..] == old(buf[..]) && console.Logical() == old(console.Logical())
    ensures old(Accepted(fds[..], fd, addr, n)) && old(fds[fd].kind) == RTC_KIND ==>
      r == 0 && fds[..] == old(fds[..]) && buf[..] == old(buf[..])
    ensures fd >= FDS || old(fds[fd].kind) != TERMINAL_KIND ==> console.Logical() == old(console.Logical())
  {
    hide ReadBytes, ReadCount, EntryAt, Delivered, Stored, Terminals.ReadLine, Console.Console.Logical;
    if addr < USER_MEM {
      return -1;
    }
    if Sum(addr, n) > USER_END {
      return -1;
    }
    if fd >= 7 || fd == 1 {
      return -1;
    }
    if fds[fd].flags == 0 {
      return -1;
    }
    if fds[fd].kind == TERMINAL_KIND {
      r := ReadTerminal(console, buf, n);
    } else if fds[fd].kind == FILE_KIND {
      r := FileRead(img, fds, if fd == 0 then fds[0].position else fd, buf, n);
    } else if fds[fd].kind == DIRECTORY_KIND {
      r := DirectoryRead(img, fds, if fd == 0 then fds[0].position else fd, buf, n);
    } else {
      r := 0;
    }
  }

  // ---------------------------------------------------------------- descriptor 0

  /** There is nothing to read: the file is at its end, or no byte is asked for. */
  predicate NothingLeft(img: Image, d: Fd, n: int)
    requires 0 <= d.inode && INODE_WORDS * d.inode < |img.words|
  {
    d.position == img.Length(d.inode) || (n == 0 && d.inode <= img.inodesNum && d.position < img.Length(d.inode))
  }

  /**
   A read on descriptor 0, open on a file, is the read it should be if and only if it is at its start, or
   neither its file nor the one behind the descriptor that its position names has anything to deliver.
   */
  lemma ZeroReadsItself(img: Image, fds: seq<Fd>, n: int)
    requires fds != [] && IsInt(n) && Told(fds, 0) < |fds|
    requires FileReady(img, fds[0], WRAP, n) && FileReady(img, fds[Told(fds, 0)], WRAP, n)
    ensures FileOutcome(img, fds, Told(fds, 0), n) == FileOutcome(img, fds, 0, n)
       <==> fds[0].position == 0 || (NothingLeft(img, fds[0], n) && NothingLeft(img, fds[Told(fds, 0)], n))
  {
    hide ReadBytes, ReadCount;
    var at := Told(fds, 0);
    MovesUnless(img, fds[0], n);
    MovesUnless(img, fds[at], n);
    var own, told := FileOutcome(img, fds, 0, n), FileOutcome(img, fds, at, n);
    if at != 0 {
      assert told.2[0] == fds[0] && own.2[at] == fds[at];
      assert fds[0 := fds[0]] == fds == fds[at := fds[at]];
    }
  }

  /** A read leaves the position where it was exactly when there is nothing to read. */
  lemma MovesUnless(img: Image, d: Fd, n: int)
    requires IsInt(n) && FileReady(img, d, WRAP, n)
    ensures var r := ReadCount(img, d.inode, d.position, Word(n));
            && (Word(d.position + r) == d.position <==> NothingLeft(img, d, n))
            && (NothingLeft(img, d, n) ==> r == 0 && ReadBytes(img, d.inode, d.position, Word(n)) == [])
  {
  }

  /** The same for a directory behind descriptor 0: both entries are of no known type. */
  lemma ZeroListsItself(img: Image, fds: seq<Fd>)
    requires fds != [] && Told(fds, 0) < |fds| && Ok(img)
    requires HasEntry(img, fds[0].position) && HasEntry(img, fds[Told(fds, 0)].position)
    ensures var at := Told(fds, 0);
            (Listed(img, fds, at) == Listed(img, fds, 0)
             <==> at == 0 || (EntryAt(img, fds[0].position).kind > 2 && EntryAt(img, fds[at].position).kind > 2))
  {
    hide EntryAt;
    var at := Told(fds, 0);
    var own, told := Listed(img, fds, 0), Listed(img, fds, at);
    if at != 0 {
      assert told[0] == fds[0] && own[at] == fds[at];
    }
  }

  /** The descriptors after k listings on descriptor at. */
  function ListedTimes(img: Image, fds: seq<Fd>, at: nat, k: nat): (r: seq<Fd>)
    requires at < |fds| && Ok(img) && HasEntry(img, fds[at].position + k)
    ensures |r| == |fds| && r[at].position <= fds[at].position + k
  {
    if k == 0 then fds else Listed(img, ListedTimes(img, fds, at, k - 1), at)
  }

  /** As long as entries have a known type, each listing goes on to the next one, and no other descriptor moves. */
  lemma {:induction false} ListedInOrder(img: Image, fds: seq<Fd>, at: nat, k: nat)
    requires at < |fds| && Ok(img) && HasEntry(img, fds[at].position + k)
    requires forall i :: fds[at].position <= i < fds[at].position + k ==> EntryAt(img, i).kind <= 2
    ensures ListedTimes(img, fds, at, k) == fds[at := fds[at].(position := fds[at].position + k)]
  {
    hide EntryAt;
    if k == 0 {
      assert fds[at := fds[at]] == fds;
    } else {
      ListedInOrder(img, fds, at, k - 1);
    }
  }

  /** A file that descriptor 0 has open: its second read goes to the descriptor with the number of bytes read. */
  method SecondReadMisses(img: Image, console: Console.Console, fds: array<Fd>, buf: array<byte>)
    requires fds.Length == FDS && console.Valid() && buf !in console.Repr() && buf.Length == 2
    requires Reading(img, fds[0]) && fds[0].flags != 0 && fds[0].position == 0 && img.Length(fds[0].inode) > 2
    requires Reading(img, fds[2]) && fds[2].position == 0 && img.Length(fds[2].inode) > 2
    modifies fds, buf, console.Repr()
    ensures fds[..] == old(fds[..])[0 := old(fds[0]).(position := 2)][2 := old(fds[2]).(position := 2)]
    ensures buf[..] == img.File(old(fds[2]).inode)[..2]
  {
    hide ReadBytes, ReadCount, EntryAt, Delivered, Console.Console.Logical, Console.Console.Valid, Image.File;
    ghost var first, second := fds[0], fds[2];
    PlainRead(img, first, 2);
    PlainRead(img, second, 2);
    var r := Read(img, console, fds, 0, USER_MEM, buf, 2);
    r := Read(img, console, fds, 0, USER_MEM, buf, 2);
    assert old(buf[2..]) == [];
  }

  /**
   From boot: a process gets a file as descriptor 0, and again as 1 and 2. Two reads of two bytes on
   descriptor 0 deliver the same two bytes.
   */
  method ZeroReadTwice(img: Image, console: Console.Console, inode: nat, buf: array<byte>)
    requires console.Valid() && buf !in console.Repr() && buf.Length == 2
    requires img.Readable(inode) && inode <= img.inodesNum && img.Length(inode) > 2
    modifies buf, console.Repr()
    ensures buf[..] == img.File(inode)[..2]
  {
    hide Console.Console.Logical, Console.Console.Valid, Image.File, Processes.Kernel.Valid, Processes.Kernel.Abs;
    var kernel := Processes.FreeDescriptorZero();
    var zero, one, two := Processes.OpenReturnsZero(kernel, inode);
    CurrentFds(kernel);
    SecondReadMisses(img, console, kernel.filedArray.fds, buf);
  }

  lemma CurrentFds(kernel: Processes.Kernel)
    requires kernel.Valid() && kernel.Abs().filed == 2
    ensures kernel.filedArray != null && kernel.filedArray.fds in kernel.repr
    ensures kernel.filedArray.fds.Length == FDS && kernel.filedArray.fds[..] == kernel.Abs().pcbs[2].fds
  {
  }
}
