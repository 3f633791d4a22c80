/** The system calls that take a name (scall.c): execute with its command, and open with its file name. */
module SystemCalls {
  import opened Bytes
  import opened ProcessTable
  import opened FileSystem
  import opened Directory
  import opened Loader
  import Processes

  const PROGRAM_AT: nat := 0x4_8000     // where a program goes in the user page
  const USER_PAGE: nat := 0x40_0000
  const LOAD_SIZE: nat := 0x40_0000     // how much of it execute asks for

  /** Step 4 of execute. What it asks for is at least the whole file. */
  method LoadProgram(img: Image, inode: nat, memory: array<byte>)
    requires img.Readable(inode) && PROGRAM_AT + |img.File(inode)| <= memory.Length
    modifies memory
    ensures memory[..] == if inode > img.inodesNum then old(memory[..])
                          else Stored(old(memory[..]), PROGRAM_AT, img.File(inode))
    ensures inode <= img.inodesNum && PROGRAM_AT + |img.File(inode)| > USER_PAGE ==>
      memory[USER_PAGE] == img.File(inode)[USER_PAGE - PROGRAM_AT]
    ensures PROGRAM_AT + |img.File(inode)| <= USER_PAGE <= memory.Length ==>
      memory[USER_PAGE..] == old(memory[USER_PAGE..])
  {
    StoreBehind(memory[..], PROGRAM_AT, img.File(inode), USER_PAGE - PROGRAM_AT);
    hide Stored;
    BytesRead(img, inode, 0, LOAD_SIZE);
    var done := ReadData(img, inode, 0, memory, PROGRAM_AT, LOAD_SIZE);
  }

  /** A file that is one byte too long for the page goes on behind it. */
  method OneByteTooLong(img: Image, inode: nat, memory: array<byte>)
    requires img.Readable(inode) && inode <= img.inodesNum && |img.File(inode)| == USER_PAGE - PROGRAM_AT + 1
    requires USER_PAGE < memory.Length && memory[USER_PAGE] != img.File(inode)[USER_PAGE - PROGRAM_AT]
    modifies memory
    ensures memory[USER_PAGE] != old(memory[USER_PAGE])
  {
    LoadProgram(img, inode, memory);
  }

  /** execute up to the jump: the checks of its command, a new process, and the program's file in the user page. */
  method Execute(kernel: Processes.Kernel, img: Image, command: seq<byte>, stack: array<byte>, at: nat, was: Dentry,
                 data: array<byte>, memory: array<byte>)
    returns (r: int)
    requires kernel.Valid() && HasFile(img, ProgramName(command), was) && NoNul(command)
    requires at + PART_MAX < stack.Length && data.Length == 4
    requires data != stack && data != memory && stack != memory && {stack, data, memory} !! kernel.repr
    requires Loadable(img, command, was, data[..]) ==>
      PROGRAM_AT + |img.File(Found(img, ProgramName(command), was).inode)| <= memory.Length
    modifies kernel.repr, stack, data, memory
    ensures kernel.Valid()
    ensures var loadable := Loadable(img, command, was, old(data[..]));
            && kernel.Abs() == ProcessTable.Execute(old(kernel.Abs()), loadable)
            && r == if CanExecute(old(kernel.Abs()), loadable) then 0 else -1
    ensures var d := Found(img, ProgramName(command), was);
            memory[..] == if r == -1 || d.inode > img.inodesNum then old(memory[..])
                          else Stored(old(memory[..]), PROGRAM_AT, img.File(d.inode))
    ensures r == 0 ==>
      var d := Found(img, ProgramName(command), was); var end := PROGRAM_AT + |img.File(d.inode)|;
      && (end > USER_PAGE && d.inode <= img.inodesNum ==>
            memory[USER_PAGE] == img.File(d.inode)[USER_PAGE - PROGRAM_AT])
      && (end <= USER_PAGE <= memory.Length ==> memory[USER_PAGE..] == old(memory[USER_PAGE..]))
  {
    hide Loadable, Found, ProcessTable.Execute, FreePid, Stored, Image.Readable, Image.File;
    var loadable, d := Load(img, command, stack, at, was, data);
    r := kernel.Execute(loadable);
    if r == 0 {
      LoadProgram(img, d.inode, memory);
    }
  }

  /**
   open by name: it fails exactly without a running process, for a name that is not found, and with
   every descriptor in use. Every driver accepts what was found.
   */
  method Open(kernel: Processes.Kernel, img: Image, name: seq<byte>, stack: array<byte>, at: nat, was: Dentry)
    returns (r: int)
    requires kernel.Valid() && Ok(img) && NoNul(name)
    requires at + NAME < stack.Length && at + |name| < stack.Length && stack !in kernel.repr
    modifies kernel.repr, stack
    ensures kernel.Valid()
    ensures var s, k := old(kernel.Abs()), FirstNamed(img, Take(name, NAME), 0);
            if s.filed < 0 || k == SCANNED then r == -1 && kernel.Abs() == s
            else
              var d, i := if k <= img.dentryNum then img.dentries[k] else was, FreeFd(s.pcbs[s.filed].fds);
              && kernel.Abs() == WithFds(s, OpenedFds(s.pcbs[s.filed].fds, d.kind, d.inode, true))
              && r == if i < FDS then i else -1
  {
    hide FirstNamed, OpenedFds, FreeFd;
    if kernel.filedArray == null {
      return -1;
    }
    var found, d := ReadDentryByName(img, name, stack, at, was);
    r := kernel.Open(found == 0, d.kind, d.inode, true);
  }
}
