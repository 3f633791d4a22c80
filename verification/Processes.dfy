/**
 The process bookkeeping as the kernel updates it (scall.c, terminal.c): globals, process control
 blocks and descriptor arrays assigned step by step. Each call is proved to be the step of the same
 name on the Table of module ProcessTable.
 */
module Processes {
  import opened Limits
  import opened ProcessTable

  /** PCB_t at its fixed place in kernel memory. */
  class PcbCell {
    const pid: nat
    const fds: array<Fd>
    var parent: int
    var tssEsp0: int

    constructor (pid: nat)
      ensures this.pid == pid && fresh(fds) && fds.Length == FDS
    {
      this.pid := pid;
      fds := new Fd[FDS](_ => Fd(0, 0, 0, 0));
      parent, tssEsp0 := 0, 0;
    }

    ghost function Value(): Pcb
      reads this, fds
    {
      Pcb(fds[..], parent, tssEsp0)
    }
  }

  class Kernel {
    const cells: seq<PcbCell>
    const pidCheck: array<bool>
    const termPid: array<int>
    ghost const repr: set<object>
    var curPid: int
    var newPid: int
    var curProcess: PcbCell?
    var filedArray: PcbCell?
    var userPage: int
    var esp0: int
    var displayed: nat

    ghost predicate Shape() {
      && |cells| == PIDS && pidCheck.Length == PIDS && termPid.Length == TERMINALS
      && (forall p :: 0 <= p < PIDS ==> cells[p].pid == p && cells[p].fds.Length == FDS)
      && (forall p, q :: 0 <= p < q < PIDS ==> cells[p].fds != cells[q].fds)
      && this in repr && pidCheck in repr && termPid in repr
      && (forall p :: 0 <= p < PIDS ==> cells[p] in repr && cells[p].fds in repr)
    }

    /** The kernel's data as it boots. */
    constructor ()
      ensures Valid() && fresh(repr) && Booting(Abs())
    {
      var made: seq<PcbCell>, i := [], 0;
      ghost var owned: set<object> := {};
      while i < PIDS
        invariant |made| == i <= PIDS && fresh(owned)
        invariant forall p :: 0 <= p < i ==> made[p] in owned && made[p].fds in owned
        invariant forall p :: 0 <= p < i ==> made[p].pid == p && made[p].fds.Length == FDS
        invariant forall p, q :: 0 <= p < q < i ==> made[p].fds != made[q].fds
      {
        var cell := new PcbCell(i);
        made := made + [cell];
        owned := owned + {cell, cell.fds};
        i := i + 1;
      }
      var used, terms := new bool[PIDS](_ => false), new int[TERMINALS](_ => -1);
      cells, pidCheck, termPid := made, used, terms;
      repr := {this, used, terms} + owned;
      curPid, newPid, curProcess, filedArray, userPage, esp0, displayed := -1, -1, null, null, 0, 0, 0;
    }

    ghost function Owner(cell: PcbCell?): int {
      if cell == null then -1 else cell.pid
    }

    ghost function Values(): (v: seq<Pcb>)
      requires Shape()
      reads repr
      ensures |v| == PIDS && forall p :: 0 <= p < PIDS ==> v[p] == cells[p].Value()
    {
      seq(PIDS, p requires Shape() && 0 <= p < PIDS reads repr => cells[p].Value())
    }

    ghost function Abs(): Table
      requires Shape()
      reads repr
    {
      Table(pidCheck[..], Values(), curPid, Owner(curProcess), Owner(filedArray), userPage, esp0, displayed,
          termPid[..])
    }

    ghost predicate Valid()
      reads repr
    {
      && Shape() && Abs().Shape()
      && (curProcess != null ==> curProcess in cells) && (filedArray != null ==> filedArray in cells)
    }

    /** The descriptor part of initialize_PCB. */
    method InitFds(cell: PcbCell)
      requires cell.fds.Length == FDS
      modifies cell.fds
      ensures cell.fds[..] == FreshFds(old(cell.fds[..]))
    {
      cell.fds[0] := TERMINAL_FD;
      cell.fds[1] := TERMINAL_FD;
      var count := 2;
      while count < FDS
        invariant 2 <= count <= FDS
        invariant cell.fds[0] == cell.fds[1] == TERMINAL_FD
        invariant forall i :: 2 <= i < FDS ==>
          cell.fds[i] == if i < count then old(cell.fds[i]).(flags := 0) else old(cell.fds[i])
      {
        cell.fds[count] := cell.fds[count].(flags := 0);
        count := count + 1;
      }
    }

    /** initialize_PCB for the pid in newPid. */
    method InitializePCB()
      requires Valid() && 0 <= newPid < PIDS
      modifies repr
      ensures Valid() && newPid == old(newPid) && userPage == old(userPage) && esp0 == old(esp0)
      ensures displayed == old(displayed) && pidCheck[..] == old(pidCheck[..])
      ensures curPid == newPid && curProcess == cells[newPid] && filedArray == cells[newPid]
      ensures termPid[..] == old(termPid[..])[displayed := newPid]
      ensures Values() == old(Values())[newPid := Pcb(FreshFds(old(Values()[newPid].fds)),
                                                     if old(termPid[displayed]) == -1 then -1 else old(curPid),
                                                     PcbAddress(newPid) + KERNEL_STACK_SIZE - 4)]
    {
      hide FreshFds;
      var cell := cells[newPid];
      if termPid[displayed] == -1 {
        cell.parent := -1;
      } else {
        cell.parent := curPid;
      }
      filedArray := cell;
      InitFds(cell);
      cell.tssEsp0 := PcbAddress(cell.pid) + KERNEL_STACK_SIZE - 4;
      curProcess := cell;
      curPid := cell.pid;
      termPid[displayed] := curPid;
    }

    /** execute up to the jump into the program: -1, or 0 where the real one does not return. */
    method Execute(loadable: bool) returns (r: int)
      requires Valid()
      modifies repr
      ensures Valid()
      ensures r == if CanExecute(old(Abs()), loadable) then 0 else -1
      ensures Abs() == ProcessTable.Execute(old(Abs()), loadable)
    {
      hide FreshFds, FreePid, PcbAddress;
      if !loadable {
        return -1;
      }
      var i, found := 0, false;
      while i < PIDS && !found
        invariant 0 <= i <= PIDS
        invariant forall k :: 0 <= k < i ==> pidCheck[k]
        invariant found ==> i < PIDS && !pidCheck[i]
        invariant pidCheck[..] == old(pidCheck[..])
        decreases PIDS - i, !found
      {
        if !pidCheck[i] {
          found := true;
        } else {
          i := i + 1;
        }
      }
      FreePidIs(pidCheck[..], i);
      if !found {
        return -1;
      }
      pidCheck[i] := true;
      newPid := i;
      userPage := 2 + newPid;
      assert Values() == old(Values());
      InitializePCB();
      esp0 := curProcess.tssEsp0;
      assert Values()[newPid].esp0 == esp0;
      return 0;
    }

    /** close */
    method Close(i: int) returns (r: int)
      requires Valid()
      modifies repr
      ensures Valid()
      ensures r == 0 || r == -1
      ensures r == 0 <==> 2 <= i < 7 && old(filedArray != null && filedArray.fds[i].flags != 0)
      ensures old(filedArray == null) ==> Abs() == old(Abs())
      ensures old(filedArray != null) ==> Abs() == WithFds(old(Abs()), ClosedFd(old(filedArray.fds[..]), i))
    {
      if filedArray == null {
        return -1;
      }
      r := CloseHere(i);
      FdsChanged(filedArray);
    }

    /** The rest of close, told by its effect on the descriptor array alone. */
    method CloseHere(i: int) returns (r: int)
      requires filedArray != null && filedArray.fds.Length == FDS
      modifies filedArray.fds
      ensures r == 0 || r == -1
      ensures r == 0 <==> 2 <= i < 7 && old(filedArray.fds[i].flags) != 0
      ensures filedArray.fds[..] == ClosedFd(old(filedArray.fds[..]), i)
    {
      if i >= 7 || i < 0 {
        return -1;
      }
      if i == 0 || i == 1 || filedArray.fds[i].flags == 0 {
        return -1;
      }
      filedArray.fds[i] := filedArray.fds[i].(flags := 0);
      return 0;
    }

    /** open, for a file found or not, and a driver that accepts it or not. */
    method Open(found: bool, kind: nat, inode: int, accepted: bool) returns (r: int)
      requires Valid()
      modifies repr
      ensures Valid()
      ensures old(filedArray == null || !found) ==> r == -1 && Abs() == old(Abs())
      ensures old(filedArray != null && found) ==>
        var s := old(Abs());
        && Abs() == WithFds(s, OpenedFds(s.pcbs[s.filed].fds, kind, inode, accepted))
        && var i := FreeFd(s.pcbs[s.filed].fds); r == if i < FDS && accepted then i else -1
    {
      if filedArray == null || !found {
        return -1;
      }
      var i := 0;
      while i < FDS
        invariant 0 <= i <= FDS
        invariant forall k :: 0 <= k < i ==> filedArray.fds[k].flags != 0
      {
        if filedArray.fds[i].flags == 0 {
          FreeFdIs(filedArray.fds[..], i);
          filedArray.fds[i] := Fd(kind, if kind == 0 then -1 else inode, 0, 0);
          if accepted {
            filedArray.fds[i] := filedArray.fds[i].(flags := 1);
          }
          assert filedArray.fds[..] == OpenedFds(old(filedArray.fds[..]), kind, inode, accepted);
          FdsChanged(filedArray);
          return if accepted then i else -1;
        }
        i := i + 1;
      }
      FreeFdIs(filedArray.fds[..], FDS);
      FdsChanged(filedArray);
      return -1;
    }

    /** The clean-up loop of halt over the descriptors behind the global array. */
    method CloseAll()
      requires Valid() && filedArray != null
      modifies filedArray.fds
      ensures Valid() && filedArray == old(filedArray)
      ensures Abs() == WithFds(old(Abs()), ClosedFds(old(filedArray.fds[..])))
    {
      var i := 2;
      while i < FDS
        invariant 2 <= i <= FDS
        invariant forall k :: 0 <= k < FDS ==>
          filedArray.fds[k] == if 2 <= k < i && k < 7 then old(filedArray.fds[k]).(flags := 0)
                               else old(filedArray.fds[k])
      {
        var r := CloseHere(i);
        i := i + 1;
      }
      filedArray.fds[0] := filedArray.fds[0].(flags := 0);
      var r := CloseHere(0);
      filedArray.fds[1] := filedArray.fds[1].(flags := 0);
      r := CloseHere(1);
      assert filedArray.fds[..] == ClosedFds(old(filedArray.fds[..]));
      FdsChanged(filedArray);
    }

    /** halt; for a terminal's first process the shell is taken to be loadable and control does not come back. */
    method Halt(status: nat) returns (result: nat)
      requires Valid() && CanHalt(Abs()) && status < 256
      modifies repr
      ensures Valid()
      ensures Abs() == ProcessTable.Halt(old(Abs()))
      ensures old(curProcess.parent) != -1 ==> result == if status == 0x0F then 256 else status
    {
      pidCheck[curPid] := false;
      var parentPid := curProcess.parent;
      if curProcess.parent == -1 {
        curPid := -1;
        assert Values() == old(Values());
        var r := Execute(true);
        return 0;
      }
      var parent := cells[parentPid];
      esp0 := parent.tssEsp0;
      userPage := 2 + parentPid;
      assert Values() == old(Values());
      CloseAll();
      filedArray := parent;
      curPid := parentPid;
      curProcess := parent;
      result := if status == 0x0F then 256 else status;
    }

    /** The process side of terminal_switch; the console side is Console.Console.TerminalSwitch. */
    method TerminalSwitch(newId: nat, loadable: bool)
      requires Valid() && newId < TERMINALS
      modifies repr
      ensures Valid()
      ensures Abs() == Switch(old(Abs()), newId, loadable)
    {
      if newId == displayed {
        return;
      }
      var launch := termPid[newId] == -1;
      SaveTerminal(displayed);
      RestoreTerminal(newId);
      displayed := newId;
      assert Values() == old(Values());
      if launch {
        var r := Execute(loadable);
      }
    }

    method SaveTerminal(tid: nat)
      requires Valid() && tid < TERMINALS
      modifies termPid
      ensures Valid() && termPid[..] == old(termPid[..])[tid := curPid]
    {
      termPid[tid] := curPid;
    }

    method RestoreTerminal(tid: nat)
      requires Valid() && tid < TERMINALS
      modifies this`curPid, this`curProcess
      ensures Valid() && curPid == termPid[tid] && Owner(curProcess) == curPid
    {
      curPid := termPid[tid];
      curProcess := if curPid == -1 then null else cells[curPid];
    }

    /** One event; a halt without a running process and a terminal that does not exist are ignored. */
    method Perform(e: Event)
      requires Valid() && Inv(Abs())
      modifies repr
      ensures Valid() && Inv(Abs()) && Abs() == Step(old(Abs()), e)
    {
      hide ProcessTable.Execute, ProcessTable.Halt, Switch, Step, Inv;
      StepIs(Abs(), e);
      match e {
        case ExecuteEvent(loadable) =>
          var r := Execute(loadable);
        case HaltEvent =>
          if curPid != -1 {
            var r := Halt(0);
          }
        case SwitchEvent(t, loadable) =>
          if t < TERMINALS {
            TerminalSwitch(t, loadable);
          }
      }
    }

    /** Any run of events on the kernel's globals and control blocks is the run of the table's steps. */
    method Play(es: seq<Event>)
      requires Valid() && Inv(Abs())
      modifies repr
      ensures Valid() && Inv(Abs()) && Abs() == Run(old(Abs()), es)
    {
      hide ProcessTable.Step, Inv;
      ghost var goal := Run(Abs(), es);
      assert es[0..] == es;
      for i := 0 to |es|
        invariant Valid() && Inv(Abs()) && Run(Abs(), es[i..]) == goal
      {
        assert es[i..][0] == es[i] && es[i..][1..] == es[i + 1..];
        Perform(es[i]);
      }
    }

    /** Only the descriptors of one process changed. */
    twostate lemma FdsChanged(cell: PcbCell)
      requires old(Valid()) && cell in cells
      requires forall p :: 0 <= p < PIDS && cells[p] != cell ==> cells[p].Value() == old(cells[p].Value())
      requires cell.parent == old(cell.parent) && cell.tssEsp0 == old(cell.tssEsp0)
      ensures Values() == old(Values())[cell.pid := old(cell.Value()).(fds := cell.fds[..])]
    {
    }
  }

  /** From boot, programs started and halted on two terminals, until descriptor 0 of one of them is free. */
  method FreeDescriptorZero() returns (kernel: Kernel)
    ensures fresh(kernel.repr) && kernel.Valid()
    ensures kernel.Abs().filed == 2 && forall i :: 0 <= i < 7 ==> kernel.Abs().pcbs[2].fds[i].flags == 0
  {
    kernel := new Kernel();
    hide ProcessTable.Execute, ProcessTable.Halt, Switch, CanHalt, Kernel.Valid, Kernel.Abs;
    Running(kernel);
    DescriptorZeroIsFreed(kernel.Abs());
    var r := kernel.Execute(true);
    r := kernel.Execute(true);
    kernel.TerminalSwitch(1, true);
    kernel.TerminalSwitch(0, true);
    var status := kernel.Halt(0);
    kernel.TerminalSwitch(1, true);
    r := kernel.Execute(true);
    status := kernel.Halt(0);
  }

  lemma OpenedAt(fds: seq<Fd>, i: nat, inode: int)
    requires i < |fds| && (forall k :: 0 <= k < i ==> fds[k].flags != 0) && fds[i].flags == 0
    ensures FreeFd(fds) == i && OpenedFds(fds, 2, inode, true) == fds[i := Fd(2, inode, 0, 1)]
  {
    FreeFdIs(fds, i);
  }

  /** There open returns 0, and then 1 and 2: three descriptors at the start of the file. */
  method OpenReturnsZero(kernel: Kernel, inode: int) returns (zero: int, one: int, two: int)
    requires kernel.Valid() && kernel.Abs().filed == 2
    requires forall i :: 0 <= i < 7 ==> kernel.Abs().pcbs[2].fds[i].flags == 0
    modifies kernel.repr
    ensures zero == 0 && one == 1 && two == 2
    ensures kernel.Valid() && kernel.Abs().filed == 2
    ensures forall i :: 0 <= i <= 2 ==> kernel.Abs().pcbs[2].fds[i] == Fd(2, inode, 0, 1)
  {
    hide OpenedFds, FreeFd, Kernel.Valid, Kernel.Abs;
    Running(kernel);
    OpenedAt(kernel.Abs().pcbs[2].fds, 0, inode);
    zero := kernel.Open(true, 2, inode, true);
    Running(kernel);
    OpenedAt(kernel.Abs().pcbs[2].fds, 1, inode);
    one := kernel.Open(true, 2, inode, true);
    Running(kernel);
    OpenedAt(kernel.Abs().pcbs[2].fds, 2, inode);
    two := kernel.Open(true, 2, inode, true);
  }

  lemma Running(kernel: Kernel)
    requires kernel.Valid()
    ensures kernel.Shape() && kernel.Abs().Shape()
    ensures kernel.Abs().filed >= 0 ==> kernel.filedArray != null
  {
  }

  lemma {:induction false} FreePidIs(used: seq<bool>, i: nat)
    requires i <= |used| && (i < |used| ==> !used[i])
    requires forall k :: 0 <= k < i ==> used[k]
    ensures FreePid(used) == i
  {
    if i > 0 { FreePidIs(used[1..], i - 1); }
  }
}
