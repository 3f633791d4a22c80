/**
 The process table as a value (scall.c, terminal.c): which pids are in use, who started whom, which
 process each terminal runs, and the globals that follow the running process. Pointers to process
 control blocks are pids; -1 stands for the address the kernel computes when there is no process.
 */
module ProcessTable {
  import opened Limits

  const PIDS: nat := 6
  const FDS: nat := 8
  const TERMINAL_KIND: nat := 3
  const RTC: nat := 0
  const KERNEL_STACK_SIZE: nat := 0x2000
  const END_OF_KERNEL: nat := 0x800000
  const PAGE_SHIFT: nat := 0x400000   // 4 MB

  /** fdarray: the driver, the file and how far it was read; flags 0 means free. */
  datatype Fd = Fd(kind: nat, inode: int, position: nat, flags: nat)

  /** PCB_t without saved stack pointers and argument. */
  datatype Pcb = Pcb(fds: seq<Fd>, parent: int, esp0: int)

  datatype Table = Table(used: seq<bool>, pcbs: seq<Pcb>, curPid: int, curProcess: int, filed: int,
                         userPage: int, esp0: int, displayed: nat, termPid: seq<int>)
  {
    ghost predicate Shape() {
      && |used| == |pcbs| == PIDS && |termPid| == TERMINALS && displayed < TERMINALS
      && (forall p :: 0 <= p < PIDS ==> |pcbs[p].fds| == FDS)
      && (forall t :: 0 <= t < TERMINALS ==> -1 <= termPid[t] < PIDS)
      && -1 <= curPid < PIDS && -1 <= curProcess < PIDS && -1 <= filed < PIDS
    }

    /** The process a terminal runs: the current pid is authoritative for the displayed one. */
    function Head(t: nat): int
      requires t < |termPid|
    {
      if t == displayed then curPid else termPid[t]
    }

    /** The globals all belong to the current process. */
    ghost predicate Coherent()
      requires |pcbs| == PIDS
    {
      0 <= curPid < PIDS && curProcess == curPid && filed == curPid && userPage == 2 + curPid
        && esp0 == pcbs[curPid].esp0
    }
  }

  function PcbAddress(pid: int): int { END_OF_KERNEL - KERNEL_STACK_SIZE * (pid + 1) }

  // ---------------------------------------------------------------- steps

  /** The lowest free pid, or PIDS. */
  function FreePid(used: seq<bool>): (p: nat)
    ensures p <= |used| && (p < |used| ==> !used[p])
    ensures forall q :: 0 <= q < p ==> used[q]
  {
    if used == [] || !used[0] then 0 else 1 + FreePid(used[1..])
  }

  const TERMINAL_FD: Fd := Fd(TERMINAL_KIND, 0, 0, 1)

  /** Descriptors of a new process: the two terminal ones, the rest free with stale contents. */
  function FreshFds(fds: seq<Fd>): seq<Fd>
    requires |fds| == FDS
  {
    [TERMINAL_FD, TERMINAL_FD] + seq(FDS - 2, i requires 0 <= i < FDS - 2 => fds[i + 2].(flags := 0))
  }

  predicate CanExecute(s: Table, loadable: bool) {
    loadable && FreePid(s.used) < |s.used|
  }

  /** execute, up to the jump into the new program; a failed call changes nothing. */
  function Execute(s: Table, loadable: bool): (r: Table)
    requires s.Shape()
    ensures r.Shape()
  {
    if !CanExecute(s, loadable) then s
    else
      var p := FreePid(s.used);
      var parent := if s.termPid[s.displayed] == -1 then -1 else s.curPid;
      var esp0 := PcbAddress(p) + KERNEL_STACK_SIZE - 4;
      Table(s.used[p := true], s.pcbs[p := Pcb(FreshFds(s.pcbs[p].fds), parent, esp0)],
            p, p, p, 2 + p, esp0, s.displayed, s.termPid[s.displayed := p])
  }

  /** Descriptors after halt closed them: 2 to 6 by close, 0 and 1 by hand; 7 is out of close's range. */
  function ClosedFds(fds: seq<Fd>): seq<Fd>
    requires |fds| == FDS
  {
    seq(FDS, i requires 0 <= i < FDS => if i < 7 then fds[i].(flags := 0) else fds[i])
  }

  /** A process runs, started by no one or by a process with a valid pid. */
  ghost predicate CanHalt(s: Table) {
    s.Shape() && 0 <= s.curPid == s.curProcess && -1 <= s.pcbs[s.curPid].parent < PIDS && 0 <= s.filed
  }

  /** halt: back to the parent, or a new shell in place of a terminal's first process. */
  function Halt(s: Table): (r: Table)
    requires CanHalt(s)
    ensures r.Shape()
  {
    var used, parent := s.used[s.curPid := false], s.pcbs[s.curPid].parent;
    if parent == -1 then Execute(s.(used := used, curPid := -1), true)
    else
      var pcbs := WithFds(s, ClosedFds(s.pcbs[s.filed].fds)).pcbs;
      Table(used, pcbs, parent, parent, parent, 2 + parent, pcbs[parent].esp0, s.displayed, s.termPid)
  }

  /** terminal_switch: a terminal without a process gets a shell. */
  function Switch(s: Table, t: nat, loadable: bool): (r: Table)
    requires s.Shape() && t < TERMINALS
    ensures r.Shape()
  {
    if t == s.displayed then s
    else
      var r := s.(termPid := s.termPid[s.displayed := s.curPid],
                  curPid := s.termPid[t], curProcess := s.termPid[t], displayed := t);
      if s.termPid[t] == -1 then Execute(r, loadable) else r
  }

  /** The table after the descriptors behind the global array became fds. */
  function WithFds(s: Table, fds: seq<Fd>): Table
    requires s.Shape() && s.filed >= 0
  {
    s.(pcbs := s.pcbs[s.filed := s.pcbs[s.filed].(fds := fds)])
  }

  /** The lowest free descriptor, or FDS. */
  function FreeFd(fds: seq<Fd>): (i: nat)
    ensures i <= |fds| && (i < |fds| ==> fds[i].flags == 0)
    ensures forall k :: 0 <= k < i ==> fds[k].flags != 0
  {
    if fds == [] || fds[0].flags == 0 then 0 else 1 + FreeFd(fds[1..])
  }

  /** open: the lowest free slot gets the file; it stays free when the driver refuses. */
  function OpenedFds(fds: seq<Fd>, kind: nat, inode: int, accepted: bool): seq<Fd> {
    var i := FreeFd(fds);
    if i == |fds| then fds
    else fds[i := Fd(kind, if kind == 0 then -1 else inode, 0, if accepted then 1 else 0)]
  }

  function ClosedFd(fds: seq<Fd>, i: int): seq<Fd>
    requires |fds| == FDS
  {
    if 2 <= i < 7 then fds[i := fds[i].(flags := 0)] else fds
  }

  /** Opening and then closing gives back every other descriptor, and the slot is free again. */
  lemma {:induction false} OpenClose(fds: seq<Fd>, kind: nat, inode: int)
    requires |fds| == FDS && fds[0].flags != 0 && fds[1].flags != 0
    ensures var i, r := FreeFd(fds), OpenedFds(fds, kind, inode, true);
            && 2 <= i
            && (i < 7 ==> |ClosedFd(r, i)| == FDS && FreeFd(ClosedFd(r, i)) == i
                          && forall k :: 0 <= k < FDS && k != i ==> ClosedFd(r, i)[k] == fds[k])
            && (i == 7 ==> ClosedFd(r, i) == r && r[7].flags == 1)
            && (i < FDS ==> r[i].kind == kind && r[i].position == 0 && r[i].flags != 0
                            && r[i].inode == if kind == RTC then -1 else inode)
  {
    var i := FreeFd(fds);
    if i < 7 {
      FreeFdIs(ClosedFd(OpenedFds(fds, kind, inode, true), i), i);
    }
  }

  /** A file whose driver refuses it leaves every open descriptor as it is, and the slot free for the next one. */
  lemma RefusedOpen(fds: seq<Fd>, kind: nat, inode: int)
    ensures var r := OpenedFds(fds, kind, inode, false);
            && |r| == |fds| && FreeFd(r) == FreeFd(fds)
            && forall k :: 0 <= k < |fds| ==> (r[k].flags == 0 <==> fds[k].flags == 0)
                                              && (fds[k].flags != 0 ==> r[k] == fds[k])
  {
    FreeFdIs(OpenedFds(fds, kind, inode, false), FreeFd(fds));
  }

  lemma {:induction false} FreeFdIs(fds: seq<Fd>, i: nat)
    requires i <= |fds| && (i < |fds| ==> fds[i].flags == 0)
    requires forall k :: 0 <= k < i ==> fds[k].flags != 0
    ensures FreeFd(fds) == i
  {
    if i > 0 { FreeFdIs(fds[1..], i - 1); }
  }

  // ---------------------------------------------------------------- parent chains

  /** c lists a process, its parent, and so on up to the one started by no one. */
  ghost predicate Chain(pcbs: seq<Pcb>, c: seq<nat>, head: int) {
    if c == [] then head == -1
    else c[0] == head && head < |pcbs| && Chain(pcbs, c[1..], pcbs[head].parent)
  }

  /** How often a pid occurs in the chains. */
  ghost function Occurs(cs: seq<seq<nat>>, p: nat): nat
    requires |cs| == TERMINALS
  {
    multiset(cs[0])[p] + multiset(cs[1])[p] + multiset(cs[2])[p]
  }

  /** One chain per terminal, and every pid in use in exactly one place of one chain, every other in none. */
  ghost predicate Chains(s: Table, cs: seq<seq<nat>>)
    requires |s.termPid| == TERMINALS
  {
    && |cs| == TERMINALS
    && (forall t :: 0 <= t < TERMINALS ==> Chain(s.pcbs, cs[t], s.Head(t)))
    && forall p :: 0 <= p < |s.used| ==> Occurs(cs, p) == if s.used[p] then 1 else 0
  }

  ghost predicate Sound(s: Table, cs: seq<seq<nat>>) {
    && s.Shape() && Chains(s, cs) && s.curProcess == s.curPid
    && (s.termPid[s.displayed] == -1 ==> s.curPid == -1)
    && forall p :: 0 <= p < PIDS && s.used[p] ==>
         s.filed != -1 && s.pcbs[p].esp0 == PcbAddress(p) + KERNEL_STACK_SIZE - 4
  }

  ghost predicate Inv(s: Table) {
    exists cs :: Sound(s, cs)
  }

  lemma {:induction false} ChainFrame(a: seq<Pcb>, b: seq<Pcb>, c: seq<nat>, head: int)
    requires Chain(a, c, head) && |a| == |b|
    requires forall i :: 0 <= i < |c| && c[i] < |a| ==> b[c[i]].parent == a[c[i]].parent
    ensures Chain(b, c, head)
  {
    if c != [] {
      assert forall i :: 0 <= i < |c[1..]| ==> c[1..][i] == c[i + 1];
      ChainFrame(a, b, c[1..], a[head].parent);
    }
  }

  lemma {:induction false} ChainInRange(pcbs: seq<Pcb>, c: seq<nat>, head: int)
    requires Chain(pcbs, c, head)
    ensures forall p <- c :: p < |pcbs|
    ensures -1 <= head < |pcbs| && (head == -1 <==> c == [])
  {
    if c != [] {
      ChainInRange(pcbs, c[1..], pcbs[head].parent);
      assert c == [c[0]] + c[1..];
    }
  }

  lemma OccursIn(cs: seq<seq<nat>>, t: nat, i: nat)
    requires |cs| == TERMINALS && t < TERMINALS && i < |cs[t]|
    ensures Occurs(cs, cs[t][i]) >= 1
  {
    assert cs[t][i] in multiset(cs[t]);
  }

  /** A chain does not mention a pid that is not in use. */
  lemma NotInChains(s: Table, cs: seq<seq<nat>>, p: nat, t: nat)
    requires s.Shape() && Chains(s, cs) && p < PIDS && !s.used[p] && t < TERMINALS
    ensures p !in cs[t]
  {
    if p in cs[t] {
      var i :| 0 <= i < |cs[t]| && cs[t][i] == p;
      OccursIn(cs, t, i);
    }
  }

  lemma PushOccurs(cs: seq<seq<nat>>, d: nat, p: nat, q: nat)
    requires |cs| == TERMINALS && d < TERMINALS
    ensures Occurs(cs[d := [p] + cs[d]], q) == Occurs(cs, q) + if p == q then 1 else 0
  {
    assert multiset([p] + cs[d]) == multiset{p} + multiset(cs[d]);
  }

  lemma PopOccurs(cs: seq<seq<nat>>, d: nat, q: nat)
    requires |cs| == TERMINALS && d < TERMINALS && cs[d] != []
    ensures Occurs(cs[d := cs[d][1..]], q) == Occurs(cs, q) - if cs[d][0] == q then 1 else 0
  {
    assert cs[d] == [cs[d][0]] + cs[d][1..];
  }

  /** execute puts the new process at the head of the displayed terminal's chain. */
  lemma ExecuteKeeps(s: Table, cs: seq<seq<nat>>, loadable: bool)
    requires Sound(s, cs) && CanExecute(s, loadable)
    ensures var p, d := FreePid(s.used), s.displayed;
            Sound(Execute(s, loadable), cs[d := [p] + cs[d]])
  {
    var p, d, r := FreePid(s.used), s.displayed, Execute(s, loadable);
    var cs' := cs[d := [p] + cs[d]];
    forall t | 0 <= t < TERMINALS ensures Chain(r.pcbs, cs'[t], r.Head(t)) {
      NotInChains(s, cs, p, t);
      ChainFrame(s.pcbs, r.pcbs, cs[t], s.Head(t));
      if t == d { assert cs'[d][1..] == cs[d]; }
    }
    forall q | 0 <= q < PIDS ensures Occurs(cs', q) == if r.used[q] then 1 else 0 {
      PushOccurs(cs, d, p, q);
    }
  }

  /** Descriptors as initialize_PCB leaves them: the first two on the terminal and open, the others free. */
  ghost predicate Fresh(fds: seq<Fd>) {
    && |fds| == FDS && (forall i :: 0 <= i < FDS ==> (fds[i].flags != 0 <==> i < 2))
    && forall i :: 0 <= i < 2 ==> fds[i].kind == TERMINAL_KIND && fds[i].position == 0
  }

  /** What was there before the process p is still there. */
  ghost predicate OthersStay(s: Table, r: Table, p: int)
    requires s.Shape() && r.Shape()
  {
    && r.displayed == s.displayed
    && (forall q :: 0 <= q < PIDS && q != p ==> r.pcbs[q] == s.pcbs[q] && r.used[q] == s.used[q])
    && (forall t :: 0 <= t < TERMINALS && t != s.displayed ==> r.termPid[t] == s.termPid[t])
  }

  /**
   What a successful execute starts: the lowest free pid runs on the displayed terminal, started by the
   caller or, on an unused terminal, by no one; the globals are its own, two descriptors are open, and
   nothing else changed.
   */
  lemma ExecuteStarts(s: Table)
    requires s.Shape() && CanExecute(s, true)
    ensures var r := Execute(s, true); var p := r.curPid;
            && 0 <= p < PIDS && !s.used[p] && r.used[p] && (forall q :: 0 <= q < p ==> s.used[q])
            && r.Coherent() && r.termPid[s.displayed] == p && Fresh(r.pcbs[p].fds)
            && r.pcbs[p].parent == (if s.termPid[s.displayed] == -1 then -1 else s.curPid)
            && OthersStay(s, r, p)
  {
  }

  /** The current process is in use, and so is its parent when it has one. */
  lemma CurrentIsUsed(s: Table, cs: seq<seq<nat>>)
    requires Sound(s, cs) && s.curPid != -1
    ensures cs[s.displayed] != [] && cs[s.displayed][0] == s.curPid && s.used[s.curPid] && CanHalt(s)
    ensures var parent := s.pcbs[s.curPid].parent; parent != -1 ==> s.used[parent] && parent != s.curPid
  {
    var c := cs[s.displayed];
    OccursIn(cs, s.displayed, 0);
    ChainInRange(s.pcbs, c[1..], s.pcbs[s.curPid].parent);
    if s.pcbs[s.curPid].parent != -1 {
      OccursIn(cs, s.displayed, 1);
      var parent := s.pcbs[s.curPid].parent;
      assert c[1] == parent;
      assert c == [c[0], c[1]] + c[2..];
      assert multiset(c)[c[0]] >= if c[0] == c[1] then 2 else 1;
    }
  }

  /** halt of a process with a parent takes it off its terminal's chain. */
  lemma HaltPops(s: Table, cs: seq<seq<nat>>)
    requires Sound(s, cs) && s.curPid != -1 && s.pcbs[s.curPid].parent != -1
    ensures CanHalt(s) && cs[s.displayed] != []
    ensures Sound(Halt(s), cs[s.displayed := cs[s.displayed][1..]])
  {
    CurrentIsUsed(s, cs);
    var d, r := s.displayed, Halt(s);
    var cs' := cs[d := cs[d][1..]];
    forall t | 0 <= t < TERMINALS ensures Chain(r.pcbs, cs'[t], r.Head(t)) {
      ChainFrame(s.pcbs, r.pcbs, cs'[t], if t == d then s.pcbs[s.curPid].parent else s.Head(t));
    }
    forall q | 0 <= q < PIDS ensures Occurs(cs', q) == if r.used[q] then 1 else 0 {
      PopOccurs(cs, d, q);
    }
  }

  /** halt of a terminal's first process empties its chain before the new shell starts. */
  lemma RootHaltEmpties(s: Table, cs: seq<seq<nat>>)
    requires Sound(s, cs) && s.curPid != -1 && s.pcbs[s.curPid].parent == -1
    ensures cs[s.displayed] == [s.curPid] && CanHalt(s)
    ensures var m := s.(used := s.used[s.curPid := false], curPid := -1, curProcess := -1);
            Sound(m, cs[s.displayed := []]) && CanExecute(m, true)
  {
    CurrentIsUsed(s, cs);
    var d := s.displayed;
    var m := s.(used := s.used[s.curPid := false], curPid := -1, curProcess := -1);
    ChainInRange(s.pcbs, cs[d][1..], -1);
    assert cs[d][1..] == [];
    forall q | 0 <= q < PIDS ensures Occurs(cs[d := []], q) == if m.used[q] then 1 else 0 {
      PopOccurs(cs, d, q);
    }
    assert !m.used[s.curPid];
  }

  /** A successful execute does not look at the old process pointer. */
  lemma SameStart(a: Table, b: Table)
    requires a.Shape() && b == a.(curProcess := -1) && CanExecute(a, true)
    ensures Execute(a, true) == Execute(b, true)
  {
  }

  /**
   halt of a terminal's first process starts a new shell in its place: it runs, alone on its terminal,
   started by no one, with the globals its own, and everything else is as it was.
   */
  lemma RootHaltRestarts(s: Table, cs: seq<seq<nat>>)
    requires Sound(s, cs) && s.curPid != -1 && s.pcbs[s.curPid].parent == -1
    ensures CanHalt(s)
    ensures var r := Halt(s); var p := r.curPid;
            && 0 <= p <= s.curPid && r.used[p] && (p != s.curPid ==> !r.used[s.curPid])
            && r.pcbs[p].parent == -1 && r.termPid[s.displayed] == p && r.Coherent() && Fresh(r.pcbs[p].fds)
            && Sound(r, cs[s.displayed := [p as nat]])
            && OthersStay(s.(used := s.used[s.curPid := false]), r, p)
  {
    RootHaltEmpties(s, cs);
    var m := s.(used := s.used[s.curPid := false], curPid := -1, curProcess := -1);
    ExecuteKeeps(m, cs[s.displayed := []], true);
    SameStart(s.(used := m.used, curPid := -1), m);
    ExecuteStarts(m);
    hide Execute, Chains, FreePid, CanExecute;
    var p := Execute(m, true).curPid;
    PushedOnEmpty(cs, s.displayed, m);
  }

  lemma PushedOnEmpty(cs: seq<seq<nat>>, d: nat, m: Table)
    requires |cs| == TERMINALS && d < TERMINALS && m.Shape() && CanExecute(m, true)
    ensures Execute(m, true).curPid == FreePid(m.used)
    ensures cs[d := []][d := [FreePid(m.used)] + cs[d := []][d]] == cs[d := [FreePid(m.used)]]
  {
    assert [FreePid(m.used)] + [] == [FreePid(m.used)];
  }

  /** halt of a process with a parent: the parent is current with its own globals, and descriptors are closed. */
  lemma HaltReturns(s: Table)
    requires CanHalt(s) && s.pcbs[s.curPid].parent != -1
    ensures var r, parent := Halt(s), s.pcbs[s.curPid].parent;
            && r.curPid == parent && r.Coherent() && r.displayed == s.displayed && r.termPid == s.termPid
            && (forall q :: 0 <= q < PIDS ==> r.used[q] == (s.used[q] && q != s.curPid))
            && (forall q :: 0 <= q < PIDS && q != s.filed ==> r.pcbs[q] == s.pcbs[q])
            && r.pcbs[s.filed].parent == s.pcbs[s.filed].parent && r.pcbs[s.filed].esp0 == s.pcbs[s.filed].esp0
            && forall i :: 0 <= i < FDS ==>
                 var d := s.pcbs[s.filed].fds[i]; r.pcbs[s.filed].fds[i] == if i == 7 then d else d.(flags := 0)
  {
  }

  lemma HaltKeeps(s: Table, cs: seq<seq<nat>>)
    requires Sound(s, cs) && s.curPid != -1
    ensures CanHalt(s) && Inv(Halt(s))
  {
    hide Execute, Chain, Occurs;
    if s.pcbs[s.curPid].parent == -1 {
      RootHaltEmpties(s, cs);
      var m := s.(used := s.used[s.curPid := false], curPid := -1, curProcess := -1);
      ExecuteKeeps(m, cs[s.displayed := []], true);
      SameStart(s.(used := m.used, curPid := -1), m);
    } else {
      HaltPops(s, cs);
    }
  }

  /** terminal_switch moves no process between chains. */
  lemma SwitchKeeps(s: Table, cs: seq<seq<nat>>, t: nat, loadable: bool)
    requires Sound(s, cs) && t < TERMINALS
    ensures Inv(Switch(s, t, loadable))
  {
    ChainInRange(s.pcbs, cs[t], s.Head(t));
    if t != s.displayed {
      var m := s.(termPid := s.termPid[s.displayed := s.curPid],
                  curPid := s.termPid[t], curProcess := s.termPid[t], displayed := t);
      assert forall u :: 0 <= u < TERMINALS ==> m.Head(u) == s.Head(u);
      assert Sound(m, cs);
      if s.termPid[t] == -1 && CanExecute(m, loadable) {
        ExecuteKeeps(m, cs, loadable);
      }
    }
  }

  /**
   terminal_switch shows the terminal asked for, and every terminal goes on with its process; one without
   a process gets a shell started by no one, if there is a free pid.
   */
  lemma SwitchShows(s: Table, t: nat, loadable: bool)
    requires s.Shape() && t < TERMINALS && t != s.displayed
    ensures var r := Switch(s, t, loadable);
            && r.displayed == t && (forall u :: 0 <= u < TERMINALS && u != t ==> r.Head(u) == s.Head(u))
            && (s.termPid[t] != -1 || !CanExecute(s, loadable) ==>
                  && r.Head(t) == s.Head(t) && r.curProcess == r.curPid && r.pcbs == s.pcbs && r.used == s.used
                  && r.filed == s.filed && r.userPage == s.userPage && r.esp0 == s.esp0)
            && (s.termPid[t] == -1 && CanExecute(s, loadable) ==>
                  && 0 <= r.curPid < PIDS && !s.used[r.curPid] && r.used[r.curPid] && r.Coherent()
                  && r.pcbs[r.curPid].parent == -1 && Fresh(r.pcbs[r.curPid].fds)
                  && forall q :: 0 <= q < PIDS && q != r.curPid ==> r.pcbs[q] == s.pcbs[q] && r.used[q] == s.used[q])
  {
  }

  // ---------------------------------------------------------------- whole runs

  datatype Event = ExecuteEvent(loadable: bool) | HaltEvent | SwitchEvent(t: nat, loadable: bool)

  /** The state at boot, before the first shell. */
  ghost predicate Booting(s: Table) {
    && s.Shape() && s.curPid == -1 && s.curProcess == -1 && s.filed == -1 && s.displayed == 0
    && (forall p :: 0 <= p < PIDS ==> !s.used[p]) && (forall t :: 0 <= t < TERMINALS ==> s.termPid[t] == -1)
  }

  lemma BootIsSound(s: Table)
    requires Booting(s)
    ensures Inv(s)
  {
    assert Sound(s, [[], [], []]);
  }

  /** Events that cannot happen, a halt without a process or a fourth terminal, change nothing. */
  ghost function Step(s: Table, e: Event): (r: Table)
    requires Inv(s)
    ensures Inv(r)
  {
    var cs :| Sound(s, cs);
    match e
    case ExecuteEvent(loadable) =>
      (if CanExecute(s, loadable) then ExecuteKeeps(s, cs, loadable); Execute(s, loadable) else Execute(s, loadable))
    case HaltEvent => if s.curPid == -1 then s else HaltKeeps(s, cs); Halt(s)
    case SwitchEvent(t, loadable) =>
      (if t >= TERMINALS then s else SwitchKeeps(s, cs, t, loadable); Switch(s, t, loadable))
  }

  lemma StepIs(s: Table, e: Event)
    requires Inv(s)
    ensures s.Shape()
    ensures e.ExecuteEvent? ==> Step(s, e) == Execute(s, e.loadable)
    ensures e.HaltEvent? ==> if s.curPid == -1 then Step(s, e) == s else CanHalt(s) && Step(s, e) == Halt(s)
    ensures e.SwitchEvent? ==> Step(s, e) == if e.t < TERMINALS then Switch(s, e.t, e.loadable) else s
  {
    hide Execute, Halt, Switch;
    var cs :| Sound(s, cs);
    if s.curPid != -1 { CurrentIsUsed(s, cs); }
  }

  ghost function Run(s: Table, es: seq<Event>): (r: Table)
    requires Inv(s)
    ensures Inv(r)
    decreases |es|
  {
    if es == [] then s else Run(Step(s, es[0]), es[1..])
  }

  /**
   Main result: in every state reached from boot, the pids in use are exactly the disjoint union of
   one parent chain per terminal, and every chain ends with a process started by no one.
   */
  lemma PidsAreChains(boot: Table, es: seq<Event>)
    requires Booting(boot)
    ensures Inv(boot) && exists cs :: Chains(Run(boot, es), cs)
  {
    BootIsSound(boot);
    var cs :| Sound(Run(boot, es), cs);
    assert Chains(Run(boot, es), cs);
  }

  /** After any run with a process, a halt leaves one running on the displayed terminal. */
  lemma HaltLeavesProcess(boot: Table, es: seq<Event>)
    requires Booting(boot)
    ensures Inv(boot)
    ensures var s := Run(boot, es); var r := Step(s, HaltEvent);
            s.curPid != -1 ==>
              r.displayed == s.displayed && 0 <= r.Head(r.displayed) < PIDS && r.used[r.Head(r.displayed)]
  {
    BootIsSound(boot);
    var s := Run(boot, es);
    StepIs(s, HaltEvent);
    if s.curPid != -1 {
      var cs :| Sound(s, cs);
      CurrentIsUsed(s, cs);
      if s.pcbs[s.curPid].parent == -1 {
        RootHaltRestarts(s, cs);
      } else {
        HaltReturns(s);
      }
    }
  }

  /** execute fails for a loadable program exactly when six processes run. */
  lemma {:induction false} ExecuteFailsWhenFull(used: seq<bool>)
    ensures FreePid(used) == |used| <==> forall p :: 0 <= p < |used| ==> used[p]
  {
    if used != [] && used[0] { ExecuteFailsWhenFull(used[1..]); }
  }

  // ---------------------------------------------------------------- nested calls

  /** What a program does between its start and its halt: use its descriptors, and run programs. */
  datatype Act = Touch(fds: seq<Fd>) | Call(loadable: bool, body: seq<Act>)

  function Perform(s: Table, act: Act): (r: Table)
    requires s.Shape()
    ensures r.Shape()
    decreases act, 0
  {
    match act
    case Touch(fds) =>
      if s.filed == -1 || |fds| != FDS then s else WithFds(s, fds)
    case Call(loadable, body) =>
      if !CanExecute(s, loadable) then s
      else
        var r := PerformAll(Execute(s, loadable), body);
        if CanHaltNow(r) then Halt(r) else r
  }

  predicate CanHaltNow(s: Table)
    requires s.Shape()
    ensures CanHaltNow(s) <==> CanHalt(s)
  {
    0 <= s.curPid == s.curProcess && -1 <= s.pcbs[s.curPid].parent < PIDS && 0 <= s.filed
  }

  function PerformAll(s: Table, acts: seq<Act>): (r: Table)
    requires s.Shape()
    ensures r.Shape()
    decreases acts
  {
    if acts == [] then s else PerformAll(Perform(s, acts[0]), acts[1..])
  }

  /** Same processes, same current process, and nothing of another process changed. */
  ghost predicate Undisturbed(s: Table, r: Table)
    requires s.Shape() && r.Shape()
  {
    && r.used == s.used && r.curPid == s.curPid && r.curProcess == s.curProcess && r.displayed == s.displayed
      && s.curPid >= 0
    && r.pcbs[s.curPid].parent == s.pcbs[s.curPid].parent && r.pcbs[s.curPid].esp0 == s.pcbs[s.curPid].esp0
    && forall q :: 0 <= q < PIDS && s.used[q] && q != s.curPid ==> r.pcbs[q] == s.pcbs[q]
  }

  /** A process whose globals are its own, in a sound table. */
  ghost predicate Running(s: Table) {
    s.Shape() && s.Coherent() && Inv(s)
  }

  lemma {:induction false} ActsKeep(s: Table, acts: seq<Act>)
    requires Running(s)
    ensures Running(PerformAll(s, acts)) && Undisturbed(s, PerformAll(s, acts))
    decreases acts, 0
  {
    if acts != [] {
      var m := Perform(s, acts[0]);
      assert Running(m) && Undisturbed(s, m) by {
        match acts[0]
        case Touch(_) => TouchKeeps(s, acts[0]);
        case Call(loadable, body) =>
          if CanExecute(s, loadable) { CallReturns(s, loadable, body); }
      }
      ActsKeep(m, acts[1..]);
    }
  }

  lemma TouchKeeps(s: Table, act: Act)
    requires Running(s) && act.Touch?
    ensures Running(Perform(s, act)) && Undisturbed(s, Perform(s, act))
  {
    var cs, r := var cs :| Sound(s, cs); cs, Perform(s, act);
    forall t | 0 <= t < TERMINALS ensures Chain(r.pcbs, cs[t], r.Head(t)) {
      ChainFrame(s.pcbs, r.pcbs, cs[t], s.Head(t));
    }
    assert Sound(r, cs);
  }

  /**
   A successful execute, whatever the new program and its own children do, and its halt: the caller
   is current again with its globals, and every process that was there before is as it was,
   descriptors included. This holds even if the caller's globals were not its own before.
   */
  lemma {:induction false} CallReturns(s: Table, loadable: bool, body: seq<Act>)
    requires Inv(s) && s.curPid != -1 && CanExecute(s, loadable)
    ensures var r := Perform(s, Call(loadable, body));
            && Running(r) && Undisturbed(s, r) && r.pcbs[s.curPid] == s.pcbs[s.curPid]
    decreases body, 1
  {
    var cs :| Sound(s, cs);
    var c, p := Execute(s, loadable), FreePid(s.used);
    ExecuteKeeps(s, cs, loadable);
    ActsKeep(c, body);
    var r := PerformAll(c, body);
    CurrentIsUsed(s, cs);
    ChildHalts(s, c, r);
  }

  lemma ChildHalts(s: Table, c: Table, r: Table)
    requires Inv(s) && s.curPid != -1 && s.used[s.curPid] && s.termPid[s.displayed] != -1
    requires CanExecute(s, true) && c == Execute(s, true)
    requires Running(r) && Undisturbed(c, r)
    ensures CanHalt(r) && Running(Halt(r)) && Undisturbed(s, Halt(r)) && Halt(r).pcbs[s.curPid] == s.pcbs[s.curPid]
  {
    var p, h := FreePid(s.used), Halt(r);
    var cs :| Sound(r, cs);
    assert r.pcbs[p].parent == s.curPid;
    HaltPops(r, cs);
    assert h.used == s.used;
  }

  /** A call gives the caller its globals back if and only if they were its own before. */
  lemma RestoredWhenCoherent(s: Table, loadable: bool, body: seq<Act>)
    requires Inv(s) && s.curPid != -1 && CanExecute(s, loadable)
    ensures var r := Perform(s, Call(loadable, body));
            r.filed == s.filed && r.userPage == s.userPage && r.esp0 == s.esp0 <==> s.Coherent()
  {
    CallReturns(s, loadable, body);
  }

  // ---------------------------------------------------------------- where processes live

  predicate Disjoint(a: int, b: int, size: int) { a + size <= b || b + size <= a }

  /** Different processes have disjoint control blocks with kernel stacks, and disjoint 4 MB pages. */
  lemma RegionsAreDisjoint(p: nat, q: nat)
    requires p < PIDS && q < PIDS && p != q
    ensures Disjoint(PcbAddress(p), PcbAddress(q), KERNEL_STACK_SIZE)
    ensures Disjoint((2 + p) * PAGE_SHIFT, (2 + q) * PAGE_SHIFT, PAGE_SHIFT)
    ensures PAGE_SHIFT <= PcbAddress(p) && PcbAddress(p) + KERNEL_STACK_SIZE <= END_OF_KERNEL <= (2 + p) * PAGE_SHIFT
    ensures PcbAddress(p) + KERNEL_STACK_SIZE == if p == 0 then END_OF_KERNEL else PcbAddress(p - 1)
  {
  }

  /**
   halt closes the descriptors the global array points at. Every other process keeps its own if and
   only if that array is the halting process's, or belongs to no live process, or has nothing open.
   */
  lemma HaltSparesOthers(s: Table)
    requires Inv(s) && s.curPid != -1 && s.pcbs[s.curPid].parent != -1
    ensures CanHalt(s)
    ensures (forall q :: 0 <= q < PIDS && s.used[q] && q != s.curPid ==> Halt(s).pcbs[q].fds == s.pcbs[q].fds)
       <==> s.filed == s.curPid || !s.used[s.filed] || forall i :: 0 <= i < 7 ==> s.pcbs[s.filed].fds[i].flags == 0
  {
    var cs :| Sound(s, cs);
    CurrentIsUsed(s, cs);
    var fds := s.pcbs[s.filed].fds;
    if i :| 0 <= i < 7 && fds[i].flags != 0 {
      assert ClosedFds(fds)[i] != fds[i];
    } else {
      assert ClosedFds(fds) == fds;
    }
  }

  /** Switching away and back is enough to make halt close another process's descriptors. */
  lemma SwitchedHaltClosesForeign(boot: Table)
    requires Booting(boot)
    ensures var s := Switch(Switch(Execute(Execute(boot, true), true), 1, true), 0, true);
            CanHalt(s) && s.curPid == 1 && s.used[2] && s.pcbs[2].fds[0] == TERMINAL_FD
            && Halt(s).used[2] && Halt(s).pcbs[2].fds[0].flags == 0
  {
    var a := Execute(boot, true);
    assert FreePid(boot.used) == 0;
    var b := Execute(a, true);
    assert FreePid(a.used) == 1 by { assert a.used[1..][0] == false; }
    assert b.curPid == 1 && b.pcbs[1].parent == 0;
    assert FreePid(b.used) == 2 by { assert b.used[1..][1..][0] == false; }
    var c := Switch(b, 1, true);
    assert c.curPid == 2 && c.filed == 2;
  }

  /**
   That run goes on until the other process has descriptor 0 free: it is shown again, starts a program, and
   the program's halt makes the descriptors current that were closed for it.
   */
  lemma DescriptorZeroIsFreed(boot: Table)
    requires Booting(boot)
    ensures var s := Switch(Switch(Execute(Execute(boot, true), true), 1, true), 0, true);
            CanHalt(s) && var t := Execute(Switch(Halt(s), 1, true), true);
            && CanHalt(t) && t.pcbs[t.curPid].parent == 2
            && var r := Halt(t);
               r.curPid == 2 && r.filed == 2 && forall i :: 0 <= i < 7 ==> r.pcbs[2].fds[i].flags == 0
  {
    var a := Execute(boot, true);
    assert FreePid(boot.used) == 0;
    var b := Execute(a, true);
    assert FreePid(a.used) == 1 by { assert a.used[1..][0] == false; }
    assert b.curPid == 1 && b.pcbs[1].parent == 0;
    assert FreePid(b.used) == 2 by { assert b.used[1..][1..][0] == false; }
    var h := Halt(Switch(Switch(b, 1, true), 0, true));
    assert h.used[0] && !h.used[1] && h.termPid[1] == 2 && h.displayed == 0;
    assert forall i :: 0 <= i < 7 ==> h.pcbs[2].fds[i].flags == 0;
    var c := Switch(h, 1, true);
    assert FreePid(c.used) == 1 by { assert c.used[1..][0] == false; }
    assert Execute(c, true).pcbs[2] == h.pcbs[2];
  }

  /** Switching away and back is also enough for a call not to give back the caller's descriptor array. */
  lemma IncoherentCall(boot: Table)
    requires Booting(boot)
    ensures var s := Switch(Switch(Execute(boot, true), 1, true), 0, true);
            CanExecute(s, true) && s.curPid == 0 && s.filed == 1 && Perform(s, Call(true, [])).filed == 0
  {
    var a := Execute(boot, true);
    assert FreePid(boot.used) == 0;
    var b := Switch(a, 1, true);
    assert FreePid(a.used) == 1 by { assert a.used[1..][0] == false; }
    assert b.curPid == 1 && b.filed == 1;
    var s := Switch(b, 0, true);
    assert FreePid(s.used) == 2 by { assert s.used[1..][1..][0] == false; }
    var c := Execute(s, true);
    assert c.curPid == 2 && c.pcbs[2].parent == 0;
  }
}
