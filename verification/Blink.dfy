/**
 The blink list in memory (fish/blink.S over the static arena of fish/fish.c): linked nodes taken
 from an array of 2000 slots, where a slot is free when its location is 0.
 */
module Blink {
  import opened Bytes
  import opened BlinkSpec

  /** struct mp1_blink_struct */
  class Node {
    var location: word
    var onChar: byte
    var offChar: byte
    var onLength: word
    var offLength: word
    var countdown: word
    var status: word
    var next: Node?

    ghost function Value(): Entry
      reads this
    {
      Entry(location, onChar, offChar, onLength, offLength, countdown, status)
    }

    constructor ()
      ensures Value() == Entry(0, 0, 0, 0, 0, 0, 0) && next == null
    {
      location, onChar, offChar, onLength, offLength, countdown, status, next := 0, 0, 0, 0, 0, 0, 0, null;
    }

    /** ece391_memcpy of a whole structure, link excepted. */
    method Assign(e: Entry)
      modifies this
      ensures Value() == e && next == old(next)
    {
      location, onChar, offChar := e.location, e.onChar, e.offChar;
      onLength, offLength, countdown, status := e.onLength, e.offLength, e.countdown, e.status;
    }

    /** mp1_free: all bytes zero, which marks the slot as free. */
    method Free()
      modifies this
      ensures Value() == Entry(0, 0, 0, 0, 0, 0, 0) && next == null
    {
      location, onChar, offChar, onLength, offLength, countdown, status, next := 0, 0, 0, 0, 0, 0, 0, null;
    }
  }

  /** The arena as stored: the slots' contents and links, the head of the list, and video memory. */
  datatype Arena = Arena(entries: seq<Entry>, links: seq<Node?>, head: Node?, vmem: seq<byte>) {
    ghost predicate Ok() { |entries| == LOCATIONS && |links| == LOCATIONS && |vmem| == VMEM }
  }

  /** The first slot that looks free, or their number. */
  function FirstFree(entries: seq<Entry>): (i: nat)
    ensures i <= |entries| && (i < |entries| ==> entries[i].location == 0)
    ensures forall k :: 0 <= k < i ==> entries[k].location != 0
  {
    if entries == [] || entries[0].location == 0 then 0 else 1 + FirstFree(entries[1..])
  }

  lemma {:induction false} FirstFreeIs(entries: seq<Entry>, i: nat)
    requires i <= |entries| && (i < |entries| ==> entries[i].location == 0)
    requires forall k :: 0 <= k < i ==> entries[k].location != 0
    ensures FirstFree(entries) == i
  {
    if i > 0 { FirstFreeIs(entries[1..], i - 1); }
  }

  /** The stored arena after an add call. */
  ghost function Placed(arena: seq<Node>, s: Arena, b: Entry): (r: Arena)
    requires s.Ok() && |arena| == LOCATIONS
    ensures r.Ok()
  {
    var at := FirstFree(s.entries);
    if b.location as int >= LOCATIONS || at == LOCATIONS then s
    else
      Arena(s.entries[at := Started(b)], s.links[at := s.head], arena[at], BlinkSpec.Poke(s.vmem, b.location, b.onChar))
  }

  /**
   What an add call stores: nothing, exactly for a location off the screen or with no slot at location 0;
   otherwise the first such slot gets the entry, on and at the start of its phase, links to the old head and
   becomes the head, one byte of video memory changes, and nothing else.
   */
  lemma PlacedPushes(arena: seq<Node>, s: Arena, b: Entry, at: nat)
    requires s.Ok() && |arena| == LOCATIONS && at <= LOCATIONS && (at < LOCATIONS ==> s.entries[at].location == 0)
    requires forall k :: 0 <= k < at ==> s.entries[k].location != 0
    ensures var r := Placed(arena, s, b);
            if b.location as int >= 2000 || at == LOCATIONS then r == s
            else
              && r.entries[at] == Entry(b.location, b.onChar, b.offChar, b.onLength, b.offLength, b.onLength, 1)
              && r.links[at] == s.head && r.head == arena[at] && r.vmem[2 * b.location as int] == b.onChar
              && (forall k :: 0 <= k < LOCATIONS && k != at ==>
                    r.entries[k] == s.entries[k] && r.links[k] == s.links[k])
              && forall k :: 0 <= k < VMEM && k != 2 * b.location as int ==> r.vmem[k] == s.vmem[k]
  {
    FirstFreeIs(s.entries, at);
  }

  class BlinkList {
    const arena: seq<Node>
    ghost const slots: set<Node>   // the arena as a set
    const vmem: array<byte>
    var head: Node?
    ghost var nodes: seq<Node>   // the linked nodes, from head on

    ghost predicate Shape() {
      && |arena| == LOCATIONS && vmem.Length == VMEM && slots == (set n | n in arena)
      && forall i, j :: 0 <= i < j < |arena| ==> arena[i] != arena[j]
    }

    /** The arena as the program starts: every slot zero, nothing linked. */
    constructor (vmem: array<byte>)
      requires vmem.Length == VMEM
      ensures Valid() && fresh(slots) && this.vmem == vmem && State() == Blinks([], vmem[..])
    {
      var made: seq<Node>, i := [], 0;
      while i < LOCATIONS
        invariant |made| == i <= LOCATIONS
        invariant forall k :: 0 <= k < i ==> fresh(made[k]) && made[k].location == 0
        invariant forall j, k :: 0 <= j < k < i ==> made[j] != made[k]
      {
        var n := new Node();
        made := made + [n];
        i := i + 1;
      }
      this.vmem, arena, slots, head, nodes := vmem, made, set n | n in made, null, [];
    }

    /** The links run through nodes, once each, and stop. */
    ghost predicate Linked()
      reads this, slots
    {
      && (forall i :: 0 <= i < |nodes| ==> nodes[i] in slots)
      && (forall i, j :: 0 <= i < j < |nodes| ==> nodes[i] != nodes[j])
      && head == (if nodes == [] then null else nodes[0])
      && (forall i {:trigger nodes[i].next} :: 0 <= i < |nodes| ==>
            nodes[i].next == if i + 1 < |nodes| then nodes[i + 1] else null)
    }

    /** The linked nodes are exactly the slots in use. */
    ghost predicate Valid()
      reads this, slots
    {
      && Shape() && Linked()
      && (forall n :: n in slots ==> (n in nodes <==> n.location != 0))
      && (forall i :: 0 <= i < |nodes| ==> nodes[i].Value().Live())
    }

    ghost function State(): (s: Blinks)
      reads this, nodes, vmem
      ensures |s.list| == |nodes| && forall i :: 0 <= i < |nodes| ==> s.list[i] == nodes[i].Value()
      ensures s.vmem == vmem[..]
    {
      Blinks(seq(|nodes|, i requires 0 <= i < |nodes| reads this, nodes => nodes[i].Value()), vmem[..])
    }

    ghost predicate Full()
      reads slots
    {
      forall n :: n in slots ==> n.location != 0
    }

    method Poke(location: word, c: byte)
      requires Shape() && location as int < LOCATIONS
      modifies vmem
      ensures vmem[..] == BlinkSpec.Poke(old(vmem[..]), location, c)
    {
      vmem[2 * location as int] := c;
    }

    /** mp1_malloc: the first free slot. */
    method Malloc() returns (slot: Node?, ghost at: nat)
      requires Shape()
      ensures at <= LOCATIONS && slot == (if at < LOCATIONS then arena[at] else null)
      ensures forall k :: 0 <= k < at ==> arena[k].location != 0
      ensures slot != null ==> slot.location == 0
    {
      var i := 0;
      while i < LOCATIONS
        invariant 0 <= i <= LOCATIONS
        invariant forall k :: 0 <= k < i ==> arena[k].location != 0
      {
        if arena[i].location == 0 {
          return arena[i], i;
        }
        i := i + 1;
      }
      return null, LOCATIONS;
    }

    /** mp1_find_helper: the most recently added entry at a location. */
    method FindHelper(location: word) returns (p: Node?)
      requires Valid()
      ensures var i := Find(State().list, location);
              p == if i < |nodes| then nodes[i] else null
    {
      hide Linked, Valid;
      Starts();
      ghost var list, i := State().list, 0;
      p := head;
      assert list[0..] == list;
      while p != null
        invariant 0 <= i <= |nodes| && p == (if i < |nodes| then nodes[i] else null)
        invariant Find(list, location) == i + Find(list[i..], location)
        decreases |nodes| - i
      {
        NextIs(i);
        assert list[i..][1..] == list[i + 1..];
        if p.location == location {
          return;
        }
        p := p.next;
        i := i + 1;
      }
    }

    /** slot, free before, now holds b and heads the list; nothing else changed. */
    twostate predicate Inserted(slot: Node, b: Entry)
      reads this, slots
    {
      && slot in slots && old(slot.location) == 0
      && head == slot && nodes == [slot] + old(nodes)
      && slot.Value() == Started(b) && slot.next == old(head)
      && forall n :: n in slots && n != slot ==> n.Value() == old(n.Value()) && n.next == old(n.next)
    }

    /** The nodes linked before are others than the slot, and keep what they hold. */
    twostate lemma LinkedStay(at: nat, new b: Entry)
      requires at < |arena| && old(Valid()) && Inserted(arena[at], b)
      ensures var was := old(nodes);
              forall k :: 0 <= k < |was| ==>
                && was[k] in slots && was[k] != arena[at]
                && was[k].Value() == old(was[k].Value()) && was[k].next == old(was[k].next)
    {
    }

    twostate lemma InsertedLinks(at: nat, new b: Entry)
      requires at < |arena| && old(Valid()) && Inserted(arena[at], b) && b.location != 0
      ensures Linked()
    {
      ghost var was := old(nodes);
      LinkedStay(at, b);
      hide Valid, Shape, Node.Value;
      forall k | 0 <= k < |nodes|
        ensures nodes[k].next == if k + 1 < |nodes| then nodes[k + 1] else null
      {
        if k > 0 {
          assert nodes[k] == was[k - 1] && old(was[k - 1].next) == if k < |was| then was[k] else null;
        }
      }
    }

    /** Which slots look used, and what the linked nodes hold. */
    twostate lemma InsertedSlots(at: nat, new b: Entry)
      requires at < |arena| && old(Valid()) && Inserted(arena[at], b) && 0 < b.location as int < LOCATIONS
      ensures forall n :: n in slots ==> (n in nodes <==> n.location != 0)
      ensures forall i :: 0 <= i < |nodes| ==> nodes[i].Value().Live()
    {
      ghost var was := old(nodes);
      assert forall k :: 0 <= k < |was| ==> was[k] in slots && was[k] != arena[at];
      hide Linked;
      assert forall i :: 0 < i < |nodes| ==> nodes[i] == was[i - 1] && nodes[i].Value() == old(was[i - 1].Value());
    }

    /** The list stays well formed unless the entry went in at location 0: then its slot looks free. */
    twostate lemma InsertedIsValid(at: nat, new b: Entry)
      requires at < |arena| && old(Valid()) && Inserted(arena[at], b) && b.location as int < LOCATIONS
      ensures Valid() <==> b.location != 0
    {
      assert arena[at] == nodes[0] && arena[at].location == b.location;
      if b.location != 0 {
        InsertedLinks(at, b);
        InsertedSlots(at, b);
      }
    }

    twostate lemma InsertedState(at: nat, new b: Entry)
      requires at < |arena| && old(Valid()) && Inserted(arena[at], b)
      ensures State().list == [Started(b)] + old(State().list)
    {
      ghost var was := old(nodes);
      LinkedStay(at, b);
      hide Valid, Shape, Linked;
      assert forall i :: 0 < i < |nodes| ==> nodes[i] == was[i - 1] && nodes[i].Value() == old(was[i - 1].Value());
    }

    /**
     mp1_ioctl_add, into the first free slot arena[at]. The list is well formed afterwards unless
     the entry went in at location 0, whose slot still looks free.
     */
    method IoctlAdd(b: Entry) returns (r: int, ghost at: nat)
      requires Shape()
      modifies this, slots, vmem
      ensures r == if b.location as int >= LOCATIONS || old(Full()) then -1 else 0
      ensures r == -1 ==> head == old(head) && nodes == old(nodes) && vmem[..] == old(vmem[..])
      ensures r == -1 ==> forall n :: n in slots ==> n.Value() == old(n.Value()) && n.next == old(n.next)
      ensures r == 0 ==> at < LOCATIONS && Inserted(arena[at], b)
      ensures r == 0 ==> forall k :: 0 <= k < at ==> old(arena[k].location) != 0
      ensures r == 0 ==> vmem[..] == BlinkSpec.Poke(old(vmem[..]), b.location, b.onChar)
      ensures old(Valid()) ==> (Valid() <==> r == -1 || b.location != 0)
      ensures old(Valid()) ==> State() == if r == 0 then Add(old(State()), b) else old(State())
    {
      hide Linked, Valid;
      at := LOCATIONS;
      if b.location as int >= LOCATIONS {
        return -1, at;
      }
      var slot;
      slot, at := Malloc();
      if slot == null {
        return -1, at;
      }
      Insert(slot, b);
      if old(Valid()) {
        InsertedIsValid(at, b);
        InsertedState(at, b);
      }
      Poke(slot.location, slot.onChar);
      r := 0;
    }

    method Insert(slot: Node, b: Entry)
      requires Shape() && slot in slots && slot.location == 0
      modifies this, slots
      ensures Inserted(slot, b)
    {
      slot.Assign(Started(b));
      slot.next := head;
      head := slot;
      nodes := [slot] + nodes;
    }

    /** Everything the program stores, well formed or not: slots, links, the head and video memory. */
    ghost function Contents(): (s: Arena)
      requires Shape()
      reads this, slots, vmem
      ensures s.Ok()
    {
      Arena(seq(LOCATIONS, i requires 0 <= i < LOCATIONS reads this, slots => arena[i].Value()),
            seq(LOCATIONS, i requires 0 <= i < LOCATIONS reads this, slots => arena[i].next), head, vmem[..])
    }

    /**
     The add call on any arena, a damaged one included. On a well-formed list, an entry that is not at
     location 0 makes it one step.
     */
    method AddAnywhere(b: Entry)
      requires Shape()
      modifies this, slots, vmem
      ensures Contents() == Placed(arena, old(Contents()), b)
      ensures old(Valid()) && b.location != 0 ==>
        Valid() && old(State().Ok()) && State() == Step(old(State()), AddOp(b))
    {
      hide Linked, Valid;
      if Valid() { FullWhen(); }
      ghost var was := Contents();
      var r, at := IoctlAdd(b);
      if r == 0 {
        InsertedContents(at, b);
        FirstFreeIs(was.entries, at);
      } else {
        Unchanged();
        if b.location as int < LOCATIONS { FirstFreeIs(was.entries, LOCATIONS); }
      }
    }

    twostate lemma InsertedContents(at: nat, new b: Entry)
      requires at < |arena| && Shape() && Inserted(arena[at], b)
      ensures var was := old(Contents());
              && Contents().entries == was.entries[at := Started(b)] && Contents().links == was.links[at := was.head]
              && Contents().head == arena[at]
    {
    }

    twostate lemma Unchanged()
      requires Shape() && head == old(head) && vmem[..] == old(vmem[..])
      requires forall n :: n in slots ==> n.Value() == old(n.Value()) && n.next == old(n.next)
      ensures Contents() == old(Contents())
    {
    }

    /** Two entries at location 0 share a slot, which is then linked to itself. */
    method AddTwiceAtZero(a: Entry, b: Entry)
      requires Valid() && !Full() && a.location == 0 && b.location == 0
      modifies this, slots, vmem
      ensures head != null && head.next == head
    {
      var r, at := IoctlAdd(a);
      assert arena[at].location == 0 && !Full();
      var r', at' := IoctlAdd(b);
      assert at == at';
    }

    /** mp1_ioctl_remove */
    method IoctlRemove(location: word) returns (r: int)
      requires Valid()
      modifies this, slots
      ensures Valid()
      ensures r == if Find(old(State().list), location) < |old(State().list)| then 0 else -1
      ensures State() == Remove(old(State()), location)
      ensures r == 0 ==> var i := Find(old(State().list), location); nodes == old(nodes)[..i] + old(nodes)[i + 1..]
      ensures r == -1 ==> nodes == old(nodes)
    {
      hide Linked, Valid, Find;
      var p := FindHelper(location);
      if p == null {
        return -1;
      }
      ghost var i := Find(State().list, location);
      var prev := FindPrev(p, i);
      Unlink(prev, p, i);
      UnlinkedIsValid(i);
      r := 0;
    }

    /** The link that points at p: null stands for the list head itself. */
    method FindPrev(p: Node, ghost i: nat) returns (prev: Node?)
      requires Valid() && i < |nodes| && p == nodes[i]
      ensures prev == if i == 0 then null else nodes[i - 1]
    {
      var cur: Node?;
      prev, cur := null, head;
      ghost var k := 0;
      while cur != p
        invariant 0 <= k <= i && cur == nodes[k]
        invariant prev == if k == 0 then null else nodes[k - 1]
        decreases i - k
      {
        prev, cur := cur, cur.next;
        k := k + 1;
      }
      assert forall j :: 0 <= j < i ==> nodes[j] != p;
    }

    /** nodes[i] was taken out of the links and its slot cleared; nothing else changed. */
    twostate predicate Unlinked(i: nat)
      requires i < |old(nodes)|
      reads this, slots
    {
      var p := old(nodes)[i];
      && nodes == old(nodes)[..i] + old(nodes)[i + 1..]
      && p in slots && p.Value() == Entry(0, 0, 0, 0, 0, 0, 0)
      && (forall n :: n in slots && n != p ==> n.Value() == old(n.Value()))
      && (if i == 0 then head == old(p.next)
          else head == old(head) && old(nodes)[i - 1] in slots && old(nodes)[i - 1].next == old(p.next))
      && (forall n :: n in slots && n != p && (i > 0 ==> n != old(nodes)[i - 1]) ==> n.next == old(n.next))
    }

    twostate lemma UnlinkedIsValid(i: nat)
      requires old(Valid()) && i < |old(nodes)| && Unlinked(i)
      ensures Valid()
      ensures State().list == old(State().list)[..i] + old(State().list)[i + 1..]
    {
      UnlinkedLinks(i);
      UnlinkedSlots(i);
      UnlinkedValues(i);
    }

    twostate lemma UnlinkedSlots(i: nat)
      requires old(Valid()) && i < |old(nodes)| && Unlinked(i)
      ensures forall n :: n in slots ==> (n in nodes <==> n.location != 0)
    {
      hide Linked;
      ghost var was, p := old(nodes), old(nodes)[i];
      assert old(Linked()) by { assert old(Valid()); }
      assert forall k :: 0 <= k < |was| && k != i ==> was[k] != p by { DistinctThere(i); }
      assert forall k :: 0 <= k < |nodes| ==> nodes[k] == was[if k < i then k else k + 1];
      forall n | n in slots ensures n in nodes <==> n.location != 0 {
        if n != p && n in was {
          var k :| 0 <= k < |was| && was[k] == n;
          assert n == nodes[if k < i then k else k - 1];
        }
      }
    }

    twostate lemma DistinctThere(i: nat)
      requires old(Linked()) && i < |old(nodes)|
      ensures forall k :: 0 <= k < |old(nodes)| && k != i ==> old(nodes)[k] != old(nodes)[i]
      ensures forall k :: 0 <= k < |old(nodes)| ==> old(nodes)[k] in slots
    {
    }

    /** Every remaining node is one that was there, with the value it had. */
    twostate lemma UnlinkedValue(i: nat, new k: nat)
      requires old(Valid()) && i < |old(nodes)| && Unlinked(i) && k < |nodes|
      ensures |nodes| == |old(nodes)| - 1
      ensures var n := old(nodes)[if k < i then k else k + 1];
              nodes[k] == n && n.Value() == old(n.Value()) && n.Value().Live()
    {
      hide Linked, Entry.Live;
      assert Shape() && old(Linked()) by { assert old(Valid()); }
      DistinctThere(i);
    }

    twostate lemma UnlinkedValues(i: nat)
      requires old(Valid()) && i < |old(nodes)| && Unlinked(i)
      ensures forall k :: 0 <= k < |nodes| ==> nodes[k].Value().Live()
      ensures State().list == old(State().list)[..i] + old(State().list)[i + 1..]
    {
      ghost var was, now := old(State().list), State().list;
      assert |nodes| == |old(nodes)| - 1;
      hide *;
      forall k | 0 <= k < |nodes|
        ensures now[k] == was[if k < i then k else k + 1] && nodes[k].Value().Live()
      {
        UnlinkedValue(i, k);
      }
      TakenOut(was, now, i);
    }

    twostate lemma UnlinkedLinks(i: nat)
      requires old(Valid()) && i < |old(nodes)| && Unlinked(i)
      ensures Linked()
    {
      hide Shape, Node.Value;
      ghost var was := old(nodes);
      assert forall k :: 0 <= k < |nodes| ==> nodes[k] == was[if k < i then k else k + 1];
      assert forall j, k :: 0 <= j < k < |was| ==> was[j] != was[k];
      assert head == if nodes == [] then null else nodes[0] by {
        assert |was| > i + 1 ==> old(was[i].next) == was[i + 1];
        assert |was| == i + 1 ==> old(was[i].next) == null;
      }
      forall k | 0 <= k < |nodes|
        ensures nodes[k] in slots && nodes[k].next == if k + 1 < |nodes| then nodes[k + 1] else null
      {
        hide *;
        if k < i { UnlinkedNext(i, k); } else { UnlinkedNext(i, k + 1); }
      }
    }

    /** The links that remain: the one in front of nodes[i] skips it, the others are as before. */
    twostate lemma UnlinkedNext(i: nat, new k: nat)
      requires old(Valid()) && i < |old(nodes)| && Unlinked(i) && k < |old(nodes)| && k != i
      ensures var was, j := old(nodes), if k + 1 == i then k + 2 else k + 1;
              was[k] in slots && was[k].next == if j < |was| then was[j] else null
    {
      ghost var was := old(nodes);
      assert old(was[k].next) == if k + 1 < |was| then was[k + 1] else null;
      assert old(was[i].next) == if i + 1 < |was| then was[i + 1] else null;
      assert was[k] != was[i] && (i > 0 && k + 1 != i ==> was[k] != was[i - 1]);
    }

    /** Takes nodes[i] out of the list and frees its slot. */
    method Unlink(prev: Node?, p: Node, ghost i: nat)
      requires Valid() && i < |nodes| && p == nodes[i]
      requires prev == if i == 0 then null else nodes[i - 1]
      modifies this, slots
      ensures Unlinked(i)
    {
      NextIs(i);
      if i > 0 { NextIs(i - 1); }
      hide Linked, Valid;
      if prev == null {
        head := p.next;
      } else {
        prev.next := p.next;
      }
      p.Free();
      nodes := nodes[..i] + nodes[i + 1..];
    }

    /** Only nodes[i] changed, and neither its link nor its location. */
    twostate predicate Retimed(i: nat)
      reads this, slots
    {
      && head == old(head) && nodes == old(nodes) && i < |nodes|
      && (forall n :: n in slots && n != nodes[i] ==> n.next == old(n.next) && n.Value() == old(n.Value()))
      && nodes[i] in slots
      && nodes[i].next == old(nodes[i].next) && nodes[i].location == old(nodes[i].location) && nodes[i].status < 2
    }

    twostate lemma RetimedLinks(i: nat)
      requires old(Valid()) && Retimed(i)
      ensures Valid()
    {
      assert forall n :: n in slots ==> n.next == old(n.next) && n.location == old(n.location);
    }

    twostate lemma RetimedState(i: nat)
      requires old(Valid()) && Retimed(i)
      ensures State().list == old(State().list)[i := nodes[i].Value()]
    {
      assert forall k :: 0 <= k < |nodes| && k != i ==> nodes[k] != nodes[i] && nodes[k] in slots;
    }

    /** mp1_ioctl_sync on the two locations packed in one word. */
    method IoctlSync(arg: nat) returns (r: int)
      requires Valid() && arg < 0x1_0000_0000
      modifies slots, vmem
      ensures Valid() && nodes == old(nodes)
      ensures var from, to := (arg / 0x1_0000) as word, (arg % 0x1_0000) as word;
              var list := old(State().list);
              && r == (if Find(list, from) < |list| && Find(list, to) < |list| then 0 else -1)
              && State() == Sync(old(State()), from, to)
    {
      hide Linked, Find;
      ghost var i, j := Find(State().list, (arg / 0x1_0000) as word), Find(State().list, (arg % 0x1_0000) as word);
      var from := FindHelper((arg / 0x1_0000) as word);
      if from == null {
        return -1;
      }
      var to := FindHelper((arg % 0x1_0000) as word);
      if to == null {
        return -1;
      }
      NextIs(j);
      CopyTiming(from, to, i, j);
      // the conditional move that should pick the on character never moves
      Poke(to.location, to.offChar);
      r := 0;
    }

    method CopyTiming(from: Node, to: Node, ghost i: nat, ghost j: nat)
      requires Valid() && i < |nodes| && j < |nodes| && from == nodes[i] && to == nodes[j] && to in slots
      modifies to
      ensures Valid() && to.location == old(to.location) && to.offChar == old(to.offChar)
      ensures var was := old(State().list);
              State().list == was[j := SyncEntry(was[i], was[j])]
    {
      assert from.status < 2;
      hide Linked, Valid;
      to.onLength := from.onLength;
      to.offLength := from.offLength;
      to.countdown := from.countdown;
      to.status := from.status;
      RetimedLinks(j);
      RetimedState(j);
    }

    /** mp1_ioctl_find: the structure found, link included, or -1. */
    method IoctlFind(location: word) returns (r: int, e: Entry, link: Node?)
      requires Valid()
      ensures r == (if At(State().list, location) == [] then -1 else 0)
      ensures r == 0 ==> e == At(State().list, location)[0]
      ensures r == 0 ==> var i := Find(State().list, location) + 1; link == if i < |nodes| then nodes[i] else null
    {
      FindIsTop(State().list, location);
      var p := FindHelper(location);
      if p == null {
        return -1, Entry(0, 0, 0, 0, 0, 0, 0), null;
      }
      NextIs(Find(State().list, location));
      return 0, Entry(p.location, p.onChar, p.offChar, p.onLength, p.offLength, p.countdown, p.status), p.next;
    }

    /** One entry's part of the tick. */
    method TickNode(n: Node, ghost i: nat)
      requires Valid() && i < |nodes| && n == nodes[i] && n in slots
      modifies n, vmem
      ensures Valid() && n.next == old(n.next)
      ensures State().list == old(State().list)[i := TickEntry(old(State().list)[i])]
      ensures vmem[..] == TickDraw(old(vmem[..]), old(State().list)[i])
    {
      assert n.Value().Live();
      hide Linked, Valid;
      Count(n);
      RetimedLinks(i);
      RetimedState(i);
    }

    /** The countdown of one node: a step down, or the other phase drawn and its length loaded. */
    method Count(n: Node)
      requires Shape() && n.Value().Live()
      modifies n, vmem
      ensures n.Value() == TickEntry(old(n.Value())) && n.next == old(n.next)
      ensures n.location == old(n.location) && n.status < 2
      ensures vmem[..] == TickDraw(old(vmem[..]), old(n.Value()))
    {
      n.countdown := if n.countdown == 0 then 0xFFFF else n.countdown - 1;
      if 0 < n.countdown < 0x8000 {
        return;
      }
      if n.status % 2 == 1 {
        Poke(n.location, n.offChar);
        n.countdown := n.offLength;
      } else {
        Poke(n.location, n.onChar);
        n.countdown := n.onLength;
      }
      n.status := if n.status % 2 == 1 then n.status - 1 else n.status + 1;
    }

    lemma NextIs(i: nat)
      requires Valid() && i < |nodes|
      ensures nodes[i].next == (if i + 1 < |nodes| then nodes[i + 1] else null) && nodes[i] in slots
    {
    }

    lemma Starts()
      requires Valid()
      ensures head == (if nodes == [] then null else nodes[0]) && State().Ok()
    {
    }

    /** mp1_rtc_tasklet */
    method RtcTasklet()
      requires Valid()
      modifies slots, vmem
      ensures Valid() && nodes == old(nodes)
      ensures State() == Tick(old(State()))
    {
      hide *;
      Starts();
      var p := head;
      ghost var i, s := 0, State();
      PartialEnds(s);
      while p != null
        invariant 0 <= i <= |nodes| && p == (if i < |nodes| then nodes[i] else null)
        invariant Valid() && nodes == old(nodes)
        invariant State() == Partial(s, i)
        decreases |nodes| - i
      {
        NextIs(i);
        PartialStep(s, i);
        TickNode(p, i);
        p := p.next;
        i := i + 1;
      }
    }

    /** One operation, whatever it is. */
    method Perform(op: Op)
      requires Valid() && op.Fine()
      modifies this, slots, vmem
      ensures Valid()
      ensures State() == Step(old(State()), op)
    {
      hide Linked, Valid, Find, Add, Remove, Sync, Tick;
      match op {
        case AddOp(b) =>
          FullWhen();
          var r, at := IoctlAdd(b);
        case RemoveOp(location) =>
          var r := IoctlRemove(location);
        case SyncOp(from, to) =>
          var r := IoctlSync(from as int * 0x1_0000 + to as int);
        case TickOp =>
          RtcTasklet();
      }
    }

    /** Any run of operations keeps the list well formed and is the run of the list operations. */
    method Play(ops: seq<Op>)
      requires Valid() && AllFine(ops)
      modifies this, slots, vmem
      ensures Valid()
      ensures State().Ok()
      ensures State() == Run(old(State()), ops)
    {
      hide *;
      Starts();
      ghost var s := State();
      RunNothing(s);
      for i := 0 to |ops|
        invariant Valid() && AllFine(ops[..i])
        invariant State() == Run(s, ops[..i])
      {
        OneMore(s, ops, i);
        Perform(ops[i]);
      }
      assert ops[..|ops|] == ops;
    }

    /** The arena is full exactly when 2000 entries are linked. */
    lemma FullWhen()
      requires Valid()
      ensures Shape() && State().Ok() && |State().list| <= LOCATIONS && (Full() <==> |State().list| == LOCATIONS)
    {
      var linked, all := (set n | n in nodes), slots;
      SizeOfDistinct(nodes);
      SizeOfDistinct(arena);
      assert linked <= all;
      SubsetSize(linked, all);
      if |nodes| == LOCATIONS {
        SameSize(linked, all);
        assert forall n :: n in slots ==> n in all;
      }
      if Full() {
        assert forall n :: n in slots ==> n in nodes;
        assert all == linked;
      }
    }
  }

  lemma {:induction false} SizeOfDistinct<T>(s: seq<T>)
    requires forall i, j :: 0 <= i < j < |s| ==> s[i] != s[j]
    ensures |set x | x in s| == |s|
  {
    if s != [] {
      var rest := s[..|s| - 1];
      SizeOfDistinct(rest);
      assert (set x | x in s) == (set x | x in rest) + {s[|s| - 1]};
    }
  }

  lemma {:induction false} SameSize<T>(a: set<T>, b: set<T>)
    requires a <= b && |a| == |b|
    ensures a == b
  {
    if x :| x in b && x !in a {
      SubsetSize(a, b - {x});
    }
  }

  lemma {:induction false} SubsetSize<T>(a: set<T>, b: set<T>)
    requires a <= b
    ensures |a| <= |b|
  {
    if a != {} {
      var x :| x in a;
      SubsetSize(a - {x}, b - {x});
    }
  }

  lemma OneMore(s: Blinks, ops: seq<Op>, i: nat)
    requires s.Ok() && AllFine(ops) && i < |ops|
    ensures AllFine(ops[..i]) && AllFine(ops[..i + 1]) && ops[i].Fine()
    ensures Run(s, ops[..i + 1]) == Step(Run(s, ops[..i]), ops[i])
  {
    assert ops[..i + 1][..i] == ops[..i];
  }

  lemma RunNothing(s: Blinks)
    requires s.Ok()
    ensures AllFine([]) && Run(s, []) == s
  {
  }
}
