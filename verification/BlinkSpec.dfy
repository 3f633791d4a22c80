/**
 Blinking characters as a list of entries (fish/blink.S): what add, remove, find, sync and the
 periodic tick do to the list and to the text-mode bytes, and how an entry blinks over time.
 */
module BlinkSpec {
  import opened Bytes

  newtype word = x: int | 0 <= x < 0x1_0000

  const LOCATIONS: nat := 2000   // 80 * 25, also the number of arena slots
  const VMEM: nat := 4000        // two bytes per location

  /** struct mp1_blink_struct without its link. */
  datatype Entry = Entry(location: word, onChar: byte, offChar: byte,
                         onLength: word, offLength: word, countdown: word, status: word)
  {
    /** Bit 0 of the status. */
    predicate On() { status % 2 == 1 }

    ghost predicate Live() { 0 < location as int < LOCATIONS && status < 2 }
  }

  /** The list, most recently added first, and the video memory. */
  datatype Blinks = Blinks(list: seq<Entry>, vmem: seq<byte>) {
    ghost predicate Ok() {
      |vmem| == VMEM && forall i :: 0 <= i < |list| ==> list[i].Live()
    }
  }

  // ---------------------------------------------------------------- one operation

  function Poke(vmem: seq<byte>, location: word, c: byte): (r: seq<byte>)
    requires |vmem| == VMEM && location as int < LOCATIONS
    ensures |r| == VMEM
  {
    vmem[2 * location as int := c]
  }

  /** Index of the first entry at a location, or the length of the list. */
  function Find(list: seq<Entry>, location: word): (i: nat)
    ensures i <= |list|
    ensures i < |list| ==> list[i].location == location
    ensures forall k :: 0 <= k < i ==> list[k].location != location
  {
    if list == [] || list[0].location == location then 0 else 1 + Find(list[1..], location)
  }

  function Started(b: Entry): Entry { b.(status := 1, countdown := b.onLength) }

  function Add(s: Blinks, b: Entry): Blinks
    requires s.Ok() && b.location as int < LOCATIONS
  {
    Blinks([Started(b)] + s.list, Poke(s.vmem, b.location, b.onChar))
  }

  function Remove(s: Blinks, location: word): Blinks {
    var i := Find(s.list, location);
    if i < |s.list| then s.(list := s.list[..i] + s.list[i + 1..]) else s
  }

  function SyncEntry(from: Entry, to: Entry): Entry {
    to.(onLength := from.onLength, offLength := from.offLength, countdown := from.countdown, status := from.status)
  }

  /** Entry at location to takes over the timing of the one at from, and its off character is drawn. */
  function Sync(s: Blinks, from: word, to: word): Blinks
    requires s.Ok()
  {
    var i, j := Find(s.list, from), Find(s.list, to);
    if i < |s.list| && j < |s.list| then
      Blinks(s.list[j := SyncEntry(s.list[i], s.list[j])], Poke(s.vmem, to, s.list[j].offChar))
    else s
  }

  /** decw */
  function Dec(w: word): word { if w == 0 then 0xFFFF else w - 1 }

  /** The signed comparison: greater than zero as a 16-bit two's complement number. */
  predicate Positive(w: word) { 0 < w < 0x8000 }

  function Flip(status: word): word { if status % 2 == 1 then status - 1 else status + 1 }

  function TickEntry(e: Entry): Entry {
    if Positive(Dec(e.countdown)) then e.(countdown := Dec(e.countdown))
    else e.(countdown := if e.On() then e.offLength else e.onLength, status := Flip(e.status))
  }

  function TickDraw(vmem: seq<byte>, e: Entry): (r: seq<byte>)
    requires |vmem| == VMEM && e.location as int < LOCATIONS
    ensures |r| == VMEM
  {
    if Positive(Dec(e.countdown)) then vmem
    else Poke(vmem, e.location, if e.On() then e.offChar else e.onChar)
  }

  function Tick(s: Blinks): (r: Blinks)
    requires s.Ok()
    ensures r.Ok() && |r.list| == |s.list|
    ensures forall i :: 0 <= i < |s.list| ==> r.list[i] == TickEntry(s.list[i])
    decreases |s.list|
  {
    if s.list == [] then s
    else
      var n := |s.list| - 1;
      var r := Tick(s.(list := s.list[..n]));
      Blinks(r.list + [TickEntry(s.list[n])], TickDraw(r.vmem, s.list[n]))
  }

  function Ticks(s: Blinks, n: nat): (r: Blinks)
    requires s.Ok()
    ensures r.Ok() && |r.list| == |s.list|
  {
    if n == 0 then s else Tick(Ticks(s, n - 1))
  }

  datatype Op = AddOp(b: Entry) | RemoveOp(location: word) | SyncOp(from: word, to: word) | TickOp {
    /** No entry goes to location 0. */
    predicate Fine() { AddOp? ==> b.location != 0 }
  }

  /** An add is refused when its location is off the screen or 2000 entries are in the list. */
  function Step(s: Blinks, op: Op): (r: Blinks)
    requires s.Ok() && op.Fine()
    ensures r.Ok()
  {
    match op
    case AddOp(b) => if b.location as int < LOCATIONS && |s.list| < LOCATIONS then Add(s, b) else s
    case RemoveOp(location) => Remove(s, location)
    case SyncOp(from, to) => Sync(s, from, to)
    case TickOp => Tick(s)
  }

  ghost predicate AllFine(ops: seq<Op>) {
    forall i :: 0 <= i < |ops| ==> ops[i].Fine()
  }

  function Run(s: Blinks, ops: seq<Op>): (r: Blinks)
    requires s.Ok() && AllFine(ops)
    ensures r.Ok()
  {
    if ops == [] then s else Step(Run(s, ops[..|ops| - 1]), ops[|ops| - 1])
  }

  /** A tick that has reached the first i entries. */
  function Partial(s: Blinks, i: nat): Blinks
    requires s.Ok() && i <= |s.list|
  {
    var r := Tick(s.(list := s.list[..i]));
    Blinks(r.list + s.list[i..], r.vmem)
  }

  lemma PartialEnds(s: Blinks)
    requires s.Ok()
    ensures Partial(s, 0) == s && Partial(s, |s.list|) == Tick(s)
  {
    assert s.list[..0] == [] && s.list[..|s.list|] == s.list;
  }

  lemma PartialStep(s: Blinks, i: nat)
    requires s.Ok() && i < |s.list|
    ensures var r := Partial(s, i);
            && |r.list| == |s.list| && |r.vmem| == VMEM && r.list[i] == s.list[i]
            && Partial(s, i + 1) == Blinks(r.list[i := TickEntry(r.list[i])], TickDraw(r.vmem, r.list[i]))
  {
    assert s.list[..i + 1][..i] == s.list[..i];
  }

  /** Taking out element i, seen position by position. */
  lemma TakenOut<T>(was: seq<T>, now: seq<T>, i: nat)
    requires i < |was| && |now| == |was| - 1
    requires forall k :: 0 <= k < |now| ==> now[k] == was[if k < i then k else k + 1]
    ensures now == was[..i] + was[i + 1..]
  {
  }

  // ---------------------------------------------------------------- a stack per location

  /** The entries at one location, most recent first. */
  function At(list: seq<Entry>, location: word): seq<Entry> {
    if list == [] then []
    else (if list[0].location == location then [list[0]] else []) + At(list[1..], location)
  }

  lemma {:induction false} AtConcat(a: seq<Entry>, b: seq<Entry>, location: word)
    ensures At(a + b, location) == At(a, location) + At(b, location)
  {
    if a == [] {
      assert a + b == b;
    } else {
      AtConcat(a[1..], b, location);
      ConcatParts(a, b, 1);
      ConcatAssoc(if a[0].location == location then [a[0]] else [], At(a[1..], location), At(b, location));
    }
  }

  lemma {:induction false} AtNone(list: seq<Entry>, location: word)
    requires forall i :: 0 <= i < |list| ==> list[i].location != location
    ensures At(list, location) == []
  {
    if list != [] { AtNone(list[1..], location); }
  }

  /** Find reports the top of the location's stack. */
  lemma FindIsTop(list: seq<Entry>, location: word)
    ensures var i := Find(list, location);
            if i < |list| then At(list, location) != [] && list[i] == At(list, location)[0]
            else At(list, location) == []
  {
    var i := Find(list, location);
    AtNone(list[..i], location);
    AtConcat(list[..i], list[i..], location);
    assert list == list[..i] + list[i..];
  }

  /** Add pushes on its location's stack, and removing right afterwards undoes it. */
  lemma AddPushes(s: Blinks, b: Entry, location: word)
    requires s.Ok() && b.location as int < LOCATIONS
    ensures At(Add(s, b).list, location)
         == (if location == b.location then [Started(b)] else []) + At(s.list, location)
    ensures Remove(Add(s, b), b.location).list == s.list
  {
    var list := Add(s, b).list;
    assert list[1..] == s.list;
    assert Find(list, b.location) == 0 && list[..0] + list[1..] == s.list;
  }

  /**
   Remove pops its location's stack, so the entry added before reappears; the stacks of all other
   locations, and the order of all other entries, stay as they are.
   */
  lemma RemovePops(s: Blinks, removed: word, location: word)
    ensures var stack := At(s.list, location);
            At(Remove(s, removed).list, location)
            == if location == removed && stack != [] then stack[1..] else stack
  {
    hide At;
    var i := Find(s.list, removed);
    FindIsTop(s.list, removed);
    if i < |s.list| {
      var front, back := s.list[..i], s.list[i + 1..];
      assert s.list == front + [s.list[i]] + back;
      AtConcat(front + [s.list[i]], back, location);
      AtConcat(front, [s.list[i]], location);
      AtConcat(front, back, location);
      AtOne(s.list[i], location);
      if location == removed { AtNone(front, location); }
    }
  }

  lemma AtOne(e: Entry, location: word)
    ensures At([e], location) == if e.location == location then [e] else []
  {
    assert At([e][1..], location) == [];
  }

  // ---------------------------------------------------------------- blinking over time

  /** How many ticks a length lasts: what decw and the signed jump make of it. */
  function Lasts(length: word): (n: nat)
    ensures 0 < n
  {
    if 1 <= length <= 0x8000 then length as int else 1
  }

  /** Ticks since the entry last went on, as a running count. */
  function Phase(n: nat, period: nat): (m: nat)
    requires 0 < period
    ensures m < period
  {
    if n == 0 then 0
    else if Phase(n - 1, period) + 1 == period then 0
    else Phase(n - 1, period) + 1
  }

  function Mod(n: nat, d: nat): (m: nat)
    requires 0 < d
    ensures m < d
  {
    n % d
  }

  lemma {:induction false} PhaseIsMod(n: nat, period: nat)
    requires 0 < period
    ensures Phase(n, period) == Mod(n, period)
  {
    hide Mod;
    if n == 0 {
      ModZero(period);
    } else {
      PhaseIsMod(n - 1, period);
      ModNext(n - 1, period);
    }
  }

  lemma ModZero(d: nat)
    requires 0 < d
    ensures Mod(0, d) == 0
  {
  }

  lemma ModNext(x: nat, d: nat)
    requires 0 < d
    ensures Mod(x + 1, d) == if Mod(x, d) + 1 == d then 0 else Mod(x, d) + 1
  {
    var q, m := x / d, x % d;
    if m + 1 == d {
      assert (q + 1) * d == q * d + d;
      ModIs(x + 1, d, q + 1, 0);
    } else {
      ModIs(x + 1, d, q, m + 1);
    }
  }

  lemma MulAtLeast(k: int, d: nat)
    requires k >= 1
    ensures k * d >= d
  {
    assert (k - 1) * d >= 0;
  }

  lemma ModIs(x: nat, d: nat, q: int, r: nat)
    requires r < d && x == q * d + r
    ensures x % d == r
  {
    ModUnique(q, r, x / d, x % d, d);
  }

  lemma ModUnique(q: int, r: nat, q': int, r': nat, d: nat)
    requires r < d && r' < d && q * d + r == q' * d + r'
    ensures r == r'
  {
    assert (q - q') * d == r' - r && (q' - q) * d == r - r';
    if q > q' {
      MulAtLeast(q - q', d);
    } else if q' > q {
      MulAtLeast(q' - q, d);
    }
  }

  function TickEntries(e: Entry, n: nat): Entry {
    if n == 0 then e else TickEntry(TickEntries(e, n - 1))
  }

  /** The state of an entry n ticks after it was added: where it is in its on/off period. */
  lemma {:induction false} BlinkState(b: Entry, n: nat)
    ensures var a, z := Lasts(b.onLength), Lasts(b.offLength);
            var e, m := TickEntries(Started(b), n), Phase(n, a + z);
            && e.On() == (m < a)
            && e.countdown as int == (if m < a then b.onLength as int - m else b.offLength as int - (m - a))
            && e == Started(b).(countdown := e.countdown, status := e.status) && e.status < 2
  {
    if n > 0 {
      BlinkState(b, n - 1);
    }
  }

  /** An entry that is not synced is on exactly in the first part of every period. */
  lemma BlinksPeriodically(b: Entry, n: nat)
    ensures TickEntries(Started(b), n).On()
       <==> n % (Lasts(b.onLength) + Lasts(b.offLength)) < Lasts(b.onLength)
  {
    BlinkState(b, n);
    PhaseIsMod(n, Lasts(b.onLength) + Lasts(b.offLength));
  }

  lemma {:induction false} TicksOfEntry(s: Blinks, n: nat, i: nat)
    requires s.Ok() && i < |s.list|
    ensures Ticks(s, n).list[i] == TickEntries(s.list[i], n)
  {
    hide TickEntry, TickDraw;
    if n > 0 { TicksOfEntry(s, n - 1, i); }
  }

  /** The video byte of an entry shows the character its status calls for. */
  ghost predicate Shows(vmem: seq<byte>, e: Entry)
    requires |vmem| == VMEM && e.location as int < LOCATIONS
  {
    vmem[2 * e.location as int] == if e.On() then e.onChar else e.offChar
  }

  /** No other entry shares the location of entry i. */
  ghost predicate Alone(list: seq<Entry>, i: nat)
    requires i < |list|
  {
    forall k :: 0 <= k < |list| && k != i ==> list[k].location != list[i].location
  }

  lemma {:induction false} OthersLeaveByte(s: Blinks, location: word)
    requires s.Ok() && location as int < LOCATIONS
    requires forall k :: 0 <= k < |s.list| ==> s.list[k].location != location
    ensures Tick(s).vmem[2 * location as int] == s.vmem[2 * location as int]
    decreases |s.list|
  {
    if s.list != [] { OthersLeaveByte(s.(list := s.list[..|s.list| - 1]), location); }
  }

  /** The byte of an entry alone at its location changes in a tick only by that entry. */
  lemma {:induction false} TickByte(s: Blinks, i: nat)
    requires s.Ok() && i < |s.list| && Alone(s.list, i)
    ensures var at := 2 * s.list[i].location as int; Tick(s).vmem[at] == TickDraw(s.vmem, s.list[i])[at]
    decreases |s.list|
  {
    var n := |s.list| - 1;
    if i < n {
      TickByte(s.(list := s.list[..n]), i);
    } else {
      OthersLeaveByte(s.(list := s.list[..n]), s.list[i].location);
    }
  }

  lemma TickShows(s: Blinks, i: nat)
    requires s.Ok() && i < |s.list| && Alone(s.list, i) && Shows(s.vmem, s.list[i])
    ensures Shows(Tick(s).vmem, TickEntry(s.list[i]))
  {
    hide Tick, Alone;
    TickByte(s, i);
  }

  lemma {:induction false} TicksShow(s: Blinks, n: nat, i: nat)
    requires s.Ok() && i < |s.list| && Alone(s.list, i) && Shows(s.vmem, s.list[i])
    ensures Alone(Ticks(s, n).list, i) && Shows(Ticks(s, n).vmem, Ticks(s, n).list[i])
  {
    hide TickEntry, TickDraw, Shows, Alone;
    if n > 0 {
      var r := Ticks(s, n - 1);
      TicksShow(s, n - 1, i);
      TickShows(r, i);
      TickAlone(r, i);
    }
  }

  lemma TickAlone(s: Blinks, i: nat)
    requires s.Ok() && i < |s.list| && Alone(s.list, i)
    ensures Alone(Tick(s).list, i)
  {
  }

  /**
   Main result on timing: n ticks after an entry is added where no other entry is, its video byte
   is the on character if n falls in the first part of the period, the off character otherwise.
   */
  lemma AddedBlinks(s: Blinks, b: Entry, n: nat)
    requires s.Ok() && 0 < b.location as int < LOCATIONS && At(s.list, b.location) == []
    ensures Add(s, b).Ok()
    ensures Ticks(Add(s, b), n).vmem[2 * b.location as int]
         == if n % (Lasts(b.onLength) + Lasts(b.offLength)) < Lasts(b.onLength) then b.onChar else b.offChar
  {
    var s' := Add(s, b);
    FindIsTop(s.list, b.location);
    assert Alone(s'.list, 0);
    TicksShow(s', n, 0);
    TicksOfEntry(s', n, 0);
    BlinksPeriodically(b, n);
    BlinkState(b, n);
  }

  /**
   What a sync changes: the second entry gets the first one's two lengths, countdown and status and keeps
   its place and characters, every other entry is as before, the first one included, and only the second
   one's byte is drawn. Without one of the two, nothing changes.
   */
  lemma SyncGivesTiming(s: Blinks, from: word, to: word)
    requires s.Ok()
    ensures var i, j, r := Find(s.list, from), Find(s.list, to), Sync(s, from, to);
            if i < |s.list| && j < |s.list| then
              var e, d := r.list[j], s.list[j];
              && |r.list| == |s.list| && (forall k :: 0 <= k < |s.list| && k != j ==> r.list[k] == s.list[k])
              && e.onLength == s.list[i].onLength && e.offLength == s.list[i].offLength
              && e.countdown == s.list[i].countdown && e.status == s.list[i].status
              && e.location == d.location && e.onChar == d.onChar && e.offChar == d.offChar
              && |r.vmem| == VMEM && r.vmem[2 * to as int] == d.offChar
              && forall b :: 0 <= b < VMEM && b != 2 * to as int ==> r.vmem[b] == s.vmem[b]
            else r == s
  {
  }

  /** What an add changes: the new entry heads the list, on and at the start of its phase, and its byte is drawn. */
  lemma AddStartsEntry(s: Blinks, b: Entry)
    requires s.Ok() && b.location as int < LOCATIONS
    ensures var r := Add(s, b);
            && |r.list| == |s.list| + 1 && (forall k :: 0 <= k < |s.list| ==> r.list[k + 1] == s.list[k])
            && r.list[0].On() && r.list[0].countdown == b.onLength && r.list[0].location == b.location
            && r.list[0].onChar == b.onChar && r.list[0].offChar == b.offChar
            && r.list[0].onLength == b.onLength && r.list[0].offLength == b.offLength
            && |r.vmem| == VMEM && r.vmem[2 * b.location as int] == b.onChar
            && forall k :: 0 <= k < VMEM && k != 2 * b.location as int ==> r.vmem[k] == s.vmem[k]
  {
  }

  /** The entry's phase ends with the next tick. */
  predicate Flips(e: Entry) { !(2 <= e.countdown <= 0x8000) }

  /** What the entry shows when it flips. */
  function FlipsTo(e: Entry): byte { if e.On() then e.offChar else e.onChar }

  /** Entry k is the last one in the list, the one added first, that a tick draws at byte b. */
  predicate DrawnLast(list: seq<Entry>, b: nat, k: nat) {
    && k < |list| && 2 * list[k].location as int == b && Flips(list[k])
    && forall i :: k < i < |list| && 2 * list[i].location as int == b ==> !Flips(list[i])
  }

  /**
   What a tick draws, byte for byte, wherever entries share a place: the entry added first among those
   that flip there has the last word, and a byte where none flips stays.
   */
  lemma {:induction false} TickDraws(s: Blinks, b: nat, k: nat)
    requires s.Ok() && b < VMEM
    ensures DrawnLast(s.list, b, k) ==> Tick(s).vmem[b] == FlipsTo(s.list[k])
    ensures (forall i :: 0 <= i < |s.list| && 2 * s.list[i].location as int == b ==> !Flips(s.list[i])) ==>
      Tick(s).vmem[b] == s.vmem[b]
    decreases |s.list|
  {
    if s.list != [] {
      var n := |s.list| - 1;
      var front := s.list[..n];
      assert forall i :: 0 <= i < n ==> front[i] == s.list[i];
      TickDraws(s.(list := front), b, k);
      FlipsIsTick(s.list[n]);
    }
  }

  lemma FlipsIsTick(e: Entry)
    ensures Flips(e) <==> !Positive(Dec(e.countdown))
  {
  }

  ghost predicate InStep(a: Entry, b: Entry) {
    a.onLength == b.onLength && a.offLength == b.offLength && a.countdown == b.countdown && a.status == b.status
  }

  lemma {:induction false} StayInStep(a: Entry, b: Entry, n: nat)
    requires InStep(a, b)
    ensures InStep(TickEntries(a, n), TickEntries(b, n))
  {
    if n > 0 { StayInStep(a, b, n - 1); }
  }

  /**
   After a sync the two entries agree in status and countdown at every later tick. The byte drawn
   by the sync itself is always the off character, so right then it shows the status if and only
   if the entry is off or its two characters are the same.
   */
  lemma SyncedForever(s: Blinks, from: word, to: word, n: nat)
    requires s.Ok()
    requires var i, j := Find(s.list, from), Find(s.list, to); i < |s.list| && j < |s.list|
    ensures Sync(s, from, to).Ok()
    ensures var i, j, r := Find(s.list, from), Find(s.list, to), Sync(s, from, to);
            && InStep(Ticks(r, n).list[i], Ticks(r, n).list[j])
            && (Shows(r.vmem, r.list[j]) <==> !r.list[j].On() || r.list[j].onChar == r.list[j].offChar)
  {
    var i, j, r := Find(s.list, from), Find(s.list, to), Sync(s, from, to);
    TicksOfEntry(r, n, i);
    TicksOfEntry(r, n, j);
    StayInStep(r.list[i], r.list[j], n);
  }

  /** The first phase from any countdown on: as many ticks as the countdown lasts. */
  lemma {:induction false} FirstPhase(e: Entry, n: nat)
    requires n < Lasts(e.countdown) && e.status < 2
    ensures var m := TickEntries(e, n);
            m == e.(countdown := m.countdown) && m.countdown as int == e.countdown as int - n
    ensures Positive(Dec(TickEntries(e, n).countdown)) <==> n + 1 < Lasts(e.countdown)
  {
    if n > 0 { FirstPhase(e, n - 1); }
  }

  /** A byte that shows the off character shows it until the entry's phase is over, and the right one ever after. */
  lemma {:induction false} ByteFromOff(r: Blinks, j: nat, n: nat)
    requires r.Ok() && j < |r.list| && Alone(r.list, j) && r.vmem[2 * r.list[j].location as int] == r.list[j].offChar
    ensures Alone(Ticks(r, n).list, j) && Ticks(r, n).list[j] == TickEntries(r.list[j], n)
    ensures var e, s := r.list[j], Ticks(r, n);
            if n < Lasts(e.countdown) then
              s.list[j].On() == e.On() && s.list[j].location == e.location && s.vmem[2 * e.location as int] == e.offChar
            else Shows(s.vmem, s.list[j])
  {
    hide Tick, Alone;
    TicksOfEntry(r, n, j);
    if n > 0 {
      var e, s := r.list[j], Ticks(r, n - 1);
      ByteFromOff(r, j, n - 1);
      TickAlone(s, j);
      if n - 1 < Lasts(e.countdown) {
        FirstPhase(e, n - 1);
        TickByte(s, j);
        if n < Lasts(e.countdown) { FirstPhase(e, n); }
      } else {
        TickShows(s, j);
      }
    }
  }

  /**
   n ticks after a sync, the byte of an entry alone at its location is right if and only if the entry was
   synced to off, its two characters are equal, or the countdown it took over has run out.
   */
  lemma SyncedByte(s: Blinks, from: word, to: word, n: nat)
    requires s.Ok()
    requires var i, j := Find(s.list, from), Find(s.list, to); i < |s.list| && j < |s.list| && Alone(s.list, j)
    ensures Sync(s, from, to).Ok()
    ensures var j, r := Find(s.list, to), Sync(s, from, to); var e := r.list[j];
            Shows(Ticks(r, n).vmem, Ticks(r, n).list[j])
            <==> !e.On() || e.onChar == e.offChar || n >= Lasts(e.countdown)
  {
    var j, r := Find(s.list, to), Sync(s, from, to);
    assert Alone(r.list, j);
    ByteFromOff(r, j, n);
    if n < Lasts(r.list[j].countdown) { FirstPhase(r.list[j], n); }
  }
}
