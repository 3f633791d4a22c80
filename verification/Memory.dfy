/**
 memset, memcpy and memmove of lib.c on a byte-addressed memory: the word-at-a-time phases, and the
 choice of direction, against the plain meaning of the three calls.
 */
module Memory {
  import opened Bytes

  // ---------------------------------------------------------------- memset

  /** memset: single bytes up to a multiple of four, words, then the rest. */
  method Memset(mem: array<byte>, s: nat, c: int, n: nat)
    requires s + n <= mem.Length
    modifies mem
    ensures mem[..] == Stored(old(mem[..]), s, seq(n, _ => (c % 256) as byte))
  {
    hide Stored;
    ghost var was := mem[..];
    var al := (c % 256) as byte;
    var edi, ecx := s, n;
    while ecx != 0 && edi % 4 != 0
      invariant 0 <= ecx && edi + ecx == s + n && s <= edi
      invariant forall k :: 0 <= k < mem.Length ==> mem[k] == if s <= k < edi then al else old(mem[k])
    {
      mem[edi] := al;
      edi := edi + 1;
      ecx := ecx - 1;
    }
    if ecx != 0 {
      var edx := ecx;
      ecx := ecx / 4;
      edx := edx % 4;
      while ecx != 0
        invariant 0 <= ecx && 0 <= edx && edi + 4 * ecx + edx == s + n && s <= edi
        invariant forall k :: 0 <= k < mem.Length ==> mem[k] == if s <= k < edi then al else old(mem[k])
      {
        mem[edi], mem[edi + 1], mem[edi + 2], mem[edi + 3] := al, al, al, al;
        edi := edi + 4;
        ecx := ecx - 1;
      }
      while edx != 0
        invariant 0 <= edx && edi + edx == s + n && s <= edi
        invariant forall k :: 0 <= k < mem.Length ==> mem[k] == if s <= k < edi then al else old(mem[k])
      {
        mem[edi] := al;
        edi := edi + 1;
        edx := edx - 1;
      }
    }
    StoredIs(was, s, seq(n, _ => al), mem[..]);
  }

  // ---------------------------------------------------------------- memcpy

  /** n bytes copied one at a time, upwards. */
  function Bytewise(mem: seq<byte>, dest: nat, src: nat, n: nat): (r: seq<byte>)
    requires dest + n <= |mem| && src + n <= |mem|
    ensures |r| == |mem|
  {
    if n == 0 then mem
    else
      var m := Bytewise(mem, dest, src, n - 1);
      m[dest + n - 1 := m[src + n - 1]]
  }

  /** w words copied one at a time, upwards: four bytes are read before they are written. */
  function Wordwise(mem: seq<byte>, dest: nat, src: nat, w: nat): (r: seq<byte>)
    requires dest + 4 * w <= |mem| && src + 4 * w <= |mem|
    ensures |r| == |mem|
  {
    if w == 0 then mem
    else
      var m, i := Wordwise(mem, dest, src, w - 1), 4 * (w - 1);
      m[dest + i := m[src + i]][dest + i + 1 := m[src + i + 1]]
       [dest + i + 2 := m[src + i + 2]][dest + i + 3 := m[src + i + 3]]
  }

  /** How many single bytes come first: up to a multiple of four. */
  function ToAligned(dest: nat, n: nat): (a: nat)
    ensures a <= n && a < 4 && (a == n || (dest + a) % 4 == 0)
    ensures a == 0 <==> n == 0 || dest % 4 == 0
  {
    Min(n, (4 - dest % 4) % 4)
  }

  /** The three phases of memcpy. */
  function Copied(mem: seq<byte>, dest: nat, src: nat, n: nat): (r: seq<byte>)
    requires dest + n <= |mem| && src + n <= |mem|
    ensures |r| == |mem|
  {
    var a := ToAligned(dest, n);
    var w := (n - a) / 4;
    var m := Wordwise(Bytewise(mem, dest, src, a), dest + a, src + a, w);
    Bytewise(m, dest + a + 4 * w, src + a + 4 * w, n - a - 4 * w)
  }

  /** The first phase: single bytes until the destination is at a multiple of four. */
  method CopyToAligned(mem: array<byte>, edi0: nat, esi0: nat, n: nat) returns (done: nat)
    requires edi0 + n <= mem.Length && esi0 + n <= mem.Length
    modifies mem
    ensures done == ToAligned(edi0, n) && mem[..] == Bytewise(old(mem[..]), edi0, esi0, done)
  {
    done := 0;
    var edi := edi0;
    while done != n && edi % 4 != 0
      invariant 0 <= done <= n && edi == edi0 + done
      invariant ToAligned(edi0, n) == done + ToAligned(edi, n - done)
      invariant mem[..] == Bytewise(old(mem[..]), edi0, esi0, done)
    {
      ghost var before := mem[..];
      mem[edi] := mem[esi0 + done];
      assert mem[..] == before[edi := before[esi0 + done]];
      edi, done := edi + 1, done + 1;
    }
  }

  /** The word phase: rep movsl. */
  method CopyWords(mem: array<byte>, edi0: nat, esi0: nat, words: nat)
    requires edi0 + 4 * words <= mem.Length && esi0 + 4 * words <= mem.Length
    modifies mem
    ensures mem[..] == Wordwise(old(mem[..]), edi0, esi0, words)
  {
    var ecx, edi, esi := words, edi0, esi0;
    while ecx != 0
      invariant 0 <= ecx <= words && edi == edi0 + 4 * (words - ecx) && esi == esi0 + 4 * (words - ecx)
      invariant mem[..] == Wordwise(old(mem[..]), edi0, esi0, words - ecx)
    {
      ghost var m := mem[..];
      mem[edi], mem[edi + 1], mem[edi + 2], mem[edi + 3] := mem[esi], mem[esi + 1], mem[esi + 2], mem[esi + 3];
      assert mem[..] == m[edi := m[esi]][edi + 1 := m[esi + 1]][edi + 2 := m[esi + 2]][edi + 3 := m[esi + 3]];
      edi, esi, ecx := edi + 4, esi + 4, ecx - 1;
    }
  }

  /** The tail phase. */
  method CopyTail(mem: array<byte>, edi0: nat, esi0: nat, n: nat)
    requires edi0 + n <= mem.Length && esi0 + n <= mem.Length
    modifies mem
    ensures mem[..] == Bytewise(old(mem[..]), edi0, esi0, n)
  {
    var edi, esi, edx := edi0, esi0, n;
    while edx != 0
      invariant 0 <= edx <= n && edi == edi0 + n - edx && esi == esi0 + n - edx
      invariant mem[..] == Bytewise(old(mem[..]), edi0, esi0, n - edx)
    {
      ghost var before := mem[..];
      mem[edi] := mem[esi];
      assert mem[..] == before[edi := before[esi]];
      edi, esi, edx := edi + 1, esi + 1, edx - 1;
    }
  }

  /** memcpy, always upwards. */
  method Memcpy(mem: array<byte>, dest: nat, src: nat, n: nat)
    requires dest + n <= mem.Length && src + n <= mem.Length
    modifies mem
    ensures mem[..] == Copied(old(mem[..]), dest, src, n)
  {
    hide Bytewise, Wordwise;
    var a := CopyToAligned(mem, dest, src, n);
    if a != n {
      var words, tail := (n - a) / 4, (n - a) % 4;
      CopyWords(mem, dest + a, src + a, words);
      CopyTail(mem, dest + a + 4 * words, src + a + 4 * words, tail);
    } else {
      NoPhases(mem[..], dest + n, src + n);
    }
  }

  lemma NoPhases(mem: seq<byte>, dest: nat, src: nat)
    requires dest <= |mem| && src <= |mem|
    ensures Wordwise(mem, dest, src, 0) == mem && Bytewise(mem, dest, src, 0) == mem
  {
  }

  // ---- what byte each destination byte gets

  /**
   Byte k of a copy is the source byte there, or what the copy itself wrote over that source byte before:
   from is how many bytes were written before byte k was read.
   */
  ghost predicate ByteLaw(mem: seq<byte>, m: seq<byte>, dest: nat, src: nat, k: nat, from: nat)
    requires |m| == |mem| && dest + k < |mem| && src + k < |mem|
  {
    m[dest + k] == if dest <= src + k < dest + from then m[src + k] else mem[src + k]
  }

  /** A phase of n bytes touches nothing else. */
  ghost predicate Outside(mem: seq<byte>, m: seq<byte>, dest: nat, n: nat)
    requires |m| == |mem|
  {
    forall i :: 0 <= i < |mem| && !(dest <= i < dest + n) ==> m[i] == mem[i]
  }

  lemma {:induction false} BytewiseOutside(mem: seq<byte>, dest: nat, src: nat, n: nat)
    requires dest + n <= |mem| && src + n <= |mem|
    ensures Outside(mem, Bytewise(mem, dest, src, n), dest, n)
  {
    if n > 0 { BytewiseOutside(mem, dest, src, n - 1); }
  }

  lemma {:induction false} BytewiseLaw(mem: seq<byte>, dest: nat, src: nat, n: nat, k: nat)
    requires dest + n <= |mem| && src + n <= |mem| && k < n
    ensures ByteLaw(mem, Bytewise(mem, dest, src, n), dest, src, k, k)
  {
    BytewiseOutside(mem, dest, src, n - 1);
    if k < n - 1 { BytewiseLaw(mem, dest, src, n - 1, k); }
  }

  lemma {:induction false} WordwiseOutside(mem: seq<byte>, dest: nat, src: nat, w: nat)
    requires dest + 4 * w <= |mem| && src + 4 * w <= |mem|
    ensures Outside(mem, Wordwise(mem, dest, src, w), dest, 4 * w)
  {
    if w > 0 { WordwiseOutside(mem, dest, src, w - 1); }
  }

  lemma {:induction false} WordwiseLaw(mem: seq<byte>, dest: nat, src: nat, w: nat, k: nat)
    requires dest + 4 * w <= |mem| && src + 4 * w <= |mem| && k < 4 * w
    ensures ByteLaw(mem, Wordwise(mem, dest, src, w), dest, src, k, k - k % 4)
  {
    WordwiseOutside(mem, dest, src, w - 1);
    if k < 4 * (w - 1) { WordwiseLaw(mem, dest, src, w - 1, k); }
  }

  /** How many bytes are written before byte k is read. */
  function WrittenBefore(dest: nat, n: nat, k: nat): (g: nat)
    requires k < n
    ensures g <= k
  {
    var a := ToAligned(dest, n);
    if a <= k < a + 4 * ((n - a) / 4) then k - (k - a) % 4 else k
  }

  lemma CopiedLaw(mem: seq<byte>, dest: nat, src: nat, n: nat, k: nat)
    requires dest + n <= |mem| && src + n <= |mem| && k < n
    ensures ByteLaw(mem, Copied(mem, dest, src, n), dest, src, k, WrittenBefore(dest, n, k))
  {
    hide Bytewise, Wordwise, ByteLaw, ToAligned;
    var a := ToAligned(dest, n);
    var w := (n - a) / 4;
    PhasesLaw(mem, dest, src, n, a, w, k);
  }

  /** Three phases of a bytes, w words, and the rest. */
  lemma PhasesLaw(mem: seq<byte>, dest: nat, src: nat, n: nat, a: nat, w: nat, k: nat)
    requires dest + n <= |mem| && src + n <= |mem| && k < n && a + 4 * w <= n
    ensures var b := a + 4 * w;
            var m2 := Wordwise(Bytewise(mem, dest, src, a), dest + a, src + a, w);
            var m3 := Bytewise(m2, dest + b, src + b, n - b);
            ByteLaw(mem, m3, dest, src, k, if a <= k < b then k - (k - a) % 4 else k)
  {
    hide Bytewise, Wordwise, ByteLaw, Outside;
    var b := a + 4 * w;
    var m1 := Bytewise(mem, dest, src, a);
    var m2 := Wordwise(m1, dest + a, src + a, w);
    var m3 := Bytewise(m2, dest + b, src + b, n - b);
    BytewiseOutside(mem, dest, src, a);
    WordwiseOutside(m1, dest + a, src + a, w);
    BytewiseOutside(m2, dest + b, src + b, n - b);
    if k < a {
      BytewiseLaw(mem, dest, src, a, k);
      LawLater(mem, m1, m2, dest, src, k, k, a, 4 * w);
      LawLater(mem, m2, m3, dest, src, k, k, b, n - b);
    } else if k < b {
      var from := k - (k - a) % 4;
      WordwiseLaw(m1, dest + a, src + a, w, k - a);
      LawEarlier(mem, m1, m2, dest, src, a, k, from, 4 * w);
      LawLater(mem, m2, m3, dest, src, k, from, b, n - b);
    } else {
      OutsideTwice(mem, m1, m2, dest, a, 4 * w);
      BytewiseLaw(m2, dest + b, src + b, n - b, k - b);
      LawEarlier(mem, m2, m3, dest, src, b, k, k, n - b);
    }
  }

  lemma CopiedOutside(mem: seq<byte>, dest: nat, src: nat, n: nat)
    requires dest + n <= |mem| && src + n <= |mem|
    ensures Outside(mem, Copied(mem, dest, src, n), dest, n)
  {
    hide Bytewise, Wordwise, ToAligned;
    var a := ToAligned(dest, n);
    var w := (n - a) / 4;
    var b := a + 4 * w;
    var m1 := Bytewise(mem, dest, src, a);
    var m2 := Wordwise(m1, dest + a, src + a, w);
    BytewiseOutside(mem, dest, src, a);
    WordwiseOutside(m1, dest + a, src + a, w);
    BytewiseOutside(m2, dest + b, src + b, n - b);
  }

  lemma OutsideTwice(mem: seq<byte>, m1: seq<byte>, m2: seq<byte>, dest: nat, a: nat, n: nat)
    requires |m1| == |m2| == |mem| && Outside(mem, m1, dest, a) && Outside(m1, m2, dest + a, n)
    ensures Outside(mem, m2, dest, a + n)
  {
  }

  /** A later phase, which writes behind the first a bytes, keeps what a byte among them got. */
  lemma LawLater(mem: seq<byte>, m: seq<byte>, later: seq<byte>, dest: nat, src: nat, k: nat, from: nat, a: nat, n: nat)
    requires |m| == |later| == |mem| && dest + k < |mem| && src + k < |mem| && from <= k < a
    requires ByteLaw(mem, m, dest, src, k, from) && Outside(m, later, dest + a, n)
    ensures ByteLaw(mem, later, dest, src, k, from)
  {
  }

  /** A phase that starts behind the first a bytes, seen from the start of the copy. */
  lemma LawEarlier(mem: seq<byte>, m: seq<byte>, later: seq<byte>, dest: nat, src: nat, a: nat, k: nat, from: nat,
                   n: nat)
    requires |m| == |later| == |mem| && dest + k < |mem| && src + k < |mem| && a <= from <= k
    requires ByteLaw(m, later, dest + a, src + a, k - a, from - a)
    requires Outside(mem, m, dest, a) && Outside(m, later, dest + a, n)
    ensures ByteLaw(mem, later, dest, src, k, from)
  {
  }

  // ---- when that is a copy

  /** A copy from src upwards to dest does not run over source bytes it has yet to read. */
  predicate Upwards(dest: nat, src: nat, n: nat) { dest <= src || src + n <= dest }

  /** The source bytes arrive, whatever they are. */
  ghost predicate CopiesAll(dest: nat, src: nat, n: nat) {
    forall mem: seq<byte> :: dest + n <= |mem| && src + n <= |mem| ==>
      Copied(mem, dest, src, n) == Stored(mem, dest, mem[src..src + n])
  }

  /** memory with a single byte 1. */
  function Single(size: nat, at: nat): (mem: seq<byte>)
    ensures |mem| == size && forall i :: 0 <= i < size ==> mem[i] == if i == at then 1 else 0
  {
    seq(size, i => if i == at then 1 else 0)
  }

  /** Byte k is read when source byte j was already written over it. */
  lemma RunsOver(dest: nat, src: nat, n: nat, k: nat)
    requires src < dest && dest - src <= k < n
    requires var j := k - (dest - src);
             j < WrittenBefore(dest, n, k) && !(dest <= src + j < dest + WrittenBefore(dest, n, j))
    ensures !CopiesAll(dest, src, n)
  {
    hide Copied, ToAligned, WrittenBefore, Stored;
    var j := k - (dest - src);
    var mem := Single(dest + n, src + j);
    var m := Copied(mem, dest, src, n);
    CopiedLaw(mem, dest, src, n, j);
    CopiedLaw(mem, dest, src, n, k);
    hide Single;
    assert m[dest + k] == m[dest + j] == mem[src + j] == 1;
    StoredAt(mem, dest, mem[src..src + n], k);
  }

  lemma StoredAt(mem: seq<byte>, dest: nat, data: seq<byte>, k: nat)
    requires dest + |data| <= |mem| && k < |data|
    ensures Stored(mem, dest, data)[dest + k] == data[k]
  {
  }

  /**
   memcpy delivers the source bytes for every memory if and only if the destination does not begin inside
   the source, or exactly one aligned word is copied.
   */
  lemma MemcpyExactly(dest: nat, src: nat, n: nat)
    ensures CopiesAll(dest, src, n) <==> Upwards(dest, src, n) || (n == 4 && dest % 4 == 0)
  {
    hide Copied;
    if Upwards(dest, src, n) || (n == 4 && dest % 4 == 0) {
      forall mem: seq<byte> | dest + n <= |mem| && src + n <= |mem|
        ensures Copied(mem, dest, src, n) == Stored(mem, dest, mem[src..src + n])
      {
        CopiedOutside(mem, dest, src, n);
        var m := Copied(mem, dest, src, n);
        forall i | dest <= i < dest + n ensures m[i] == mem[src..src + n][i - dest] {
          CopiedLaw(mem, dest, src, n, i - dest);
        }
        StoredIs(mem, dest, mem[src..src + n], m);
      }
    } else if WrittenBefore(dest, n, dest - src) > 0 {
      RunsOver(dest, src, n, dest - src);
    } else {
      assert ToAligned(dest, n) == 0 && dest % 4 == 0 && dest - src < 4 && n > 4;
      RunsOver(dest, src, n, 4);
    }
  }

  /** Two bytes copied one place up: the first one arrives twice. */
  method MemcpyRepeats() returns (mem: array<byte>)
    ensures fresh(mem) && mem[..] == [1, 1, 1]
  {
    mem := new byte[][1, 2, 3];
    assert mem[..] == [1, 2, 3];
    CopiedTwo([1, 2, 3]);
    Memcpy(mem, 1, 0, 2);
  }

  lemma CopiedTwo(mem: seq<byte>)
    requires |mem| == 3
    ensures Copied(mem, 1, 0, 2) == [mem[0], mem[0], mem[0]]
  {
    CopiedOutside(mem, 1, 0, 2);
    CopiedLaw(mem, 1, 0, 2, 0);
    CopiedLaw(mem, 1, 0, 2, 1);
  }

  // ---------------------------------------------------------------- memmove

  /** memmove: upwards when the source is not below the destination, else downwards; right for every overlap. */
  method Memmove(mem: array<byte>, dest: nat, src: nat, n: nat)
    requires dest + n <= mem.Length && src + n <= mem.Length
    modifies mem
    ensures mem[..] == Stored(old(mem[..]), dest, old(mem[..])[src..src + n])
  {
    hide Stored;
    ghost var was := mem[..];
    var ecx := n;
    if src >= dest {
      var edi, esi := dest, src;
      while ecx != 0
        invariant 0 <= ecx && edi + ecx == dest + n && esi + ecx == src + n && dest <= edi
        invariant forall k :: 0 <= k < mem.Length ==>
          mem[k] == if dest <= k < edi then old(mem[src + k - dest]) else old(mem[k])
      {
        mem[edi] := mem[esi];
        edi, esi, ecx := edi + 1, esi + 1, ecx - 1;
      }
    } else {
      var esi, edi := src + ecx - 1, dest + ecx - 1;
      while ecx != 0
        invariant 0 <= ecx <= n && edi == dest + ecx - 1 && esi == src + ecx - 1
        invariant forall k :: 0 <= k < mem.Length ==>
          mem[k] == if edi < k < dest + n then old(mem[src + k - dest]) else old(mem[k])
      {
        mem[edi] := mem[esi];
        edi, esi, ecx := edi - 1, esi - 1, ecx - 1;
      }
    }
    StoredIs(was, dest, was[src..src + n], mem[..]);
  }
}
