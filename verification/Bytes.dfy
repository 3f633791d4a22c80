/** Bytes, C strings and the few sequence facts shared by the other modules. */
module Bytes {

  newtype byte = x: int | 0 <= x < 256

  const NUL: byte := 0
  const NL: byte := 10
  const CR: byte := 13
  const SP: byte := 32

  datatype Option<+T> = None | Some(value: T)

  /** A C string's contents: no NUL inside. */
  ghost predicate NoNul(s: seq<byte>) {
    forall i :: 0 <= i < |s| ==> s[i] != NUL
  }

  function Min(a: int, b: int): int { if a <= b then a else b }

  /** The first n elements, or all of them when there are fewer. */
  function Take<T>(s: seq<T>, n: nat): seq<T> {
    if n <= |s| then s[..n] else s
  }

  /** The byte a C pointer s + i reads: the terminator comes right after the contents. */
  function CharAt(s: seq<byte>, i: nat): byte
    requires i <= |s|
  {
    if i < |s| then s[i] else NUL
  }

  lemma ConcatAssoc<T>(a: seq<T>, b: seq<T>, c: seq<T>)
    ensures (a + b) + c == a + (b + c)
  {
  }

  lemma TakeOneMore<T>(s: seq<T>, n: nat)
    requires n < |s|
    ensures s[..n + 1] == s[..n] + [s[n]]
  {
  }

  lemma ConcatParts<T>(a: seq<T>, b: seq<T>, n: nat)
    requires n <= |a|
    ensures (a + b)[..n] == a[..n] && (a + b)[n..] == a[n..] + b
    ensures forall i :: 0 <= i < |a| ==> (a + b)[i] == a[i]
  {
  }

  /** A text in three parts: before h, from h to k, and the rest. */
  lemma ThreeParts<T>(text: seq<T>, h: nat, k: nat)
    requires h <= k <= |text|
    ensures text == text[..h] + (text[h..k] + text[k..])
    ensures text[..k] == text[..h] + text[h..k]
  {
  }

  lemma TwoParts<T>(text: seq<T>, h: nat, k: nat, m: nat)
    requires h <= k && k + m <= |text|
    ensures text[h..k + m] == text[h..k] + text[k..][..m]
  {
  }

  lemma PrefixParts<T>(text: seq<T>, n: nat, k: nat)
    requires k <= n <= |text|
    ensures text[..n][..k] == text[..k] && text[..n][k..n] == text[k..][..n - k] && text[k..][n - k..] == text[n..]
  {
  }

  lemma ConcatTail<T>(a: seq<T>, b: seq<T>, n: nat)
    requires n <= |b|
    ensures (a + b)[..|a| + n] == a + b[..n] && (a + b)[|a| + n..] == b[n..]
  {
  }

  /** Memory after the bytes from dest on became those of data. */
  function Stored(mem: seq<byte>, dest: nat, data: seq<byte>): (r: seq<byte>)
    requires dest + |data| <= |mem|
    ensures |r| == |mem|
  {
    mem[..dest] + data + mem[dest + |data|..]
  }

  /** The same, seen byte by byte. */
  lemma StoredIs(mem: seq<byte>, dest: nat, data: seq<byte>, r: seq<byte>)
    requires dest + |data| <= |mem| == |r|
    requires forall k :: 0 <= k < |r| ==> r[k] == if dest <= k < dest + |data| then data[k - dest] else mem[k]
    ensures r == Stored(mem, dest, data)
  {
  }

  /** Data put at the start of a room of that many bytes leaves what lies behind the room, in any memory. */
  ghost predicate StaysInside(data: seq<byte>, room: nat) {
    forall mem: seq<byte>, at: nat :: at + |data| <= |mem| && at + room <= |mem| ==>
      Stored(mem, at, data)[at + room..] == mem[at + room..]
  }

  /** One memory: what lies behind the room is as before, or its first byte is the first one with no room. */
  lemma StoreBehind(mem: seq<byte>, at: nat, data: seq<byte>, room: nat)
    requires at + |data| <= |mem|
    ensures |data| <= room && at + room <= |mem| ==> Stored(mem, at, data)[at + room..] == mem[at + room..]
    ensures |data| > room ==> Stored(mem, at, data)[at + room] == data[room]
  {
  }

  /** Data stays inside a room if and only if it is no longer. */
  lemma StoreStaysInside(data: seq<byte>, room: nat)
    ensures StaysInside(data, room) <==> |data| <= room
  {
    if |data| <= room {
      forall mem: seq<byte>, at: nat | at + |data| <= |mem| && at + room <= |mem|
        ensures Stored(mem, at, data)[at + room..] == mem[at + room..]
      {
        StoreBehind(mem, at, data, room);
      }
    } else {
      var other: byte := if data[room] == NUL then NL else NUL;
      var mem := seq(|data|, _ => other);
      StoreBehind(mem, 0, data, room);
      assert Stored(mem, 0, data)[0 + room..][0] != mem[0 + room..][0];
    }
  }

  /** Number of bytes before the first newline, or before the end of the text. */
  function LineLen(text: seq<byte>): (n: nat)
    ensures n <= |text|
    ensures n < |text| ==> text[n] == NL
    ensures forall i :: 0 <= i < n ==> text[i] != NL
  {
    if text == [] || text[0] == NL then 0 else 1 + LineLen(text[1..])
  }

  lemma {:induction false} LineLenIs(text: seq<byte>, n: nat)
    requires n <= |text| && (n == |text| || text[n] == NL)
    requires forall i :: 0 <= i < n ==> text[i] != NL
    ensures LineLen(text) == n
  {
    if n > 0 { LineLenIs(text[1..], n - 1); }
  }

  /** A C string occupies a[off..end) and a[end] is its terminator. */
  ghost predicate CString(a: array<byte>, off: nat, end: nat)
    reads a
  {
    off <= end < a.Length && a[end] == NUL && forall k :: off <= k < end ==> a[k] != NUL
  }

  /** strlen and ece391_strlen */
  method StrLen(a: array<byte>, off: nat, ghost end: nat) returns (len: nat)
    requires CString(a, off, end)
    ensures len == end - off
  {
    len := 0;
    while a[off + len] != NUL
      invariant off + len <= end
      decreases end - off - len
    {
      len := len + 1;
    }
  }

  /** strcpy and ece391_strcpy of w, terminator included. */
  method StrCpy(buf: array<byte>, at: nat, w: seq<byte>)
    requires at + |w| < buf.Length
    modifies buf
    ensures forall k :: 0 <= k < buf.Length ==>
      buf[k] == if at <= k < at + |w| then w[k - at] else if k == at + |w| then NUL else old(buf[k])
  {
    var i := 0;
    while i < |w|
      invariant 0 <= i <= |w|
      invariant forall k :: 0 <= k < buf.Length ==> buf[k] == if at <= k < at + i then w[k - at] else old(buf[k])
    {
      buf[at + i] := w[i];
      i := i + 1;
    }
    buf[at + i] := NUL;
  }
}
