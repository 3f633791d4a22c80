/** The directory of the file system image: lookup by name and by index, and reading the listing (filesystem.c). */
module Directory {
  import opened Bytes
  import opened ProcessTable
  import opened FileSystem
  import GrepSpec

  const SCANNED: nat := 17       // how many entries read_dentry_by_name looks at
  const ENTRY_WORDS: nat := 16   // 32-bit words in a directory entry

  ghost predicate Ok(img: Image) {
    |img.dentries| == DENTRIES && forall k :: 0 <= k < DENTRIES ==> |img.dentries[k].name| == NAME
  }

  /** Length of a stored name: up to the first NUL, at most 32. */
  function NameLen(name: seq<byte>): (n: nat)
    ensures n <= |name| && (n < |name| ==> name[n] == NUL)
    ensures forall i :: 0 <= i < n ==> name[i] != NUL
  {
    if name == [] || name[0] == NUL then 0 else 1 + NameLen(name[1..])
  }

  function NameOf(d: Dentry): seq<byte> { d.name[..NameLen(d.name)] }

  /** Index of the first entry from k on with this name among the scanned ones, or SCANNED. */
  function FirstNamed(img: Image, fname: seq<byte>, k: nat): (i: nat)
    requires Ok(img) && k <= SCANNED
    ensures k <= i <= SCANNED && (i < SCANNED ==> NameOf(img.dentries[i]) == fname)
    ensures forall j :: k <= j < i ==> NameOf(img.dentries[j]) != fname
    decreases SCANNED - k
  {
    if k == SCANNED || NameOf(img.dentries[k]) == fname then k else FirstNamed(img, fname, k + 1)
  }

  lemma {:induction false} NameLenIs(name: seq<byte>, n: nat)
    requires n <= |name| && (n < |name| ==> name[n] == NUL)
    requires forall i :: 0 <= i < n ==> name[i] != NUL
    ensures NameLen(name) == n
  {
    if n > 0 { NameLenIs(name[1..], n - 1); }
  }

  /** strlen of a stored name, taken as 32 when that is exceeded. */
  method StoredLen(name: seq<byte>) returns (n: nat)
    ensures n == NameLen(name)
  {
    n := 0;
    while n < |name| && name[n] != NUL
      invariant 0 <= n <= |name|
      invariant forall i :: 0 <= i < n ==> name[i] != NUL
    {
      n := n + 1;
    }
    NameLenIs(name, n);
  }

  /** strncmp of the local copy and a stored name on n bytes without a terminator: equal or not. */
  method SameBytes(stack: array<byte>, at: nat, name: seq<byte>, n: nat, ghost key: seq<byte>) returns (same: bool)
    requires n == |key| <= |name| && at + n <= stack.Length && forall i :: 0 <= i < n ==> stack[at + i] == key[i]
    ensures same <==> key == name[..n]
  {
    var i := 0;
    while i < n
      invariant 0 <= i <= n && forall k :: 0 <= k < i ==> key[k] == name[k]
    {
      if stack[at + i] != name[i] {
        assert key[i] != name[..n][i];
        return false;
      }
      i := i + 1;
    }
    return true;
  }

  /** read_dentry_by_index into d, which keeps its contents on failure. */
  method ReadDentryByIndex(img: Image, index: nat, was: Dentry) returns (r: int, d: Dentry)
    requires Ok(img) && index < DENTRIES
    ensures r == if index > img.dentryNum then -1 else 0
    ensures d == if index > img.dentryNum then was else img.dentries[index]
  {
    if index > img.dentryNum {
      return -1, was;
    }
    return 0, img.dentries[index];
  }

  /** The local copy of a name, cut to 32 bytes after the whole of it was copied. */
  method CopyName(stack: array<byte>, at: nat, fname: seq<byte>)
    requires at + NAME < stack.Length && at + |fname| < stack.Length
    modifies stack
    ensures forall k :: 0 <= k < at ==> stack[k] == old(stack[k])
    ensures stack[at + NAME + 1..] == Stored(old(stack[..]), at, fname + [NUL])[at + NAME + 1..]
    ensures |fname| <= NAME ==> stack[at + NAME + 1..] == old(stack[at + NAME + 1..])
    ensures |fname| > NAME ==> stack[at + NAME + 1] == CharAt(fname, NAME + 1)
    ensures var key := Take(fname, NAME);
            stack[at + |key|] == NUL && forall i :: 0 <= i < |key| ==> stack[at + i] == key[i]
  {
    hide Stored;
    ghost var was, data := stack[..], fname + [NUL];
    StrCpy(stack, at, fname);
    StoredIs(was, at, data, stack[..]);
    StoreBehind(was, at, data, NAME + 1);
    if |fname| >= NAME {
      stack[at + NAME] := NUL;
    }
  }

  /**
   read_dentry_by_name. The name is first copied to 33 bytes at index at of the stack: a longer one is
   cut to 32 bytes, but only after the whole of it was copied.
   */
  method ReadDentryByName(img: Image, fname: seq<byte>, stack: array<byte>, at: nat, was: Dentry)
    returns (r: int, d: Dentry)
    requires Ok(img) && NoNul(fname) && at + NAME < stack.Length && at + |fname| < stack.Length
    modifies stack
    ensures r == 0 <==> exists i :: 0 <= i < SCANNED && NameOf(img.dentries[i]) == Take(fname, NAME)
    ensures r == 0 || r == -1
    ensures var k := FirstNamed(img, Take(fname, NAME), 0);
            d == if k < SCANNED && k <= img.dentryNum then img.dentries[k] else was
    ensures forall k :: 0 <= k < at ==> stack[k] == old(stack[k])
    ensures stack[at + NAME + 1..] == Stored(old(stack[..]), at, fname + [NUL])[at + NAME + 1..]
    ensures |fname| <= NAME ==> stack[at + NAME + 1..] == old(stack[at + NAME + 1..])
    ensures |fname| > NAME ==> stack[at + NAME + 1] == CharAt(fname, NAME + 1)
  {
    hide FirstNamed, NameLen;
    ghost var key := Take(fname, NAME);
    ghost var k := FirstNamed(img, key, 0);
    CopyName(stack, at, fname);
    assert forall k :: at <= k < at + |key| ==> stack[k] == key[k - at] != NUL by {
      assert forall i :: 0 <= i < |key| ==> stack[at + i] == key[i];
    }
    ghost var filled := stack[..];
    var scan := 0;
    while scan < SCANNED
      invariant 0 <= scan <= k && stack[..] == filled
      invariant forall i :: 0 <= i < scan ==> NameOf(img.dentries[i]) != key
    {
      var name := img.dentries[scan].name;
      var compareLength := StoredLen(name);
      var length := StrLen(stack, at, at + |key|);
      if compareLength == length {
        var same := SameBytes(stack, at, name, compareLength, key);
        if same {
          assert NameOf(img.dentries[scan]) == key;
          var ignored;
          ignored, d := ReadDentryByIndex(img, scan, was);
          return 0, d;
        }
        assert NameOf(img.dentries[scan]) == name[..compareLength];
      }
      scan := scan + 1;
    }
    return -1, was;
  }

  /** Looking up a name of 33 letters writes its terminator behind the 33 bytes of the local copy. */
  method LongNameOverflows(img: Image, stack: array<byte>, was: Dentry)
    requires Ok(img) && stack.Length == NAME + 2
    modifies stack
    ensures stack[NAME + 1] == NUL
  {
    var r, d := ReadDentryByName(img, seq(NAME + 1, _ => SP), stack, 0, was);
  }

  /**
   A lookup delivers a file of the directory if and only if its entry is one of the first 17, when the
   directory's names are all different.
   */
  lemma FoundWhenEarly(img: Image, j: nat)
    requires Ok(img) && j < img.dentryNum <= DENTRIES
    requires forall a, b :: 0 <= a < b < img.dentryNum ==> NameOf(img.dentries[a]) != NameOf(img.dentries[b])
    ensures var k := FirstNamed(img, NameOf(img.dentries[j]), 0);
            k < SCANNED && k <= img.dentryNum && img.dentries[k] == img.dentries[j] <==> j < SCANNED
  {
    hide FirstNamed, NameLen;
    var k := FirstNamed(img, NameOf(img.dentries[j]), 0);
    assert k < SCANNED ==> NameOf(img.dentries[k]) == NameOf(img.dentries[j]);
  }

  /** A directory of 18 one-letter names. */
  function EighteenNames(): (img: Image)
    ensures Ok(img) && img.dentryNum == SCANNED + 1
  {
    var entries := seq(DENTRIES, k => Dentry([(k % 64 + 65) as byte] + seq(NAME - 1, _ => NUL), FILE_KIND, 0));
    Image(SCANNED + 1, 0, entries, [], [])
  }

  /** Its last name is not found. */
  lemma EighteenthIsLost()
    ensures var img := EighteenNames(); FirstNamed(img, NameOf(img.dentries[SCANNED]), 0) == SCANNED
  {
    hide FirstNamed, NameLen;
    var img := EighteenNames();
    forall k | 0 <= k <= SCANNED ensures NameOf(img.dentries[k]) == [(k + 65) as byte] {
      NameLenIs(img.dentries[k].name, 1);
    }
    var k := FirstNamed(img, NameOf(img.dentries[SCANNED]), 0);
  }

  // ---------------------------------------------------------------- opening a file

  /** A number in memory, lowest byte first. */
  function Number(b: seq<byte>): nat
    requires |b| == 4
  {
    b[0] as nat + 256 * b[1] as nat + 65536 * b[2] as nat + 16777216 * b[3] as nat
  }

  /**
   The boot block's first 32 bytes after file_open copied the name of the entry it found over them; the
   terminator of a name of 32 bytes goes behind them.
   */
  function HeaderAfter(header: seq<byte>, name: seq<byte>): (h: seq<byte>)
    requires |header| == NAME && |name| <= NAME
    ensures |h| == NAME
    ensures forall i :: 0 <= i < NAME ==> h[i] == if i <= |name| then CharAt(name, i) else header[i]
  {
    if |name| == NAME then name else name + [NUL] + header[|name| + 1..]
  }

  ghost predicate Names(names: seq<seq<byte>>) {
    forall k :: 0 <= k < |names| ==> |names[k]| <= NAME && NoNul(names[k])
  }

  /** The header after files of these names were opened, one after the other. */
  function HeaderAfterAll(header: seq<byte>, names: seq<seq<byte>>): (h: seq<byte>)
    requires |header| == NAME && Names(names)
    ensures |h| == NAME
  {
    if names == [] then header
    else HeaderAfter(HeaderAfterAll(header, names[..|names| - 1]), names[|names| - 1])
  }

  /** Byte i of it: from the last name that is long enough to reach it, or as it was. */
  function LastWritten(header: seq<byte>, names: seq<seq<byte>>, i: nat): byte
    requires i < |header|
  {
    if names == [] then header[i]
    else if i <= |names[|names| - 1]| then CharAt(names[|names| - 1], i)
    else LastWritten(header, names[..|names| - 1], i)
  }

  lemma {:induction false} HeaderBytes(header: seq<byte>, names: seq<seq<byte>>, i: nat)
    requires |header| == NAME && Names(names) && i < NAME
    ensures HeaderAfterAll(header, names)[i] == LastWritten(header, names, i)
  {
    if names != [] { HeaderBytes(header, names[..|names| - 1], i); }
  }

  /** The inode count, bytes 4 to 7 of the header. */
  function InodesNum(header: seq<byte>): nat
    requires |header| == NAME
  {
    Number(header[4..8])
  }

  lemma NumberAtLeast(b: seq<byte>, n: nat)
    requires |b| == 4 && n < 256
    ensures n <= Number(b) <==> b[1] != NUL || b[2] != NUL || b[3] != NUL || n <= b[0] as nat
  {
  }

  /**
   Opening files overwrites the inode count that read_data checks. After any run of opens, every one of
   at most 256 inodes is readable if and only if one of bytes 5 to 7 is then not NUL, or byte 4 is at
   least the last inode; each byte is what the last name that reaches it put there.
   */
  lemma OpensKeepInodes(header: seq<byte>, names: seq<seq<byte>>, inodes: nat)
    requires |header| == NAME && Names(names) && 0 < inodes <= 256
    ensures inodes - 1 <= InodesNum(HeaderAfterAll(header, names))
       <==> || (exists i :: 5 <= i < 8 && LastWritten(header, names, i) != NUL)
            || inodes - 1 <= LastWritten(header, names, 4) as nat
  {
    hide HeaderAfterAll, LastWritten, Number;
    var h := HeaderAfterAll(header, names);
    var b := h[4..8];
    NumberAtLeast(b, inodes - 1);
    HeaderBytes(header, names, 4);
    HeaderBytes(header, names, 5);
    HeaderBytes(header, names, 6);
    HeaderBytes(header, names, 7);
    assert b[0] == h[4] && b[1] == h[5] && b[2] == h[6] && b[3] == h[7];
  }

  /**
   So the first open keeps every inode of a fresh image readable if and only if the name does not have
   four letters, or a fifth and last one smaller than the last inode.
   */
  lemma FirstOpenKeepsInodes(header: seq<byte>, name: seq<byte>)
    requires |header| == NAME && |name| <= NAME && NoNul(name) && 1 < InodesNum(header) < 256
    ensures InodesNum(header) - 1 <= InodesNum(HeaderAfter(header, name))
       <==> |name| != 4 && (|name| == 5 ==> InodesNum(header) - 1 <= name[4] as nat)
  {
    var h := HeaderAfter(header, name);
    var was, now := header[4..8], h[4..8];
    NumberAtLeast(was, 1);
    assert was[1] == was[2] == was[3] == NUL;
    NumberAtLeast(now, InodesNum(header) - 1);
    forall i | 0 <= i < 4
      ensures now[i] == if i + 4 <= |name| then CharAt(name, i + 4) else was[i]
    {
      assert now[i] == h[i + 4] && was[i] == header[i + 4];
    }
  }

  const FISH: seq<byte> := [102, 105, 115, 104]
  const FRAME0: seq<byte> := [102, 114, 97, 109, 101, 48, 46, 116, 120, 116]

  /** After "fish" is opened on an image of 64 inodes, no inode but the first can be read. */
  lemma FishHidesInodes(header: seq<byte>, img: Image, inode: nat, offset: nat, length: nat)
    requires |header| == NAME && header[4..8] == [64, 0, 0, 0]
    requires img.inodesNum == InodesNum(HeaderAfter(header, FISH)) && img.Readable(inode)
    requires 0 < inode && offset != img.Length(inode)
    ensures ReadCount(img, inode, offset, length) == -1
  {
    var h := HeaderAfter(header, FISH);
    assert h[4..8] == [0, 0, 0, 0] by {
      assert header[5] == header[4..8][1] && header[6] == header[4..8][2] && header[7] == header[4..8][3];
    }
  }

  /** But with "frame0.txt" opened before "fish", all of them can. */
  lemma FrameThenFish(header: seq<byte>)
    requires |header| == NAME
    ensures Names([FRAME0, FISH]) && 63 <= InodesNum(HeaderAfterAll(header, [FRAME0, FISH]))
  {
    var names := [FRAME0, FISH];
    assert names[..1] == [FRAME0] && [FRAME0][..0] == [];
    assert LastWritten(header, [FRAME0], 5) == FRAME0[5];
    assert LastWritten(header, names, 5) == FRAME0[5] != NUL;
    OpensKeepInodes(header, names, 64);
  }

  // ---------------------------------------------------------------- listing

  /** The four bytes of a word in memory, lowest first. */
  function WordBytes(w: nat): (s: seq<byte>)
    ensures |s| == 4
  {
    [(w % 256) as byte, (w / 256 % 256) as byte, (w / 65536 % 256) as byte, (w / 16777216 % 256) as byte]
  }

  function WordsBytes(words: seq<nat>): (s: seq<byte>)
    ensures |s| == 4 * |words|
  {
    if words == [] then [] else WordBytes(words[0]) + WordsBytes(words[1..])
  }

  predicate HasEntry(img: Image, k: nat) {
    k < DENTRIES || ENTRY_WORDS * (k - DENTRIES + 1) <= |img.words|
  }

  /** dentry[k]; behind the 63 entries of the boot block the inodes are read as entries. */
  function EntryAt(img: Image, k: nat): (d: Dentry)
    requires Ok(img) && HasEntry(img, k)
    ensures |d.name| == NAME
  {
    if k < DENTRIES then img.dentries[k]
    else
      var w := ENTRY_WORDS * (k - DENTRIES);
      Dentry(WordsBytes(img.words[w..w + 8]), img.words[w + 8], img.words[w + 9])
  }

  /** A word in memory is read back as the number it is. */
  lemma WordRoundTrip(w: nat)
    requires w < WRAP
    ensures Number(WordBytes(w)) == w
  {
  }

  /** Byte 4k + j of words in memory is byte j of word k. */
  lemma {:induction false} WordsInMemory(words: seq<nat>, k: nat, j: nat)
    requires k < |words| && j < 4
    ensures WordsBytes(words)[4 * k + j] == WordBytes(words[k])[j]
  {
    if k > 0 { WordsInMemory(words[1..], k - 1, j); }
  }

  /** Memory from base on holds these words. */
  lemma WordAt(words: seq<nat>, k: nat)
    requires k < |words| && words[k] < WRAP
    ensures |WordsBytes(words)| == 4 * |words| && Number(WordsBytes(words)[4 * k..4 * k + 4]) == words[k]
  {
    var b := WordsBytes(words)[4 * k..4 * k + 4];
    forall j | 0 <= j < 4 ensures b[j] == WordBytes(words[k])[j] {
      WordsInMemory(words, k, j);
    }
    assert b == WordBytes(words[k]);
    WordRoundTrip(words[k]);
  }

  /**
   Behind the 63 entries of the boot block an entry is 64 bytes of the memory that holds the inodes: 32 of
   the name, four of the type, four of the inode.
   */
  lemma EntryInMemory(img: Image, k: nat)
    requires Ok(img) && k >= 63 && HasEntry(img, k) && forall i :: 0 <= i < |img.words| ==> img.words[i] < WRAP
    ensures var m, base, d := WordsBytes(img.words), 64 * (k - 63), EntryAt(img, k);
            && base + 64 <= |m|
            && (forall i :: 0 <= i < 32 ==> d.name[i] == m[base + i])
            && Number(m[base + 32..base + 36]) == d.kind && Number(m[base + 36..base + 40]) == d.inode
  {
    var w := 16 * (k - 63);
    var m, d := WordsBytes(img.words), EntryAt(img, k);
    WordAt(img.words, w + 8);
    WordAt(img.words, w + 9);
    forall i | 0 <= i < 32 ensures d.name[i] == m[4 * w + i] {
      WordsInMemory(img.words, w + i / 4, i % 4);
      WordsInMemory(img.words[w..w + 8], i / 4, i % 4);
      assert img.words[w..w + 8][i / 4] == img.words[w + i / 4];
      assert 4 * (i / 4) + i % 4 == i && 4 * (w + i / 4) + i % 4 == 4 * w + i;
    }
  }

  /** The bytes strlen runs over: behind a name of 32 bytes comes the type, whose low byte may be 0. */
  function NameInMemory(d: Dentry): seq<byte>
    requires d.kind < 256
  {
    if NameLen(d.name) < |d.name| || d.kind == 0 then NameOf(d) else d.name + [d.kind as byte]
  }

  /** How much of a name a request gets: at most 32 bytes, and everything when the size is negative. */
  function Delivered(d: Dentry, n: int): (s: seq<byte>)
    requires d.kind <= 2
  {
    if n < 0 then NameInMemory(d) else Take(NameOf(d), Min(n, NAME))
  }

  /**
   What a request gets: a size that is not negative, that many bytes of the name from its first one, or
   all of a shorter name; a negative size, the name and at most one byte more.
   */
  lemma DeliveredIsPrefix(d: Dentry, n: int)
    requires d.kind <= 2 && |d.name| == NAME
    ensures n >= 0 ==> Delivered(d, n) <= NameOf(d) && |Delivered(d, n)| == if n <= |NameOf(d)| then n else |NameOf(d)|
    ensures n < 0 ==> NameOf(d) <= Delivered(d, n) && |Delivered(d, n)| <= |NameOf(d)| + 1
    ensures n < 0 && |Delivered(d, n)| > |NameOf(d)| ==> |NameOf(d)| == 32 && Delivered(d, n)[32] as nat == d.kind
  {
    hide NameLen;
  }

  /** memcpy of the first bytes of a name. */
  method PutName(buf: array<byte>, name: seq<byte>, length: nat)
    requires length <= |name| && length <= buf.Length
    modifies buf
    ensures buf[..] == name[..length] + old(buf[length..])
  {
    CopyIn(buf, 0, name[..length]);
  }

  /** How many bytes of a name directory_read copies; strlen runs on over the type behind a full name. */
  method DeliveredLen(d: Dentry, n: int) returns (length: nat)
    requires d.kind <= 2 && |d.name| == NAME && -HALF <= n < HALF
    ensures length <= |NameInMemory(d)| && NameInMemory(d)[..length] == Delivered(d, n)
  {
    hide NameLen;
    var m := n;
    if m > NAME {
      m := NAME;
    }
    var len := StoredLen(d.name);
    if len == NAME && d.kind != 0 {
      len := len + 1;
    }
    length := if Word(m) > len then len else m;
  }

  /** directory_read */
  method DirectoryRead(img: Image, fds: array<Fd>, fd: nat, buf: array?<byte>, n: int) returns (r: int)
    requires Ok(img) && fd < fds.Length && HasEntry(img, fds[fd].position) && -HALF <= n < HALF
    requires var d := EntryAt(img, fds[fd].position); buf != null && d.kind <= 2 ==> |Delivered(d, n)| <= buf.Length
    modifies fds, buf
    ensures var d := EntryAt(img, old(fds[fd].position));
            if d.kind > 2 || buf == null then
              && r == (if d.kind > 2 then 0 else -1)
              && fds[..] == old(fds[..]) && (buf != null ==> buf[..] == old(buf[..]))
            else
              && r == |Delivered(d, n)| && buf[..] == Delivered(d, n) + old(buf[r..])
              && fds[..] == old(fds[..])[fd := old(fds[fd]).(position := old(fds[fd]).position + 1)]
  {
    var d := EntryAt(img, fds[fd].position);
    if d.kind != 0 && d.kind != 1 && d.kind != 2 {
      return 0;
    }
    if buf == null {
      return -1;
    }
    hide NameInMemory, Delivered;
    var length := DeliveredLen(d, n);
    PutName(buf, NameInMemory(d), length);
    fds[fd] := fds[fd].(position := fds[fd].position + 1);
    return length;
  }

  /** An entry at which the listing stops. */
  predicate Stops(d: Dentry) { d.kind > 2 || NameLen(d.name) == 0 }

  /** A listing stops at an entry that is no clock, directory or file, and at one without a name. */
  lemma StopsAt(d: Dentry)
    requires |d.name| == NAME
    ensures Stops(d) <==> (d.kind != 0 && d.kind != 1 && d.kind != 2) || d.name[0] == NUL
  {
  }

  /** The names from entry k to entry stop, each on its line. */
  function Listing(img: Image, k: nat, stop: nat): seq<byte>
    requires Ok(img) && k <= stop && HasEntry(img, stop)
    decreases stop - k
  {
    if k == stop then [] else NameOf(EntryAt(img, k)) + [NL] + Listing(img, k + 1, stop)
  }

  /** The names of the entries from k on up to stop. */
  ghost predicate NamesFrom(img: Image, k: nat, stop: nat, lines: seq<seq<byte>>)
    requires Ok(img) && k <= stop && HasEntry(img, stop)
  {
    |lines| == stop - k && forall i :: 0 <= i < |lines| ==> lines[i] == NameOf(EntryAt(img, k + i))
  }

  lemma NamesMore(img: Image, k: nat, stop: nat, lines: seq<seq<byte>>)
    requires Ok(img) && k < stop && HasEntry(img, stop) && NamesFrom(img, k + 1, stop, lines)
    ensures NamesFrom(img, k, stop, [NameOf(EntryAt(img, k))] + lines)
  {
    hide EntryAt, NameOf;
    var all := [NameOf(EntryAt(img, k))] + lines;
    forall i | 0 <= i < |all| ensures all[i] == NameOf(EntryAt(img, k + i)) {
      if i > 0 { assert all[i] == lines[i - 1] == NameOf(EntryAt(img, k + 1 + (i - 1))); }
    }
  }

  /** A listing's lines are the names of the entries, one each and in their order, if no name holds a newline. */
  lemma {:induction false} ListingIsNames(img: Image, k: nat, stop: nat)
    requires Ok(img) && k <= stop && HasEntry(img, stop)
    requires forall i :: k <= i < stop ==> NL !in NameOf(EntryAt(img, i))
    ensures NamesFrom(img, k, stop, GrepSpec.Lines(Listing(img, k, stop)))
    decreases stop - k
  {
    hide EntryAt, NameOf, GrepSpec.Lines;
    if k == stop {
      GrepSpec.NoLines();
    } else {
      var name, rest := NameOf(EntryAt(img, k)), Listing(img, k + 1, stop);
      assert Listing(img, k, stop) == name + [NL] + rest;
      hide Listing, NamesFrom;
      ListingIsNames(img, k + 1, stop);
      FirstLine(name, rest);
      NamesMore(img, k, stop, GrepSpec.Lines(rest));
    }
  }

  lemma FirstLine(line: seq<byte>, rest: seq<byte>)
    requires NL !in line
    ensures GrepSpec.Lines(line + [NL] + rest) == [line] + GrepSpec.Lines(rest)
  {
    var text := line + [NL] + rest;
    LineLenIs(text, |line|);
    assert text[..|line|] == line && text[|line| + 1..] == rest;
  }

  /** Entry stop is the first one from k on at which a listing stops. */
  ghost predicate FirstStop(img: Image, k: nat, stop: nat)
    requires Ok(img)
  {
    && k <= stop && HasEntry(img, stop) && Stops(EntryAt(img, stop))
    && forall i :: k <= i < stop ==> !Stops(EntryAt(img, i))
  }

  lemma FullName(d: Dentry)
    requires d.kind <= 2 && |d.name| == NAME
    ensures Delivered(d, NAME) == NameOf(d) && (|NameOf(d)| == 0 <==> NameLen(d.name) == 0) && |NameOf(d)| <= NAME
  {
    hide NameLen;
  }

  /** The loop of the ls program: it ends at the first entry that reads as empty, having listed those before. */
  method Ls(img: Image, fds: array<Fd>, fd: nat, buf: array<byte>, ghost stop: nat) returns (out: seq<byte>)
    requires Ok(img) && fd < fds.Length && buf.Length == NAME + 1 && FirstStop(img, fds[fd].position, stop)
    modifies fds, buf
    ensures out == Listing(img, old(fds[fd].position), stop)
  {
    hide EntryAt, Delivered, NameOf, NameLen;
    ghost var start := fds[fd].position;
    out := [];
    while true
      invariant start <= fds[fd].position <= stop
      invariant out + Listing(img, fds[fd].position, stop) == Listing(img, start, stop)
      decreases stop - fds[fd].position
    {
      ghost var k := fds[fd].position;
      if EntryAt(img, k).kind <= 2 { FullName(EntryAt(img, k)); }
      var cnt := DirectoryRead(img, fds, fd, buf, NAME);
      if cnt == 0 {
        return;
      }
      assert buf[..cnt] == NameOf(EntryAt(img, k));
      buf[cnt] := NL;
      assert buf[..cnt + 1] == NameOf(EntryAt(img, k)) + [NL];
      ghost var before := out;
      out := out + buf[..cnt + 1];
      ConcatAssoc(before, NameOf(EntryAt(img, k)) + [NL], Listing(img, k + 1, stop));
    }
  }
}
