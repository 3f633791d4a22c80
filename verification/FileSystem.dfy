/**
 The read-only file system (filesystem.c): file contents scattered over 4096-byte blocks are read in
 pieces through per-descriptor positions. The image and its directory entries are values; the caller's
 buffer and the descriptors are updated in place.
 */
module FileSystem {
  import opened Bytes
  import opened ProcessTable

  const BLOCK: nat := 4096
  const INODE_WORDS: nat := 1024
  const MAX_BLOCKS: nat := 1023
  const NAME: nat := 32
  const WRAP: nat := 0x1_0000_0000
  const DENTRIES: nat := 63

  /** file_name is 32 bytes, padded with NULs when shorter. */
  datatype Dentry = Dentry(name: seq<byte>, kind: nat, inode: nat)

  /**
   The image after the boot block: inodes as a flat run of 32-bit words, 1024 each (the length, then
   the block numbers), and the data blocks behind them.
   */
  datatype Image = Image(dentryNum: nat, inodesNum: nat, dentries: seq<Dentry>, words: seq<nat>, blocks: seq<seq<byte>>)
  {
    function Length(inode: nat): nat
      requires INODE_WORDS * inode < |words|
    {
      words[INODE_WORDS * inode]
    }

    /** data_blocks[k]; one past the last of an inode is the first word behind it. */
    function BlockId(inode: nat, k: nat): nat
      requires k <= MAX_BLOCKS && INODE_WORDS * (inode + 1) < |words|
    {
      words[INODE_WORDS * inode + 1 + k]
    }

    /** A data block; there is nothing to read behind the image. */
    function Block(id: nat): seq<byte> {
      if id < |blocks| then blocks[id] else []
    }

    /** The inode is there, its file fits, and every block the file needs is a full block. */
    ghost predicate Readable(inode: nat) {
      && INODE_WORDS * (inode + 1) < |words|
      && Length(inode) <= MAX_BLOCKS * BLOCK
      && forall k :: 0 <= k < MAX_BLOCKS && BLOCK * k < Length(inode) ==> |Block(BlockId(inode, k))| == BLOCK
    }

    /** Byte n of the file. */
    function ByteAt(inode: nat, n: nat): byte
      requires Readable(inode) && n < Length(inode)
    {
      Block(BlockId(inode, n / BLOCK))[n % BLOCK]
    }

    /** The file as one piece. */
    function File(inode: nat): (f: seq<byte>)
      requires Readable(inode)
      ensures |f| == Length(inode)
      ensures forall n :: 0 <= n < |f| ==> f[n] == ByteAt(inode, n)
    {
      seq(Length(inode), n requires 0 <= n < Length(inode) => ByteAt(inode, n))
    }
  }

  /** memcpy of src to offset to of the buffer. */
  method CopyIn(buf: array<byte>, to: nat, src: seq<byte>)
    requires to + |src| <= buf.Length
    modifies buf
    ensures forall k :: 0 <= k < buf.Length ==>
      buf[k] == if to <= k < to + |src| then src[k - to] else old(buf[k])
  {
    var i := 0;
    while i < |src|
      invariant 0 <= i <= |src|
      invariant forall k :: 0 <= k < buf.Length ==>
        buf[k] == if to <= k < to + i then src[k - to] else old(buf[k])
    {
      buf[to + i] := src[i];
      i := i + 1;
    }
  }

  /** Bytes j to j + m of block k of a file are file bytes BLOCK * k + j on. */
  lemma BlockBytes(img: Image, inode: nat, k: nat, j: nat, m: nat)
    requires img.Readable(inode) && k <= MAX_BLOCKS && j + m <= BLOCK && BLOCK * k + j + m <= img.Length(inode)
    requires j == 0 || BLOCK * k + j < img.Length(inode)
    ensures var b := img.Block(img.BlockId(inode, k));
            j + m <= |b| && b[j..j + m] == img.File(inode)[BLOCK * k + j..BLOCK * k + j + m]
  {
    var b, f := img.Block(img.BlockId(inode, k)), img.File(inode)[BLOCK * k + j..BLOCK * k + j + m];
    assert m > 0 || j > 0 ==> k < MAX_BLOCKS && |b| == BLOCK;
    forall n | 0 <= n < m ensures b[j..j + m][n] == f[n] {
      assert f[n] == img.ByteAt(inode, BLOCK * k + j + n);
      assert (BLOCK * k + (j + n)) / BLOCK == k && (BLOCK * k + (j + n)) % BLOCK == j + n;
    }
  }

  /** One block's share of a read: m bytes of block k from byte j on. */
  method CopyBlock(img: Image, inode: nat, k: nat, j: nat, m: nat, buf: array<byte>, to: nat, ghost f: seq<byte>)
    requires img.Readable(inode) && k <= MAX_BLOCKS && j + m <= BLOCK && BLOCK * k + j + m <= img.Length(inode)
    requires j == 0 || BLOCK * k + j < img.Length(inode)
    requires to + m <= buf.Length && f == img.File(inode)
    modifies buf
    ensures forall n :: 0 <= n < buf.Length ==>
      buf[n] == if to <= n < to + m then f[BLOCK * k + j + n - to] else old(buf[n])
  {
    BlockBytes(img, inode, k, j, m);
    CopyIn(buf, to, img.Block(img.BlockId(inode, k))[j..j + m]);
  }

  /** The first k data blocks of a file, one after the other. */
  function Blocks(img: Image, inode: nat, k: nat): seq<byte>
    requires k <= MAX_BLOCKS && INODE_WORDS * (inode + 1) < |img.words|
  {
    if k == 0 then [] else Blocks(img, inode, k - 1) + img.Block(img.BlockId(inode, k - 1))
  }

  lemma {:induction false} BlocksAre(img: Image, inode: nat, k: nat)
    requires img.Readable(inode) && k <= MAX_BLOCKS && (k > 0 ==> BLOCK * (k - 1) < img.Length(inode))
    ensures |Blocks(img, inode, k)| == BLOCK * k
    ensures forall n :: 0 <= n < BLOCK * k && n < img.Length(inode) ==> Blocks(img, inode, k)[n] == img.ByteAt(inode, n)
  {
    if k > 0 {
      BlocksAre(img, inode, k - 1);
      var front, b := Blocks(img, inode, k - 1), img.Block(img.BlockId(inode, k - 1));
      forall n | BLOCK * (k - 1) <= n < BLOCK * k && n < img.Length(inode)
        ensures (front + b)[n] == img.ByteAt(inode, n)
      {
        var j := n - BLOCK * (k - 1);
        assert (BLOCK * (k - 1) + j) / BLOCK == k - 1 && (BLOCK * (k - 1) + j) % BLOCK == j;
      }
    }
  }

  /** A file is its data blocks, one after the other, cut to its length. */
  lemma FileIsBlocks(img: Image, inode: nat)
    requires img.Readable(inode)
    ensures var k := (img.Length(inode) + BLOCK - 1) / BLOCK;
            && k <= MAX_BLOCKS && img.Length(inode) <= |Blocks(img, inode, k)|
            && img.File(inode) == Blocks(img, inode, k)[..img.Length(inode)]
  {
    BlocksAre(img, inode, (img.Length(inode) + BLOCK - 1) / BLOCK);
  }

  /**
   A file in an image, by the layout alone: word 1024 * inode is its length, the words behind it number its
   blocks, and each block holds its 4096 bytes of the file.
   */
  ghost predicate Contains(img: Image, inode: nat, f: seq<byte>) {
    && 1024 * inode + 1024 < |img.words| && img.words[1024 * inode] == |f| <= 1023 * 4096
    && forall k :: 0 <= k && 4096 * k < |f| ==> HoldsBlock(img, img.words[1024 * inode + 1 + k], f, 4096 * k)
  }

  /** Data block id holds the file's bytes from at on, as far as they go. */
  ghost predicate HoldsBlock(img: Image, id: nat, f: seq<byte>, at: nat) {
    && id < |img.blocks| && |img.blocks[id]| == 4096
    && forall j :: 0 <= j < 4096 && at + j < |f| ==> img.blocks[id][j] == f[at + j]
  }

  /** An image that contains a file reads back as that file, wherever its blocks are. */
  lemma ContainedReadsBack(img: Image, inode: nat, f: seq<byte>)
    requires Contains(img, inode, f)
    ensures img.Readable(inode) && img.File(inode) == f
  {
    forall k | 0 <= k < MAX_BLOCKS && BLOCK * k < img.Length(inode)
      ensures |img.Block(img.BlockId(inode, k))| == BLOCK
    {
      assert HoldsBlock(img, img.words[1024 * inode + 1 + k], f, 4096 * k);
    }
    forall n | 0 <= n < |f| ensures img.File(inode)[n] == f[n] {
      var k, j := n / 4096, n % 4096;
      assert HoldsBlock(img, img.words[1024 * inode + 1 + k], f, 4096 * k);
      assert img.File(inode)[n] == img.ByteAt(inode, n);
    }
  }

  /** The 32-bit word of a signed number. */
  function Word(n: int): nat { n % WRAP }

  /** The place in the block plus the length wraps around 32 bits as well: the first copy gets the whole length. */
  predicate Floods(img: Image, inode: nat, offset: nat, length: nat)
    requires INODE_WORDS * inode < |img.words|
  {
    inode <= img.inodesNum && offset < img.Length(inode) && offset % BLOCK + length >= WRAP
  }

  /** How many bytes read_data sets out to copy, or what it reports: lengths and offsets are unsigned 32-bit numbers. */
  function ReadCount(img: Image, inode: nat, offset: nat, length: nat): int
    requires img.Readable(inode)
  {
    if offset == img.Length(inode) then 0
    else if inode > img.inodesNum || offset > img.Length(inode) then -1
    else if offset + length < WRAP then Min(length, img.Length(inode) - offset)
    else if offset % BLOCK + length < WRAP then BLOCK - offset % BLOCK
    else length
  }

  /** What it delivers: when offset plus length wraps around, the rest of one block. */
  function ReadBytes(img: Image, inode: nat, offset: nat, length: nat): (s: seq<byte>)
    requires img.Readable(inode) && !Floods(img, inode, offset, length)
    ensures var r := ReadCount(img, inode, offset, length); |s| == if r < 0 then 0 else r
  {
    var r := ReadCount(img, inode, offset, length);
    if r <= 0 then []
    else if offset + length < WRAP then img.File(inode)[offset..offset + r]
    else
      assert BLOCK * (offset / BLOCK) < img.Length(inode);
      img.Block(img.BlockId(inode, offset / BLOCK))[offset % BLOCK..]
  }

  /** When read_data is right: the length does not make it wrap, or only past a file that ends with the block. */
  predicate ReadsRight(img: Image, inode: nat, offset: nat, length: nat)
    requires INODE_WORDS * inode < |img.words|
  {
    || offset + length < WRAP
    || (offset % BLOCK + length < WRAP && img.Length(inode) - offset == BLOCK - offset % BLOCK)
  }

  /**
   read_data delivers what the file has left, or as much of it as was asked for, if and only if offset
   plus length does not wrap around 32 bits, or the file ends with the block and its place in the block
   plus length does not wrap either. Otherwise it copies the rest of the block, or the whole length.
   */
  lemma ReadExactly(img: Image, inode: nat, offset: nat, length: nat)
    requires img.Readable(inode) && inode <= img.inodesNum && offset < img.Length(inode) && length < WRAP
    ensures var left, rest := img.Length(inode) - offset, BLOCK - offset % BLOCK;
            var count := ReadCount(img, inode, offset, length);
            && (count == Min(length, left) <==> ReadsRight(img, inode, offset, length))
            && (Floods(img, inode, offset, length) ==> count == length > WRAP - BLOCK)
            && (!ReadsRight(img, inode, offset, length) ==> count > left || count == rest < left)
    ensures ReadsRight(img, inode, offset, length) ==>
      && !Floods(img, inode, offset, length)
      && ReadBytes(img, inode, offset, length)
         == img.File(inode)[offset..offset + Min(length, img.Length(inode) - offset)]
  {
    var k, j, left := offset / BLOCK, offset % BLOCK, img.Length(inode) - offset;
    if offset + length >= WRAP && j + length < WRAP && left == BLOCK - j {
      BlockBytes(img, inode, k, j, left);
      var b := img.Block(img.BlockId(inode, k));
      assert j + left == |b| && b[j..j + left] == b[j..];
    }
  }

  /** read_data into the buffer from index at on, unless that would copy nearly 2 to the 32 bytes at once. */
  method ReadData(img: Image, inode: nat, offset: nat, buf: array<byte>, at: nat, length: nat) returns (r: int)
    requires img.Readable(inode) && offset < WRAP && length < WRAP && !Floods(img, inode, offset, length)
    requires at + |ReadBytes(img, inode, offset, length)| <= buf.Length
    modifies buf
    ensures r == ReadCount(img, inode, offset, length)
    ensures var s := ReadBytes(img, inode, offset, length);
            buf[..] == old(buf[..at]) + s + old(buf[at + |s|..])
  {
    hide ReadBytes;
    BytesRead(img, inode, offset, length);
    if offset == img.Length(inode) {
      return 0;
    }
    if inode > img.inodesNum || offset > img.Length(inode) {
      return -1;
    }
    var len := length;
    if (length + offset) % WRAP > img.Length(inode) {
      len := img.Length(inode) - offset;
    }
    ghost var was := buf[..];
    r := CopyBlocks(img, inode, offset, buf, at, len, ReadBytes(img, inode, offset, length));
    StoredIs(was, at, ReadBytes(img, inode, offset, length), buf[..]);
  }

  /** The bytes read in the three cases. */
  lemma BytesRead(img: Image, inode: nat, offset: nat, length: nat)
    requires img.Readable(inode) && !Floods(img, inode, offset, length)
    ensures var r, s := ReadCount(img, inode, offset, length), ReadBytes(img, inode, offset, length);
            && (r <= 0 ==> s == [])
            && (r > 0 && offset + length < WRAP ==> s == img.File(inode)[offset..offset + r])
            && (r > 0 && offset + length >= WRAP ==>
                  BLOCK * (offset / BLOCK) < img.Length(inode)
                  && s == img.Block(img.BlockId(inode, offset / BLOCK))[offset % BLOCK..])
  {
  }

  /** The first block's share of a read. */
  lemma FirstPart(img: Image, inode: nat, offset: nat, len: nat, n: nat, s: seq<byte>)
    requires img.Readable(inode) && offset < img.Length(inode) && offset % BLOCK + len < WRAP
    requires n == if BLOCK > offset % BLOCK + len then len else BLOCK - offset % BLOCK
    requires if offset + len < WRAP then offset + len <= img.Length(inode) && s == img.File(inode)[offset..offset + len]
             else s == img.Block(img.BlockId(inode, offset / BLOCK))[offset % BLOCK..]
    ensures offset / BLOCK < MAX_BLOCKS && INODE_WORDS * (inode + 1) < |img.words|
    ensures var b, j := img.Block(img.BlockId(inode, offset / BLOCK)), offset % BLOCK;
            && img.Length(inode) <= MAX_BLOCKS * BLOCK
            && n <= |s| && j + n <= |b| && b[j..j + n] == s[..n] && (offset + len >= WRAP ==> n == |s|)
  {
    var k, j := offset / BLOCK, offset % BLOCK;
    assert BLOCK * k < img.Length(inode) && |img.Block(img.BlockId(inode, k))| == BLOCK;
    if offset + len < WRAP { BlockBytes(img, inode, k, j, n); }
  }

  /** The copying part of read_data: the first block from inside, then whole blocks, then the rest. */
  method CopyBlocks(img: Image, inode: nat, offset: nat, buf: array<byte>, at: nat, len: nat, ghost s: seq<byte>)
    returns (done: nat)
    requires img.Readable(inode) && offset < img.Length(inode) && len < WRAP && offset % BLOCK + len < WRAP
    requires if offset + len < WRAP then offset + len <= img.Length(inode) && s == img.File(inode)[offset..offset + len]
             else s == img.Block(img.BlockId(inode, offset / BLOCK))[offset % BLOCK..]
    requires at + |s| <= buf.Length
    modifies buf
    ensures done == |s|
    ensures forall k :: 0 <= k < buf.Length ==>
      buf[k] == if at <= k < at + |s| then s[k - at] else old(buf[k])
  {
    hide Image.Readable, Image.File;
    var starting := offset / BLOCK;
    var ending := (offset + len) % WRAP / BLOCK;
    var first := offset - BLOCK * starting;
    var n := if BLOCK > (len + first) % WRAP then len else BLOCK - first;
    FirstPart(img, inode, offset, len, n, s);
    CopyIn(buf, at, img.Block(img.BlockId(inode, starting))[first..first + n]);
    done := n;
    if starting + 1 <= ending {
      done := CopyRest(img, inode, starting + 1, ending, offset, len, buf, at, n);
    }
  }

  /** The loop over the blocks behind the first one, when done bytes are copied already. */
  method CopyRest(img: Image, inode: nat, from: nat, ending: nat, offset: nat, len: nat, buf: array<byte>, at: nat,
                  before: nat)
    returns (done: nat)
    requires img.Readable(inode) && offset < img.Length(inode) && offset + len <= img.Length(inode)
    requires ending <= MAX_BLOCKS && BLOCK * ending <= offset + len < BLOCK * (ending + 1)
    requires from <= ending + 1 && before == if from <= ending then BLOCK * from - offset else len
    requires at + len <= buf.Length && before <= len
    modifies buf
    ensures done == len
    ensures forall k :: 0 <= k < buf.Length ==>
      buf[k] == if at + before <= k < at + len then img.File(inode)[offset + k - at] else old(buf[k])
  {
    hide Image.Readable, Image.File, Image.Length;
    ghost var f := img.File(inode);
    done := before;
    var i := from;
    while i <= ending
      invariant from <= i <= ending + 1 && before <= done <= len
      invariant done == if i <= ending then BLOCK * i - offset else len
      invariant forall k :: 0 <= k < buf.Length ==>
        buf[k] == if at + before <= k < at + done then f[offset + k - at] else old(buf[k])
    {
      var n := if BLOCK > len - done then len - done else BLOCK;
      CopyBlock(img, inode, i, 0, n, buf, at + done, f);
      done := done + n;
      i := i + 1;
    }
  }

  // ---------------------------------------------------------------- descriptors

  const FILE_KIND: nat := 2
  const DIRECTORY_KIND: nat := 1
  const RTC_KIND: nat := 0
  const HALF: int := 0x8000_0000

  /** file_read: the size is a signed 32-bit number, and read_data takes it as an unsigned one. */
  method FileRead(img: Image, fds: array<Fd>, fd: nat, buf: array<byte>, n: int) returns (r: int)
    requires fd < fds.Length && 0 <= fds[fd].inode && img.Readable(fds[fd].inode)
    requires -HALF <= n < HALF && fds[fd].position < WRAP && !Floods(img, fds[fd].inode, fds[fd].position, Word(n))
    requires |ReadBytes(img, fds[fd].inode, fds[fd].position, Word(n))| <= buf.Length
    modifies fds, buf
    ensures var d := old(fds[fd]); var s := ReadBytes(img, d.inode, d.position, Word(n));
            && r == ReadCount(img, d.inode, d.position, Word(n))
            && fds[..] == old(fds[..])[fd := d.(position := Word(d.position + r))]
            && buf[..] == s + old(buf[|s|..])
  {
    hide ReadBytes, ReadCount;
    r := ReadData(img, fds[fd].inode, fds[fd].position, buf, 0, Word(n));
    fds[fd] := fds[fd].(position := Word(fds[fd].position + r));
  }

  /** A descriptor open on a file, somewhere in it. */
  ghost predicate Reading(img: Image, d: Fd) {
    && d.kind == FILE_KIND && 0 <= d.inode <= img.inodesNum && img.Readable(d.inode)
    && d.position <= img.Length(d.inode)
  }

  /** Sizes that are not negative, on such a descriptor: the plain meaning of a read. */
  lemma PlainRead(img: Image, d: Fd, n: nat)
    requires Reading(img, d) && n < HALF
    ensures d.position < WRAP && !Floods(img, d.inode, d.position, Word(n))
    ensures var r := Min(n, img.Length(d.inode) - d.position);
            && ReadCount(img, d.inode, d.position, Word(n)) == r && Word(d.position + r) == d.position + r
            && ReadBytes(img, d.inode, d.position, Word(n)) == img.File(d.inode)[d.position..d.position + r]
  {
    BytesRead(img, d.inode, d.position, n);
    if ReadCount(img, d.inode, d.position, n) == 0 {
      assert img.File(d.inode)[d.position..d.position] == [];
    }
  }

  // ---------------------------------------------------------------- sequences of reads

  /** What a read of n bytes on descriptor fd returns. */
  function Got(img: Image, fds: seq<Fd>, fd: nat, n: nat): seq<byte>
    requires fd < |fds| && Reading(img, fds[fd])
  {
    var d := fds[fd];
    img.File(d.inode)[d.position..d.position + Min(n, img.Length(d.inode) - d.position)]
  }

  function Advanced(img: Image, fds: seq<Fd>, fd: nat, n: nat): (r: seq<Fd>)
    requires fd < |fds| && Reading(img, fds[fd])
    ensures |r| == |fds| && Reading(img, r[fd])
  {
    fds[fd := fds[fd].(position := fds[fd].position + |Got(img, fds, fd, n)|)]
  }

  /** Reads in any order, each a descriptor and a size, on descriptors open on files; others may be anything. */
  ghost predicate Legal(img: Image, fds: seq<Fd>, ops: seq<(nat, nat)>) {
    forall i :: 0 <= i < |ops| ==> ops[i].0 < |fds| && Reading(img, fds[ops[i].0])
  }

  lemma LegalAfter(img: Image, fds: seq<Fd>, ops: seq<(nat, nat)>)
    requires ops != [] && Legal(img, fds, ops)
    ensures ops[0].0 < |fds| && Reading(img, fds[ops[0].0])
    ensures Legal(img, Advanced(img, fds, ops[0].0, ops[0].1), ops[1..])
  {
    hide Reading, Got;
    var next := Advanced(img, fds, ops[0].0, ops[0].1);
    forall i | 0 <= i < |ops[1..]| ensures ops[1..][i].0 < |next| && Reading(img, next[ops[1..][i].0]) {
      assert ops[1..][i] == ops[i + 1];
    }
  }

  function After(img: Image, fds: seq<Fd>, ops: seq<(nat, nat)>): (r: seq<Fd>)
    requires Legal(img, fds, ops)
    ensures |r| == |fds|
    decreases |ops|
  {
    if ops == [] then fds
    else
      LegalAfter(img, fds, ops);
      After(img, Advanced(img, fds, ops[0].0, ops[0].1), ops[1..])
  }

  /** Everything the reads on descriptor fd returned, in order. */
  function Collected(img: Image, fds: seq<Fd>, ops: seq<(nat, nat)>, fd: nat): seq<byte>
    requires Legal(img, fds, ops) && fd < |fds|
    decreases |ops|
  {
    if ops == [] then []
    else
      LegalAfter(img, fds, ops);
      (if ops[0].0 == fd then Got(img, fds, fd, ops[0].1) else [])
      + Collected(img, Advanced(img, fds, ops[0].0, ops[0].1), ops[1..], fd)
  }

  /**
   Main result for reading: over any interleaving of reads, what one descriptor returned is the
   stretch of its file from its old position to its new one, and nothing but its position changed.
   The other descriptors need not be files.
   */
  lemma {:induction false} ReadsConcatenate(img: Image, fds: seq<Fd>, ops: seq<(nat, nat)>, fd: nat)
    requires Legal(img, fds, ops) && fd < |fds| && Reading(img, fds[fd])
    ensures var d, d' := fds[fd], After(img, fds, ops)[fd];
            && d.position <= d'.position <= img.Length(d.inode)
            && d' == d.(position := d'.position)
            && Collected(img, fds, ops, fd) == img.File(d.inode)[d.position..d'.position]
    decreases |ops|
  {
    var f, p := img.File(fds[fd].inode), fds[fd].position;
    if ops == [] {
      Stretches(f, p, p, p);
    } else {
      hide Image.File, Image.Readable, Legal;
      CollectedStep(img, fds, ops, fd);
      PlayStep(img, fds, ops, ops[0].0);
      var next := Advanced(img, fds, ops[0].0, ops[0].1);
      ReadsConcatenate(img, next, ops[1..], fd);
      hide After, Collected;
      Stretches(f, p, next[fd].position, After(img, fds, ops)[fd].position);
    }
  }

  /** A descriptor that is not read, whatever it is open on, stays as it is. */
  lemma {:induction false} UnreadStays(img: Image, fds: seq<Fd>, ops: seq<(nat, nat)>, fd: nat)
    requires Legal(img, fds, ops) && fd < |fds| && forall i :: 0 <= i < |ops| ==> ops[i].0 != fd
    ensures After(img, fds, ops)[fd] == fds[fd] && Collected(img, fds, ops, fd) == []
    decreases |ops|
  {
    hide Reading, Legal;
    if ops != [] {
      CollectedStep(img, fds, ops, fd);
      PlayStep(img, fds, ops, ops[0].0);
      assert forall i :: 0 <= i < |ops| - 1 ==> ops[1..][i] == ops[i + 1];
      UnreadStays(img, Advanced(img, fds, ops[0].0, ops[0].1), ops[1..], fd);
    }
  }

  /** So a file that was just opened, beside whatever else is open, is read from its start. */
  lemma OpenedIsRead(img: Image, fds: seq<Fd>, inode: nat, ops: seq<(nat, nat)>)
    requires img.Readable(inode) && inode <= img.inodesNum && FreeFd(fds) < |fds|
    requires Legal(img, OpenedFds(fds, FILE_KIND, inode, true), ops)
    ensures var r, i := OpenedFds(fds, FILE_KIND, inode, true), FreeFd(fds);
            var p := After(img, r, ops)[i].position;
            0 <= p <= img.Length(inode) && Collected(img, r, ops, i) == img.File(inode)[..p]
  {
    hide After, Collected, Legal, FreeFd;
    ReadsConcatenate(img, OpenedFds(fds, FILE_KIND, inode, true), ops, FreeFd(fds));
  }

  lemma Stretches(f: seq<byte>, p: nat, q: nat, r: nat)
    requires p <= q <= r <= |f|
    ensures f[p..q] + f[q..r] == f[p..r] && f[p..p] == []
  {
  }

  /** A positive read returns nothing exactly at the end of the file. */
  lemma EmptyAtEnd(img: Image, fds: seq<Fd>, fd: nat, n: nat)
    requires fd < |fds| && Reading(img, fds[fd]) && n > 0
    ensures Got(img, fds, fd, n) == [] <==> fds[fd].position == img.Length(fds[fd].inode)
  {
  }

  /** Any sequence of reads on the descriptors themselves, each into a buffer that holds it. */
  method Play(img: Image, fds: array<Fd>, ops: seq<(nat, nat)>) returns (got: seq<seq<byte>>)
    requires Legal(img, fds[..], ops) && forall i :: 0 <= i < |ops| ==> ops[i].1 < HALF
    modifies fds
    ensures fds[..] == After(img, old(fds[..]), ops)
    ensures |got| == fds.Length
    ensures forall fd :: 0 <= fd < fds.Length ==> got[fd] == Collected(img, old(fds[..]), ops, fd)
  {
    hide Legal, After, Collected, Advanced, Got, Reading;
    ghost var start := fds[..];
    got := seq(fds.Length, _ => []);
    assert ops[0..] == ops;
    for i := 0 to |ops|
      invariant |got| == fds.Length && |start| == fds.Length
      invariant Legal(img, fds[..], ops[i..])
      invariant After(img, fds[..], ops[i..]) == After(img, start, ops)
      invariant forall fd :: 0 <= fd < fds.Length ==>
        got[fd] + Collected(img, fds[..], ops[i..], fd) == Collected(img, start, ops, fd)
    {
      var fd, n := ops[i].0, ops[i].1;
      ghost var was, before, rest := fds[..], got, ops[i + 1..];
      assert ops[i..][0] == ops[i] && ops[i..][1..] == rest;
      PlayStep(img, was, ops[i..], fd);
      var s := ReadFresh(img, fds, fd, n);
      forall f | 0 <= f < fds.Length
        ensures (if f == fd then before[f] + s else before[f]) + Collected(img, fds[..], rest, f)
                == Collected(img, start, ops, f)
      {
        CollectedStep(img, was, ops[i..], f);
        ConcatAssoc(before[f], if f == fd then s else [], Collected(img, fds[..], rest, f));
      }
      got := got[fd := got[fd] + s];
    }
    PlayEnd(img, fds[..]);
    assert ops[|ops|..] == [];
  }

  lemma PlayEnd(img: Image, fds: seq<Fd>)
    ensures Legal(img, fds, []) && After(img, fds, []) == fds
    ensures forall f :: 0 <= f < |fds| ==> Collected(img, fds, [], f) == []
  {
  }

  lemma PlayStep(img: Image, fds: seq<Fd>, ops: seq<(nat, nat)>, fd: nat)
    requires Legal(img, fds, ops) && ops != [] && fd == ops[0].0
    ensures fd < |fds| && Reading(img, fds[fd]) && Legal(img, Advanced(img, fds, fd, ops[0].1), ops[1..])
    ensures After(img, fds, ops) == After(img, Advanced(img, fds, fd, ops[0].1), ops[1..])
  {
    LegalAfter(img, fds, ops);
  }

  lemma CollectedStep(img: Image, fds: seq<Fd>, ops: seq<(nat, nat)>, f: nat)
    requires Legal(img, fds, ops) && ops != [] && f < |fds|
    ensures ops[0].0 < |fds| && Reading(img, fds[ops[0].0])
    ensures Legal(img, Advanced(img, fds, ops[0].0, ops[0].1), ops[1..])
    ensures Collected(img, fds, ops, f)
         == (if f == ops[0].0 then Got(img, fds, f, ops[0].1) else [])
            + Collected(img, Advanced(img, fds, ops[0].0, ops[0].1), ops[1..], f)
  {
    LegalAfter(img, fds, ops);
  }

  /** One read into a new buffer. */
  method ReadFresh(img: Image, fds: array<Fd>, fd: nat, n: nat) returns (s: seq<byte>)
    requires fd < fds.Length && Reading(img, fds[fd]) && n < HALF
    modifies fds
    ensures s == Got(img, old(fds[..]), fd, n) && fds[..] == Advanced(img, old(fds[..]), fd, n)
  {
    ghost var d := fds[fd];
    assert fds[..][fd] == d;
    PlainRead(img, d, n);
    var buf := new byte[n];
    var r := FileRead(img, fds, fd, buf, n);
    s := buf[..r];
    assert s == Got(img, old(fds[..]), fd, n);
  }

  /** The loop of the cat program: it ends, having written the rest of the file. */
  method Cat(img: Image, fds: array<Fd>, fd: nat, buf: array<byte>) returns (out: seq<byte>)
    requires fd < fds.Length && Reading(img, fds[fd]) && buf.Length == 1024
    modifies fds, buf
    ensures var d := old(fds[fd]); out == img.File(d.inode)[d.position..]
    ensures fds[..] == old(fds[..])[fd := old(fds[fd]).(position := img.Length(old(fds[fd]).inode))]
  {
    ghost var d, f, p, was := fds[fd], img.File(fds[fd].inode), fds[fd].position, fds[..];
    assert was[fd := d] == was && f[p..p] == [];
    hide *;
    out := [];
    while true
      invariant d.position <= p <= |f| && out == f[d.position..p]
      invariant fds[fd] == d.(position := p) && fds[..] == was[fd := d.(position := p)]
      decreases |f| - p
    {
      ReadingAt(img, d, p);
      PlainRead(img, d.(position := p), 1024);
      var cnt := FileRead(img, fds, fd, buf, 1024);
      if cnt == 0 {
        assert p == |f|;
        return;
      }
      assert buf[..cnt] == f[p..p + cnt];
      out := out + buf[..cnt];
      Stretches(f, d.position, p, p + cnt);
      p := p + cnt;
    }
  }

  lemma ReadingAt(img: Image, d: Fd, p: nat)
    requires Reading(img, d) && p <= img.Length(d.inode)
    ensures Reading(img, d.(position := p)) && |img.File(d.inode)| <= MAX_BLOCKS * BLOCK
  {
  }

  /**
   Size -2 at the second byte of the second block of a file of 4098 bytes: one byte is left, 4095 are
   delivered, and the next read fails, because the position is now behind the file.
   */
  method NegativeSizeReadsBeyond(img: Image, fds: array<Fd>, fd: nat, buf: array<byte>) returns (r: int, next: int)
    requires fd < fds.Length && Reading(img, fds[fd]) && img.Length(fds[fd].inode) == BLOCK + 2
    requires fds[fd].position == BLOCK + 1 && buf.Length == BLOCK - 1
    modifies fds, buf
    ensures r == BLOCK - 1 && next == -1
  {
    r := FileRead(img, fds, fd, buf, -2);
    next := FileRead(img, fds, fd, buf, 1);
  }

  /** Size -1 on a file makes the first copy run through nearly all of memory wherever no block begins. */
  lemma MinusOneFloods(img: Image, d: Fd)
    requires Reading(img, d) && d.position < img.Length(d.inode)
    ensures Floods(img, d.inode, d.position, Word(-1)) <==> d.position % BLOCK != 0
  {
  }
}
