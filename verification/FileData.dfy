/** Data blocks: a byte-addressable memory, what a page map makes of it, and the
chunks that a copy-on-write write fills. */
module FileData {
  import opened FileReplay

  type Byte = x: int | 0 <= x < 256

  /** Persistent memory outside the logs; bytes never written read as 0. */
  type Mem = map<nat, Byte>

  function Get(mem: Mem, at: nat): Byte {
    if at in mem then mem[at] else 0
  }

  /** Byte x of a run of blocks that starts at `block`. */
  function Peek(mem: Mem, block: nat, x: nat): Byte {
    Get(mem, block * BLOCK + x)
  }

  function ByteFor(bytes: seq<Byte>, at: nat, i: nat): Byte
    requires at <= i < at + |bytes|
  {
    bytes[i - at]
  }

  function Store(mem: Mem, at: nat, bytes: seq<Byte>): Mem {
    mem + map i: nat | at <= i < at + |bytes| :: ByteFor(bytes, at, i)
  }

  function Load(mem: Mem, at: nat, n: nat): (bytes: seq<Byte>)
    ensures |bytes| == n
  {
    seq<Byte>(n, i requires 0 <= i < n => Get(mem, at + i))
  }

  function Zeros(n: nat): (bytes: seq<Byte>)
    ensures |bytes| == n && forall i :: 0 <= i < n ==> bytes[i] == 0
  {
    seq<Byte>(n, i => 0)
  }

  /** Byte `off` of a file with the given page map; holes read as 0. */
  function FileByte(blocks: map<nat, nat>, mem: Mem, off: nat): Byte {
    if off / BLOCK in blocks then Get(mem, blocks[off / BLOCK] * BLOCK + off % BLOCK) else 0
  }

  /** Nothing is left behind past the end of the file. */
  ghost predicate ZeroPast(blocks: map<nat, nat>, mem: Mem, size: nat) {
    forall off: nat :: size <= off ==> FileByte(blocks, mem, off) == 0
  }

  /** Byte `off` of a file that held `blocks`, once `buf` has been written at `pos`. */
  function Overwritten(blocks: map<nat, nat>, mem: Mem, pos: nat, buf: seq<Byte>, off: nat): Byte {
    if pos <= off < pos + |buf| then buf[off - pos] else FileByte(blocks, mem, off)
  }

  /** No page of the map lies in the n blocks from `block` on. */
  ghost predicate Unused(blocks: map<nat, nat>, block: nat, n: nat) {
    forall p :: p in blocks ==> !(block <= blocks[p] < block + n)
  }

  /** Memories that agree outside n blocks. */
  ghost predicate SameBut(mem: Mem, mem0: Mem, block: nat, n: nat) {
    forall x: nat :: !(block * BLOCK <= x < (block + n) * BLOCK) ==> Get(mem, x) == Get(mem0, x)
  }

  lemma StoreAt(mem: Mem, at: nat, bytes: seq<Byte>, i: nat)
    requires i < |bytes|
    ensures Get(Store(mem, at, bytes), at + i) == bytes[i]
  {
  }

  lemma StoreInside(mem: Mem, at: nat, bytes: seq<Byte>, block: nat, n: nat)
    requires block * BLOCK <= at && at + |bytes| <= (block + n) * BLOCK
    ensures SameBut(Store(mem, at, bytes), mem, block, n)
  {
  }

  /** Writing to blocks the file does not use leaves the file alone. */
  lemma OldFileUntouched(blocks: map<nat, nat>, mem: Mem, mem0: Mem, block: nat, n: nat, off: nat)
    requires Unused(blocks, block, n) && SameBut(mem, mem0, block, n)
    ensures FileByte(blocks, mem, off) == FileByte(blocks, mem0, off)
  {
    if off / BLOCK in blocks {
      var b := blocks[off / BLOCK];
      var x := b * BLOCK + off % BLOCK;
      assert !(block <= b < block + n);
      assert !(block * BLOCK <= x < (block + n) * BLOCK);
    }
  }

  /** n blocks from `block` on hold pages `page` .. `page + n` of the file after
      `buf` has been written at `pos`. */
  ghost predicate Filled(mem: Mem, blocks: map<nat, nat>, mem0: Mem, block: nat, n: nat, page: nat, pos: nat,
                         buf: seq<Byte>) {
    forall x: nat :: x < n * BLOCK ==>
      Peek(mem, block, x) == Overwritten(blocks, mem0, pos, buf, page * BLOCK + x)
  }

  /** What the file system fills in before, and the user data after. */
  lemma ChunkFilled(mem: Mem, mem0: Mem, blocks: map<nat, nat>, block: nat, n: nat, pos: nat, buf: seq<Byte>)
    requires 0 < n && 0 < |buf|
    requires var offset := pos % BLOCK;
             && (n - 1) * BLOCK < offset + |buf| <= n * BLOCK
             && (forall x: nat :: x < offset ==> Peek(mem, block, x) == FileByte(blocks, mem0, pos / BLOCK * BLOCK + x))
             && (forall x: nat :: offset + |buf| <= x < n * BLOCK ==> Peek(mem, block, x) == FileByte(blocks, mem0,
                pos / BLOCK * BLOCK + x))
    ensures Filled(Store(mem, block * BLOCK + pos % BLOCK, buf), blocks, mem0, block, n, pos / BLOCK, pos, buf)
  {
    var offset := pos % BLOCK;
    var mem' := Store(mem, block * BLOCK + offset, buf);
    assert pos == pos / BLOCK * BLOCK + offset;
    forall x: nat | x < n * BLOCK
      ensures Peek(mem', block, x) == Overwritten(blocks, mem0, pos, buf, pos / BLOCK * BLOCK + x)
    {
      var at, off := block * BLOCK + x, pos / BLOCK * BLOCK + x;
      if offset <= x < offset + |buf| {
        assert mem'[at] == buf[x - offset];
      } else {
        assert Get(mem', at) == Get(mem, at) == Peek(mem, block, x);
      }
    }
  }

  function NthBlock(block: nat, page: nat, p: nat): nat
    requires page <= p
  {
    block + p - page
  }

  /** The pages of a chunk. */
  function ChunkMap(page: nat, n: nat, block: nat): map<nat, nat> {
    map p: nat | page <= p < page + n :: NthBlock(block, page, p)
  }

  /** A file that has received one chunk reads as if that part of the buffer had
      been written. */
  lemma ChunkReads(blocks: map<nat, nat>, mem0: Mem, mem: Mem, block: nat, n: nat, pos: nat, buf: seq<Byte>, off: nat)
    requires 0 < n && 0 < |buf| && (n - 1) * BLOCK < pos % BLOCK + |buf| <= n * BLOCK
    requires Unused(blocks, block, n) && SameBut(mem, mem0, block, n)
    requires Filled(mem, blocks, mem0, block, n, pos / BLOCK, pos, buf)
    ensures FileByte(blocks + ChunkMap(pos / BLOCK, n, block), mem, off) == Overwritten(blocks, mem0, pos, buf, off)
  {
    var page := pos / BLOCK;
    var p := off / BLOCK;
    assert pos == page * BLOCK + pos % BLOCK && off == p * BLOCK + off % BLOCK;
    var blocks' := blocks + ChunkMap(page, n, block);
    if page <= p < page + n {
      var x := (p - page) * BLOCK + off % BLOCK;
      assert x < n * BLOCK;
      assert page * BLOCK + x == off;
      assert blocks'[p] * BLOCK + off % BLOCK == block * BLOCK + x;
      assert FileByte(blocks', mem, off) == Peek(mem, block, x);
    } else {
      OldFileUntouched(blocks, mem, mem0, block, n, off);
      assert !(pos <= off < pos + |buf|);
    }
  }

  // ----- filling up the first and the last block of a chunk ----------------------------------------------

  /** The first `to` bytes of the run hold the bytes of the old file from page `page` on. */
  ghost predicate HeadOk(mem: Mem, blocks: map<nat, nat>, mem0: Mem, block: nat, page: nat, to: nat) {
    forall x: nat :: x < to ==> Peek(mem, block, x) == FileByte(blocks, mem0, page * BLOCK + x)
  }

  /** So do the bytes from `from` up to the end of n blocks. */
  ghost predicate TailOk(mem: Mem, blocks: map<nat, nat>, mem0: Mem, block: nat, n: nat, page: nat, from: nat) {
    forall x: nat :: from <= x < n * BLOCK ==> Peek(mem, block, x) == FileByte(blocks, mem0, page * BLOCK + x)
  }

  /** The bytes of page `page` from `from` on, as the old file has them. */
  ghost predicate OldBytes(bytes: seq<Byte>, blocks: map<nat, nat>, mem0: Mem, page: nat, from: nat) {
    from + |bytes| <= BLOCK && forall i :: 0 <= i < |bytes| ==> bytes[i] == FileByte(blocks, mem0,
        page * BLOCK + from + i)
  }

  lemma PageByte(page: nat, x: nat)
    requires x < BLOCK
    ensures (page * BLOCK + x) / BLOCK == page && (page * BLOCK + x) % BLOCK == x
  {
  }

  lemma OldByteAt(blocks: map<nat, nat>, mem: Mem, mem0: Mem, page: nat, x: nat)
    requires x < BLOCK && OldKept(blocks, mem, mem0)
    ensures FileByte(blocks, mem0, page * BLOCK + x) == if page in blocks then Get(mem, blocks[page] * BLOCK + x) else 0
  {
    PageByte(page, x);
    assert FileByte(blocks, mem, page * BLOCK + x) == FileByte(blocks, mem0, page * BLOCK + x);
  }

  /** What is copied from the old block, or zeroed for a hole. */
  lemma OldBytesFound(blocks: map<nat, nat>, mem: Mem, mem0: Mem, page: nat, from: nat, len: nat)
    requires from + len <= BLOCK && OldKept(blocks, mem, mem0)
    ensures page in blocks ==> OldBytes(Load(mem, blocks[page] * BLOCK + from, len), blocks, mem0, page, from)
    ensures page !in blocks ==> OldBytes(Zeros(len), blocks, mem0, page, from)
  {
    var bytes := if page in blocks then Load(mem, blocks[page] * BLOCK + from, len) else Zeros(len);
    forall i | 0 <= i < |bytes| ensures bytes[i] == FileByte(blocks, mem0, page * BLOCK + from + i) {
      OldByteAt(blocks, mem, mem0, page, from + i);
      assert page * BLOCK + (from + i) == page * BLOCK + from + i;
    }
  }

  lemma FillHead(mem: Mem, blocks: map<nat, nat>, mem0: Mem, block: nat, n: nat, page: nat, bytes: seq<Byte>)
    requires OldBytes(bytes, blocks, mem0, page, 0) && 0 < n
    ensures HeadOk(Store(mem, block * BLOCK, bytes), blocks, mem0, block, page, |bytes|)
    ensures SameBut(Store(mem, block * BLOCK, bytes), mem, block, n)
  {
    StoreInside(mem, block * BLOCK, bytes, block, n);
  }

  lemma FillTailBytes(mem: Mem, blocks: map<nat, nat>, mem0: Mem, block: nat, n: nat, page: nat, from: nat,
                      bytes: seq<Byte>)
    requires 0 < n && OldBytes(bytes, blocks, mem0, page + n - 1, from) && from + |bytes| == BLOCK
    ensures TailOk(Store(mem, (block + n - 1) * BLOCK + from, bytes), blocks, mem0, block, n, page,
            (n - 1) * BLOCK + from)
  {
    hide Store, Get, FileByte;
    var at := (block + n - 1) * BLOCK + from;
    var mem' := Store(mem, at, bytes);
    forall x: nat | (n - 1) * BLOCK + from <= x < n * BLOCK
      ensures Peek(mem', block, x) == FileByte(blocks, mem0, page * BLOCK + x)
    {
      var i := x - (n - 1) * BLOCK - from;
      assert block * BLOCK + x == at + i;
      StoreAt(mem, at, bytes, i);
      assert (page + n - 1) * BLOCK + from + i == page * BLOCK + x;
    }
  }

  lemma FillTail(mem: Mem, blocks: map<nat, nat>, mem0: Mem, block: nat, n: nat, page: nat, from: nat,
                 bytes: seq<Byte>, to: nat)
    requires 0 < n && OldBytes(bytes, blocks, mem0, page + n - 1, from) && from + |bytes| == BLOCK
    requires HeadOk(mem, blocks, mem0, block, page, to) && to <= (n - 1) * BLOCK + from
    ensures var mem' := Store(mem, (block + n - 1) * BLOCK + from, bytes);
            && TailOk(mem', blocks, mem0, block, n, page, (n - 1) * BLOCK + from)
            && HeadOk(mem', blocks, mem0, block, page, to)
            && SameBut(mem', mem, block, n)
  {
    var at := (block + n - 1) * BLOCK + from;
    var mem' := Store(mem, at, bytes);
    StoreInside(mem, at, bytes, block, n);
    FillTailBytes(mem, blocks, mem0, block, n, page, from, bytes);
    forall x: nat | x < to ensures Peek(mem', block, x) == FileByte(blocks, mem0, page * BLOCK + x) {
      assert Peek(mem', block, x) == Peek(mem, block, x);
    }
  }

  // ----- a write of several chunks -----------------------------------------------------------------------

  /** The file with page map `cur` reads as the old one with `data` written at `pos`. */
  ghost predicate Content(cur: map<nat, nat>, mem: Mem, blocks0: map<nat, nat>, mem0: Mem, pos: nat, data: seq<Byte>) {
    forall off: nat :: FileByte(cur, mem, off) == Overwritten(blocks0, mem0, pos, data, off)
  }

  /** The old file still reads as it did. */
  ghost predicate OldKept(blocks0: map<nat, nat>, mem: Mem, mem0: Mem) {
    forall off: nat :: FileByte(blocks0, mem, off) == FileByte(blocks0, mem0, off)
  }

  lemma OldStaysKept(blocks0: map<nat, nat>, mem: Mem, mem': Mem, mem0: Mem, block: nat, n: nat)
    requires OldKept(blocks0, mem, mem0) && Unused(blocks0, block, n) && SameBut(mem', mem, block, n)
    ensures OldKept(blocks0, mem', mem0)
  {
    forall off: nat ensures FileByte(blocks0, mem', off) == FileByte(blocks0, mem0, off) {
      OldFileUntouched(blocks0, mem', mem, block, n, off);
    }
  }

  /** What was filled up from the old file is what the new one already shows there. */
  lemma FilledFromCurrent(cur: map<nat, nat>, mem: Mem, mem': Mem, blocks0: map<nat, nat>, mem0: Mem, pos0: nat,
                          data: seq<Byte>,
                          block: nat, n: nat, chunk: seq<Byte>)
    requires Content(cur, mem, blocks0, mem0, pos0, data) && OldKept(blocks0, mem, mem0)
    requires data == [] || (pos0 + |data|) % BLOCK == 0
    requires Filled(mem', blocks0, mem, block, n, (pos0 + |data|) / BLOCK, pos0 + |data|, chunk)
    ensures Filled(mem', cur, mem, block, n, (pos0 + |data|) / BLOCK, pos0 + |data|, chunk)
  {
    var pos := pos0 + |data|;
    var page := pos / BLOCK;
    forall x: nat | x < n * BLOCK ensures Peek(mem', block, x) == Overwritten(cur, mem, pos, chunk, page * BLOCK + x) {
      var off := page * BLOCK + x;
      assert FileByte(cur, mem, off) == Overwritten(blocks0, mem0, pos0, data, off);
      assert FileByte(blocks0, mem, off) == FileByte(blocks0, mem0, off);
    }
  }

  /** One more chunk, filled up from the old file, extends what has been written. */
  lemma ChunkContent(cur: map<nat, nat>, mem: Mem, mem': Mem, blocks0: map<nat, nat>, mem0: Mem, pos0: nat,
                     data: seq<Byte>,
                     block: nat, n: nat, chunk: seq<Byte>)
    requires Content(cur, mem, blocks0, mem0, pos0, data) && OldKept(blocks0, mem, mem0)
    requires Unused(cur, block, n) && SameBut(mem', mem, block, n)
    requires var pos := pos0 + |data|;
             && 0 < n && 0 < |chunk| && (n - 1) * BLOCK < pos % BLOCK + |chunk| <= n * BLOCK
             && (data == [] || pos % BLOCK == 0)
             && Filled(mem', blocks0, mem, block, n, pos / BLOCK, pos, chunk)
    ensures Content(cur + ChunkMap((pos0 + |data|) / BLOCK, n, block), mem', blocks0, mem0, pos0, data + chunk)
  {
    var pos := pos0 + |data|;
    var cur' := cur + ChunkMap(pos / BLOCK, n, block);
    FilledFromCurrent(cur, mem, mem', blocks0, mem0, pos0, data, block, n, chunk);
    forall off: nat ensures FileByte(cur', mem', off) == Overwritten(blocks0, mem0, pos0, data + chunk, off) {
      ChunkReads(cur, mem, mem', block, n, pos, chunk, off);
      assert FileByte(cur, mem, off) == Overwritten(blocks0, mem0, pos0, data, off);
    }
  }

  lemma SameButTrans(a: Mem, b: Mem, c: Mem, block: nat, n: nat)
    requires SameBut(b, a, block, n) && SameBut(c, b, block, n)
    ensures SameBut(c, a, block, n)
  {
  }

  lemma FillNothing(mem: Mem, blocks: map<nat, nat>, mem0: Mem, block: nat, n: nat, page: nat, from: nat)
    ensures SameBut(mem, mem, block, n) && HeadOk(mem, blocks, mem0, block, page, 0)
    ensures from == n * BLOCK ==> TailOk(mem, blocks, mem0, block, n, page, from)
  {
  }

  lemma SelfKept(blocks: map<nat, nat>, mem: Mem)
    ensures OldKept(blocks, mem, mem)
  {
  }

  /** The user data between what was filled up. */
  lemma UserBytes(mem: Mem, mem0: Mem, blocks: map<nat, nat>, block: nat, n: nat, pos: nat, chunk: seq<Byte>)
    requires 0 < |chunk| && (n - 1) * BLOCK < pos % BLOCK + |chunk| <= n * BLOCK && SameBut(mem, mem0, block, n)
    requires HeadOk(mem, blocks, mem0, block, pos / BLOCK, pos % BLOCK)
    requires TailOk(mem, blocks, mem0, block, n, pos / BLOCK, pos % BLOCK + |chunk|)
    ensures var mem' := Store(mem, block * BLOCK + pos % BLOCK, chunk);
            Filled(mem', blocks, mem0, block, n, pos / BLOCK, pos, chunk) && SameBut(mem', mem0, block, n)
  {
    ChunkFilled(mem, mem0, blocks, block, n, pos, chunk);
    StoreInside(mem, block * BLOCK + pos % BLOCK, chunk, block, n);
    SameButTrans(mem0, mem, Store(mem, block * BLOCK + pos % BLOCK, chunk), block, n);
  }

  /** What has been written so far stays while the next chunk is being filled. */
  lemma ContentStays(cur: map<nat, nat>, mem: Mem, mem': Mem, blocks0: map<nat, nat>, mem0: Mem, pos0: nat,
                     data: seq<Byte>, block: nat, n: nat)
    requires Content(cur, mem, blocks0, mem0, pos0, data) && Unused(cur, block, n) && SameBut(mem', mem, block, n)
    ensures Content(cur, mem', blocks0, mem0, pos0, data)
  {
    forall off: nat ensures FileByte(cur, mem', off) == Overwritten(blocks0, mem0, pos0, data, off) {
      OldFileUntouched(cur, mem', mem, block, n, off);
    }
  }

  // ----- how many blocks, how many bytes -------------------------------------------------------------------

  /** Blocks that `count` bytes from `pos` on touch. */
  function BlocksFor(pos: nat, count: nat): nat
    requires 0 < count
  {
    (count + pos % BLOCK - 1) / BLOCK + 1
  }

  /** It is the least number of blocks, from the block of `pos` on, that holds the bytes. */
  lemma BlocksForIsLeast(pos: nat, count: nat, n: nat)
    requires 0 < count
    ensures (pos / BLOCK + n) * BLOCK >= pos + count <==> n >= BlocksFor(pos, count)
  {
    var r := pos % BLOCK;
    var m := count + r - 1;
    assert pos == BLOCK * (pos / BLOCK) + r;
    assert m == BLOCK * (m / BLOCK) + m % BLOCK;
    assert (pos / BLOCK + n) * BLOCK == pos / BLOCK * BLOCK + n * BLOCK;
  }

  function Min(a: nat, b: nat): nat {
    if a < b then a else b
  }

  function Max(a: nat, b: nat): nat {
    if a < b then b else a
  }

  /** With n of the blocks it asked for, a write gets exactly n blocks further, or
      it is done. */
  lemma ChunkSize(pos: nat, count: nat, n: nat)
    requires 0 < count && 0 < n <= BlocksFor(pos, count)
    ensures var bytes := Min(n * BLOCK - pos % BLOCK, count);
            && 0 < bytes && (n - 1) * BLOCK < pos % BLOCK + bytes <= n * BLOCK
            && BlocksFor(pos, bytes) == n
            && (bytes < count ==>
                  (pos + bytes) % BLOCK == 0 && BlocksFor(pos + bytes, count - bytes) == BlocksFor(pos, count) - n)
            && (bytes == count ==> n == BlocksFor(pos, count))
  {
    var offset := pos % BLOCK;
    var bytes := Min(n * BLOCK - offset, count);
    if bytes < count {
      assert pos + bytes == (pos / BLOCK + n) * BLOCK;
      assert (pos + bytes) % BLOCK == 0;
    }
  }

  lemma BlockIsBig(pos: nat, n: nat)
    requires 0 < n
    ensures pos % BLOCK < n * BLOCK
  {
  }

  /** Where the last byte of a write lies. */
  lemma LastBlock(pos: nat, count: nat)
    requires 0 < count
    ensures var n, eoff := BlocksFor(pos, count), (pos + count) % BLOCK;
            && 0 < n
            && (eoff != 0 ==> (n - 1) * BLOCK + eoff == pos % BLOCK + count)
            && (eoff == 0 ==> n * BLOCK == pos % BLOCK + count)
  {
    var offset := pos % BLOCK;
    var n, eoff := BlocksFor(pos, count), (pos + count) % BLOCK;
    assert pos == pos / BLOCK * BLOCK + offset;
    assert (offset + count) % BLOCK == eoff;
  }

  // ----- reading ------------------------------------------------------------------------------------------

  /** `bytes` are the bytes of the file from `pos` on. */
  ghost predicate Reads(blocks: map<nat, nat>, mem: Mem, pos: nat, bytes: seq<Byte>) {
    forall i :: 0 <= i < |bytes| ==> bytes[i] == FileByte(blocks, mem, pos + i)
  }

  /** Pages `page` .. `page + k` lie in consecutive blocks from `block` on. */
  ghost predicate RunOf(blocks: map<nat, nat>, page: nat, k: nat, block: nat) {
    forall p :: page <= p < page + k ==> p in blocks && blocks[p] == NthBlock(block, page, p)
  }

  /** Consecutive blocks can be copied in one go. */
  lemma RunReads(blocks: map<nat, nat>, mem: Mem, page: nat, k: nat, block: nat, offset: nat, nr: nat)
    requires RunOf(blocks, page, k, block) && offset < BLOCK && offset + nr <= k * BLOCK
    ensures Reads(blocks, mem, page * BLOCK + offset, Load(mem, block * BLOCK + offset, nr))
  {
    var bytes := Load(mem, block * BLOCK + offset, nr);
    forall i | 0 <= i < |bytes| ensures bytes[i] == FileByte(blocks, mem, page * BLOCK + offset + i) {
      var x := offset + i;
      var p := page + x / BLOCK;
      assert page * BLOCK + offset + i == p * BLOCK + x % BLOCK;
      PageByte(p, x % BLOCK);
      assert page <= p < page + k;
      assert blocks[p] == NthBlock(block, page, p);
      assert blocks[p] * BLOCK + x % BLOCK == block * BLOCK + offset + i;
    }
  }

  /** A hole reads as zeros. */
  lemma HoleReads(blocks: map<nat, nat>, mem: Mem, page: nat, offset: nat, nr: nat)
    requires page !in blocks && offset + nr <= BLOCK
    ensures Reads(blocks, mem, page * BLOCK + offset, Zeros(nr))
  {
    forall i: nat | i < nr ensures Zeros(nr)[i] == FileByte(blocks, mem, page * BLOCK + offset + i) {
      PageByte(page, offset + i);
      assert page * BLOCK + offset + i == page * BLOCK + (offset + i);
    }
  }

  lemma ReadsMore(blocks: map<nat, nat>, mem: Mem, pos: nat, a: seq<Byte>, b: seq<Byte>)
    requires Reads(blocks, mem, pos, a) && Reads(blocks, mem, pos + |a|, b)
    ensures Reads(blocks, mem, pos, a + b)
  {
    forall i | 0 <= i < |a + b| ensures (a + b)[i] == FileByte(blocks, mem, pos + i) {
      if i >= |a| {
        assert (a + b)[i] == b[i - |a|];
        assert pos + |a| + (i - |a|) == pos + i;
      }
    }
  }

  lemma ReadsNothing(blocks: map<nat, nat>, mem: Mem, pos: nat)
    ensures Reads(blocks, mem, pos, [])
  {
  }

  lemma PastTheEnd(size: nat, index: nat, offset: nat)
    requires 0 < size && offset < BLOCK
    requires index > (size - 1) / BLOCK || (index == (size - 1) / BLOCK && (size - 1) % BLOCK + 1 <= offset)
    ensures index * BLOCK + offset >= size
  {
  }

  lemma InsideTheFile(size: nat, index: nat, offset: nat)
    requires 0 < size && offset < BLOCK
    requires !(index > (size - 1) / BLOCK || (index == (size - 1) / BLOCK && (size - 1) % BLOCK + 1 <= offset))
    ensures index * BLOCK + offset < size
  {
  }

  lemma WriteKeepsZeros(blocks: map<nat, nat>, mem: Mem, blocks0: map<nat, nat>, mem0: Mem, size: nat, pos: nat,
                        buf: seq<Byte>)
    requires Content(blocks, mem, blocks0, mem0, pos, buf)
    ensures ZeroPast(blocks0, mem0, size) ==> ZeroPast(blocks, mem, if size >= pos + |buf| then size else pos + |buf|)
  {
  }
}
