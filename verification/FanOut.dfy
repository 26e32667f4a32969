/**
 Splitting one transfer into commands that run concurrently: submit_test with its two
 phases, and the thread-array version of nvme_io.
 */
module FanOut {
  import opened Memory

  const SECTOR: nat := 512
  const CHUNK_BLOCKS: nat := 4096   // CHUNK_SIZE / NVME_SECTOR_SIZE
  const MAX_BLOCK_NUM: nat := 896

  type Block = b: seq<Byte> | |b| == SECTOR witness seq(SECTOR, _ => 0)

  /** struct nvme_user_io: a buffer offset, the first block, and a 16-bit block count that is zero-based. */
  datatype Request = Request(addr: nat, slba: nat, nblocks: nat)

  /** The 16-bit field for a count of n blocks. */
  function ZeroBased(n: nat): nat {
    (n + 0xFFFF) % 0x1_0000
  }

  /** How many blocks the device moves for a request. */
  function Size(r: Request): nat {
    r.nblocks + 1
  }

  /** Blocks in the first k requests. */
  function Offset(reqs: seq<Request>, k: nat): nat
    requires k <= |reqs|
  {
    if k == 0 then 0 else Offset(reqs, k - 1) + Size(reqs[k - 1])
  }

  /**
   The requests cut the first n blocks of the buffer and the n blocks from `start` on in the
   same way, without gaps.
   */
  ghost predicate Tiles(reqs: seq<Request>, start: nat, n: nat) {
    && Offset(reqs, |reqs|) == n
    && forall k :: 0 <= k < |reqs| ==>
      reqs[k].slba == start + Offset(reqs, k) && reqs[k].addr == Offset(reqs, k) * SECTOR
  }

  lemma {:induction false} OffsetPrefix(reqs: seq<Request>, r: Request, k: nat)
    requires k <= |reqs|
    ensures Offset(reqs + [r], k) == Offset(reqs, k)
  {
    if k > 0 {
      OffsetPrefix(reqs, r, k - 1);
    }
  }

  lemma {:induction false} TilesMore(reqs: seq<Request>, start: nat, n: nat, r: Request)
    requires Tiles(reqs, start, n) && r.slba == start + n && r.addr == n * SECTOR
    ensures Tiles(reqs + [r], start, n + Size(r))
  {
    hide Offset;
    var more := reqs + [r];
    OffsetLast(reqs, r);
    OffsetPrefix(reqs, r, |reqs|);
    forall k | 0 <= k < |reqs|
      ensures more[k].slba == start + Offset(more, k) && more[k].addr == Offset(more, k) * SECTOR
    {
      OffsetPrefix(reqs, r, k);
    }
  }

  lemma OffsetLast(reqs: seq<Request>, r: Request)
    ensures Offset(reqs + [r], |reqs| + 1) == Offset(reqs + [r], |reqs|) + Size(r)
  {
    assert (reqs + [r])[|reqs|] == r;
  }

  lemma {:induction false} OffsetMono(reqs: seq<Request>, j: nat, k: nat)
    requires j <= k <= |reqs|
    ensures Offset(reqs, j) + (k - j) <= Offset(reqs, k)
    decreases k
  {
    if j < k {
      OffsetMono(reqs, j, k - 1);
    }
  }

  /** The block of the transfer that block b of request k is. */
  function Index(reqs: seq<Request>, k: nat, b: nat): nat {
    if k < |reqs| then Offset(reqs, k) + b else 0
  }

  predicate Within(reqs: seq<Request>, k: nat, b: nat) {
    k < |reqs| && b < Size(reqs[k])
  }

  /** Every block of the transfer is in one request. */
  lemma {:induction false} Find(reqs: seq<Request>, m: nat, i: nat) returns (k: nat, b: nat)
    requires m <= |reqs| && i < Offset(reqs, m)
    ensures Within(reqs, k, b) && Index(reqs, k, b) == i
  {
    if i >= Offset(reqs, m - 1) {
      k, b := m - 1, i - Offset(reqs, m - 1);
    } else {
      k, b := Find(reqs, m - 1, i);
    }
  }

  /** And in no second one: requests do not overlap. */
  lemma {:induction false} Unique(reqs: seq<Request>, j: nat, a: nat, k: nat, b: nat)
    requires Within(reqs, j, a) && Within(reqs, k, b) && Index(reqs, j, a) == Index(reqs, k, b)
    ensures j == k && a == b
  {
    if j < k {
      OffsetMono(reqs, j + 1, k);
    } else if k < j {
      OffsetMono(reqs, k + 1, j);
    }
  }

  /** A command's single-block transfers, in the order in which they happen to take place. */
  type Schedule = seq<(nat, nat)>

  /** Nothing is transferred that no command asks for. */
  ghost predicate Legal(s: Schedule, reqs: seq<Request>) {
    forall e :: e in s ==> Within(reqs, e.0, e.1)
  }

  /** All the commands run to their end before the barrier: whatever the order, and even if blocks are sent again. */
  ghost predicate Complete(s: Schedule, reqs: seq<Request>) {
    Legal(s, reqs) && forall k: nat, b: nat :: Within(reqs, k, b) ==> (k, b) in s
  }

  /** Where the device puts block b of a command: on the disk for a write, in the buffer for a read. */
  function Target(write: bool, r: Request, b: nat): nat {
    if write then r.slba + b else r.addr / SECTOR + b
  }

  /** And where it takes the block from. */
  function Source(write: bool, r: Request, b: nat): nat {
    Target(!write, r, b)
  }

  /** The addresses in the commands stay inside both sides. */
  ghost predicate InBounds(write: bool, reqs: seq<Request>, s: Schedule, srcLen: nat, dstLen: nat) {
    forall e :: e in s ==>
      Within(reqs, e.0, e.1) && Source(write, reqs[e.0], e.1) < srcLen && Target(write, reqs[e.0], e.1) < dstLen
  }

  /** The first block of the transfer on the side that is written. */
  function Base(write: bool, start: nat): nat {
    if write then start else 0
  }

  /** The block numbers and buffer addresses that tiling commands carry are those of the block they mean. */
  lemma {:induction false} TilesAddress(reqs: seq<Request>, start: nat, n: nat, k: nat, b: nat)
    requires Tiles(reqs, start, n) && Within(reqs, k, b)
    ensures reqs[k].slba + b == start + Index(reqs, k, b)
    ensures reqs[k].addr / SECTOR + b == Index(reqs, k, b) < n
  {
    IndexBelow(reqs, k, b);
    hide Offset;
  }

  lemma IndexBelow(reqs: seq<Request>, k: nat, b: nat)
    requires Within(reqs, k, b)
    ensures Index(reqs, k, b) < Offset(reqs, |reqs|)
  {
    OffsetMono(reqs, k + 1, |reqs|);
    assert Offset(reqs, k + 1) == Offset(reqs, k) + Size(reqs[k]);
    hide Offset;
  }

  /** Two commands never put a block in the same place, on either side. */
  lemma {:induction false} TargetsDiffer(write: bool, reqs: seq<Request>, start: nat, n: nat, j: nat, a: nat, k: nat,
                                         b: nat)
    requires Tiles(reqs, start, n) && Within(reqs, j, a) && Within(reqs, k, b) && (j, a) != (k, b)
    ensures Target(write, reqs[j], a) != Target(write, reqs[k], b)
  {
    hide Index, Offset, Within, Tiles;
    TilesAddress(reqs, start, n, j, a);
    TilesAddress(reqs, start, n, k, b);
    if Index(reqs, j, a) == Index(reqs, k, b) {
      Unique(reqs, j, a, k, b);
    }
  }

  /** Tiling commands stay inside a disk and a buffer that have the n blocks. */
  lemma {:induction false} TilesInBounds(write: bool, reqs: seq<Request>, start: nat, n: nat, s: Schedule, srcLen: nat,
                                         dstLen: nat)
    requires Tiles(reqs, start, n) && Legal(s, reqs) && Base(!write, start) + n <= srcLen
    requires Base(write, start) + n <= dstLen
    ensures InBounds(write, reqs, s, srcLen, dstLen)
  {
    hide Index, Offset, Tiles;
    forall e | e in s
      ensures Source(write, reqs[e.0], e.1) < srcLen && Target(write, reqs[e.0], e.1) < dstLen
    {
      TilesAddress(reqs, start, n, e.0, e.1);
    }
  }

  /** What the destination is after the transfers of a schedule, each at the addresses its command carries. */
  ghost function Outcome<T>(write: bool, dst: seq<T>, src: seq<T>, reqs: seq<Request>, s: Schedule): (r: seq<T>)
    requires InBounds(write, reqs, s, |src|, |dst|)
    ensures |r| == |dst|
  {
    if s == [] then dst else
      var e := s[|s| - 1];
      assert e in s;
      Outcome(write, dst, src, reqs, s[..|s| - 1])[
        Target(write, reqs[e.0], e.1) := src[Source(write, reqs[e.0], e.1)]]
  }

  /** A block that some transfer of the schedule means ends up as in the source; the others keep what they had. */
  lemma {:induction false} OutcomeAt<T>(write: bool, dst: seq<T>, src: seq<T>, reqs: seq<Request>, start: nat, n: nat,
                                        s: Schedule, i: nat)
    requires Tiles(reqs, start, n) && Legal(s, reqs) && i < |dst|
    requires Base(!write, start) + n <= |src| && Base(write, start) + n <= |dst|
    ensures InBounds(write, reqs, s, |src|, |dst|)
    ensures var r, at := Outcome(write, dst, src, reqs, s), i - Base(write, start);
            r[i] == if 0 <= at < n && Moves(s, reqs, at) then src[Base(!write, start) + at] else dst[i]
  {
    hide Index, Offset, Tiles, Within, Moves;
    TilesInBounds(write, reqs, start, n, s, |src|, |dst|);
    if s == [] {
      NoMoves(reqs, i - Base(write, start));
    } else {
      var e, rest := s[|s| - 1], s[..|s| - 1];
      assert s == rest + [e] && e in s;
      OutcomeAt(write, dst, src, reqs, start, n, rest, i);
      MovesMore(rest, e, reqs, i - Base(write, start));
      TilesAddress(reqs, start, n, e.0, e.1);
    }
  }

  ghost predicate Moves(s: Schedule, reqs: seq<Request>, i: int) {
    exists e :: e in s && Index(reqs, e.0, e.1) == i
  }

  lemma NoMoves(reqs: seq<Request>, i: int)
    ensures !Moves([], reqs, i)
  {
  }

  lemma MovesMore(s: Schedule, e: (nat, nat), reqs: seq<Request>, i: int)
    ensures Moves(s + [e], reqs, i) <==> Moves(s, reqs, i) || Index(reqs, e.0, e.1) == i
  {
    hide Index;
    if Moves(s, reqs, i) {
      var d :| d in s && Index(reqs, d.0, d.1) == i;
      assert d in s + [e];
    }
    if Index(reqs, e.0, e.1) == i {
      assert e in s + [e];
    }
  }

  /** A whole phase copies the n blocks between disk and buffer, whatever the schedule. */
  lemma {:induction false} PhaseCopies<T>(write: bool, dst: seq<T>, src: seq<T>, reqs: seq<Request>, start: nat, n: nat,
                                          s: Schedule)
    requires Tiles(reqs, start, n) && Complete(s, reqs)
    requires Base(!write, start) + n <= |src| && Base(write, start) + n <= |dst|
    ensures InBounds(write, reqs, s, |src|, |dst|)
    ensures var to, from := Base(write, start), Base(!write, start);
            Outcome(write, dst, src, reqs, s) == dst[..to] + src[from..from + n] + dst[to + n..]
  {
    hide Outcome, Tiles, Complete, InBounds, Base;
    var to, from := Base(write, start), Base(!write, start);
    assert InBounds(write, reqs, s, |src|, |dst|) by { BlockCopied(write, dst, src, reqs, start, n, s, 0); }
    var r := Outcome(write, dst, src, reqs, s);
    forall i | 0 <= i < |dst| ensures r[i] == if to <= i < to + n then src[from + (i - to)] else dst[i] {
      BlockCopied(write, dst, src, reqs, start, n, s, i);
    }
    Spliced(r, dst, to, src, from, n);
  }

  lemma BlockCopied<T>(write: bool, dst: seq<T>, src: seq<T>, reqs: seq<Request>, start: nat, n: nat, s: Schedule,
                       i: nat)
    requires Tiles(reqs, start, n) && Complete(s, reqs)
    requires Base(!write, start) + n <= |src| && Base(write, start) + n <= |dst|
    ensures InBounds(write, reqs, s, |src|, |dst|)
    ensures var to := Base(write, start);
            i < |dst| ==>
              Outcome(write, dst, src, reqs, s)[i]
              == (if to <= i < to + n then src[Base(!write, start) + (i - to)] else dst[i])
  {
    hide Outcome, Moves, Tiles, Within, InBounds;
    TilesInBounds(write, reqs, start, n, s, |src|, |dst|);
    if i < |dst| {
      OutcomeAt(write, dst, src, reqs, start, n, s, i);
      if 0 <= i - Base(write, start) < n {
        AllMoved(s, reqs, start, n, i - Base(write, start));
      }
    }
  }

  lemma Spliced<T>(r: seq<T>, dst: seq<T>, to: nat, src: seq<T>, from: nat, n: nat)
    requires from + n <= |src| && to + n <= |dst| == |r|
    requires forall i :: 0 <= i < |dst| ==> r[i] == if to <= i < to + n then src[from + (i - to)] else dst[i]
    ensures r == dst[..to] + src[from..from + n] + dst[to + n..]
  {
  }

  lemma AllMoved(s: Schedule, reqs: seq<Request>, start: nat, n: nat, i: nat)
    requires Tiles(reqs, start, n) && Complete(s, reqs) && i < n
    ensures Moves(s, reqs, i)
  {
    hide Offset, Index, Within;
    var k, b := Find(reqs, |reqs|, i);
    var e := (k, b);
    assert e in s && Index(reqs, e.0, e.1) == i;
  }

  lemma ZeroBasedSize(n: nat)
    requires 0 < n <= 0x1_0000
    ensures ZeroBased(n) + 1 == n
  {
  }

  function DivRoundUp(numerator: nat, denominator: nat): nat
    requires denominator > 0
  {
    (numerator + denominator - 1) / denominator
  }

  /** The submit loop of either phase: chunks of CHUNK_BLOCKS, and a shorter one at the end. */
  method Submit(nblocks: nat, startLba: nat) returns (reqs: seq<Request>)
    ensures Tiles(reqs, startLba, nblocks)
    ensures |reqs| == DivRoundUp(nblocks, CHUNK_BLOCKS)
  {
    hide Tiles, ZeroBased;
    reqs := [];
    NoTiles(startLba);
    var remain, each, lba, addr := nblocks, CHUNK_BLOCKS, startLba, 0;
    while remain > 0
      invariant 0 < each <= CHUNK_BLOCKS && 0 <= remain <= nblocks
      invariant lba == startLba + (nblocks - remain) && addr == (nblocks - remain) * SECTOR
      invariant Tiles(reqs, startLba, nblocks - remain)
      invariant remain > 0 ==> each == CHUNK_BLOCKS && nblocks - remain == |reqs| * CHUNK_BLOCKS
      invariant remain == 0 ==> |reqs| == DivRoundUp(nblocks, CHUNK_BLOCKS)
    {
      if remain < each {
        each := remain;
      }
      ZeroBasedSize(each);
      TilesMore(reqs, startLba, nblocks - remain, Request(addr, lba, ZeroBased(each)));
      reqs := reqs + [Request(addr, lba, ZeroBased(each))];
      remain, lba, addr := remain - each, lba + each, addr + each * SECTOR;
    }
  }

  lemma NoTiles(start: nat)
    ensures Tiles([], start, 0)
  {
  }

  /** The commands of one phase on the device, block by block in the order of the schedule, up to the barrier. */
  method RunPhase(write: bool, dst: array<Block>, src: array<Block>, reqs: seq<Request>, s: Schedule)
    requires dst != src && InBounds(write, reqs, s, src.Length, dst.Length)
    modifies dst
    ensures dst[..] == Outcome(write, old(dst[..]), src[..], reqs, s)
  {
    hide Target;
    var k := 0;
    assert s[..0] == [];
    while k < |s|
      invariant k <= |s| && InBounds(write, reqs, s[..k], src.Length, dst.Length)
      invariant dst[..] == Outcome(write, old(dst[..]), src[..], reqs, s[..k])
    {
      assert s[..k + 1][..k] == s[..k] && s[k] in s;
      var r := reqs[s[k].0];
      dst[Target(write, r, s[k].1)] := src[Source(write, r, s[k].1)];
      k := k + 1;
    }
    assert s[..k] == s;
  }

  /** One phase: all its commands are issued, and its barrier waits for them. */
  method SubmitPhase(write: bool, dst: array<Block>, src: array<Block>, n: nat, startLba: nat,
                     order: seq<Request> -> Schedule)
    requires dst != src && Base(!write, startLba) + n <= src.Length && Base(write, startLba) + n <= dst.Length
    requires forall reqs :: Complete(order(reqs), reqs)
    modifies dst
    ensures var to, from := Base(write, startLba), Base(!write, startLba);
            && dst[to..to + n] == src[from..from + n]
            && dst[..to] == old(dst[..to]) && dst[to + n..] == old(dst[to + n..])
  {
    hide Outcome, Tiles, Complete, InBounds, Base;
    ghost var was, to, from := dst[..], Base(write, startLba), Base(!write, startLba);
    var reqs := Submit(n, startLba);
    PhaseCopies(write, was, src[..], reqs, startLba, n, order(reqs));
    RunPhase(write, dst, src, reqs, order(reqs));
    Parts(dst[..], was, to, src[..][from..from + n]);
    SameSlices(dst, to, n);
    SameSlices(src, from, n);
  }

  lemma Parts<T>(r: seq<T>, dst: seq<T>, to: nat, mid: seq<T>)
    requires to + |mid| <= |dst| && r == dst[..to] + mid + dst[to + |mid|..]
    ensures r[..to] == dst[..to] && r[to..to + |mid|] == mid && r[to + |mid|..] == dst[to + |mid|..]
  {
  }

  lemma SameSlices<T>(a: array<T>, to: nat, n: nat)
    requires to + n <= a.Length
    ensures a[..][..to] == a[..to] && a[..][to..to + n] == a[to..to + n] && a[..][to + n..] == a[to + n..]
  {
  }

  /** One byte of a buffer of blocks. */
  function ByteAt(blocks: seq<Block>, j: nat): Byte
    requires j / SECTOR < |blocks|
  {
    blocks[j / SECTOR][j % SECTOR]
  }

  /**
   submit_test in its asynchronous form. Whatever order the scheduler gives the
   commands inside either phase, with the barrier between the phases the read buffer is
   the write buffer, the comparison succeeds, and only the file's blocks were written.
   */
  method SubmitTest(writeBuf: array<Block>, readBuf: array<Block>, disk: array<Block>, fileBytes: nat, startLba: nat,
                    order: seq<Request> -> Schedule, order': seq<Request> -> Schedule)
    returns (ret: int)
    requires writeBuf != readBuf && writeBuf != disk && readBuf != disk
    requires var n := DivRoundUp(fileBytes, SECTOR);
             n <= writeBuf.Length && n <= readBuf.Length && startLba + n <= disk.Length
    requires forall reqs :: Complete(order(reqs), reqs) && Complete(order'(reqs), reqs)
    modifies readBuf, disk
    ensures ret == 0
    ensures var n := DivRoundUp(fileBytes, SECTOR);
            && readBuf[..n] == writeBuf[..n] && readBuf[n..] == old(readBuf[n..])
            && disk[startLba..startLba + n] == writeBuf[..n]
            && disk[..startLba] == old(disk[..startLba]) && disk[startLba + n..] == old(disk[startLba + n..])
  {
    hide Complete, DivRoundUp;
    var n := DivRoundUp(fileBytes, SECTOR);
    SubmitPhase(true, disk, writeBuf, n, startLba, order);
    assert writeBuf[0..0 + n] == writeBuf[..n];
    SubmitPhase(false, readBuf, disk, n, startLba, order');
    assert readBuf[0..0 + n] == readBuf[..n];
    SameSlices(readBuf, 0, n);
    SameSlices(writeBuf, 0, n);
    assert readBuf[..][..n] == writeBuf[..][..n];
    SameBytes(readBuf[..], writeBuf[..], n, fileBytes);
    ret := if forall j :: 0 <= j < fileBytes ==> ByteAt(readBuf[..], j) == ByteAt(writeBuf[..], j) then 0 else 1;
  }

  lemma SameBytes(a: seq<Block>, b: seq<Block>, n: nat, bytes: nat)
    requires n == DivRoundUp(bytes, SECTOR) && n <= |a| && n <= |b| && a[..n] == b[..n]
    ensures forall j :: 0 <= j < bytes ==> j / SECTOR < n && ByteAt(a, j) == ByteAt(b, j)
  {
    forall j | 0 <= j < bytes ensures j / SECTOR < n && ByteAt(a, j) == ByteAt(b, j) {
      assert a[j / SECTOR] == a[..n][j / SECTOR];
    }
  }

  /**
   nvme_io of the thread version: one command a thread, in arrays that were sized
   beforehand. They are filled exactly.
   */
  method FanOutThreads(bufferSize: nat) returns (params: array<Request>, threadCounts: nat)
    ensures threadCounts == params.Length == DivRoundUp(bufferSize, MAX_BLOCK_NUM * SECTOR)
    ensures Tiles(params[..], 0, DivRoundUp(bufferSize, SECTOR))
  {
    hide Tiles, ZeroBased;
    var total := DivRoundUp(bufferSize, SECTOR);
    var threadNums := DivRoundUp(bufferSize, MAX_BLOCK_NUM * SECTOR);
    RoundTwice(bufferSize);
    params := new Request[threadNums](_ => Request(0, 0, 0));
    var remain, lba, offset := total, 0, 0;
    threadCounts := 0;
    NoTiles(0);
    assert params[..0] == [];
    while remain > 0
      invariant 0 <= remain <= total && threadCounts <= params.Length
      invariant lba == total - remain && offset == (total - remain) * SECTOR
      invariant Tiles(params[..threadCounts], 0, total - remain)
      invariant if remain > 0 then total - remain == threadCounts * MAX_BLOCK_NUM else threadCounts == params.Length
    {
      var blocks := if remain < MAX_BLOCK_NUM then remain else MAX_BLOCK_NUM;
      ZeroBasedSize(blocks);
      TilesMore(params[..threadCounts], 0, total - remain, Request(offset, lba, ZeroBased(blocks)));
      params[threadCounts] := Request(offset, lba, ZeroBased(blocks));
      assert params[..threadCounts + 1] == params[..threadCounts] + [params[threadCounts]];
      remain, lba, offset, threadCounts := remain - blocks, lba + blocks, offset + blocks * SECTOR, threadCounts + 1;
    }
    assert params[..threadCounts] == params[..];
  }

  /** Rounding up to sectors and then to commands is rounding up to commands. */
  lemma RoundTwice(bytes: nat)
    ensures DivRoundUp(bytes, MAX_BLOCK_NUM * SECTOR) == DivRoundUp(DivRoundUp(bytes, SECTOR), MAX_BLOCK_NUM)
  {
    var x := bytes + 896 * 512 - 1;
    assert DivRoundUp(bytes, SECTOR) + 895 == x / 512;
    var q, r := x / 512, x % 512;
    var p, t := q / 896, q % 896;
    assert x == 458752 * p + (512 * t + r) && 512 * t + r < 458752;
  }
}
