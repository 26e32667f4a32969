/** The pipe flavour of the iterator: buffers appended to the ring of a pipe, and taken back. */
module Pipes {
  import opened Params
  import opened Memory


  /** A pipe_buffer; `anon` says that its ops are default_pipe_buf_ops. */
  datatype Buf = Buf(anon: bool, page: nat, offset: nat, len: nat)

  /** What the pipe holds past start_head: no empty buffer, and anonymous ones start at 0 and fit their page. */
  ghost predicate BufsOk(q: seq<Buf>) {
    forall b :: b in q ==> b.len > 0 && (b.anon ==> b.offset == 0 && b.len <= PAGE_SIZE)
  }

  ghost function Queued(q: seq<Buf>): nat {
    if q == [] then 0 else Queued(q[..|q| - 1]) + q[|q| - 1].len
  }

  /** The physical addresses of the queued bytes, in order. */
  ghost function Addrs(q: seq<Buf>): (r: seq<nat>)
    ensures |r| == Queued(q)
  {
    if q == [] then [] else
      var b := q[|q| - 1];
      Addrs(q[..|q| - 1]) + Range(b.page * PAGE_SIZE + b.offset, b.len)
  }

  ghost function Pages(q: seq<Buf>): multiset<nat> {
    if q == [] then multiset{} else Pages(q[..|q| - 1]) + multiset{q[|q| - 1].page}
  }

  /** The queue without its last k bytes. */
  ghost function Dropped(q: seq<Buf>, k: nat): seq<Buf> {
    if q == [] then [] else
      var b := q[|q| - 1];
      if k < b.len then q[..|q| - 1] + [b.(len := b.len - k)] else Dropped(q[..|q| - 1], k - b.len)
  }

  /** q' is q with bytes added at its end: the last buffer may have grown, and buffers may follow. */
  ghost predicate Grown(q: seq<Buf>, q': seq<Buf>) {
    && |q| <= |q'|
    && (forall k :: 0 <= k < |q| - 1 ==> q'[k] == q[k])
    && (q != [] ==> var k := |q| - 1; q'[k].len >= q[k].len && q'[k].(len := q[k].len) == q[k])
  }

  lemma GrownNothing(q: seq<Buf>)
    ensures Grown(q, q)
  {
  }

  lemma DroppedNothing(q: seq<Buf>)
    requires BufsOk(q)
    ensures Dropped(q, 0) == q
  {
    if q != [] {
      assert q[|q| - 1] in q;
    }
  }

  lemma NoneLeft(k: nat)
    ensures Dropped([], k) == [] && Queued([]) == 0
  {
  }

  /** The last buffer b of q, and what taking k bytes back does to it. */
  lemma LastBuf(q: seq<Buf>, rest: seq<Buf>, b: Buf, k: nat)
    requires q == rest + [b]
    ensures Dropped(q, k) == if k < b.len then rest + [b.(len := b.len - k)] else Dropped(rest, k - b.len)
    ensures Pages(q) == Pages(rest) + multiset{b.page} && Queued(q) == Queued(rest) + b.len
  {
    assert q[..|q| - 1] == rest;
  }

  lemma PutLast(refs: multiset<nat>, q0: seq<Buf>, r0: multiset<nat>, rest: seq<Buf>, page: nat)
    requires refs + Pages(q0) == r0 + (Pages(rest) + multiset{page}) && Pages(rest) + multiset{page} <= refs
    ensures refs - multiset{page} + Pages(q0) == r0 + Pages(rest) && Pages(rest) <= refs - multiset{page}
  {
    hide Pages;
    var r := refs - multiset{page};
    assert refs == r + multiset{page};
    forall x ensures (r + Pages(q0))[x] == (r0 + Pages(rest))[x] {
      assert (refs + Pages(q0))[x] == (r0 + (Pages(rest) + multiset{page}))[x];
    }
  }

  lemma NoRange(at: nat)
    ensures Range(at, 0) == []
  {
  }

  lemma {:induction false} GrownTwice(a: seq<Buf>, b: seq<Buf>, c: seq<Buf>)
    requires Grown(a, b) && Grown(b, c)
    ensures Grown(a, c)
  {
  }

  /** Growth adds to the count and to the addresses, at the end. */
  lemma {:induction false} GrownAddrs(q: seq<Buf>, q': seq<Buf>)
    requires Grown(q, q')
    ensures Queued(q) <= Queued(q') && Addrs(q) <= Addrs(q')
    decreases |q'|
  {
    if q' == [] {
    } else if |q| < |q'| {
      GrownAddrs(q, q'[..|q'| - 1]);
    } else if q != [] {
      assert q'[..|q'| - 1] == q[..|q| - 1];
    }
  }

  /** Taking back what was added leaves the queue as it was. */
  lemma {:induction false} DropUndoesGrowth(q: seq<Buf>, q': seq<Buf>)
    requires Grown(q, q') && BufsOk(q)
    ensures Queued(q) <= Queued(q') && Dropped(q', Queued(q') - Queued(q)) == q
    decreases |q'|
  {
    GrownAddrs(q, q');
    if q' == [] {
    } else if |q| < |q'| {
      GrownAddrs(q, q'[..|q'| - 1]);
      DropUndoesGrowth(q, q'[..|q'| - 1]);
    } else {
      var b := q[|q| - 1];
      assert q'[..|q'| - 1] == q[..|q| - 1] && b in q;
      assert q == q[..|q| - 1] + [b];
    }
  }

  lemma {:induction false} DroppedAddrs(q: seq<Buf>, k: nat)
    requires k <= Queued(q)
    ensures Queued(Dropped(q, k)) == Queued(q) - k && Addrs(Dropped(q, k)) == Addrs(q)[..Queued(q) - k]
  {
    hide Range, Addrs, Queued;
    if q == [] {
      NothingQueued();
    } else {
      var b, rest := q[|q| - 1], q[..|q| - 1];
      assert q == rest + [b.(len := b.len)];
      LastDropped(rest, b, b.len);
      var at, n := b.page * PAGE_SIZE + b.offset, Queued(rest);
      if k < b.len {
        LastDropped(rest, b, b.len - k);
        RangePrefix(at, b.len - k, b.len);
        Prefixes(Addrs(rest), Range(at, b.len), b.len - k);
      } else {
        DroppedAddrs(rest, k - b.len);
        assert (Addrs(rest) + Range(at, b.len))[..n - (k - b.len)] == Addrs(rest)[..n - (k - b.len)];
      }
    }
  }

  lemma NothingQueued()
    ensures Queued([]) == 0 && Addrs([]) == []
  {
  }

  lemma Prefixes(a: seq<nat>, b: seq<nat>, k: nat)
    requires k <= |b|
    ensures (a + b)[..|a| + k] == a + b[..k]
  {
  }

  lemma LastDropped(rest: seq<Buf>, b: Buf, len: nat)
    ensures var q := rest + [b.(len := len)];
            Queued(q) == Queued(rest) + len && Addrs(q) == Addrs(rest) + Range(b.page * PAGE_SIZE + b.offset, len)
  {
    assert (rest + [b.(len := len)])[..|rest|] == rest;
  }

  lemma RangePrefix(at: nat, m: nat, n: nat)
    requires m <= n
    ensures Range(at, n)[..m] == Range(at, m)
  {
  }

  /** Slots less than one ring apart are different entries. */
  lemma SlotsDiffer(ring: nat, tail: nat, a: nat, b: nat)
    requires tail <= a < b < tail + ring
    ensures a % ring != b % ring
  {
    var d := b / ring - a / ring;
    Distribute(b / ring, a / ring, ring);
    assert b - a == d * ring + (b % ring - a % ring);
    MulGap(d, ring);
  }

  lemma Distribute(x: int, y: int, n: int)
    ensures (x - y) * n == x * n - y * n
  {
  }

  lemma MulGap(d: int, n: nat)
    ensures d >= 1 ==> d * n >= n
    ensures d <= 0 ==> d * n <= 0
  {
  }

  class Pipe {
    const bufs: array<Buf>
    const maxUsage: nat
    const mem: array<Byte>   // physical memory
    var head: nat
    var tail: nat
    var refs: multiset<nat>  // page references

    constructor (bufs: array<Buf>, maxUsage: nat, mem: array<Byte>, at: nat, refs: multiset<nat>)
      requires 0 < maxUsage <= bufs.Length
      ensures this.bufs == bufs && this.maxUsage == maxUsage && this.mem == mem && this.refs == refs
      ensures head == tail == at
    {
      this.bufs, this.maxUsage, this.mem, this.head, this.tail, this.refs := bufs, maxUsage, mem, at, at, refs;
    }

    /** The buffers in slots a, ..., b - 1. */
    ghost function Slots(a: nat, b: nat): (r: seq<Buf>)
      requires bufs.Length > 0 && a <= b
      reads this, bufs
      ensures |r| == b - a
    {
      seq(b - a, k requires k >= 0 reads bufs => bufs[(a + k) % bufs.Length])
    }

    function Get(slot: nat): Buf
      requires bufs.Length > 0
      reads this, bufs
    {
      bufs[slot % bufs.Length]
    }

    /** pipe_full. */
    predicate Full()
      reads this
    {
      head - tail >= maxUsage
    }

    /** The next buffer of the ring; `from` splits the buffers before it. */
    method Push(b: Buf, ghost from: nat)
      requires 0 < bufs.Length && tail <= from <= head < tail + bufs.Length
      modifies `head, bufs
      ensures head == old(head) + 1 && Slots(tail, from) == old(Slots(tail, from))
      ensures Slots(from, head) == old(Slots(from, head)) + [b]
    {
      forall k | tail <= k < head ensures k % bufs.Length != head % bufs.Length {
        SlotsDiffer(bufs.Length, tail, k, head);
      }
      bufs[head % bufs.Length] := b;
      head := head + 1;
    }

    /** A new length for the buffer in a slot in use. */
    method SetLen(slot: nat, len: nat, ghost from: nat)
      requires 0 < bufs.Length && tail <= from <= slot < head <= tail + bufs.Length
      modifies bufs
      ensures Slots(tail, from) == old(Slots(tail, from))
      ensures Slots(from, slot + 1) == old(Slots(from, slot)) + [old(Get(slot)).(len := len)]
    {
      forall k | tail <= k < slot ensures k % bufs.Length != slot % bufs.Length {
        SlotsDiffer(bufs.Length, tail, k, slot);
      }
      bufs[slot % bufs.Length] := bufs[slot % bufs.Length].(len := len);
    }

    /** alloc_page: `pick` is the frame the allocator comes up with, which must be free. */
    predicate Free(pick: nat)
      reads this
    {
      pick !in refs && (pick + 1) * PAGE_SIZE <= mem.Length
    }
  }

  /** last_offset of a buffer: positive for an anonymous one. */
  function LastOffset(b: Buf): int {
    if b.anon then b.len else -(b.offset + b.len)
  }

  class PipeIter {
    const pipe: Pipe
    const startHead: nat
    var head: nat
    var lastOffset: int
    var count: nat

    /** iov_iter_pipe. */
    constructor (pipe: Pipe, count: nat)
      requires pipe.bufs as object != pipe.mem
      requires 0 < pipe.maxUsage <= pipe.bufs.Length && pipe.tail <= pipe.head <= pipe.tail + pipe.bufs.Length
      ensures Valid() && this.pipe == pipe && this.count == count && Queue() == []
    {
      this.pipe, this.count, startHead, head, lastOffset := pipe, count, pipe.head, pipe.head, 0;
    }

    /** The buffers this iterator has put into the pipe. */
    ghost function Queue(): seq<Buf>
      requires 0 < pipe.bufs.Length && startHead <= pipe.head
      reads this, pipe, pipe.bufs
    {
      pipe.Slots(startHead, pipe.head)
    }

    /** What was in the pipe before. */
    ghost function Older(): seq<Buf>
      requires 0 < pipe.bufs.Length && pipe.tail <= startHead
      reads this, pipe, pipe.bufs
    {
      pipe.Slots(pipe.tail, startHead)
    }

    ghost predicate Valid()
      reads this, pipe, pipe.bufs
    {
      && 0 < pipe.maxUsage <= pipe.bufs.Length && pipe.bufs as object != pipe.mem
      && pipe.tail <= startHead <= pipe.head <= pipe.tail + pipe.bufs.Length
      && (Queue() != [] ==> pipe.head - pipe.tail <= pipe.maxUsage)
      && QueueOk(Queue(), pipe.mem.Length) && Pages(Queue()) <= pipe.refs
      && At(Queue(), pipe.head, head, lastOffset)
    }

    /** sanity, which the source compiles in on request. */
    predicate Sanity()
      requires 0 < pipe.bufs.Length && pipe.tail <= pipe.head
      reads this, pipe, pipe.bufs
    {
      if lastOffset != 0 then
        && pipe.head - pipe.tail != 0 && head == pipe.head - 1
        && var p := pipe.Get(head);
           p.offset + p.len == if lastOffset < 0 then -lastOffset else lastOffset
      else head == pipe.head
    }

    lemma AlwaysSane()
      requires Valid()
      ensures Sanity()
    {
      if Queue() != [] {
        var b := Queue()[|Queue()| - 1];
        assert pipe.Get(head) == b && b in Queue();
      }
    }

    /** What every operation that adds n bytes keeps: old buffers, references, and count plus queue. */
    twostate predicate Added(n: nat)
      requires old(Valid())
      reads this, pipe, pipe.bufs
    {
      && Valid() && pipe.tail == old(pipe.tail) && Older() == old(Older())
      && n <= old(count) && count == old(count) - n
      && Grown(old(Queue()), Queue()) && Queued(Queue()) == old(Queued(Queue())) + n
      && pipe.refs + Pages(old(Queue())) == old(pipe.refs) + Pages(Queue())
    }

    /** n more bytes in the last buffer. */
    method GrowLast(n: nat)
      requires Valid() && lastOffset != 0 && 0 < n <= count && (lastOffset > 0 ==> lastOffset + n <= PAGE_SIZE)
      modifies `lastOffset, `count, pipe.bufs
      ensures Added(n) && lastOffset == if old(lastOffset) > 0 then old(lastOffset) + n else old(lastOffset) - n
      ensures var q := old(Queue());
              q != [] && var b := q[|q| - 1];
              Addrs(Queue()) == Addrs(q) + Range(b.page * PAGE_SIZE + b.offset + b.len, n)
    {
      hide Grown, Queued, Addrs, Pages, Range;
      ghost var q := Queue();
      LastQueued();
      var b := pipe.Get(pipe.head - 1);
      pipe.SetLen(pipe.head - 1, b.len + n, startHead);
      lastOffset := if lastOffset > 0 then lastOffset + n else lastOffset - n;
      count := count - n;
      Extended(q, Queue(), b, n);
      StillOk(q, Queue(), b.(len := b.len + n), pipe.mem.Length);
    }

    /** A buffer of its own for the next b.len bytes. */
    method PushNew(b: Buf)
      requires Valid() && 0 < b.len <= count && !pipe.Full()
      requires b.anon ==> b.offset == 0 && b.len <= PAGE_SIZE && (b.page + 1) * PAGE_SIZE <= pipe.mem.Length
      modifies this, pipe`head, pipe`refs, pipe.bufs
      ensures Added(b.len) && lastOffset == LastOffset(b) && pipe.refs == old(pipe.refs) + multiset{b.page}
      ensures pipe.head == old(pipe.head) + 1
      ensures Addrs(Queue()) == Addrs(old(Queue())) + Range(b.page * PAGE_SIZE + b.offset, b.len)
    {
      hide Grown, Queued, Addrs, Pages, Range, QueueOk, Pipe.Slots;
      ghost var q := Queue();
      GetRef(b.page);
      pipe.Push(b, startHead);
      head := pipe.head - 1;
      lastOffset := LastOffset(b);
      count := count - b.len;
      Appended(q, Queue(), b);
      OneMoreOk(q, b, pipe.mem.Length);
    }

    /** append_pipe: at most one page's worth of room at the end of the pipe. */
    method AppendPipe(size: nat, pick: nat) returns (ok: bool, page: nat, off: nat)
      requires Valid() && 0 < size <= count
      modifies this, pipe`head, pipe`refs, pipe.bufs
      ensures !ok ==> Unmoved() && pipe.head == old(pipe.head) && (pipe.Full() || !pipe.Free(pick))
      ensures 0 < old(lastOffset) < PAGE_SIZE ==> ok
      ensures ok ==>
        && off < PAGE_SIZE && Added(Min(size, PAGE_SIZE - off)) && (page + 1) * PAGE_SIZE <= pipe.mem.Length
        && Addrs(Queue()) == Addrs(old(Queue())) + Range(page * PAGE_SIZE + off, Min(size, PAGE_SIZE - off))
        && page in pipe.refs && (off == 0 ==> page !in old(pipe.refs)) && old(pipe.refs) <= pipe.refs
        && (off > 0 <==> 0 < old(lastOffset) < PAGE_SIZE) && (off > 0 ==> off == old(lastOffset))
        && (size >= PAGE_SIZE - off ==> lastOffset == PAGE_SIZE)
        && pipe.head == old(pipe.head) + if off > 0 then 0 else 1
    {
      hide Grown, Queued, Addrs, Pages, Range, Pipe.Slots;
      if 0 < lastOffset < PAGE_SIZE {
        LastQueued();
        var b := pipe.Get(pipe.head - 1);
        off := lastOffset;
        GrowLast(Min(size, PAGE_SIZE - off));
        return true, b.page, off;
      }
      off := 0;
      if pipe.Full() || !pipe.Free(pick) {
        return false, 0, off;
      }
      PushNew(Buf(true, pick, 0, Min(size, PAGE_SIZE)));
      return true, pick, off;
    }

    /** One turn of the loop below: the bytes from `from` on, as many as the last page takes. */
    method CopyChunk(data: array<Byte>, from: nat, size: nat, pick: nat, ghost q0: seq<Buf>, ghost m0: seq<Byte>,
                     ghost r0: multiset<nat>)
      returns (chunk: nat)
      requires Valid() && 0 < size <= count && from + size <= data.Length && |m0| == pipe.mem.Length
      requires data != pipe.mem && data as object != pipe.bufs
      requires Grown(q0, Queue()) && Queued(Queue()) == Queued(q0) + from
      requires pipe.refs + Pages(q0) == r0 + Pages(Queue())
      requires Landed(q0, Queue(), m0, pipe.mem[..], data[..from], pipe.refs)
      requires from > 0 ==> lastOffset == PAGE_SIZE
      modifies this, pipe`head, pipe`refs, pipe.bufs, pipe.mem
      ensures Valid() && pipe.tail == old(pipe.tail) && Older() == old(Older())
      ensures chunk <= size && count == old(count) - chunk
      ensures Grown(q0, Queue()) && Queued(Queue()) == Queued(q0) + from + chunk
      ensures pipe.refs + Pages(q0) == r0 + Pages(Queue())
      ensures Landed(q0, Queue(), m0, pipe.mem[..], data[..from + chunk], pipe.refs)
      ensures 0 < chunk < size ==> lastOffset == PAGE_SIZE
      ensures chunk == 0 ==> (pipe.Full() || !pipe.Free(pick)) && pipe.head == old(pipe.head)
      ensures chunk > 0 ==> pipe.head == old(pipe.head) + if 0 < old(lastOffset) < PAGE_SIZE then 0 else 1
      ensures 0 < old(lastOffset) < PAGE_SIZE ==> chunk > 0
    {
      hide Grown, Queued, Addrs, Pages, Range, Pipe.Slots, Landed, Store, Load;
      ghost var q, m, r := Queue(), pipe.mem[..], pipe.refs;
      var ok, page, off := AppendPipe(size, pick);
      if !ok {
        assert data[..from + 0] == data[..from];
        return 0;
      }
      chunk := Min(size, PAGE_SIZE - off);
      Blit(data, from, pipe.mem, page * PAGE_SIZE + off, chunk);
      GrownTwice(q0, q, Queue());
      Balance(r0, r, pipe.refs, Pages(q0), Pages(q), Pages(Queue()));
      assert from == 0 ==> data[..from] == [];
      LandedMore(q0, q, Queue(), m0, m, pipe.mem[..], data[..from], data[from..from + chunk], r, pipe.refs, page, off);
      assert data[..from + chunk] == data[..from] + data[from..from + chunk];
    }

    /** copy_pipe_to_iter: the bytes that found room are at the end of the pipe, and nothing else changed. */
    method CopyPipeToIter(data: array<Byte>, bytes: nat, picks: nat -> nat) returns (n: nat)
      requires Valid() && bytes <= data.Length && data != pipe.mem && data as object != pipe.bufs
      modifies this, pipe`head, pipe`refs, pipe.bufs, pipe.mem
      ensures n <= Min(bytes, old(count)) && Added(n)
      ensures Landed(old(Queue()), Queue(), old(pipe.mem[..]), pipe.mem[..], data[..n], pipe.refs)
      ensures n < Min(bytes, old(count)) ==>
        || pipe.head - pipe.tail >= pipe.maxUsage
        || !pipe.Free(picks(pipe.head - old(pipe.head) + if 0 < old(lastOffset) < PAGE_SIZE then 1 else 0))
    {
      hide Grown, Queued, Addrs, Pages, Range, Pipe.Slots, Landed, Store, Load;
      ghost var q0, m0, r0 := Queue(), pipe.mem[..], pipe.refs;
      LandedNothing(q0, m0, r0);
      GrownNothing(q0);
      AlwaysSane();
      var want := Min(bytes, count);
      n := 0;
      if want == 0 || !Sanity() {
        return;
      }
      var j: nat := 0;
      while n < want
        invariant Valid() && pipe.tail == old(pipe.tail) && Older() == old(Older())
        invariant n <= want && count == old(count) - n && (0 < n < want ==> lastOffset == PAGE_SIZE)
        invariant Grown(q0, Queue()) && Queued(Queue()) == Queued(q0) + n
        invariant pipe.refs + Pages(q0) == r0 + Pages(Queue())
        invariant Landed(q0, Queue(), m0, pipe.mem[..], data[..n], pipe.refs)
        invariant n == 0 ==> j == 0 && pipe.head == old(pipe.head) && lastOffset == old(lastOffset)
        invariant 0 < n < want ==>
          j == pipe.head - old(pipe.head) + if 0 < old(lastOffset) < PAGE_SIZE then 1 else 0
        decreases want - n
      {
        var chunk := CopyChunk(data, n, want - n, picks(j), q0, m0, r0);
        if chunk == 0 {
          return;
        }
        n := n + chunk;
        j := j + 1;
      }
    }

    /** copy_page_to_iter_pipe: the page itself goes into the pipe, or extends the last buffer. */
    method CopyPageToIterPipe(page: nat, offset: nat, bytes: nat) returns (n: nat)
      requires Valid()
      modifies this, pipe`head, pipe`refs, pipe.bufs
      ensures n == 0 || n == Min(bytes, old(count))
      ensures Added(n) && Addrs(Queue()) == Addrs(old(Queue())) + Range(page * PAGE_SIZE + offset, n)
      ensures n == 0 < Min(bytes, old(count)) ==> pipe.head - pipe.tail >= pipe.maxUsage && Unmoved()
    {
      hide Grown, Queued, Addrs, Pages, Range, Pipe.Slots;
      AlwaysSane();
      GrownNothing(Queue());
      n := Min(bytes, count);
      if n == 0 || !Sanity() {
        NoRange(page * PAGE_SIZE + offset);
        return 0;
      }
      if offset != 0 && lastOffset + offset == 0 {
        LastQueued();
        var b := pipe.Get(pipe.head - 1);
        if b.page == page {
          GrowLast(n);
          return;
        }
      }
      if pipe.Full() {
        NoRange(page * PAGE_SIZE + offset);
        return 0;
      }
      PushNew(Buf(false, page, offset, n));
    }

    /** Valid but for the cursor, which the revert loop sets last; q0 and r0 are from before the loop. */
    ghost predicate Shrinking(q0: seq<Buf>, r0: multiset<nat>)
      reads this, pipe, pipe.bufs
    {
      && 0 < pipe.maxUsage <= pipe.bufs.Length && pipe.bufs as object != pipe.mem
      && pipe.tail <= startHead <= pipe.head <= pipe.tail + pipe.bufs.Length
      && (Queue() != [] ==> pipe.head - pipe.tail <= pipe.maxUsage)
      && QueueOk(Queue(), pipe.mem.Length) && Pages(Queue()) <= pipe.refs
      && pipe.refs + Pages(q0) == r0 + Pages(Queue())
    }

    /** pipe_buf_release of the last buffer. */
    method Pop(b: Buf, ghost q0: seq<Buf>, ghost r0: multiset<nat>)
      requires Shrinking(q0, r0) && startHead < pipe.head && b == pipe.Get(pipe.head - 1)
      modifies pipe`head, pipe`refs
      ensures Shrinking(q0, r0) && pipe.head == old(pipe.head) - 1 && Older() == old(Older())
      ensures old(Queue()) == Queue() + [b]
    {
      hide Queued, Addrs, Pages;
      ghost var rest := pipe.Slots(startHead, pipe.head - 1);
      LastBuf(Queue(), rest, b, 0);
      PutLast(pipe.refs, q0, r0, rest, b.page);
      pipe.refs := pipe.refs - multiset{b.page};
      pipe.head := pipe.head - 1;
      assert Queue() == rest;
    }

    /** The last buffer k bytes shorter, and the cursor at its end. */
    method Shorten(b: Buf, k: nat, ghost q0: seq<Buf>, ghost r0: multiset<nat>)
      requires Shrinking(q0, r0) && startHead < pipe.head && b == pipe.Get(pipe.head - 1) && k < b.len
      modifies `head, `lastOffset, pipe.bufs
      ensures Valid() && Older() == old(Older()) && pipe.refs + Pages(q0) == r0 + Pages(Queue())
      ensures Queue() == Dropped(old(Queue()), k)
    {
      hide Queued, Addrs, Pages, Dropped;
      ghost var rest := pipe.Slots(startHead, pipe.head - 1);
      ghost var b' := b.(len := b.len - k);
      LastBuf(Queue(), rest, b, k);
      assert Queue()[|Queue()| - 1] in Queue();
      pipe.SetLen(pipe.head - 1, b.len - k, startHead);
      lastOffset := LastOffset(b.(len := b.len - k));
      head := pipe.head - 1;
      LastBuf(Queue(), rest, b', 0);
      StillOk(old(Queue()), Queue(), b', pipe.mem.Length);
    }

    /**
     iov_iter_revert on a pipe: the last bytes leave the queue and their pages are
     released. The cursor is where the shortened queue ends.
     */
    method Revert(unroll: nat)
      requires Valid()
      modifies this, pipe`head, pipe`refs, pipe.bufs
      ensures Valid() && pipe.tail == old(pipe.tail) && Older() == old(Older())
      ensures unroll > MAX_RW_COUNT ==> Unmoved()
      ensures unroll <= MAX_RW_COUNT ==>
        && count == old(count) + unroll && Queue() == Dropped(old(Queue()), unroll)
        && pipe.refs + Pages(old(Queue())) == old(pipe.refs) + Pages(Queue())
    {
      hide Queued, Addrs, Pages, Dropped, Pipe.Slots;
      ghost var q0, r0 := Queue(), pipe.refs;
      if unroll == 0 {
        DroppedNothing(q0);
        return;
      }
      if unroll > MAX_RW_COUNT {
        return;
      }
      count := count + unroll;
      var h: nat, left: nat := pipe.head, unroll;
      while h > startHead
        invariant startHead <= h == pipe.head && Shrinking(q0, r0) && count == old(count) + unroll
        invariant pipe.tail == old(pipe.tail) && Older() == old(Older())
        invariant Dropped(Queue(), left) == Dropped(q0, unroll)
        decreases h
      {
        h := h - 1;
        var b := pipe.Get(h);
        if left < b.len {
          Shorten(b, left, q0, r0);
          return;
        }
        ghost var q := Queue();
        Pop(b, q0, r0);
        LastBuf(q, Queue(), b, left);
        left := left - b.len;
      }
      NoneLeft(left);
      assert Queue() == [];
      lastOffset := 0;
      head := h;
    }

    /** The pages of room there are: slots of the ring not in use, and the last page while it is not full. */
    function PagesFree(): nat
      requires pipe.tail <= pipe.head
      reads this, pipe
    {
      (if pipe.head - pipe.tail < pipe.maxUsage then pipe.maxUsage - (pipe.head - pipe.tail) else 0)
      + (if 0 < lastOffset < PAGE_SIZE then 1 else 0)
    }

    /**
     pipe_npages: how many pages can still be had, the rest of a partial anonymous one
     included, and the offset in that one.
     */
    method NPages() returns (npages: nat, off: nat)
      requires Valid()
      ensures if 0 < lastOffset < PAGE_SIZE then off == lastOffset else off == 0
      ensures npages == PagesFree()
    {
      var used := pipe.head - pipe.tail;
      npages := if pipe.maxUsage - used > 0 then pipe.maxUsage - used else 0;
      off := 0;
      if 0 < lastOffset < PAGE_SIZE {
        npages := npages + 1;
        off := lastOffset;
      }
    }

    /** One page of the loop below, with the caller's reference to it. */
    method GetOne(left: nat, pick: nat, start: nat, done: nat, ghost pages: seq<nat>, ghost q0: seq<Buf>,
                  ghost r0: multiset<nat>)
      returns (ok: bool, page: nat, chunk: nat)
      requires Valid() && 0 < left <= count && start < PAGE_SIZE && Supplied(q0, r0, pages, start, done)
      requires if pages == [] then done == 0 && start == (if 0 < lastOffset < PAGE_SIZE then lastOffset else 0)
               else start + done == |pages| * PAGE_SIZE && lastOffset == PAGE_SIZE
      modifies this, pipe`head, pipe`refs, pipe.bufs
      ensures !ok ==> Unmoved() && Supplied(q0, r0, pages, start, done) && (pipe.Full() || !pipe.Free(pick))
      ensures !ok ==> (pages == [] ==> start == 0) && pipe.head == old(pipe.head)
      ensures ok ==>
        && Valid() && pipe.tail == old(pipe.tail) && Older() == old(Older())
        && 0 < chunk <= left && count == old(count) - chunk
        && Supplied(q0, r0, pages + [page], start, done + chunk)
        && start + done + chunk == Min((|pages| + 1) * PAGE_SIZE, start + done + left)
        && (chunk < left ==> lastOffset == PAGE_SIZE)
        && pipe.head == old(pipe.head) + if pages == [] && start > 0 then 0 else 1
    {
      hide Grown, Queued, Addrs, Pages, Range, Pipe.Slots, Window;
      ghost var q, r := Queue(), pipe.refs;
      var off;
      ok, page, off := AppendPipe(left, pick);
      if !ok {
        return false, 0, 0;
      }
      chunk := Min(left, PAGE_SIZE - off);
      GrownTwice(q0, q, Queue());
      WindowMore(pages, page, start, done, off, chunk);
      BalanceMore(r0, r, pipe.refs, Pages(q0), Pages(q), Pages(Queue()), pages, page);
      GetRef(page);
    }

    /** get_page. */
    method GetRef(page: nat)
      requires Valid()
      modifies pipe`refs
      ensures Valid() && pipe.refs == old(pipe.refs) + multiset{page} && Queue() == old(Queue())
      ensures Older() == old(Older())
    {
      hide Pages, QueueOk, At, Pipe.Slots;
      ghost var q, o := Queue(), Older();
      label Before:
      pipe.refs := pipe.refs + multiset{page};
      SlotsKept@Before();
    }

    /** The queue is in the ring, whatever happens to the reference counts. */
    twostate lemma SlotsKept()
      requires 0 < pipe.bufs.Length && pipe.tail <= startHead <= pipe.head
      requires pipe.head == old(pipe.head) && pipe.tail == old(pipe.tail) && pipe.bufs[..] == old(pipe.bufs[..])
      ensures Queue() == old(Queue()) && Older() == old(Older())
    {
      var n := pipe.bufs.Length;
      forall k ensures pipe.bufs[k % n] == old(pipe.bufs[k % n]) {
        assert pipe.bufs[..][k % n] == old(pipe.bufs[..])[k % n];
      }
    }

    /** What the pages handed out so far have to do with the queue: r bytes from `start` on, and a reference each. */
    ghost predicate Supplied(q0: seq<Buf>, r0: multiset<nat>, pages: seq<nat>, start: nat, r: nat)
      requires Valid()
      reads this, pipe, pipe.bufs
    {
      && Grown(q0, Queue()) && Queued(Queue()) == Queued(q0) + r
      && (r > 0 ==> start + r <= |pages| * PAGE_SIZE) && Addrs(Queue()) == Addrs(q0) + Window(pages, start, r)
      && pipe.refs + Pages(q0) == r0 + Pages(Queue()) + multiset(pages)
    }

    lemma SuppliedNothing()
      requires Valid()
      ensures forall start :: Supplied(Queue(), pipe.refs, [], start, 0)
    {
      hide Pipe.Slots;
      forall start ensures Window([], start, 0) == [] {
      }
    }

    /**
     pipe_get_pages: fresh room for up to maxsize bytes, page by page, each page with a
     reference for the caller. The pages cover exactly the bytes that joined the queue.
     */
    method GetPages(maxsize: nat, maxpages: nat, arrayOk: bool, picks: nat -> nat)
      returns (r: int, start: nat, pages: seq<nat>)
      requires Valid() && 0 < maxsize <= count && 0 < maxpages
      modifies this, pipe`head, pipe`refs, pipe.bufs
      ensures r <= 0 ==> Unmoved() && pages == []
      ensures if old(PagesFree()) == 0 then r == EFAULT else if !arrayOk then r == ENOMEM else
        r > 0 || (r == EFAULT && !pipe.Free(picks(0)))
      ensures r > 0 ==>
        && Valid() && pipe.tail == old(pipe.tail) && Older() == old(Older())
        && start < PAGE_SIZE && r <= maxsize && |pages| == PagesFor(start + r) <= maxpages
        && count == old(count) - r && Supplied(old(Queue()), old(pipe.refs), pages, start, r)
      ensures 0 < r < maxsize ==>
        |pages| == maxpages || pipe.head - pipe.tail >= pipe.maxUsage || !pipe.Free(picks(|pages|))
    {
      hide Grown, Queued, Addrs, Pages, Range, Pipe.Slots, Window, Supplied, QueueOk, At;
      pages := [];
      var room;
      room, start := NPages();
      AlwaysSane();
      if !Sanity() || room == 0 {
        return EFAULT, start, pages;
      }
      var want := Min(PagesFor(maxsize + start), Min(room, maxpages));
      if !arrayOk {
        return ENOMEM, start, pages;
      }
      var left;
      pages, left := GetLoop(maxsize, want, start, picks);
      r := if pages == [] then EFAULT else maxsize - left;
    }

    /** The loop of pipe_get_pages: `want` pages, unless the pipe or the page allocator gives out. */
    method GetLoop(maxsize: nat, want: nat, start: nat, picks: nat -> nat) returns (pages: seq<nat>, left: nat)
      requires Valid() && 0 < maxsize <= count && 0 < want <= PagesFor(maxsize + start)
      requires start == if 0 < lastOffset < PAGE_SIZE then lastOffset else 0
      modifies this, pipe`head, pipe`refs, pipe.bufs
      ensures left <= maxsize && |pages| <= want
      ensures if pages == [] then left == maxsize && Unmoved()
              else left < maxsize && |pages| == PagesFor(start + (maxsize - left))
      ensures Valid() && pipe.tail == old(pipe.tail) && Older() == old(Older())
      ensures count == old(count) - (maxsize - left)
      ensures Supplied(old(Queue()), old(pipe.refs), pages, start, maxsize - left)
      ensures pipe.head == old(pipe.head) + |pages| - if pages != [] && start > 0 then 1 else 0
      ensures |pages| < want ==> pipe.Full() || !pipe.Free(picks(|pages|))
      ensures pages == [] ==> start == 0
      ensures |pages| == PagesFor(maxsize + start) ==> left == 0
    {
      hide Grown, Queued, Addrs, Pages, Range, Pipe.Slots, Window, Supplied, PagesFor, BufsOk, QueueOk, At;
      ghost var q0, r0 := Queue(), pipe.refs;
      pages := [];
      SuppliedNothing();
      left := maxsize;
      while |pages| < want
        invariant |pages| <= want && left <= maxsize && count == old(count) - (maxsize - left)
        invariant Valid() && pipe.tail == old(pipe.tail) && Older() == old(Older())
        invariant Supplied(q0, r0, pages, start, maxsize - left)
        invariant if pages == [] then left == maxsize && Unmoved() && lastOffset == old(lastOffset)
                  else left < maxsize && start + (maxsize - left) == Min(|pages| * PAGE_SIZE, start + maxsize)
        invariant pages != [] && left > 0 ==> lastOffset == PAGE_SIZE
        invariant pipe.head == old(pipe.head) + |pages| - if pages != [] && start > 0 then 1 else 0
        decreases want - |pages|
      {
        if pages != [] {
          PageCount(|pages|, start, maxsize - left, maxsize);
        }
        var ok, page, chunk := GetOne(left, picks(|pages|), start, maxsize - left, pages, q0, r0);
        if !ok {
          break;
        }
        pages := pages + [page];
        left := left - chunk;
      }
      if pages != [] {
        PageCount(|pages|, start, maxsize - left, maxsize);
      }
    }

    twostate predicate Unmoved()
      requires old(Valid())
      reads this, pipe, pipe.bufs
    {
      && Valid() && pipe.tail == old(pipe.tail) && pipe.refs == old(pipe.refs) && Older() == old(Older())
      && Queue() == old(Queue()) && count == old(count)
    }

    /** A last offset that is not 0 belongs to the last queued buffer. */
    lemma LastQueued()
      requires Valid() && lastOffset != 0
      ensures var q := Queue();
              && q != [] && q[|q| - 1] == pipe.Get(pipe.head - 1) && q[|q| - 1] in q
              && q == pipe.Slots(startHead, pipe.head - 1) + [q[|q| - 1]]
              && LastOffset(q[|q| - 1]) == lastOffset && q[|q| - 1].page in Pages(q)
    {
    }
  }

  lemma OneMoreOk(q: seq<Buf>, b: Buf, cap: nat)
    requires QueueOk(q, cap)
    requires b.len > 0 && (b.anon ==> b.offset == 0 && b.len <= PAGE_SIZE && (b.page + 1) * PAGE_SIZE <= cap)
    ensures QueueOk(q + [b], cap)
  {
  }

  lemma {:induction false} StillOk(q: seq<Buf>, q': seq<Buf>, b: Buf, cap: nat)
    requires q != [] && q' == q[..|q| - 1] + [b] && QueueOk(q[..|q| - 1], cap)
    requires b.len > 0 && (b.anon ==> b.offset == 0 && b.len <= PAGE_SIZE && (b.page + 1) * PAGE_SIZE <= cap)
    ensures QueueOk(q', cap)
  {
  }

  /** The last buffer b of q got n bytes longer. */
  lemma {:induction false} Extended(q: seq<Buf>, q': seq<Buf>, b: Buf, n: nat)
    requires q != [] && b == q[|q| - 1] && q' == q[..|q| - 1] + [b.(len := b.len + n)]
    ensures Grown(q, q') && Queued(q') == Queued(q) + n && Pages(q') == Pages(q)
    ensures Addrs(q') == Addrs(q) + Range(b.page * PAGE_SIZE + b.offset + b.len, n)
  {
    assert q'[..|q'| - 1] == q[..|q| - 1];
    RangeSplit(b.page * PAGE_SIZE + b.offset, b.len, n);
  }

  /** A new buffer at the end. */
  lemma {:induction false} Appended(q: seq<Buf>, q': seq<Buf>, b: Buf)
    requires q' == q + [b]
    ensures Grown(q, q') && Queued(q') == Queued(q) + b.len && Pages(q') == Pages(q) + multiset{b.page}
    ensures Addrs(q') == Addrs(q) + Range(b.page * PAGE_SIZE + b.offset, b.len)
  {
    assert q'[..|q'| - 1] == q;
  }

  /** r bytes from offset `start` of the first page on, across consecutive entries of the page list. */
  ghost function Window(pages: seq<nat>, start: nat, r: nat): (a: seq<nat>)
    requires r > 0 ==> start + r <= |pages| * PAGE_SIZE
    ensures |a| == r
  {
    seq(r, k requires 0 <= k < r => pages[(start + k) / PAGE_SIZE] * PAGE_SIZE + (start + k) % PAGE_SIZE)
  }

  lemma PageCount(n: nat, start: nat, r: nat, maxsize: nat)
    requires 0 < n <= PagesFor(maxsize + start) && start + r == Min(n * PAGE_SIZE, start + maxsize)
    ensures PagesFor(start + r) == n && (r < maxsize <==> n < PagesFor(maxsize + start))
  {
  }

  lemma {:induction false} WindowMore(pages: seq<nat>, page: nat, start: nat, done: nat, off: nat, chunk: nat)
    requires 0 < chunk && off + chunk <= PAGE_SIZE && start + done == |pages| * PAGE_SIZE + off
    requires done > 0 ==> off == 0
    ensures Window(pages + [page], start, done + chunk)
         == Window(pages, start, done) + Range(page * PAGE_SIZE + off, chunk)
  {
    var w := Window(pages + [page], start, done + chunk);
    forall k | 0 <= k < done + chunk
      ensures w[k] == (Window(pages, start, done) + Range(page * PAGE_SIZE + off, chunk))[k]
    {
      if k >= done {
        assert start + k == |pages| * PAGE_SIZE + (off + k - done);
        assert (start + k) / PAGE_SIZE == |pages|;
      }
    }
  }

  lemma BalanceMore(r0: multiset<nat>, r1: multiset<nat>, r2: multiset<nat>, p0: multiset<nat>, p1: multiset<nat>,
                    p2: multiset<nat>, pages: seq<nat>, page: nat)
    requires r1 + p0 == r0 + p1 + multiset(pages) && r2 + p1 == r1 + p2
    ensures r2 + multiset{page} + p0 == r0 + p2 + multiset(pages + [page])
  {
    var more := multiset(pages);
    assert r0 + p1 + more == r0 + more + p1;
    Balance(r0 + more, r1, r2, p0, p1, p2);
    assert r2 + multiset{page} + p0 == r2 + p0 + multiset{page} == r0 + p2 + (more + multiset{page});
  }

  /**
   The bytes added to the queue since it was q0 are the data, written there and nowhere
   else, in pages that are referenced.
   */
  ghost predicate Landed(q0: seq<Buf>, q: seq<Buf>, m0: seq<Byte>, m: seq<Byte>, data: seq<Byte>, refs: multiset<nat>) {
    Addrs(q0) <= Addrs(q) && LandedAt(Addrs(q)[|Addrs(q0)|..], m0, m, data, refs)
  }

  ghost predicate LandedAt(a: seq<nat>, m0: seq<Byte>, m: seq<Byte>, data: seq<Byte>, refs: multiset<nat>) {
    && |a| == |data| && Mapped(m0, a) && m == Store(m0, a, data) && Load(m, a) == data
    && forall k :: 0 <= k < |a| ==> a[k] / PAGE_SIZE in refs
  }

  lemma LandedNothing(q: seq<Buf>, m: seq<Byte>, refs: multiset<nat>)
    ensures Landed(q, q, m, m, [], refs)
  {
  }

  /** Another chunk, in a page of its own or as the first one. */
  lemma {:induction false} LandedMore(q0: seq<Buf>, q: seq<Buf>, q': seq<Buf>, m0: seq<Byte>, m: seq<Byte>,
                                      m': seq<Byte>,
                                      d: seq<Byte>, e: seq<Byte>, refs: multiset<nat>, refs': multiset<nat>, page: nat,
                                      off: nat)
    requires Landed(q0, q, m0, m, d, refs) && refs <= refs' && page in refs' && (d == [] || page !in refs)
    requires off + |e| <= PAGE_SIZE && (page + 1) * PAGE_SIZE <= |m0|
    requires Addrs(q') == Addrs(q) + Range(page * PAGE_SIZE + off, |e|)
    requires m' == m[..page * PAGE_SIZE + off] + e + m[page * PAGE_SIZE + off + |e|..]
    ensures Landed(q0, q', m0, m', d + e, refs')
  {
    hide Addrs, Range, LandedAt;
    LandedAtMore(Addrs(q)[|Addrs(q0)|..], m0, m, m', d, e, refs, refs', page, off);
    assert Addrs(q')[|Addrs(q0)|..] == Addrs(q)[|Addrs(q0)|..] + Range(page * PAGE_SIZE + off, |e|);
  }

  lemma {:induction false} LandedAtMore(a: seq<nat>, m0: seq<Byte>, m: seq<Byte>, m': seq<Byte>, d: seq<Byte>,
                                        e: seq<Byte>, refs: multiset<nat>, refs': multiset<nat>, page: nat, off: nat)
    requires LandedAt(a, m0, m, d, refs) && refs <= refs' && page in refs' && (d == [] || page !in refs)
    requires off + |e| <= PAGE_SIZE && (page + 1) * PAGE_SIZE <= |m0|
    requires m' == m[..page * PAGE_SIZE + off] + e + m[page * PAGE_SIZE + off + |e|..]
    ensures LandedAt(a + Range(page * PAGE_SIZE + off, |e|), m0, m', d + e, refs')
  {
    hide Store, Range, Load;
    var b := Range(page * PAGE_SIZE + off, |e|);
    InPageRange(page, off, |e|, |m|);
    StoreRange(m, page * PAGE_SIZE + off, e);
    StoreConcat(m0, a, b, d, e);
    StillLoaded(m, m', a, d, e, refs, page, off);
    LoadAfterStore(m, b, e);
    Loaded(m', a, b, d, e);
  }

  /** A chunk in a page that was not referenced leaves what was loaded before alone. */
  lemma {:induction false} StillLoaded(m: seq<Byte>, m': seq<Byte>, a: seq<nat>, d: seq<Byte>, e: seq<Byte>,
                                       refs: multiset<nat>, page: nat, off: nat)
    requires Mapped(m, a) && Load(m, a) == d && (forall k :: 0 <= k < |a| ==> a[k] / PAGE_SIZE in refs)
    requires off + |e| <= PAGE_SIZE && (page + 1) * PAGE_SIZE <= |m| && (d == [] || page !in refs)
    requires m' == m[..page * PAGE_SIZE + off] + e + m[page * PAGE_SIZE + off + |e|..]
    ensures Mapped(m', a) && Load(m', a) == d
  {
    forall k | 0 <= k < |a| ensures m'[a[k]] == d[k] {
      assert m[a[k]] == Load(m, a)[k];
      Elsewhere(m, m', page * PAGE_SIZE + off, e, page, off, a[k]);
    }
  }

  lemma InPageRange(page: nat, off: nat, n: nat, cap: nat)
    requires off + n <= PAGE_SIZE && (page + 1) * PAGE_SIZE <= cap
    ensures var r := Range(page * PAGE_SIZE + off, n);
            Distinct(r) && forall k :: 0 <= k < n ==> r[k] / PAGE_SIZE == page && r[k] < cap
  {
    var r := Range(page * PAGE_SIZE + off, n);
    forall k | 0 <= k < n ensures r[k] / PAGE_SIZE == page {
      assert r[k] == page * PAGE_SIZE + off + k;
    }
  }

  lemma Balance(r0: multiset<nat>, r1: multiset<nat>, r2: multiset<nat>, p0: multiset<nat>, p1: multiset<nat>,
                p2: multiset<nat>)
    requires r1 + p0 == r0 + p1 && r2 + p1 == r1 + p2
    ensures r2 + p0 == r0 + p2
  {
    forall x ensures (r2 + p0)[x] == (r0 + p2)[x] {
      assert (r1 + p0)[x] == (r0 + p1)[x] && (r2 + p1)[x] == (r1 + p2)[x];
    }
  }

  lemma Elsewhere(m: seq<Byte>, m': seq<Byte>, at: nat, e: seq<Byte>, page: nat, off: nat, x: nat)
    requires at == page * PAGE_SIZE + off && off + |e| <= PAGE_SIZE && at + |e| <= |m|
    requires m' == m[..at] + e + m[at + |e|..]
    requires x < |m| && x / PAGE_SIZE != page
    ensures m'[x] == m[x]
  {
    assert x < at || x >= at + |e|;
  }

  lemma Loaded(m: seq<Byte>, a: seq<nat>, b: seq<nat>, d: seq<Byte>, e: seq<Byte>)
    requires Mapped(m, a) && Mapped(m, b) && Load(m, a) == d && Load(m, b) == e
    ensures Mapped(m, a + b) && Load(m, a + b) == d + e
  {
    assert Load(m, a + b) == Load(m, a) + Load(m, b);
  }

  /** Buffers as the iterator makes them, in memory of cap bytes. */
  ghost predicate QueueOk(q: seq<Buf>, cap: nat) {
    BufsOk(q) && forall b :: b in q && b.anon ==> (b.page + 1) * PAGE_SIZE <= cap
  }

  /** The iterator points at the end of the last buffer, or right after what was there before. */
  ghost predicate At(q: seq<Buf>, pipeHead: nat, head: nat, lastOffset: int) {
    if q == [] then lastOffset == 0 && head == pipeHead
    else head == pipeHead - 1 && lastOffset == LastOffset(q[|q| - 1])
  }

  /** What is done with a pipe iterator between two points. */
  datatype Op =
    | Bytes(data: seq<Byte>, picks: nat -> nat)
    | WholePage(page: nat, offset: nat, n: nat)
    | FreshPages(maxsize: nat, maxpages: nat, arrayOk: bool, picks: nat -> nat)
    | Back(n: nat)

  /**
   The account of a run since the queue was q0, with `had` bytes of count and references
   r0: count plus queue is what it was, the queue has only grown, and every reference is
   the pipe's or one of those handed out.
   */
  ghost predicate Accounted(it: PipeIter, q0: seq<Buf>, r0: multiset<nat>, out: multiset<nat>, had: nat)
    reads it, it.pipe, it.pipe.bufs
  {
    && it.Valid() && Grown(q0, it.Queue())
    && it.count <= had && it.count + Queued(it.Queue()) == had + Queued(q0)
    && it.pipe.refs + Pages(q0) == r0 + out + Pages(it.Queue())
  }

  /** One operation; a revert goes back over at most what the run has added, or is refused as too long. */
  method Perform(it: PipeIter, op: Op, had: nat, ghost q0: seq<Buf>, ghost r0: multiset<nat>, ghost out: multiset<nat>)
    returns (ghost out': multiset<nat>)
    requires Accounted(it, q0, r0, out, had) && BufsOk(q0)
    modifies it, it.pipe`head, it.pipe`refs, it.pipe.bufs, it.pipe.mem
    ensures Accounted(it, q0, r0, out', had) && it.pipe.tail == old(it.pipe.tail) && it.Older() == old(it.Older())
  {
    hide Queued, Addrs, Pages, Grown, Dropped, Pipe.Slots, Landed, QueueOk, BufsOk, Window;
    ghost var q, r, more := it.Queue(), it.pipe.refs, multiset{};
    GrownNothing(q);
    match op {
      case Bytes(data, picks) =>
        var buf := new Byte[|data|](i requires 0 <= i < |data| => data[i]);
        var n := it.CopyPipeToIter(buf, |data|, picks);
      case WholePage(page, offset, n) =>
        var m := it.CopyPageToIterPipe(page, offset, n);
      case FreshPages(maxsize, maxpages, arrayOk, picks) =>
        if 0 < maxsize <= it.count && 0 < maxpages {
          var got, start, pages := it.GetPages(maxsize, maxpages, arrayOk, picks);
          more := multiset(pages);
        }
      case Back(n) =>
        out' := out;
        if n <= had - it.count || n > MAX_RW_COUNT {
          DropKeepsGrowth(q0, q, n);
          it.Revert(n);
          Balance(r0 + out, r, it.pipe.refs, Pages(q0), Pages(q), Pages(it.Queue()));
        }
        return;
    }
    out' := out + more;
    GrownTwice(q0, q, it.Queue());
    MoreOut(r0, r, it.pipe.refs, Pages(q0), Pages(q), Pages(it.Queue()), out, more);
  }

  lemma MoreOut(r0: multiset<nat>, r1: multiset<nat>, r2: multiset<nat>, p0: multiset<nat>, p1: multiset<nat>,
                p2: multiset<nat>, out: multiset<nat>, more: multiset<nat>)
    requires r1 + p0 == r0 + out + p1 && r2 + p1 == r1 + p2 + more
    ensures r2 + p0 == r0 + (out + more) + p2
  {
    forall x ensures (r2 + p0)[x] == (r0 + (out + more) + p2)[x] {
      assert (r1 + p0)[x] == (r0 + out + p1)[x] && (r2 + p1)[x] == (r1 + p2 + more)[x];
    }
  }

  /** A queue that grew and then lost no more than it had gained has still only grown. */
  lemma {:induction false} DropKeepsGrowth(q0: seq<Buf>, q: seq<Buf>, k: nat)
    requires Grown(q0, q) && BufsOk(q0)
    ensures Queued(q0) <= Queued(q)
    ensures k <= Queued(q) - Queued(q0) ==>
      Grown(q0, Dropped(q, k)) && Queued(Dropped(q, k)) == Queued(q) - k
    decreases |q|
  {
    hide Addrs, Range, Queued, Dropped, Pages;
    GrownAddrs(q0, q);
    if q == [] {
      NoneLeft(k);
    } else if k <= Queued(q) - Queued(q0) {
      var b, rest := q[|q| - 1], q[..|q| - 1];
      assert q == rest + [b];
      LastBuf(q, rest, b, k);
      if |q0| < |q| {
        if k >= b.len {
          DropKeepsGrowth(q0, rest, k - b.len);
        } else {
          LastBuf(rest + [b.(len := b.len - k)], rest, b.(len := b.len - k), 0);
        }
      } else {
        var b0 := q0[|q0| - 1];
        assert b0 in q0 && rest == q0[..|q0| - 1] && q0 == rest + [b0];
        LastBuf(q0, rest, b0, 0);
        LastBuf(rest + [b.(len := b.len - k)], rest, b.(len := b.len - k), 0);
      }
    }
  }

  /**
   Any mix of copies, page extractions and reverts keeps the object in order, and with it
   the sanity check, the limit on the pipe's length, and count plus queue.
   */
  method Run(it: PipeIter, ops: seq<Op>) returns (ghost out: multiset<nat>)
    requires it.Valid()
    modifies it, it.pipe`head, it.pipe`refs, it.pipe.bufs, it.pipe.mem
    ensures Accounted(it, old(it.Queue()), old(it.pipe.refs), out, old(it.count))
    ensures it.Sanity() && it.pipe.tail == old(it.pipe.tail) && it.Older() == old(it.Older())
    ensures it.Queue() != [] ==> it.pipe.head - it.pipe.tail <= it.pipe.maxUsage
  {
    hide Queued, Addrs, Pages, Grown, Dropped, Pipe.Slots, BufsOk;
    ghost var q0, r0 := it.Queue(), it.pipe.refs;
    var had := it.count;
    out := multiset{};
    GrownNothing(q0);
    assert r0 + multiset{} == r0;
    var k := 0;
    while k < |ops|
      invariant Accounted(it, q0, r0, out, had) && it.pipe.tail == old(it.pipe.tail) && it.Older() == old(it.Older())
    {
      out := Perform(it, ops[k], had, q0, r0, out);
      k := k + 1;
    }
    it.AlwaysSane();
  }

  /**
   After any such run, one revert of what it has added leaves the pipe and the iterator
   as they were, the cursor and the buffer lengths included; only the references that
   were handed out remain.
   */
  method RunAndRevert(it: PipeIter, ops: seq<Op>) returns (ghost out: multiset<nat>)
    requires it.Valid() && it.count <= MAX_RW_COUNT
    modifies it, it.pipe`head, it.pipe`refs, it.pipe.bufs, it.pipe.mem
    ensures it.Valid() && it.Queue() == old(it.Queue()) && it.Older() == old(it.Older()) && it.count == old(it.count)
    ensures it.pipe.head == old(it.pipe.head) && it.head == old(it.head) && it.lastOffset == old(it.lastOffset)
    ensures it.pipe.refs == old(it.pipe.refs) + out
  {
    hide Queued, Addrs, Pages, Grown, Dropped, Pipe.Slots, QueueOk, BufsOk;
    ghost var q0, r0 := it.Queue(), it.pipe.refs;
    var had := it.count;
    out := Run(it, ops);
    ghost var q, r := it.Queue(), it.pipe.refs;
    DropBack(q0, q, it.pipe.mem.Length);
    it.Revert(had - it.count);
    Balance(r0 + out, r, it.pipe.refs, Pages(q0), Pages(q), Pages(q0));
    Cancel(it.pipe.refs, r0 + out, Pages(q0));
  }

  lemma DropBack(q: seq<Buf>, q': seq<Buf>, cap: nat)
    requires Grown(q, q') && QueueOk(q, cap)
    ensures Queued(q) <= Queued(q') && Dropped(q', Queued(q') - Queued(q)) == q
  {
    DropUndoesGrowth(q, q');
  }
}
