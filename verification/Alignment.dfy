/** Alignment of what an iterator has still to deliver, by flat position. */
module Alignment {
  import opened Params
  import opened Memory
  import opened Cursor
  import opened IovIter
  import opened UserPages
  import opened Bvecs

  /** Where the bytes of segment s begin and end among the flat positions p..p + size. */
  ghost function Lo(v: seq<Segment>, s: nat, p: nat): int
    requires s < |v|
  {
    if Start(v, s) < p then p else Start(v, s)
  }

  ghost function Hi(v: seq<Segment>, s: nat, p: nat, size: nat): int
    requires s < |v|
  {
    Min(Start(v, s) + v[s].len, p + size)
  }

  /** The stretch of segment s among these positions starts and ends at multiples of a. */
  ghost predicate StretchAligned(v: seq<Segment>, s: nat, p: nat, size: nat, a: nat)
    requires s < |v| && a > 0
  {
    var lo, hi := Lo(v, s, p), Hi(v, s, p, size);
    lo < hi ==> (v[s].base + (lo - Start(v, s))) % a == 0 && (hi - lo) % a == 0
  }

  /** iov_iter_alignment(i) & (a - 1) == 0: every non-empty stretch is aligned. */
  ghost predicate AlignedAt(v: seq<Segment>, p: nat, size: nat, a: nat)
    requires a > 0
  {
    forall s :: 0 <= s < |v| ==> StretchAligned(v, s, p, size, a)
  }

  lemma {:induction false} ModSub(x: int, y: int, a: nat)
    requires a > 0 && x % a == 0 && y % a == 0
    ensures (x - y) % a == 0 && (x + y) % a == 0
  {
    var i, j := x / a, y / a;
    assert x == i * a && y == j * a;
    ModMul(i - j, a);
    ModMul(i + j, a);
    assert x - y == (i - j) * a && x + y == (i + j) * a;
  }

  lemma {:induction false} ModMul(k: int, a: nat)
    requires a > 0
    ensures (k * a) % a == 0
  {
    var q, r := (k * a) / a, (k * a) % a;
    assert k * a == q * a + r;
    if q < k {
      MulStep(q, k, a);
    } else if k < q {
      MulStep(k, q, a);
    }
  }

  /** Consuming r bytes of one stretch, a multiple of a, keeps the rest aligned. */
  lemma {:induction false} AlignedAfter(v: seq<Segment>, p: nat, size: nat, a: nat, k: nat, r: nat)
    requires a > 0 && AlignedAt(v, p, size, a) && k < |v| && r <= size && r % a == 0
    requires Start(v, k) <= p && p + r <= Start(v, k) + v[k].len
    ensures AlignedAt(v, p + r, size - r, a)
  {
    var p', size' := p + r, size - r;
    forall s | 0 <= s < |v| ensures StretchAligned(v, s, p', size', a) {
      assert StretchAligned(v, s, p, size, a);
      if s < k {
        StartMono(v, s + 1, k);
      } else if k < s {
        StartMono(v, k + 1, s);
      } else if p + r < Hi(v, k, p, size) {
        ModSub(v[k].base + (p - Start(v, k)), r, a);
        ModSub(Hi(v, k, p, size) - p, r, a);
      }
    }
  }

  /** Segments that end before the positions begin, or begin after they end, do not matter. */
  lemma {:induction false} OutsideAligned(v: seq<Segment>, s: nat, p: nat, size: nat, a: nat)
    requires s < |v| && a > 0 && (Start(v, s) + v[s].len <= p || p + size <= Start(v, s))
    ensures StretchAligned(v, s, p, size, a)
  {
  }

  /** Where the next byte would be is a multiple of a; past the last segment nothing is asked. */
  ghost predicate NextAligned(v: seq<Segment>, s: nat, off: nat, a: nat)
    requires s <= |v| && a > 0
    decreases |v| - s
  {
    if s == |v| then true
    else if v[s].len == off then NextAligned(v, s + 1, 0, a)
    else (v[s].base + off) % a == 0
  }

  /**
   iov_iter_alignment_iovec, for one mask. An iterator with nothing left to deliver still
   answers for the address it stands at.
   */
  method IsAligned(it: Iter, a: nat) returns (ok: bool)
    requires it.Valid() && !it.kind.UbufIter? && a > 0
    ensures it.count > 0 ==> (ok <==> AlignedAt(it.vec, Pos(it.vec, it.Where()), it.count, a))
    ensures it.count == 0 ==> (ok <==> NextAligned(it.vec, it.seg, it.iovOffset, a))
  {
    if it.count == 0 {
      ok := IsNextAligned(it, a);
    } else {
      ok := AreStretchesAligned(it, a);
    }
  }

  /** The loop with a count of 0: it stops at the first segment that has bytes left. */
  method IsNextAligned(it: Iter, a: nat) returns (ok: bool)
    requires it.Valid() && !it.kind.UbufIter? && a > 0
    ensures ok <==> NextAligned(it.vec, it.seg, it.iovOffset, a)
  {
    var k: nat, skip: nat := it.seg, it.iovOffset;
    while k < |it.vec|
      invariant k <= |it.vec|
      invariant NextAligned(it.vec, k, skip, a) <==> NextAligned(it.vec, it.seg, it.iovOffset, a)
    {
      if it.vec[k].len != skip {
        return (it.vec[k].base + skip) % a == 0;
      }
      k := k + 1;
      skip := 0;
    }
    ok := true;
  }

  /** The loop with bytes left to deliver. */
  method AreStretchesAligned(it: Iter, a: nat) returns (ok: bool)
    requires it.Valid() && !it.kind.UbufIter? && a > 0 && it.count > 0
    ensures ok <==> AlignedAt(it.vec, Pos(it.vec, it.Where()), it.count, a)
  {
    hide StretchAligned;
    ghost var v, p, n := it.vec, Pos(it.vec, it.Where()), it.count;
    var k: nat, skip: nat, size: nat := it.seg, it.iovOffset, it.count;
    ok := true;
    forall s | 0 <= s < k ensures StretchAligned(v, s, p, n, a) {
      StartMono(v, s + 1, k);
      OutsideAligned(v, s, p, n, a);
    }
    while true
      invariant it.seg <= k && 0 < size <= n && Wf(v, Cur(k, 0, skip, size))
      invariant Start(v, k) + skip == p + (n - size) && (if it.seg < k then skip == 0 else size == n)
      invariant ok <==> forall s :: 0 <= s < k ==> StretchAligned(v, s, p, n, a)
      decreases |v| - k
    {
      FirstByte(v, k, skip, size);
      var len := Min(it.vec[k].len - skip, size);
      if len != 0 {
        ok := ok && (it.vec[k].base + skip) % a == 0 && len % a == 0;
        size := size - len;
      }
      StretchIs(v, k, skip, p, n, a, len);
      if size == 0 {
        forall s | k < s < |v| ensures StretchAligned(v, s, p, n, a) {
          StartMono(v, k + 1, s);
          OutsideAligned(v, s, p, n, a);
        }
        return;
      }
      StartMono(v, k + 1, |v|);
      k := k + 1;
      skip := 0;
    }
  }

  lemma {:induction false} StretchIs(v: seq<Segment>, k: nat, skip: nat, p: nat, n: nat, a: nat, len: nat)
    requires k < |v| && a > 0 && skip <= v[k].len && p <= Start(v, k) + skip < p + n
    requires skip > 0 ==> Start(v, k) + skip == p
    requires len == Min(v[k].len - skip, p + n - (Start(v, k) + skip))
    requires Start(v, k) < p ==> Start(v, k) + skip == p
    ensures StretchAligned(v, k, p, n, a) <==> (len == 0 || ((v[k].base + skip) % a == 0 && len % a == 0))
  {
  }

  /** An extraction asks for at least one byte and stops at a page boundary, if not at its end. */
  lemma WindowRound(addr: nat, size: nat, maxpages: nat, gup: int)
    requires 0 < size && 0 < maxpages && 0 < gup
    ensures var r := WindowBytes(addr, size, maxpages, gup);
            0 < r <= size && (r < size ==> (addr % PAGE_SIZE + r) % PAGE_SIZE == 0)
  {
  }

  /** The window's end keeps the alignment, and the loop stops only at a piece end. */
  lemma {:induction false} WindowAligned(v: seq<Segment>, c: Cur, a: nat, maxpages: nat, gup: int, size: nat,
                                         t: nat)
    requires Wf(v, c) && c.count > 0 && a > 0 && PAGE_SIZE % a == 0 && AlignedAt(v, Pos(v, c), c.count, a)
    requires size == Min(MAX_RW_COUNT, Chunk(v, c.seg, c.off, c.count)) && gup > 0 && maxpages > 0
    requires var addr := RestOf(v, c)[0];
             && 0 < t <= WindowBytes(addr, size, maxpages, gup)
             && (t < WindowBytes(addr, size, maxpages, gup) ==> (addr % PAGE_SIZE + t) % PAGE_SIZE == 0)
    ensures RestOf(v, c)[0] % a == 0
    ensures t <= c.count && t % a == 0 && AlignedAt(v, Pos(v, c) + t, c.count - t, a)
  {
    hide RestOf, Chunk, AlignedAt, WindowBytes;
    SameRest(v, c, Cur(c.seg, 0, c.off, c.count));
    var k := ChunkSegment(v, c.seg, c.off, c.count);
    var addr, chunk := RestOf(v, c)[0], Chunk(v, c.seg, c.off, c.count);
    WindowRound(addr, size, maxpages, gup);
    StretchOf(v, Pos(v, c), c.count, a, k);
    PageMultiple(addr, a);
    assert t % a == 0 by {
      if (addr % PAGE_SIZE + t) % PAGE_SIZE == 0 {
        PageMultiple(addr % PAGE_SIZE + t, a);
        ModSub(addr % PAGE_SIZE + t, addr % PAGE_SIZE, a);
      } else if t != chunk {
        assert t == MAX_RW_COUNT;
        PageMultiple(MAX_RW_COUNT, a);
      }
    }
    AlignedAfter(v, Pos(v, c), c.count, a, k, t);
  }

  lemma StretchOf(v: seq<Segment>, p: nat, size: nat, a: nat, k: nat)
    requires a > 0 && AlignedAt(v, p, size, a) && k < |v| && size > 0 && Start(v, k) <= p < Start(v, k) + v[k].len
    ensures (v[k].base + (p - Start(v, k))) % a == 0 && Min(Start(v, k) + v[k].len - p, size) % a == 0
  {
    hide Start;
    assert StretchAligned(v, k, p, size, a);
  }

  /** Alignments divide the page size, so they see only the offset in the page. */
  lemma {:induction false} PageMultiple(x: nat, a: nat)
    requires a > 0 && PAGE_SIZE % a == 0
    ensures x % a == 0 ==> (x % PAGE_SIZE) % a == 0
    ensures x % PAGE_SIZE == 0 ==> x % a == 0
  {
    var m := PAGE_SIZE / a;
    assert PAGE_SIZE == m * a;
    var q := x / PAGE_SIZE;
    assert x == q * PAGE_SIZE + x % PAGE_SIZE;
    assert q * PAGE_SIZE == (q * m) * a;
    ModMul(q * m, a);
    if x % a == 0 {
      ModSub(x, q * PAGE_SIZE, a);
    }
  }

  /** What is a multiple of a stays one when whole pages are added. */
  lemma {:induction false} WholePagesApart(x: int, y: int, k: int, a: nat)
    requires a > 0 && PAGE_SIZE % a == 0 && x == y + k * PAGE_SIZE && y % a == 0
    ensures x % a == 0
  {
    var m := PAGE_SIZE / a;
    assert PAGE_SIZE == m * a;
    assert k * PAGE_SIZE == (k * m) * a;
    ModMul(k * m, a);
    ModSub(y, k * PAGE_SIZE, a);
  }

  /**
   What the limits of a queue mean for the addresses: every entry lies in one window between
   two segment boundaries, and with a virt boundary in the page, memory is left and entered on
   multiples of it between entries.
   */
  lemma {:induction false} LimitsMean(q: Queue, room: Room, vs: seq<Bvec>, size: nat, i: nat)
    requires ValidQueue(q) && WithinLimits(q, room, vs, size) && i < |vs|
    ensures vs[i].len <= q.maxSegmentSize && |vs| <= q.maxSegments && size / 512 <= room.maxSectors
    ensures exists k: nat ::
      k * q.segBoundary <= vs[i].page * PAGE_SIZE + vs[i].off
      && vs[i].page * PAGE_SIZE + vs[i].off + vs[i].len <= k * q.segBoundary + q.segBoundary
    ensures i + 1 < |vs| && q.virtBoundary > 1 && PAGE_SIZE % q.virtBoundary == 0 ==>
      && (vs[i].page * PAGE_SIZE + vs[i].off + vs[i].len) % q.virtBoundary == 0
      && (vs[i + 1].page * PAGE_SIZE + vs[i + 1].off) % q.virtBoundary == 0
  {
    hide TotalLen;
    var b := vs[i];
    assert EntryFits(q, b);
    InZone(b.page * PAGE_SIZE + b.off, b.page * PAGE_SIZE + b.off + b.len - 1, q.segBoundary);
    if i + 1 < |vs| && q.virtBoundary > 1 && PAGE_SIZE % q.virtBoundary == 0 {
      assert !Gap(q, vs[i], vs[i + 1].off);
      WholePagesApart(b.page * PAGE_SIZE + b.off + b.len, b.off + b.len, b.page, q.virtBoundary);
      WholePagesApart(vs[i + 1].page * PAGE_SIZE + vs[i + 1].off, vs[i + 1].off, vs[i + 1].page, q.virtBoundary);
    }
  }

  lemma InZone(x: nat, y: nat, z: nat)
    requires z > 0 && x <= y && x / z == y / z
    ensures (x / z) * z <= x && y < (x / z) * z + z
  {
    assert x == (x / z) * z + x % z && y == (y / z) * z + y % z;
  }
}
