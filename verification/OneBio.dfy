/** When the limits have room for everything that an iterator delivers in one bio. */
module OneBio {
  import opened Params
  import opened Memory
  import opened Cursor
  import opened IovIter
  import opened UserPages
  import opened Bvecs
  import opened Bios
  import opened PinnedBio
  import opened Alignment
  import opened DirectMap
  import opened Seams

  /**
   iov_iter_gap_alignment(i) & (a - 1) == 0: wherever a segment begins behind another one,
   this start and the previous end are multiples of a.
   */
  ghost predicate GapAligned(v: seq<Segment>, p: nat, size: nat, a: nat)
    requires a > 0
  {
    forall x: nat :: p < x < p + size && x < |Flat(v)| && Begins(v, x) ==>
      Flat(v)[x] % a == 0 && (Flat(v)[x - 1] + 1) % a == 0
  }

  /**
   One bio may hold all that the cursor has still to deliver: its sectors, an entry for every
   page, and no gap that the virt boundary forbids, as blk_rq_map_user_iov tests before it maps.
   */
  ghost predicate Roomy(l: Limits, v: seq<Segment>, c: Cur)
    requires Wf(v, c) && ValidLimits(l)
  {
    && c.count / 512 <= l.maxSectors && NPages(v, c.seg, c.off, c.count) <= Min(l.queue.maxSegments, BIO_MAX_VECS)
    && (l.queue.virtBoundary > 1 ==>
          PAGE_SIZE % l.queue.virtBoundary == 0 && GapAligned(v, Pos(v, c), c.count, l.queue.virtBoundary))
  }

  /** The pages counted hold the bytes. */
  lemma {:induction false} PagesHold(v: seq<Segment>, s: nat, off: nat, size: nat)
    requires Wf(v, Cur(s, 0, off, size))
    ensures size <= NPages(v, s, off, size) * PAGE_SIZE
    decreases |v| - s
  {
    if size > 0 {
      FirstByte(v, s, off, size);
      if v[s].len == off {
        PagesHold(v, s + 1, 0, size);
      } else {
        NPagesHere(v, s, off, size);
        PagesHold(v, s + 1, 0, size - Min(v[s].len - off, size));
      }
    }
  }

  /** Inside a segment the next address is the next byte. */
  lemma {:induction false} NextInside(v: seq<Segment>, c: Cur)
    requires Wf(v, c) && c.count > 0 && 0 < Pos(v, c) && !Begins(v, Pos(v, c))
    ensures Pos(v, c) < |Flat(v)| && Flat(v)[Pos(v, c)] == Flat(v)[Pos(v, c) - 1] + 1 == RestOf(v, c)[0]
  {
    var x := Pos(v, c);
    SameRest(v, c, Cur(c.seg, 0, c.off, c.count));
    var k := ChunkSegment(v, c.seg, c.off, c.count);
    assert Start(v, k) < x;
    FlatSlice(v, k, x - 1 - Start(v, k), 2);
    hide Flat;
    var two := Flat(v)[x - 1..x + 1];
    assert two[0] == Flat(v)[x - 1] && two[1] == Flat(v)[x];
    assert RestOf(v, c)[0] == Flat(v)[x];
  }

  /** Where a bio stops, its last entry ends and the next piece begins on the virt boundary. */
  lemma {:induction false} NoGapThere(q: Queue, v: seq<Segment>, frameOf: nat -> nat, c: Cur, c': Cur, vs: seq<Bvec>)
    requires ValidQueue(q) && Wf(v, c) && Wf(v, c') && vs != [] && vs[|vs| - 1].len > 0
    requires 0 < c'.count < c.count && Pos(v, c') == Pos(v, c) + (c.count - c'.count)
    requires Phys(vs) == Translate(frameOf, RestOf(v, c)[..c.count - c'.count])
    requires TotalLen(vs) == c.count - c'.count && CutAt(v, c', true)
    requires q.virtBoundary > 1 ==> PAGE_SIZE % q.virtBoundary == 0 && GapAligned(v, Pos(v, c), c.count, q.virtBoundary)
    ensures !Gap(q, vs[|vs| - 1], RestOf(v, c')[0] % PAGE_SIZE)
  {
    hide Flat, Phys, Translate, TotalLen, FlatTo, Start;
    var n, x, a := c.count - c'.count, Pos(v, c'), q.virtBoundary;
    var b, y, u := vs[|vs| - 1], RestOf(v, c')[0], RestOf(v, c)[n - 1];
    LastByteOf(vs);
    assert u == Flat(v)[x - 1] && y == Flat(v)[x];
    assert b.page * PAGE_SIZE + b.off + b.len - 1 == frameOf(u / PAGE_SIZE) * PAGE_SIZE + u % PAGE_SIZE by {
      assert RestOf(v, c)[..n][n - 1] == u;
    }
    if a > 1 {
      if !Begins(v, x) {
        NextInside(v, c');
      }
      PageMultiple(y, a);
      PageMultiple(u + 1, a);
      WholePagesApart(b.off + b.len, u + 1, frameOf(u / PAGE_SIZE) - b.page - u / PAGE_SIZE, a);
    }
  }

  /** The next address of an aligned iterator can be reached by the device. */
  lemma {:induction false} NextReachable(v: seq<Segment>, c: Cur, a: nat)
    requires Wf(v, c) && c.count > 0 && a > 0 && PAGE_SIZE % a == 0 && AlignedAt(v, Pos(v, c), c.count, a)
    ensures RestOf(v, c)[0] % PAGE_SIZE % a == 0
  {
    hide RestOf, Chunk, AlignedAt;
    SameRest(v, c, Cur(c.seg, 0, c.off, c.count));
    var k := ChunkSegment(v, c.seg, c.off, c.count);
    StretchOf(v, Pos(v, c), c.count, a, k);
    PageMultiple(RestOf(v, c)[0], a);
  }

  /** Where there is room for everything, no bio refuses its next piece. */
  lemma {:induction false} NothingRefused(bio: Bio, l: Limits, v: seq<Segment>, frameOf: nat -> nat, c: Cur, c': Cur,
                                          pols: nat -> Policy)
    requires bio.Valid() && !bio.cloned && ValidLimits(l) && Obeys(bio, l) && Wf(v, c) && Wf(v, c')
    requires Reached(bio, v, frameOf, c, c') && Roomy(l, v, c)
    requires 0 < c'.count < c.count && AlignedAt(v, Pos(v, c'), c'.count, l.dmaAlign) && CutAt(v, c', true)
    requires bio.vcnt < NPages(v, c.seg, c.off, c.count) == bio.maxVecs
    ensures !RefusesNext(bio, l, frameOf, v, c', pols)
  {
    hide RestOf, AlignedAt, NPages, CutAt, Phys, Translate, TotalLen, Gap, GapAligned, Decode, TableOk, Fits;
    NextReachable(v, c', l.dmaAlign);
    PagesHold(v, c.seg, c.off, c.count);
    LastPositive(bio);
    NoGapThere(l.queue, v, frameOf, c, c', bio.Vecs());
    var x := RestOf(v, c')[0];
    forall n, k: nat | 0 < n <= c'.count ensures !Refuses(bio, l, PieceAt(frameOf(x / PAGE_SIZE), x, n), pols(k)) {
      Takes(bio, l, PieceAt(frameOf(x / PAGE_SIZE), x, n), pols(k), c.count);
    }
  }

  lemma LastPositive(bio: Bio)
    requires bio.Valid() && bio.size > 0
    ensures bio.Vecs() != [] && bio.Vecs()[|bio.Vecs()| - 1].len > 0 && bio.size == TotalLen(bio.Vecs())
  {
  }

  lemma {:induction false} Takes(bio: Bio, l: Limits, p: Piece, pol: Policy, total: nat)
    requires bio.Valid() && !bio.cloned && ValidLimits(l) && Obeys(bio, l) && InPage(p)
    requires bio.size + p.len <= total <= UINT_MAX && total / 512 <= l.maxSectors
    requires bio.vcnt < bio.maxVecs <= l.queue.maxSegments
    requires bio.Vecs() != [] && !Gap(l.queue, bio.Vecs()[bio.vcnt - 1], p.off)
    ensures !Refuses(bio, l, p, pol)
  {
    hide Phys, Walk, TotalLen, Gap, WithinLimits, Decode, TableOk;
    LongerFitsIff(l.queue, RoomOf(bio, l), bio.Vecs(), bio.size, p);
  }
}
