/** The bio_vec table as a list: merging, hardware limits, and what the list describes. */
module Bvecs {
  import opened Params
  import opened Memory

  /** `len` bytes from offset `off` of page frame `page`; may run over into the frames behind. */
  datatype Bvec = Bvec(page: nat, len: nat, off: nat)

  /** A piece of one page frame offered to a bio. */
  datatype Piece = Piece(page: nat, len: nat, off: nat)

  ghost predicate InPage(p: Piece) {
    0 < p.len && p.off + p.len <= PAGE_SIZE
  }

  /** The physical bytes a bio_vec describes. */
  ghost function PhysOf(b: Bvec): (r: seq<nat>)
    ensures |r| == b.len
  {
    Range(b.page * PAGE_SIZE + b.off, b.len)
  }

  /** The physical bytes of a whole table, in order. */
  ghost function Phys(vs: seq<Bvec>): (r: seq<nat>)
    ensures |r| == TotalLen(vs)
  {
    if vs == [] then [] else Phys(vs[..|vs| - 1]) + PhysOf(vs[|vs| - 1])
  }

  ghost function TotalLen(vs: seq<Bvec>): nat {
    if vs == [] then 0 else TotalLen(vs[..|vs| - 1]) + vs[|vs| - 1].len
  }

  /** The frames that the per-page walk of one bio_vec visits. */
  ghost function FramesOf(b: Bvec): seq<nat> {
    if b.len == 0 then [] else
      Range(b.page + b.off / PAGE_SIZE, (b.off + b.len - 1) / PAGE_SIZE - b.off / PAGE_SIZE + 1)
  }

  /** bio_for_each_segment_all: one visit per page of every bio_vec. */
  ghost function Walk(vs: seq<Bvec>): seq<nat> {
    if vs == [] then [] else Walk(vs[..|vs| - 1]) + FramesOf(vs[|vs| - 1])
  }

  /** The per-page stretches of `len` bytes from offset `off` of a page, as bvec_advance visits them. */
  function Stretches(page: nat, off: nat, len: nat): (ps: seq<Piece>)
    requires off < PAGE_SIZE
    decreases len
  {
    if len == 0 then [] else
      var n: nat := Min(PAGE_SIZE - off, len);
      [Piece(page, n, off)] + Stretches(page + 1, 0, len - n)
  }

  /** bio_for_each_segment_all: every bio_vec cut at page boundaries. */
  function Segments(vs: seq<Bvec>): seq<Piece> {
    if vs == [] then [] else
      var b := vs[|vs| - 1];
      Segments(vs[..|vs| - 1]) + Stretches(b.page + b.off / PAGE_SIZE, b.off % PAGE_SIZE, b.len)
  }

  ghost function PieceBytes(p: Piece): (r: seq<nat>)
    ensures |r| == p.len
  {
    Range(p.page * PAGE_SIZE + p.off, p.len)
  }

  ghost function BytesOf(ps: seq<Piece>): seq<nat> {
    if ps == [] then [] else BytesOf(ps[..|ps| - 1]) + PieceBytes(ps[|ps| - 1])
  }

  ghost function PagesIn(ps: seq<Piece>): (r: seq<nat>)
    ensures |r| == |ps|
  {
    seq(|ps|, k requires 0 <= k < |ps| => ps[k].page)
  }

  lemma {:induction false} BytesConcat(a: seq<Piece>, b: seq<Piece>)
    ensures BytesOf(a + b) == BytesOf(a) + BytesOf(b)
    decreases |b|
  {
    if b == [] {
      assert a + b == a;
    } else {
      assert (a + b)[..|a + b| - 1] == a + b[..|b| - 1];
      BytesConcat(a, b[..|b| - 1]);
    }
  }

  lemma BytesOfOne(p: Piece)
    ensures BytesOf([p]) == PieceBytes(p) && PagesIn([p]) == [p.page]
  {
    assert [p][..0] == [];
  }

  lemma PagesInConcat(a: seq<Piece>, b: seq<Piece>)
    ensures PagesIn(a + b) == PagesIn(a) + PagesIn(b)
  {
  }

  lemma {:induction false} StretchesCover(page: nat, off: nat, len: nat)
    requires off < PAGE_SIZE
    ensures var ps := Stretches(page, off, len);
            && BytesOf(ps) == Range(page * PAGE_SIZE + off, len)
            && PagesIn(ps) == Range(page, if len == 0 then 0 else PagesFor(off + len))
    decreases len
  {
    hide BytesOf, PagesIn, PieceBytes, Range, PagesFor;
    if len == 0 {
      NoStretch(page, off);
    } else {
      var n: nat := Min(PAGE_SIZE - off, len);
      var p := Piece(page, n, off);
      var rest := Stretches(page + 1, 0, len - n);
      StretchesCover(page + 1, 0, len - n);
      BytesConcat([p], rest);
      BytesOfOne(p);
      PagesInConcat([p], rest);
      assert PieceBytes(p) == Range(page * PAGE_SIZE + off, n) by {
        PieceIs(p);
      }
      FirstStretch(page, off, len, n);
    }
  }

  lemma NoStretch(page: nat, off: nat)
    ensures BytesOf([]) == Range(page * PAGE_SIZE + off, 0) == [] && PagesIn([]) == Range(page, 0) == []
  {
  }

  lemma PieceIs(p: Piece)
    ensures PieceBytes(p) == Range(p.page * PAGE_SIZE + p.off, p.len)
  {
  }

  lemma {:induction false} StretchesInPage(page: nat, off: nat, len: nat)
    requires off < PAGE_SIZE
    ensures forall k :: 0 <= k < |Stretches(page, off, len)| ==> InPage(Stretches(page, off, len)[k])
    decreases len
  {
    if len > 0 {
      StretchesInPage(page + 1, 0, len - Min(PAGE_SIZE - off, len));
    }
  }

  lemma {:induction false} SegmentsInPage(vs: seq<Bvec>)
    ensures forall k :: 0 <= k < |Segments(vs)| ==> InPage(Segments(vs)[k])
  {
    hide Stretches, InPage;
    if vs != [] {
      var b := vs[|vs| - 1];
      SegmentsInPage(vs[..|vs| - 1]);
      StretchesInPage(b.page + b.off / PAGE_SIZE, b.off % PAGE_SIZE, b.len);
    }
  }

  lemma {:induction false} FirstStretch(page: nat, off: nat, len: nat, n: nat)
    requires off < PAGE_SIZE && 0 < len && n == Min(PAGE_SIZE - off, len)
    ensures Range(page * PAGE_SIZE + off, len)
         == Range(page * PAGE_SIZE + off, n) + Range((page + 1) * PAGE_SIZE + 0, len - n)
    ensures Range(page, PagesFor(off + len))
         == [page] + Range(page + 1, if len == n then 0 else PagesFor(0 + (len - n)))
  {
    RangeSplit(page * PAGE_SIZE + off, n, len - n);
    var m := if len == n then 0 else PagesFor(0 + (len - n));
    assert PagesFor(off + len) == 1 + m;
    RangeSplit(page, 1, m);
  }

  /** The per-page walk visits exactly the bytes of the table, page by page. */
  lemma {:induction false} SegmentsCover(vs: seq<Bvec>)
    ensures BytesOf(Segments(vs)) == Phys(vs) && PagesIn(Segments(vs)) == Walk(vs)
  {
    hide Stretches, PagesIn, Range, PagesFor, FramesOf, PhysOf, BytesOf;
    if vs == [] {
      NoStretch(0, 0);
      assert Phys([]) == [] && Walk([]) == [];
    } else {
      var b := vs[|vs| - 1];
      SegmentsCover(vs[..|vs| - 1]);
      StretchesCover(b.page + b.off / PAGE_SIZE, b.off % PAGE_SIZE, b.len);
      BytesConcat(Segments(vs[..|vs| - 1]), Stretches(b.page + b.off / PAGE_SIZE, b.off % PAGE_SIZE, b.len));
      PagesInConcat(Segments(vs[..|vs| - 1]), Stretches(b.page + b.off / PAGE_SIZE, b.off % PAGE_SIZE, b.len));
      VecFrames(b);
    }
  }

  lemma VecFrames(b: Bvec)
    ensures FramesOf(b)
         == Range(b.page + b.off / PAGE_SIZE, if b.len == 0 then 0 else PagesFor(b.off % PAGE_SIZE + b.len))
    ensures PhysOf(b) == Range((b.page + b.off / PAGE_SIZE) * PAGE_SIZE + b.off % PAGE_SIZE, b.len)
  {
  }

  lemma WalkAppend(vs: seq<Bvec>, b: Bvec)
    ensures Walk(vs + [b]) == Walk(vs) + FramesOf(b)
    ensures Phys(vs + [b]) == Phys(vs) + PhysOf(b)
    ensures TotalLen(vs + [b]) == TotalLen(vs) + b.len
  {
    assert (vs + [b])[..|vs|] == vs;
  }

  /**
   What decides a merge beyond the addresses: Xen and device-memory rules for the
   pair of pages, and whether the kernel memory sanitizer is built in.
   */
  datatype Policy = Policy(platformAllows: bool, kmsan: bool)

  /** page_is_mergeable: may the piece extend b, and does it stay in b's last page? */
  function PageIsMergeable(b: Bvec, p: Piece, pol: Policy): (r: (bool, bool)) {
    var vecEnd := b.page * PAGE_SIZE + b.off + b.len - 1;
    if vecEnd + 1 != p.page * PAGE_SIZE + p.off || !pol.platformAllows then (false, false)
    else if vecEnd / PAGE_SIZE == p.page then (true, true)
    else if pol.kmsan then (false, false)
    else (b.page + (b.off + b.len) / PAGE_SIZE == p.page + p.off / PAGE_SIZE, false)
  }

  /** The request queue limits a passthrough bio obeys; masks are given as mask + 1. */
  datatype Queue = Queue(segBoundary: nat, maxSegmentSize: nat, maxSegments: nat, virtBoundary: nat)

  /** What the block layer guarantees when a driver sets its limits. */
  ghost predicate ValidQueue(q: Queue) {
    && q.segBoundary > 0 && q.segBoundary % PAGE_SIZE == 0
    && q.maxSegmentSize >= PAGE_SIZE
    && q.virtBoundary > 0
  }

  /** The boundary-aligned zone an address lies in. */
  function Zone(q: Queue, addr: nat): nat
    requires q.segBoundary > 0
  {
    addr / q.segBoundary
  }

  /** bvec_gap_to_prev: a virt boundary is set and one side of the seam misses it. */
  function Gap(q: Queue, prev: Bvec, off: nat): bool
    requires q.virtBoundary > 0
  {
    q.virtBoundary > 1 && (off % q.virtBoundary != 0 || (prev.off + prev.len) % q.virtBoundary != 0)
  }

  datatype Reason = Cloned | Sectors | Seam | TableFull | SizeFull | TooManySegments
  datatype Outcome = Rejected(why: Reason) | Merged(samePage: bool) | Appended

  /** A bio while it is filled: its table and its capacity. */
  datatype Room = Room(maxVecs: nat, cloned: bool, maxSectors: nat)

  /** __bio_try_merge_page on the last entry of a non-empty table. */
  function TryMerge(vs: seq<Bvec>, size: nat, p: Piece, pol: Policy): (bool, bool)
    requires vs != [] && p.len <= UINT_MAX
  {
    var (mergeable, same) := PageIsMergeable(vs[|vs| - 1], p, pol);
    if mergeable && size <= UINT_MAX - p.len then (true, same) else (false, false)
  }

  /** bio_try_merge_hw_seg: the same, within segment boundary and segment size. */
  function TryMergeHw(q: Queue, vs: seq<Bvec>, size: nat, p: Piece, pol: Policy): (bool, bool)
    requires vs != [] && 0 < p.len <= UINT_MAX && q.segBoundary > 0
  {
    var b := vs[|vs| - 1];
    if Zone(q, b.page * PAGE_SIZE + b.off) != Zone(q, p.page * PAGE_SIZE + p.off + p.len - 1) then (false, false)
    else if Wrap32(b.len + p.len) > q.maxSegmentSize then (false, false)
    else TryMerge(vs, size, p, pol)
  }

  /** bio_add_hw_page: what becomes of a piece. */
  function HwAdd(q: Queue, room: Room, vs: seq<Bvec>, size: nat, p: Piece, pol: Policy): Outcome
    requires ValidQueue(q) && 0 < p.len <= UINT_MAX
  {
    if room.cloned then Rejected(Cloned)
    else if Wrap32(size + p.len) / 512 > room.maxSectors then Rejected(Sectors)
    else if vs != [] && TryMergeHw(q, vs, size, p, pol).0 then Merged(TryMergeHw(q, vs, size, p, pol).1)
    else if vs != [] && Gap(q, vs[|vs| - 1], p.off) then Rejected(Seam)
    else if |vs| >= room.maxVecs then Rejected(TableFull)
    else if size > UINT_MAX - p.len then Rejected(SizeFull)
    else if |vs| >= q.maxSegments then Rejected(TooManySegments)
    else Appended
  }

  /** The table after the outcome is carried out. */
  function Apply(vs: seq<Bvec>, p: Piece, o: Outcome): seq<Bvec>
    requires o.Merged? ==> vs != []
  {
    match o
    case Rejected(_) => vs
    case Merged(_) => vs[|vs| - 1 := vs[|vs| - 1].(len := vs[|vs| - 1].len + p.len)]
    case Appended => vs + [Bvec(p.page, p.len, p.off)]
  }

  /** Every entry is a real buffer inside one boundary zone and no longer than a segment may be. */
  ghost predicate EntryFits(q: Queue, b: Bvec)
    requires q.segBoundary > 0
  {
    && 0 < b.len <= q.maxSegmentSize
    && Zone(q, b.page * PAGE_SIZE + b.off) == Zone(q, b.page * PAGE_SIZE + b.off + b.len - 1)
  }

  /** All limits of the queue and of the bio hold, and bi_size is the sum of the lengths in 32 bits. */
  ghost predicate WithinLimits(q: Queue, room: Room, vs: seq<Bvec>, size: nat)
    requires ValidQueue(q)
  {
    && |vs| <= room.maxVecs && |vs| <= q.maxSegments
    && size == TotalLen(vs) && size <= UINT_MAX && size / 512 <= room.maxSectors
    && (forall i :: 0 <= i < |vs| ==> EntryFits(q, vs[i]))
    && (forall i :: 0 <= i < |vs| - 1 ==> !Gap(q, vs[i], vs[i + 1].off))
  }

  /** A merge that the addresses allow continues the last entry byte by byte. */
  lemma {:induction false} MergeMeaning(vs: seq<Bvec>, p: Piece, same: bool)
    requires vs != [] && vs[|vs| - 1].len > 0 && InPage(p)
    requires var b := vs[|vs| - 1];
             && b.page * PAGE_SIZE + b.off + b.len == p.page * PAGE_SIZE + p.off
             && same == ((b.page * PAGE_SIZE + b.off + b.len - 1) / PAGE_SIZE == p.page)
    ensures var vs' := Apply(vs, p, Merged(same));
            && Phys(vs') == Phys(vs) + Range(p.page * PAGE_SIZE + p.off, p.len)
            && Walk(vs') == Walk(vs) + (if same then [] else [p.page])
            && TotalLen(vs') == TotalLen(vs) + p.len
  {
    hide PhysOf, FramesOf, Range, Phys, Walk, TotalLen;
    var n, vs' := |vs| - 1, Apply(vs, p, Merged(same));
    assert vs'[..n] == vs[..n];
    MergedEntry(vs[n], p, same);
    LastEntry(vs);
    LastEntry(vs');
  }

  lemma LastEntry(vs: seq<Bvec>)
    requires vs != []
    ensures var (rest, last) := (vs[..|vs| - 1], vs[|vs| - 1]);
            && Phys(vs) == Phys(rest) + PhysOf(last) && Walk(vs) == Walk(rest) + FramesOf(last)
            && TotalLen(vs) == TotalLen(rest) + last.len
  {
  }

  lemma {:induction false} MergedEntry(b: Bvec, p: Piece, same: bool)
    requires b.len > 0 && InPage(p)
    requires b.page * PAGE_SIZE + b.off + b.len == p.page * PAGE_SIZE + p.off
    requires same == ((b.page * PAGE_SIZE + b.off + b.len - 1) / PAGE_SIZE == p.page)
    ensures var b' := b.(len := b.len + p.len);
            && PhysOf(b') == PhysOf(b) + Range(p.page * PAGE_SIZE + p.off, p.len)
            && FramesOf(b') == FramesOf(b) + (if same then [] else [p.page])
  {
    RangeSplit(b.page * PAGE_SIZE + b.off, b.len, p.len);
    var first, last := b.page + b.off / PAGE_SIZE, b.page + (b.off + b.len - 1) / PAGE_SIZE;
    var last' := b.page + (b.off + b.len + p.len - 1) / PAGE_SIZE;
    assert last' == p.page && last == if same then p.page else p.page - 1;
    if !same {
      RangeSplit(first, last - first + 1, 1);
    }
  }

  /** A piece inside one page never crosses a segment boundary. */
  lemma {:induction false} SamePageSameZone(q: Queue, a: nat, b: nat)
    requires ValidQueue(q) && a / PAGE_SIZE == b / PAGE_SIZE
    ensures Zone(q, a) == Zone(q, b)
  {
    var k := q.segBoundary / PAGE_SIZE;
    assert q.segBoundary == k * PAGE_SIZE;
    DivTwice(a, k);
    DivTwice(b, k);
  }

  lemma {:induction false} DivTwice(a: nat, k: nat)
    requires k > 0
    ensures a / (k * PAGE_SIZE) == (a / PAGE_SIZE) / k
  {
    var x := a / PAGE_SIZE;
    var y, r := x / k, x % k;
    assert x == y * k + r;
    assert a == y * (k * PAGE_SIZE) + (r * PAGE_SIZE + a % PAGE_SIZE);
    assert r * PAGE_SIZE + a % PAGE_SIZE < k * PAGE_SIZE;
    DivUnique(a, k * PAGE_SIZE, y, r * PAGE_SIZE + a % PAGE_SIZE);
  }

  lemma {:induction false} DivUnique(a: int, d: int, y: int, r: int)
    requires d > 0 && 0 <= r < d && a == y * d + r
    ensures a / d == y
  {
    var y' := a / d;
    assert a == y' * d + a % d;
    if y < y' {
      MulStep(y, y', d);
    } else if y' < y {
      MulStep(y', y, d);
    }
  }

  lemma {:induction false} MulStep(a: int, b: int, d: int)
    requires a < b && d >= 0
    ensures a * d + d <= b * d
  {
    MulMono(a + 1, b, d);
    assert (a + 1) * d == a * d + d;
  }

  lemma MulMono(a: int, b: int, d: int)
    requires a <= b && d >= 0
    ensures a * d <= b * d
  {
  }

  function SizeAfter(size: nat, p: Piece, o: Outcome): nat {
    if o.Rejected? then size else size + p.len
  }

  /** Frames that an outcome adds to the per-page walk: none for a merge inside the last page. */
  function NewFrames(p: Piece, o: Outcome): seq<nat> {
    if o.Appended? || (o.Merged? && !o.samePage) then [p.page] else []
  }

  /** What one accepted outcome does to the bytes described and to the per-page walk. */
  ghost predicate Describes(vs: seq<Bvec>, p: Piece, o: Outcome, vs': seq<Bvec>) {
    && Phys(vs') == Phys(vs) + (if o.Rejected? then [] else PieceBytes(p))
    && Walk(vs') == Walk(vs) + NewFrames(p, o)
  }

  ghost predicate Positive(vs: seq<Bvec>) {
    forall i :: 0 <= i < |vs| ==> vs[i].len > 0
  }

  /** Carrying out a merge that page_is_mergeable allows, or appending, extends the bio by the piece. */
  lemma {:induction false} TakenDescribes(vs: seq<Bvec>, p: Piece, pol: Policy, o: Outcome)
    requires Positive(vs) && InPage(p)
    requires o.Merged? ==> vs != [] && PageIsMergeable(vs[|vs| - 1], p, pol) == (true, o.samePage)
    ensures Describes(vs, p, o, Apply(vs, p, o)) && Positive(Apply(vs, p, o))
    ensures TotalLen(Apply(vs, p, o)) == SizeAfter(TotalLen(vs), p, o)
  {
    hide Phys, Walk, TotalLen, FramesOf, PhysOf;
    match o
    case Rejected(_) =>
    case Merged(same) =>
      MergeMeaning(vs, p, same);
    case Appended =>
      WalkAppend(vs, Bvec(p.page, p.len, p.off));
      OneFrame(p);
  }

  /** The guard that a merge outcome has passed. */
  lemma {:induction false} MergedMeansMergeable(q: Queue, room: Room, vs: seq<Bvec>, size: nat, p: Piece, pol: Policy)
    requires ValidQueue(q) && InPage(p) && HwAdd(q, room, vs, size, p, pol).Merged?
    ensures vs != []
    ensures PageIsMergeable(vs[|vs| - 1], p, pol) == (true, HwAdd(q, room, vs, size, p, pol).samePage)
  {
  }

  /** A merge stays in the last page exactly when the piece does not begin at a page boundary. */
  lemma {:induction false} SamePageIff(q: Queue, room: Room, vs: seq<Bvec>, size: nat, p: Piece, pol: Policy)
    requires ValidQueue(q) && InPage(p) && HwAdd(q, room, vs, size, p, pol).Merged?
    ensures HwAdd(q, room, vs, size, p, pol).samePage <==> p.off > 0
  {
    MergedMeansMergeable(q, room, vs, size, p, pol);
  }

  /**
   bio_add_hw_page on an in-page piece keeps every limit, although its sector test is
   made on a sum that can wrap, and extends the bio by exactly the piece or not at all.
   */
  lemma {:induction false} HwAddSound(q: Queue, room: Room, vs: seq<Bvec>, size: nat, p: Piece, pol: Policy)
    requires ValidQueue(q) && WithinLimits(q, room, vs, size) && InPage(p)
    ensures var o := HwAdd(q, room, vs, size, p, pol);
            && (o.Merged? ==> vs != [])
            && WithinLimits(q, room, Apply(vs, p, o), SizeAfter(size, p, o))
            && Describes(vs, p, o, Apply(vs, p, o))
  {
    hide Zone, Gap, WithinLimits, Phys, Walk, TotalLen, EntryFits;
    var o := HwAdd(q, room, vs, size, p, pol);
    assert Positive(vs) by {
      forall i | 0 <= i < |vs| ensures vs[i].len > 0 {
        EntryPositive(q, room, vs, size, i);
      }
    }
    TakenDescribes(vs, p, pol, o);
    if o.Merged? {
      MergeLimits(q, room, vs, size, p, pol);
    } else if o.Appended? {
      AppendLimits(q, room, vs, size, p);
    }
  }

  lemma OneFrame(p: Piece)
    requires InPage(p)
    ensures FramesOf(Bvec(p.page, p.len, p.off)) == [p.page]
    ensures PhysOf(Bvec(p.page, p.len, p.off)) == PieceBytes(p)
  {
    assert p.off / PAGE_SIZE == 0 && (p.off + p.len - 1) / PAGE_SIZE == 0;
  }

  lemma EntryPositive(q: Queue, room: Room, vs: seq<Bvec>, size: nat, i: nat)
    requires ValidQueue(q) && WithinLimits(q, room, vs, size) && i < |vs|
    ensures vs[i].len > 0
  {
  }

  lemma {:induction false} TotalLenLast(vs: seq<Bvec>)
    requires vs != []
    ensures TotalLen(vs) >= vs[|vs| - 1].len
  {
  }

  lemma {:induction false} AppendLimits(q: Queue, room: Room, vs: seq<Bvec>, size: nat, p: Piece)
    requires ValidQueue(q) && WithinLimits(q, room, vs, size) && InPage(p)
    requires vs != [] ==> !Gap(q, vs[|vs| - 1], p.off)
    requires |vs| < room.maxVecs && |vs| < q.maxSegments
    requires size <= UINT_MAX - p.len && (size + p.len) / 512 <= room.maxSectors
    ensures WithinLimits(q, room, vs + [Bvec(p.page, p.len, p.off)], size + p.len)
  {
    hide Zone, Gap, TotalLen, Phys, Walk, FramesOf, PhysOf;
    var b := Bvec(p.page, p.len, p.off);
    WalkAppend(vs, b);
    assert EntryFits(q, b) by {
      SamePageSameZone(q, p.page * PAGE_SIZE + p.off, p.page * PAGE_SIZE + p.off + p.len - 1);
    }
    var vs' := vs + [b];
    forall i | 0 <= i < |vs'| - 1 ensures !Gap(q, vs'[i], vs'[i + 1].off) {
      if i == |vs| - 1 {
        assert vs'[i] == vs[|vs| - 1];
      } else {
        assert !Gap(q, vs[i], vs[i + 1].off);
      }
    }
  }

  lemma {:induction false} MergeLimits(q: Queue, room: Room, vs: seq<Bvec>, size: nat, p: Piece, pol: Policy)
    requires ValidQueue(q) && WithinLimits(q, room, vs, size) && InPage(p)
    requires HwAdd(q, room, vs, size, p, pol).Merged?
    ensures var vs' := Apply(vs, p, HwAdd(q, room, vs, size, p, pol));
            WithinLimits(q, room, vs', size + p.len)
  {
    hide Zone, Gap, TotalLen, Phys, Walk, HwAdd;
    MergedMeansMergeable(q, room, vs, size, p, pol);
    MergedGuards(q, room, vs, size, p, pol);
    MergeMeaning(vs, p, HwAdd(q, room, vs, size, p, pol).samePage);
    ExtendLast(q, room, vs, size, p.len);
  }

  /** Behind a merge: the sums did not wrap, and the seam is inside one boundary zone. */
  lemma {:induction false} MergedGuards(q: Queue, room: Room, vs: seq<Bvec>, size: nat, p: Piece, pol: Policy)
    requires ValidQueue(q) && vs != [] && size == TotalLen(vs) <= UINT_MAX && vs[|vs| - 1].len > 0 && InPage(p)
    requires HwAdd(q, room, vs, size, p, pol).Merged?
    ensures var b := vs[|vs| - 1];
            && b.len + p.len <= q.maxSegmentSize && size + p.len <= UINT_MAX
            && (size + p.len) / 512 <= room.maxSectors
            && Zone(q, b.page * PAGE_SIZE + b.off) == Zone(q, p.page * PAGE_SIZE + p.off + p.len - 1)
            && b.page * PAGE_SIZE + b.off + b.len == p.page * PAGE_SIZE + p.off
            && HwAdd(q, room, vs, size, p, pol).samePage
               == ((b.page * PAGE_SIZE + b.off + b.len - 1) / PAGE_SIZE == p.page)
  {
    hide Zone, Gap, TotalLen;
    TotalLenLast(vs);
  }

  lemma {:induction false} ExtendLast(q: Queue, room: Room, vs: seq<Bvec>, size: nat, len: nat)
    requires ValidQueue(q) && WithinLimits(q, room, vs, size) && vs != []
    requires var b := vs[|vs| - 1];
             && b.len + len <= q.maxSegmentSize && size + len <= UINT_MAX && (size + len) / 512 <= room.maxSectors
             && Zone(q, b.page * PAGE_SIZE + b.off) == Zone(q, b.page * PAGE_SIZE + b.off + b.len + len - 1)
    requires TotalLen(vs[|vs| - 1 := vs[|vs| - 1].(len := vs[|vs| - 1].len + len)]) == size + len
    ensures WithinLimits(q, room, vs[|vs| - 1 := vs[|vs| - 1].(len := vs[|vs| - 1].len + len)], size + len)
  {
    hide Zone, Gap, TotalLen;
    var n := |vs| - 1;
    var vs' := vs[n := vs[n].(len := vs[n].len + len)];
    assert forall i :: 0 <= i < n ==> vs'[i] == vs[i];
    assert EntryFits(q, vs'[n]);
  }

  /** The limits under which every bio takes at least one page. */
  ghost predicate RoomForOne(q: Queue, room: Room) {
    room.maxVecs > 0 && q.maxSegments > 0 && room.maxSectors >= PAGE_SIZE / 512 && !room.cloned
  }

  lemma EmptyTakesOne(q: Queue, room: Room, p: Piece, pol: Policy)
    requires ValidQueue(q) && RoomForOne(q, room) && InPage(p)
    ensures HwAdd(q, room, [], 0, p, pol) == Appended
  {
  }

  /** A piece together with the outcome of the address-independent merge checks. */
  datatype Offer = Offer(piece: PagePiece, pol: Policy)

  type PagePiece = p: Piece | InPage(p) witness Piece(0, 1, 0)

  /** The table after offering pieces one after the other to an empty bio. */
  ghost function HwRun(q: Queue, room: Room, offers: seq<Offer>): (r: (seq<Bvec>, nat))
    requires ValidQueue(q)
  {
    if offers == [] then ([], 0) else
      var n := |offers| - 1;
      var (vs, size) := HwRun(q, room, offers[..n]);
      var o := HwAdd(q, room, vs, size, offers[n].piece, offers[n].pol);
      (if o.Merged? && vs == [] then [] else Apply(vs, offers[n].piece, o), SizeAfter(size, offers[n].piece, o))
  }

  /** The bytes of the pieces that were taken. */
  ghost function Taken(q: Queue, room: Room, offers: seq<Offer>): seq<nat>
    requires ValidQueue(q)
  {
    if offers == [] then [] else
      var n := |offers| - 1;
      var (vs, size) := HwRun(q, room, offers[..n]);
      var o := HwAdd(q, room, vs, size, offers[n].piece, offers[n].pol);
      Taken(q, room, offers[..n]) + (if o.Rejected? then [] else PieceBytes(offers[n].piece))
  }

  /**
   After any sequence of offers, taken or not, the coalesced table obeys every limit
   and describes exactly the concatenation of the pieces taken.
   */
  lemma {:induction false} CoalescingIsAppending(q: Queue, room: Room, offers: seq<Offer>)
    requires ValidQueue(q)
    ensures var (vs, size) := HwRun(q, room, offers);
            && WithinLimits(q, room, vs, size)
            && Phys(vs) == Taken(q, room, offers)
  {
    hide WithinLimits, HwAdd, Apply;
    if offers == [] {
      NothingFits(q, room);
    } else {
      var n := |offers| - 1;
      CoalescingIsAppending(q, room, offers[..n]);
      var (vs, size) := HwRun(q, room, offers[..n]);
      HwAddSound(q, room, vs, size, offers[n].piece, offers[n].pol);
    }
  }

  lemma NothingFits(q: Queue, room: Room)
    requires ValidQueue(q)
    ensures WithinLimits(q, room, [], 0)
  {
  }

  /** Pieces taken by a sequence of offers, one page reference each. */
  ghost function TakenCount(q: Queue, room: Room, offers: seq<Offer>): nat
    requires ValidQueue(q)
  {
    if offers == [] then 0 else
      var n := |offers| - 1;
      var (vs, size) := HwRun(q, room, offers[..n]);
      var o := HwAdd(q, room, vs, size, offers[n].piece, offers[n].pol);
      TakenCount(q, room, offers[..n]) + if o.Rejected? then 0 else 1
  }

  /**
   The guards a piece passes on its way to a merge inside the last page of a bio: it
   continues the last entry in the middle of a page, and no limit stops it.
   */
  predicate MergesInPage(q: Queue, room: Room, vs: seq<Bvec>, size: nat, p: Piece, pol: Policy) {
    && vs != [] && !room.cloned && p.off > 0 && pol.platformAllows
    && Continues(vs[|vs| - 1], p)
    && vs[|vs| - 1].len + p.len <= q.maxSegmentSize
    && size + p.len <= UINT_MAX && (size + p.len) / 512 <= room.maxSectors
  }

  /** The piece begins where the entry physically ends. */
  predicate Continues(b: Bvec, p: Piece) {
    b.page * PAGE_SIZE + b.off + b.len == p.page * PAGE_SIZE + p.off
  }

  /**
   bio_add_hw_page merges a piece that begins inside a page exactly when these guards
   hold; the segment boundary, the 32-bit sum and the sanitizer never decide it.
   */
  lemma {:induction false} MergesInPageIff(q: Queue, room: Room, vs: seq<Bvec>, size: nat, p: Piece, pol: Policy)
    requires ValidQueue(q) && WithinLimits(q, room, vs, size) && InPage(p)
    ensures HwAdd(q, room, vs, size, p, pol).Merged? && p.off > 0 <==> MergesInPage(q, room, vs, size, p, pol)
  {
    hide Zone, Gap, WithinLimits, EntryFits, TotalLen, Continues;
    if vs != [] && p.off > 0 {
      LastFits(q, room, vs, size);
      MidPageMerge(q, vs[|vs| - 1], p, pol);
    }
  }

  /** The last entry of a table within limits. */
  lemma LastFits(q: Queue, room: Room, vs: seq<Bvec>, size: nat)
    requires ValidQueue(q) && WithinLimits(q, room, vs, size) && vs != []
    ensures EntryFits(q, vs[|vs| - 1]) && 0 < vs[|vs| - 1].len <= size <= UINT_MAX
  {
    TotalLenLast(vs);
  }

  /** For a piece in the middle of a page, page_is_mergeable and the boundary test come down to contiguity. */
  lemma {:induction false} MidPageMerge(q: Queue, b: Bvec, p: Piece, pol: Policy)
    requires ValidQueue(q) && EntryFits(q, b) && InPage(p) && p.off > 0
    ensures PageIsMergeable(b, p, pol).0 <==> Continues(b, p) && pol.platformAllows
    ensures Continues(b, p) ==>
      Zone(q, b.page * PAGE_SIZE + b.off) == Zone(q, p.page * PAGE_SIZE + p.off + p.len - 1)
  {
    hide Zone;
    if Continues(b, p) {
      LastByteInPage(b, p);
      SamePageSameZone(q, b.page * PAGE_SIZE + b.off + b.len - 1, p.page * PAGE_SIZE + p.off + p.len - 1);
    }
  }

  /** What continues an entry in the middle of a page is in the page of the entry's last byte. */
  lemma LastByteInPage(b: Bvec, p: Piece)
    requires InPage(p) && b.len > 0 && Continues(b, p) && p.off > 0
    ensures (b.page * PAGE_SIZE + b.off + b.len - 1) / PAGE_SIZE == p.page
    ensures (p.page * PAGE_SIZE + p.off + p.len - 1) / PAGE_SIZE == p.page
  {
  }

  /** How many pieces of a run pass these guards. */
  ghost function InPageMerges(q: Queue, room: Room, offers: seq<Offer>): nat
    requires ValidQueue(q)
  {
    if offers == [] then 0 else
      var n := |offers| - 1;
      var (vs, size) := HwRun(q, room, offers[..n]);
      InPageMerges(q, room, offers[..n])
      + if MergesInPage(q, room, vs, size, offers[n].piece, offers[n].pol) then 1 else 0
  }

  /**
   bio_map_user_iov keeps a reference for every piece taken, and releasing the bio drops
   one for every page of the walk: the two differ by the pieces that pass the guards of a
   merge inside a page, and agree if and only if there is none.
   */
  lemma {:induction false} ReferencesBalanceIff(q: Queue, room: Room, offers: seq<Offer>)
    requires ValidQueue(q)
    ensures |Walk(HwRun(q, room, offers).0)| + InPageMerges(q, room, offers) == TakenCount(q, room, offers)
    ensures |Walk(HwRun(q, room, offers).0)| == TakenCount(q, room, offers) <==> InPageMerges(q, room, offers) == 0
  {
    hide WithinLimits, HwAdd, Apply, Walk, Phys, MergesInPage;
    if offers == [] {
      EmptyWalk();
    } else {
      var n := |offers| - 1;
      var p, pol := offers[n].piece, offers[n].pol;
      ReferencesBalanceIff(q, room, offers[..n]);
      CoalescingIsAppending(q, room, offers[..n]);
      var (vs, size) := HwRun(q, room, offers[..n]);
      HwAddSound(q, room, vs, size, p, pol);
      MergesInPageIff(q, room, vs, size, p, pol);
      if HwAdd(q, room, vs, size, p, pol).Merged? {
        SamePageIff(q, room, vs, size, p, pol);
      }
    }
  }

  /** The piece physically continues the last entry, and nothing but the limits keeps it from merging. */
  ghost predicate MayMerge(vs: seq<Bvec>, p: Piece, pol: Policy) {
    vs != [] && Continues(vs[|vs| - 1], p) && pol.platformAllows && (p.off == 0 ==> !pol.kmsan)
  }

  /** Whatever the pages, page_is_mergeable asks for contiguity, and for no sanitizer across a page boundary. */
  lemma {:induction false} MergeableIff(b: Bvec, p: Piece, pol: Policy)
    requires b.len > 0 && InPage(p)
    ensures PageIsMergeable(b, p, pol).0 <==> Continues(b, p) && pol.platformAllows && (p.off == 0 ==> !pol.kmsan)
  {
    if Continues(b, p) {
      if p.off > 0 {
        LastByteInPage(b, p);
      } else {
        var e := b.off + b.len;
        assert b.page * PAGE_SIZE + e == p.page * PAGE_SIZE && p.off / PAGE_SIZE == 0;
        assert e % PAGE_SIZE == 0 && b.page + e / PAGE_SIZE == p.page;
      }
    }
  }

  /** What the longer table has to fit into. */
  lemma {:induction false} LongerFitsIff(q: Queue, room: Room, vs: seq<Bvec>, size: nat, p: Piece)
    requires ValidQueue(q) && WithinLimits(q, room, vs, size) && InPage(p)
    ensures WithinLimits(q, room, vs + [Bvec(p.page, p.len, p.off)], size + p.len) <==>
            && (vs != [] ==> !Gap(q, vs[|vs| - 1], p.off)) && |vs| < room.maxVecs && |vs| < q.maxSegments
            && size <= UINT_MAX - p.len && (size + p.len) / 512 <= room.maxSectors
  {
    hide Zone, Gap, TotalLen, EntryFits;
    var vs' := vs + [Bvec(p.page, p.len, p.off)];
    if WithinLimits(q, room, vs', size + p.len) {
      if vs != [] {
        assert vs'[|vs| - 1] == vs[|vs| - 1] && !Gap(q, vs'[|vs| - 1], vs'[|vs|].off);
      }
    } else if && (vs != [] ==> !Gap(q, vs[|vs| - 1], p.off)) && |vs| < room.maxVecs && |vs| < q.maxSegments
              && size <= UINT_MAX - p.len && (size + p.len) / 512 <= room.maxSectors {
      AppendLimits(q, room, vs, size, p);
    }
  }

  /** What the table with the grown last entry has to fit into. */
  lemma {:induction false} GrownFitsIff(q: Queue, room: Room, vs: seq<Bvec>, size: nat, p: Piece)
    requires ValidQueue(q) && WithinLimits(q, room, vs, size) && InPage(p)
    requires vs != [] && Continues(vs[|vs| - 1], p)
    ensures WithinLimits(q, room, Apply(vs, p, Merged(p.off > 0)), size + p.len) <==>
            var b := vs[|vs| - 1];
            && b.len + p.len <= q.maxSegmentSize && size <= UINT_MAX - p.len && (size + p.len) / 512 <= room.maxSectors
            && Zone(q, b.page * PAGE_SIZE + b.off) == Zone(q, p.page * PAGE_SIZE + p.off + p.len - 1)
  {
    hide Zone, Gap, TotalLen;
    var b, vs' := vs[|vs| - 1], Apply(vs, p, Merged(p.off > 0));
    LastFits(q, room, vs, size);
    GrownTotal(vs, p);
    if WithinLimits(q, room, vs', size + p.len) {
      assert EntryFits(q, vs'[|vs| - 1]);
    } else if && b.len + p.len <= q.maxSegmentSize
              && size <= UINT_MAX - p.len && (size + p.len) / 512 <= room.maxSectors
              && Zone(q, b.page * PAGE_SIZE + b.off) == Zone(q, p.page * PAGE_SIZE + p.off + p.len - 1) {
      ExtendLast(q, room, vs, size, p.len);
    }
  }

  lemma GrownTotal(vs: seq<Bvec>, p: Piece)
    requires vs != []
    ensures TotalLen(Apply(vs, p, Merged(p.off > 0))) == TotalLen(vs) + p.len
  {
    assert Apply(vs, p, Merged(p.off > 0))[..|vs| - 1] == vs[..|vs| - 1];
  }

  /** The table grown by the piece keeps every limit. */
  ghost predicate Merges(q: Queue, room: Room, vs: seq<Bvec>, size: nat, p: Piece, pol: Policy)
    requires ValidQueue(q)
  {
    MayMerge(vs, p, pol) && WithinLimits(q, room, Apply(vs, p, Merged(p.off > 0)), size + p.len)
  }

  /** There is a table with the piece in it that keeps every limit. */
  ghost predicate Fits(q: Queue, room: Room, vs: seq<Bvec>, size: nat, p: Piece, pol: Policy)
    requires ValidQueue(q)
  {
    Merges(q, room, vs, size, p, pol) || WithinLimits(q, room, vs + [Bvec(p.page, p.len, p.off)], size + p.len)
  }

  /**
   bio_add_hw_page does what the limits allow, exactly: a piece that may merge is merged when
   the grown table keeps every limit, any other one is appended when the longer table does,
   and only what neither table has room for is refused.
   */
  lemma {:induction false} HwAddExact(q: Queue, room: Room, vs: seq<Bvec>, size: nat, p: Piece, pol: Policy)
    requires ValidQueue(q) && WithinLimits(q, room, vs, size) && InPage(p)
    ensures
      var o := HwAdd(q, room, vs, size, p, pol);
      && (o.Merged? <==> !room.cloned && Merges(q, room, vs, size, p, pol))
      && (!o.Rejected? <==> !room.cloned && Fits(q, room, vs, size, p, pol))
  {
    hide Zone, Gap, TotalLen, WithinLimits, PageIsMergeable, Continues, EntryFits;
    LongerFitsIff(q, room, vs, size, p);
    if vs != [] {
      LastFits(q, room, vs, size);
      MergeableIff(vs[|vs| - 1], p, pol);
      if Continues(vs[|vs| - 1], p) {
        GrownFitsIff(q, room, vs, size, p);
      }
    }
    SizeBound(q, room, vs, size);
  }

  /** The n bytes taken of a piece are all of it if some table with it keeps the limits, and none otherwise. */
  ghost predicate AddedIfFits(q: Queue, room: Room, vs: seq<Bvec>, size: nat, p: Piece, pol: Policy, n: nat)
    requires ValidQueue(q)
  {
    WithinLimits(q, room, vs, size) ==> n == if !room.cloned && Fits(q, room, vs, size, p, pol) then p.len else 0
  }

  lemma {:induction false} AddedExact(q: Queue, room: Room, vs: seq<Bvec>, size: nat, p: Piece, pol: Policy)
    requires ValidQueue(q) && InPage(p)
    ensures AddedIfFits(q, room, vs, size, p, pol, if HwAdd(q, room, vs, size, p, pol).Rejected? then 0 else p.len)
  {
    hide WithinLimits, HwAdd, Fits;
    if WithinLimits(q, room, vs, size) {
      HwAddExact(q, room, vs, size, p, pol);
    }
  }

  lemma SizeBound(q: Queue, room: Room, vs: seq<Bvec>, size: nat)
    requires ValidQueue(q) && WithinLimits(q, room, vs, size)
    ensures size <= UINT_MAX && size / 512 <= room.maxSectors
  {
  }

  lemma EmptyWalk()
    ensures Walk([]) == []
  {
  }

  /** Two pieces that meet inside frame 5: two references taken, one walked. */
  lemma {:induction false} ReferenceLeakExample(q: Queue, room: Room, pol: Policy)
    requires ValidQueue(q) && RoomForOne(q, room) && pol.platformAllows
    ensures var offers := [Offer(Piece(5, 512, 0), pol), Offer(Piece(5, 512, 512), pol)];
            TakenCount(q, room, offers) == 2 && HwRun(q, room, offers).0 == [Bvec(5, 1024, 0)]
            && Walk(HwRun(q, room, offers).0) == [5]
  {
    hide HwAdd, WithinLimits, Zone, Gap;
    var a, b := Piece(5, 512, 0), Piece(5, 512, 512);
    var one: seq<Offer> := [Offer(a, pol)];
    var offers: seq<Offer> := [Offer(a, pol), Offer(b, pol)];
    var none: seq<Offer> := [];
    assert offers[..1] == one && one[..0] == none;
    EmptyTakesOne(q, room, a, pol);
    assert HwRun(q, room, none) == ([], 0);
    assert Apply([], a, Appended) == [Bvec(5, 512, 0)];
    assert HwRun(q, room, one) == ([Bvec(5, 512, 0)], 512);
    CoalescingIsAppending(q, room, one);
    MergesInPageIff(q, room, [Bvec(5, 512, 0)], 512, b, pol);
    assert TakenCount(q, room, none) == 0 && TakenCount(q, room, one) == 1;
    OneEntry(Bvec(5, 1024, 0));
  }

  lemma OneEntry(b: Bvec)
    requires 0 < b.len && b.off + b.len <= PAGE_SIZE
    ensures Walk([b]) == [b.page]
  {
    var vs := [b];
    assert vs[..0] == [];
    assert FramesOf(b) == [b.page];
  }
}
