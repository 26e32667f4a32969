/** Zero-copy mapping: user pages become the bio chain of a passthrough request. */
module DirectMap {
  import opened Params
  import opened Memory
  import opened Cursor
  import opened IovIter
  import opened UserPages
  import opened Bvecs
  import opened Bios
  import opened PinnedBio
  import opened Alignment
  import opened Seams

  const LONG_MAX: nat := 0x7FFF_FFFF_FFFF_FFFF
  const BIO_MAX_VECS: nat := 256

  /** The queue limits of the mapping path; dmaAlign is the DMA alignment mask + 1. */
  datatype Limits = Limits(queue: Queue, maxSectors: nat, dmaAlign: nat)

  /** offs & queue_dma_alignment */
  predicate Misaligned(l: Limits, offs: nat) {
    l.dmaAlign > 0 && offs % l.dmaAlign != 0
  }

  /** What the block layer guarantees of the limits, and that one page fits an empty bio. */
  ghost predicate ValidLimits(l: Limits) {
    && ValidQueue(l.queue) && l.queue.maxSegments > 0 && l.maxSectors >= PAGE_SIZE / 512
    && l.dmaAlign > 0 && PAGE_SIZE % l.dmaAlign == 0
  }

  /**
   State of the page loop: `done` bytes of the window at addr are in the bio after j
   pages. A merge into the last page of the bio adds no page to the per-page walk, but
   its reference is kept: such references are moved to `base`.
   */
  ghost predicate PageState(bio: Bio, frameOf: nat -> nat, refs: multiset<nat>, addr: nat, done: nat, j: nat,
                         pages: seq<nat>, phys0: seq<nat>, size0: nat, vcnt0: nat,
                           base: multiset<nat>)
    reads bio, bio.table
  {
    && bio.Valid() && j <= |pages|
    && bio.vcnt <= vcnt0 + j && bio.size == size0 + done
    && Phys(bio.Vecs()) == phys0 + Translate(frameOf, Range(addr, done))
    && Holds(refs, base, bio.Vecs(), From(pages, j))
  }

  lemma HwAddCases(q: Queue, room: Room, vs: seq<Bvec>, size: nat, p: Piece, pol: Policy)
    requires ValidQueue(q) && q.maxSegments > 0 && room.maxSectors >= PAGE_SIZE / 512
    requires InPage(p) && Positive(vs) && size == TotalLen(vs)
    ensures var o := HwAdd(q, room, vs, size, p, pol);
            && (o.Merged? ==> vs != [] && PageIsMergeable(vs[|vs| - 1], p, pol) == (true, o.samePage))
            && (o.Merged? ==> size > 0 && (o.samePage <==> p.off > 0))
            && (size == 0 && room.maxVecs > 0 && !room.cloned ==> !o.Rejected?)
  {
    hide Zone, Gap;
    if vs != [] {
      TotalLenLast(vs);
    }
    if HwAdd(q, room, vs, size, p, pol).Merged? {
      SamePageIff(q, room, vs, size, p, pol);
    }
  }

  /** The bio keeps every limit it is filled under. */
  ghost predicate Obeys(bio: Bio, l: Limits)
    requires bio.Valid() && ValidLimits(l)
    reads bio, bio.table
  {
    WithinLimits(l.queue, RoomOf(bio, l), bio.Vecs(), bio.size)
  }

  /** No table with this piece in it would keep the limits. */
  ghost predicate Refuses(bio: Bio, l: Limits, p: Piece, pol: Policy)
    requires bio.Valid() && ValidLimits(l)
    reads bio, bio.table
  {
    bio.cloned || !Fits(l.queue, RoomOf(bio, l), bio.Vecs(), bio.size, p, pol)
  }

  function RoomOf(bio: Bio, l: Limits): Room {
    Room(bio.maxVecs, bio.cloned, l.maxSectors)
  }

  /**
   The reference that taking a piece leaves behind unwalked: bio_map_user_iov drops the
   second reference of a merge inside one page only where bio_add_hw_page has failed,
   and there it never reports such a merge.
   */
  ghost function LeakOf(l: Limits, room: Room, vs: seq<Bvec>, size: nat, p: Piece, pol: Policy): multiset<nat> {
    if MergesInPage(l.queue, room, vs, size, p, pol) then multiset{p.page} else multiset{}
  }

  /** One bio_add_hw_page of the page loop. */
  method MapPage(bio: Bio, l: Limits, p: Piece, pol: Policy, ghost frameOf: nat -> nat, ghost refs: multiset<nat>,
                 ghost addr: nat, ghost done: nat, ghost j: nat, ghost pages: seq<nat>, ghost phys0: seq<nat>,
                 ghost size0: nat, ghost vcnt0: nat, ghost base: multiset<nat>)
    returns (taken: bool, ghost leak: multiset<nat>)
    requires PageState(bio, frameOf, refs, addr, done, j, pages, phys0, size0, vcnt0, base)
    requires ValidLimits(l) && InPage(p) && j < |pages| && p.page == pages[j] == frameOf((addr + done) / PAGE_SIZE)
    requires p.off == (addr + done) % PAGE_SIZE && Obeys(bio, l)
    modifies bio`vcnt, bio`size, bio.table
    ensures bio.Valid() && Obeys(bio, l)
    ensures leak == LeakOf(l, RoomOf(bio, l), old(bio.Vecs()), old(bio.size), p, pol)
    ensures p.off == 0 || old(bio.size) == 0 || !taken ==> leak == multiset{}
    ensures taken ==>
      PageState(bio, frameOf, refs, addr, done + p.len, j + 1, pages, phys0, size0, vcnt0, base + leak)
    ensures !taken ==> PageState(bio, frameOf, refs, addr, done, j, pages, phys0, size0, vcnt0, base)
    ensures !taken ==> bio.Vecs() == old(bio.Vecs()) && bio.size == old(bio.size) && Refuses(bio, l, p, pol)
    ensures old(bio.size) == 0 && bio.maxVecs > 0 && !bio.cloned ==> taken
  {
    hide Phys, Translate, Walk, TotalLen, TableOk, Decode, Holds, From, Positive, Range, PieceBytes, HwAdd,
         PageIsMergeable, WithinLimits, MergesInPage, Fits, AddedIfFits;
    ghost var vs := bio.Vecs();
    ghost var room := RoomOf(bio, l);
    ghost var o := HwAdd(l.queue, room, vs, bio.size, p, pol);
    HwAddCases(l.queue, room, vs, bio.size, p, pol);
    TakenDescribes(vs, p, pol, o);
    HwAddSound(l.queue, room, vs, bio.size, p, pol);
    HwAddExact(l.queue, room, vs, bio.size, p, pol);
    MergesInPageIff(l.queue, room, vs, bio.size, p, pol);
    leak := LeakOf(l, room, vs, bio.size, p, pol);
    var n, same := bio.AddHwPage(l.queue, p, l.maxSectors, pol);
    taken := n != 0;
    if taken {
      DropFirst(pages, j);
      KeptReference(refs, base, vs, bio.Vecs(), p, o, From(pages, j + 1));
      assert leak == if o.Merged? && o.samePage then multiset{p.page} else multiset{};
      PieceFollows(frameOf, phys0, addr, done, p);
    } else {
      assert bio.vcnt == |bio.Vecs()|;
    }
  }

  lemma {:induction false} PieceFollows(frameOf: nat -> nat, phys0: seq<nat>, addr: nat, done: nat, p: Piece)
    requires InPage(p) && p.off == (addr + done) % PAGE_SIZE && p.page == frameOf((addr + done) / PAGE_SIZE)
    ensures phys0 + Translate(frameOf, Range(addr, done)) + PieceBytes(p)
         == phys0 + Translate(frameOf, Range(addr, done + p.len))
  {
    hide Range, Translate;
    RangeSplit(addr, done, p.len);
    TranslateConcat(frameOf, Range(addr, done), Range(addr + done, p.len));
    PieceTranslates(frameOf, addr + done, p.len);
  }

  /** The reference of an accepted page is either in the walk now or kept without being walked. */
  lemma {:induction false} KeptReference(refs: multiset<nat>, base: multiset<nat>, vs: seq<Bvec>, vs': seq<Bvec>,
                                         p: Piece, o: Outcome, pending: multiset<nat>)
    requires Holds(refs, base, vs, multiset{p.page} + pending) && Describes(vs, p, o, vs') && !o.Rejected?
    ensures Holds(refs, base + if o.Merged? && o.samePage then multiset{p.page} else multiset{}, vs', pending)
  {
    hide Walk, Phys;
    assert multiset(Walk(vs) + [p.page]) == multiset(Walk(vs)) + multiset{p.page};
    assert Walk(vs) + [] == Walk(vs);
  }

  lemma PageStateFacts(bio: Bio, frameOf: nat -> nat, refs: multiset<nat>, addr: nat, done: nat, j: nat,
                       pages: seq<nat>, phys0: seq<nat>, size0: nat, vcnt0: nat, base: multiset<nat>)
    requires PageState(bio, frameOf, refs, addr, done, j, pages, phys0, size0, vcnt0, base)
    ensures bio.Valid() && bio.size == size0 + done && j <= |pages| && bio.vcnt <= vcnt0 + j
    ensures bio.Vecs() == [] ==> bio.size == 0
    ensures bio.size == 0 ==> bio.Vecs() == []
    ensures Phys(bio.Vecs()) == phys0 + Translate(frameOf, Range(addr, done))
    ensures Holds(refs, base, bio.Vecs(), From(pages, j))
  {
    if bio.Vecs() != [] {
      TotalLenLast(bio.Vecs());
    }
  }

  /** The page loop: as many pages of the window as the limits let into the bio. */
  method MapPages(bio: Bio, l: Limits, words: array<Word>, npages: nat, start: nat, bytes: nat, pols: nat -> Policy,
                  ghost frameOf: nat -> nat, ghost refs: multiset<nat>, ghost addr: nat, ghost pages: seq<nat>,
                  ghost phys0: seq<nat>, ghost size0: nat, ghost vcnt0: nat, ghost base: multiset<nat>)
    returns (j: nat, left: nat, ghost leaked: multiset<nat>)
    requires PageState(bio, frameOf, refs, addr, 0, 0, pages, phys0, size0, vcnt0, base) && ValidLimits(l)
    requires words != bio.table && 0 < bytes && 0 < npages && Intact(words, 0, pages, 0)
    requires start == addr % PAGE_SIZE && |pages| == npages == PagesFor(start + bytes)
    requires Behind(pages, frameOf, addr / PAGE_SIZE) && Obeys(bio, l)
    modifies bio`vcnt, bio`size, bio.table
    ensures left <= bytes && bio.Valid() && Obeys(bio, l)
    ensures PageState(bio, frameOf, refs, addr, bytes - left, j, pages, phys0, size0, vcnt0, base + leaked)
    ensures 0 < left < bytes ==> (start + (bytes - left)) % PAGE_SIZE == 0
    ensures left > 0 ==>
      && bio.vcnt < vcnt0 + npages && j < |pages|
      && Refuses(bio, l, PieceAt(pages[j], addr + (bytes - left), left), pols(j))
    ensures size0 == 0 && bio.maxVecs > 0 && !bio.cloned ==> left < bytes
    ensures leaked == LeakOf(l, RoomOf(bio, l), old(bio.Vecs()), old(bio.size),
                             Piece(pages[0], Min(PAGE_SIZE - start, bytes), start), pols(0))
    ensures left == bytes ==> leaked == multiset{}
    ensures j == PagesOfPart(addr, bytes - left)
  {
    hide Refuses, PieceAt, PagesOfPart, Paging, LeakOf, RoomOf, Intact, Behind, PagesFor, Obeys, PageState, ValidLimits,
         TableOk, Decode, TotalLen, Positive, Phys, Translate, Range, Holds, From, Walk, Bio.Vecs;
    PageStateFacts(bio, frameOf, refs, addr, 0, 0, pages, phys0, size0, vcnt0, base);
    var offs := start;
    j, left, leaked := 0, bytes, multiset{};
    ghost var vs0, piece := bio.Vecs(), Piece(pages[0], Min(PAGE_SIZE - start, bytes), start);
    ghost var first := LeakOf(l, RoomOf(bio, l), vs0, bio.size, piece, pols(0));
    PagingStarts(bio, l, frameOf, refs, addr, bytes, pages, phys0, size0, vcnt0, base, vs0, first);
    while j < npages
      invariant j <= npages && left <= bytes
      invariant Paging(bio, l, frameOf, refs, addr, bytes, bytes - left, j, offs, pages, phys0, size0, vcnt0,
                       base, leaked, vs0, first)
    {
      IntactAt(words, 0, pages, 0);
      var n;
      n, leaked := MapNextPage(bio, l, words, j, offs, left, bytes, pols(j), frameOf, refs, addr, pages,
                               phys0, size0, vcnt0, base, leaked, vs0, first);
      if n == 0 {
        break;
      }
      left, offs, j := left - n, 0, j + 1;
    }
    PagingEnds(bio, l, frameOf, refs, addr, bytes, bytes - left, j, offs, pages, phys0, size0, vcnt0,
               base, leaked, vs0, first);
  }

  /**
   Where the page loop stands: `done` bytes and j pages of the window are in the bio, the
   next piece starts at offset offs of its page, and only the first piece can have left a
   reference behind.
   */
  ghost predicate Paging(bio: Bio, l: Limits, frameOf: nat -> nat, refs: multiset<nat>, addr: nat, bytes: nat,
                         done: nat, j: nat, offs: nat, pages: seq<nat>, phys0: seq<nat>, size0: nat, vcnt0: nat,
                         base: multiset<nat>, leaked: multiset<nat>, vs0: seq<Bvec>, first: multiset<nat>)
    requires ValidLimits(l)
    reads bio, bio.table
  {
    && AtPiece(addr, bytes, done, j, offs) && bio.Valid() && Obeys(bio, l)
    && PageState(bio, frameOf, refs, addr, done, j, pages, phys0, size0, vcnt0, base + leaked)
    && (if j == 0 then bio.Vecs() == vs0 && leaked == multiset{} else leaked == first)
  }

  lemma PagingStarts(bio: Bio, l: Limits, frameOf: nat -> nat, refs: multiset<nat>, addr: nat, bytes: nat,
                     pages: seq<nat>, phys0: seq<nat>, size0: nat, vcnt0: nat, base: multiset<nat>,
                     vs0: seq<Bvec>, first: multiset<nat>)
    requires ValidLimits(l) && bio.Valid() && Obeys(bio, l) && 0 < bytes && bio.Vecs() == vs0
    requires PageState(bio, frameOf, refs, addr, 0, 0, pages, phys0, size0, vcnt0, base)
    ensures Paging(bio, l, frameOf, refs, addr, bytes, 0, 0, addr % PAGE_SIZE, pages, phys0, size0, vcnt0,
                   base, multiset{}, vs0, first)
  {
    hide PageState, Obeys, AtPiece;
    assert base + multiset{} == base;
    NextPiece(addr, bytes, 0, 0, addr % PAGE_SIZE);
  }

  lemma PagingEnds(bio: Bio, l: Limits, frameOf: nat -> nat, refs: multiset<nat>, addr: nat, bytes: nat,
                   done: nat, j: nat, offs: nat, pages: seq<nat>, phys0: seq<nat>, size0: nat, vcnt0: nat,
                   base: multiset<nat>, leaked: multiset<nat>, vs0: seq<Bvec>, first: multiset<nat>)
    requires ValidLimits(l) && |pages| == PagesFor(addr % PAGE_SIZE + bytes)
    requires Paging(bio, l, frameOf, refs, addr, bytes, done, j, offs, pages, phys0, size0, vcnt0,
                    base, leaked, vs0, first)
    ensures done <= bytes && j <= |pages| && bio.Valid() && Obeys(bio, l) && bio.vcnt <= vcnt0 + j
    ensures PageState(bio, frameOf, refs, addr, done, j, pages, phys0, size0, vcnt0, base + leaked)
    ensures 0 < done < bytes ==> (addr % PAGE_SIZE + done) % PAGE_SIZE == 0
    ensures (done == bytes <==> j == |pages|) && (j == 0 <==> done == 0)
    ensures j == PagesOfPart(addr, done)
    ensures if j == 0 then leaked == multiset{} && bio.Vecs() == vs0 else leaked == first
  {
    hide PageState, Obeys, AtPiece, PagesFor;
    PieceFacts(addr, bytes, done, j, offs);
    PiecesBefore(addr, bytes, done, j, offs);
    PageStateFacts(bio, frameOf, refs, addr, done, j, pages, phys0, size0, vcnt0, base + leaked);
  }

  /** What is offered of a window of which n bytes, from address x on, are left. */
  ghost function PieceAt(page: nat, x: nat, n: nat): Piece {
    Piece(page, Min(PAGE_SIZE - x % PAGE_SIZE, n), x % PAGE_SIZE)
  }

  /** How many pages the first `done` bytes at addr touch. */
  function PagesOfPart(addr: nat, done: nat): nat {
    if done == 0 then 0 else PagesFor(addr % PAGE_SIZE + done)
  }

  lemma NoPart(addr: nat)
    ensures PagesOfPart(addr, 0) == 0
  {
  }

  lemma PiecesBefore(addr: nat, bytes: nat, done: nat, j: nat, offs: nat)
    requires AtPiece(addr, bytes, done, j, offs)
    ensures j == PagesOfPart(addr, done)
  {
  }

  /** One turn of the page loop: the bytes of the next page that went into the bio. */
  method MapNextPage(bio: Bio, l: Limits, words: array<Word>, j: nat, offs: nat, left: nat, ghost bytes: nat,
                     pol: Policy, ghost frameOf: nat -> nat, ghost refs: multiset<nat>, ghost addr: nat,
                     ghost pages: seq<nat>, ghost phys0: seq<nat>, ghost size0: nat, ghost vcnt0: nat,
                     ghost base: multiset<nat>, ghost leaked: multiset<nat>, ghost vs0: seq<Bvec>,
                     ghost first: multiset<nat>)
    returns (n: nat, ghost leaked': multiset<nat>)
    requires ValidLimits(l) && words != bio.table && left <= bytes
    requires Paging(bio, l, frameOf, refs, addr, bytes, bytes - left, j, offs, pages, phys0, size0, vcnt0,
                    base, leaked, vs0, first)
    requires j < |pages| == PagesFor(addr % PAGE_SIZE + bytes) && Intact(words, 0, pages, j)
    requires Behind(pages, frameOf, addr / PAGE_SIZE) && size0 == TotalLen(vs0)
    requires first == LeakOf(l, RoomOf(bio, l), vs0, size0,
                             Piece(pages[0], Min(PAGE_SIZE - addr % PAGE_SIZE, bytes), addr % PAGE_SIZE), pol) || j > 0
    modifies bio`vcnt, bio`size, bio.table
    ensures n <= left
    ensures n == 0 ==> leaked' == leaked && bio.Valid()
    ensures n == 0 ==> Refuses(bio, l, PieceAt(pages[j], addr + (bytes - left), left), pol)
    ensures n == 0 ==> Paging(bio, l, frameOf, refs, addr, bytes, bytes - left, j, offs, pages, phys0, size0, vcnt0,
                              base, leaked', vs0, first)
    ensures n > 0 ==> Paging(bio, l, frameOf, refs, addr, bytes, bytes - left + n, j + 1, 0, pages, phys0, size0, vcnt0,
                             base, leaked', vs0, first)
    ensures size0 == 0 && j == 0 && bio.maxVecs > 0 && !bio.cloned ==> n > 0
    ensures j == 0 && n == 0 ==> first == multiset{}
  {
    hide PageState, HwAdd, From, Holds, Phys, Translate, Range, Positive, TotalLen, TableOk, Decode, PagesFor, AtPiece,
         LeakOf, Intact, Behind, Obeys, Refuses;
    ghost var done := bytes - left;
    IntactAt(words, 0, pages, j);
    BehindAt(pages, frameOf, addr / PAGE_SIZE, j);
    PieceFacts(addr, bytes, done, j, offs);
    NextPiece(addr, bytes, done, j, offs);
    n := Min(PAGE_SIZE - offs, left);
    PageStateFacts(bio, frameOf, refs, addr, done, j, pages, phys0, size0, vcnt0, base + leaked);
    var taken;
    ghost var leak;
    taken, leak := MapPage(bio, l, Piece(words[j].page, n, offs), pol, frameOf, refs, addr, done, j, pages,
                           phys0, size0, vcnt0, base + leaked);
    leaked' := leaked + leak;
    assert base + leaked' == base + leaked + leak;
    if !taken {
      n, leaked' := 0, leaked;
    }
  }

  /**
   What bio_map_user_iov has built since the iterator stood at c: the bio describes
   exactly the physical bytes behind the addresses consumed, in order, and holds one
   reference for every page of its walk.
   */
  ghost predicate Gathered(bio: Bio, it: Iter, mm: AddressSpace, c: Cur, base: multiset<nat>)
    requires Wf(it.vec, c)
    reads bio, bio.table, it, mm
  {
    && bio.Valid() && it.Valid() && bio.size <= c.count
    && it.count == c.count - bio.size && Pos(it.vec, it.Where()) == Pos(it.vec, c) + bio.size
    && it.Rest() == RestOf(it.vec, c)[bio.size..]
    && Phys(bio.Vecs()) == Translate(mm.frameOf, RestOf(it.vec, c)[..bio.size])
    && Holds(mm.refs, base, bio.Vecs(), multiset{})
  }

  /** The same for a cursor position c1 on its way: what the bio has is what lies between c and c1. */
  ghost predicate Reached(bio: Bio, v: seq<Segment>, frameOf: nat -> nat, c: Cur, c1: Cur)
    requires Wf(v, c) && Wf(v, c1)
    reads bio, bio.table
  {
    && bio.Valid() && bio.size <= c.count && c1.count == c.count - bio.size
    && Pos(v, c1) == Pos(v, c) + bio.size && RestOf(v, c1) == RestOf(v, c)[bio.size..]
    && Phys(bio.Vecs()) == Translate(frameOf, RestOf(v, c)[..bio.size])
  }

  lemma GatheredReached(bio: Bio, it: Iter, mm: AddressSpace, c: Cur, base: multiset<nat>)
    requires Wf(it.vec, c) && Gathered(bio, it, mm, c, base)
    ensures it.Valid() && bio.Valid() && Reached(bio, it.vec, mm.frameOf, c, it.Where())
    ensures bio.size <= c.count && it.count == c.count - bio.size
    ensures Pos(it.vec, it.Where()) == Pos(it.vec, c) + bio.size
    ensures Holds(mm.refs, base, bio.Vecs(), multiset{})
  {
  }

  lemma ReachedGathered(bio: Bio, it: Iter, mm: AddressSpace, c: Cur, base: multiset<nat>)
    requires it.Valid() && Wf(it.vec, c) && Reached(bio, it.vec, mm.frameOf, c, it.Where())
    requires Holds(mm.refs, base, bio.Vecs(), multiset{})
    ensures Gathered(bio, it, mm, c, base)
  {
  }

  /** The remaining addresses are aligned for DMA. */
  ghost predicate DmaAligned(it: Iter, a: nat)
    requires it.Valid() && a > 0
    reads it
  {
    AlignedAt(it.vec, Pos(it.vec, it.Where()), it.count, a)
  }

  /** One mapping round after its window of `bytes` bytes at addr is pinned. */
  method MapPinned(bio: Bio, it: Iter, mm: AddressSpace, l: Limits, words: array<Word>, start: nat, bytes: nat,
                   pols: nat -> Policy, ghost addr: nat, ghost pages: seq<nat>, ghost c: Cur, ghost c1: Cur,
                   ghost base: multiset<nat>)
    returns (left: nat, ghost leaked: multiset<nat>)
    requires bio.Valid() && !bio.cloned && ValidLimits(l) && it.Valid() && words != bio.table
    requires Wf(it.vec, c) && Wf(it.vec, c1) && Reached(bio, it.vec, mm.frameOf, c, c1)
    requires 0 < bytes <= c1.count && bytes <= MAX_RW_COUNT
    requires it.count == c1.count - bytes && Pos(it.vec, it.Where()) == Pos(it.vec, c1) + bytes
    requires RestOf(it.vec, c1)[..bytes] == Range(addr, bytes) && start == addr % PAGE_SIZE
    requires pages == Frames(mm.frameOf, addr / PAGE_SIZE, PagesFor(start + bytes))
    requires PagePointers(words[..], 0, pages) && Holds(mm.refs, base, bio.Vecs(), multiset(pages)) && Obeys(bio, l)
    modifies bio`vcnt, bio`size, bio.table, it, mm
    ensures bio.Valid() && Obeys(bio, l)
    ensures left <= bytes && bio.size == old(bio.size) + (bytes - left)
    ensures Gathered(bio, it, mm, c, base + leaked) && it.count == c1.count - (bytes - left)
    ensures left == 0 ==> it.Where() == old(it.Where())
    ensures 0 < left < bytes ==> (start + (bytes - left)) % PAGE_SIZE == 0
    ensures old(bio.size) == 0 && bio.maxVecs > 0 && !Misaligned(l, start) ==> left < bytes
    ensures left > 0 && !Misaligned(l, start) ==> bio.vcnt < old(bio.vcnt) + |pages|
    ensures if Misaligned(l, start) then left == bytes else
      left > 0 ==> RefusesAt(bio, l, mm.frameOf, addr + (bytes - left), left, pols)
    ensures bio.vcnt <= old(bio.vcnt) + |pages|
    ensures left == bytes ==> leaked == multiset{}
    ensures |mm.refs| + |pages| == |old(mm.refs)| + PagesOfPart(addr, bytes - left)
    ensures leaked == if Misaligned(l, start) then multiset{} else
      LeakOf(l, RoomOf(bio, l), old(bio.Vecs()), old(bio.size), FirstPiece(mm.frameOf, addr, bytes), pols(0))
  {
    hide RestOf, Phys, Walk, TotalLen, TableOk, Decode, Holds, Translate, PagesFor, Flat, Range, Positive, Frames,
         Gathered, From, Intact, PagePointers, ValidLimits, Misaligned, Obeys, LeakOf, Bio.Vecs, PagesOfPart, Wf,
         Iter.Valid, Start, RefusesAt;
    ghost var phys0, size0 := Phys(bio.Vecs()), bio.size;
    var j: nat;
    j, left, leaked := OfferPages(bio, l, words, start, bytes, pols, mm.frameOf, mm.refs, addr, pages, base);
    Settle(bio, it, mm, words, j, PagesFor(start + bytes), left, addr, pages, bytes, c, c1, phys0, size0,
           base + leaked);
  }

  /** The page loop, unless the window does not begin where the device can reach it. */
  method OfferPages(bio: Bio, l: Limits, words: array<Word>, start: nat, bytes: nat, pols: nat -> Policy,
                    ghost frameOf: nat -> nat, ghost refs: multiset<nat>, ghost addr: nat, ghost pages: seq<nat>,
                    ghost base: multiset<nat>)
    returns (j: nat, left: nat, ghost leaked: multiset<nat>)
    requires bio.Valid() && !bio.cloned && ValidLimits(l) && words != bio.table && Obeys(bio, l)
    requires 0 < bytes && start == addr % PAGE_SIZE
    requires pages == Frames(frameOf, addr / PAGE_SIZE, PagesFor(start + bytes))
    requires PagePointers(words[..], 0, pages) && Holds(refs, base, bio.Vecs(), multiset(pages))
    modifies bio`vcnt, bio`size, bio.table
    ensures bio.Valid() && Obeys(bio, l) && left <= bytes && bio.size == old(bio.size) + (bytes - left)
    ensures Phys(bio.Vecs()) == old(Phys(bio.Vecs())) + Translate(frameOf, Range(addr, bytes - left))
    ensures j <= |pages| && Intact(words, 0, pages, j) && Holds(refs, base + leaked, bio.Vecs(), From(pages, j))
    ensures j == PagesOfPart(addr, bytes - left)
    ensures 0 < left < bytes ==> (start + (bytes - left)) % PAGE_SIZE == 0
    ensures old(bio.size) == 0 && bio.maxVecs > 0 && !Misaligned(l, start) ==> left < bytes
    ensures left > 0 && !Misaligned(l, start) ==> bio.vcnt < old(bio.vcnt) + |pages|
    ensures if Misaligned(l, start) then left == bytes else
      left > 0 ==> RefusesAt(bio, l, frameOf, addr + (bytes - left), left, pols)
    ensures bio.vcnt <= old(bio.vcnt) + |pages|
    ensures left == bytes ==> leaked == multiset{}
    ensures leaked == if Misaligned(l, start) then multiset{} else
      LeakOf(l, RoomOf(bio, l), old(bio.Vecs()), old(bio.size), FirstPiece(frameOf, addr, bytes), pols(0))
  {
    hide Phys, Walk, TotalLen, TableOk, Decode, PageState, Holds, Translate, PagesFor, Range,
         Positive, Frames, HwAdd, From, Intact, PagePointers, ValidLimits, Misaligned, Obeys, LeakOf, Bio.Vecs,
         Refuses, RefusesAt, PagesOfPart;
    ghost var phys0, size0, vcnt0 := Phys(bio.Vecs()), bio.size, bio.vcnt;
    assert Behind(pages, frameOf, addr / PAGE_SIZE);
    hide Behind;
    var npages := PagesFor(start + bytes);
    j, left, leaked := 0, bytes, multiset{};
    assert base + leaked == base;
    IntactAll(words, 0, pages);
    PagesPositive(start + bytes);
    assert PagesOfPart(addr, 0) == 0 by { NoPart(addr); }
    assert pages[0] == frameOf(addr / PAGE_SIZE + 0);
    StateNothing(bio, frameOf, refs, addr, pages, base);
    if !Misaligned(l, start) {
      j, left, leaked := MapPages(bio, l, words, npages, start, bytes, pols, frameOf, refs, addr, pages,
                                  phys0, size0, vcnt0, base);
    }
    PageStateFacts(bio, frameOf, refs, addr, bytes - left, j, pages, phys0, size0, vcnt0, base + leaked);
    IntactAt(words, 0, pages, 0);
    if left > 0 && !Misaligned(l, start) {
      OfferStops(bio, l, frameOf, addr, bytes, left, j, pages, pols);
    }
  }

  lemma OfferStops(bio: Bio, l: Limits, frameOf: nat -> nat, addr: nat, bytes: nat, left: nat, j: nat, pages: seq<nat>,
                   pols: nat -> Policy)
    requires bio.Valid() && ValidLimits(l) && 0 < left <= bytes && j < |pages| && j == PagesOfPart(addr, bytes - left)
    requires left < bytes ==> (addr % PAGE_SIZE + (bytes - left)) % PAGE_SIZE == 0
    requires Behind(pages, frameOf, addr / PAGE_SIZE)
    requires Refuses(bio, l, PieceAt(pages[j], addr + (bytes - left), left), pols(j))
    ensures RefusesAt(bio, l, frameOf, addr + (bytes - left), left, pols)
  {
    hide PieceAt, Refuses, PagesOfPart;
    PartPage(addr, bytes, bytes - left, j);
    BehindAt(pages, frameOf, addr / PAGE_SIZE, j);
  }

  /** The limits refuse the next piece of n bytes, or fewer, from user address x on. */
  ghost predicate RefusesAt(bio: Bio, l: Limits, frameOf: nat -> nat, x: nat, n: nat, pols: nat -> Policy)
    requires bio.Valid() && ValidLimits(l)
    reads bio, bio.table
  {
    exists j: nat :: Refuses(bio, l, PieceAt(frameOf(x / PAGE_SIZE), x, n), pols(j))
  }

  /** The page that is next after `done` bytes of a window of whole pages. */
  lemma PartPage(addr: nat, bytes: nat, done: nat, j: nat)
    requires done < bytes && j == PagesOfPart(addr, done)
    requires 0 < done ==> (addr % PAGE_SIZE + done) % PAGE_SIZE == 0
    ensures (addr + done) / PAGE_SIZE == addr / PAGE_SIZE + j
  {
  }

  /** What a window of `bytes` bytes at addr offers the bio first. */
  ghost function FirstPiece(frameOf: nat -> nat, addr: nat, bytes: nat): Piece {
    PieceAt(frameOf(addr / PAGE_SIZE), addr, bytes)
  }

  /** The pages beyond the j that went into the bio are put, and the iterator goes back over what is left. */
  method Settle(bio: Bio, it: Iter, mm: AddressSpace, words: array<Word>, j: nat, npages: nat, left: nat,
                ghost addr: nat, ghost pages: seq<nat>, ghost bytes: nat, ghost c: Cur, ghost c1: Cur,
                ghost phys0: seq<nat>, ghost size0: nat, ghost base: multiset<nat>)
    requires bio.Valid() && it.Valid() && Wf(it.vec, c) && Wf(it.vec, c1)
    requires size0 + c1.count == c.count && left <= bytes <= c1.count && bytes <= MAX_RW_COUNT
    requires bio.size == size0 + (bytes - left)
    requires Pos(it.vec, c1) == Pos(it.vec, c) + size0 && RestOf(it.vec, c1) == RestOf(it.vec, c)[size0..]
    requires it.count == c1.count - bytes && Pos(it.vec, it.Where()) == Pos(it.vec, c1) + bytes
    requires RestOf(it.vec, c1)[..bytes] == Range(addr, bytes)
    requires phys0 == Translate(mm.frameOf, RestOf(it.vec, c)[..size0])
    requires Phys(bio.Vecs()) == phys0 + Translate(mm.frameOf, Range(addr, bytes - left))
    requires j <= npages == |pages| && Intact(words, 0, pages, j) && Holds(mm.refs, base, bio.Vecs(), From(pages, j))
    modifies it, mm
    ensures Gathered(bio, it, mm, c, base) && it.count == c1.count - (bytes - left)
    ensures left == 0 ==> it.Where() == old(it.Where())
    ensures |mm.refs| + (npages - j) == |old(mm.refs)|
  {
    hide RestOf, Phys, Walk, TotalLen, TableOk, Decode, Holds, Translate, Reverted, Flat, Range, Positive, Gathered,
         From, Intact;
    PutPages(words, mm, 0, j, npages, bio.Vecs(), pages, base);
    if left > 0 {
      it.Revert(left);
    }
    GatheredWindow(bio, it, mm, c, c1, addr, bytes - left, bytes, phys0, size0, base);
  }

  lemma PagesPositive(x: nat)
    requires 0 < x
    ensures 0 < PagesFor(x)
  {
  }

  lemma {:induction false} StateNothing(bio: Bio, frameOf: nat -> nat, refs: multiset<nat>, addr: nat,
                                        pages: seq<nat>, base: multiset<nat>)
    requires bio.Valid() && Holds(refs, base, bio.Vecs(), multiset(pages))
    ensures PageState(bio, frameOf, refs, addr, 0, 0, pages, Phys(bio.Vecs()), bio.size, bio.vcnt, base)
  {
    FromEnds(pages);
    assert Phys(bio.Vecs()) == Phys(bio.Vecs()) + Translate(frameOf, Range(addr, 0));
  }

  lemma {:induction false} GatheredWindow(bio: Bio, it: Iter, mm: AddressSpace, c: Cur, c1: Cur, addr: nat, done: nat,
                                          got: nat, phys0: seq<nat>, size0: nat, base: multiset<nat>)
    requires bio.Valid() && it.Valid() && Wf(it.vec, c) && Wf(it.vec, c1)
    requires size0 + c1.count == c.count && done <= got <= c1.count && bio.size == size0 + done
    requires Pos(it.vec, c1) == Pos(it.vec, c) + size0 && RestOf(it.vec, c1) == RestOf(it.vec, c)[size0..]
    requires it.count == c1.count - done && Pos(it.vec, it.Where()) == Pos(it.vec, c1) + done
    requires RestOf(it.vec, c1)[..got] == Range(addr, got)
    requires phys0 == Translate(mm.frameOf, RestOf(it.vec, c)[..size0])
    requires Phys(bio.Vecs()) == phys0 + Translate(mm.frameOf, Range(addr, done))
    requires Holds(mm.refs, base, bio.Vecs(), multiset{})
    ensures Gathered(bio, it, mm, c, base)
  {
    hide RestOf, Phys, Holds, Translate, Flat, Positive, TotalLen, TableOk, Decode;
    RestAfter(it.vec, c, it.Where(), bio.size);
    var rest := RestOf(it.vec, c);
    assert rest[size0..][..done] == rest[size0..][..got][..done] == Range(addr, done);
    SlicesTwice(mm.frameOf, rest, size0, done, []);
    assert [] + Translate(mm.frameOf, rest[..size0]) == Translate(mm.frameOf, rest[..size0]);
    assert [] + Translate(mm.frameOf, rest[..size0 + done]) == Translate(mm.frameOf, rest[..size0 + done]);
  }

  /** The limits do not refuse to merge any part of `total` bytes. */
  predicate Generous(l: Limits, total: nat) {
    total <= l.queue.maxSegmentSize && total <= UINT_MAX && total / 512 <= l.maxSectors
  }

  /** Once something is in the bio, the next byte is the first of a segment or of a user page. */
  ghost predicate CutAt(v: seq<Segment>, c: Cur, some: bool)
    requires Wf(v, c)
  {
    some && c.count > 0 ==> Begins(v, Pos(v, c)) || RestOf(v, c)[0] % PAGE_SIZE == 0
  }

  /** The seam that a round starting at x with something in the bio goes across. */
  ghost function Crossed(v: seq<Segment>, frameOf: nat -> nat, some: bool, x: nat): multiset<nat> {
    if some then SeamAt(v, frameOf, x) else multiset{}
  }

  /** A round leaks at most the seam it crosses, and exactly that one when the limits allow the merge. */
  lemma {:induction false} LeakIsSeam(l: Limits, room: Room, v: seq<Segment>, frameOf: nat -> nat, c: Cur,
                                      vs: seq<Bvec>, size: nat, p: Piece, pol: Policy)
    requires Wf(v, c) && Positive(vs) && size == TotalLen(vs) < c.count && !room.cloned
    requires room.maxSectors == l.maxSectors
    requires Phys(vs) == Translate(frameOf, RestOf(v, c)[..size])
    requires var a := RestOf(v, c)[size]; p.page == frameOf(a / PAGE_SIZE) && p.off == a % PAGE_SIZE
    requires size + p.len <= c.count
    requires size > 0 ==> Begins(v, Pos(v, c) + size) || p.off == 0
    ensures LeakOf(l, room, vs, size, p, pol) <= Crossed(v, frameOf, size > 0, Pos(v, c) + size)
    ensures Generous(l, c.count) && pol.platformAllows ==>
      LeakOf(l, room, vs, size, p, pol) == Crossed(v, frameOf, size > 0, Pos(v, c) + size)
  {
    hide RestOf, Flat, Phys, Translate, PhysAt;
    if vs == [] {
      assert size == 0;
    } else {
      TotalLenLast(vs);
      ContinuesIff(v, frameOf, c, vs, size, p);
    }
  }

  /** A window ends where the next one may start: at its segment's end, or at a page end. */
  lemma {:induction false} NextCut(v: seq<Segment>, c: Cur, c': Cur, t: nat)
    requires Wf(v, c) && Wf(v, c') && 0 < t < c.count && t <= Chunk(v, c.seg, c.off, c.count)
    requires c'.count == c.count - t && Pos(v, c') == Pos(v, c) + t
    requires t < Chunk(v, c.seg, c.off, c.count) ==> (RestOf(v, c)[0] % PAGE_SIZE + t) % PAGE_SIZE == 0
    ensures Begins(v, Pos(v, c')) || RestOf(v, c')[0] % PAGE_SIZE == 0
    ensures t < Chunk(v, c.seg, c.off, c.count) ==> RestOf(v, c')[0] % PAGE_SIZE == 0
  {
    hide RestOf, Chunk;
    SameRest(v, c, Cur(c.seg, 0, c.off, c.count));
    SameRest(v, c', Cur(c'.seg, 0, c'.off, c'.count));
    var k := ChunkSegment(v, c.seg, c.off, c.count);
    var k' := ChunkSegment(v, c'.seg, c'.off, c'.count);
    if k' < k {
      StartMono(v, k' + 1, k);
    } else if k < k' {
      StartMono(v, k + 1, k');
    }
  }

  /** A position on a page start is no seam. */
  lemma PageStartNoSeam(v: seq<Segment>, frameOf: nat -> nat, c: Cur)
    requires Wf(v, c) && c.count > 0 && RestOf(v, c)[0] % PAGE_SIZE == 0
    ensures SeamAt(v, frameOf, Pos(v, c)) == multiset{}
  {
    hide Flat;
  }

  /** What a round fails with: no array for the page pointers, or what get_user_pages has to say. */
  function WindowError(gup: int, arrayOk: bool): int {
    if !arrayOk then ENOMEM else if gup > 0 then 0 else if gup < 0 then gup else EFAULT
  }

  /**
   One round of bio_map_user_iov: a window of pages is pinned, as much of it as fits goes
   into the bio, and the rest is unpinned and given back to the iterator.
   */
  method MapWindow(bio: Bio, it: Iter, mm: AddressSpace, l: Limits, gup: int, arrayOk: bool, pols: nat -> Policy,
                   ghost c: Cur, ghost base: multiset<nat>)
    returns (err: int, left: nat, ghost leaked: multiset<nat>)
    requires Wf(it.vec, c) && Gathered(bio, it, mm, c, base) && it.count > 0 && it.kind.IovecIter?
    requires !bio.cloned && ValidLimits(l) && Obeys(bio, l)
    modifies bio`vcnt, bio`size, bio.table, it, mm
    ensures Gathered(bio, it, mm, c, base + leaked) && Obeys(bio, l)
    ensures err == WindowError(gup, arrayOk)
    ensures err != 0 ==>
      && it.Where() == old(it.Where()) && bio.size == old(bio.size) && bio.vcnt == old(bio.vcnt)
      && mm.refs == old(mm.refs) && leaked == multiset{} && left == 0
    ensures err == 0 ==>
      RoundOk(it.vec, mm.frameOf, l, c, old(it.Where()), it.Where(), left, pols(0).platformAllows, bio.maxVecs,
              old(bio.size), bio.size, old(bio.vcnt), bio.vcnt, |mm.refs| - |old(mm.refs)|, leaked)
    ensures err == 0 && left > 0 ==> RefusesNext(bio, l, mm.frameOf, it.vec, it.Where(), pols)
    ensures err == 0 && !Reachable(l, old(it.Rest())[0]) ==> left > 0 && bio.size == old(bio.size)
  {
    hide RestOf, Phys, Walk, TotalLen, TableOk, Decode, Holds, Translate, PagesFor, Flat, Range, Positive, Frames,
         Obeys, Reached, Gathered, Pinned, WindowError, RoundOk, PagePointers, Wf, Iter.Valid, Start, RefusesNext,
         Reachable;
    GatheredReached(bio, it, mm, c, base);
    ghost var c1, vs := it.Where(), bio.Vecs();
    leaked, left := multiset{}, 0;
    assert base + leaked == base;
    var bytes: nat, start: nat, words;
    ghost var pages;
    err, bytes, start, words, pages := PinNext(it, mm, gup, arrayOk);
    assert bio.Vecs() == vs;
    if err != 0 {
      ReachedGathered(bio, it, mm, c, base);
      return;
    }
    HoldsMore(old(mm.refs), mm.refs, base, vs, pages);
    left, leaked := MapPinnedWindow(bio, it, mm, l, words, start, bytes, pols, gup, pages, c, c1, base);
  }

  /**
   The bio may end here: the device cannot reach the next byte, or the limits refuse the piece
   of a page that it begins.
   */
  ghost predicate RefusesNext(bio: Bio, l: Limits, frameOf: nat -> nat, v: seq<Segment>, c: Cur, pols: nat -> Policy)
    requires bio.Valid() && ValidLimits(l) && Wf(v, c)
    reads bio, bio.table
  {
    && c.count > 0
    && var x := RestOf(v, c)[0];
    (Misaligned(l, x % PAGE_SIZE) || exists n :: 0 < n <= c.count && RefusesAt(bio, l, frameOf, x, n, pols))
  }

  lemma StopsAt(bio: Bio, l: Limits, frameOf: nat -> nat, v: seq<Segment>, c1: Cur, c: Cur, bytes: nat, left: nat,
                pols: nat -> Policy)
    requires bio.Valid() && ValidLimits(l) && Wf(v, c1) && Wf(v, c) && 0 < left <= bytes <= c1.count
    requires c.count == c1.count - (bytes - left) && Pos(v, c) == Pos(v, c1) + (bytes - left)
    requires var addr := RestOf(v, c1)[0];
      && RestOf(v, c1)[..bytes] == Range(addr, bytes)
      && (0 < left < bytes ==> (addr % PAGE_SIZE + (bytes - left)) % PAGE_SIZE == 0)
      && (Misaligned(l, addr % PAGE_SIZE) ==> left == bytes)
      && (!Misaligned(l, addr % PAGE_SIZE) ==> RefusesAt(bio, l, frameOf, addr + (bytes - left), left, pols))
    ensures RefusesNext(bio, l, frameOf, v, c, pols)
  {
    hide RestOf, RefusesAt, Misaligned;
    var addr := RestOf(v, c1)[0];
    RestAfter(v, c1, c, bytes - left);
    assert RestOf(v, c)[0] == RestOf(v, c1)[bytes - left] == RestOf(v,
                  c1)[..bytes][bytes - left] == addr + (bytes - left);
  }

  /** The device can address a buffer that begins at this user address. */
  ghost predicate Reachable(l: Limits, a: nat)
    requires ValidLimits(l)
  {
    a % PAGE_SIZE % l.dmaAlign == 0
  }

  lemma OutOfReach(l: Limits, a: nat)
    requires ValidLimits(l)
    ensures Reachable(l, a) <==> !Misaligned(l, a % PAGE_SIZE)
  {
  }

  /** The part of a round after its window is pinned. */
  method MapPinnedWindow(bio: Bio, it: Iter, mm: AddressSpace, l: Limits, words: array<Word>, start: nat, bytes: nat,
                         pols: nat -> Policy, ghost gup: int, ghost pages: seq<nat>, ghost c: Cur, ghost c1: Cur,
                         ghost base: multiset<nat>)
    returns (left: nat, ghost leaked: multiset<nat>)
    requires bio.Valid() && !bio.cloned && ValidLimits(l) && it.Valid() && words != bio.table && Obeys(bio, l)
    requires Wf(it.vec, c) && Wf(it.vec, c1) && Reached(bio, it.vec, mm.frameOf, c, c1)
    requires Pinned(it.vec, c1, gup, bytes) && 0 < bytes <= c1.count && bytes <= MAX_RW_COUNT
    requires it.count == c1.count - bytes && Pos(it.vec, it.Where()) == Pos(it.vec, c1) + bytes
    requires var addr := RestOf(it.vec, c1)[0];
      && RestOf(it.vec, c1)[..bytes] == Range(addr, bytes) && start == addr % PAGE_SIZE
      && pages == Frames(mm.frameOf, addr / PAGE_SIZE, PagesFor(start + bytes))
    requires PagePointers(words[..], 0, pages) && Holds(mm.refs, base, bio.Vecs(), multiset(pages))
    modifies bio`vcnt, bio`size, bio.table, it, mm
    ensures Wf(it.vec, it.Where()) && Gathered(bio, it, mm, c, base + leaked) && bio.Valid() && Obeys(bio, l)
    ensures RoundOk(it.vec, mm.frameOf, l, c, c1, it.Where(), left, pols(0).platformAllows, bio.maxVecs,
                    old(bio.size), bio.size, old(bio.vcnt), bio.vcnt, |mm.refs| + |pages| - |old(mm.refs)|, leaked)
    ensures left > 0 ==> RefusesNext(bio, l, mm.frameOf, it.vec, it.Where(), pols)
    ensures !Reachable(l, RestOf(it.vec, c1)[0]) ==> left > 0 && bio.size == old(bio.size)
  {
    hide RestOf, Phys, Walk, TotalLen, TableOk, Decode, Holds, Translate, PagesFor, Flat, Range, Positive, Frames,
         Obeys, PagesOfPart, LeakOf, FirstPiece, RoomOf, Gathered, Pinned, Misaligned, RoundOk, PagePointers, Start,
         CutAt, Crossed, Generous, RefusesAt, RefusesNext, Reachable;
    ghost var addr, size0, vcnt0 := RestOf(it.vec, c1)[0], bio.size, bio.vcnt;
    ghost var leak := LeakOf(l, RoomOf(bio, l), bio.Vecs(), bio.size, FirstPiece(mm.frameOf, addr, bytes), pols(0));
    WindowLeak(bio, l, it.vec, mm.frameOf, c, c1, addr, bytes, pols(0));
    OutOfReach(l, addr);
    left, leaked := MapPinned(bio, it, mm, l, words, start, bytes, pols, addr, pages, c, c1, base);
    GatheredReached(bio, it, mm, c, base + leaked);
    RoundDone(it.vec, mm.frameOf, l, c, c1, it.Where(), gup, bytes, left, pols(0).platformAllows, bio.maxVecs,
              size0, bio.size, vcnt0, bio.vcnt, |mm.refs| + |pages| - |old(mm.refs)|, leak, leaked);
    if left > 0 {
      StopsAt(bio, l, mm.frameOf, it.vec, c1, it.Where(), bytes, left, pols);
    }
  }

  /**
   A successful round took the iterator from c1 to c', with c where the bio was begun. An
   aligned round goes on aligned, and puts something into an empty bio. References grow as
   the page count of the iterator falls, and the table does not run out of entries before
   pages do. What leaked is at most, and exactly if nothing refuses the merge, the seam the
   round went across; it went across no other, and ends where a window may begin.
   */
  ghost predicate RoundOk(v: seq<Segment>, frameOf: nat -> nat, l: Limits, c: Cur, c1: Cur, c': Cur, left: nat,
                          allows: bool, maxVecs: nat, size0: nat, size: nat, vcnt0: nat, vcnt: nat, grown: int,
                          leaked: multiset<nat>)
    requires Wf(v, c) && Wf(v, c1) && Wf(v, c') && ValidLimits(l)
  {
    var pages, pages' := NPages(v, c1.seg, c1.off, c1.count), NPages(v, c'.seg, c'.off, c'.count);
    var aligned, capped := AlignedAt(v, Pos(v, c1), c1.count, l.dmaAlign), c.count <= MAX_RW_COUNT;
    var cut, seam := CutAt(v, c1, size0 > 0), Crossed(v, frameOf, size0 > 0, Pos(v, c1));
    && size0 <= size && (left == 0 ==> size0 < size) && (left > 0 ==> c'.count > 0)
    && (aligned ==> AlignedAt(v, Pos(v, c'), c'.count, l.dmaAlign) && (size0 == 0 && maxVecs > 0 ==> size0 < size))
    && (capped ==> grown + pages' == pages && (left == 0 ==> vcnt + pages' <= vcnt0 + pages))
    && (capped && aligned && left > 0 ==> vcnt < vcnt0 + pages)
    && (size == size0 ==> leaked == multiset{})
    && SeamsIn(v, frameOf, Pos(v, c1), Pos(v, c')) == multiset{}
    && (capped && cut ==> CutAt(v, c', size > 0) && leaked <= seam)
    && (capped && cut && aligned && Generous(l, c.count) && allows ==>
          leaked == seam && (left > 0 && maxVecs > 0 ==> SeamAt(v, frameOf, Pos(v, c')) == multiset{}))
  }

  /** What a round has done, from where its window ends and what the page loop took of it. */
  lemma {:induction false} RoundDone(v: seq<Segment>, frameOf: nat -> nat, l: Limits, c: Cur, c1: Cur, c': Cur,
                                     gup: int, bytes: nat, left: nat, allows: bool, maxVecs: nat, size0: nat,
                                     size: nat, vcnt0: nat, vcnt: nat, grown: int, leak: multiset<nat>,
                                     leaked: multiset<nat>)
    requires ValidLimits(l) && Wf(v, c) && Wf(v, c1) && Wf(v, c') && Pinned(v, c1, gup, bytes) && 0 < bytes <= c1.count
    requires size0 + c1.count == c.count && Pos(v, c1) == Pos(v, c) + size0 && left <= bytes
    requires c'.count == c1.count - (bytes - left) && Pos(v, c') == Pos(v, c1) + (bytes - left)
    requires var start := RestOf(v, c1)[0] % PAGE_SIZE;
      && (0 < left < bytes ==> (start + (bytes - left)) % PAGE_SIZE == 0)
      && (size0 == 0 && maxVecs > 0 && !Misaligned(l, start) ==> left < bytes)
      && (left > 0 && !Misaligned(l, start) ==> vcnt < vcnt0 + PagesFor(start + bytes))
      && vcnt <= vcnt0 + PagesFor(start + bytes)
      && leaked == if Misaligned(l, start) then multiset{} else leak
    requires left == bytes ==> leaked == multiset{}
    requires var seam := Crossed(v, frameOf, size0 > 0, Pos(v, c1));
             CutAt(v, c1, size0 > 0) ==> leak <= seam && (Generous(l, c.count) && allows ==> leak == seam)
    requires size == size0 + (bytes - left) && grown == PagesOfPart(RestOf(v, c1)[0], bytes - left)
    ensures RoundOk(v, frameOf, l, c, c1, c', left, allows, maxVecs, size0, size, vcnt0, vcnt, grown, leaked)
  {
    hide RestOf, Chunk, AlignedAt, SeamsIn, SeamAt, Begins, NPages, PagesFor, Pinned, PagesOfPart, Generous;
    RestAfter(v, c1, c', bytes - left);
    assert RestOf(v, c1)[0..] == RestOf(v, c1);
    WindowEnds(v, frameOf, c, c1, c', l.dmaAlign, gup, bytes, bytes - left);
    if c.count <= MAX_RW_COUNT {
      WindowPagesKept(v, c1, c', gup, bytes, bytes - left);
    }
  }

  /** The window of `bytes` bytes that is taken from an iterator at c1. */
  ghost predicate Pinned(v: seq<Segment>, c1: Cur, gup: int, bytes: nat) {
    && Wf(v, c1) && c1.count > 0 && gup > 0
    && var size := Min(MAX_RW_COUNT, Chunk(v, c1.seg, c1.off, c1.count));
    && bytes == WindowBytes(RestOf(v, c1)[0], size, UINT_MAX, gup)
  }

  /** The start of a round: the next window is pinned and behind the iterator, or nothing happens. */
  method PinNext(it: Iter, mm: AddressSpace, gup: int, arrayOk: bool)
    returns (err: int, bytes: nat, start: nat, words: array<Word>, ghost pages: seq<nat>)
    requires it.Valid() && it.kind.IovecIter? && it.count > 0
    modifies it, mm
    ensures it.Valid() && fresh(words) && err == WindowError(gup, arrayOk)
    ensures err != 0 ==> it.Where() == old(it.Where()) && mm.refs == old(mm.refs)
    ensures err == 0 ==>
      && var c1, addr := old(it.Where()), old(it.Rest())[0];
      && gup > 0 && Pinned(it.vec, c1, gup, bytes) && 0 < bytes <= c1.count && bytes <= MAX_RW_COUNT
      && it.count == c1.count - bytes && Pos(it.vec, it.Where()) == Pos(it.vec, c1) + bytes
      && old(it.Rest())[..bytes] == Range(addr, bytes) && start == addr % PAGE_SIZE
      && pages == Frames(mm.frameOf, addr / PAGE_SIZE, PagesFor(start + bytes))
      && PagePointers(words[..], 0, pages) && mm.refs == old(mm.refs) + multiset(pages)
  {
    hide RestOf, Flat, NPages, Chunk, PagesFor, WindowBytes, Frames, PagePointers, Range, TakenAgain;
    ghost var addr := it.Rest()[0];
    var r;
    r, start, words := GetPagesAlloc(it, mm, LONG_MAX, gup, arrayOk);
    bytes, pages := 0, [];
    if r <= 0 {
      return if r != 0 then r else EFAULT, bytes, start, words, pages;
    }
    err, bytes := 0, r;
    pages := Frames(mm.frameOf, addr / PAGE_SIZE, PagesFor(start + bytes));
  }

  lemma NoneBetween(v: seq<Segment>, frameOf: nat -> nat, x: nat)
    ensures SeamsIn(v, frameOf, x, x) == multiset{}
  {
  }

  /** What a round's first piece can leave behind, before it is offered. */
  lemma WindowLeak(bio: Bio, l: Limits, v: seq<Segment>, frameOf: nat -> nat, c: Cur, c1: Cur, addr: nat, bytes: nat,
                   pol: Policy)
    requires bio.Valid() && ValidLimits(l) && !bio.cloned && Wf(v, c) && Wf(v, c1) && 0 < bytes <= c1.count
    requires Reached(bio, v, frameOf, c, c1) && addr == RestOf(v, c1)[0]
    ensures
      var leak := LeakOf(l, RoomOf(bio, l), bio.Vecs(), bio.size, FirstPiece(frameOf, addr, bytes), pol);
      var seam := Crossed(v, frameOf, bio.size > 0, Pos(v, c1));
      CutAt(v, c1, bio.size > 0) ==>
        && leak <= seam
        && (Generous(l, c.count) && pol.platformAllows ==> leak == seam)
    ensures bio.size == 0 ==>
      LeakOf(l, RoomOf(bio, l), bio.Vecs(), bio.size, FirstPiece(frameOf, addr, bytes), pol) == multiset{}
  {
    hide RestOf, Phys, Translate, TotalLen, TableOk, Decode, SeamAt, Begins, Generous;
    if bio.size > 0 && !(Begins(v, Pos(v, c1)) || addr % PAGE_SIZE == 0) {
      return;
    }
    assert addr == RestOf(v, c)[bio.size..][0] == RestOf(v, c)[bio.size];
    LeakIsSeam(l, RoomOf(bio, l), v, frameOf, c, bio.Vecs(), bio.size, FirstPiece(frameOf, addr, bytes), pol);
  }

  /** The pages kept of a window are those that leave the page count of the iterator. */
  lemma {:induction false} WindowPagesKept(v: seq<Segment>, c1: Cur, c': Cur, gup: int, bytes: nat, t: nat)
    requires Pinned(v, c1, gup, bytes) && Wf(v, c') && c1.count <= MAX_RW_COUNT && t <= bytes <= c1.count
    requires c'.count == c1.count - t && Pos(v, c') == Pos(v, c1) + t
    requires 0 < t < bytes ==> (RestOf(v, c1)[0] % PAGE_SIZE + t) % PAGE_SIZE == 0
    ensures PagesOfPart(RestOf(v, c1)[0], t) + NPages(v, c'.seg, c'.off, c'.count)
         == NPages(v, c1.seg, c1.off, c1.count)
    ensures PagesFor(RestOf(v, c1)[0] % PAGE_SIZE + bytes) <= NPages(v, c1.seg, c1.off, c1.count)
    ensures t == bytes ==> PagesOfPart(RestOf(v, c1)[0], t) == PagesFor(RestOf(v, c1)[0] % PAGE_SIZE + bytes)
  {
    hide RestOf, Chunk, WindowBytes, NPages, PagesFor;
    WindowRound(RestOf(v, c1)[0], Min(MAX_RW_COUNT, Chunk(v, c1.seg, c1.off, c1.count)), UINT_MAX, gup);
    SameRest(v, c1, Cur(c1.seg, 0, c1.off, c1.count));
    NPagesAdvance(v, c1.seg, c1.off, c1.count, bytes);
    if t == 0 {
      NPagesByPosition(v, c1, c');
    } else {
      NPagesAfter(v, c1, c', t);
    }
  }

  /** What the end of a window means for alignment and page starts, for the t bytes of it that were taken. */
  lemma {:induction false} WindowEnds(v: seq<Segment>, frameOf: nat -> nat, c: Cur, c1: Cur, c': Cur, a: nat, gup: int,
                                      bytes: nat, t: nat)
    requires Wf(v, c) && Pinned(v, c1, gup, bytes) && Wf(v, c') && a > 0 && PAGE_SIZE % a == 0
    requires Pos(v, c) <= Pos(v, c1) && Pos(v, c1) + c1.count == Pos(v, c) + c.count && t <= bytes <= c1.count
    requires c'.count == c1.count - t && Pos(v, c') == Pos(v, c1) + t
    requires 0 < t < bytes ==> (RestOf(v, c1)[0] % PAGE_SIZE + t) % PAGE_SIZE == 0
    ensures AlignedAt(v, Pos(v, c1), c1.count, a) ==>
              RestOf(v, c1)[0] % PAGE_SIZE % a == 0 && AlignedAt(v, Pos(v, c'), c'.count, a)
    ensures SeamsIn(v, frameOf, Pos(v, c1), Pos(v, c')) == multiset{}
    ensures c.count <= MAX_RW_COUNT && 0 < t < c1.count ==> Begins(v, Pos(v, c')) || RestOf(v, c')[0] % PAGE_SIZE == 0
    ensures c.count <= MAX_RW_COUNT && 0 < t < bytes ==> SeamAt(v, frameOf, Pos(v, c')) == multiset{}
  {
    hide RestOf, Chunk, AlignedAt, WindowBytes, SeamsIn, SeamAt, Begins;
    var addr, size := RestOf(v, c1)[0], Min(MAX_RW_COUNT, Chunk(v, c1.seg, c1.off, c1.count));
    WindowRound(addr, size, UINT_MAX, gup);
    if AlignedAt(v, Pos(v, c1), c1.count, a) {
      WindowAligned(v, c1, a, UINT_MAX, gup, size, if t > 0 then t else bytes);
      PageMultiple(addr, a);
    }
    var k := ChunkSegment(v, c1.seg, c1.off, c1.count);
    NoneInside(v, frameOf, k, Pos(v, c1), Pos(v, c'));
    if c.count <= MAX_RW_COUNT && 0 < t < c1.count {
      NextCut(v, c1, c', t);
      if t < bytes {
        PageStartNoSeam(v, frameOf, c');
      }
    }
  }

  lemma HoldsMore(refs: multiset<nat>, refs': multiset<nat>, base: multiset<nat>, vs: seq<Bvec>, pages: seq<nat>)
    requires Holds(refs, base, vs, multiset{}) && refs' == refs + multiset(pages)
    ensures Holds(refs', base, vs, multiset(pages))
  {
  }
}
