/** Pinning user pages straight into a bio whose free slots serve as the page array. */
module PinnedBio {
  import opened Params
  import opened Memory
  import opened Cursor
  import opened IovIter
  import opened UserPages
  import opened Bvecs
  import opened Bios
  import opened Alignment

  /** A buffer inside one user page is one piece of the frame behind that page. */
  lemma {:induction false} PieceTranslates(frameOf: nat -> nat, a: nat, len: nat)
    requires a % PAGE_SIZE + len <= PAGE_SIZE
    ensures Translate(frameOf, Range(a, len)) == PieceBytes(Piece(frameOf(a / PAGE_SIZE), len, a % PAGE_SIZE))
  {
    var p := Piece(frameOf(a / PAGE_SIZE), len, a % PAGE_SIZE);
    forall k | 0 <= k < len ensures Translate(frameOf, Range(a, len))[k] == PieceBytes(p)[k] {
      assert (a + k) / PAGE_SIZE == a / PAGE_SIZE && (a + k) % PAGE_SIZE == a % PAGE_SIZE + k;
    }
  }

  lemma TranslateConcat(frameOf: nat -> nat, a: seq<nat>, b: seq<nat>)
    ensures Translate(frameOf, a + b) == Translate(frameOf, a) + Translate(frameOf, b)
  {
  }

  /** The bio holds one reference for every page its per-page walk visits; the rest is `base`. */
  ghost predicate Holds(refs: multiset<nat>, base: multiset<nat>, vs: seq<Bvec>, pending: multiset<nat>) {
    refs == base + multiset(Walk(vs)) + pending
  }

  /** The pages from index k on, with multiplicity. */
  ghost function From(pages: seq<nat>, k: nat): multiset<nat>
    requires k <= |pages|
  {
    multiset(pages[k..])
  }

  lemma {:induction false} DropFirst(s: seq<nat>, k: nat)
    requires k < |s|
    ensures From(s, k) == multiset{s[k]} + From(s, k + 1)
  {
    assert s[k..] == [s[k]] + s[k + 1..];
  }

  lemma FromEnds(s: seq<nat>)
    ensures From(s, 0) == multiset(s) && From(s, |s|) == multiset{}
  {
    assert s[0..] == s;
  }

  /** The limits a zone-append bio is filled under. */
  datatype Target = Target(queue: Queue, zoneSectors: nat, blockSize: nat)

  ghost predicate ValidTarget(t: Target) {
    ValidQueue(t.queue) && t.blockSize > 0
  }

  /** What becomes of a page: under the limits of a zone append, or merged if it can be and appended if not. */
  ghost function AddOutcome(bio: Bio, t: Target, p: Piece, pol: Policy): Outcome
    requires bio.Valid() && InPage(p) && ValidTarget(t)
    reads bio, bio.table
  {
    if bio.zoneAppend then
      HwAdd(t.queue, Room(bio.maxVecs, bio.cloned, t.zoneSectors), bio.Vecs(), bio.size, p, pol)
    else if bio.Vecs() != [] && TryMerge(bio.Vecs(), bio.size, p, pol).0 then
      Merged(TryMerge(bio.Vecs(), bio.size, p, pol).1)
    else Appended
  }

  /**
   bio_iov_add_page and bio_iov_add_zone_append_page: the page goes into the bio, and
   its reference is dropped again when the walk already visits it.
   */
  method AddPinned(bio: Bio, p: Piece, t: Target, pol: Policy, mm: AddressSpace,
                   ghost base: multiset<nat>, ghost pending: multiset<nat>)
    returns (ret: int)
    requires bio.Valid() && InPage(p) && ValidTarget(t) && !bio.cloned
    requires bio.zoneAppend || (bio.vcnt < bio.maxVecs && bio.size + p.len <= UINT_MAX)
    requires Holds(mm.refs, base, bio.Vecs(), multiset{p.page} + pending)
    modifies bio`vcnt, bio`size, bio.table, mm
    ensures bio.Valid() && bio.FreeWordsKept(old(bio.table[..]))
    ensures ret == 0 <==> !old(AddOutcome(bio, t, p, pol)).Rejected?
    ensures ret == 0 ==>
      && bio.Vecs() == Apply(old(bio.Vecs()), p, old(AddOutcome(bio, t, p, pol)))
      && Phys(bio.Vecs()) == old(Phys(bio.Vecs())) + PieceBytes(p)
      && bio.size == old(bio.size) + p.len && bio.vcnt <= old(bio.vcnt) + 1
      && Holds(mm.refs, base, bio.Vecs(), pending)
    ensures ret != 0 ==>
      && ret == EINVAL && bio.zoneAppend
      && bio.Vecs() == old(bio.Vecs()) && bio.size == old(bio.size) && mm.refs == old(mm.refs)
  {
    hide Walk, Phys, TotalLen, TableOk, Decode, FramesOf, PhysOf, PieceBytes, PageIsMergeable, Zone, Gap, Positive,
         Holds;
    ghost var vs := bio.Vecs();
    ghost var o: Outcome;
    var same: bool;
    if bio.zoneAppend {
      o := HwAdd(t.queue, Room(bio.maxVecs, bio.cloned, t.zoneSectors), vs, bio.size, p, pol);
      if o.Merged? {
        MergedMeansMergeable(t.queue, Room(bio.maxVecs, bio.cloned, t.zoneSectors), vs, bio.size, p, pol);
      }
      var n;
      n, same := bio.AddHwPage(t.queue, p, t.zoneSectors, pol);
      if n != p.len {
        return EINVAL;
      }
    } else {
      var done;
      done, same := bio.TryMergePage(p, pol);
      if !done {
        bio.AppendVec(p);
        same := false;
      }
      o := if done then Merged(same) else Appended;
    }
    TakenDescribes(vs, p, pol, o);
    PinMoves(mm.refs, base, vs, bio.Vecs(), p, o, pending);
    if same {
      mm.PutPage(p.page);
    }
    return 0;
  }

  lemma {:induction false} PinMoves(refs: multiset<nat>, base: multiset<nat>, vs: seq<Bvec>, vs': seq<Bvec>,
                                    p: Piece, o: Outcome, pending: multiset<nat>)
    requires Holds(refs, base, vs, multiset{p.page} + pending) && Describes(vs, p, o, vs') && !o.Rejected?
    ensures if o.Merged? && o.samePage then p.page in refs && Holds(refs - multiset{p.page}, base, vs', pending)
            else Holds(refs, base, vs', pending)
  {
    hide Walk, Phys;
    assert multiset(Walk(vs) + [p.page]) == multiset(Walk(vs)) + multiset{p.page};
    assert Walk(vs) + [] == Walk(vs);
  }

  /** The page pointers from index `from` on are still intact at words[at..]. */
  ghost predicate Intact(words: array<Word>, at: nat, pages: seq<nat>, from: nat)
    reads words
  {
    && at + |pages| <= words.Length
    && forall k :: from <= k < |pages| ==> words[at + k] == Ptr(pages[k])
  }

  lemma IntactAll(words: array<Word>, at: nat, pages: seq<nat>)
    requires PagePointers(words[..], at, pages)
    ensures Intact(words, at, pages, 0)
  {
    forall k | 0 <= k < |pages| ensures words[at + k] == Ptr(pages[k]) {
      assert words[..][at + k] == Ptr(pages[k]);
    }
  }

  lemma IntactAt(words: array<Word>, at: nat, pages: seq<nat>, from: nat)
    requires Intact(words, at, pages, from)
    ensures at + |pages| <= words.Length && (from < |pages| ==> words[at + from] == Ptr(pages[from]))
    ensures forall k: nat :: from <= k ==> Intact(words, at, pages, k)
  {
  }

  /** The pages are the frames behind consecutive virtual pages from `first` on. */
  ghost predicate Behind(pages: seq<nat>, frameOf: nat -> nat, first: nat) {
    forall k :: 0 <= k < |pages| ==> pages[k] == frameOf(first + k)
  }

  lemma BehindAt(pages: seq<nat>, frameOf: nat -> nat, first: nat, k: nat)
    requires Behind(pages, frameOf, first) && k < |pages|
    ensures pages[k] == frameOf(first + k)
  {
  }

  /** State of the add loop after `done` bytes in i pages of the window at addr. */
  ghost predicate Filled(bio: Bio, mm: AddressSpace, addr: nat, done: nat, i: nat, pages: seq<nat>, at: nat,
                         phys0: seq<nat>, size0: nat, vcnt0: nat, base: multiset<nat>)
    reads bio, bio.table, mm
  {
    && bio.Valid() && i <= |pages|
    && bio.vcnt <= vcnt0 + i && bio.size == size0 + done
    && Phys(bio.Vecs()) == phys0 + Translate(mm.frameOf, Range(addr, done))
    && Holds(mm.refs, base, bio.Vecs(), From(pages, i))
    && Intact(bio.table, at, pages, i)
  }

  lemma FilledSize(bio: Bio, mm: AddressSpace, addr: nat, done: nat, i: nat, pages: seq<nat>, at: nat,
                   phys0: seq<nat>, size0: nat, vcnt0: nat, base: multiset<nat>)
    requires Filled(bio, mm, addr, done, i, pages, at, phys0, size0, vcnt0, base)
    ensures bio.Valid() && bio.size == size0 + done && i <= |pages|
  {
  }

  /**
   Where a page loop stands in a window of `bytes` bytes at addr: `done` bytes and j
   pages are behind it, and the next piece begins at offset offs of its page.
   */
  ghost predicate AtPiece(addr: nat, bytes: nat, done: nat, j: nat, offs: nat) {
    var start := addr % PAGE_SIZE;
    && done <= bytes && offs < PAGE_SIZE
    && (if done == bytes then j == PagesFor(start + bytes) else
          && (addr + done) % PAGE_SIZE == offs && (addr + done) / PAGE_SIZE == addr / PAGE_SIZE + j
          && j < PagesFor(start + bytes))
    && (if j == 0 then done == 0 && offs == start else
          offs == 0 && 0 < done && (done < bytes ==> (start + done) % PAGE_SIZE == 0))
  }

  lemma PieceFacts(addr: nat, bytes: nat, done: nat, j: nat, offs: nat)
    requires AtPiece(addr, bytes, done, j, offs)
    ensures done <= bytes && offs < PAGE_SIZE && (done == bytes <==> j == PagesFor(addr % PAGE_SIZE + bytes))
    ensures done < bytes ==>
      j < PagesFor(addr % PAGE_SIZE + bytes)
      && (addr + done) % PAGE_SIZE == offs && (addr + done) / PAGE_SIZE == addr / PAGE_SIZE + j
    ensures j == 0 ==> done == 0 && offs == addr % PAGE_SIZE
    ensures j > 0 ==> offs == 0 && 0 < done && (done < bytes ==> (addr % PAGE_SIZE + done) % PAGE_SIZE == 0)
  {
  }

  /** The loop steps from one piece to the next, and the first piece is where the window starts. */
  lemma {:induction false} NextPiece(addr: nat, bytes: nat, done: nat, j: nat, offs: nat)
    ensures bytes > 0 ==> AtPiece(addr, bytes, 0, 0, addr % PAGE_SIZE)
    ensures done < bytes && AtPiece(addr, bytes, done, j, offs) ==>
      var n := Min(PAGE_SIZE - offs, bytes - done);
      0 < n && offs + n <= PAGE_SIZE && AtPiece(addr, bytes, done + n, j + 1, 0)
  {
  }

  /**
   The add loop. The page pointers sit in the topmost words of the free slots; no
   bio_vec written on the way reaches a pointer that is still to be read, here or by
   the caller's put loop.
   */
  method AddPages(bio: Bio, t: Target, mm: AddressSpace, at: nat, start: nat, bytes: nat, pols: nat -> Policy,
                  ghost addr: nat, ghost pages: seq<nat>, ghost base: multiset<nat>)
    returns (i: nat, left: nat, ret: int)
    requires bio.Valid() && ValidTarget(t) && !bio.cloned && start == addr % PAGE_SIZE
    requires at == 2 * bio.vcnt + (bio.maxVecs - bio.vcnt) && |pages| <= bio.maxVecs - bio.vcnt
    requires PagesFor(addr % PAGE_SIZE + bytes) <= |pages|
    requires Behind(pages, mm.frameOf, addr / PAGE_SIZE)
    requires Filled(bio, mm, addr, 0, 0, pages, at, Phys(bio.Vecs()), bio.size, bio.vcnt, base)
    requires bio.size + bytes <= UINT_MAX
    modifies bio`vcnt, bio`size, bio.table, mm
    ensures left <= bytes && (if ret == 0 then left == 0 else ret == EINVAL && bio.zoneAppend && left > 0)
    ensures ret != 0 ==> bio.Valid() && RefusedAt(bio, t, mm.frameOf, addr + (bytes - left), left, pols)
    ensures Filled(bio, mm, addr, bytes - left, i, pages, at, old(Phys(bio.Vecs())), old(bio.size), old(bio.vcnt), base)
  {
    hide Filled, PagesFor, AtPiece, Behind, Phys, Translate, Range, TotalLen, TableOk, Decode, Positive, Intact, Holds,
         From, AddOutcome;
    ghost var phys0, size0, vcnt0 := Phys(bio.Vecs()), bio.size, bio.vcnt;
    var offset := start;
    i, left, ret := 0, bytes, 0;
    NextPiece(addr, bytes, 0, 0, offset);
    while left > 0
      invariant left <= bytes && (left > 0 ==> AtPiece(addr, bytes, bytes - left, i, offset))
      invariant Filled(bio, mm, addr, bytes - left, i, pages, at, phys0, size0, vcnt0, base) && ret == 0
    {
      var len := Min(PAGE_SIZE - offset, left);
      PieceFacts(addr, bytes, bytes - left, i, offset);
      NextPiece(addr, bytes, bytes - left, i, offset);
      BehindAt(pages, mm.frameOf, addr / PAGE_SIZE, i);
      FilledSize(bio, mm, addr, bytes - left, i, pages, at, phys0, size0, vcnt0, base);
      ret := AddPage(bio, t, mm, at, i, offset, len, pols(i), addr, bytes - left, pages, phys0, size0, vcnt0, base);
      if ret != 0 {
        break;
      }
      left := left - len;
      i := i + 1;
      offset := 0;
    }
  }

  /** A zone append's limits refuse the next piece of n bytes, or fewer, from user address x on. */
  ghost predicate RefusedAt(bio: Bio, t: Target, frameOf: nat -> nat, x: nat, n: nat, pols: nat -> Policy)
    requires bio.Valid() && ValidTarget(t)
    reads bio, bio.table
  {
    && n > 0
    && var p := Piece(frameOf(x / PAGE_SIZE), Min(PAGE_SIZE - x % PAGE_SIZE, n), x % PAGE_SIZE);
    exists k: nat :: AddOutcome(bio, t, p, pols(k)).Rejected?
  }

  /** One round of the add loop. */
  method AddPage(bio: Bio, t: Target, mm: AddressSpace, at: nat, i: nat, offset: nat, len: nat, pol: Policy,
                 ghost addr: nat, ghost done: nat, ghost pages: seq<nat>, ghost phys0: seq<nat>, ghost size0: nat,
                 ghost vcnt0: nat, ghost base: multiset<nat>)
    returns (ret: int)
    requires Filled(bio, mm, addr, done, i, pages, at, phys0, size0, vcnt0, base) && ValidTarget(t) && !bio.cloned
    requires at == vcnt0 + bio.maxVecs && |pages| <= bio.maxVecs - vcnt0
    requires i < |pages| && pages[i] == mm.frameOf((addr + done) / PAGE_SIZE)
    requires offset == (addr + done) % PAGE_SIZE && 0 < len <= PAGE_SIZE - offset && bio.size + len <= UINT_MAX
    modifies bio`vcnt, bio`size, bio.table, mm
    ensures ret == 0 ==> Filled(bio, mm, addr, done + len, i + 1, pages, at, phys0, size0, vcnt0, base)
    ensures ret != 0 ==>
      && ret == EINVAL && bio.zoneAppend && Filled(bio, mm, addr, done, i, pages, at, phys0, size0, vcnt0, base)
      && bio.Valid() && AddOutcome(bio, t, Piece(pages[i], len, offset), pol).Rejected?
  {
    hide Phys, Translate, Walk, TotalLen, TableOk, Decode, Holds, From, Positive, Range, PieceBytes, HwAdd, TryMerge;
    var page := bio.table[at + i].page;
    var p := Piece(page, len, offset);
    DropFirst(pages, i);
    ret := AddPinned(bio, p, t, pol, mm, base, From(pages, i + 1));
    if ret == 0 {
      RangeSplit(addr, done, len);
      TranslateConcat(mm.frameOf, Range(addr, done), Range(addr + done, len));
      PieceTranslates(mm.frameOf, addr + done, len);
    } else {
      assert bio.vcnt == |bio.Vecs()|;
    }
  }

  /** The put loop: drops the references of the pages that did not make it into the bio. */
  method PutPages(words: array<Word>, mm: AddressSpace, at: nat, from: nat, nrPages: nat,
                  ghost vs: seq<Bvec>, ghost pages: seq<nat>, ghost base: multiset<nat>)
    requires from <= nrPages == |pages| && Intact(words, at, pages, from)
    requires Holds(mm.refs, base, vs, From(pages, from))
    modifies mm
    ensures Holds(mm.refs, base, vs, multiset{}) && |mm.refs| + (nrPages - from) == |old(mm.refs)|
  {
    hide Walk, From, Intact;
    var i := from;
    while i < nrPages
      invariant from <= i <= nrPages && Intact(words, at, pages, i)
      invariant Holds(mm.refs, base, vs, From(pages, i)) && |mm.refs| + (i - from) == |old(mm.refs)|
    {
      DropFirst(pages, i);
      IntactAt(words, at, pages, i);
      mm.PutPage(words[at + i].page);
      i := i + 1;
    }
    FromEnds(pages);
  }

  /**
   The bytes that left the iterator since it stood at c are the bytes that came into
   the bio, and the bio holds one reference for every page it describes.
   */
  ghost predicate Absorbed(bio: Bio, it: Iter, mm: AddressSpace, c: Cur, phys0: seq<nat>, size0: nat,
                           base: multiset<nat>)
    requires Wf(it.vec, c)
    reads bio, bio.table, it, mm
  {
    && bio.Valid() && it.Valid() && size0 <= bio.size
    && var n := bio.size - size0;
    && n <= c.count && it.count == c.count - n && Pos(it.vec, it.Where()) == Pos(it.vec, c) + n
    && it.Rest() == RestOf(it.vec, c)[n..]
    && Phys(bio.Vecs()) == phys0 + Translate(mm.frameOf, RestOf(it.vec, c)[..n])
    && Holds(mm.refs, base, bio.Vecs(), multiset{})
  }

  /** The part of __bio_iov_iter_get_pages after the pages are pinned. */
  method AbsorbWindow(bio: Bio, it: Iter, mm: AddressSpace, t: Target, at: nat, start: nat, got: nat,
                      pols: nat -> Policy,
                      ghost addr: nat, ghost pages: seq<nat>, ghost c: Cur, ghost base: multiset<nat>)
    returns (ret: int)
    requires bio.Valid() && !bio.cloned && ValidTarget(t) && bio.size + got <= UINT_MAX
    requires it.Valid() && Wf(it.vec, c) && 0 < got <= c.count && got <= MAX_RW_COUNT
    requires it.count == c.count - got && Pos(it.vec, it.Where()) == Pos(it.vec, c) + got
    requires RestOf(it.vec, c)[..got] == Range(addr, got) && start == addr % PAGE_SIZE
    requires pages == Frames(mm.frameOf, addr / PAGE_SIZE, PagesFor(start + got))
    requires at == bio.vcnt + bio.maxVecs && |pages| <= bio.maxVecs - bio.vcnt
    requires PagePointers(bio.table[..], at, pages) && Holds(mm.refs, base, bio.Vecs(), multiset(pages))
    modifies bio`vcnt, bio`size, bio.table, it, mm
    ensures Absorbed(bio, it, mm, c, old(Phys(bio.Vecs())), old(bio.size), base)
    ensures RoundGot(bio.zoneAppend, got - got % t.blockSize, EFAULT, ret, bio.size - old(bio.size))
    ensures bio.Valid() && it.Valid() && (got - got % t.blockSize > 0 && ret != 0 ==> RefusedNext(bio, it, mm, t, pols))
  {
    hide RestOf, Phys, Walk, TotalLen, TableOk, Decode, Filled, Holds, Translate, PagesFor, Reverted, Flat, Range,
         Positive, Frames, PagePointers, Absorbed, Intact, From, NPages, Chunk, FlatTo, Start, RefusedAt, RefusedNext;
    ghost var phys0, size0, vcnt0 := Phys(bio.Vecs()), bio.size, bio.vcnt;
    var nrPages := PagesFor(start + got);
    var trim := got % t.blockSize;
    ModLe(got, t.blockSize);
    it.Revert(trim);
    var size := got - trim;
    var i: nat, left: nat := 0, size;
    FilledNothing(bio, mm, addr, pages, at, base);
    if size == 0 {
      ret := EFAULT;
    } else {
      FewerPages(addr, size, got);
      i, left, ret := AddPages(bio, t, mm, at, start, size, pols, addr, pages, base);
      it.Revert(left);
    }
    FilledSize(bio, mm, addr, size - left, i, pages, at, phys0, size0, vcnt0, base);
    PutRest(bio, it, mm, at, i, nrPages, addr, size - left, got, pages, c, phys0, size0, vcnt0, base);
    if size > 0 && ret != 0 {
      RefusedHere(bio, it, mm, t, c, addr, size - left, left, got, pols);
    }
  }

  /** The limits of a zone append refuse the piece that is next. */
  ghost predicate RefusedNext(bio: Bio, it: Iter, mm: AddressSpace, t: Target, pols: nat -> Policy)
    requires bio.Valid() && it.Valid() && ValidTarget(t)
    reads bio, bio.table, it
  {
    it.count > 0 && exists n :: 0 < n <= it.count && RefusedAt(bio, t, mm.frameOf, it.Rest()[0], n, pols)
  }

  lemma RefusedHere(bio: Bio, it: Iter, mm: AddressSpace, t: Target, c: Cur, addr: nat, done: nat, left: nat, got: nat,
                    pols: nat -> Policy)
    requires bio.Valid() && it.Valid() && ValidTarget(t) && Wf(it.vec, c) && 0 < left && done + left <= got <= c.count
    requires it.count == c.count - done && Pos(it.vec, it.Where()) == Pos(it.vec, c) + done
    requires RestOf(it.vec, c)[..got] == Range(addr, got) && RefusedAt(bio, t, mm.frameOf, addr + done, left, pols)
    ensures RefusedNext(bio, it, mm, t, pols)
  {
    hide RestOf, RefusedAt;
    RestAfter(it.vec, c, it.Where(), done);
    assert it.Rest()[0] == RestOf(it.vec, c)[done] == RestOf(it.vec, c)[..got][done] == addr + done;
  }

  /** The pages that did not go into the bio are put. */
  method PutRest(bio: Bio, it: Iter, mm: AddressSpace, at: nat, i: nat, nrPages: nat, ghost addr: nat, ghost done: nat,
                 ghost got: nat, ghost pages: seq<nat>, ghost c: Cur, ghost phys0: seq<nat>, ghost size0: nat,
                 ghost vcnt0: nat, ghost base: multiset<nat>)
    requires it.Valid() && Wf(it.vec, c) && done <= got <= c.count
    requires it.count == c.count - done && Pos(it.vec, it.Where()) == Pos(it.vec, c) + done
    requires RestOf(it.vec, c)[..got] == Range(addr, got)
    requires Filled(bio, mm, addr, done, i, pages, at, phys0, size0, vcnt0, base) && nrPages == |pages|
    modifies mm
    ensures Absorbed(bio, it, mm, c, phys0, size0, base)
  {
    hide RestOf, Phys, Walk, TotalLen, TableOk, Decode, Filled, Holds, Translate, Flat, Range, Positive, Absorbed,
         Intact, From;
    FilledPending(bio, mm, addr, done, i, pages, at, phys0, size0, vcnt0, base);
    PutPages(bio.table, mm, at, i, nrPages, bio.Vecs(), pages, base);
    AbsorbedWindow(bio, it, mm, c, addr, done, got, phys0, size0, base);
  }

  lemma {:induction false} AbsorbedWindow(bio: Bio, it: Iter, mm: AddressSpace, c: Cur, addr: nat, done: nat, got: nat,
                                          phys0: seq<nat>, size0: nat, base: multiset<nat>)
    requires bio.Valid() && it.Valid() && Wf(it.vec, c) && done <= got <= c.count && bio.size == size0 + done
    requires it.count == c.count - done && Pos(it.vec, it.Where()) == Pos(it.vec, c) + done
    requires RestOf(it.vec, c)[..got] == Range(addr, got)
    requires Phys(bio.Vecs()) == phys0 + Translate(mm.frameOf, Range(addr, done))
    requires Holds(mm.refs, base, bio.Vecs(), multiset{})
    ensures Absorbed(bio, it, mm, c, phys0, size0, base)
  {
    hide RestOf, Phys, Holds, Translate, Flat, Positive, TotalLen, TableOk, Decode;
    RestAfter(it.vec, c, it.Where(), done);
    assert RestOf(it.vec, c)[..done] == RestOf(it.vec, c)[..got][..done] == Range(addr, done);
  }

  lemma ModLe(x: nat, d: nat)
    requires d > 0
    ensures 0 <= x % d <= x
  {
  }

  lemma FewerPages(addr: nat, size: nat, got: nat)
    requires size <= got
    ensures PagesFor(addr % PAGE_SIZE + size) <= PagesFor(addr % PAGE_SIZE + got)
  {
  }

  lemma {:induction false} FilledNothing(bio: Bio, mm: AddressSpace, addr: nat, pages: seq<nat>, at: nat,
                                         base: multiset<nat>)
    requires bio.Valid() && PagePointers(bio.table[..], at, pages) && Holds(mm.refs, base, bio.Vecs(), multiset(pages))
    ensures Filled(bio, mm, addr, 0, 0, pages, at, Phys(bio.Vecs()), bio.size, bio.vcnt, base)
  {
    FromEnds(pages);
    IntactAll(bio.table, at, pages);
    assert Phys(bio.Vecs()) == Phys(bio.Vecs()) + Translate(mm.frameOf, Range(addr, 0));
  }

  lemma FilledPending(bio: Bio, mm: AddressSpace, addr: nat, done: nat, i: nat, pages: seq<nat>, at: nat,
                      phys0: seq<nat>, size0: nat, vcnt0: nat, base: multiset<nat>)
    requires Filled(bio, mm, addr, done, i, pages, at, phys0, size0, vcnt0, base)
    ensures bio.Valid() && bio.size == size0 + done && i <= |pages| && Intact(bio.table, at, pages, i)
    ensures Phys(bio.Vecs()) == phys0 + Translate(mm.frameOf, Range(addr, done))
    ensures Holds(mm.refs, base, bio.Vecs(), From(pages, i))
  {
  }

  /** How many bytes the next window has; 0 when the bio has no room, nothing is left, or nothing can be pinned. */
  ghost function WindowGot(bio: Bio, it: Iter, gup: int): int
    requires bio.Valid() && it.Valid()
    reads bio, bio.table, it
  {
    if gup <= 0 || NoRoom(bio, it) then 0 else
      WindowBytes(it.Rest()[0], WindowSize(it, UINT_MAX - bio.size), bio.maxVecs - bio.vcnt, gup)
  }

  /** The same less a tail that is no whole block. */
  ghost function WholeBlocks(bio: Bio, it: Iter, t: Target, gup: int): int
    requires bio.Valid() && it.Valid() && ValidTarget(t)
    reads bio, bio.table, it
  {
    var got := WindowGot(bio, it, gup);
    got - got % t.blockSize
  }

  ghost predicate NoRoom(bio: Bio, it: Iter)
    requires bio.Valid()
    reads bio, bio.table, it
  {
    bio.vcnt == bio.maxVecs || it.count == 0 || bio.size == UINT_MAX
  }

  /** What a round without a whole block fails with. */
  ghost function RoundFailure(bio: Bio, it: Iter, gup: int): (err: int)
    requires bio.Valid()
    reads bio, bio.table, it
    ensures err < 0
  {
    if gup < 0 && !NoRoom(bio, it) then gup else EFAULT
  }

  /** A round gets all of its n bytes, unless there are none or the limits of a zone append refuse a page. */
  ghost predicate RoundGot(zoneAppend: bool, n: int, failure: int, ret: int, more: int) {
    if n <= 0 then ret == failure && more == 0
    else if ret == 0 then more == n
    else ret == EINVAL && zoneAppend && 0 <= more < n
  }

  /** __bio_iov_iter_get_pages: one window of user pages, less a tail that is no whole block. */
  method GetPagesOnce(bio: Bio, it: Iter, mm: AddressSpace, t: Target, gup: int, pols: nat -> Policy,
                      ghost base: multiset<nat>)
    returns (ret: int)
    requires bio.Valid() && !bio.cloned && it.Valid() && it.UserBacked() && ValidTarget(t)
    requires Holds(mm.refs, base, bio.Vecs(), multiset{})
    modifies bio`vcnt, bio`size, bio.table, it, mm
    ensures Absorbed(bio, it, mm, old(it.Where()), old(Phys(bio.Vecs())), old(bio.size), base)
    ensures RoundGot(bio.zoneAppend, old(WholeBlocks(bio, it, t, gup)), old(RoundFailure(bio, it, gup)), ret,
                     bio.size - old(bio.size))
    ensures bio.Valid() && it.Valid()
    ensures old(WholeBlocks(bio, it, t, gup)) > 0 && ret != 0 ==> RefusedNext(bio, it, mm, t, pols)
    ensures old(NoRoom(bio, it)) ==> ret != 0 && bio.vcnt == old(bio.vcnt) && bio.size == old(bio.size)
  {
    hide RestOf, Phys, Walk, TotalLen, TableOk, Decode, Holds, Absorbed, WindowGot, NoRoom, PagesFor, Range, Bio.Vecs,
         PagePointers, Frames, RefusedNext;
    ghost var c, addr := it.Where(), if it.count > 0 then it.Rest()[0] else 0;
    var size: int, at: nat, start: nat;
    ghost var pages;
    size, at, start, pages := PinSlots(bio, it, mm, gup, base);
    if size <= 0 {
      AbsorbedNothing(bio, it, mm, base);
      ModLe(0, t.blockSize);
      return if size != 0 then size else EFAULT;
    }
    ret := AbsorbWindow(bio, it, mm, t, at, start, size, pols, addr, pages, c, base);
  }

  /** The window is pinned, with its page pointers in the topmost words of the free slots. */
  method PinSlots(bio: Bio, it: Iter, mm: AddressSpace, gup: int, ghost base: multiset<nat>)
    returns (size: int, at: nat, start: nat, ghost pages: seq<nat>)
    requires bio.Valid() && it.Valid() && it.UserBacked() && Holds(mm.refs, base, bio.Vecs(), multiset{})
    modifies bio.table, it, mm
    ensures bio.Valid() && bio.Vecs() == old(bio.Vecs()) && at == bio.vcnt + bio.maxVecs
    ensures it.Valid() && bio.size + size <= UINT_MAX
    ensures if size > 0 then size == old(WindowGot(bio, it, gup)) else old(WindowGot(bio, it, gup)) == 0
    ensures size <= 0 ==>
      && it.Where() == old(it.Where()) && Holds(mm.refs, base, bio.Vecs(), multiset{})
      && size == if gup < 0 && !old(NoRoom(bio, it)) then gup else 0
    ensures size > 0 ==>
      && var c, addr := old(it.Where()), old(it.Rest())[0];
      && gup > 0 && !old(NoRoom(bio, it)) && size <= c.count && size <= MAX_RW_COUNT
      && it.count == c.count - size && Pos(it.vec, it.Where()) == Pos(it.vec, c) + size
      && old(it.Rest())[..size] == Range(addr, size) && start == addr % PAGE_SIZE
      && pages == Frames(mm.frameOf, addr / PAGE_SIZE, PagesFor(start + size)) && |pages| <= bio.maxVecs - bio.vcnt
      && PagePointers(bio.table[..], at, pages) && Holds(mm.refs, base, bio.Vecs(), multiset(pages))
  {
    hide RestOf, Phys, Walk, TotalLen, TableOk, Decode, NPages, WindowBytes, WindowSize, PagesFor, Flat, Range, Chunk,
         Start, TakenAgain, PagePointers, Frames, Positive, Iter.Valid, Wf;
    ghost var addr, vs := if it.count > 0 then it.Rest()[0] else 0, bio.Vecs();
    var nrPages := bio.maxVecs - bio.vcnt;
    at := 2 * bio.vcnt + nrPages;
    size, start := GetPages(it, mm, bio.table, at, UINT_MAX - bio.size, nrPages, gup);
    DecodePrefix(old(bio.table[..]), bio.table[..], bio.vcnt);
    pages := if size > 0 then Frames(mm.frameOf, addr / PAGE_SIZE, PagesFor(start + size)) else [];
  }

  lemma {:induction false} AbsorbedNothing(bio: Bio, it: Iter, mm: AddressSpace, base: multiset<nat>)
    requires bio.Valid() && it.Valid() && Holds(mm.refs, base, bio.Vecs(), multiset{})
    ensures Absorbed(bio, it, mm, it.Where(), Phys(bio.Vecs()), bio.size, base)
  {
    assert Phys(bio.Vecs()) == Phys(bio.Vecs()) + Translate(mm.frameOf, it.Rest()[..0]);
  }

  /** What two consecutive rounds absorb is what one round from the first cursor would. */
  lemma {:induction false} AbsorbedTwice(bio: Bio, it: Iter, mm: AddressSpace, c: Cur, phys0: seq<nat>, size0: nat,
                                         c1: Cur, phys1: seq<nat>, size1: nat, base: multiset<nat>)
    requires Wf(it.vec, c) && Wf(it.vec, c1) && Absorbed(bio, it, mm, c1, phys1, size1, base)
    requires size0 <= size1 && var n := size1 - size0;
             && n <= c.count && c1.count == c.count - n && Pos(it.vec, c1) == Pos(it.vec, c) + n
             && RestOf(it.vec, c1) == RestOf(it.vec, c)[n..]
             && phys1 == phys0 + Translate(mm.frameOf, RestOf(it.vec, c)[..n])
    ensures Absorbed(bio, it, mm, c, phys0, size0, base)
  {
    hide RestOf, Phys, Translate, Walk, Flat, Start, Positive, TotalLen, TableOk, Decode, Holds;
    SlicesTwice(mm.frameOf, RestOf(it.vec, c), size1 - size0, bio.size - size1, phys0);
  }

  lemma {:induction false} SlicesTwice(frameOf: nat -> nat, rest: seq<nat>, m: nat, n: nat, phys: seq<nat>)
    requires m + n <= |rest|
    ensures phys + Translate(frameOf, rest[..m]) + Translate(frameOf, rest[m..][..n])
         == phys + Translate(frameOf, rest[..m + n])
    ensures rest[m..][n..] == rest[m + n..]
  {
    assert rest[..m] + rest[m..][..n] == rest[..m + n];
    TranslateConcat(frameOf, rest[..m], rest[m..][..n]);
  }

  /**
   bio_iov_iter_get_pages on a user-backed iterator: windows until an error, the end of
   the iterator or a full bio. gups(k) and pols(k) are what the k-th round meets.
   */
  method IovIterGetPages(bio: Bio, it: Iter, mm: AddressSpace, t: Target, gups: nat -> int, pols: nat -> nat -> Policy,
                         ghost base: multiset<nat>)
    returns (ret: int)
    requires bio.Valid() && !bio.cloned && it.Valid() && it.UserBacked() && ValidTarget(t)
    requires Holds(mm.refs, base, bio.Vecs(), multiset{})
    modifies bio`vcnt, bio`size, bio.table, it, mm
    ensures Absorbed(bio, it, mm, old(it.Where()), old(Phys(bio.Vecs())), old(bio.size), base)
    ensures bio.vcnt > 0 ==> ret == 0
    ensures ret == 0 && old(bio.vcnt) == 0 ==> bio.size > 0
    ensures var n := old(WholeBlocks(bio, it, t, gups(0)));
            if n <= 0 then
              bio.size == old(bio.size) && (ret == 0 || ret == old(RoundFailure(bio, it, gups(0))))
            else !bio.zoneAppend ==> ret == 0 && bio.size >= old(bio.size) + n
    ensures old(NoRoom(bio, it)) ==> bio.vcnt == old(bio.vcnt) && bio.size == old(bio.size)
    ensures old(Smooth(bio, it, t)) && (forall k :: gups(k) > 0) ==> it.count == 0 || bio.vcnt >= bio.maxVecs
  {
    hide Absorbed, Phys, WholeBlocks, RoundFailure, Smooth, Decode, TableOk, TotalLen, Positive, Wf, NoRoom, Bio.Vecs,
         Start, Pos, Holds, Walk, RestOf, Flat;
    ghost var c, phys0, size0 := it.Where(), Phys(bio.Vecs()), bio.size;
    ghost var smooth := Smooth(bio, it, t) && forall k :: gups(k) > 0;
    ghost var n, failure := WholeBlocks(bio, it, t, gups(0)), RoundFailure(bio, it, gups(0));
    ghost var full := NoRoom(bio, it);
    AbsorbedNothing(bio, it, mm, base);
    ret := Round(bio, it, mm, t, gups(0), pols(0), c, phys0, size0, base);
    var k: nat := 1;
    while ret == 0 && it.count > 0 && bio.vcnt < bio.maxVecs
      invariant bio.Valid() && it.Valid() && Absorbed(bio, it, mm, c, phys0, size0, base)
      invariant size0 <= bio.size <= size0 + c.count && (ret == 0 ==> bio.size > size0)
      invariant full ==> ret != 0 && bio.size == size0 && bio.vcnt == old(bio.vcnt)
      invariant if n <= 0 then ret == failure && bio.size == size0 else bio.zoneAppend || bio.size >= size0 + n
      invariant smooth ==> if ret == 0 then Smooth(bio, it, t) else it.count == 0 || bio.vcnt >= bio.maxVecs
      decreases size0 + c.count - bio.size, if ret == 0 then 1 else 0
    {
      ret := Round(bio, it, mm, t, gups(k), pols(k), c, phys0, size0, base);
      k := k + 1;
    }
    AbsorbedFacts(bio, it, mm, c, phys0, size0, base);
    if bio.vcnt > 0 {
      ret := 0;
    }
  }

  /** No limit of the bio gets in the way but its table: whole blocks come in whole blocks. */
  ghost predicate Smooth(bio: Bio, it: Iter, t: Target)
    requires it.Valid() && ValidTarget(t)
    reads bio, it
  {
    SmoothAt(bio.zoneAppend, bio.size, it.vec, it.Where(), t.blockSize)
  }

  ghost predicate SmoothAt(zoneAppend: bool, size: nat, v: seq<Segment>, c: Cur, blockSize: nat)
    requires Wf(v, c) && blockSize > 0
  {
    && !zoneAppend && PAGE_SIZE % blockSize == 0 && size + c.count <= UINT_MAX
    && AlignedAt(v, Pos(v, c), c.count, blockSize)
  }

  /** Then a round takes all of its window, and what is left is still in whole blocks. */
  lemma {:induction false} SmoothRound(bio: Bio, it: Iter, t: Target, gup: int)
    requires bio.Valid() && it.Valid() && ValidTarget(t)
    ensures Smooth(bio, it, t) && gup > 0 && !NoRoom(bio, it) ==>
      var n := WholeBlocks(bio, it, t, gup);
      0 < n <= it.count && AlignedAt(it.vec, Pos(it.vec, it.Where()) + n, it.count - n, t.blockSize)
  {
    hide AlignedAt, WindowBytes, Chunk;
    if Smooth(bio, it, t) && gup > 0 && !NoRoom(bio, it) {
      var maxpages, size := bio.maxVecs - bio.vcnt, WindowSize(it, UINT_MAX - bio.size);
      WindowRound(it.Rest()[0], size, maxpages, gup);
      ChunkFits(it.vec, it.Where());
      WindowAligned(it.vec, it.Where(), t.blockSize, maxpages, gup, size, WindowGot(bio, it, gup));
    }
  }

  /** A round that finds whole blocks keeps them whole; one that does not finds no room. */
  lemma SmoothMore(zoneAppend: bool, v: seq<Segment>, c: Cur, c': Cur, blockSize: nat, size: nat, size': nat,
                   vcnt: nat, vcnt': nat, maxVecs: nat, n: int, failure: int, ret: int)
    requires Wf(v, c) && Wf(v, c') && blockSize > 0 && SmoothAt(zoneAppend, size, v, c, blockSize)
    requires var noRoom := vcnt == maxVecs || c.count == 0 || size == UINT_MAX;
      && (noRoom ==> ret != 0 && vcnt' == vcnt && size' == size)
      && (!noRoom ==> 0 < n <= c.count && AlignedAt(v, Pos(v, c) + n, c.count - n, blockSize))
    requires RoundGot(zoneAppend, n, failure, ret, size' - size)
    requires c'.count + size' == c.count + size && Pos(v, c') + size == Pos(v, c) + size'
    ensures if ret == 0 then SmoothAt(zoneAppend, size', v, c', blockSize) else c'.count == 0 || vcnt' == maxVecs
  {
    hide AlignedAt, Start;
  }

  /** One round of the loop, with what it keeps. */
  method Round(bio: Bio, it: Iter, mm: AddressSpace, t: Target, gup: int, pols: nat -> Policy,
               ghost c: Cur, ghost phys0: seq<nat>, ghost size0: nat, ghost base: multiset<nat>)
    returns (ret: int)
    requires !bio.cloned && it.UserBacked() && ValidTarget(t) && bio.Valid() && it.Valid()
    requires Wf(it.vec, c) && Absorbed(bio, it, mm, c, phys0, size0, base)
    modifies bio`vcnt, bio`size, bio.table, it, mm
    ensures bio.Valid() && it.Valid() && Absorbed(bio, it, mm, c, phys0, size0, base)
    ensures size0 <= old(bio.size) <= bio.size <= size0 + c.count && it.count + bio.size == c.count + size0
    ensures RoundGot(bio.zoneAppend, old(WholeBlocks(bio, it, t, gup)), old(RoundFailure(bio, it, gup)), ret,
                     bio.size - old(bio.size))
    ensures old(NoRoom(bio, it)) ==> ret != 0 && bio.vcnt == old(bio.vcnt) && bio.size == old(bio.size)
    ensures old(Smooth(bio, it, t)) && gup > 0 && ret == 0 ==> Smooth(bio, it, t)
    ensures old(Smooth(bio, it, t)) && gup > 0 && ret != 0 ==> it.count == 0 || bio.vcnt >= bio.maxVecs
  {
    hide Absorbed, WholeBlocks, RoundFailure, SmoothAt, AlignedAt, Wf, Decode, TableOk, TotalLen, Positive, Bio.Vecs,
         Phys, Start, Pos, Bio.Valid, RoundGot, Holds, Walk, RestOf, Flat;
    ghost var c1, size1, n, failure := it.Where(), bio.size, WholeBlocks(bio, it, t, gup), RoundFailure(bio, it, gup);
    ghost var vcnt1, smooth := bio.vcnt, Smooth(bio, it, t) && gup > 0;
    AbsorbedFacts(bio, it, mm, c, phys0, size0, base);
    SmoothRound(bio, it, t, gup);
    ret := NextRound(bio, it, mm, t, gup, pols, c, phys0, size0, base);
    AbsorbedFacts(bio, it, mm, c, phys0, size0, base);
    GotSome(bio.zoneAppend, n, failure, ret, bio.size - size1);
    if smooth {
      SmoothMore(bio.zoneAppend, it.vec, c1, it.Where(), t.blockSize, size1, bio.size, vcnt1, bio.vcnt, bio.maxVecs,
                 n, failure, ret);
    }
  }

  lemma GotSome(zoneAppend: bool, n: int, failure: int, ret: int, more: int)
    requires RoundGot(zoneAppend, n, failure, ret, more)
    ensures more >= 0
  {
  }

  lemma ChunkFits(v: seq<Segment>, c: Cur)
    requires Wf(v, c) && c.count > 0
    ensures 0 < Chunk(v, c.seg, c.off, c.count) <= c.count
  {
  }

  lemma AbsorbedFacts(bio: Bio, it: Iter, mm: AddressSpace, c: Cur, phys0: seq<nat>, size0: nat, base: multiset<nat>)
    requires Wf(it.vec, c) && Absorbed(bio, it, mm, c, phys0, size0, base)
    ensures bio.Valid() && it.Valid() && Holds(mm.refs, base, bio.Vecs(), multiset{})
    ensures size0 <= bio.size <= size0 + c.count && it.count == c.count - (bio.size - size0)
    ensures Pos(it.vec, it.Where()) == Pos(it.vec, c) + (bio.size - size0)
    ensures bio.vcnt == 0 <==> bio.size == 0
  {
    if bio.vcnt > 0 {
      TotalLenLast(bio.Vecs());
    }
  }

  /** One more round on top of what was absorbed since the iterator stood at c. */
  method NextRound(bio: Bio, it: Iter, mm: AddressSpace, t: Target, gup: int, pols: nat -> Policy,
                   ghost c: Cur, ghost phys0: seq<nat>, ghost size0: nat, ghost base: multiset<nat>)
    returns (ret: int)
    requires !bio.cloned && it.UserBacked() && ValidTarget(t)
    requires Wf(it.vec, c) && Absorbed(bio, it, mm, c, phys0, size0, base)
    modifies bio`vcnt, bio`size, bio.table, it, mm
    ensures Absorbed(bio, it, mm, c, phys0, size0, base)
    ensures RoundGot(bio.zoneAppend, old(WholeBlocks(bio, it, t, gup)), old(RoundFailure(bio, it, gup)), ret,
                     bio.size - old(bio.size))
    ensures old(NoRoom(bio, it)) ==> ret != 0 && bio.vcnt == old(bio.vcnt) && bio.size == old(bio.size)
  {
    hide RestOf, Phys, Walk, TotalLen, TableOk, Decode, Holds, Translate, Flat, Positive, WholeBlocks, RoundFailure,
         NoRoom;
    ghost var c1, phys1, size1 := it.Where(), Phys(bio.Vecs()), bio.size;
    ret := GetPagesOnce(bio, it, mm, t, gup, pols, base);
    AbsorbedTwice(bio, it, mm, c, phys0, size0, c1, phys1, size1, base);
  }

  /** __bio_release_pages: one put for every page the per-page walk visits. */
  method ReleasePages(bio: Bio, mm: AddressSpace, ghost base: multiset<nat>)
    requires bio.Valid() && Holds(mm.refs, base, bio.Vecs(), multiset{})
    modifies mm
    ensures mm.refs == base
  {
    hide TotalLen, Decode, TableOk, Positive, Walk, From, Segments, Phys, BytesOf;
    ghost var walk := Walk(bio.Vecs());
    var ps := bio.PageSegments();
    SegmentsCover(bio.Vecs());
    FromEnds(walk);
    var k := 0;
    while k < |ps|
      invariant k <= |ps| && mm.refs == base + From(walk, k)
    {
      DropFirst(walk, k);
      mm.PutPage(ps[k].page);
      k := k + 1;
    }
  }

  /**
   Pin conservation over whole runs: any number of calls of bio_iov_iter_get_pages that
   fill a bio, then bio_release_pages, leave every page's reference count as it was. Before
   the release the bio describes the bytes that were consumed, and holds (`held` is the
   count then) one reference for every page of its walk.
   */
  method PinAndRelease(bio: Bio, it: Iter, mm: AddressSpace, t: Target, runs: nat,
                       gups: nat -> nat -> int, pols: nat -> nat -> nat -> Policy)
    returns (held: multiset<nat>)
    requires bio.Valid() && bio.Vecs() == [] && !bio.cloned && it.Valid() && it.UserBacked() && ValidTarget(t)
    modifies bio`vcnt, bio`size, bio.table, it, mm
    ensures mm.refs == old(mm.refs)
    ensures bio.Valid() && it.Consumed(bio.size)
    ensures Phys(bio.Vecs()) == Translate(mm.frameOf, old(it.Rest())[..bio.size])
    ensures held == mm.refs + multiset(Walk(bio.Vecs()))
    ensures runs > 0 && !bio.zoneAppend ==> bio.size >= old(WholeBlocks(bio, it, t, gups(0)(0)))
    ensures runs > 0 && old(Smooth(bio, it, t)) && (forall k :: gups(0)(k) > 0) ==>
      it.count == 0 || bio.vcnt >= bio.maxVecs
  {
    hide Phys, Translate, RestOf, TotalLen, TableOk, Decode, Positive, Absorbed, Holds, WholeBlocks, Smooth, Start,
         Walk, Bio.Vecs, Wf;
    ghost var base, c := mm.refs, it.Where();
    ghost var n := if runs > 0 && !bio.zoneAppend then WholeBlocks(bio, it, t, gups(0)(0)) else 0;
    ghost var smooth := runs > 0 && Smooth(bio, it, t) && forall k :: gups(0)(k) > 0;
    NothingHeld(bio, it, mm);
    if runs > 0 {
      FillAgain(bio, it, mm, t, gups(0), pols(0), c, base);
    }
    var k := 1;
    while k < runs
      invariant bio.Valid() && it.Valid() && Absorbed(bio, it, mm, c, [], 0, base) && bio.size >= n
      invariant smooth ==> it.count == 0 || bio.vcnt >= bio.maxVecs
    {
      FillAgain(bio, it, mm, t, gups(k), pols(k), c, base);
      k := k + 1;
    }
    held := mm.refs;
    AbsorbedAll(bio, it, mm, c, base);
    ReleasePages(bio, mm, base);
  }

  /** One more call of bio_iov_iter_get_pages on top of what the bio has since the iterator stood at c. */
  method FillAgain(bio: Bio, it: Iter, mm: AddressSpace, t: Target, gups: nat -> int, pols: nat -> nat -> Policy,
                   ghost c: Cur, ghost base: multiset<nat>)
    requires !bio.cloned && it.UserBacked() && ValidTarget(t)
    requires Wf(it.vec, c) && bio.Valid() && it.Valid() && Absorbed(bio, it, mm, c, [], 0, base)
    modifies bio`vcnt, bio`size, bio.table, it, mm
    ensures bio.Valid() && it.Valid() && Absorbed(bio, it, mm, c, [], 0, base) && bio.size >= old(bio.size)
    ensures !bio.zoneAppend ==> bio.size >= old(bio.size) + old(WholeBlocks(bio, it, t, gups(0)))
    ensures old(it.count) == 0 ==> it.count == 0
    ensures old(bio.vcnt) >= bio.maxVecs ==> bio.vcnt >= bio.maxVecs
    ensures old(Smooth(bio, it, t)) && (forall k :: gups(k) > 0) ==> it.count == 0 || bio.vcnt >= bio.maxVecs
  {
    hide RestOf, Phys, Walk, TotalLen, TableOk, Decode, Holds, Translate, Flat, Positive, WholeBlocks, Smooth,
         RoundFailure, Start;
    ghost var c1, phys1, size1 := it.Where(), Phys(bio.Vecs()), bio.size;
    var ret := IovIterGetPages(bio, it, mm, t, gups, pols, base);
    AbsorbedTwice(bio, it, mm, c, [], 0, c1, phys1, size1, base);
  }

  lemma NothingHeld(bio: Bio, it: Iter, mm: AddressSpace)
    requires bio.Valid() && bio.Vecs() == [] && it.Valid()
    ensures Absorbed(bio, it, mm, it.Where(), [], 0, mm.refs)
  {
    EmptyWalk();
    assert it.Rest()[0..] == it.Rest() && Translate(mm.frameOf, it.Rest()[..0]) == [];
  }

  lemma AbsorbedAll(bio: Bio, it: Iter, mm: AddressSpace, c: Cur, base: multiset<nat>)
    requires Wf(it.vec, c) && Absorbed(bio, it, mm, c, [], 0, base)
    ensures bio.Valid() && it.Valid() && Holds(mm.refs, base, bio.Vecs(), multiset{})
    ensures bio.size <= c.count && it.count == c.count - bio.size
    ensures Pos(it.vec, it.Where()) == Pos(it.vec, c) + bio.size && it.Rest() == RestOf(it.vec, c)[bio.size..]
    ensures Phys(bio.Vecs()) == Translate(mm.frameOf, RestOf(it.vec, c)[..bio.size])
    ensures mm.refs == base + multiset(Walk(bio.Vecs()))
  {
    hide RestOf, Phys, Translate, Walk;
  }
}
