/** blk_rq_map_user_iov without bouncing, and blk_rq_unmap_user: the whole bio chain of a request. */
module MapUser {
  import opened Params
  import opened Memory
  import opened Cursor
  import opened IovIter
  import opened UserPages
  import opened Bvecs
  import opened Bios
  import opened PinnedBio
  import opened Alignment
  import opened DirectMap
  import opened Seams
  import opened OneBio

  /** rq->bio linked by bi_next up to rq->biotail, and rq->__data_len. */
  class Request {
    var bios: seq<Bio>
    var dataLen: nat

    constructor ()
      ensures bios == [] && dataLen == 0
    {
      bios, dataLen := [], 0;
    }

    /** blk_rq_append_bio; mergeOk is the verdict of ll_back_merge_fn. */
    method Append(bio: Bio, mergeOk: bool) returns (ret: int)
      modifies this
      ensures ret == (if old(bios) == [] || mergeOk then 0 else EINVAL)
      ensures bios == if ret == 0 then old(bios) + [bio] else old(bios)
      ensures dataLen ==
        if ret != 0 then old(dataLen) else if old(bios) == [] then bio.size else Wrap32(old(dataLen) + bio.size)
    {
      if bios == [] {
        bios, dataLen := [bio], bio.size;
        return 0;
      }
      if !mergeOk {
        return EINVAL;
      }
      bios, dataLen := bios + [bio], Wrap32(dataLen + bio.size);
      return 0;
    }
  }

  lemma {:induction false} NPagesPositive(v: seq<Segment>, s: nat, off: nat, size: nat)
    requires Wf(v, Cur(s, 0, off, size)) && size > 0
    ensures NPages(v, s, off, size) > 0
    decreases |v| - s
  {
    FirstByte(v, s, off, size);
    if v[s].len == off {
      NPagesPositive(v, s + 1, 0, size);
    } else {
      StartMono(v, s + 1, |v|);
    }
  }

  /** What the mapping of one bio meets on its way: allocation, pinning and merging verdicts. */
  datatype Luck = Luck(bioOk: bool, gups: nat -> int, arrayOks: nat -> bool, pols: nat -> nat -> Policy, mergeOk: bool)

  /** No round fails: there is always an array for the pointers, and something can be pinned. */
  ghost predicate Pins(luck: Luck) {
    forall k :: RoundError(luck, k) == 0
  }

  /** What round k of a bio would fail with. */
  function RoundError(luck: Luck, k: nat): int {
    WindowError(luck.gups(k), luck.arrayOks(k))
  }

  /** Nothing fails on the way to the next bio; `fits` says that the request may take it. */
  ghost predicate Good(luck: Luck, fits: bool) {
    luck.bioOk && Pins(luck) && fits
  }

  /** Something on that way fails with this error. */
  ghost predicate CanFail(luck: Luck, fits: bool, err: int) {
    || (!luck.bioOk && err == ENOMEM)
    || (!fits && err == EINVAL)
    || (err != 0 && exists k :: RoundError(luck, k) == err)
  }

  /** The first thing that can go wrong does, if it is the bio's memory or the first window. */
  ghost predicate EarlyError(luck: Luck, ret: int) {
    && (!luck.bioOk ==> ret == ENOMEM)
    && (luck.bioOk && RoundError(luck, 0) != 0 ==> ret == RoundError(luck, 0))
  }

  /** The architecture lets physically contiguous pages merge. */
  ghost predicate Allows(luck: Luck) {
    forall k :: luck.pols(k)(0).platformAllows
  }

  /**
   What one bio takes of an iterator that goes from c to c'. An aligned iterator moves on and
   stays aligned; references grow as its page count falls; a bio that leaves something has
   fewer entries than the iterator had pages, and ends where a segment or a page does. What
   leaks is at most the seams in between, and exactly these when nothing refuses to merge.
   */
  ghost predicate Took(v: seq<Segment>, frameOf: nat -> nat, l: Limits, c: Cur, c': Cur, allows: bool,
                       vcnt: nat, grown: int, leaked: multiset<nat>)
    requires Wf(v, c) && Wf(v, c') && ValidLimits(l)
  {
    var pages, pages' := NPages(v, c.seg, c.off, c.count), NPages(v, c'.seg, c'.off, c'.count);
    var aligned, capped := AlignedAt(v, Pos(v, c), c.count, l.dmaAlign), c.count <= MAX_RW_COUNT;
    var seams := SeamsIn(v, frameOf, Pos(v, c), Pos(v, c'));
    && (aligned ==> c'.count < c.count && AlignedAt(v, Pos(v, c'), c'.count, l.dmaAlign))
    && (capped ==> grown + pages' == pages && leaked <= seams)
    && (capped && aligned && c'.count > 0 ==> vcnt < pages && CutAt(v, c', true))
    && (capped && aligned && Generous(l, c.count) && allows ==>
          leaked == seams && (c'.count > 0 ==> SeamAt(v, frameOf, Pos(v, c')) == multiset{}))
  }

  /**
   What a bio has become since the iterator stood at c and `base` was the reference count: it
   describes what left the iterator and holds what it walks, within all limits, and where it
   leaves something it could take no more.
   */
  ghost predicate BioMade(bio: Bio, it: Iter, mm: AddressSpace, l: Limits, luck: Luck, c: Cur, base: multiset<nat>,
                          leaked: multiset<nat>)
    requires Wf(it.vec, c) && ValidLimits(l)
    reads bio, bio.table, it, mm
  {
    && it.Valid() && bio.Valid() && Obeys(bio, l) && Gathered(bio, it, mm, c, base + leaked)
    && Took(it.vec, mm.frameOf, l, c, it.Where(), Allows(luck), bio.vcnt, |mm.refs| - |base|, leaked)
    && (it.count > 0 ==> StopsFull(bio, l, mm.frameOf, it.vec, it.Where(), luck))
  }

  /** bio_map_user_iov: the next bio of the chain, holding as much of the iterator as the limits let in. */
  method MapOneBio(rq: Request, it: Iter, mm: AddressSpace, l: Limits, luck: Luck)
    returns (ret: int, ghost leaked: multiset<nat>)
    requires it.Valid() && it.kind.IovecIter? && ValidLimits(l)
    modifies rq, it, mm
    ensures ret == 0 ==>
      && |rq.bios| == |old(rq.bios)| + 1 && rq.bios[..|rq.bios| - 1] == old(rq.bios)
      && var bio := rq.bios[|rq.bios| - 1];
      && fresh(bio) && fresh(bio.table) && bio.Valid() && !bio.cloned
      && rq.dataLen == (if old(rq.bios) == [] then bio.size else Wrap32(old(rq.dataLen) + bio.size))
      && bio.maxVecs == Min(old(PagesLeft(it)), BIO_MAX_VECS)
      && BioMade(bio, it, mm, l, luck, old(it.Where()), old(mm.refs), leaked)
    ensures ret != 0 ==> it.Valid() && rq.bios == old(rq.bios) && mm.refs == old(mm.refs) + leaked
    ensures var fits := old(rq.bios) == [] || luck.mergeOk;
            && (old(it.count) == 0 ==> ret == EINVAL)
            && (old(it.count) > 0 && Good(luck, fits) ==> ret == 0)
            && (old(it.count) > 0 ==> EarlyError(luck, ret) && (ret == 0 || CanFail(luck, fits, ret)))
            && (!fits ==> ret != 0)
    ensures ret != 0 && old(it.count) <= MAX_RW_COUNT ==>
      var p := old(Pos(it.vec, it.Where()));
      leaked <= SeamsIn(it.vec, mm.frameOf, p, p + old(it.count))
  {
    hide RestOf, Phys, Walk, TotalLen, TableOk, Decode, Holds, Translate, Gathered, NPages, AlignedAt, SeamsIn, SeamAt,
         Generous, Start, Bio.Vecs, WindowError, RoundError, Wrap32, BioMade;
    leaked := multiset{};
    var nrVecs := CountPages(it, BIO_MAX_VECS);
    if it.count == 0 {
      return EINVAL, leaked;
    }
    if !luck.bioOk {
      return ENOMEM, leaked;
    }
    NPagesPositive(it.vec, it.seg, it.iovOffset, it.count);
    var bio := new Bio(nrVecs, false);
    ret, leaked := FillOrUndo(bio, it, mm, l, luck, rq.bios == [] || luck.mergeOk);
    if ret == 0 {
      ret := rq.Append(bio, luck.mergeOk);
      assert rq.bios[|rq.bios| - 1] == bio;
    }
  }

  /** With room for everything in one bio, the bio takes everything. */
  lemma {:induction false} TakesAll(bio: Bio, it: Iter, mm: AddressSpace, l: Limits, luck: Luck, c: Cur,
                                    base: multiset<nat>, leaked: multiset<nat>)
    requires Wf(it.vec, c) && ValidLimits(l) && !bio.cloned && BioMade(bio, it, mm, l, luck, c, base, leaked)
    requires bio.maxVecs == Min(NPages(it.vec, c.seg, c.off, c.count), BIO_MAX_VECS)
    ensures AlignedAt(it.vec, Pos(it.vec, c), c.count, l.dmaAlign) && Roomy(l, it.vec, c) ==> it.count == 0
  {
    hide NPages, AlignedAt, SeamsIn, SeamAt, Generous, Allows, Gathered, Obeys, RefusesNext, GapAligned, Phys, RestOf,
         Reached, Translate, Decode, TableOk, CutAt;
    GatheredReached(bio, it, mm, c, base + leaked);
    if AlignedAt(it.vec, Pos(it.vec, c), c.count, l.dmaAlign) && Roomy(l, it.vec, c) && it.count > 0 {
      PagesHold(it.vec, c.seg, c.off, c.count);
      var k :| RefusesNext(bio, l, mm.frameOf, it.vec, it.Where(), luck.pols(k));
      NothingRefused(bio, l, it.vec, mm.frameOf, c, it.Where(), luck.pols(k));
    }
  }

  /** The bio is filled, unless an error or a request it does not fit into undoes it. */
  method FillOrUndo(bio: Bio, it: Iter, mm: AddressSpace, l: Limits, luck: Luck, fits: bool)
    returns (ret: int, ghost leaked: multiset<nat>)
    requires bio.Valid() && bio.Vecs() == [] && !bio.cloned && bio.maxVecs > 0
    requires it.Valid() && it.kind.IovecIter? && it.count > 0 && ValidLimits(l)
    modifies bio`vcnt, bio`size, bio.table, it, mm
    ensures it.Valid() && bio.Valid() && (ret == 0 ==> fits)
    ensures luck.bioOk ==>
      (Good(luck, fits) ==> ret == 0) && EarlyError(luck, ret) && (ret == 0 || CanFail(luck, fits, ret))
    ensures ret == 0 ==> BioMade(bio, it, mm, l, luck, old(it.Where()), old(mm.refs), leaked)
    ensures ret != 0 ==> mm.refs == old(mm.refs) + leaked
    ensures ret != 0 && old(it.count) <= MAX_RW_COUNT ==>
      var p := old(Pos(it.vec, it.Where()));
      leaked <= SeamsIn(it.vec, mm.frameOf, p, p + old(it.count))
  {
    hide RestOf, Phys, Walk, TotalLen, TableOk, Decode, Holds, Translate, Gathered, NPages, AlignedAt, SeamsIn, SeamAt,
         Generous, Allows, Obeys, Start, Took, StopsFull;
    ghost var c, p, size := it.Where(), Pos(it.vec, it.Where()), it.count;
    ret, leaked := FillBio(bio, it, mm, l, luck);
    GatheredFacts(bio, it, mm, c, old(mm.refs) + leaked);
    SeamsGrow(it.vec, mm.frameOf, p, Pos(it.vec, it.Where()), p + size);
    if ret == 0 && !fits {
      ret := EINVAL;
    }
    if ret != 0 {
      Undo(bio, it, mm, c, old(mm.refs) + leaked);
    }
  }

  /** The loop of bio_map_user_iov: rounds until the iterator is empty or the bio is full. */
  method FillBio(bio: Bio, it: Iter, mm: AddressSpace, l: Limits, luck: Luck)
    returns (err: int, ghost leaked: multiset<nat>)
    requires bio.Valid() && bio.Vecs() == [] && !bio.cloned && bio.maxVecs > 0
    requires it.Valid() && it.kind.IovecIter? && it.count > 0 && ValidLimits(l)
    modifies bio`vcnt, bio`size, bio.table, it, mm
    ensures Gathered(bio, it, mm, old(it.Where()), old(mm.refs) + leaked) && it.Valid() && bio.Valid()
    ensures (Pins(luck) ==> err == 0) && (err != 0 ==> exists k :: RoundError(luck, k) == err)
    ensures RoundError(luck, 0) != 0 ==> err == RoundError(luck, 0)
    ensures Obeys(bio, l)
    ensures err == 0 ==>
      Took(it.vec, mm.frameOf, l, old(it.Where()), it.Where(), Allows(luck), bio.vcnt,
           |mm.refs| - |old(mm.refs)|, leaked)
    ensures err == 0 && it.count > 0 ==> StopsFull(bio, l, mm.frameOf, it.vec, it.Where(), luck)
    ensures old(it.count) <= MAX_RW_COUNT ==>
      leaked <= SeamsIn(it.vec, mm.frameOf, old(Pos(it.vec, it.Where())), Pos(it.vec, it.Where()))
  {
    hide RestOf, TableOk, Gathered, NPages, AlignedAt, SeamsIn, SeamAt, Generous, Allows, Obeys, Filling, WindowError,
         StopsFull;
    ghost var c, base, allows := it.Where(), mm.refs, Allows(luck);
    leaked, err := multiset{}, 0;
    FillStarts(bio, it, mm, l, allows);
    var k: nat, left: nat := 0, 0;
    while it.count > 0 && left == 0
      invariant it.Valid() && bio.Valid() && Filling(bio, it, mm, l, c, k, left, allows, base, leaked)
      invariant err == 0 && if k == 0 then it.count == c.count && left == 0 else RoundError(luck, 0) == 0
      invariant left > 0 ==> StopsFull(bio, l, mm.frameOf, it.vec, it.Where(), luck)
      decreases it.count, if left == 0 then 1 else 0
    {
      err, left, leaked := FillRound(bio, it, mm, l, luck, k, c, allows, base, leaked);
      if err != 0 {
        break;
      }
      k := k + 1;
    }
    if err == 0 {
      FillFacts(bio, it, mm, l, c, k, left, allows, base, leaked);
    }
    FillingFacts(bio, it, mm, l, c, k, left, allows, base, leaked);
  }

  /** One round of the loop, with the account of what all rounds have done. */
  method FillRound(bio: Bio, it: Iter, mm: AddressSpace, l: Limits, luck: Luck, k: nat, ghost c: Cur,
                   ghost allows: bool, ghost base: multiset<nat>, ghost leaked: multiset<nat>)
    returns (err: int, left: nat, ghost leaked': multiset<nat>)
    requires ValidLimits(l) && Wf(it.vec, c) && Filling(bio, it, mm, l, c, k, 0, allows, base, leaked)
    requires it.count > 0 && it.kind.IovecIter? && !bio.cloned && (allows ==> Allows(luck))
    modifies bio`vcnt, bio`size, bio.table, it, mm
    ensures err == RoundError(luck, k) && it.Valid() && bio.Valid() && it.count <= old(it.count)
    ensures err == 0 ==>
      && Filling(bio, it, mm, l, c, k + 1, left, allows, base, leaked')
      && (if left == 0 then it.count < old(it.count) else StopsFull(bio, l, mm.frameOf, it.vec, it.Where(), luck))
    ensures err != 0 ==> left == 0 && Filling(bio, it, mm, l, c, k, 0, allows, base, leaked')
  {
    hide RestOf, Phys, Walk, TotalLen, TableOk, Decode, Holds, Translate, Gathered, NPages, AlignedAt, SeamsIn, SeamAt,
         Generous, Allows, Obeys, FillOk, RoundOk, WindowError, RefusesNext;
    ghost var more;
    ghost var c1, size0, vcnt0, grown0 := it.Where(), bio.size, bio.vcnt, |mm.refs| - |base|;
    AllowedHere(luck, k);
    err, left, more := MapWindow(bio, it, mm, l, luck.gups(k), luck.arrayOks(k), luck.pols(k), c, base + leaked);
    leaked' := leaked + more;
    assert base + leaked + more == base + leaked';
    GatheredFacts(bio, it, mm, c, base + leaked');
    if err != 0 {
      assert leaked' == leaked;
    } else {
      FillMore(it.vec, mm.frameOf, l, c, c1, it.Where(), k, left, allows, luck.pols(k)(0).platformAllows, bio.maxVecs,
               size0, bio.size, vcnt0, bio.vcnt, grown0, |mm.refs| - |base|, leaked, more);
    }
  }

  /** The bio ends here because its next piece is refused, by what some round meets. */
  ghost predicate StopsFull(bio: Bio, l: Limits, frameOf: nat -> nat, v: seq<Segment>, c: Cur, luck: Luck)
    requires bio.Valid() && ValidLimits(l) && Wf(v, c)
    reads bio, bio.table
  {
    exists k :: RefusesNext(bio, l, frameOf, v, c, luck.pols(k))
  }

  /** What holds between the rounds. */
  ghost predicate Filling(bio: Bio, it: Iter, mm: AddressSpace, l: Limits, c: Cur, k: nat, left: nat, allows: bool,
                          base: multiset<nat>, leaked: multiset<nat>)
    requires Wf(it.vec, c) && ValidLimits(l)
    reads bio, bio.table, it, mm
  {
    && it.Valid() && bio.Valid() && Gathered(bio, it, mm, c, base + leaked) && Obeys(bio, l)
    && FillOk(it.vec, mm.frameOf, l, c, it.Where(), k, left, allows, bio.maxVecs, bio.size, bio.vcnt,
              |mm.refs| - |base|, leaked)
  }

  /**
   What k rounds have done since the iterator stood at c, when it stands at c' now. After a
   round that left something, the bio is full or the queue's limits are reached.
   */
  ghost predicate FillOk(v: seq<Segment>, frameOf: nat -> nat, l: Limits, c: Cur, c': Cur, k: nat, left: nat,
                         allows: bool, maxVecs: nat, size: nat, vcnt: nat, grown: int, leaked: multiset<nat>)
    requires Wf(v, c) && Wf(v, c') && ValidLimits(l)
  {
    var pages, pages' := NPages(v, c.seg, c.off, c.count), NPages(v, c'.seg, c'.off, c'.count);
    var aligned, capped := AlignedAt(v, Pos(v, c), c.count, l.dmaAlign), c.count <= MAX_RW_COUNT;
    var seams := SeamsIn(v, frameOf, Pos(v, c), Pos(v, c'));
    && size + c'.count == c.count && Pos(v, c') == Pos(v, c) + size && (left > 0 ==> c'.count > 0)
    && (aligned ==> AlignedAt(v, Pos(v, c'), c'.count, l.dmaAlign))
    && (if k == 0 then size == 0 && left == 0 else aligned && maxVecs > 0 ==> size > 0)
    && (capped ==> grown + pages' == pages && CutAt(v, c', size > 0) && leaked <= seams)
    && (capped && left == 0 ==> vcnt + pages' <= pages)
    && (capped && aligned && left > 0 ==> vcnt < pages)
    && (capped && aligned && Generous(l, c.count) && allows ==>
          leaked == seams && (left > 0 && maxVecs > 0 ==> SeamAt(v, frameOf, Pos(v, c')) == multiset{}))
  }

  lemma FillingFacts(bio: Bio, it: Iter, mm: AddressSpace, l: Limits, c: Cur, k: nat, left: nat, allows: bool,
                     base: multiset<nat>, leaked: multiset<nat>)
    requires Wf(it.vec, c) && ValidLimits(l) && Filling(bio, it, mm, l, c, k, left, allows, base, leaked)
    ensures it.Valid() && bio.Valid() && Gathered(bio, it, mm, c, base + leaked) && Obeys(bio, l)
    ensures c.count <= MAX_RW_COUNT ==>
      leaked <= SeamsIn(it.vec, mm.frameOf, Pos(it.vec, c), Pos(it.vec, it.Where()))
  {
    hide NPages, AlignedAt, SeamsIn, SeamAt, Generous, CutAt, Gathered, Obeys;
  }

  /** The loop ends when nothing is left, or when a round leaves something. */
  lemma FillFacts(bio: Bio, it: Iter, mm: AddressSpace, l: Limits, c: Cur, k: nat, left: nat, allows: bool,
                  base: multiset<nat>, leaked: multiset<nat>)
    requires Wf(it.vec, c) && ValidLimits(l) && Filling(bio, it, mm, l, c, k, left, allows, base, leaked)
    requires k > 0 && bio.maxVecs > 0 && (it.count > 0 ==> left > 0)
    ensures Took(it.vec, mm.frameOf, l, c, it.Where(), allows, bio.vcnt, |mm.refs| - |base|, leaked)
  {
    hide NPages, AlignedAt, SeamsIn, SeamAt, Generous, CutAt, Gathered, Obeys;
  }

  lemma {:induction false} FillMore(v: seq<Segment>, frameOf: nat -> nat, l: Limits, c: Cur, c1: Cur, c': Cur, k: nat,
                                    left: nat, allows: bool, allowsHere: bool, maxVecs: nat, size0: nat, size: nat,
                                    vcnt0: nat, vcnt: nat, grown0: int, grown: int, leaked: multiset<nat>,
                                    more: multiset<nat>)
    requires Wf(v, c) && Wf(v, c1) && Wf(v, c') && ValidLimits(l) && (allows ==> allowsHere)
    requires FillOk(v, frameOf, l, c, c1, k, 0, allows, maxVecs, size0, vcnt0, grown0, leaked)
    requires RoundOk(v, frameOf, l, c, c1, c', left, allowsHere, maxVecs, size0, size, vcnt0, vcnt,
                     grown - grown0, more)
    requires size + c'.count == c.count && Pos(v, c') == Pos(v, c) + size
    ensures FillOk(v, frameOf, l, c, c', k + 1, left, allows, maxVecs, size, vcnt, grown, leaked + more)
    ensures c'.count <= c1.count && (c'.count < c1.count || left > 0)
  {
    hide NPages, AlignedAt, SeamsIn, SeamAt, Generous, CutAt, Crossed;
    SeamsOfRound(v, frameOf, Pos(v, c), Pos(v, c1), Pos(v, c'), size0 > 0, leaked, more);
  }

  lemma AllowedHere(luck: Luck, k: nat)
    ensures Allows(luck) ==> luck.pols(k)(0).platformAllows
  {
  }

  lemma FillStarts(bio: Bio, it: Iter, mm: AddressSpace, l: Limits, allows: bool)
    requires bio.Valid() && bio.Vecs() == [] && it.Valid() && ValidLimits(l)
    ensures Filling(bio, it, mm, l, it.Where(), 0, 0, allows, mm.refs, multiset{})
  {
    hide NPages, AlignedAt, SeamAt, Generous, Gathered;
    NothingFits(l.queue, RoomOf(bio, l));
    assert mm.refs + multiset{} == mm.refs;
    GatheredNothing(bio, it, mm, mm.refs + multiset{});
    NoneBetween(it.vec, mm.frameOf, Pos(it.vec, it.Where()));
  }

  /** A round from x to x' adds the seam it crosses to the seams since p. */
  lemma {:induction false} SeamsOfRound(v: seq<Segment>, frameOf: nat -> nat, p: nat, x: nat, x': nat, some: bool,
                                        leaked: multiset<nat>, more: multiset<nat>)
    requires p <= x <= x' && (some <==> p < x) && SeamsIn(v, frameOf, x, x') == multiset{}
    requires x' == x ==> more == multiset{}
    ensures
      && leaked <= SeamsIn(v, frameOf, p, x) && more <= Crossed(v, frameOf, some, x)
      ==> leaked + more <= SeamsIn(v, frameOf, p, x')
    ensures
      && leaked == SeamsIn(v, frameOf, p, x) && more == Crossed(v, frameOf, some, x)
      ==> leaked + more == SeamsIn(v, frameOf, p, x')
  {
    hide SeamsIn, SeamAt;
    NoneBetween(v, frameOf, x);
    if p < x < x' {
      SeamsSplit(v, frameOf, p, x, x');
    }
  }

  lemma GatheredFacts(bio: Bio, it: Iter, mm: AddressSpace, c: Cur, base: multiset<nat>)
    requires Wf(it.vec, c) && Gathered(bio, it, mm, c, base)
    ensures it.Valid() && bio.Valid() && it.count == c.count - bio.size
    ensures bio.size <= c.count && Pos(it.vec, it.Where()) == Pos(it.vec, c) + bio.size
  {
  }

  /** out_unmap: every page the bio took is released again. */
  method Undo(bio: Bio, it: Iter, mm: AddressSpace, ghost c: Cur, ghost base: multiset<nat>)
    requires Wf(it.vec, c) && Gathered(bio, it, mm, c, base)
    modifies mm
    ensures mm.refs == base
  {
    ReleasePages(bio, mm, base);
  }

  lemma {:induction false} GatheredNothing(bio: Bio, it: Iter, mm: AddressSpace, base: multiset<nat>)
    requires bio.Valid() && it.Valid() && bio.Vecs() == [] && mm.refs == base
    ensures Gathered(bio, it, mm, it.Where(), base)
  {
    assert it.Rest()[0..] == it.Rest();
    assert Translate(mm.frameOf, it.Rest()[..0]) == [];
  }

  ghost predicate ChainValid(bios: seq<Bio>)
    reads bios, set b | b in bios :: b.table
  {
    forall b :: b in bios ==> b.Valid()
  }

  /** The physical bytes of a bio chain, in order. */
  ghost function ChainPhys(bios: seq<Bio>): seq<nat>
    requires ChainValid(bios)
    reads bios, set b | b in bios :: b.table
  {
    if bios == [] then [] else
      assert bios[|bios| - 1] in bios;
      ChainPhys(bios[..|bios| - 1]) + Phys(bios[|bios| - 1].Vecs())
  }

  /** Every page a chain holds a reference to, with multiplicity. */
  ghost function ChainWalk(bios: seq<Bio>): multiset<nat>
    requires ChainValid(bios)
    reads bios, set b | b in bios :: b.table
  {
    if bios == [] then multiset{} else
      assert bios[|bios| - 1] in bios;
      ChainWalk(bios[..|bios| - 1]) + multiset(Walk(bios[|bios| - 1].Vecs()))
  }

  lemma {:induction false} ChainWalkPrefix(bios: seq<Bio>, k: nat)
    requires ChainValid(bios) && k <= |bios|
    ensures ChainValid(bios[..k]) && ChainWalk(bios[..k]) <= ChainWalk(bios)
    decreases |bios|
  {
    if k == |bios| {
      assert bios[..k] == bios;
    } else {
      ChainWalkPrefix(bios[..|bios| - 1], k);
      assert bios[..|bios| - 1][..k] == bios[..k];
    }
  }

  /** blk_rq_unmap_user on a directly mapped chain: every page is put exactly as often as the chain holds it. */
  method UnmapUser(bios: seq<Bio>, mm: AddressSpace, ghost base: multiset<nat>)
    requires ChainValid(bios) && mm.refs == base + ChainWalk(bios)
    modifies mm
    ensures mm.refs == base
  {
    hide Walk, TotalLen, TableOk, Decode, Positive, ChainWalk, Holds, Bio.Vecs;
    var k := 0;
    ChainEnds(bios);
    while k < |bios|
      invariant k <= |bios| && ChainValid(bios[..k])
      invariant mm.refs + ChainWalk(bios[..k]) == base + ChainWalk(bios)
    {
      UnmapNext(bios, k, mm, base);
      k := k + 1;
    }
    Cancel(mm.refs, base, ChainWalk(bios));
  }

  method UnmapNext(bios: seq<Bio>, k: nat, mm: AddressSpace, ghost base: multiset<nat>)
    requires ChainValid(bios) && k < |bios| && ChainValid(bios[..k])
    requires mm.refs + ChainWalk(bios[..k]) == base + ChainWalk(bios)
    modifies mm
    ensures ChainValid(bios[..k + 1])
    ensures mm.refs + ChainWalk(bios[..k + 1]) == base + ChainWalk(bios)
  {
    hide Walk, TotalLen, TableOk, Decode, Positive, ChainWalk, Holds, Bio.Vecs;
    ChainStep(bios, k);
    ReleasedOne(mm.refs, base, ChainWalk(bios), ChainWalk(bios[..k]), ChainWalk(bios[..k + 1]), bios[k].Vecs());
    ReleasePages(bios[k], mm, mm.refs - multiset(Walk(bios[k].Vecs())));
  }

  lemma ChainEnds(bios: seq<Bio>)
    requires ChainValid(bios)
    ensures bios[..0] == [] && bios[..|bios|] == bios && ChainValid(bios[..0]) && ChainWalk(bios[..0]) == multiset{}
  {
  }

  lemma {:induction false} ChainStep(bios: seq<Bio>, k: nat)
    requires ChainValid(bios) && k < |bios|
    ensures bios[k].Valid() && ChainValid(bios[..k]) && ChainValid(bios[..k + 1])
    ensures ChainWalk(bios[..k + 1]) == ChainWalk(bios[..k]) + multiset(Walk(bios[k].Vecs()))
    ensures ChainWalk(bios[..k + 1]) <= ChainWalk(bios)
  {
    ChainWalkPrefix(bios, k + 1);
    assert bios[..k + 1][..k] == bios[..k];
  }

  lemma {:induction false} ReleasedOne(refs: multiset<nat>, base: multiset<nat>, total: multiset<nat>,
                                       done: multiset<nat>, more: multiset<nat>, vs: seq<Bvec>)
    requires refs + done == base + total && more == done + multiset(Walk(vs)) && more <= total
    ensures Holds(refs, refs - multiset(Walk(vs)), vs, multiset{})
    ensures refs - multiset(Walk(vs)) + more == base + total
  {
    hide Walk;
    var mine := multiset(Walk(vs));
    forall x ensures refs[x] == (base + mine + (total - more))[x] {
      assert (refs + done)[x] == (base + total)[x];
    }
    assert refs == base + mine + (total - more);
  }

  /** The chain describes what the iterator delivered since it stood at c, and holds what it walks. */
  ghost predicate Covered(rq: Request, i: Iter, mm: AddressSpace, c: Cur, base: multiset<nat>)
    requires Wf(i.vec, c)
    reads rq, rq.bios, (set b | b in rq.bios :: b.table), i, mm
  {
    && ChainValid(rq.bios) && i.Valid() && i.count <= c.count
    && var n := c.count - i.count;
    && Pos(i.vec, i.Where()) == Pos(i.vec, c) + n && i.Rest() == RestOf(i.vec, c)[n..]
    && ChainPhys(rq.bios) == Translate(mm.frameOf, RestOf(i.vec, c)[..n])
    && (if rq.bios == [] then n == 0 else rq.dataLen == Wrap32(n))
    && mm.refs == base + ChainWalk(rq.bios)
  }

  /**
   blk_rq_map_user_iov on the direct path of an aligned iterator. It ends, and either
   the chain describes exactly the iterator's bytes in order, or nothing stays mapped.
   Up to the references leaked by merges inside one page, the chain holds what it walks.
   These are at most the frames in which two segments physically meet, each once for
   every such seam, and exactly these when no limit refuses the merge.
   */
  method MapUserIov(rq: Request, iter: Iter, mm: AddressSpace, l: Limits, lucks: nat -> Luck)
    returns (ret: int, ghost leaked: multiset<nat>)
    requires rq.bios == [] && iter.Valid() && iter.kind.IovecIter? && iter.count > 0
    requires ValidLimits(l) && DmaAligned(iter, l.dmaAlign)
    modifies rq, mm
    ensures ret == 0 ==>
      && ChainValid(rq.bios)
      && ChainPhys(rq.bios) == Translate(mm.frameOf, iter.Rest())
      && rq.dataLen == Wrap32(iter.count)
      && mm.refs == old(mm.refs) + leaked + ChainWalk(rq.bios)
    ensures ret == 0 ==> ChainObeys(rq.bios, l)
    ensures ret != 0 ==> rq.bios == [] && mm.refs == old(mm.refs) + leaked
    ensures AllGood(lucks) ==> ret == 0
    ensures ret != 0 ==> SomeFails(lucks, ret)
    ensures EarlyError(lucks(0), ret)
    ensures ret == 0 ==> ChainFull(rq.bios, Translate(mm.frameOf, iter.Rest()), l, lucks)
    ensures Roomy(l, iter.vec, iter.Where()) ==> (ret == 0 ==> |rq.bios| == 1) && (Good(lucks(0), true) ==> ret == 0)
    ensures ret == 0 && iter.count <= MAX_RW_COUNT ==> |ChainWalk(rq.bios)| + |leaked| == PagesLeft(iter)
    ensures iter.count <= MAX_RW_COUNT ==> leaked <= SeamsOf(iter, mm.frameOf)
    ensures
      && ret == 0 && iter.count <= MAX_RW_COUNT && Generous(l, iter.count) && AllAllow(lucks)
      ==> leaked == SeamsOf(iter, mm.frameOf)
  {
    hide RestOf, Translate, Flat, SeamsIn, Generous, Allows, ChainWalk, ChainPhys, Mapping, NPages, Bio.Vecs, Obeys,
         AllGood, SomeFails, AllAllow, EarlyError, ChainObeys, ChainValid, ValidLimits, Start, ChainFull, Roomy, Good;
    var i := new Iter.Copy(iter);
    ghost var c, base := i.Where(), old(mm.refs);
    ghost var capped := c.count <= MAX_RW_COUNT;
    ghost var exact := capped && Generous(l, c.count) && AllAllow(lucks);
    MappingStarts(rq, i, mm, l, lucks, capped, exact);
    ret, leaked := MapAll(rq, i, mm, l, lucks, c, base, capped, exact);
    if ret == 0 {
      MappingEnds(rq, i, mm, l, lucks, c, base, leaked, capped, exact);
    }
  }

  /** The loop of blk_rq_map_user_iov. */
  method MapAll(rq: Request, i: Iter, mm: AddressSpace, l: Limits, lucks: nat -> Luck, ghost c: Cur,
                ghost base: multiset<nat>, ghost capped: bool, ghost exact: bool)
    returns (ret: int, ghost leaked: multiset<nat>)
    requires Wf(i.vec, c) && ValidLimits(l) && Mapping(rq, i, mm, l, lucks, c, base, multiset{}, capped, exact)
    requires rq.bios == [] && i.Valid() && i.count > 0 && i.kind.IovecIter?
    requires capped ==> c.count <= MAX_RW_COUNT
    requires exact ==> capped && Generous(l, c.count) && AllAllow(lucks)
    modifies rq, i, mm
    ensures ret == 0 ==> i.count == 0 && Mapping(rq, i, mm, l, lucks, c, base, leaked, capped, exact)
    ensures ret != 0 ==>
      && rq.bios == [] && mm.refs == base + leaked
      && (capped ==> leaked <= SeamsIn(i.vec, mm.frameOf, Pos(i.vec, c), Pos(i.vec, c) + c.count))
    ensures AllGood(lucks) ==> ret == 0
    ensures ret != 0 ==> SomeFails(lucks, ret)
    ensures EarlyError(lucks(0), ret)
    ensures Roomy(l, i.vec, old(i.Where())) ==>
      (ret == 0 ==> |rq.bios| == 1) && (Good(lucks(0), true) ==> ret == 0)
  {
    hide SeamsIn, Generous, Allows, Mapping, Good, CanFail, Roomy;
    ghost var roomy := Roomy(l, i.vec, i.Where());
    leaked := multiset{};
    var k: nat := 0;
    while true
      invariant i.Valid() && 0 < i.count && Mapping(rq, i, mm, l, lucks, c, base, leaked, capped, exact)
      invariant k == |rq.bios| && (k > 0 ==> EarlyError(lucks(0), 0) && !roomy)
      invariant k == 0 ==> roomy == Roomy(l, i.vec, i.Where())
      decreases i.count
    {
      ret, leaked := MapTurn(rq, i, mm, l, lucks, k, c, base, leaked, capped, exact);
      if ret != 0 {
        return;
      }
      k := k + 1;
      if i.count == 0 {
        break;
      }
    }
  }

  /**
   What holds between the bios: the chain so far covers what was consumed and keeps the
   limits, leaks are accounted for, and references grow as the page count falls.
   */
  ghost predicate Mapping(rq: Request, i: Iter, mm: AddressSpace, l: Limits, lucks: nat -> Luck, c: Cur,
                          base: multiset<nat>, leaked: multiset<nat>, capped: bool, exact: bool)
    requires Wf(i.vec, c) && ValidLimits(l)
    reads rq, rq.bios, (set b | b in rq.bios :: b.table), i, mm
  {
    && i.Valid() && Covered(rq, i, mm, c, base + leaked) && ChainObeys(rq.bios, l) && DmaAligned(i, l.dmaAlign)
    && Pos(i.vec, i.Where()) + i.count == Pos(i.vec, c) + c.count && i.count <= c.count
    && LeakOk(i.vec, mm.frameOf, Pos(i.vec, c), Pos(i.vec, i.Where()), Pos(i.vec, c) + c.count, leaked, capped, exact)
    && (capped ==> |mm.refs| + PagesLeft(i) == |base| + NPages(i.vec, c.seg, c.off, c.count))
    && ChainFull(rq.bios, Translate(mm.frameOf, RestOf(i.vec, c)), l, lucks)
  }

  /**
   Every bio of the chain is as long as it can be: the physical bytes phys go on behind it only
   where the limits refuse the next piece.
   */
  ghost predicate ChainFull(bios: seq<Bio>, phys: seq<nat>, l: Limits, lucks: nat -> Luck)
    requires ChainValid(bios) && ValidLimits(l)
    reads bios, set b | b in bios :: b.table
  {
    if bios == [] then true else
      var last, n := |bios| - 1, |ChainPhys(bios)|;
      assert bios[last] in bios;
      && ChainFull(bios[..last], phys, l, lucks)
      && (n < |phys| ==> EndsFull(bios[last], l, phys[n], |phys| - n, lucks(last)))
  }

  /** The limits refuse a piece of one page, or less, from physical address `at` on. */
  ghost predicate EndsFull(bio: Bio, l: Limits, at: nat, most: nat, luck: Luck)
    requires bio.Valid() && ValidLimits(l)
    reads bio, bio.table
  {
    exists k: nat, j: nat, len: nat :: 0 < len <= Min(PAGE_SIZE - at % PAGE_SIZE, most) &&
      Refuses(bio, l, Piece(at / PAGE_SIZE, len, at % PAGE_SIZE), luck.pols(k)(j))
  }

  lemma {:induction false} StopsEndsFull(bio: Bio, l: Limits, frameOf: nat -> nat, v: seq<Segment>, c: Cur, luck: Luck)
    requires bio.Valid() && ValidLimits(l) && Wf(v, c) && c.count > 0 && StopsFull(bio, l, frameOf, v, c, luck)
    requires AlignedAt(v, Pos(v, c), c.count, l.dmaAlign)
    ensures EndsFull(bio, l, PhysAt(frameOf, RestOf(v, c)[0]), c.count, luck)
  {
    hide RestOf, AlignedAt, Refuses;
    NextReachable(v, c, l.dmaAlign);
    var x := RestOf(v, c)[0];
    var k :| RefusesNext(bio, l, frameOf, v, c, luck.pols(k));
    var n :| 0 < n <= c.count && RefusesAt(bio, l, frameOf, x, n, luck.pols(k));
    var j: nat :| Refuses(bio, l, PieceAt(frameOf(x / PAGE_SIZE), x, n), luck.pols(k)(j));
    var at, len := PhysAt(frameOf, x), Min(PAGE_SIZE - x % PAGE_SIZE, n);
    assert at / PAGE_SIZE == frameOf(x / PAGE_SIZE) && at % PAGE_SIZE == x % PAGE_SIZE;
    assert Refuses(bio, l, Piece(at / PAGE_SIZE, len, at % PAGE_SIZE), luck.pols(k)(j));
  }

  lemma {:induction false} ChainFullMore(rq: Request, bios: seq<Bio>, i: Iter, mm: AddressSpace, l: Limits,
                                         lucks: nat -> Luck, c: Cur, base: multiset<nat>)
    requires Wf(i.vec, c) && ValidLimits(l) && Covered(rq, i, mm, c, base) && DmaAligned(i, l.dmaAlign)
    requires |rq.bios| == |bios| + 1 && rq.bios[..|bios|] == bios && ChainValid(bios)
    requires ChainFull(bios, Translate(mm.frameOf, RestOf(i.vec, c)), l, lucks)
    requires i.count > 0 ==>
      rq.bios[|bios|].Valid() && StopsFull(rq.bios[|bios|], l, mm.frameOf, i.vec, i.Where(), lucks(|bios|))
    ensures ChainFull(rq.bios, Translate(mm.frameOf, RestOf(i.vec, c)), l, lucks)
  {
    hide RestOf, AlignedAt, StopsFull, EndsFull, ChainPhys, ChainWalk;
    var phys, n := Translate(mm.frameOf, RestOf(i.vec, c)), c.count - i.count;
    assert |ChainPhys(rq.bios)| == n;
    if n < |phys| {
      StopsEndsFull(rq.bios[|bios|], l, mm.frameOf, i.vec, i.Where(), lucks(|bios|));
      assert i.Rest()[0] == RestOf(i.vec, c)[n..][0] == RestOf(i.vec, c)[n];
    }
  }

  lemma MappingStarts(rq: Request, i: Iter, mm: AddressSpace, l: Limits, lucks: nat -> Luck, capped: bool, exact: bool)
    requires rq.bios == [] && i.Valid() && ValidLimits(l) && DmaAligned(i, l.dmaAlign)
    ensures Mapping(rq, i, mm, l, lucks, i.Where(), mm.refs, multiset{}, capped, exact)
  {
    hide AlignedAt, NPages, Translate;
    assert mm.refs + multiset{} == mm.refs;
    CoveredNothing(rq, i, mm, mm.refs + multiset{});
    hide Covered;
    LeakOkStarts(i.vec, mm.frameOf, Pos(i.vec, i.Where()), Pos(i.vec, i.Where()) + i.count, capped, exact);
  }

  lemma MappingEnds(rq: Request, i: Iter, mm: AddressSpace, l: Limits, lucks: nat -> Luck, c: Cur,
                    base: multiset<nat>, leaked: multiset<nat>, capped: bool, exact: bool)
    requires Wf(i.vec, c) && ValidLimits(l)
    requires Mapping(rq, i, mm, l, lucks, c, base, leaked, capped, exact)
    requires i.count == 0 < c.count
    ensures ChainValid(rq.bios) && ChainPhys(rq.bios) == Translate(mm.frameOf, RestOf(i.vec, c))
    ensures rq.dataLen == Wrap32(c.count) && mm.refs == base + leaked + ChainWalk(rq.bios) && ChainObeys(rq.bios, l)
    ensures var seams := SeamsIn(i.vec, mm.frameOf, Pos(i.vec, c), Pos(i.vec, c) + c.count);
            (capped ==> leaked <= seams) && (exact ==> leaked == seams)
    ensures capped ==> |ChainWalk(rq.bios)| + |leaked| == NPages(i.vec, c.seg, c.off, c.count)
    ensures ChainFull(rq.bios, Translate(mm.frameOf, RestOf(i.vec, c)), l, lucks)
  {
    hide ChainFull, AlignedAt, Covered, NPages, RestOf, Translate, ChainPhys, ChainWalk, SeamsIn;
    CoveredAll(rq, i, mm, c, base + leaked);
    NoPages(i.vec, i.seg, i.iovOffset);
    LeakOkEnds(i.vec, mm.frameOf, Pos(i.vec, c), Pos(i.vec, i.Where()), Pos(i.vec, c) + c.count, leaked, capped, exact);
  }

  /** One round, with the account of everything since the first one. */
  method MapTurn(rq: Request, i: Iter, mm: AddressSpace, l: Limits, lucks: nat -> Luck, k: nat, ghost c: Cur,
                 ghost base: multiset<nat>, ghost leaked: multiset<nat>, ghost capped: bool, ghost exact: bool)
    returns (ret: int, ghost leaked': multiset<nat>)
    requires Wf(i.vec, c) && ValidLimits(l) && Mapping(rq, i, mm, l, lucks, c, base, leaked, capped, exact)
    requires i.Valid() && i.count > 0 && i.kind.IovecIter? && k == |rq.bios|
    requires capped ==> c.count <= MAX_RW_COUNT
    requires exact ==> capped && Generous(l, c.count) && Allows(lucks(k))
    modifies rq, i, mm
    ensures ret == 0 ==>
      && |rq.bios| == k + 1 && i.Valid() && i.count < old(i.count)
      && Mapping(rq, i, mm, l, lucks, c, base, leaked', capped, exact)
    ensures ret != 0 ==>
      && rq.bios == [] && mm.refs == base + leaked'
      && (capped ==> leaked' <= SeamsIn(i.vec, mm.frameOf, Pos(i.vec, c), Pos(i.vec, c) + c.count))
    ensures var fits, luck := k == 0 || lucks(k).mergeOk, lucks(k);
            (Good(luck, fits) ==> ret == 0) && EarlyError(luck, ret) && (ret == 0 || CanFail(luck, fits, ret))
    ensures ret == 0 && Roomy(l, i.vec, old(i.Where())) ==> i.count == 0
  {
    hide RestOf, AlignedAt, Covered, SeamsIn, SeamAt, Generous, Allows, NPages, Good, CanFail, EarlyError, Roomy,
         ChainFull, StopsFull, Translate, Bio.Vecs;
    ghost var x, more, bios := Pos(i.vec, i.Where()), multiset{}, rq.bios;
    ret, more := MapNext(rq, i, mm, l, lucks(k), c, base + leaked);
    assert base + leaked + more == base + (leaked + more);
    leaked' := leaked + more;
    if ret == 0 {
      ChainFullMore(rq, bios, i, mm, l, lucks, c, base + leaked');
    }
    SeamsOfBio(i.vec, mm.frameOf, Pos(i.vec, c), x,
               if ret == 0 then Pos(i.vec, i.Where()) else Pos(i.vec, c) + c.count, leaked, more);
  }

  /**
   What has leaked since flat position p, when the iterator stands at x: at most the seams
   in between, and exactly these when nothing keeps pieces from merging.
   */
  ghost predicate LeakOk(v: seq<Segment>, frameOf: nat -> nat, p: nat, x: nat, end: nat,
                         leaked: multiset<nat>, capped: bool, exact: bool) {
    && p <= x
    && (capped ==> leaked <= SeamsIn(v, frameOf, p, x))
    && (exact ==> leaked == SeamsIn(v, frameOf, p, x) && (p < x < end ==> SeamAt(v, frameOf, x) == multiset{}))
  }

  lemma LeakOkStarts(v: seq<Segment>, frameOf: nat -> nat, p: nat, end: nat, capped: bool, exact: bool)
    ensures LeakOk(v, frameOf, p, p, end, multiset{}, capped, exact)
  {
  }

  lemma LeakOkEnds(v: seq<Segment>, frameOf: nat -> nat, p: nat, x: nat, end: nat,
                         leaked: multiset<nat>, capped: bool, exact: bool)
    requires LeakOk(v, frameOf, p, x, end, leaked, capped, exact)
    ensures capped ==> leaked <= SeamsIn(v, frameOf, p, x)
    ensures exact ==> leaked == SeamsIn(v, frameOf, p, x)
  {
  }

  /** The frames in which segments of the iterator physically meet, seam by seam. */
  ghost function SeamsOf(it: Iter, frameOf: nat -> nat): multiset<nat>
    requires it.Valid()
    reads it
  {
    SeamsIn(it.vec, frameOf, Pos(it.vec, it.Where()), Pos(it.vec, it.Where()) + it.count)
  }

  /** Nothing fails in any round; the first bio finds an empty request. */
  ghost predicate AllGood(lucks: nat -> Luck) {
    forall k :: Good(lucks(k), k == 0 || lucks(k).mergeOk)
  }

  /** Something that some round meets fails with this error. */
  ghost predicate SomeFails(lucks: nat -> Luck, err: int) {
    exists k :: CanFail(lucks(k), k == 0 || lucks(k).mergeOk, err)
  }

  ghost predicate AllAllow(lucks: nat -> Luck) {
    forall k :: Allows(lucks(k))
  }

  /** Every bio of the chain keeps the queue's limits. */
  ghost predicate ChainObeys(bios: seq<Bio>, l: Limits)
    requires ValidLimits(l)
    reads bios, set b | b in bios :: b.table
  {
    forall b :: b in bios ==> b.Valid() && Obeys(b, l)
  }

  /** The next bio's references join those from before it; between the bios lies a seam or none. */
  lemma {:induction false} SeamsOfBio(v: seq<Segment>, frameOf: nat -> nat, p: nat, x: nat, x': nat,
                                      leaked: multiset<nat>, more: multiset<nat>)
    requires p <= x <= x'
    ensures
      && leaked <= SeamsIn(v, frameOf, p, x) && more <= SeamsIn(v, frameOf, x, x')
      ==> leaked + more <= SeamsIn(v, frameOf, p, x')
    ensures
      && leaked == SeamsIn(v, frameOf, p, x) && more == SeamsIn(v, frameOf, x, x')
      && (p < x ==> SeamAt(v, frameOf, x) == multiset{})
      ==> leaked + more == SeamsIn(v, frameOf, p, x')
  {
    hide SeamsIn, SeamAt;
    NoneBetween(v, frameOf, x);
    if p < x < x' {
      SeamsSplit(v, frameOf, p, x, x');
    }
  }

  /**
   When every later segment begins on a page there is no seam, and so no leak.
   */
  lemma {:induction false} SeamsOnPages(it: Iter, frameOf: nat -> nat)
    requires it.Valid()
    requires var p := Pos(it.vec, it.Where());
      forall s :: 0 <= s < |it.vec| && it.vec[s].len > 0 && p < Start(it.vec, s) < p + it.count ==>
        it.vec[s].base % PAGE_SIZE == 0
    ensures SeamsOf(it, frameOf) == multiset{}
  {
    var p := Pos(it.vec, it.Where());
    NoneOnPages(it.vec, frameOf, p, p + it.count);
  }

  /** The iovec {(8192, 512), (8704, 512)} leaks one reference to the frame behind its page. */
  lemma {:induction false} SharedPageLeaks(frameOf: nat -> nat)
    ensures SeamsIn([Segment(8192, 512), Segment(8704, 512)], frameOf, 0, 1024) == multiset{frameOf(2)}
  {
    var v := [Segment(8192, 512), Segment(8704, 512)];
    TwoSegments(v);
    hide Start, SeamAt, SeamsIn, Flat, FlatTo;
    NoneInside(v, frameOf, 0, 0, 512);
    NoneInside(v, frameOf, 1, 512, 1024);
    SeamsSplit(v, frameOf, 0, 512, 1024);
    assert SeamAt(v, frameOf, 512) == multiset{frameOf(2)} by { SharedPageSeam(v, frameOf); }
  }

  lemma TwoSegments(v: seq<Segment>)
    requires |v| == 2 && v[0].len == 512 && v[1].len == 512
    ensures Start(v, 0) == 0 && Start(v, 1) == 512 && Start(v, 2) == 1024
  {
  }

  lemma {:induction false} SharedPageSeam(v: seq<Segment>, frameOf: nat -> nat)
    requires v == [Segment(8192, 512), Segment(8704, 512)]
    ensures SeamAt(v, frameOf, 512) == multiset{frameOf(2)}
  {
    TwoSegments(v);
    FlatSlice(v, 0, 511, 1);
    FlatSlice(v, 1, 0, 1);
    hide Flat, FlatTo;
    assert Flat(v)[511] == Flat(v)[511..512][0] == 8703;
    assert Flat(v)[512] == Flat(v)[512..513][0] == 8704;
    assert v[1].len > 0 && Start(v, 1) == 512;
    assert PhysAt(frameOf, 8703) + 1 == PhysAt(frameOf, 8704);
  }

  /** One round: the next bio joins the chain, or everything mapped so far is released. */
  method MapNext(rq: Request, i: Iter, mm: AddressSpace, l: Limits, luck: Luck, ghost c: Cur, ghost base: multiset<nat>)
    returns (ret: int, ghost leaked: multiset<nat>)
    requires Wf(i.vec, c) && Covered(rq, i, mm, c, base) && i.Valid() && i.count > 0 && i.kind.IovecIter?
    requires ValidLimits(l) && DmaAligned(i, l.dmaAlign) && ChainObeys(rq.bios, l)
    modifies rq, i, mm
    ensures ret == 0 ==>
      && i.Valid() && i.count < old(i.count) && DmaAligned(i, l.dmaAlign)
      && Covered(rq, i, mm, c, base + leaked) && ChainObeys(rq.bios, l)
      && Pos(i.vec, i.Where()) + i.count == Pos(i.vec, c) + c.count
    ensures ret != 0 ==> rq.bios == [] && mm.refs == base + leaked
    ensures var fits := old(rq.bios) == [] || luck.mergeOk;
            (Good(luck, fits) ==> ret == 0) && EarlyError(luck, ret) && (ret == 0 || CanFail(luck, fits, ret))
    ensures ret == 0 ==>
      && |rq.bios| == |old(rq.bios)| + 1 && rq.bios[..|rq.bios| - 1] == old(rq.bios)
      && rq.bios[|rq.bios| - 1].Valid() && fresh(rq.bios[|rq.bios| - 1]) && fresh(rq.bios[|rq.bios| - 1].table)
      && (i.count > 0 ==> StopsFull(rq.bios[|rq.bios| - 1], l, mm.frameOf, i.vec, i.Where(), luck))
    ensures ret == 0 && Roomy(l, i.vec, old(i.Where())) ==> i.count == 0
    ensures ret == 0 && c.count <= MAX_RW_COUNT ==>
      |mm.refs| + PagesLeft(i) == |old(mm.refs)| + old(PagesLeft(i))
    ensures c.count <= MAX_RW_COUNT ==>
      var x := old(Pos(i.vec, i.Where()));
      leaked <= SeamsIn(i.vec, mm.frameOf, x, if ret == 0 then Pos(i.vec, i.Where()) else Pos(i.vec, c) + c.count)
    ensures
      && ret == 0 && c.count <= MAX_RW_COUNT && Generous(l, c.count) && Allows(luck)
      ==>
      && leaked == SeamsIn(i.vec, mm.frameOf, old(Pos(i.vec, i.Where())), Pos(i.vec, i.Where()))
      && (i.count > 0 ==> SeamAt(i.vec, mm.frameOf, Pos(i.vec, i.Where())) == multiset{})
  {
    hide Phys, Walk, TotalLen, TableOk, Decode, Holds, Translate, Gathered, AlignedAt, RestOf, ChainPhys, ChainWalk,
         Wrap32, SeamsIn, SeamAt, Allows, Obeys, Start, Crossed, NPages, Wf, Roomy,
         StopsFull;
    ghost var c1, bios := i.Where(), rq.bios;
    ghost var walk := ChainWalk(bios);
    ret, leaked := MapOneBio(rq, i, mm, l, luck);
    if ret != 0 {
      assert mm.refs == base + leaked + walk;
      UnmapUser(rq.bios, mm, base + leaked);
      rq.bios := [];
    } else {
      assert base + walk + leaked == base + leaked + walk;
      assert rq.bios == bios + [rq.bios[|bios|]];
      TakesAll(rq.bios[|bios|], i, mm, l, luck, c1, base + walk, leaked);
      CoveredMore(rq, i, mm, c, c1, bios, base + leaked);
    }
  }

  lemma {:induction false} CoveredNothing(rq: Request, i: Iter, mm: AddressSpace, base: multiset<nat>)
    requires rq.bios == [] && i.Valid() && mm.refs == base
    ensures Covered(rq, i, mm, i.Where(), base)
  {
    assert Translate(mm.frameOf, i.Rest()[..0]) == [];
    assert i.Rest()[0..] == i.Rest();
  }

  lemma CoveredAll(rq: Request, i: Iter, mm: AddressSpace, c: Cur, base: multiset<nat>)
    requires Wf(i.vec, c) && Covered(rq, i, mm, c, base) && i.count == 0 < c.count
    ensures ChainValid(rq.bios) && ChainPhys(rq.bios) == Translate(mm.frameOf, RestOf(i.vec, c))
    ensures rq.dataLen == Wrap32(c.count) && mm.refs == base + ChainWalk(rq.bios)
  {
    hide RestOf;
    assert RestOf(i.vec, c)[..c.count] == RestOf(i.vec, c);
  }

  lemma {:induction false} CoveredMore(rq: Request, i: Iter, mm: AddressSpace, c: Cur, c1: Cur, bios: seq<Bio>,
                                       base: multiset<nat>)
    requires Wf(i.vec, c) && Wf(i.vec, c1) && c1.count <= c.count && ChainValid(bios)
    requires |rq.bios| == |bios| + 1 && rq.bios[..|bios|] == bios
    requires var n := c.count - c1.count;
             && Pos(i.vec, c1) == Pos(i.vec, c) + n && RestOf(i.vec, c1) == RestOf(i.vec, c)[n..]
             && ChainPhys(bios) == Translate(mm.frameOf, RestOf(i.vec, c)[..n])
             && rq.dataLen == if bios == [] then rq.bios[|bios|].size else Wrap32(Wrap32(n) + rq.bios[|bios|].size)
    requires bios == [] ==> c1.count == c.count
    requires Gathered(rq.bios[|bios|], i, mm, c1, base + ChainWalk(bios))
    ensures Covered(rq, i, mm, c, base)
  {
    hide RestOf, Phys, Translate, Walk, Holds, Positive, TotalLen, TableOk, Decode, Flat, ChainPhys, ChainWalk, Wrap32,
         Start;
    ChainAppend(rq.bios, bios);
    var n, m := c.count - c1.count, rq.bios[|bios|].size;
    SlicesJoin(mm.frameOf, RestOf(i.vec, c), n, m);
    WrapAdd(n, m);
    HoldsAll(mm.refs, base, ChainWalk(bios), rq.bios[|bios|].Vecs());
  }

  lemma SlicesJoin(frameOf: nat -> nat, rest: seq<nat>, n: nat, m: nat)
    requires n + m <= |rest|
    ensures Translate(frameOf, rest[..n]) + Translate(frameOf, rest[n..][..m]) == Translate(frameOf, rest[..n + m])
    ensures rest[n..][m..] == rest[n + m..]
  {
    hide Translate;
    SlicesTwice(frameOf, rest, n, m, []);
    assert [] + Translate(frameOf, rest[..n]) == Translate(frameOf, rest[..n]);
    assert [] + Translate(frameOf, rest[..n + m]) == Translate(frameOf, rest[..n + m]);
  }

  lemma WrapAdd(n: nat, m: nat)
    ensures Wrap32(Wrap32(n) + m) == Wrap32(n + m) && (n == 0 && m <= UINT_MAX ==> Wrap32(m) == m)
  {
  }

  lemma HoldsAll(refs: multiset<nat>, base: multiset<nat>, walk: multiset<nat>, vs: seq<Bvec>)
    requires Holds(refs, base + walk, vs, multiset{})
    ensures refs == base + (walk + multiset(Walk(vs)))
  {
  }

  lemma ChainAppend(bios': seq<Bio>, bios: seq<Bio>)
    requires |bios'| == |bios| + 1 && bios'[..|bios|] == bios && ChainValid(bios) && bios'[|bios|].Valid()
    ensures ChainValid(bios')
    ensures ChainPhys(bios') == ChainPhys(bios) + Phys(bios'[|bios|].Vecs())
    ensures ChainWalk(bios') == ChainWalk(bios) + multiset(Walk(bios'[|bios|].Vecs()))
  {
    assert bios' == bios + [bios'[|bios|]];
  }
}
