/** Page extraction from an iterator over bio_vecs. */
module BvecPages {
  import opened Params
  import opened Memory
  import opened Cursor
  import opened IovIter
  import opened UserPages

  /**
   first_bvec_segment: the physical address of the next byte, and how much of `maxsize`
   follows in its bio_vec. A bio_vec that is used up or empty yields no byte.
   */
  method FirstBvecSegment(it: Iter, maxsize: nat) returns (addr: nat, size: nat)
    requires it.Valid() && it.kind.BvecIter? && 0 < maxsize <= it.count
    ensures it.seg < |it.vec| && addr == it.vec[it.seg].base + it.iovOffset == NextByte(it)
    ensures size == Min(maxsize, it.vec[it.seg].len - it.iovOffset)
    ensures it.Rest()[..size] == Range(addr, size)
  {
    hide RestOf, Flat;
    var b := it.vec[it.seg];
    addr := b.base + it.iovOffset;
    size := Min(maxsize, b.len - it.iovOffset);
    NextChunk(it.vec, it.Where(), it.seg, it.iovOffset, 0, size);
    assert it.Rest()[..0] == [];
  }

  /** Where the iterator stands in physical memory. */
  ghost function NextByte(it: Iter): nat
    requires it.Valid() && it.kind.BvecIter? && it.count > 0
    reads it
  {
    assert it.seg < |it.vec|;
    it.vec[it.seg].base + it.iovOffset
  }

  /** How many bytes of the current bio_vec an extraction may ask for. */
  ghost function StretchSize(it: Iter, maxsize: nat): nat
    requires it.Valid() && it.kind.BvecIter? && it.count > 0
    reads it
  {
    assert it.seg < |it.vec|;
    Min(Min(Min(maxsize, it.count), MAX_RW_COUNT), it.vec[it.seg].len - it.iovOffset)
  }

  /**
   The bvec branch of __iov_iter_get_pages_alloc: references to the physically
   consecutive pages of a stretch of the current bio_vec, exactly those under the r bytes
   that are consumed. An empty bio_vec that does not begin on a page yields no byte, and
   still one reference. The cursor moves by hand, and keeps index plus nr_segs.
   */
  method GetBvecPages(it: Iter, mm: AddressSpace, maxsize: nat, maxpages: nat, allocOk: bool)
    returns (r: int, start: nat, words: array<Word>)
    requires it.Valid() && it.kind.BvecIter?
    modifies it, mm
    ensures it.Valid() && fresh(words) && it.seg + it.nrSegs == old(it.seg + it.nrSegs)
    ensures r < 0 <==>
      && old(it.count) > 0 && maxsize > 0
      && (!allocOk || Wanted(old(NextByte(it)), old(StretchSize(it, maxsize)), maxpages) == 0)
    ensures r < 0 ==> r == ENOMEM && it.Where() == old(it.Where()) && mm.refs == old(mm.refs)
    ensures r >= 0 ==> it.Consumed(r) && r <= maxsize
    ensures r > 0 ==>
      && old(it.seg) < |it.vec|
      && var addr := old(NextByte(it));
      && start == addr % PAGE_SIZE && old(it.Rest())[..r] == Range(addr, r)
      && r == WindowBytes(addr, old(StretchSize(it, maxsize)), maxpages, maxpages)
      && PagePointers(words[..], 0, Range(addr / PAGE_SIZE, PagesFor(start + r)))
      && mm.refs == old(mm.refs) + multiset(Range(addr / PAGE_SIZE, PagesFor(start + r)))
    ensures r == 0 && (old(it.count) == 0 || maxsize == 0) ==> mm.refs == old(mm.refs)
    ensures r == 0 && old(it.count) > 0 && maxsize > 0 ==>
      && old(StretchSize(it, maxsize)) == 0
      && var addr := old(NextByte(it));
      && addr % PAGE_SIZE > 0 && mm.refs == old(mm.refs) + multiset{addr / PAGE_SIZE}
  {
    hide RestOf, Flat, Range, PagesFor, PagePointers, WindowBytes, Wanted, Start;
    start := 0;
    var wanted := Min(Min(maxsize, it.count), MAX_RW_COUNT);
    if wanted == 0 {
      words := new Word[0];
      NothingTaken(it);
      return 0, start, words;
    }
    var addr, size := FirstBvecSegment(it, wanted);
    start := addr % PAGE_SIZE;
    var n := Wanted(addr, size, maxpages);
    words := new Word[n](_ => Ptr(0));
    if n == 0 || !allocOk {
      return ENOMEM, start, words;
    }
    TakePages(mm, words, addr / PAGE_SIZE, n);
    r := Min(size, n * PAGE_SIZE - start);
    BvecWindow(addr, size, maxpages, n, r);
    assert it.Rest()[..r] == Range(addr, size)[..r] == Range(addr, r) by { RangeStart(addr, size, r, it.Rest()); }
    it.StepInSegment(r);
  }

  lemma NothingTaken(it: Iter)
    requires it.Valid()
    ensures it.Rest() == it.Rest()[0..]
  {
  }

  lemma RangeStart(addr: nat, size: nat, r: nat, rest: seq<nat>)
    requires r <= size <= |rest| && rest[..size] == Range(addr, size)
    ensures rest[..r] == Range(addr, size)[..r] == Range(addr, r)
  {
    assert rest[..size][..r] == rest[..r];
  }

  /** The pages taken are those under the bytes, unless there is no byte. */
  lemma BvecWindow(addr: nat, size: nat, maxpages: nat, n: nat, r: int)
    requires 0 < n == Wanted(addr, size, maxpages) && r == Min(size, n * PAGE_SIZE - addr % PAGE_SIZE)
    ensures 0 <= r <= size
    ensures r > 0 ==> PagesFor(addr % PAGE_SIZE + r) == n && r == WindowBytes(addr, size, maxpages, maxpages)
    ensures r == 0 ==>
      size == 0 && addr % PAGE_SIZE > 0 && multiset(Range(addr / PAGE_SIZE, n)) == multiset{addr / PAGE_SIZE}
  {
    if size > 0 {
      WindowPages(addr, size, maxpages, maxpages, n, r);
    } else {
      assert n == 1 && Range(addr / PAGE_SIZE, n) == [addr / PAGE_SIZE];
    }
  }

  /** get_page on n consecutive pages. */
  method TakePages(mm: AddressSpace, words: array<Word>, page: nat, n: nat)
    requires n <= words.Length
    modifies mm, words
    ensures PagePointers(words[..], 0, Range(page, n)) && mm.refs == old(mm.refs) + multiset(Range(page, n))
  {
    var k := 0;
    while k < n
      invariant 0 <= k <= n
      invariant PagePointers(words[..], 0, Range(page, k)) && mm.refs == old(mm.refs) + multiset(Range(page, k))
    {
      words[k] := Ptr(page + k);
      mm.GetPage(page + k);
      assert Range(page, k + 1) == Range(page, k) + [page + k];
      k := k + 1;
    }
  }
}
