/** Pinning the user pages behind an iterator, one window at a time. */
module UserPages {
  import opened Params
  import opened Memory
  import opened Cursor
  import opened IovIter

  /** A machine word of a bio_vec table: a page pointer, or a length with an offset. */
  datatype Word = Ptr(page: nat) | LenOff(len: nat, off: nat)

  /** A user address space: its page table, and the references held on page frames. */
  class AddressSpace {
    const frameOf: nat -> nat
    var refs: multiset<nat>

    constructor (frameOf: nat -> nat)
      ensures this.frameOf == frameOf && refs == multiset{}
    {
      this.frameOf := frameOf;
      refs := multiset{};
    }

    method PutPage(page: nat)
      requires page in refs
      modifies this
      ensures refs == old(refs) - multiset{page}
    {
      refs := refs - multiset{page};
    }

    method GetPage(page: nat)
      modifies this
      ensures refs == old(refs) + multiset{page}
    {
      refs := refs + multiset{page};
    }

    /**
     get_user_pages_fast for n pages from virtual page `first`: `gup` says how many
     of them can be pinned, or gives an error.
     */
    method GetUserPages(first: nat, n: nat, words: array<Word>, at: nat, gup: int) returns (res: int)
      requires 0 < n && at + n <= words.Length
      modifies this, words
      ensures res == Min(gup, n)
      ensures res <= 0 ==> refs == old(refs) && words[..] == old(words[..])
      ensures res > 0 ==>
        && refs == old(refs) + multiset(Frames(frameOf, first, res))
        && PagePointers(words[..], at, Frames(frameOf, first, res))
      ensures forall w :: 0 <= w < words.Length && !(at <= w < at + Min(gup, n)) ==> words[w] == old(words[w])
    {
      hide Frames, PagePointers;
      res := Min(gup, n);
      if res <= 0 {
        return;
      }
      var k := 0;
      NoPointers(words[..], at, frameOf, first);
      while k < res
        invariant 0 <= k <= res
        invariant refs == old(refs) + multiset(Frames(frameOf, first, k))
        invariant PagePointers(words[..], at, Frames(frameOf, first, k))
        invariant forall w :: 0 <= w < words.Length && !(at <= w < at + k) ==> words[w] == old(words[w])
      {
        MorePointers(words[..], at, frameOf, first, k);
        words[at + k] := Ptr(frameOf(first + k));
        refs := refs + multiset{frameOf(first + k)};
        k := k + 1;
      }
    }
  }

  /** The frames behind n consecutive virtual pages. */
  ghost function Frames(frameOf: nat -> nat, first: nat, n: nat): (r: seq<nat>)
    ensures |r| == n && forall k :: 0 <= k < n ==> r[k] == frameOf(first + k)
  {
    seq(n, k requires k >= 0 => frameOf(first + k))
  }

  ghost predicate PagePointers(words: seq<Word>, at: nat, pages: seq<nat>) {
    at + |pages| <= |words| && forall k :: 0 <= k < |pages| ==> words[at + k] == Ptr(pages[k])
  }

  lemma NoPointers(words: seq<Word>, at: nat, frameOf: nat -> nat, first: nat)
    requires at <= |words|
    ensures PagePointers(words, at, Frames(frameOf, first, 0)) && multiset(Frames(frameOf, first, 0)) == multiset{}
  {
  }

  lemma MorePointers(words: seq<Word>, at: nat, frameOf: nat -> nat, first: nat, k: nat)
    requires PagePointers(words, at, Frames(frameOf, first, k)) && at + k < |words|
    ensures PagePointers(words[at + k := Ptr(frameOf(first + k))], at, Frames(frameOf, first, k + 1))
    ensures multiset(Frames(frameOf, first, k + 1))
         == multiset(Frames(frameOf, first, k)) + multiset{frameOf(first + k)}
  {
    assert Frames(frameOf, first, k + 1) == Frames(frameOf, first, k) + [frameOf(first + k)];
  }

  /** The physical addresses behind user addresses. */
  ghost function Translate(frameOf: nat -> nat, addrs: seq<nat>): (r: seq<nat>)
    ensures |r| == |addrs|
    ensures forall k :: 0 <= k < |r| ==> r[k] == frameOf(addrs[k] / PAGE_SIZE) * PAGE_SIZE + addrs[k] % PAGE_SIZE
  {
    seq(|addrs|, k requires 0 <= k < |addrs| => frameOf(addrs[k] / PAGE_SIZE) * PAGE_SIZE + addrs[k] % PAGE_SIZE)
  }

  /** Length of the first non-empty stretch of one segment that the cursor delivers. */
  ghost function Chunk(v: seq<Segment>, s: nat, off: nat, size: nat): (len: nat)
    requires Wf(v, Cur(s, 0, off, size)) && size > 0
    ensures 0 < len <= size
    decreases |v| - s
  {
    if v[s].len == off then Chunk(v, s + 1, 0, size) else Min(v[s].len - off, size)
  }

  /** iov_npages without its cap: pages touched, counted segment by segment. */
  ghost function NPages(v: seq<Segment>, s: nat, off: nat, size: nat): nat
    requires Wf(v, Cur(s, 0, off, size))
    decreases |v| - s
  {
    if size == 0 then 0
    else if v[s].len == off then NPages(v, s + 1, 0, size)
    else
      var len := Min(v[s].len - off, size);
      StartMono(v, s + 1, |v|);
      PagesFor((v[s].base + off) % PAGE_SIZE + len) + NPages(v, s + 1, 0, size - len)
  }

  /**
   Whether the last page of a window of r bytes at address a is taken once more by the next
   one: it is when the window ends inside a page and before the contiguous bytes do.
   */
  ghost function Again(a: nat, r: nat, chunk: nat): nat {
    if r < chunk && (a + r) % PAGE_SIZE != 0 then 1 else 0
  }

  /** Splitting a window splits its page count, up to a page that both parts touch. */
  lemma {:induction false} PagesSplit(a: nat, r: nat, len: nat)
    requires 0 < r < len
    ensures PagesFor(a % PAGE_SIZE + r) + PagesFor((a + r) % PAGE_SIZE + (len - r))
         == PagesFor(a % PAGE_SIZE + len) + Again(a, r, len)
  {
  }

  lemma {:induction false} NPagesSkip(v: seq<Segment>, s: nat, size: nat)
    requires Wf(v, Cur(s, 0, 0, size))
    ensures var (s', off') := Seek(v, s, 0);
            Wf(v, Cur(s', 0, off', size)) && NPages(v, s', off', size) == NPages(v, s, 0, size)
    decreases |v| - s
  {
    if s < |v| && v[s].len == 0 {
      NPagesSkip(v, s + 1, size);
    }
  }

  /** The page count looks at the flat position only. */
  lemma {:induction false} NPagesSeek(v: seq<Segment>, s: nat, off: nat, size: nat)
    requires Wf(v, Cur(s, 0, off, size))
    ensures var (s', off') := Seek(v, s, off);
            && Canonical(v, s', off') && Start(v, s') + off' == Start(v, s) + off
            && Wf(v, Cur(s', 0, off', size)) && NPages(v, s', off', size) == NPages(v, s, off, size)
  {
    SeekPosition(v, s, off);
    if s < |v| && v[s].len == off {
      NPagesSkip(v, s + 1, size);
    }
  }

  lemma {:induction false} NPagesByPosition(v: seq<Segment>, c: Cur, d: Cur)
    requires Wf(v, c) && Wf(v, d) && Pos(v, c) == Pos(v, d) && c.count == d.count
    ensures NPages(v, c.seg, c.off, c.count) == NPages(v, d.seg, d.off, d.count)
  {
    hide NPages, Seek;
    NPagesSeek(v, c.seg, c.off, c.count);
    NPagesSeek(v, d.seg, d.off, d.count);
    var ((s, x), (t, y)) := (Seek(v, c.seg, c.off), Seek(v, d.seg, d.off));
    CanonicalUnique(v, s, x, t, y);
  }

  /** NPagesAdvance for a window that starts in the current segment. */
  lemma {:induction false} NPagesWithin(v: seq<Segment>, s: nat, off: nat, size: nat, r: nat)
    requires Wf(v, Cur(s, 0, off, size)) && s < |v| && off < v[s].len && 0 < r <= Min(v[s].len - off, size)
    ensures var a, len, (s', off') := v[s].base + off, Min(v[s].len - off, size), Seek(v, s, off + r);
            && Wf(v, Cur(s', 0, off', size - r))
            && PagesFor(a % PAGE_SIZE + r) + NPages(v, s', off', size - r) == NPages(v, s, off, size) + Again(a, r, len)
  {
    hide PagesFor, NPages;
    SeekPosition(v, s, off + r);
    NPagesHere(v, s, off, size);
    if r == v[s].len - off {
      NPagesSkip(v, s + 1, size - r);
    } else if r < size {
      NPagesInside(v, s, off, size, r);
    } else {
      NoPages(v, s + 1, 0);
      NoPages(v, s, off + r);
    }
  }

  lemma NoPages(v: seq<Segment>, s: nat, off: nat)
    requires Wf(v, Cur(s, 0, off, 0))
    ensures NPages(v, s, off, 0) == 0
  {
  }

  lemma NPagesHere(v: seq<Segment>, s: nat, off: nat, size: nat)
    requires Wf(v, Cur(s, 0, off, size)) && size > 0 && s < |v| && off < v[s].len
    ensures var len := Min(v[s].len - off, size);
            && Wf(v, Cur(s + 1, 0, 0, size - len))
            && NPages(v, s, off, size)
               == PagesFor((v[s].base + off) % PAGE_SIZE + len) + NPages(v, s + 1, 0, size - len)
  {
    StartMono(v, s + 1, |v|);
  }

  lemma {:induction false} NPagesInside(v: seq<Segment>, s: nat, off: nat, size: nat, r: nat)
    requires Wf(v, Cur(s, 0, off, size)) && s < |v| && 0 < r < v[s].len - off && r < size
    ensures var a, len := v[s].base + off, Min(v[s].len - off, size);
            PagesFor(a % PAGE_SIZE + r) + NPages(v, s, off + r, size - r) == NPages(v, s, off, size) + Again(a, r, len)
  {
    hide PagesFor, Again;
    var len := Min(v[s].len - off, size);
    StartMono(v, s + 1, |v|);
    assert Min(v[s].len - (off + r), size - r) == len - r && v[s].base + (off + r) == v[s].base + off + r;
    PagesSplit(v[s].base + off, r, len);
  }

  /**
   A window of r contiguous bytes takes its pages off the page count of the iterator, and
   a page that it ends inside of is counted again.
   */
  lemma {:induction false} NPagesAdvance(v: seq<Segment>, s: nat, off: nat, size: nat, r: nat)
    requires Wf(v, Cur(s, 0, off, size)) && 0 < size && 0 < r <= Chunk(v, s, off, size)
    ensures var a, (s', off') := RestOf(v, Cur(s, 0, off, size))[0], Seek(v, s, off + r);
            && Wf(v, Cur(s', 0, off', size - r))
            && PagesFor(a % PAGE_SIZE + r) + NPages(v, s', off', size - r)
               == NPages(v, s, off, size) + Again(a, r, Chunk(v, s, off, size))
    decreases |v| - s
  {
    hide RestOf, NPages, Chunk, Seek, PagesFor, Start, Again;
    SeekPosition(v, s, off + r);
    FirstByte(v, s, off, size);
    if v[s].len == off {
      NextSegment(v, s, off, size, r);
      NPagesAdvance(v, s + 1, 0, size, r);
    } else {
      ThisSegment(v, s, off, size);
      NPagesWithin(v, s, off, size, r);
    }
  }

  /** A segment that is used up contributes nothing to what lies ahead. */
  lemma NextSegment(v: seq<Segment>, s: nat, off: nat, size: nat, r: nat)
    requires Wf(v, Cur(s, 0, off, size)) && size > 0 && s < |v| && v[s].len == off
    ensures Wf(v, Cur(s + 1, 0, 0, size)) && Chunk(v, s, off, size) == Chunk(v, s + 1, 0, size)
    ensures NPages(v, s, off, size) == NPages(v, s + 1, 0, size) && Seek(v, s, off + r) == Seek(v, s + 1, r)
  {
  }

  lemma ThisSegment(v: seq<Segment>, s: nat, off: nat, size: nat)
    requires Wf(v, Cur(s, 0, off, size)) && size > 0 && s < |v| && v[s].len != off
    ensures Chunk(v, s, off, size) == Min(v[s].len - off, size)
  {
  }

  lemma SameRest(v: seq<Segment>, c: Cur, d: Cur)
    requires Wf(v, c) && d == c.(nrSegs := d.nrSegs)
    ensures Wf(v, d) && RestOf(v, d) == RestOf(v, c)
  {
  }

  /** The next address is in the current segment, unless that segment is used up. */
  lemma {:induction false} FirstByte(v: seq<Segment>, s: nat, off: nat, size: nat)
    requires Wf(v, Cur(s, 0, off, size)) && 0 < size
    ensures s < |v|
    ensures if v[s].len == off then
              Wf(v, Cur(s + 1, 0, 0, size)) && RestOf(v, Cur(s + 1, 0, 0, size)) == RestOf(v, Cur(s, 0, off, size))
            else RestOf(v, Cur(s, 0, off, size))[0] == v[s].base + off
  {
    if off < v[s].len {
      NextChunk(v, Cur(s, 0, off, size), s, off, 0, 1);
      assert RestOf(v, Cur(s, 0, off, size))[..1][0] == v[s].base + off;
    }
  }

  /** The same account for any cursor that stands r bytes further on, however it got there. */
  lemma {:induction false} NPagesAfter(v: seq<Segment>, c: Cur, c': Cur, r: nat)
    requires Wf(v, c) && Wf(v, c') && 0 < r <= c.count && r <= Chunk(v, c.seg, c.off, c.count)
    requires c'.count == c.count - r && Pos(v, c') == Pos(v, c) + r
    ensures var a := RestOf(v, c)[0];
            PagesFor(a % PAGE_SIZE + r) + NPages(v, c'.seg, c'.off, c'.count)
            == NPages(v, c.seg, c.off, c.count) + Again(a, r, Chunk(v, c.seg, c.off, c.count))
  {
    hide RestOf, NPages, Chunk, PagesFor, Again, Seek;
    SameRest(v, c, Cur(c.seg, 0, c.off, c.count));
    NPagesAdvance(v, c.seg, c.off, c.count, r);
    SeekPosition(v, c.seg, c.off + r);
    var (s, off) := Seek(v, c.seg, c.off + r);
    NPagesByPosition(v, c', Cur(s, 0, off, c'.count));
  }

  /** Page count still to be extracted from an iterator. */
  ghost function PagesLeft(it: Iter): nat
    requires it.Valid()
    reads it
  {
    NPages(it.vec, it.seg, it.iovOffset, it.count)
  }

  /** Again, for the next r bytes of an iterator. */
  ghost function TakenAgain(it: Iter, r: nat): nat
    requires it.Valid() && it.count > 0
    reads it
  {
    Again(it.Rest()[0], r, Chunk(it.vec, it.seg, it.iovOffset, it.count))
  }

  /** first_iovec_segment: where the next byte lives and how much of `maxsize` is in its segment. */
  method FirstSegment(it: Iter, maxsize: nat) returns (addr: nat, size: nat)
    requires it.Valid() && it.UserBacked() && 0 < maxsize <= it.count
    ensures addr == it.Rest()[0]
    ensures size == Min(maxsize, Chunk(it.vec, it.seg, it.iovOffset, it.count))
    ensures it.Rest()[..size] == Range(addr, size)
  {
    hide Flat, FlatTo;
    var k: nat, skip: nat := it.seg, it.iovOffset;
    ghost var c := it.count;
    while true
      invariant Wf(it.vec, Cur(k, 0, skip, c)) && RestOf(it.vec, Cur(k, 0, skip, c)) == it.Rest()
      invariant Chunk(it.vec, k, skip, c) == Chunk(it.vec, it.seg, it.iovOffset, c)
      decreases |it.vec| - k
    {
      FirstByte(it.vec, k, skip, c);
      var len := it.vec[k].len - skip;
      if len != 0 {
        addr := it.vec[k].base + skip;
        size := Min(maxsize, len);
        NextChunk(it.vec, Cur(k, 0, skip, c), k, skip, 0, size);
        return;
      }
      k := k + 1;
      skip := 0;
    }
  }

  /** iov_npages: the page count, capped. */
  method CountPages(it: Iter, maxpages: nat) returns (npages: nat)
    requires it.Valid() && it.UserBacked()
    ensures npages == Min(PagesLeft(it), maxpages)
  {
    hide RestOf, Flat;
    npages := 0;
    var p: nat, skip: nat, size: nat := it.seg, it.iovOffset, it.count;
    while size != 0
      invariant Wf(it.vec, Cur(p, 0, skip, size))
      invariant npages <= maxpages && npages + NPages(it.vec, p, skip, size) == PagesLeft(it)
      decreases |it.vec| - p
    {
      FirstByte(it.vec, p, skip, size);
      var len: nat := Min(it.vec[p].len - skip, size);
      StartMono(it.vec, p + 1, |it.vec|);
      if len != 0 {
        npages := npages + PagesFor((it.vec[p].base + skip) % PAGE_SIZE + len);
        size := size - len;
        if npages > maxpages {
          return maxpages;
        }
      }
      p := p + 1;
      skip := 0;
    }
  }

  /** The segment the first chunk lies in. */
  lemma {:induction false} ChunkSegment(v: seq<Segment>, s: nat, off: nat, size: nat) returns (k: nat)
    requires Wf(v, Cur(s, 0, off, size)) && 0 < size
    ensures k < |v| && Start(v, k) <= Start(v, s) + off < Start(v, k) + v[k].len
    ensures RestOf(v, Cur(s, 0, off, size))[0] == v[k].base + (Start(v, s) + off - Start(v, k))
    ensures Chunk(v, s, off, size) == Min(Start(v, k) + v[k].len - (Start(v, s) + off), size)
    decreases |v| - s
  {
    hide RestOf;
    FirstByte(v, s, off, size);
    if v[s].len == off {
      k := ChunkSegment(v, s + 1, 0, size);
    } else {
      k := s;
    }
  }

  /**
   What one successful page extraction leaves behind: r > 0 bytes of one contiguous
   user buffer are consumed, and exactly the pages under these bytes are pinned, in
   order, with their pointers at words[at..].
   */
  twostate predicate Extracted(it: Iter, mm: AddressSpace, new words: array<Word>, at: nat, r: nat, start: nat)
    requires old(it.Valid()) && 0 < r <= old(it.count)
    reads it, mm, words
  {
    var addr := old(it.Rest())[0];
    var pages := Frames(mm.frameOf, addr / PAGE_SIZE, PagesFor(start + r));
    && it.Consumed(r)
    && start == addr % PAGE_SIZE
    && old(it.Rest())[..r] == Range(addr, r)
    && PagePointers(words[..], at, pages)
    && mm.refs == old(mm.refs) + multiset(pages)
  }

  /** The part of __iov_iter_get_pages_alloc after the page array is there. */
  method PinWindow(it: Iter, mm: AddressSpace, words: array<Word>, at: nat, addr: nat, size: nat, maxpages: nat,
                   gup: int)
    returns (r: int)
    requires it.Valid() && it.UserBacked() && 0 < it.count
    requires 0 < size <= Chunk(it.vec, it.seg, it.iovOffset, it.count)
    requires addr == it.Rest()[0] && it.Rest()[..size] == Range(addr, size)
    requires 0 < maxpages && at + Wanted(addr, size, maxpages) <= words.Length
    modifies it, mm, words
    ensures it.Valid()
    ensures gup <= 0 ==>
      r == gup && it.Where() == old(it.Where()) && mm.refs == old(mm.refs) && words[..] == old(words[..])
    ensures gup > 0 ==> 0 < r == WindowBytes(addr, size, maxpages, gup) && PagesFor(addr % PAGE_SIZE + r) <= maxpages
    ensures r <= size
    ensures gup > 0 ==> Extracted(it, mm, words, at, r, addr % PAGE_SIZE)
    ensures gup > 0 ==> PagesFor(addr % PAGE_SIZE + r) + PagesLeft(it) == old(PagesLeft(it)) + old(TakenAgain(it, r))
    ensures gup > 0 && size == old(Chunk(it.vec, it.seg, it.iovOffset, it.count)) ==> old(TakenAgain(it, r)) == 0
    ensures var n := Wanted(addr, size, maxpages);
            forall w :: 0 <= w < words.Length && !(at <= w < at + n) ==> words[w] == old(words[w])
  {
    hide RestOf, NPages, Chunk, Seek, PagesFor, Wanted, WindowBytes, Flat, Canonical, Range;
    var n := Wanted(addr, size, maxpages);
    var res := mm.GetUserPages(addr / PAGE_SIZE, n, words, at, gup);
    if res <= 0 {
      return res;
    }
    r := Min(size, res * PAGE_SIZE - addr % PAGE_SIZE);
    WindowPages(addr, size, maxpages, gup, res, r);
    ghost var c := it.Where();
    it.Advance(r);
    NPagesAfter(it.vec, c, it.Where(), r);
    assert old(it.Rest())[..r] == Range(addr, size)[..r] == Range(addr, r);
  }

  /** How many pages one extraction asks for. */
  function Wanted(addr: nat, size: nat, maxpages: nat): (n: nat)
    ensures n <= maxpages && (size > 0 && maxpages > 0 ==> n > 0)
  {
    Min(PagesFor(addr % PAGE_SIZE + size), maxpages)
  }

  /** The number of bytes one extraction yields, from its first address and the caller's limits. */
  ghost function WindowBytes(addr: nat, size: nat, maxpages: nat, gup: int): int {
    Min(size, Min(gup, Wanted(addr, size, maxpages)) * PAGE_SIZE - addr % PAGE_SIZE)
  }

  /** The pages that were pinned are those under the bytes that come out. */
  lemma WindowPages(addr: nat, size: nat, maxpages: nat, gup: int, res: nat, r: int)
    requires 0 < size && 0 < res == Min(gup, Wanted(addr, size, maxpages))
    requires r == Min(size, res * PAGE_SIZE - addr % PAGE_SIZE)
    ensures 0 < r == WindowBytes(addr, size, maxpages, gup) <= size && PagesFor(addr % PAGE_SIZE + r) == res <= maxpages
    ensures r < size ==> (addr % PAGE_SIZE + r) % PAGE_SIZE == 0
  {
  }

  /**
   An extraction yields as much as it may: all that was asked for, unless one byte more would
   need more pages than the caller allows, or than could be pinned.
   */
  lemma {:induction false} WindowLargest(addr: nat, size: nat, maxpages: nat, gup: int)
    requires 0 < size && 0 < maxpages && 0 < gup
    ensures var r, pages := WindowBytes(addr, size, maxpages, gup), Min(gup, maxpages);
            && 0 < r <= size && PagesFor(addr % PAGE_SIZE + r) <= pages
            && (r < size ==> PagesFor(addr % PAGE_SIZE + r + 1) > pages)
  {
  }

  /** How many bytes of one segment an extraction may ask for. */
  ghost function WindowSize(it: Iter, maxsize: nat): (size: nat)
    requires it.Valid() && 0 < it.count && 0 < maxsize
    reads it
    ensures 0 < size <= maxsize && size <= Chunk(it.vec, it.seg, it.iovOffset, it.count)
  {
    Min(Min(maxsize, MAX_RW_COUNT), Chunk(it.vec, it.seg, it.iovOffset, it.count))
  }

  /** iov_iter_get_pages on a user-backed iterator, into a page array the caller provides. */
  method GetPages(it: Iter, mm: AddressSpace, words: array<Word>, at: nat, maxsize: nat, maxpages: nat, gup: int)
    returns (r: int, start: nat)
    requires it.Valid() && it.UserBacked() && at + maxpages <= words.Length
    modifies it, mm, words
    ensures it.Valid() && r <= old(it.count) && r <= MAX_RW_COUNT
    ensures old(it.count) == 0 || maxsize == 0 || maxpages == 0 ==> r == 0
    ensures old(it.count) > 0 && maxsize > 0 && maxpages > 0 ==>
      if gup <= 0 then r == gup
      else 0 < r == WindowBytes(old(it.Rest())[0], old(WindowSize(it, maxsize)), maxpages, gup)
    ensures r <= 0 ==> it.Where() == old(it.Where()) && mm.refs == old(mm.refs)
    ensures r > 0 ==> Extracted(it, mm, words, at, r, start) && PagesFor(start + r) <= maxpages && r <= maxsize
    ensures r > 0 ==> PagesFor(start + r) + PagesLeft(it) == old(PagesLeft(it)) + old(TakenAgain(it, r))
    ensures r > 0 && old(it.count) <= Min(maxsize, MAX_RW_COUNT) ==> old(TakenAgain(it, r)) == 0
    ensures forall w :: 0 <= w < words.Length && !(at <= w < at + maxpages) ==> words[w] == old(words[w])
  {
    hide RestOf, NPages, Chunk, Start, Frames, Range, PagePointers, PagesFor, WindowBytes, Wanted, Flat;
    start := 0;
    if maxpages == 0 || it.count == 0 || maxsize == 0 {
      return 0, start;
    }
    var addr, size := FirstSegment(it, Min(Min(maxsize, it.count), MAX_RW_COUNT));
    start := addr % PAGE_SIZE;
    r := PinWindow(it, mm, words, at, addr, size, maxpages, gup);
  }

  /** iov_iter_get_pages_alloc on a user-backed iterator, into a page array of its own. */
  method GetPagesAlloc(it: Iter, mm: AddressSpace, maxsize: nat, gup: int, allocOk: bool)
    returns (r: int, start: nat, words: array<Word>)
    requires it.Valid() && it.UserBacked()
    modifies it, mm
    ensures it.Valid() && r <= old(it.count) && r <= MAX_RW_COUNT && fresh(words)
    ensures old(it.count) == 0 || maxsize == 0 ==> r == 0
    ensures old(it.count) > 0 && maxsize > 0 ==>
      if !allocOk then r == ENOMEM else if gup <= 0 then r == gup
      else 0 < r == WindowBytes(old(it.Rest())[0], old(WindowSize(it, maxsize)), UINT_MAX, gup) <= maxsize
    ensures r <= 0 ==> it.Where() == old(it.Where()) && mm.refs == old(mm.refs)
    ensures r > 0 ==> Extracted(it, mm, words, 0, r, start)
    ensures r > 0 ==> PagesFor(start + r) + PagesLeft(it) == old(PagesLeft(it)) + old(TakenAgain(it, r))
    ensures r > 0 && old(it.count) <= Min(maxsize, MAX_RW_COUNT) ==> old(TakenAgain(it, r)) == 0
  {
    hide RestOf, NPages, Chunk, Start, Frames, Range, PagePointers, PagesFor, WindowBytes, Wanted, Flat;
    start := 0;
    if it.count == 0 || maxsize == 0 {
      words := new Word[0];
      return 0, start, words;
    }
    var addr, size := FirstSegment(it, Min(Min(maxsize, it.count), MAX_RW_COUNT));
    start := addr % PAGE_SIZE;
    words := new Word[Wanted(addr, size, UINT_MAX)](_ => Ptr(0));
    if !allocOk {
      return ENOMEM, start, words;
    }
    r := PinWindow(it, mm, words, 0, addr, size, UINT_MAX, gup);
  }

  /**
   Draining an iterator: windows until one fails or nothing is left. However the pins fall
   short, the pages that come out are in total those that iov_npages counts, once each but
   for the windows that the caller's size or MAX_RW_COUNT ends inside a page.
   */
  method DrainPages(it: Iter, mm: AddressSpace, maxsize: nat, gups: nat -> int, allocOks: nat -> bool)
    returns (ok: bool, total: nat, ghost again: nat)
    requires it.Valid() && it.UserBacked() && maxsize > 0
    modifies it, mm
    ensures it.Valid() && (ok <==> it.count == 0)
    ensures (forall k :: gups(k) > 0 && allocOks(k)) ==> ok
    ensures total + PagesLeft(it) == old(PagesLeft(it)) + again && (ok ==> PagesLeft(it) == 0)
    ensures |mm.refs| == |old(mm.refs)| + total
    ensures old(it.count) <= Min(maxsize, MAX_RW_COUNT) ==> again == 0
  {
    hide RestOf, NPages, Chunk, Start, Range, PagesFor, WindowBytes, Wanted, Flat, TakenAgain, PagePointers;
    ok, total, again := true, 0, 0;
    var k: nat := 0;
    while it.count > 0
      invariant it.Valid() && it.count <= old(it.count)
      invariant total + PagesLeft(it) == old(PagesLeft(it)) + again && |mm.refs| == |old(mm.refs)| + total
      invariant old(it.count) <= Min(maxsize, MAX_RW_COUNT) ==> again == 0
      decreases it.count
    {
      label Round:
      var r, start, words := GetPagesAlloc(it, mm, maxsize, gups(k), allocOks(k));
      if r <= 0 {
        ok := false;
        return;
      }
      total := total + PagesFor(start + r);
      again := again + old@Round(TakenAgain(it, r));
      k := k + 1;
    }
    NoPages(it.vec, it.seg, it.iovOffset);
  }
}
