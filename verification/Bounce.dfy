/** Bounce mapping: the request gets kernel pages, and user data is copied in and out of them. */
module Bounce {
  import opened Params
  import opened Memory
  import opened Cursor
  import opened IovIter
  import opened UserPages
  import opened Bvecs
  import opened Bios
  import opened Alignment
  import opened DirectMap
  import opened Ferry

  const UIO_MAXIOV: nat := 1024

  /**
   The pages are fresh frames, each listed once, and the addresses are bytes of these
   frames, none listed twice. `before` and `after` are the frames in use around it.
   */
  ghost predicate Owns(pages: seq<nat>, addrs: seq<nat>, before: set<nat>, after: set<nat>, cap: nat) {
    && Distinct(pages) && Distinct(addrs)
    && (forall k :: 0 <= k < |pages| ==> pages[k] !in before && (pages[k] + 1) * PAGE_SIZE <= cap)
    && after == before + (set p | p in pages)
    && (forall k :: 0 <= k < |addrs| ==> addrs[k] / PAGE_SIZE in pages)
  }

  lemma {:induction false} OwnsBoth(p: seq<nat>, a: seq<nat>, q: seq<nat>, b: seq<nat>,
                                    s0: set<nat>, s1: set<nat>, s2: set<nat>, cap: nat)
    requires Owns(p, a, s0, s1, cap) && Owns(q, b, s1, s2, cap)
    ensures Owns(p + q, a + b, s0, s2, cap)
  {
    var pages, addrs := p + q, a + b;
    forall i, j | 0 <= i < j < |pages| ensures pages[i] != pages[j] {
      if i < |p| <= j {
        assert pages[i] in s1 && pages[j] == q[j - |p|];
      }
    }
    forall k | 0 <= k < |addrs| ensures addrs[k] / PAGE_SIZE in pages {
      assert addrs[k] == if k < |a| then a[k] else b[k - |a|];
    }
    forall i, j | 0 <= i < j < |addrs| ensures addrs[i] != addrs[j] {
      if i < |a| <= j {
        assert a[i] / PAGE_SIZE in s1 && addrs[j] == b[j - |a|] && b[j - |a|] / PAGE_SIZE in q;
      }
    }
  }

  lemma {:induction false} OwnsOne(p: Piece, s: set<nat>, cap: nat)
    requires InPage(p) && p.page !in s && (p.page + 1) * PAGE_SIZE <= cap
    ensures Owns([p.page], PieceBytes(p), s, s + {p.page}, cap)
  {
    forall k | 0 <= k < p.len ensures PieceBytes(p)[k] / PAGE_SIZE in [p.page] {
      assert PieceBytes(p)[k] / PAGE_SIZE == p.page;
    }
  }

  lemma OwnsNothing(s: set<nat>, cap: nat)
    ensures Owns([], [], s, s, cap)
  {
  }

  lemma OwnedMapped<T>(m: seq<T>, pages: seq<nat>, addrs: seq<nat>, before: set<nat>, after: set<nat>)
    requires Owns(pages, addrs, before, after, |m|)
    ensures Mapped(m, addrs)
  {
    forall k | 0 <= k < |addrs| ensures addrs[k] < |m| {
      var i :| 0 <= i < |pages| && pages[i] == addrs[k] / PAGE_SIZE;
    }
  }

  /** bio_free_pages: each page of the walk goes back to the allocator. */
  method FreePages(bio: Bio, phys: PhysMem)
    requires bio.Valid() && Distinct(Walk(bio.Vecs())) && forall p :: p in Walk(bio.Vecs()) ==> p in phys.inUse
    modifies phys
    ensures phys.inUse == old(phys.inUse) - (set p | p in Walk(bio.Vecs()))
  {
    hide Walk, Phys, Segments, BytesOf, TotalLen, TableOk, Decode, Positive;
    ghost var walk := Walk(bio.Vecs());
    var ps := bio.PageSegments();
    SegmentsCover(bio.Vecs());
    var k := 0;
    while k < |ps|
      invariant k <= |ps|
      invariant phys.inUse == old(phys.inUse) - (set p | p in walk[..k])
    {
      assert walk[k] == ps[k].page && walk[k] !in walk[..k];
      phys.FreePage(ps[k].page);
      assert walk[..k + 1] == walk[..k] + [walk[k]];
      k := k + 1;
    }
    assert walk[..k] == walk;
  }

  /** The first n pages that the allocator comes up with are free, and no two are the same. */
  ghost predicate Plenty(picks: nat -> nat, used: set<nat>, cap: nat, n: nat) {
    forall i :: 0 <= i < n ==>
      && picks(i) !in used && (picks(i) + 1) * PAGE_SIZE <= cap
      && forall j :: 0 <= j < i ==> picks(j) != picks(i)
  }

  /** The bytes of a bounced bio: whole pages, or all that is wanted. */
  ghost predicate WholePages(size: nat, want: nat) {
    Min(want, PAGE_SIZE) <= size <= want && (size == want || size % PAGE_SIZE == 0)
  }

  /** One bio may hold `want` bytes in pages of its own. */
  ghost predicate RoomyPages(l: Limits, want: nat)
    requires ValidLimits(l)
  {
    && want <= UINT_MAX && want / 512 <= l.maxSectors && PagesFor(want) <= Min(l.queue.maxSegments, BIO_MAX_VECS)
    && (l.queue.virtBoundary > 1 ==> PAGE_SIZE % l.queue.virtBoundary == 0)
  }

  /** Every entry begins and ends where pages do. */
  ghost predicate PageEntries(vs: seq<Bvec>) {
    forall i :: 0 <= i < |vs| ==> vs[i].off == 0 && vs[i].len % PAGE_SIZE == 0
  }

  lemma NoEntries()
    ensures PageEntries([])
  {
  }

  lemma {:induction false} PageEntriesMore(vs: seq<Bvec>, p: Piece, o: Outcome)
    requires PageEntries(vs) && p.off == 0 && p.len == PAGE_SIZE && (o.Merged? ==> vs != [])
    ensures PageEntries(Apply(vs, p, o)) && |Apply(vs, p, o)| <= |vs| + 1
  {
    match o
    case Rejected(_) =>
    case Merged(_) => assert (vs[|vs| - 1].len + PAGE_SIZE) % PAGE_SIZE == 0;
    case Appended =>
  }

  /** A bio of whole pages takes the next page as long as the limits have room. */
  lemma {:induction false} PageTaken(bio: Bio, l: Limits, p: Piece, pol: Policy, want: nat)
    requires bio.Valid() && !bio.cloned && ValidLimits(l) && Obeys(bio, l) && InPage(p) && p.off == 0
    requires RoomyPages(l, want) && bio.size + p.len <= want && bio.vcnt < PagesFor(want) <= bio.maxVecs
    requires PageEntries(bio.Vecs())
    ensures !Refuses(bio, l, p, pol)
  {
    hide Phys, Walk, TotalLen, WithinLimits, Decode, TableOk, PagesFor;
    var vs, a := bio.Vecs(), l.queue.virtBoundary;
    LongerFitsIff(l.queue, RoomOf(bio, l), vs, bio.size, p);
    if vs != [] && a > 1 {
      PageMultiple(vs[|vs| - 1].len, a);
    }
  }

  /**
   The page loop of bio_copy_user_iov: freshly allocated pages, as long as the limits
   let them into the bio. picks(i) is what the allocator comes up with.
   */
  method AddBouncePages(bio: Bio, phys: PhysMem, l: Limits, want: nat, picks: nat -> nat, pols: nat -> Policy)
    returns (ret: int)
    requires bio.Valid() && bio.Vecs() == [] && !bio.cloned && ValidLimits(l)
    modifies bio`vcnt, bio`size, bio.table, phys
    ensures bio.Valid() && bio.size <= want && Obeys(bio, l)
    ensures Owns(Walk(bio.Vecs()), Phys(bio.Vecs()), old(phys.inUse), phys.inUse, phys.bytes.Length)
    ensures ret == 0 && bio.maxVecs > 0 ==> WholePages(bio.size, want)
    ensures ret == 0 || (ret == ENOMEM && !Plenty(picks, old(phys.inUse), phys.bytes.Length, PagesFor(want)))
    ensures want > 0 && !old(phys.Free(picks(0))) ==> ret == ENOMEM
    ensures ret == 0 && bio.size < want ==> RefusesPage(bio, l, want - bio.size, picks, pols)
    ensures ret == 0 && RoomyPages(l, want) && PagesFor(want) <= bio.maxVecs ==> bio.size == want
    ensures phys.inUse <= old(phys.inUse) + set i | 0 <= i < PagesFor(want) :: picks(i)
  {
    hide Walk, Phys, TotalLen, TableOk, Decode, Positive, HwAdd, Owns, Distinct, Obeys, PagesFor, PageEntries,
         RoomyPages,
         Refuses, ValidLimits;
    ghost var s0, cap := phys.inUse, phys.bytes.Length;
    var left: nat, i: nat := want, 0;
    EmptyWalk();
    OwnsNothing(s0, cap);
    assert Phys(bio.Vecs()) == [] by { EmptyPhys(); }
    EmptyObeys(bio, l);
    NoEntries();
    while left > 0
      invariant left <= want && bio.Valid() && bio.size == want - left && Obeys(bio, l)
      invariant Owns(Walk(bio.Vecs()), Phys(bio.Vecs()), s0, phys.inUse, cap)
      invariant if i == 0 then bio.Vecs() == [] && left == want && phys.inUse == s0
                else left == 0 || want - left == i * PAGE_SIZE
      invariant phys.inUse <= s0 + set j | 0 <= j < i :: picks(j)
      invariant left > 0 ==> PageEntries(bio.Vecs()) && bio.vcnt <= i
      invariant left == 0 ==> i <= PagesFor(want)
      invariant i > 0 ==> left < want && old(phys.Free(picks(0)))
      decreases left
    {
      MorePages(want, i);
      var bytes := Min(PAGE_SIZE, left);
      ghost var s1 := phys.inUse;
      var ok := phys.AllocPage(picks(i));
      if !ok {
        assert phys.inUse == s1;
        return ENOMEM;
      }
      var n := AddBouncePage(bio, phys, l, Piece(picks(i), bytes, 0), pols(i), s0, s1);
      if n < bytes {
        phys.FreePage(picks(i));
        assert phys.inUse == s1;
        if RoomyPages(l, want) && PagesFor(want) <= bio.maxVecs {
          PageTaken(bio, l, Piece(picks(i), bytes, 0), pols(i), want);
        }
        break;
      }
      left := left - bytes;
      i := i + 1;
    }
    ret := 0;
  }

  /** The limits refuse the next page, whichever the allocator came up with. */
  ghost predicate RefusesPage(bio: Bio, l: Limits, left: nat, picks: nat -> nat, pols: nat -> Policy)
    requires bio.Valid() && ValidLimits(l)
    reads bio, bio.table
  {
    var i := bio.size / PAGE_SIZE;
    left > 0 && Refuses(bio, l, Piece(picks(i), Min(PAGE_SIZE, left), 0), pols(i))
  }

  lemma MorePages(want: nat, i: nat)
    requires i * PAGE_SIZE < want
    ensures i < PagesFor(want) && (want - i * PAGE_SIZE <= PAGE_SIZE ==> i + 1 == PagesFor(want))
  {
  }

  lemma EmptyObeys(bio: Bio, l: Limits)
    requires bio.Valid() && bio.Vecs() == [] && ValidLimits(l)
    ensures Obeys(bio, l)
  {
    NothingFits(l.queue, RoomOf(bio, l));
  }

  /** bio_add_pc_page with a page nobody else uses. */
  method AddBouncePage(bio: Bio, phys: PhysMem, l: Limits, p: Piece, pol: Policy, ghost s0: set<nat>,
                       ghost s1: set<nat>)
    returns (n: nat)
    requires bio.Valid() && !bio.cloned && ValidLimits(l) && InPage(p) && p.off == 0
    requires Owns(Walk(bio.Vecs()), Phys(bio.Vecs()), s0, s1, phys.bytes.Length)
    requires p.page !in s1 && (p.page + 1) * PAGE_SIZE <= phys.bytes.Length && phys.inUse == s1 + {p.page}
    requires Obeys(bio, l)
    modifies bio`vcnt, bio`size, bio.table
    ensures bio.Valid() && Obeys(bio, l) && (n == 0 || n == p.len) && bio.size == old(bio.size) + n
    ensures n == 0 ==> Refuses(bio, l, p, pol)
    ensures n > 0 && old(PageEntries(bio.Vecs())) && p.len == PAGE_SIZE ==>
      PageEntries(bio.Vecs()) && bio.vcnt <= old(bio.vcnt) + 1
    ensures n == 0 ==>
      bio.Vecs() == old(bio.Vecs()) && Owns(Walk(bio.Vecs()), Phys(bio.Vecs()), s0, s1, phys.bytes.Length)
    ensures n > 0 ==> Owns(Walk(bio.Vecs()), Phys(bio.Vecs()), s0, phys.inUse, phys.bytes.Length)
    ensures old(bio.Vecs()) == [] && bio.maxVecs > 0 ==> n == p.len
  {
    hide Walk, Phys, TotalLen, TableOk, Decode, Positive, HwAdd, Owns, PageIsMergeable, WithinLimits, PageEntries, Fits,
         AddedIfFits;
    ghost var vs := bio.Vecs();
    ghost var room := Room(bio.maxVecs, bio.cloned, l.maxSectors);
    ghost var o := HwAdd(l.queue, room, vs, bio.size, p, pol);
    HwAddCases(l.queue, room, vs, bio.size, p, pol);
    TakenDescribes(vs, p, pol, o);
    HwAddSound(l.queue, room, vs, bio.size, p, pol);
    HwAddExact(l.queue, room, vs, bio.size, p, pol);
    if PageEntries(vs) && p.len == PAGE_SIZE {
      PageEntriesMore(vs, p, o);
    }
    if vs == [] {
      EmptyPhys();
    }
    var same;
    n, same := bio.AddHwPage(l.queue, p, l.maxSectors, pol);
    if n > 0 {
      OwnsOne(p, s1, phys.bytes.Length);
      OwnsBoth(Walk(vs), Phys(vs), [p.page], PieceBytes(p), s0, s1, phys.inUse, phys.bytes.Length);
    }
  }

  lemma EmptyPhys()
    ensures Phys([]) == [] && TotalLen([]) == 0
  {
  }

  /** zero_fill_bio. */
  method ZeroFill(bio: Bio, phys: PhysMem)
    requires bio.Valid() && Mapped(phys.bytes[..], Phys(bio.Vecs())) && bio.table as object != phys.bytes
    modifies phys.bytes
    ensures phys.bytes[..] == Store(old(phys.bytes[..]), Phys(bio.Vecs()), Zeros(|Phys(bio.Vecs())|))
  {
    hide Walk, Phys, Segments, BytesOf, TotalLen, TableOk, Decode, Positive, Store, Range, PieceBytes, Zeros;
    var ps := bio.PageSegments();
    ghost var vs, m0 := bio.Vecs(), phys.bytes[..];
    SegmentsCover(vs);
    SegmentsInPage(vs);
    NoBytes();
    assert ps[..0] == [];
    StoreNothing(m0);
    var k := 0;
    while k < |ps|
      invariant k <= |ps| && Mapped(m0, BytesOf(ps[..k]))
      invariant phys.bytes[..] == Store(m0, BytesOf(ps[..k]), Zeros(|BytesOf(ps[..k])|))
    {
      BytesPrefix(ps, k);
      PieceMapped(m0, ps, k);
      PrefixMapped(m0, ps, k);
      ghost var n := |BytesOf(ps[..k])|;
      ghost var p := ps[k];
      ZeroPiece(phys.bytes, ps[k]);
      StoreConcat(m0, BytesOf(ps[..k]), PieceBytes(p), Zeros(n), Zeros(p.len));
      assert Zeros(n) + Zeros(p.len) == Zeros(n + p.len);
      k := k + 1;
    }
    assert ps[..k] == ps;
  }

  method ZeroPiece(bytes: array<Byte>, p: Piece)
    requires p.page * PAGE_SIZE + p.off + p.len <= bytes.Length
    modifies bytes
    ensures bytes[..] == Store(old(bytes[..]), PieceBytes(p), Zeros(p.len))
  {
    var at := p.page * PAGE_SIZE + p.off;
    forall k | 0 <= k < p.len {
      bytes[at + k] := 0;
    }
    StoreRange(old(bytes[..]), at, Zeros(p.len));
    assert bytes[..] == old(bytes[..])[..at] + Zeros(p.len) + old(bytes[..])[at + p.len..];
  }

  lemma StoreNothing(m: seq<Byte>)
    ensures Store(m, [], Zeros(0)) == m
  {
  }

  lemma PrefixMapped(phys: seq<Byte>, ps: seq<Piece>, k: nat)
    requires k < |ps| && Mapped(phys, BytesOf(ps))
    ensures Mapped(phys, BytesOf(ps[..k])) && Mapped(phys, PieceBytes(ps[k]))
  {
    hide BytesOf;
    BytesPrefix(ps, k);
    var a, n := BytesOf(ps), |BytesOf(ps[..k])|;
    forall i | 0 <= i < n ensures BytesOf(ps[..k])[i] < |phys| {
      assert BytesOf(ps[..k])[i] == a[..n][i];
    }
    forall i | 0 <= i < ps[k].len ensures PieceBytes(ps[k])[i] < |phys| {
      assert PieceBytes(ps[k])[i] == a[n..n + ps[k].len][i];
    }
  }

  ghost function Zeros(n: nat): (r: seq<Byte>)
    ensures |r| == n && forall k :: 0 <= k < n ==> r[k] == 0
  {
    seq(n, _ => 0)
  }

  /** Every byte of a frame that was in use before is as it was. */
  ghost predicate Untouched(m: seq<Byte>, m': seq<Byte>, before: set<nat>) {
    |m'| == |m| && forall a :: 0 <= a < |m| && a / PAGE_SIZE in before ==> m'[a] == m[a]
  }

  lemma {:induction false} FreshStore(m: seq<Byte>, pages: seq<nat>, addrs: seq<nat>, data: seq<Byte>,
                                      before: set<nat>, after: set<nat>)
    requires Owns(pages, addrs, before, after, |m|) && |addrs| == |data| && Mapped(m, addrs)
    ensures Untouched(m, Store(m, addrs, data), before)
    ensures Load(Store(m, addrs, data), addrs) == data
  {
    LoadAfterStore(m, addrs, data);
    forall a | 0 <= a < |m| && a / PAGE_SIZE in before ensures Store(m, addrs, data)[a] == m[a] {
      forall k | 0 <= k < |addrs| ensures addrs[k] != a {
        assert addrs[k] / PAGE_SIZE in pages;
      }
    }
  }

  /** What data the bounce pages of a request start with: the user's, or zeros. */
  ghost function Initial(write: bool, user: seq<Byte>, addrs: seq<nat>): (r: seq<Byte>)
    requires Mapped(user, addrs)
    ensures |r| == |addrs|
  {
    if write then Load(user, addrs) else Zeros(|addrs|)
  }

  lemma {:induction false} FreshFerry(u0: seq<Byte>, u1: seq<Byte>, p0: seq<Byte>, p1: seq<Byte>, ua: seq<nat>,
                                      addrs: seq<nat>, m: nat, pages: seq<nat>, before: set<nat>, after: set<nat>)
    requires Owns(pages, addrs, before, after, |p0|) && m <= |addrs| && Ferried(false, u0, u1, p0, p1, ua, addrs[..m])
    ensures u1 == u0 && Untouched(p0, p1, before) && |ua| == m && Mapped(u0, ua)
    ensures m == |addrs| ==> Mapped(p1, addrs) && Load(p1, addrs) == Load(u0, ua)
  {
    hide Store;
    forall k | 0 <= k < m ensures addrs[..m][k] / PAGE_SIZE in pages {
      assert addrs[..m][k] == addrs[k];
    }
    assert Owns(pages, addrs[..m], before, after, |p0|);
    FreshStore(p0, pages, addrs[..m], Load(u0, ua), before, after);
    if m == |addrs| {
      assert addrs[..m] == addrs;
    }
  }

  /**
   The data step of bio_copy_user_iov: the bio's fresh pages get the next bytes of the
   iterator on a write, and zeros on a read; the iterator moves past them.
   */
  method Preload(bio: Bio, it: Iter, user: array<Byte>, phys: PhysMem, faults: nat -> nat -> nat, ghost s0: set<nat>)
    returns (ret: int)
    requires bio.Valid() && it.Valid() && bio.size <= it.count && user != phys.bytes && Mapped(user[..], it.Rest())
    requires Owns(Walk(bio.Vecs()), Phys(bio.Vecs()), s0, phys.inUse, phys.bytes.Length)
    requires bio.table as object != phys.bytes && bio.table as object != user
    modifies it, phys.bytes, user
    ensures user[..] == old(user[..]) && Untouched(old(phys.bytes[..]), phys.bytes[..], s0)
    ensures it.Valid()
    ensures ret == 0 ==>
      && it.Consumed(bio.size)
      && |Phys(bio.Vecs())| == bio.size && Mapped(phys.bytes[..], Phys(bio.Vecs()))
      && Mapped(user[..], old(it.Rest())[..bio.size])
      && Load(phys.bytes[..], Phys(bio.Vecs())) == Initial(it.dataSource, user[..], old(it.Rest())[..bio.size])
    ensures ret != 0 ==> it.dataSource && ret == EFAULT && exists i, j :: faults(i)(j) == 0
  {
    hide Walk, Phys, Segments, BytesOf, TotalLen, TableOk, Decode, Positive, Store, RestOf, Owns;
    ghost var vs, n, rest := bio.Vecs(), bio.size, it.Rest();
    ghost var u0, p0 := user[..], phys.bytes[..];
    OwnedMapped(p0, Walk(vs), Phys(vs), s0, phys.inUse);
    assert rest[..|rest|] == rest;
    if it.dataSource {
      var ps := bio.PageSegments();
      SegmentsCover(vs);
      SegmentsInPage(vs);
      ghost var m;
      ret, m := FerryBio(false, ps, it, user, phys.bytes, faults);
      FreshFerry(u0, user[..], p0, phys.bytes[..], rest[..m], Phys(vs), m, Walk(vs), s0, phys.inUse);
    } else {
      ZeroFill(bio, phys);
      FreshStore(p0, Walk(vs), Phys(vs), Zeros(bio.size), s0, phys.inUse);
      it.Advance(bio.size);
      ret := 0;
    }
  }
}
