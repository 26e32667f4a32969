/** bio_copy_user_iov, blk_rq_map_user_iov with copying, and blk_rq_unmap_user of the bounced chain. */
module BounceChain {
  import opened Params
  import opened Memory
  import opened Cursor
  import opened IovIter
  import opened UserPages
  import opened Bvecs
  import opened Bios
  import opened DirectMap
  import opened Ferry
  import opened Bounce

  /** A bounced bio with the private iterator copy that its bi_private keeps. */
  datatype Part = Part(bio: Bio, iter: Iter)

  class CopyRequest {
    var parts: seq<Part>

    constructor ()
      ensures parts == []
    {
      parts := [];
    }
  }

  ghost function Objects(parts: seq<Part>): set<object> {
    (set p | p in parts :: p.bio) + (set p | p in parts :: p.iter) + (set p | p in parts :: p.bio.table)
  }

  /** Every bio is no longer than its iterator copy, whose addresses all lie in the user's memory. */
  ghost predicate PartsOk(parts: seq<Part>, user: array<Byte>, phys: array<Byte>)
    reads Objects(parts)
  {
    forall p :: p in parts ==>
      && p.bio.Valid() && p.iter.Valid() && p.bio.size <= p.iter.count
      && p.bio.table as object != user && p.bio.table as object != phys
      && forall k :: 0 <= k < p.iter.count ==> p.iter.Rest()[k] < user.Length
  }

  /** The kernel addresses of the chain, the pages they are in, and the user addresses they stand for. */
  ghost function ChainAddrs(parts: seq<Part>, user: array<Byte>, phys: array<Byte>): seq<nat>
    requires PartsOk(parts, user, phys)
    reads Objects(parts)
  {
    if parts == [] then [] else
      assert parts[|parts| - 1] in parts;
      ChainAddrs(parts[..|parts| - 1], user, phys) + Phys(parts[|parts| - 1].bio.Vecs())
  }

  ghost function ChainPages(parts: seq<Part>, user: array<Byte>, phys: array<Byte>): seq<nat>
    requires PartsOk(parts, user, phys)
    reads Objects(parts)
  {
    if parts == [] then [] else
      assert parts[|parts| - 1] in parts;
      ChainPages(parts[..|parts| - 1], user, phys) + Walk(parts[|parts| - 1].bio.Vecs())
  }

  ghost function ChainSlices(parts: seq<Part>, user: array<Byte>, phys: array<Byte>): seq<nat>
    requires PartsOk(parts, user, phys)
    reads Objects(parts)
  {
    if parts == [] then [] else
      var p := parts[|parts| - 1];
      assert p in parts;
      ChainSlices(parts[..|parts| - 1], user, phys) + p.iter.Rest()[..p.bio.size]
  }

  lemma {:induction false} ChainStep(parts: seq<Part>, user: array<Byte>, phys: array<Byte>, k: nat)
    requires PartsOk(parts, user, phys) && k < |parts|
    ensures PartsOk(parts[..k], user, phys) && PartsOk(parts[..k + 1], user, phys)
    ensures var p := parts[k];
            && ChainAddrs(parts[..k + 1], user, phys) == ChainAddrs(parts[..k], user, phys) + Phys(p.bio.Vecs())
            && ChainPages(parts[..k + 1], user, phys) == ChainPages(parts[..k], user, phys) + Walk(p.bio.Vecs())
            && ChainSlices(parts[..k + 1], user, phys)
               == ChainSlices(parts[..k], user, phys) + p.iter.Rest()[..p.bio.size]
  {
    hide Phys, Walk, RestOf;
    assert parts[..k + 1][..k] == parts[..k];
  }

  /** A prefix of the chain contributes prefixes of its addresses and pages. */
  lemma {:induction false} ChainPrefix(parts: seq<Part>, user: array<Byte>, phys: array<Byte>, k: nat)
    requires PartsOk(parts, user, phys) && k <= |parts|
    ensures PartsOk(parts[..k], user, phys)
    ensures ChainAddrs(parts[..k], user, phys) <= ChainAddrs(parts, user, phys)
    ensures ChainPages(parts[..k], user, phys) <= ChainPages(parts, user, phys)
    decreases |parts| - k
  {
    hide ChainAddrs, ChainPages, ChainSlices, Phys, Walk, RestOf;
    if k == |parts| {
      assert parts[..k] == parts;
    } else {
      ChainStep(parts, user, phys, k);
      ChainPrefix(parts, user, phys, k + 1);
    }
  }

  lemma ChainEnds(parts: seq<Part>, user: array<Byte>, phys: array<Byte>)
    requires PartsOk(parts, user, phys)
    ensures parts[..0] == [] && parts[..|parts|] == parts && PartsOk([], user, phys)
    ensures ChainAddrs([], user, phys) == ChainPages([], user, phys) == ChainSlices([], user, phys) == []
  {
  }

  /** Nothing but the listed addresses changed. */
  ghost predicate Outside(u: seq<Byte>, u': seq<Byte>, addrs: seq<nat>) {
    |u'| == |u| && forall a :: 0 <= a < |u| && a !in addrs ==> u'[a] == u[a]
  }

  lemma OutsideTwice(u0: seq<Byte>, u1: seq<Byte>, u2: seq<Byte>, a: seq<nat>, b: seq<nat>)
    requires Outside(u0, u1, a) && Outside(u1, u2, b)
    ensures Outside(u0, u2, a + b)
  {
  }

  lemma FerriedOutside(u: seq<Byte>, u': seq<Byte>, m: seq<Byte>, ua: seq<nat>, pa: seq<nat>, n: nat)
    requires n <= |ua| && n <= |pa| && Ferried(true, u, u', m, m, ua[..n], pa[..n])
    ensures Outside(u, u', ua)
  {
    forall a | 0 <= a < |u| && a !in ua ensures u'[a] == u[a] {
      assert a !in ua[..n];
    }
  }

  /** bio_uncopy_user. */
  method UncopyOne(p: Part, user: array<Byte>, phys: PhysMem, read: bool, hasMm: bool, faults: nat -> nat -> nat)
    returns (ret: int)
    requires PartsOk([p], user, phys.bytes) && user != phys.bytes && p.iter.dataSource == !read
    requires Distinct(Walk(p.bio.Vecs())) && forall k :: k in Walk(p.bio.Vecs()) ==> k in phys.inUse
    requires Mapped(phys.bytes[..], Phys(p.bio.Vecs()))
    modifies user, phys, phys.bytes
    ensures p.bio.Valid() && p.iter.Valid()
    ensures phys.inUse == old(phys.inUse) - (set k | k in Walk(p.bio.Vecs()))
    ensures phys.bytes[..] == old(phys.bytes[..])
    ensures Outside(old(user[..]), user[..], p.iter.Rest()[..p.bio.size])
    ensures read && hasMm && ret == 0 ==>
      Ferried(true, old(user[..]), user[..], phys.bytes[..], phys.bytes[..],
              p.iter.Rest()[..p.bio.size], Phys(p.bio.Vecs()))
    ensures !(read && hasMm) ==> user[..] == old(user[..]) && ret == if hasMm then 0 else EINTR
    ensures read && hasMm && ret != 0 ==> ret == EFAULT && exists i, j :: faults(i)(j) == 0
  {
    hide Walk, Phys, Segments, BytesOf, TotalLen, TableOk, Decode, Positive, Store, RestOf, Distinct, Ferried, Outside;
    assert p in [p];
    ghost var rest, bytes := p.iter.Rest(), Phys(p.bio.Vecs());
    ghost var u0, m := user[..], phys.bytes[..];
    ret := 0;
    if !hasMm {
      ret := EINTR;
    } else if read {
      var it := new Iter.Copy(p.iter);
      var ps := p.bio.PageSegments();
      SegmentsCover(p.bio.Vecs());
      SegmentsInPage(p.bio.Vecs());
      ghost var n;
      ret, n := FerryBio(true, ps, it, user, phys.bytes, faults);
      FerriedKeeps(u0, user[..], m, phys.bytes[..], rest[..n], bytes[..n]);
      FerriedFrom(u0, user[..], phys.bytes[..], rest, bytes, n, p.bio.size, ret == 0);
    }
    if !(read && hasMm) {
      OutsideNothing(u0, rest[..p.bio.size]);
    }
    FreePages(p.bio, phys);
  }

  lemma FerriedKeeps(u: seq<Byte>, u': seq<Byte>, m: seq<Byte>, m': seq<Byte>, ua: seq<nat>, pa: seq<nat>)
    requires Ferried(true, u, u', m, m', ua, pa)
    ensures m' == m
  {
  }

  /** The bios, their tables and their iterators are apart from the memory that a copy writes. */
  lemma ObjectsApart(parts: seq<Part>, user: array<Byte>, phys: PhysMem)
    requires PartsOk(parts, user, phys.bytes)
    ensures user as object !in Objects(parts) && phys.bytes as object !in Objects(parts)
    ensures phys as object !in Objects(parts)
  {
  }

  lemma OutsideNothing(u: seq<Byte>, addrs: seq<nat>)
    ensures Outside(u, u, addrs)
  {
  }

  lemma FerriedFrom(u: seq<Byte>, u': seq<Byte>, m: seq<Byte>, rest: seq<nat>, pa: seq<nat>, n: nat, size: nat,
                    all: bool)
    requires n <= size == |pa| <= |rest| && Ferried(true, u, u', m, m, rest[..n], pa[..n]) && (all ==> n == size)
    ensures Outside(u, u', rest[..size])
    ensures all ==> Ferried(true, u, u', m, m, rest[..size], pa)
  {
    hide Store, Load;
    assert rest[..size][..n] == rest[..n];
    FerriedOutside(u, u', m, rest[..size], pa, n);
    if all {
      assert pa[..n] == pa;
    }
  }

  /**
   blk_rq_unmap_user of a bounced chain: after a read in process context every bio's
   data goes back to its own slice of the user's segments, and in every case each bounce
   page is freed once.
   */
  method UnmapCopied(parts: seq<Part>, user: array<Byte>, phys: PhysMem, read: bool, hasMm: bool,
                     faults: nat -> nat -> nat -> nat)
    returns (ret: int, ghost us: seq<seq<Byte>>)
    requires PartsOk(parts, user, phys.bytes) && user != phys.bytes
    requires forall p :: p in parts ==> p.iter.dataSource == !read
    requires Distinct(ChainPages(parts, user, phys.bytes))
    requires forall p :: p in ChainPages(parts, user, phys.bytes) ==> p in phys.inUse
    requires Mapped(phys.bytes[..], ChainAddrs(parts, user, phys.bytes))
    modifies user, phys, phys.bytes
    ensures PartsOk(parts, user, phys.bytes) && phys.bytes[..] == old(phys.bytes[..])
    ensures phys.inUse == old(phys.inUse) - (set p | p in ChainPages(parts, user, phys.bytes))
    ensures Outside(old(user[..]), user[..], ChainSlices(parts, user, phys.bytes))
    ensures read && hasMm && ret == 0 ==>
      Ferried(true, old(user[..]), user[..], phys.bytes[..], phys.bytes[..],
              ChainSlices(parts, user, phys.bytes), ChainAddrs(parts, user, phys.bytes))
    ensures !(read && hasMm) ==> user[..] == old(user[..]) && ret == if hasMm || parts == [] then 0 else EINTR
    ensures read && hasMm && ret != 0 ==> ret == EFAULT && exists i, j, k :: faults(i)(j)(k) == 0
    ensures |us| == |parts| + 1 && us[0] == old(user[..]) && us[|parts|] == user[..]
    ensures read && hasMm ==> forall k :: 0 <= k < |parts| ==> GivenBack(parts, k, us, phys.bytes[..], faults)
  {
    hide ChainAddrs, ChainPages, ChainSlices, Ferried, RestOf, Distinct, Walk, Phys, Outside, PartsOk, Mapped, Uncopied,
         GivenBack;
    ghost var u0, s0 := user[..], phys.inUse;
    ret, us := 0, [u0];
    NoneUncopied(parts, user, phys, read, hasMm, faults);
    var k := 0;
    while k < |parts|
      invariant k <= |parts| && PartsOk(parts, user, phys.bytes) && phys.bytes[..] == old(phys.bytes[..])
      invariant ChainPages(parts, user, phys.bytes) == old(ChainPages(parts, user, phys.bytes))
      invariant ChainAddrs(parts, user, phys.bytes) == old(ChainAddrs(parts, user, phys.bytes))
      invariant ChainSlices(parts, user, phys.bytes) == old(ChainSlices(parts, user, phys.bytes))
      invariant Uncopied(parts, k, user, phys, u0, s0, read, hasMm, ret, faults)
      invariant |us| == k + 1 && us[0] == u0 && us[k] == user[..]
      invariant read && hasMm ==> forall j :: 0 <= j < k ==> GivenBack(parts, j, us, phys.bytes[..], faults)
    {
      ObjectsApart(parts, user, phys);
      ghost var before := us;
      ret, us := UncopyNext(parts, k, user, phys, read, hasMm, faults, ret, u0, s0, us);
      if read && hasMm {
        GivenMore(parts, k, before, us, phys.bytes[..], faults);
      }
      k := k + 1;
    }
    AllUncopied(parts, user, phys, u0, s0, read, hasMm, ret, faults);
  }

  /** What the first k bios have done to the user's memory, to the pages in use and to the result. */
  ghost predicate Uncopied(parts: seq<Part>, k: nat, user: array<Byte>, phys: PhysMem, u0: seq<Byte>, s0: set<nat>,
                           read: bool, hasMm: bool, ret: int, faults: nat -> nat -> nat -> nat)
    reads Objects(parts), user, phys, phys.bytes
  {
    && k <= |parts| && PartsOk(parts[..k], user, phys.bytes)
    && phys.inUse == s0 - (set p | p in ChainPages(parts[..k], user, phys.bytes))
    && Outside(u0, user[..], ChainSlices(parts[..k], user, phys.bytes))
    && (read && hasMm && ret == 0 ==>
          Ferried(true, u0, user[..], phys.bytes[..], phys.bytes[..],
                  ChainSlices(parts[..k], user, phys.bytes), ChainAddrs(parts[..k], user, phys.bytes)))
    && (!(read && hasMm) ==> user[..] == u0 && ret == if hasMm || k == 0 then 0 else EINTR)
    && (read && hasMm && ret != 0 ==> ret == EFAULT && exists i, j, k :: faults(i)(j)(k) == 0)
  }

  /**
   The k-th bio's turn, between the k-th and the next state of the user's memory: only its own
   slice changes, and without a fault it gets all of the bio's data, whatever faulted elsewhere.
   */
  ghost predicate GivenBack(parts: seq<Part>, k: nat, us: seq<seq<Byte>>, m: seq<Byte>,
                            faults: nat -> nat -> nat -> nat)
    requires k < |parts| && k + 1 < |us|
    reads Objects(parts)
  {
    var p := parts[k];
    assert p in parts;
    && p.bio.Valid() && p.iter.Valid() && p.bio.size <= p.iter.count
    && Outside(us[k], us[k + 1], p.iter.Rest()[..p.bio.size])
    && ((forall i, j :: faults(k)(i)(j) != 0) ==>
          Ferried(true, us[k], us[k + 1], m, m, p.iter.Rest()[..p.bio.size], Phys(p.bio.Vecs())))
  }

  lemma NoneUncopied(parts: seq<Part>, user: array<Byte>, phys: PhysMem, read: bool, hasMm: bool,
                     faults: nat -> nat -> nat -> nat)
    requires PartsOk(parts, user, phys.bytes)
    ensures Uncopied(parts, 0, user, phys, user[..], phys.inUse, read, hasMm, 0, faults)
  {
    ChainEnds(parts, user, phys.bytes);
    FerriedNothing(true, user[..], phys.bytes[..]);
    OutsideNothing(user[..], []);
  }

  lemma AllUncopied(parts: seq<Part>, user: array<Byte>, phys: PhysMem, u0: seq<Byte>, s0: set<nat>,
                    read: bool, hasMm: bool, ret: int, faults: nat -> nat -> nat -> nat)
    requires Uncopied(parts, |parts|, user, phys, u0, s0, read, hasMm, ret, faults)
    ensures PartsOk(parts, user, phys.bytes) && phys.inUse == s0 - (set p | p in ChainPages(parts, user, phys.bytes))
    ensures Outside(u0, user[..], ChainSlices(parts, user, phys.bytes))
    ensures read && hasMm && ret == 0 ==>
      Ferried(true, u0, user[..], phys.bytes[..], phys.bytes[..],
              ChainSlices(parts, user, phys.bytes), ChainAddrs(parts, user, phys.bytes))
    ensures !(read && hasMm) ==> user[..] == u0 && ret == if hasMm || parts == [] then 0 else EINTR
    ensures read && hasMm && ret != 0 ==> ret == EFAULT && exists i, j, k :: faults(i)(j)(k) == 0
  {
    assert parts[..|parts|] == parts;
  }

  /** The loop body of blk_rq_unmap_user. */
  method UncopyNext(parts: seq<Part>, k: nat, user: array<Byte>, phys: PhysMem, read: bool, hasMm: bool,
                    faults: nat -> nat -> nat -> nat, ret: int, ghost u0: seq<Byte>, ghost s0: set<nat>,
                    ghost us: seq<seq<Byte>>)
    returns (ret': int, ghost us': seq<seq<Byte>>)
    requires PartsOk(parts, user, phys.bytes) && user != phys.bytes && k < |parts|
    requires forall p :: p in parts ==> p.iter.dataSource == !read
    requires Distinct(ChainPages(parts, user, phys.bytes))
    requires forall p :: p in ChainPages(parts, user, phys.bytes) ==> p in s0
    requires Mapped(phys.bytes[..], ChainAddrs(parts, user, phys.bytes))
    requires Uncopied(parts, k, user, phys, u0, s0, read, hasMm, ret, faults)
    requires |us| == k + 1 && us[k] == user[..]
    modifies user, phys, phys.bytes
    ensures us' == us + [user[..]] && (read && hasMm ==> GivenBack(parts, k, us', phys.bytes[..], faults))
    ensures PartsOk(parts, user, phys.bytes) && phys.bytes[..] == old(phys.bytes[..])
    ensures ChainPages(parts, user, phys.bytes) == old(ChainPages(parts, user, phys.bytes))
    ensures ChainAddrs(parts, user, phys.bytes) == old(ChainAddrs(parts, user, phys.bytes))
    ensures ChainSlices(parts, user, phys.bytes) == old(ChainSlices(parts, user, phys.bytes))
    ensures Uncopied(parts, k + 1, user, phys, u0, s0, read, hasMm, ret', faults)
  {
    hide ChainAddrs, ChainPages, ChainSlices, Ferried, RestOf, Distinct, Walk, Phys, Outside, PartsOk, Mapped;
    hide Bio.Vecs, Iter.Rest, Iter.Valid, TableOk, TotalLen, Decode, Positive, Store, Load, GivenBack;
    ghost var u1, m, done := user[..], phys.bytes[..], parts[..k];
    ChainStep(parts, user, phys.bytes, k);
    ObjectsApart(parts, user, phys);
    ObjectsApart(parts[..k], user, phys);
    ObjectsApart(parts[..k + 1], user, phys);
    OwnPart(parts, user, phys.bytes, k, s0, m);
    ghost var p := parts[k];
    ghost var ua, pa := ChainSlices(done, user, phys.bytes), ChainAddrs(done, user, phys.bytes);
    ghost var ub := p.iter.Rest()[..p.bio.size];
    var ret2 := UncopyOne(parts[k], user, phys, read, hasMm, faults(k));
    OneMore(u0, u1, user[..], m, ua, pa, ub, Phys(p.bio.Vecs()), read && hasMm && ret == 0 && ret2 == 0);
    ret' := if ret2 != 0 && ret == 0 then ret2 else ret;
    us' := us + [user[..]];
    if read && hasMm {
      GivenNow(parts, k, us', m, faults, ret2);
    }
  }

  lemma GivenNow(parts: seq<Part>, k: nat, us: seq<seq<Byte>>, m: seq<Byte>, faults: nat -> nat -> nat -> nat, ret: int)
    requires k < |parts| && |us| == k + 2
    requires var p := parts[k];
      && p.bio.Valid() && p.iter.Valid() && p.bio.size <= p.iter.count
      && Outside(us[k], us[k + 1], p.iter.Rest()[..p.bio.size])
      && (if ret == 0 then Ferried(true, us[k], us[k + 1], m, m, p.iter.Rest()[..p.bio.size], Phys(p.bio.Vecs()))
          else exists i, j :: faults(k)(i)(j) == 0)
    ensures GivenBack(parts, k, us, m, faults)
  {
    hide Outside, Ferried;
  }

  lemma GivenMore(parts: seq<Part>, k: nat, us: seq<seq<Byte>>, us': seq<seq<Byte>>, m: seq<Byte>,
                  faults: nat -> nat -> nat -> nat)
    requires k < |parts| && |us| == k + 1 && |us'| == k + 2 && us'[..k + 1] == us
    requires forall j :: 0 <= j < k ==> GivenBack(parts, j, us, m, faults)
    requires GivenBack(parts, k, us', m, faults)
    ensures forall j :: 0 <= j <= k ==> GivenBack(parts, j, us', m, faults)
  {
    hide Outside, Ferried;
    forall j | 0 <= j < k ensures GivenBack(parts, j, us', m, faults) {
      assert GivenBack(parts, j, us, m, faults);
      assert us'[j] == us'[..k + 1][j] && us'[j + 1] == us'[..k + 1][j + 1];
    }
  }

  lemma OneMore(u0: seq<Byte>, u1: seq<Byte>, u2: seq<Byte>, m: seq<Byte>,
                ua: seq<nat>, pa: seq<nat>, ub: seq<nat>, pb: seq<nat>, ok: bool)
    requires Outside(u0, u1, ua) && Outside(u1, u2, ub)
    requires ok ==> Ferried(true, u0, u1, m, m, ua, pa) && Ferried(true, u1, u2, m, m, ub, pb)
    ensures Outside(u0, u2, ua + ub) && (ok ==> Ferried(true, u0, u2, m, m, ua + ub, pa + pb))
  {
    hide Ferried;
    OutsideTwice(u0, u1, u2, ua, ub);
    if ok {
      FerriedTwice(true, u0, u1, u2, m, m, m, ua, pa, ub, pb);
    }
  }

  /** Part k owns pages that are still in use when the parts before it have freed theirs. */
  lemma {:induction false} OwnPart(parts: seq<Part>, user: array<Byte>, phys: array<Byte>, k: nat, s0: set<nat>,
                                   m: seq<Byte>)
    requires PartsOk(parts, user, phys) && k < |parts|
    requires Distinct(ChainPages(parts, user, phys)) && forall p :: p in ChainPages(parts, user, phys) ==> p in s0
    requires Mapped(m, ChainAddrs(parts, user, phys))
    ensures PartsOk([parts[k]], user, phys) && PartsOk(parts[..k], user, phys)
    ensures var walk := Walk(parts[k].bio.Vecs());
            Distinct(walk) && forall p :: p in walk ==> p in s0 - (set q | q in ChainPages(parts[..k], user, phys))
    ensures Mapped(m, Phys(parts[k].bio.Vecs()))
    ensures parts[k].iter.Valid() && parts[k].bio.size <= parts[k].iter.count
  {
    hide ChainAddrs, ChainPages, ChainSlices, Walk, Phys, RestOf;
    ChainStep(parts, user, phys, k);
    ChainPrefix(parts, user, phys, k + 1);
    var all, was := ChainPages(parts, user, phys), ChainPages(parts[..k], user, phys);
    var walk := Walk(parts[k].bio.Vecs());
    assert was + walk <= all;
    forall i | 0 <= i < |walk| ensures walk[i] == all[|was| + i] {
      assert walk[i] == (was + walk)[|was| + i];
    }
    forall j | 0 <= j < |was| ensures was[j] == all[j] {
      assert was[j] == (was + walk)[j];
    }
    var addrs, a := ChainAddrs(parts, user, phys), ChainAddrs(parts[..k], user, phys);
    var mine := Phys(parts[k].bio.Vecs());
    assert a + mine <= addrs;
    forall i | 0 <= i < |mine| ensures mine[i] < |m| {
      assert mine[i] == (a + mine)[|a| + i] == addrs[|a| + i];
    }
  }

  /** What the bounce mapping of one bio meets: allocations, limits, user faults, the merge verdict. */
  datatype CopyLuck = CopyLuck(bmdOk: bool, bioOk: bool, picks: nat -> nat, pols: nat -> Policy,
                               faults: nat -> nat -> nat, mergeOk: bool)

  /**
   What makes the bounce mapping of one bio fail with `err`: `used` are the frames in use,
   `want` the bytes left, and `fits` says that the request may take the bio.
   */
  ghost predicate CopyCanFail(luck: CopyLuck, nrSegs: nat, fits: bool, write: bool, used: set<nat>, cap: nat, want: nat,
                              err: int)
  {
    || (err == ENOMEM && (Refused(luck, nrSegs) || !Plenty(luck.picks, used, cap, PagesFor(want))))
    || (err == EFAULT && write && exists i, j :: luck.faults(i)(j) == 0)
    || (err == EINVAL && !fits)
  }

  /** The request has too many segments, or there is no memory for the bio or its private data. */
  ghost predicate Refused(luck: CopyLuck, nrSegs: nat) {
    nrSegs > UIO_MAXIOV || !luck.bmdOk || !luck.bioOk
  }

  /**
   How the bounce mapping of one bio ends, with `left` bytes of `want` left: it fails for a
   cause, always when there is no memory for its first page, and takes everything when one bio
   may.
   */
  ghost predicate CopyOutcome(l: Limits, luck: CopyLuck, nrSegs: nat, fits: bool, write: bool, used: set<nat>,
                              cap: nat, want: nat, left: nat, ret: int)
    requires ValidLimits(l)
  {
    && (ret == 0 ==> fits && (RoomyPages(l, want) ==> left == 0))
    && (ret == 0 || CopyCanFail(luck, nrSegs, fits, write, used, cap, want, ret))
    && (Refused(luck, nrSegs) || luck.picks(0) in used || (luck.picks(0) + 1) * PAGE_SIZE > cap ==> ret == ENOMEM)
  }

  lemma RefusedOutcome(l: Limits, luck: CopyLuck, nrSegs: nat, fits: bool, write: bool, used: set<nat>, cap: nat,
                       want: nat)
    requires ValidLimits(l)
    ensures Refused(luck, nrSegs) ==> CopyOutcome(l, luck, nrSegs, fits, write, used, cap, want, want, ENOMEM)
  {
  }

  lemma {:induction false} OwnsUndone(pages: seq<nat>, addrs: seq<nat>, before: set<nat>, after: set<nat>, cap: nat)
    requires Owns(pages, addrs, before, after, cap)
    ensures Distinct(pages) && (forall p :: p in pages ==> p in after)
    ensures after - (set p | p in pages) == before
  {
    forall p | p in pages ensures p !in before && p in after {
      var k :| 0 <= k < |pages| && pages[k] == p;
    }
  }

  /** The new bio of a successful round: fresh pages that hold what the request is to start with. */
  ghost predicate Bounces(p: Part, user: seq<Byte>, phys: seq<Byte>, rest: seq<nat>, s0: set<nat>, s1: set<nat>)
    requires p.bio.Valid() && p.iter.Valid()
    reads p.bio, p.bio.table, p.iter
  {
    && 0 < p.bio.size <= |rest| && p.iter.Rest() == rest
    && |Phys(p.bio.Vecs())| == p.bio.size
    && Owns(Walk(p.bio.Vecs()), Phys(p.bio.Vecs()), s0, s1, |phys|)
    && Mapped(phys, Phys(p.bio.Vecs())) && Mapped(user, rest[..p.bio.size])
    && Load(phys, Phys(p.bio.Vecs())) == Initial(p.iter.dataSource, user, rest[..p.bio.size])
  }

  lemma BouncesSome(p: Part, user: seq<Byte>, phys: seq<Byte>, rest: seq<nat>, s0: set<nat>, s1: set<nat>)
    requires p.bio.Valid() && p.iter.Valid() && Bounces(p, user, phys, rest, s0, s1)
    ensures 0 < p.bio.size <= |rest| && s0 <= s1
  {
  }

  lemma ObeysSize(bio: Bio, l: Limits)
    requires bio.Valid() && ValidLimits(l) && Obeys(bio, l)
    ensures bio.size / 512 <= l.maxSectors
  {
  }

  /** bio_copy_user_iov: the next bio of the chain, or everything as it was. */
  method CopyOneBio(rq: CopyRequest, it: Iter, user: array<Byte>, phys: PhysMem, l: Limits, luck: CopyLuck)
    returns (ret: int)
    requires it.Valid() && it.kind.IovecIter? && 0 < it.count <= UINT_MAX && ValidLimits(l)
    requires user != phys.bytes && Mapped(user[..], it.Rest())
    modifies rq, it, phys, phys.bytes, user
    ensures user[..] == old(user[..]) && Untouched(old(phys.bytes[..]), phys.bytes[..], old(phys.inUse))
    ensures ret == 0 ==>
      && |rq.parts| == |old(rq.parts)| + 1 && rq.parts[..|rq.parts| - 1] == old(rq.parts)
      && var p := rq.parts[|rq.parts| - 1];
      && fresh(p.bio) && fresh(p.bio.table) && fresh(p.iter)
      && p.bio.Valid() && p.iter.Valid() && p.iter.dataSource == it.dataSource
      && Bounces(p, user[..], phys.bytes[..], old(it.Rest()), old(phys.inUse), phys.inUse)
      && it.Consumed(p.bio.size) && Obeys(p.bio, l) && WholePages(p.bio.size, old(it.count))
      && (it.count > 0 ==> RefusesPage(p.bio, l, it.count, luck.picks, luck.pols))
    ensures ret != 0 ==> it.Valid() && rq.parts == old(rq.parts) && phys.inUse == old(phys.inUse)
    ensures CopyOutcome(l, luck, old(it.nrSegs), old(rq.parts) == [] || luck.mergeOk, it.dataSource, old(phys.inUse),
                        phys.bytes.Length, old(it.count), it.count, ret)
    ensures phys.inUse <= old(phys.inUse) + set i | 0 <= i < PagesFor(old(it.count)) :: luck.picks(i)
  {
    hide Walk, Phys, TotalLen, TableOk, Decode, Positive, Store, RestOf, Owns, Untouched, Load, Initial, Obeys,
         WholePages, RefusesPage, CopyOutcome;
    UntouchedNothing(phys.bytes[..], phys.inUse);
    RefusedOutcome(l, luck, it.nrSegs, rq.parts == [] || luck.mergeOk, it.dataSource, phys.inUse, phys.bytes.Length,
                   it.count);
    if it.nrSegs > UIO_MAXIOV || !luck.bmdOk {
      return ENOMEM;
    }
    var mine := new Iter.DeepCopy(it);
    var nrPages: nat := Min(PagesFor(it.count), BIO_MAX_VECS);
    if !luck.bioOk {
      return ENOMEM;
    }
    var bio := new Bio(nrPages, false);
    ret := FillBounce(bio, it, user, phys, l, luck, rq.parts == [] || luck.mergeOk, it.nrSegs);
    if ret == 0 {
      rq.parts := rq.parts + [Part(bio, mine)];
    }
  }

  /** The part of bio_copy_user_iov from the page loop on; on any failure the pages are freed again. */
  method FillBounce(bio: Bio, it: Iter, user: array<Byte>, phys: PhysMem, l: Limits, luck: CopyLuck, fits: bool,
                    ghost nrSegs: nat)
    returns (ret: int)
    requires bio.Valid() && bio.Vecs() == [] && !bio.cloned && bio.maxVecs > 0
    requires bio.table as object != phys.bytes && bio.table as object != user
    requires it.Valid() && it.count > 0 && ValidLimits(l) && user != phys.bytes && Mapped(user[..], it.Rest())
    requires !Refused(luck, nrSegs) && bio.maxVecs == Min(PagesFor(it.count), BIO_MAX_VECS)
    modifies bio`vcnt, bio`size, bio.table, it, phys, phys.bytes, user
    ensures user[..] == old(user[..]) && Untouched(old(phys.bytes[..]), phys.bytes[..], old(phys.inUse))
    ensures bio.Valid() && it.Valid()
    ensures ret == 0 ==>
      && 0 < bio.size <= old(it.count) && it.Consumed(bio.size)
      && |Phys(bio.Vecs())| == bio.size
      && Owns(Walk(bio.Vecs()), Phys(bio.Vecs()), old(phys.inUse), phys.inUse, phys.bytes.Length)
      && Mapped(phys.bytes[..], Phys(bio.Vecs())) && Mapped(user[..], old(it.Rest())[..bio.size])
      && Load(phys.bytes[..], Phys(bio.Vecs())) == Initial(it.dataSource, user[..], old(it.Rest())[..bio.size])
      && Obeys(bio, l) && WholePages(bio.size, old(it.count))
      && (it.count > 0 ==> RefusesPage(bio, l, it.count, luck.picks, luck.pols))
    ensures ret != 0 ==> phys.inUse == old(phys.inUse)
    ensures CopyOutcome(l, luck, nrSegs, fits, it.dataSource, old(phys.inUse), phys.bytes.Length, old(it.count),
                        it.count, ret)
    ensures phys.inUse <= old(phys.inUse) + set i | 0 <= i < PagesFor(old(it.count)) :: luck.picks(i)
  {
    hide Walk, Phys, Segments, BytesOf, TotalLen, TableOk, Decode, Positive, Store, RestOf, Owns, Untouched, Load,
         Plenty, Obeys, RefusesPage, PagesFor;
    ghost var s0 := phys.inUse;
    UntouchedNothing(phys.bytes[..], s0);
    ret := AddBouncePages(bio, phys, l, it.count, luck.picks, luck.pols);
    OwnsUndone(Walk(bio.Vecs()), Phys(bio.Vecs()), s0, phys.inUse, phys.bytes.Length);
    if ret == 0 {
      ret := Preload(bio, it, user, phys, luck.faults, s0);
    }
    if ret == 0 && !fits {
      ret := EINVAL;
    }
    if ret != 0 {
      FreePages(bio, phys);
    }
  }

  lemma UntouchedNothing(m: seq<Byte>, s: set<nat>)
    ensures Untouched(m, m, s)
  {
  }

  /**
   What the chain and the iterator say together at any time: the first n bytes of the
   user's are the chain's slices, and the chain's own pages hold what they start with.
   */
  ghost predicate Bounced(parts: seq<Part>, user: array<Byte>, phys: PhysMem, write: bool, rest: seq<nat>, n: nat,
                          s0: set<nat>)
    reads Objects(parts), user, phys, phys.bytes
  {
    && PartsOk(parts, user, phys.bytes) && (forall p :: p in parts ==> p.iter.dataSource == write)
    && n <= |rest| && Mapped(user[..], rest) && ChainSlices(parts, user, phys.bytes) == rest[..n]
    && Owns(ChainPages(parts, user, phys.bytes), ChainAddrs(parts, user, phys.bytes), s0, phys.inUse, phys.bytes.Length)
    && |ChainAddrs(parts, user, phys.bytes)| == n && Mapped(phys.bytes[..], ChainAddrs(parts, user, phys.bytes))
    && Mapped(user[..], rest[..n])
    && Load(phys.bytes[..], ChainAddrs(parts, user, phys.bytes)) == Initial(write, user[..], rest[..n])
  }

  lemma BouncedNothing(user: array<Byte>, phys: PhysMem, write: bool, rest: seq<nat>)
    requires Mapped(user[..], rest)
    ensures Bounced([], user, phys, write, rest, 0, phys.inUse)
  {
  }

  lemma {:induction false} SlicesMapped<T>(m: seq<T>, rest: seq<nat>, n: nat)
    requires Mapped(m, rest) && n <= |rest|
    ensures Mapped(m, rest[..n]) && Mapped(m, rest[n..])
  {
  }

  /** Data in frames that were in use before stays what it was. */
  lemma {:induction false} LoadKept(m: seq<Byte>, m': seq<Byte>, pages: seq<nat>, addrs: seq<nat>, s0: set<nat>,
                                    s1: set<nat>)
    requires Owns(pages, addrs, s0, s1, |m|) && Untouched(m, m', s1) && Mapped(m, addrs)
    ensures Mapped(m', addrs) && Load(m', addrs) == Load(m, addrs)
  {
    forall k | 0 <= k < |addrs| ensures m'[addrs[k]] == m[addrs[k]] {
      assert addrs[k] / PAGE_SIZE in s1;
    }
  }

  /** Two stretches of the user's bytes and their pages are one. */
  lemma {:induction false} InitialTwice(write: bool, user: seq<Byte>, m: seq<Byte>, rest: seq<nat>, n: nat, k: nat,
                                        a: seq<nat>, b: seq<nat>)
    requires n + k <= |rest| && Mapped(user, rest) && |a| == n && |b| == k && Mapped(m, a) && Mapped(m, b)
    requires Mapped(user, rest[..n]) && Load(m, a) == Initial(write, user, rest[..n])
    requires Mapped(user, rest[n..][..k]) && Load(m, b) == Initial(write, user, rest[n..][..k])
    ensures rest[..n] + rest[n..][..k] == rest[..n + k] && Mapped(m, a + b) && Mapped(user, rest[..n + k])
    ensures Load(m, a + b) == Initial(write, user, rest[..n + k])
  {
    assert rest[..n] + rest[n..][..k] == rest[..n + k];
    var x, y := Load(m, a + b), Initial(write, user, rest[..n + k]);
    forall i | 0 <= i < n + k ensures x[i] == y[i] {
      assert (a + b)[i] == if i < n then a[i] else b[i - n];
      assert x[i] == if i < n then Load(m, a)[i] else Load(m, b)[i - n];
    }
  }

  lemma {:induction false} BouncedMore(parts: seq<Part>, p: Part, user: array<Byte>, phys: PhysMem, write: bool,
                                       rest: seq<nat>, n: nat, s0: set<nat>, s1: set<nat>, m: seq<Byte>)
    requires PartsOk(parts, user, phys.bytes) && (forall q :: q in parts ==> q.iter.dataSource == write)
    requires n <= |rest| && Mapped(user[..], rest) && ChainSlices(parts, user, phys.bytes) == rest[..n]
    requires Owns(ChainPages(parts, user, phys.bytes), ChainAddrs(parts, user, phys.bytes), s0, s1, phys.bytes.Length)
    requires |ChainAddrs(parts, user, phys.bytes)| == n && |m| == phys.bytes.Length
    requires Mapped(m, ChainAddrs(parts, user, phys.bytes))
    requires Mapped(user[..], rest[..n])
    requires Load(m, ChainAddrs(parts, user, phys.bytes)) == Initial(write, user[..], rest[..n])
    requires Untouched(m, phys.bytes[..], s1)
    requires p.bio.Valid() && p.iter.Valid() && p.iter.dataSource == write
    requires p.bio.table as object != user && p.bio.table as object != phys.bytes
    requires Bounces(p, user[..], phys.bytes[..], rest[n..], s1, phys.inUse)
    ensures Bounced(parts + [p], user, phys, write, rest, n + p.bio.size, s0)
  {
    hide Owns, Walk, Phys, RestOf, ChainAddrs, ChainPages, ChainSlices, Load, Initial, Untouched, Distinct;
    var all, a := parts + [p], ChainAddrs(parts, user, phys.bytes);
    SlicesMapped(user[..], rest, n);
    assert PartsOk(all, user, phys.bytes) by {
      assert |p.iter.Rest()| == p.iter.count;
    }
    ChainStep(all, user, phys.bytes, |parts|);
    assert all[..|parts|] == parts && all[..|parts| + 1] == all;
    LoadKept(m, phys.bytes[..], ChainPages(parts, user, phys.bytes), a, s0, s1);
    InitialTwice(write, user[..], phys.bytes[..], rest, n, p.bio.size, a, Phys(p.bio.Vecs()));
    OwnsBoth(ChainPages(parts, user, phys.bytes), a, Walk(p.bio.Vecs()), Phys(p.bio.Vecs()), s0, s1, phys.inUse,
             phys.bytes.Length);
  }

  /** User memory never faults while the chain is undone. */
  ghost predicate NoFaults(undo: nat -> nat -> nat -> nat) {
    forall i, j, k :: undo(i)(j)(k) != 0
  }

  /** unmap_rq: what earlier rounds bounced is unmapped, in process context. */
  method CopyUndo(rq: CopyRequest, user: array<Byte>, phys: PhysMem, write: bool, undo: nat -> nat -> nat -> nat,
                  ghost s0: set<nat>)
    requires PartsOk(rq.parts, user, phys.bytes) && user != phys.bytes
    requires forall p :: p in rq.parts ==> p.iter.dataSource == write
    requires Owns(ChainPages(rq.parts, user, phys.bytes), ChainAddrs(rq.parts, user, phys.bytes),
                  s0, phys.inUse, phys.bytes.Length)
    requires Mapped(phys.bytes[..], ChainAddrs(rq.parts, user, phys.bytes))
    modifies rq, phys, phys.bytes, user
    ensures rq.parts == [] && phys.inUse == s0 && phys.bytes[..] == old(phys.bytes[..])
    ensures Outside(old(user[..]), user[..], old(ChainSlices(rq.parts, user, phys.bytes)))
    ensures write ==> user[..] == old(user[..])
    ensures !write && NoFaults(undo) ==>
      Ferried(true, old(user[..]), user[..], phys.bytes[..], phys.bytes[..],
              old(ChainSlices(rq.parts, user, phys.bytes)), old(ChainAddrs(rq.parts, user, phys.bytes)))
  {
    hide Owns, Walk, Phys, RestOf, ChainAddrs, ChainPages, ChainSlices, Distinct, Outside, Ferried, PartsOk;
    ObjectsApart(rq.parts, user, phys);
    OwnsUndone(ChainPages(rq.parts, user, phys.bytes), ChainAddrs(rq.parts, user, phys.bytes), s0, phys.inUse,
               phys.bytes.Length);
    var r;
    ghost var us;
    r, us := UnmapCopied(rq.parts, user, phys, !write, true, undo);
    rq.parts := [];
  }

  lemma IterApart(parts: seq<Part>, user: array<Byte>, phys: array<Byte>, it: Iter, rq: CopyRequest)
    requires PartsOk(parts, user, phys) && forall p :: p in parts ==> p.iter != it
    ensures it as object !in Objects(parts) && rq as object !in Objects(parts)
  {
  }

  /** One round: the next bio joins the chain, or the whole chain is unmapped again. */
  method CopyNext(rq: CopyRequest, it: Iter, user: array<Byte>, phys: PhysMem, l: Limits, luck: CopyLuck,
                  undo: nat -> nat -> nat -> nat, ghost rest: seq<nat>, ghost n: nat, ghost s0: set<nat>)
    returns (ret: int)
    requires it.Valid() && it.kind.IovecIter? && 0 < it.count <= UINT_MAX && ValidLimits(l) && user != phys.bytes
    requires Bounced(rq.parts, user, phys, it.dataSource, rest, n, s0) && it.Rest() == rest[n..]
    requires forall p :: p in rq.parts ==> p.iter != it
    modifies rq, it, phys, phys.bytes, user
    ensures it.Valid()
    ensures ret == 0 ==>
      && it.count < old(it.count) && it.Consumed(old(it.count) - it.count)
      && Bounced(rq.parts, user, phys, it.dataSource, rest, n + old(it.count) - it.count, s0)
      && (forall p :: p in rq.parts ==> p.iter != it)
      && user[..] == old(user[..])
    ensures ret != 0 ==> rq.parts == [] && phys.inUse == s0 && Outside(old(user[..]), user[..], rest[..n])
    ensures ret != 0 && it.dataSource ==> user[..] == old(user[..])
    ensures ret != 0 && !it.dataSource && NoFaults(undo) ==> Zeroed(old(user[..]), user[..], rest, n)
    ensures ret == 0 ==>
      && rq.parts != [] && old(phys.inUse) <= phys.inUse
      && var size := old(it.count) - it.count;
      && WholePages(size, old(it.count)) && size / 512 <= l.maxSectors
    ensures CopyOutcome(l, luck, old(it.nrSegs), old(rq.parts) == [] || luck.mergeOk, it.dataSource, old(phys.inUse),
                        phys.bytes.Length, old(it.count), it.count, ret)
    ensures ret == 0 ==> phys.inUse <= old(phys.inUse) + set i | 0 <= i < PagesFor(old(it.count)) :: luck.picks(i)
    ensures Untouched(old(phys.bytes[..]), phys.bytes[..], old(phys.inUse))
  {
    hide Owns, Walk, Phys, RestOf, ChainAddrs, ChainPages, ChainSlices, Load, Initial, Untouched, Distinct, Outside,
         Bounces, CopyOutcome, RefusesPage;
    hide TotalLen, TableOk, Decode, Positive, Ferried, Wf, PartsOk, Mapped, Bio.Vecs, CopyCanFail, Obeys, WholePages,
         Refused;
    ghost var parts, m, s1 := rq.parts, phys.bytes[..], phys.inUse;
    ObjectsApart(rq.parts, user, phys);
    IterApart(rq.parts, user, phys.bytes, it, rq);
    SlicesMapped(user[..], rest, n);
    ret := CopyOneBio(rq, it, user, phys, l, luck);
    if ret == 0 {
      assert rq.parts == parts + [rq.parts[|parts|]];
      BouncesSome(rq.parts[|parts|], user[..], phys.bytes[..], rest[n..], s1, phys.inUse);
      ObeysSize(rq.parts[|parts|].bio, l);
      BouncedMore(parts, rq.parts[|parts|], user, phys, it.dataSource, rest, n, s0, s1, m);
    } else {
      LoadKept(m, phys.bytes[..], ChainPages(parts, user, phys.bytes), ChainAddrs(parts, user, phys.bytes), s0, s1);
      UndoBounced(rq, user, phys, it.dataSource, undo, rest, n, s0);
    }
  }

  /** A failure undoes what the rounds before have bounced. */
  method UndoBounced(rq: CopyRequest, user: array<Byte>, phys: PhysMem, write: bool, undo: nat -> nat -> nat -> nat,
                     ghost rest: seq<nat>, ghost n: nat, ghost s0: set<nat>)
    requires Bounced(rq.parts, user, phys, write, rest, n, s0) && user != phys.bytes
    modifies rq, phys, phys.bytes, user
    ensures rq.parts == [] && phys.inUse == s0 && phys.bytes[..] == old(phys.bytes[..])
    ensures Outside(old(user[..]), user[..], rest[..n])
    ensures write ==> user[..] == old(user[..])
    ensures !write && NoFaults(undo) ==> Zeroed(old(user[..]), user[..], rest, n)
  {
    hide Owns, ChainAddrs, ChainPages, ChainSlices, Load, Initial, Outside, Ferried, PartsOk, Zeroed, NoFaults;
    ghost var u0, addrs := user[..], ChainAddrs(rq.parts, user, phys.bytes);
    CopyUndo(rq, user, phys, write, undo, s0);
    if !write && NoFaults(undo) {
      FerriedZeros(u0, user[..], phys.bytes[..], rest, n, addrs);
    }
  }

  /** The first n of the listed bytes are zero now, and no other byte is different. */
  ghost predicate Zeroed(u: seq<Byte>, u': seq<Byte>, rest: seq<nat>, n: nat) {
    n <= |rest| && Mapped(u, rest[..n]) && u' == Store(u, rest[..n], Zeros(n))
  }

  lemma FerriedZeros(u: seq<Byte>, u': seq<Byte>, m: seq<Byte>, rest: seq<nat>, n: nat, addrs: seq<nat>)
    requires n <= |rest| && |addrs| == n && Ferried(true, u, u', m, m, rest[..n], addrs)
    requires Mapped(m, addrs) && Mapped(u, rest[..n]) && Load(m, addrs) == Initial(false, u, rest[..n])
    ensures Zeroed(u, u', rest, n)
  {
    hide Store, Load;
  }

  lemma {:induction false} StoreZeros(u: seq<Byte>, addrs: seq<nat>)
    requires Mapped(u, addrs)
    ensures var u' := Store(u, addrs, Zeros(|addrs|));
            forall k :: 0 <= k < |addrs| ==> u'[addrs[k]] == 0
    decreases |addrs|
  {
    if addrs != [] {
      var u1 := u[addrs[0] := 0];
      assert Zeros(|addrs|)[1..] == Zeros(|addrs| - 1);
      StoreZeros(u1, addrs[1..]);
      var u' := Store(u, addrs, Zeros(|addrs|));
      forall k | 0 <= k < |addrs| ensures u'[addrs[k]] == 0 {
        if k > 0 {
          assert addrs[k] == addrs[1..][k - 1];
        } else if addrs[0] in addrs[1..] {
          var j :| 0 <= j < |addrs| - 1 && addrs[1..][j] == addrs[0];
        }
      }
    }
  }

  /** A failed read mapping leaves the user's memory as it was exactly when the bytes it had bounced were zero. */
  lemma {:induction false} ZeroedUnchangedIff(u: seq<Byte>, u': seq<Byte>, rest: seq<nat>, n: nat)
    requires Zeroed(u, u', rest, n)
    ensures u' == u <==> forall k :: 0 <= k < n ==> u[rest[k]] == 0
  {
    hide Store, Zeros;
    var addrs := rest[..n];
    StoreZeros(u, addrs);
    if forall k :: 0 <= k < n ==> u[rest[k]] == 0 {
      forall x | 0 <= x < |u| ensures u'[x] == u[x] {
        if x in addrs {
          var k :| 0 <= k < n && addrs[k] == x;
        }
      }
    } else {
      var k :| 0 <= k < n && u[rest[k]] != 0;
      assert addrs[k] == rest[k];
    }
  }

  /** What the allocator came up with in the first k rounds, of up to `pages` pages each. */
  ghost function Picked(lucks: nat -> CopyLuck, k: nat, pages: nat): set<nat> {
    set j, i | 0 <= j < k && 0 <= i < pages :: lucks(j).picks(i)
  }

  /** No page: the frame for page i of round k was in use before, was handed out since, or does not exist. */
  ghost predicate NoPage(lucks: nat -> CopyLuck, s0: set<nat>, cap: nat, pages: nat, k: nat, i: nat) {
    var p := lucks(k).picks(i);
    || p in s0 || (p + 1) * PAGE_SIZE > cap || p in Picked(lucks, k, pages)
    || exists j :: 0 <= j < i && lucks(k).picks(j) == p
  }

  /** What makes round k fail with `err`. */
  ghost predicate CopyCause(lucks: nat -> CopyLuck, k: nat, nrSegs: nat, write: bool, s0: set<nat>, cap: nat,
                            pages: nat,
                            err: int)
  {
    || (err == ENOMEM &&
          (Refused(lucks(k), nrSegs) || exists i :: 0 <= i < pages && NoPage(lucks, s0, cap, pages, k, i)))
    || (err == EFAULT && write && exists i, j :: lucks(k).faults(i)(j) == 0)
    || (err == EINVAL && k > 0 && !lucks(k).mergeOk)
  }

  lemma {:induction false} CauseOf(lucks: nat -> CopyLuck, l: Limits, k: nat, n: nat, nr: nat, nrSegs: nat, write: bool,
                                   used: set<nat>, s0: set<nat>, cap: nat, want: nat, total: nat, err: int)
    requires CopyCanFail(lucks(k), nr, k == 0 || lucks(k).mergeOk, write, used, cap, want, err)
    requires nr <= nrSegs && want <= total && CopyAccount(lucks, l, k, n, total, used, s0)
    ensures CopyCause(lucks, k, nrSegs, write, s0, cap, PagesFor(total), err)
  {
    var pages := PagesFor(total);
    assert PagesFor(want) <= pages;
    if err == ENOMEM && !Refused(lucks(k), nr) {
      var i :| 0 <= i < PagesFor(want) && !(
        && lucks(k).picks(i) !in used && (lucks(k).picks(i) + 1) * PAGE_SIZE <= cap
        && forall j :: 0 <= j < i ==> lucks(k).picks(j) != lucks(k).picks(i));
      assert NoPage(lucks, s0, cap, pages, k, i);
    }
  }

  /** The most bytes that the sector limit lets into one bio. */
  function MaxBio(l: Limits): nat {
    l.maxSectors * 512 + 511
  }

  /** k bios hold n bytes of `total`: at least a page each and no more than the limit, in whole pages up to the end. */
  ghost predicate InBios(l: Limits, k: nat, n: nat, total: nat) {
    n <= k * MaxBio(l) && Min(total, k * PAGE_SIZE) <= n <= total && (n == total || n % PAGE_SIZE == 0)
  }

  /** What k successful rounds have in common. */
  ghost predicate CopyAccount(lucks: nat -> CopyLuck, l: Limits, k: nat, n: nat, total: nat, used: set<nat>,
                              s0: set<nat>)
  {
    && used <= s0 + Picked(lucks, k, PagesFor(total))
    && (forall j :: 0 <= j < k ==> !Refused(lucks(j), 0) && (j > 0 ==> lucks(j).mergeOk))
    && k <= n && InBios(l, k, n, total)
  }

  lemma {:induction false} AccountMore(lucks: nat -> CopyLuck, l: Limits, k: nat, n: nat, size: nat, total: nat,
                                       used: set<nat>, used': set<nat>, s0: set<nat>)
    requires CopyAccount(lucks, l, k, n, total, used, s0) && n < total && size <= total - n
    requires !Refused(lucks(k), 0) && (k > 0 ==> lucks(k).mergeOk)
    requires WholePages(size, total - n) && size / 512 <= l.maxSectors
    requires used' <= used + set i | 0 <= i < PagesFor(total - n) :: lucks(k).picks(i)
    ensures CopyAccount(lucks, l, k + 1, n + size, total, used', s0)
  {
    hide Refused;
    AccountBytes(k, n, size, total, MaxBio(l));
    PickedMore(lucks, k, PagesFor(total - n), PagesFor(total));
  }

  lemma AccountBytes(k: nat, n: nat, size: nat, total: nat, most: nat)
    requires n <= k * most && size <= most && Min(total, k * PAGE_SIZE) <= n < total && n % PAGE_SIZE == 0
    requires WholePages(size, total - n)
    ensures 0 < size && n + size <= (k + 1) * most && Min(total, (k + 1) * PAGE_SIZE) <= n + size <= total
    ensures n + size == total || (n + size) % PAGE_SIZE == 0
    ensures PagesFor(total - n) <= PagesFor(total)
  {
    assert (k + 1) * most == k * most + most;
  }

  lemma PickedMore(lucks: nat -> CopyLuck, k: nat, some: nat, pages: nat)
    requires some <= pages
    ensures Picked(lucks, k, pages) + (set i | 0 <= i < some :: lucks(k).picks(i)) <= Picked(lucks, k + 1, pages)
  {
  }

  lemma AccountFacts(lucks: nat -> CopyLuck, l: Limits, k: nat, n: nat, total: nat, used: set<nat>, s0: set<nat>)
    requires CopyAccount(lucks, l, k, n, total, used, s0)
    ensures k <= n <= total && InBios(l, k, n, total)
    ensures forall j :: 0 <= j < k ==> !Refused(lucks(j), 0) && (j > 0 ==> lucks(j).mergeOk)
    ensures k == 0 <==> n == 0
  {
    if k == 0 {
      assert k * MaxBio(l) == 0;
    }
  }

  /**
   blk_rq_map_user_iov on the copying path. It ends; on success the chain's own fresh
   pages hold the user's bytes in order (zeros for a read) and its slices are the user's
   bytes; on failure every page is free again, and something went wrong in the round after
   the successful ones. The n bytes that these have bounced come back as zeros when the
   request reads.
   */
  method MapUserCopy(rq: CopyRequest, iter: Iter, user: array<Byte>, phys: PhysMem, l: Limits,
                     lucks: nat -> CopyLuck, undo: nat -> nat -> nat -> nat)
    returns (ret: int, ghost rounds: nat, ghost n: nat)
    requires rq.parts == [] && iter.Valid() && iter.kind.IovecIter? && 0 < iter.count <= UINT_MAX && ValidLimits(l)
    requires user != phys.bytes && Mapped(user[..], iter.Rest())
    modifies rq, phys, phys.bytes, user
    ensures ret == 0 ==>
      && user[..] == old(user[..])
      && Bounced(rq.parts, user, phys, iter.dataSource, iter.Rest(), iter.count, old(phys.inUse))
    ensures ret != 0 ==>
      rq.parts == [] && phys.inUse == old(phys.inUse) && Outside(old(user[..]), user[..], iter.Rest())
    ensures ret != 0 && iter.dataSource ==> user[..] == old(user[..])
    ensures ret != 0 && !iter.dataSource && NoFaults(undo) ==> Zeroed(old(user[..]), user[..], iter.Rest(), n)
    ensures rounds <= n <= iter.count && (rounds == 0 <==> n == 0) && (ret == 0 <==> n == iter.count)
    ensures InBios(l, rounds, n, iter.count)
    ensures RoomyPages(l, iter.count) ==> rounds == if ret == 0 then 1 else 0
    ensures forall k :: 0 <= k < rounds ==> !Refused(lucks(k), 0) && (k > 0 ==> lucks(k).mergeOk)
    ensures ret == 0 || CopyCause(lucks, rounds, iter.nrSegs, iter.dataSource, old(phys.inUse), phys.bytes.Length,
                                  PagesFor(iter.count), ret)
    ensures ret != 0 && Refused(lucks(rounds), 0) ==> ret == ENOMEM
    ensures iter.nrSegs > UIO_MAXIOV || Refused(lucks(0), 0) ==> ret == ENOMEM && rounds == 0
    ensures Untouched(old(phys.bytes[..]), phys.bytes[..], old(phys.inUse))
  {
    hide RestOf, Bounced, Untouched, Outside, PartsOk, Load, Zeroed, NoFaults, CopyAccount, CopyCause, Refused, InBios,
         PagesFor, Copying, RoomyPages;
    var i := new Iter.Copy(iter);
    ghost var rest, u0, m0, s0 := i.Rest(), user[..], phys.bytes[..], phys.inUse;
    rounds, n := 0, 0;
    CopyingStarts(rq, i, user, phys, l, lucks);
    var k: nat := 0;
    while true
      invariant i.Valid() && 0 < i.count == iter.count - n && rounds == k && (k == 0 ==> n == 0)
      invariant k > 0 ==> !RoomyPages(l, iter.count)
      invariant Copying(rq, i, user, phys, l, lucks, rest, iter.nrSegs, k, n, u0, m0, s0)
      decreases i.count
    {
      ghost var s1 := phys.inUse;
      ret, n := CopyTurn(rq, i, user, phys, l, lucks, undo, k, n, rest, iter.nrSegs, u0, m0, s0);
      if ret != 0 {
        AccountFacts(lucks, l, k, n, iter.count, s1, s0);
        return;
      }
      k, rounds := k + 1, rounds + 1;
      if i.count == 0 {
        break;
      }
    }
    CopyingEnds(rq, i, user, phys, l, lucks, rest, iter.nrSegs, k, n, u0, m0, s0);
    AccountFacts(lucks, l, k, n, iter.count, phys.inUse, s0);
  }

  /**
   What holds between the rounds: the chain bounces the first n bytes, and user memory and the
   frames in use before are untouched.
   */
  ghost predicate Copying(rq: CopyRequest, i: Iter, user: array<Byte>, phys: PhysMem, l: Limits, lucks: nat -> CopyLuck,
                          rest: seq<nat>, nrSegs: nat, k: nat, n: nat, u0: seq<Byte>, m0: seq<Byte>, s0: set<nat>)
    reads rq, Objects(rq.parts), i, user, phys, phys.bytes
  {
    && i.Valid() && n <= |rest| && i.Rest() == rest[n..] && user[..] == u0 && s0 <= phys.inUse
    && (k == 0 <==> rq.parts == []) && i.nrSegs <= nrSegs
    && (if k == 0 then i.nrSegs == nrSegs && n == 0 else nrSegs <= UIO_MAXIOV)
    && Bounced(rq.parts, user, phys, i.dataSource, rest, n, s0) && (forall p :: p in rq.parts ==> p.iter != i)
    && CopyAccount(lucks, l, k, n, |rest|, phys.inUse, s0) && Untouched(m0, phys.bytes[..], s0)
  }

  lemma CopyingStarts(rq: CopyRequest, i: Iter, user: array<Byte>, phys: PhysMem, l: Limits, lucks: nat -> CopyLuck)
    requires rq.parts == [] && i.Valid() && Mapped(user[..], i.Rest())
    ensures Copying(rq, i, user, phys, l, lucks, i.Rest(), i.nrSegs, 0, 0, user[..], phys.bytes[..], phys.inUse)
  {
    hide RestOf;
    BouncedNothing(user, phys, i.dataSource, i.Rest());
    UntouchedNothing(phys.bytes[..], phys.inUse);
    assert i.Rest()[0..] == i.Rest();
  }

  lemma CopyingEnds(rq: CopyRequest, i: Iter, user: array<Byte>, phys: PhysMem, l: Limits, lucks: nat -> CopyLuck,
                    rest: seq<nat>, nrSegs: nat, k: nat, n: nat, u0: seq<Byte>, m0: seq<Byte>, s0: set<nat>)
    requires Copying(rq, i, user, phys, l, lucks, rest, nrSegs, k, n, u0, m0, s0)
    ensures i.Valid() && user[..] == u0 && Bounced(rq.parts, user, phys, i.dataSource, rest, n, s0)
    ensures Untouched(m0, phys.bytes[..], s0) && CopyAccount(lucks, l, k, n, |rest|, phys.inUse, s0)
    ensures k > 0 ==> nrSegs <= UIO_MAXIOV
  {
    hide Bounced, Untouched, CopyAccount;
  }

  /** One round, with the account of all of them. */
  method CopyTurn(rq: CopyRequest, i: Iter, user: array<Byte>, phys: PhysMem, l: Limits, lucks: nat -> CopyLuck,
                  undo: nat -> nat -> nat -> nat, k: nat, ghost n: nat, ghost rest: seq<nat>, ghost nrSegs: nat,
                  ghost u0: seq<Byte>, ghost m0: seq<Byte>, ghost s0: set<nat>)
    returns (ret: int, ghost n': nat)
    requires i.Valid() && i.kind.IovecIter? && 0 < i.count <= UINT_MAX && ValidLimits(l) && user != phys.bytes
    requires Copying(rq, i, user, phys, l, lucks, rest, nrSegs, k, n, u0, m0, s0)
    modifies rq, i, phys, phys.bytes, user
    ensures i.Valid()
    ensures ret == 0 ==>
      && i.count < old(i.count) && n' == n + (old(i.count) - i.count)
      && Copying(rq, i, user, phys, l, lucks, rest, nrSegs, k + 1, n', u0, m0, s0)
    ensures ret != 0 ==>
      && n' == n && rq.parts == [] && phys.inUse == s0 && Outside(u0, user[..], rest)
      && CopyAccount(lucks, l, k, n, |rest|, old(phys.inUse), s0)
      && CopyCause(lucks, k, nrSegs, i.dataSource, s0, phys.bytes.Length, PagesFor(|rest|), ret)
      && (k > 0 ==> nrSegs <= UIO_MAXIOV)
    ensures ret != 0 && i.dataSource ==> user[..] == u0
    ensures ret != 0 && !i.dataSource && NoFaults(undo) ==> Zeroed(u0, user[..], rest, n)
    ensures Refused(lucks(k), 0) || (k == 0 && nrSegs > UIO_MAXIOV) ==> ret == ENOMEM
    ensures ret == 0 && RoomyPages(l, old(i.count)) ==> i.count == 0
    ensures Untouched(m0, phys.bytes[..], s0)
  {
    hide RestOf, Bounced, Untouched, Outside, PartsOk, Load, Zeroed, NoFaults, CopyAccount, CopyCause, CopyCanFail,
         WholePages, PagesFor, RoomyPages;
    ghost var m1, c1, s1 := phys.bytes[..], i.Where(), phys.inUse;
    ret := CopyNext(rq, i, user, phys, l, lucks(k), undo, rest, n, s0);
    UntouchedTwice(m0, m1, phys.bytes[..], s0, s1);
    n' := n;
    if ret != 0 {
      CauseOf(lucks, l, k, n, c1.nrSegs, nrSegs, i.dataSource, s1, s0, phys.bytes.Length, c1.count, |rest|, ret);
      OutsideMore(u0, user[..], rest, n);
    } else {
      SegForward(i.vec, c1, i.Where());
      AccountMore(lucks, l, k, n, c1.count - i.count, |rest|, s1, phys.inUse, s0);
      n' := n + (c1.count - i.count);
    }
  }

  /** A cursor that moved on did not go back to an earlier segment. */
  lemma {:induction false} SegForward(v: seq<Segment>, c: Cur, c': Cur)
    requires Wf(v, c) && Wf(v, c') && Pos(v, c) < Pos(v, c')
    ensures c.seg <= c'.seg
  {
    if c'.seg < c.seg {
      StartMono(v, c'.seg + 1, c.seg);
    }
  }

  lemma UntouchedTwice(m0: seq<Byte>, m1: seq<Byte>, m2: seq<Byte>, s0: set<nat>, s1: set<nat>)
    requires Untouched(m0, m1, s0) && Untouched(m1, m2, s1) && s0 <= s1
    ensures Untouched(m0, m2, s0)
  {
  }

  lemma OutsideMore(u: seq<Byte>, u': seq<Byte>, rest: seq<nat>, n: nat)
    requires n <= |rest| && Outside(u, u', rest[..n])
    ensures Outside(u, u', rest)
  {
  }

  /** In the first round there is memory for a bio and two pages, in the second one there is none. */
  function ShortOfMemory(k: nat): CopyLuck {
    CopyLuck(k == 0, true, (i: nat) => i, _ => Policy(false, false), _ => _ => 1, true)
  }

  /**
   A read of two pages on a queue whose requests carry one page a bio: the second bio finds no
   memory, the mapping fails, and the user's first page has become zero.
   */
  method SecondRoundFails(user: array<Byte>, phys: PhysMem, q: Queue) returns (ret: int)
    requires ValidQueue(q) && q.maxSegments > 0 && user != phys.bytes && user.Length >= 8192
    requires phys.Free(0) && phys.Free(1)
    modifies phys, phys.bytes, user
    ensures ret == ENOMEM && phys.inUse == old(phys.inUse)
    ensures user[..] == Zeros(4096) + old(user[4096..])
  {
    hide Refused, CopyCause, Zeroed, Outside, Untouched, Bounced, NoFaults, RestOf, Flat, InBios, ShortOfMemory, Zeros,
         Range, PagesFor, Start, Load, Initial;
    var rq := new CopyRequest();
    OneSegment(8192);
    var iter := new Iter(IovecIter, false, [Segment(0, 8192)], 8192);
    ghost var u0, s0 := user[..], phys.inUse;
    ghost var rounds, n;
    var undo: nat -> nat -> nat -> nat := _ => _ => _ => 1;
    ret, rounds, n := MapUserCopy(rq, iter, user, phys, Limits(q, 8, 1), ShortOfMemory, undo);
    OneRound(q, rounds, n, s0, phys.bytes.Length, ret);
    assert NoFaults(undo) by { NeverFaults(undo); }
    FirstPageZero(u0, user[..], iter.Rest());
  }

  lemma OneSegment(len: nat)
    ensures var v := [Segment(0, len)]; Start(v, 1) == len && Flat(v) == Range(0, len)
  {
    var v := [Segment(0, len)];
    assert FlatTo(v, 1) == FlatTo(v, 0) + Range(0, len);
    assert Start(v, 1) == Start(v, 0) + len;
  }

  lemma NeverFaults(undo: nat -> nat -> nat -> nat)
    requires forall i, j, k :: undo(i)(j)(k) == 1
    ensures NoFaults(undo)
  {
  }

  lemma OneRound(q: Queue, rounds: nat, n: nat, s0: set<nat>, cap: nat, ret: int)
    requires 0 !in s0 && 1 !in s0 && 2 * PAGE_SIZE <= cap
    requires forall k :: 0 <= k < rounds ==> !Refused(ShortOfMemory(k), 0)
    requires InBios(Limits(q, 8, 1), rounds, n, 8192) && (ret == 0 <==> n == 8192)
    requires ret == 0 || CopyCause(ShortOfMemory, rounds, 1, false, s0, cap, PagesFor(8192), ret)
    ensures ret != 0 && rounds == 1 && n == 4096 && Refused(ShortOfMemory(rounds), 0)
  {
    assert Refused(ShortOfMemory(1), 0);
    assert rounds <= 1;
    assert Picked(ShortOfMemory, 0, 2) == {};
  }

  lemma FirstPageZero(u: seq<Byte>, u': seq<Byte>, rest: seq<nat>)
    requires rest == Range(0, 8192) && Zeroed(u, u', rest, 4096)
    ensures |u| >= 4096 && u' == Zeros(4096) + u[4096..]
  {
    hide Store;
    assert rest[..4096] == Range(0, 4096);
    assert rest[..4096][4095] == 4095;
    StoreRange(u, 0, Zeros(4096));
  }

  /** What was ferried to distinct user addresses is what these addresses then hold. */
  lemma {:induction false} FerriedIn(u: seq<Byte>, u': seq<Byte>, m: seq<Byte>, rest: seq<nat>, addrs: seq<nat>)
    requires Ferried(true, u, u', m, m, rest, addrs) && Distinct(rest)
    ensures Mapped(m, addrs) && Mapped(u', rest) && Load(u', rest) == Load(m, addrs)
  {
    LoadAfterStore(u, rest, Load(m, addrs));
  }

  /**
   The end of a bounced request. Whatever the device has left in the chain's pages is,
   byte for byte and in order, what the user's bytes are after a read, and nothing else
   of the user's memory changes; every bounce page is free again in all cases.
   */
  method CompleteCopied(parts: seq<Part>, user: array<Byte>, phys: PhysMem, write: bool, hasMm: bool,
                        faults: nat -> nat -> nat -> nat, ghost rest: seq<nat>, ghost s0: set<nat>)
    returns (ret: int)
    requires PartsOk(parts, user, phys.bytes) && user != phys.bytes
    requires forall p :: p in parts ==> p.iter.dataSource == write
    requires ChainSlices(parts, user, phys.bytes) == rest && Mapped(phys.bytes[..], ChainAddrs(parts, user, phys.bytes))
    requires Owns(ChainPages(parts, user, phys.bytes), ChainAddrs(parts, user, phys.bytes),
                  s0, phys.inUse, phys.bytes.Length)
    modifies user, phys, phys.bytes
    ensures phys.inUse == s0 && Outside(old(user[..]), user[..], rest)
    ensures write || !hasMm ==> user[..] == old(user[..])
    ensures !write && hasMm && ret == 0 && Distinct(rest) ==>
      && Mapped(user[..], rest)
      && Load(user[..], rest) == old(Load(phys.bytes[..], ChainAddrs(parts, user, phys.bytes)))
    ensures hasMm && ret != 0 ==> !write && ret == EFAULT && exists i, j, k :: faults(i)(j)(k) == 0
    ensures !hasMm ==> ret == if parts == [] then 0 else EINTR
  {
    hide Owns, Walk, Phys, RestOf, ChainAddrs, ChainPages, ChainSlices, Distinct, Outside, Ferried, Load, PartsOk;
    ghost var u0, pages := user[..], ChainPages(parts, user, phys.bytes);
    ghost var addrs := ChainAddrs(parts, user, phys.bytes);
    ObjectsApart(parts, user, phys);
    OwnsUndone(pages, addrs, s0, phys.inUse, phys.bytes.Length);
    ghost var us;
    ret, us := UnmapCopied(parts, user, phys, !write, hasMm, faults);
    if !write && hasMm && ret == 0 && Distinct(rest) {
      FerriedIn(u0, user[..], phys.bytes[..], rest, addrs);
    }
  }
}
