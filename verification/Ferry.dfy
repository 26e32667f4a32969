/** Kernel pages, and copies between a user iterator and the pages of a bio. */
module Ferry {
  import opened Params
  import opened Memory
  import opened Cursor
  import opened IovIter
  import opened UserPages
  import opened Bvecs
  import opened Bios

  /** Physical memory and the frames handed out by the page allocator. */
  class PhysMem {
    const bytes: array<Byte>
    var inUse: set<nat>

    constructor (frames: nat)
      ensures fresh(bytes) && bytes.Length == frames * PAGE_SIZE && inUse == {}
    {
      bytes := new Byte[frames * PAGE_SIZE](_ => 0);
      inUse := {};
    }

    predicate Free(page: nat)
      reads this
    {
      page !in inUse && (page + 1) * PAGE_SIZE <= bytes.Length
    }

    /** alloc_page: `pick` is the frame the allocator comes up with; a frame that is not free stands for none. */
    method AllocPage(pick: nat) returns (ok: bool)
      modifies this
      ensures ok == old(Free(pick))
      ensures inUse == old(inUse) + if ok then {pick} else {}
    {
      ok := Free(pick);
      if ok {
        inUse := inUse + {pick};
      }
    }

    method FreePage(page: nat)
      requires page in inUse
      modifies this
      ensures inUse == old(inUse) - {page}
    {
      inUse := inUse - {page};
    }
  }

  /** A copy between listed user addresses and listed physical addresses, one for one. */
  ghost predicate Ferried(toIter: bool, user: seq<Byte>, user': seq<Byte>, phys: seq<Byte>, phys': seq<Byte>,
                          ua: seq<nat>, pa: seq<nat>)
  {
    && |ua| == |pa| && Mapped(user, ua) && Mapped(phys, pa)
    && if toIter then phys' == phys && user' == Store(user, ua, Load(phys, pa))
       else user' == user && phys' == Store(phys, pa, Load(user, ua))
  }

  lemma FerriedNothing(toIter: bool, user: seq<Byte>, phys: seq<Byte>)
    ensures Ferried(toIter, user, user, phys, phys, [], [])
  {
  }

  lemma {:induction false} MovedIsFerried(toIter: bool, user: seq<Byte>, user': seq<Byte>, phys: seq<Byte>,
                                          phys': seq<Byte>, at: nat, addrs: seq<nat>)
    requires Moved(toIter, user, user', phys, phys', at, addrs)
    ensures Ferried(toIter, user, user', phys, phys', addrs, Range(at, |addrs|))
  {
    hide Store;
    assert Load(phys, Range(at, |addrs|)) == phys[at..at + |addrs|];
  }

  lemma {:induction false} FerriedTwice(toIter: bool, u0: seq<Byte>, u1: seq<Byte>, u2: seq<Byte>,
                                        p0: seq<Byte>, p1: seq<Byte>, p2: seq<Byte>,
                                        ua: seq<nat>, pa: seq<nat>, ub: seq<nat>, pb: seq<nat>)
    requires Ferried(toIter, u0, u1, p0, p1, ua, pa) && Ferried(toIter, u1, u2, p1, p2, ub, pb)
    ensures Ferried(toIter, u0, u2, p0, p2, ua + ub, pa + pb)
  {
    hide Store, Load;
    assert |u1| == |u0| && |p1| == |p0|;
    if toIter {
      assert Load(p0, pa + pb) == Load(p0, pa) + Load(p0, pb);
      StoreConcat(u0, ua, ub, Load(p0, pa), Load(p0, pb));
    } else {
      assert Load(u0, ua + ub) == Load(u0, ua) + Load(u0, ub);
      StoreConcat(p0, pa, pb, Load(u0, ua), Load(u0, ub));
    }
  }

  lemma {:induction false} BytesPrefix(ps: seq<Piece>, k: nat)
    requires k < |ps|
    ensures var n := |BytesOf(ps[..k])|;
            && n + ps[k].len <= |BytesOf(ps)|
            && BytesOf(ps)[..n] == BytesOf(ps[..k]) && BytesOf(ps)[n..n + ps[k].len] == PieceBytes(ps[k])
            && BytesOf(ps[..k + 1]) == BytesOf(ps[..k]) + PieceBytes(ps[k])
  {
    assert ps == ps[..k + 1] + ps[k + 1..];
    BytesConcat(ps[..k + 1], ps[k + 1..]);
    assert ps[..k + 1][..k] == ps[..k];
  }

  /** One page of the loops below: copied, or cut short by a fault. */
  method FerryPiece(toIter: bool, p: Piece, it: Iter, user: array<Byte>, phys: array<Byte>, faults: nat -> nat,
                    ghost u0: seq<Byte>, ghost p0: seq<Byte>, ghost all: seq<nat>, ghost done: nat, ghost pa: seq<nat>)
    returns (r: nat)
    requires it.Valid() && toIter != it.dataSource && user != phys && InPage(p)
    requires done <= |all| && it.Rest() == all[done..] && Mapped(u0, all)
    requires p.page * PAGE_SIZE + p.off + p.len <= phys.Length
    requires Ferried(toIter, u0, user[..], p0, phys[..], all[..done], pa)
    modifies it, user, phys
    ensures r <= p.len && it.Consumed(r) && done + r <= |all| && it.Rest() == all[done + r..]
    ensures Ferried(toIter, u0, user[..], p0, phys[..], all[..done + r], pa + PieceBytes(p)[..r])
    ensures r < Min(p.len, old(it.count)) ==> it.UserBacked() && exists j :: faults(j) == 0
  {
    hide RestOf, Ferried, Moved;
    ghost var u1, p1 := user[..], phys[..];
    FerriedLengths(toIter, u0, u1, p0, p1, all[..done], pa);
    MappedRest(u0, u1, all, done, Min(p.len, it.count), |all|);
    r := it.CopyPage(toIter, user, phys, p.page, p.off, p.len, PAGE_SIZE, faults);
    MovedIsFerried(toIter, u1, user[..], p1, phys[..], p.page * PAGE_SIZE + p.off, all[done..][..r]);
    SliceTwice(all, done, r);
    PieceStart(p, r);
    FerriedTwice(toIter, u0, u1, user[..], p0, p1, phys[..], all[..done], pa, all[done..][..r], PieceBytes(p)[..r]);
  }

  lemma SliceTwice(s: seq<nat>, m: nat, n: nat)
    requires m + n <= |s|
    ensures s[..m] + s[m..][..n] == s[..m + n]
  {
  }

  lemma PieceStart(p: Piece, n: nat)
    requires n <= p.len
    ensures Range(p.page * PAGE_SIZE + p.off, n) == PieceBytes(p)[..n]
  {
  }

  lemma FerriedLengths(toIter: bool, u0: seq<Byte>, u1: seq<Byte>, p0: seq<Byte>, p1: seq<Byte>, ua: seq<nat>,
                       pa: seq<nat>)
    requires Ferried(toIter, u0, u1, p0, p1, ua, pa)
    ensures |u1| == |u0| && |p1| == |p0|
  {
  }

  /**
   bio_copy_from_iter and bio_copy_to_iter, over the per-page stretches of a bio that is
   no longer than the iterator: everything is copied, or a fault stops it part-way.
   */
  method FerryBio(toIter: bool, ps: seq<Piece>, it: Iter, user: array<Byte>, phys: array<Byte>,
                  faults: nat -> nat -> nat)
    returns (ret: int, ghost n: nat)
    requires it.Valid() && toIter != it.dataSource && user != phys
    requires forall k :: 0 <= k < |ps| ==> InPage(ps[k])
    requires |BytesOf(ps)| <= it.count && Mapped(user[..], it.Rest()) && Mapped(phys[..], BytesOf(ps))
    modifies it, user, phys
    ensures n <= |BytesOf(ps)| && it.Consumed(n)
    ensures Ferried(toIter, old(user[..]), user[..], old(phys[..]), phys[..], old(it.Rest())[..n], BytesOf(ps)[..n])
    ensures if ret == 0 then n == |BytesOf(ps)|
            else ret == EFAULT && it.UserBacked() && exists i, j :: faults(i)(j) == 0
  {
    hide RestOf, BytesOf, Ferried, Moved;
    ghost var all, bytes, u0, p0, c := it.Rest(), BytesOf(ps), user[..], phys[..], it.Where();
    n := 0;
    FerriedNothing(toIter, u0, p0);
    assert ps[..0] == [];
    NoBytes();
    var k: nat := 0;
    while k < |ps|
      invariant k <= |ps| && n == |BytesOf(ps[..k])| && n <= |bytes|
      invariant it.Valid() && it.count == c.count - n && Pos(it.vec, it.Where()) == Pos(it.vec, c) + n
      invariant it.Rest() == all[n..]
      invariant Ferried(toIter, u0, user[..], p0, phys[..], all[..n], bytes[..n])
    {
      BytesPrefix(ps, k);
      PieceMapped(p0, ps, k);
      FerriedLengths(toIter, u0, user[..], p0, phys[..], all[..n], bytes[..n]);
      var p := ps[k];
      var r := FerryPiece(toIter, p, it, user, phys, faults(k), u0, p0, all, n, bytes[..n]);
      assert bytes[..n + r] == bytes[..n] + bytes[n..n + p.len][..r];
      n := n + r;
      if it.count == 0 {
        return 0, n;
      }
      if r < p.len {
        return EFAULT, n;
      }
      k := k + 1;
    }
    assert ps[..k] == ps;
    ret := 0;
  }

  lemma NoBytes()
    ensures BytesOf([]) == []
  {
  }

  lemma PieceMapped(phys: seq<Byte>, ps: seq<Piece>, k: nat)
    requires k < |ps| && Mapped(phys, BytesOf(ps)) && InPage(ps[k])
    ensures ps[k].page * PAGE_SIZE + ps[k].off + ps[k].len <= |phys|
  {
    hide BytesOf, Range;
    BytesPrefix(ps, k);
    var n, last := |BytesOf(ps[..k])|, ps[k].len - 1;
    var all := BytesOf(ps);
    assert all[n..n + ps[k].len][last] == PieceBytes(ps[k])[last];
    assert all[n + last] < |phys|;
  }
}
