/** bio_truncate and guard_bio_eod: a bio that runs over the end of its device is cut there. */
module GuardEod {
  import opened Params
  import opened Memory
  import opened Bvecs
  import opened Ferry
  import opened Bounce

  const SECTOR: nat := 512

  /**
   A bio as far as these functions see it: the segments from its current position on, of which
   it uses `size` bytes.
   */
  class EodBio {
    const segs: seq<Piece>
    const sector: nat
    const read: bool
    var size: nat

    constructor (segs: seq<Piece>, sector: nat, read: bool, size: nat)
      requires (forall k :: 0 <= k < |segs| ==> InPage(segs[k])) && size <= |BytesOf(segs)| && size <= UINT_MAX
      ensures Valid() && this.segs == segs && this.sector == sector && this.read == read && this.size == size
    {
      this.segs, this.sector, this.read, this.size := segs, sector, read, size;
    }

    ghost predicate Valid()
      reads this
    {
      (forall k :: 0 <= k < |segs| ==> InPage(segs[k])) && size <= |BytesOf(segs)| && size <= UINT_MAX
    }

    /** The physical addresses of the bio's data. */
    ghost function Bytes(): (r: seq<nat>)
      requires Valid()
      reads this
      ensures |r| == size
    {
      BytesOf(segs)[..size]
    }

    /** bio_truncate: what a read loses is zeroed, byte for byte, and nothing else. */
    method Truncate(newSize: nat, phys: array<Byte>)
      requires Valid() && Mapped(phys[..], Bytes())
      modifies `size, phys
      ensures Valid() && size == Min(old(size), newSize)
      ensures phys[..] ==
        if newSize < old(size) && read then Store(old(phys[..]), old(Bytes())[newSize..], Zeros(old(size) - newSize))
        else old(phys[..])
    {
      if newSize >= size {
        return;
      }
      if read {
        ZeroTail(newSize, phys);
      }
      size := newSize;
    }

    /** The loop of bio_truncate over the bio's segments; the last one visited may be cut by the size. */
    method ZeroTail(newSize: nat, phys: array<Byte>)
      requires Valid() && Mapped(phys[..], Bytes()) && newSize < size
      modifies phys
      ensures phys[..] == Store(old(phys[..]), Bytes()[newSize..], Zeros(size - newSize))
    {
      hide BytesOf, Store, Mapped, Zeros, Zeroed;
      ghost var all, p0 := Bytes(), phys[..];
      var done: nat, k: nat, truncated := 0, 0, false;
      assert segs[..0] == [] && BytesOf([]) == [] by { NoBytes(); }
      assert segs[..|segs|] == segs;
      ZeroedNothing(p0, all, newSize, 0);
      while done < size
        invariant k <= |segs| && done == Min(size, |BytesOf(segs[..k])|)
        invariant done < size ==> done == |BytesOf(segs[..k])|
        invariant truncated <==> done > newSize
        invariant Zeroed(p0, phys[..], all, newSize, done)
        decreases size - done
      {
        BytesPrefix(segs, k);
        var p := segs[k];
        var len: nat := Min(p.len, size - done);
        assert all[done..done + len] == PieceBytes(p)[..len] by { Chunk(BytesOf(segs), size, done, len, p); }
        if done + len > newSize {
          var offset := if !truncated then newSize - done else 0;
          ZeroSegment(phys, p, offset, len, p0, all, newSize, done);
          truncated := true;
        } else {
          ZeroedStill(p0, phys[..], all, newSize, done, done + len);
        }
        done := done + len;
        k := k + 1;
      }
      ZeroedAll(p0, phys[..], all, newSize);
    }
  }

  /** Of the bytes up to `done`, those from newSize on are zero now. */
  ghost predicate Zeroed(m: seq<Byte>, m': seq<Byte>, all: seq<nat>, newSize: nat, done: nat) {
    && done <= |all| && |m'| == |m| && Mapped(m, all)
    && m' == if done <= newSize then m else Store(m, all[newSize..done], Zeros(done - newSize))
  }

  lemma ZeroedNothing(m: seq<Byte>, all: seq<nat>, newSize: nat, done: nat)
    requires done <= newSize && done <= |all| && Mapped(m, all)
    ensures Zeroed(m, m, all, newSize, done)
  {
  }

  lemma ZeroedStill(m: seq<Byte>, m': seq<Byte>, all: seq<nat>, newSize: nat, done: nat, done': nat)
    requires Zeroed(m, m', all, newSize, done) && done <= done' <= newSize && done' <= |all|
    ensures Zeroed(m, m', all, newSize, done')
  {
  }

  lemma ZeroedFacts(m: seq<Byte>, m': seq<Byte>, all: seq<nat>, newSize: nat, done: nat)
    requires Zeroed(m, m', all, newSize, done)
    ensures |m'| == |m| && Mapped(m', all)
  {
  }

  lemma {:induction false} ZeroedMore(m: seq<Byte>, m1: seq<Byte>, m2: seq<Byte>, all: seq<nat>, newSize: nat,
                                      done: nat, offset: nat, len: nat)
    requires Zeroed(m, m1, all, newSize, done) && offset < len && done + len <= |all|
    requires offset == if done > newSize then 0 else newSize - done
    requires |m1| == |m| && Mapped(m1, all[done + offset..done + len])
    requires m2 == Store(m1, all[done + offset..done + len], Zeros(len - offset))
    ensures Zeroed(m, m2, all, newSize, done + len)
  {
    hide Store, Zeros;
    if done > newSize {
      StoreConcat(m, all[newSize..done], all[done..done + len], Zeros(done - newSize), Zeros(len));
      assert all[newSize..done] + all[done..done + len] == all[newSize..done + len];
      assert Zeros(done - newSize) + Zeros(len) == Zeros(done + len - newSize);
    }
  }

  lemma ZeroedAll(m: seq<Byte>, m': seq<Byte>, all: seq<nat>, newSize: nat)
    requires Zeroed(m, m', all, newSize, |all|) && newSize < |all|
    ensures m' == Store(m, all[newSize..], Zeros(|all| - newSize))
  {
    assert all[newSize..|all|] == all[newSize..];
  }

  lemma Chunk(bytes: seq<nat>, size: nat, done: nat, len: nat, p: Piece)
    requires done + len <= size <= |bytes| && len <= p.len && done + p.len <= |bytes|
    requires bytes[done..done + p.len] == PieceBytes(p)
    ensures bytes[..size][done..done + len] == PieceBytes(p)[..len]
  {
    assert bytes[done..done + p.len][..len] == bytes[done..done + len];
  }

  /** zero_user on the part of one segment that is past newSize. */
  method ZeroSegment(phys: array<Byte>, p: Piece, offset: nat, len: nat, ghost p0: seq<Byte>, ghost all: seq<nat>,
                     ghost newSize: nat, ghost done: nat)
    requires InPage(p) && offset < len <= p.len && Zeroed(p0, phys[..], all, newSize, done)
    requires done + len <= |all| && all[done..done + len] == PieceBytes(p)[..len]
    requires offset == if done > newSize then 0 else newSize - done
    modifies phys
    ensures Zeroed(p0, phys[..], all, newSize, done + len)
  {
    hide Store, Zeros, Zeroed, Range;
    var part := Piece(p.page, len - offset, p.off + offset);
    ghost var at, m := done + offset, phys[..];
    ZeroedFacts(p0, m, all, newSize, done);
    assert PieceBytes(part) == all[at..done + len] by {
      assert PieceBytes(part) == PieceBytes(p)[..len][offset..];
    }
    assert all[done + len - 1] == PieceBytes(p)[..len][len - 1];
    assert Mapped(m, PieceBytes(part));
    ZeroPiece(phys, part);
    ZeroedMore(p0, m, phys[..], all, newSize, done, offset, len);
  }

  /** What guard_bio_eod leaves of a size, for a device of `maxsector` sectors. */
  function Guarded(sector: nat, size: nat, maxsector: nat): nat {
    if maxsector == 0 || sector >= maxsector || size / SECTOR <= maxsector - sector then size
    else (maxsector - sector) * SECTOR
  }

  /**
   guard_bio_eod. A bio is cut exactly when it starts inside the device and its whole sectors
   run past the end, and it then ends where the device does; the size handed to bio_truncate
   fits its 32-bit parameter.
   */
  method GuardBioEod(bio: EodBio, nrSectors: nat, phys: array<Byte>)
    requires bio.Valid() && Mapped(phys[..], bio.Bytes())
    modifies bio`size, phys
    ensures bio.Valid() && bio.size == Guarded(bio.sector, old(bio.size), nrSectors)
    ensures bio.size <= old(bio.size)
    ensures bio.size < old(bio.size) <==> bio.sector < nrSectors < bio.sector + old(bio.size) / SECTOR
    ensures bio.size < old(bio.size) ==> bio.sector * SECTOR + bio.size == nrSectors * SECTOR
    ensures phys[..] ==
      if bio.read && bio.size < old(bio.size) then
        Store(old(phys[..]), old(bio.Bytes())[bio.size..], Zeros(old(bio.size) - bio.size))
      else old(phys[..])
  {
    hide Store;
    var maxsector := nrSectors;
    if maxsector == 0 || bio.sector >= maxsector {
      return;
    }
    maxsector := maxsector - bio.sector;
    if bio.size / SECTOR <= maxsector {
      return;
    }
    assert maxsector * SECTOR < bio.size;
    bio.Truncate(Wrap32(maxsector * SECTOR), phys);
  }

  /** When the bio's bytes are distinct, the truncated ones read as zero and the earlier ones as before. */
  lemma {:induction false} TailZeroHeadKept(m: seq<Byte>, all: seq<nat>, newSize: nat)
    requires newSize <= |all| && Mapped(m, all) && Distinct(all)
    ensures var m' := Store(m, all[newSize..], Zeros(|all| - newSize));
            && (forall k :: newSize <= k < |all| ==> m'[all[k]] == 0)
            && (forall k :: 0 <= k < newSize ==> m'[all[k]] == m[all[k]])
            && (forall a :: 0 <= a < |m| && a !in all ==> m'[a] == m[a])
  {
    hide Store;
    var tail := all[newSize..];
    var m' := Store(m, tail, Zeros(|tail|));
    LoadAfterStore(m, tail, Zeros(|tail|));
    forall k | newSize <= k < |all| ensures m'[all[k]] == 0 {
      assert tail[k - newSize] == all[k] && Load(m', tail)[k - newSize] == 0;
    }
    forall k | 0 <= k < newSize ensures m'[all[k]] == m[all[k]] {
      assert all[k] !in tail;
    }
  }

  /**
   Counted in bytes, the guarded bio ends inside the device exactly unless its size
   reaches into the sector behind the end without filling it: the test drops that part.
   */
  lemma {:induction false} ByteExactIff(sector: nat, size: nat, maxsector: nat)
    requires sector < maxsector
    ensures sector * SECTOR + Guarded(sector, size, maxsector) <= maxsector * SECTOR
       <==> !((maxsector - sector) * SECTOR < size < (maxsector - sector + 1) * SECTOR)
  {
  }
}
