/** The iterator object, its in-place cursor moves and its copy loops. */
module IovIter {
  import opened Params
  import opened Memory
  import opened Cursor

  datatype Kind = UbufIter | IovecIter | KvecIter | BvecIter

  /**
   One copy between iterator memory and a kernel buffer: the bytes at `addrs` are
   exchanged with the buffer from index `at` on, in the direction given.
   */
  ghost predicate Moved(toIter: bool, mem: seq<Byte>, mem': seq<Byte>, buf: seq<Byte>, buf': seq<Byte>,
                        at: nat, addrs: seq<nat>)
  {
    && Mapped(mem, addrs) && at + |addrs| <= |buf|
    && if toIter then
         buf' == buf && mem' == Store(mem, addrs, buf[at..at + |addrs|])
       else
         mem' == mem && buf' == Store(buf, Range(at, |addrs|), Load(mem, addrs))
  }

  lemma {:induction false} MovedNothing(toIter: bool, mem: seq<Byte>, buf: seq<Byte>, at: nat)
    requires at <= |buf|
    ensures Moved(toIter, mem, mem, buf, buf, at, [])
  {
  }

  lemma MovedLengths(toIter: bool, mem: seq<Byte>, mem': seq<Byte>, buf: seq<Byte>, buf': seq<Byte>,
                     at: nat, addrs: seq<nat>)
    requires Moved(toIter, mem, mem', buf, buf', at, addrs)
    ensures |mem'| == |mem| && |buf'| == |buf|
  {
  }

  /** Two adjacent copies are one copy of the concatenated addresses. */
  lemma {:induction false} MovedTwice(toIter: bool, m0: seq<Byte>, m1: seq<Byte>, m2: seq<Byte>,
                                      b0: seq<Byte>, b1: seq<Byte>, b2: seq<Byte>, at: nat, a: seq<nat>, b: seq<nat>)
    requires Moved(toIter, m0, m1, b0, b1, at, a)
    requires Moved(toIter, m1, m2, b1, b2, at + |a|, b)
    ensures Moved(toIter, m0, m2, b0, b2, at, a + b)
  {
    hide Store, Load, Range;
    if toIter {
      var d, e := b0[at..at + |a|], b0[at + |a|..at + |a| + |b|];
      assert b0[at..at + |a + b|] == d + e;
      StoreConcat(m0, a, b, d, e);
    } else {
      assert Load(m0, a + b) == Load(m0, a) + Load(m0, b);
      RangeSplit(at, |a|, |b|);
      StoreConcat(b0, Range(at, |a|), Range(at + |a|, |b|), Load(m0, a), Load(m0, b));
    }
  }

  /** A chunk of the first `limit` addresses is a mapped buffer if all of them are mapped. */
  lemma {:induction false} ChunkMapped(mem: seq<Byte>, v: seq<Segment>, c: Cur,
                                       s: nat, skip: nat, done: nat, n: nat, limit: nat)
    requires Wf(v, c) && s < |v| && skip + n <= v[s].len
    requires Start(v, s) + skip == Pos(v, c) + done && done + n <= limit <= c.count
    requires Mapped(mem, RestOf(v, c)[..limit])
    ensures RestOf(v, c)[..done + n] == RestOf(v, c)[..done] + Range(v[s].base + skip, n)
    ensures n > 0 ==> v[s].base + skip + n <= |mem|
  {
    NextChunk(v, c, s, skip, done, n);
    if n > 0 {
      assert RestOf(v, c)[..limit][done + n - 1] == RestOf(v, c)[..done + n][done + n - 1];
    }
  }

  lemma {:induction false} MappedRest(m0: seq<Byte>, m: seq<Byte>, all: seq<nat>, done: nat, n: nat, limit: nat)
    requires |m| == |m0| && done + n <= limit <= |all| && Mapped(m0, all[..limit])
    ensures Mapped(m, all[done..][..n])
  {
    forall k | 0 <= k < n ensures all[done..][..n][k] < |m| {
      assert all[done..][..n][k] == all[..limit][done + k];
    }
  }

  class Iter {
    const kind: Kind
    const dataSource: bool
    const vec: seq<Segment> // a single segment for UbufIter
    var seg: nat            // index of the current segment: i->iov less its first value
    var nrSegs: nat
    var iovOffset: nat
    var count: nat

    /** iov_iter_init and its siblings. */
    constructor (kind: Kind, dataSource: bool, vec: seq<Segment>, count: nat)
      requires count <= Start(vec, |vec|)
      requires kind.UbufIter? ==> |vec| == 1
      ensures Valid() && this.kind == kind && this.dataSource == dataSource && this.vec == vec
      ensures Where() == Cur(0, if kind.UbufIter? then 0 else |vec|, 0, count)
      ensures Rest() == Flat(vec)[..count]
    {
      this.kind, this.dataSource, this.vec := kind, dataSource, vec;
      seg, iovOffset, this.count := 0, 0, count;
      nrSegs := if kind.UbufIter? then 0 else |vec|;
    }

    /** A struct copy: a second cursor over the same vector. */
    constructor Copy(src: Iter)
      requires src.Valid()
      ensures Valid() && kind == src.kind && dataSource == src.dataSource && vec == src.vec && Where() == src.Where()
      ensures Rest() == src.Rest()
    {
      kind, dataSource, vec := src.kind, src.dataSource, src.vec;
      seg, nrSegs, iovOffset, count := src.seg, src.nrSegs, src.iovOffset, src.count;
    }

    /** bio_alloc_map_data's copy: the remaining segments are copied too, so the index restarts at 0. */
    constructor DeepCopy(src: Iter)
      requires src.Valid() && !src.kind.UbufIter?
      ensures Valid() && kind == src.kind && dataSource == src.dataSource && vec == src.vec[src.seg..]
      ensures Where() == Cur(0, src.nrSegs, src.iovOffset, src.count) && Rest() == src.Rest()
    {
      var left := src.vec[src.seg..src.seg + src.nrSegs];
      assert left == src.vec[src.seg..];
      kind, dataSource, vec := src.kind, src.dataSource, left;
      seg, nrSegs, iovOffset, count := 0, src.nrSegs, src.iovOffset, src.count;
      SuffixCursor(src.vec, src.Where());
    }

    ghost function Where(): Cur
      reads this
    {
      Cur(seg, nrSegs, iovOffset, count)
    }

    ghost predicate Valid()
      reads this
    {
      && (if kind.UbufIter? then |vec| == 1 && seg == 0 && nrSegs == 0 else seg + nrSegs == |vec|)
      && Wf(vec, Where())
    }

    /** The addresses still to be delivered. */
    ghost function Rest(): (r: seq<nat>)
      requires Valid()
      reads this
      ensures |r| == count
    {
      RestOf(vec, Where())
    }

    /** What a cursor move of n bytes guarantees whichever way it was made. */
    twostate predicate Consumed(n: nat)
      requires old(Valid())
      reads this
    {
      && Valid() && n <= old(count) && count == old(count) - n
      && Pos(vec, Where()) == old(Pos(vec, Where())) + n
      && Rest() == old(Rest())[n..]
    }

    method Advance(size: nat)
      requires Valid()
      modifies this
      ensures Consumed(Min(size, old(count)))
      ensures !kind.UbufIter? ==> Where() == Advanced(vec, old(Where()), size)
      ensures !kind.UbufIter? && old(count) > 0 ==> Canonical(vec, seg, iovOffset)
    {
      hide RestOf;
      var n := Min(size, count);
      ghost var c := Where();
      if kind.UbufIter? {
        iovOffset := iovOffset + n;
        count := count - n;
      } else if count != 0 {
        AdvancedFits(vec, Where(), n);
        count := count - n;
        var s := seg;
        var x: nat := n + iovOffset;
        ghost var goal := Seek(vec, s, x);
        while s < |vec| && vec[s].len <= x
          invariant seg <= s <= |vec|
          invariant Seek(vec, s, x) == goal
          decreases |vec| - s
        {
          x := x - vec[s].len;
          s := s + 1;
        }
        iovOffset := x;
        nrSegs := nrSegs - (s - seg);
        seg := s;
      }
      RestAfter(vec, c, Where(), n);
    }

    /**
     The cursor move of page extraction from a bvec iterator, which does not go through
     iov_iter_advance: r bytes on in the current segment, and past its end if that is reached.
     */
    method StepInSegment(r: nat)
      requires Valid() && !kind.UbufIter? && seg < |vec| && r <= count && iovOffset + r <= vec[seg].len
      modifies this
      ensures Consumed(r) && seg + nrSegs == old(seg + nrSegs)
      ensures if old(iovOffset) + r == vec[old(seg)].len then seg == old(seg) + 1 && iovOffset == 0
              else seg == old(seg) && iovOffset == old(iovOffset) + r
    {
      hide RestOf;
      ghost var c := Where();
      count := count - r;
      iovOffset := iovOffset + r;
      if iovOffset == vec[seg].len {
        iovOffset := 0;
        seg := seg + 1;
        nrSegs := nrSegs - 1;
      }
      RestAfter(vec, c, Where(), r);
    }

    /**
     iov_iter_revert. Larger amounts than MAX_RW_COUNT are refused; a caller may
     not go back beyond the first byte of the vector.
     */
    method Revert(unroll: nat)
      requires Valid() && (unroll <= MAX_RW_COUNT ==> unroll <= Pos(vec, Where()))
      modifies this
      ensures Valid()
      ensures unroll > MAX_RW_COUNT ==> Where() == old(Where())
      ensures unroll <= MAX_RW_COUNT ==>
        && count == old(count) + unroll
        && Pos(vec, Where()) == old(Pos(vec, Where())) - unroll
        && Rest() == Flat(vec)[Pos(vec, Where())..old(Pos(vec, Where()))] + old(Rest())
      ensures !kind.UbufIter? && unroll <= MAX_RW_COUNT ==> Where() == Reverted(vec, old(Where()), unroll)
    {
      hide RestOf;
      if unroll > MAX_RW_COUNT {
        return;
      }
      ghost var c := Where();
      if unroll != 0 {
        count := count + unroll;
        if unroll <= iovOffset {
          iovOffset := iovOffset - unroll;
        } else {
          StepBack(unroll - iovOffset);
        }
      }
      RestBefore(vec, c, Where(), unroll);
    }

    /** The segment loop of iov_iter_revert, u bytes back from the start of the current segment. */
    method StepBack(u: nat)
      requires !kind.UbufIter? && seg <= |vec| && 0 < u <= Start(vec, seg)
      modifies `seg, `nrSegs, `iovOffset
      ensures (seg, iovOffset) == Unwind(vec, old(seg), u)
      ensures seg < old(seg) && nrSegs == old(nrSegs) + (old(seg) - seg)
      ensures Canonical(vec, seg, iovOffset) && Start(vec, seg) + iovOffset == Start(vec, old(seg)) - u
    {
      UnwindPosition(vec, seg, u);
      var s: nat, left: nat := seg, u;
      while true
        invariant s <= seg && seg == old(seg)
        invariant 0 < left <= Start(vec, s) && Unwind(vec, s, left) == Unwind(vec, old(seg), u)
        invariant nrSegs == old(nrSegs) + (seg - s)
        decreases s
      {
        s := s - 1;
        var n := vec[s].len;
        nrSegs := nrSegs + 1;
        if left <= n {
          seg := s;
          iovOffset := n - left;
          return;
        }
        left := left - n;
      }
    }

    method SaveState() returns (st: SavedState)
      ensures st == SavedState(iovOffset, count, nrSegs)
    {
      st := SavedState(iovOffset, count, nrSegs);
    }

    /** iov_iter_restore: only the offset, the count and nr_segs were saved. */
    method Restore(st: SavedState)
      requires Valid()
      requires !kind.UbufIter? ==> st.nrSegs <= |vec|
      modifies this
      ensures kind.UbufIter? ==> Where() == old(Where()).(off := st.off, count := st.count)
      ensures !kind.UbufIter? ==> Where() == Restored(old(Where()), st)
    {
      iovOffset := st.off;
      count := st.count;
      if !kind.UbufIter? {
        seg := seg + nrSegs - st.nrSegs;
        nrSegs := st.nrSegs;
      }
    }

    /** iov_iter_truncate: a cap on the count. */
    method Truncate(limit: nat)
      requires Valid()
      modifies this
      ensures Valid() && Where() == old(Where()).(count := Min(old(count), limit))
      ensures Rest() == old(Rest())[..count]
    {
      if count > limit {
        count := limit;
      }
    }

    /** iov_iter_reexpand: gives back what a truncate took. */
    method Reexpand(newCount: nat)
      requires Valid() && Pos(vec, Where()) + newCount <= Start(vec, |vec|)
      modifies this
      ensures Valid() && Where() == old(Where()).(count := newCount)
    {
      count := newCount;
    }

    predicate UserBacked() {
      kind.UbufIter? || kind.IovecIter?
    }

    /** How far a copy of `bytes` bytes gets when user memory faults at byte `faultAt` of it. */
    function Reach(bytes: nat, faultAt: nat): nat
      reads this
    {
      var want := Min(bytes, count);
      if UserBacked() then Min(want, faultAt) else want
    }

    /** iterate_buf: one contiguous user buffer. */
    method IterateBuf(toIter: bool, mem: array<Byte>, buf: array<Byte>, at: nat, bytes: nat, faultAt: nat)
      returns (n: nat)
      requires Valid() && kind.UbufIter? && mem != buf
      requires bytes <= count && at + bytes <= buf.Length
      requires Mapped(mem[..], Rest()[..Min(bytes, faultAt)])
      modifies this, mem, buf
      ensures n == Min(bytes, faultAt) && Consumed(n)
      ensures Moved(toIter, old(mem[..]), mem[..], old(buf[..]), buf[..], at, old(Rest())[..n])
    {
      hide Moved, RestOf;
      ghost var c := Where();
      n := Min(bytes, faultAt);
      ChunkMapped(mem[..], vec, c, 0, iovOffset, 0, n, n);
      MovedNothing(toIter, mem[..], buf[..], at);
      MoveChunk(toIter, mem, vec[0].base + iovOffset, buf, at, 0, n, mem[..], buf[..], []);
      iovOffset := iovOffset + n;
      count := count - n;
      RestAfter(vec, c, Where(), n);
      assert Rest() == old(Rest())[n..] && old(Rest())[..n] == [] + Range(vec[0].base + c.off, n);
    }

    /**
     iterate_iovec: segment by segment, zero-length ones included, until `bytes`
     bytes are moved or user memory faults. The cursor may rest on a zero-length segment.
     */
    method IterateIovec(toIter: bool, mem: array<Byte>, buf: array<Byte>, at: nat, bytes: nat, faultAt: nat)
      returns (n: nat)
      requires Valid() && !kind.UbufIter? && mem != buf
      requires 0 < bytes <= count && at + bytes <= buf.Length
      requires Mapped(mem[..], Rest()[..Min(bytes, faultAt)])
      modifies this, mem, buf
      ensures n == Min(bytes, faultAt) && Consumed(n)
      ensures Moved(toIter, old(mem[..]), mem[..], old(buf[..]), buf[..], at, old(Rest())[..n])
    {
      hide Moved, RestOf;
      ghost var c := Where();
      ghost var all := Rest();
      ghost var m0, b0 := mem[..], buf[..];
      var p: nat, skip: nat, off: nat := seg, iovOffset, 0;
      MovedNothing(toIter, m0, b0, at);
      while off < bytes
        invariant Where() == c && p <= |vec| && p >= seg
        invariant if p == |vec| then skip == 0 else skip <= vec[p].len
        invariant off <= Min(bytes, faultAt) && Start(vec, p) + skip == Pos(vec, c) + off
        invariant Moved(toIter, m0, mem[..], b0, buf[..], at, all[..off])
        decreases |vec| - p
      {
        var len := Min(bytes - off, vec[p].len - skip);
        if len != 0 {
          var done: nat := if faultAt - off < len then faultAt - off else len;
          MoveNext(toIter, mem, vec, p, skip, buf, at, off, done, c, m0, b0, Min(bytes, faultAt));
          off := off + done;
          skip := skip + done;
          if skip < vec[p].len {
            break;
          }
        }
        p := p + 1;
        skip := 0;
      }
      iovOffset := skip;
      n := off;
      nrSegs := nrSegs - (p - seg);
      seg := p;
      count := count - n;
      RestAfter(vec, c, Where(), n);
    }

    /** iterate_bvec: like iterate_iovec but page by page, over kernel memory that cannot fault. */
    method IterateBvec(toIter: bool, mem: array<Byte>, buf: array<Byte>, at: nat, bytes: nat)
      returns (n: nat)
      requires Valid() && !kind.UbufIter? && mem != buf
      requires bytes <= count && at + bytes <= buf.Length
      requires Mapped(mem[..], Rest()[..bytes])
      modifies this, mem, buf
      ensures n == bytes && Consumed(n)
      ensures Moved(toIter, old(mem[..]), mem[..], old(buf[..]), buf[..], at, old(Rest())[..n])
    {
      hide Moved, RestOf;
      ghost var c := Where();
      ghost var all := Rest();
      ghost var m0, b0 := mem[..], buf[..];
      var p: nat, skip: nat, off: nat := seg, iovOffset, 0;
      MovedNothing(toIter, m0, b0, at);
      while off < bytes
        invariant Where() == c && p <= |vec| && p >= seg
        invariant if p == |vec| then skip == 0 else skip <= vec[p].len
        invariant off <= bytes && Start(vec, p) + skip == Pos(vec, c) + off
        invariant Moved(toIter, m0, mem[..], b0, buf[..], at, all[..off])
        decreases |vec| - p, bytes - off
      {
        var offset := vec[p].base + skip;
        var len: nat := Min(Min(bytes - off, vec[p].len - skip), PAGE_SIZE - offset % PAGE_SIZE);
        MoveNext(toIter, mem, vec, p, skip, buf, at, off, len, c, m0, b0, bytes);
        off := off + len;
        skip := skip + len;
        if skip == vec[p].len {
          skip := 0;
          p := p + 1;
        }
      }
      iovOffset := skip;
      n := off;
      nrSegs := nrSegs - (p - seg);
      seg := p;
      count := count - n;
      RestAfter(vec, c, Where(), n);
    }

    /**
     iterate_and_advance: whatever the kind of iterator and wherever it faults, a copy
     moves exactly a prefix of the flat sequence and leaves the cursor after that prefix.
     */
    method IterateAndAdvance(toIter: bool, mem: array<Byte>, buf: array<Byte>, at: nat, bytes: nat, faultAt: nat)
      returns (n: nat)
      requires Valid() && mem != buf && at + bytes <= buf.Length
      requires Mapped(mem[..], Rest()[..Reach(bytes, faultAt)])
      modifies this, mem, buf
      ensures n == old(Reach(bytes, faultAt)) && Consumed(n)
      ensures n <= Min(bytes, old(count)) && (n < Min(bytes, old(count)) ==> UserBacked() && n == faultAt)
      ensures Moved(toIter, old(mem[..]), mem[..], old(buf[..]), buf[..], at, old(Rest())[..n])
    {
      n := Min(bytes, count);
      if n == 0 {
        MovedNothing(toIter, mem[..], buf[..], at);
      } else if kind.UbufIter? {
        n := IterateBuf(toIter, mem, buf, at, n, faultAt);
      } else if kind.IovecIter? {
        n := IterateIovec(toIter, mem, buf, at, n, faultAt);
      } else if kind.BvecIter? {
        n := IterateBvec(toIter, mem, buf, at, n);
      } else {
        n := IterateIovec(toIter, mem, buf, at, n, n);
      }
    }

    /** _copy_to_iter: refused on an iterator that is a data source. */
    method CopyToIter(mem: array<Byte>, buf: array<Byte>, at: nat, bytes: nat, faultAt: nat) returns (n: nat)
      requires Valid() && mem != buf && at + bytes <= buf.Length
      requires Mapped(mem[..], Rest()[..Reach(bytes, faultAt)])
      modifies this, mem, buf
      ensures n == (if dataSource then 0 else old(Reach(bytes, faultAt))) && Consumed(n)
      ensures Moved(true, old(mem[..]), mem[..], old(buf[..]), buf[..], at, old(Rest())[..n])
    {
      hide RestOf;
      if dataSource {
        MovedNothing(true, mem[..], buf[..], at);
        return 0;
      }
      n := IterateAndAdvance(true, mem, buf, at, bytes, faultAt);
    }

    /** _copy_from_iter: refused on an iterator that is a destination. */
    method CopyFromIter(mem: array<Byte>, buf: array<Byte>, at: nat, bytes: nat, faultAt: nat) returns (n: nat)
      requires Valid() && mem != buf && at + bytes <= buf.Length
      requires Mapped(mem[..], Rest()[..Reach(bytes, faultAt)])
      modifies this, mem, buf
      ensures n == (if dataSource then old(Reach(bytes, faultAt)) else 0) && Consumed(n)
      ensures Moved(false, old(mem[..]), mem[..], old(buf[..]), buf[..], at, old(Rest())[..n])
    {
      hide RestOf;
      if !dataSource {
        MovedNothing(false, mem[..], buf[..], at);
        return 0;
      }
      n := IterateAndAdvance(false, mem, buf, at, bytes, faultAt);
    }

    /** One page-sized copy in the loop below, on top of the first `off` bytes of `all`. */
    method CopyStep(toIter: bool, mem: array<Byte>, buf: array<Byte>, at: nat, off: nat, want: nat, faultAt: nat,
                    ghost m0: seq<Byte>, ghost b0: seq<Byte>, ghost all: seq<nat>)
      returns (n: nat)
      requires Valid() && mem != buf && at + off + want <= buf.Length
      requires off <= |all| && Rest() == all[off..] && Mapped(m0, all[..off + Min(want, count)])
      requires Moved(toIter, m0, mem[..], b0, buf[..], at, all[..off])
      modifies this, mem, buf
      ensures n == (if toIter == dataSource then 0 else old(Reach(want, faultAt)))
      ensures Consumed(n) && off + n <= |all| && Rest() == all[off + n..]
      ensures Moved(toIter, m0, mem[..], b0, buf[..], at, all[..off + n])
    {
      hide Moved, RestOf;
      ghost var m1, b1 := mem[..], buf[..];
      MovedLengths(toIter, m0, m1, b0, b1, at, all[..off]);
      MappedRest(m0, m1, all, off, Reach(want, faultAt), off + Min(want, count));
      if toIter {
        n := CopyToIter(mem, buf, at + off, want, faultAt);
      } else {
        n := CopyFromIter(mem, buf, at + off, want, faultAt);
      }
      assert all[off..][..n] == all[off..off + n] && all[..off] + all[off..off + n] == all[..off + n];
      MovedTwice(toIter, m0, m1, mem[..], b0, b1, buf[..], at, all[..off], all[off..off + n]);
    }

    /**
     copy_page_to_iter and copy_page_from_iter: page by page between the iterator and
     the kernel pages from `page` on, a buffer `extent` bytes of which belong to one
     compound page. faults(k) is where the k-th page-sized copy faults.
     */
    method CopyPage(toIter: bool, mem: array<Byte>, phys: array<Byte>, page: nat, offset: nat, bytes: nat,
                    extent: nat, faults: nat -> nat)
      returns (res: nat)
      requires Valid() && mem != phys && page * PAGE_SIZE + offset + bytes <= phys.Length
      requires Mapped(mem[..], Rest()[..Min(bytes, count)])
      modifies this, mem, phys
      ensures res <= bytes && Consumed(res)
      ensures Moved(toIter, old(mem[..]), mem[..], old(phys[..]), phys[..],
                    page * PAGE_SIZE + offset, old(Rest())[..res])
      ensures offset + bytes > PAGE_SIZE && offset + bytes > extent ==> res == 0
      ensures toIter == dataSource ==> res == 0
      ensures
        && toIter != dataSource
        && (offset + bytes <= PAGE_SIZE || offset + bytes <= extent)
        && res < Min(bytes, old(count))
        ==> UserBacked() && exists k :: faults(k) == 0
    {
      hide Moved, RestOf;
      ghost var m0, p0, c := mem[..], phys[..], Where();
      ghost var all := Rest();
      var base := page * PAGE_SIZE + offset;
      res := 0;
      MovedNothing(toIter, m0, p0, base);
      if (offset + bytes > PAGE_SIZE && offset + bytes > extent) || (toIter && dataSource) {
        return;
      }
      var pg, off, left: nat, calls: nat := page + offset / PAGE_SIZE, offset % PAGE_SIZE, bytes, 0;
      while true
        invariant Valid() && res + left == bytes && off < PAGE_SIZE && pg * PAGE_SIZE + off == base + res
        invariant res <= c.count && count == c.count - res && Pos(vec, Where()) == Pos(vec, c) + res
        invariant Rest() == all[res..]
        invariant Moved(toIter, m0, mem[..], p0, phys[..], base, all[..res])
        invariant Mapped(m0, all[..Min(bytes, c.count)])
        invariant toIter == dataSource ==> res == 0
        decreases left
      {
        var n := CopyStep(toIter, mem, phys, base, res, Min(left, PAGE_SIZE - off), faults(calls), m0, p0, all);
        res := res + n;
        left := left - n;
        if left == 0 || n == 0 {
          break;
        }
        off := off + n;
        if off == PAGE_SIZE {
          pg := pg + 1;
          off := 0;
        }
        calls := calls + 1;
      }
    }

    /**
     copy_from_iter_full: all of it, or the iterator back where it was. After more than
     MAX_RW_COUNT bytes the revert is refused, and the bytes copied stay consumed.
     */
    method CopyFromIterFull(mem: array<Byte>, buf: array<Byte>, at: nat, bytes: nat, faultAt: nat) returns (ok: bool)
      requires Valid() && mem != buf && at + bytes <= buf.Length
      requires Mapped(mem[..], Rest()[..Reach(bytes, faultAt)])
      modifies this, mem, buf
      ensures ok <==> bytes == (if dataSource then old(Reach(bytes, faultAt)) else 0)
      ensures ok ==> Consumed(bytes)
      ensures ok ==>
        buf[..] == old(buf[..])[..at] + Load(old(mem[..]), old(Rest())[..bytes]) + old(buf[..])[at + bytes..]
      ensures !ok && (dataSource ==> old(Reach(bytes, faultAt)) <= MAX_RW_COUNT) ==>
        Valid() && Rest() == old(Rest()) && Pos(vec, Where()) == old(Pos(vec, Where()))
      ensures !ok && dataSource && old(Reach(bytes, faultAt)) > MAX_RW_COUNT ==> Consumed(old(Reach(bytes, faultAt)))
    {
      var copied := CopyFromIter(mem, buf, at, bytes, faultAt);
      if copied == bytes {
        StoreRange(old(buf[..]), at, Load(old(mem[..]), old(Rest())[..bytes]));
        return true;
      }
      Revert(copied);
      return false;
    }
  }

  /** Extends a copy that has moved the first `off` addresses by n bytes of segment s. */
  method MoveNext(toIter: bool, mem: array<Byte>, v: seq<Segment>, s: nat, skip: nat, buf: array<Byte>, at: nat,
                  off: nat, n: nat, ghost c: Cur, ghost m0: seq<Byte>, ghost b0: seq<Byte>, ghost limit: nat)
    requires Wf(v, c) && s < |v| && skip + n <= v[s].len && mem != buf && at + off + n <= buf.Length
    requires Start(v, s) + skip == Pos(v, c) + off && off + n <= limit <= c.count
    requires Mapped(m0, RestOf(v, c)[..limit])
    requires Moved(toIter, m0, mem[..], b0, buf[..], at, RestOf(v, c)[..off])
    modifies mem, buf
    ensures Moved(toIter, m0, mem[..], b0, buf[..], at, RestOf(v, c)[..off + n])
  {
    hide Moved, RestOf, Start;
    MovedLengths(toIter, m0, mem[..], b0, buf[..], at, RestOf(v, c)[..off]);
    ChunkMapped(mem[..], v, c, s, skip, off, n, limit);
    MoveChunk(toIter, mem, v[s].base + skip, buf, at, off, n, m0, b0, RestOf(v, c)[..off]);
  }

  /** Extends a copy that has moved the addresses `done` by one contiguous chunk. */
  method MoveChunk(toIter: bool, mem: array<Byte>, base: nat, buf: array<Byte>, at: nat, off: nat, len: nat,
                   ghost m0: seq<Byte>, ghost b0: seq<Byte>, ghost done: seq<nat>)
    requires |done| == off && mem != buf && (len > 0 ==> base + len <= mem.Length) && at + off + len <= buf.Length
    requires Moved(toIter, m0, mem[..], b0, buf[..], at, done)
    modifies mem, buf
    ensures Moved(toIter, m0, mem[..], b0, buf[..], at, done + Range(base, len))
  {
    if len == 0 {
      assert done + Range(base, len) == done;
      return;
    }
    hide Moved;
    ghost var m1, b1 := mem[..], buf[..];
    CopyBytes(toIter, mem, base, buf, at + off, len);
    MovedTwice(toIter, m0, m1, mem[..], b0, b1, buf[..], at, done, Range(base, len));
  }

  /** One uninterrupted copy between iterator memory and the kernel buffer. */
  method CopyBytes(toIter: bool, mem: array<Byte>, base: nat, buf: array<Byte>, at: nat, len: nat)
    requires mem != buf && base + len <= mem.Length && at + len <= buf.Length
    modifies mem, buf
    ensures Moved(toIter, old(mem[..]), mem[..], old(buf[..]), buf[..], at, Range(base, len))
  {
    hide Store, Load, Range;
    if toIter {
      Blit(buf, at, mem, base, len);
      StoreRange(old(mem[..]), base, old(buf[..])[at..at + len]);
    } else {
      Blit(mem, base, buf, at, len);
      assert Load(old(mem[..]), Range(base, len)) == old(mem[..])[base..base + len];
      StoreRange(old(buf[..]), at, old(mem[..])[base..base + len]);
    }
  }
}
