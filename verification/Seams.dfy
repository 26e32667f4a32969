/** Where two segments of an iterator physically meet inside one page. */
module Seams {
  import opened Params
  import opened Memory
  import opened Cursor
  import opened UserPages
  import opened Bvecs

  /** The physical address behind a user address. */
  ghost function PhysAt(frameOf: nat -> nat, a: nat): nat {
    frameOf(a / PAGE_SIZE) * PAGE_SIZE + a % PAGE_SIZE
  }

  /** A non-empty segment begins at flat position x. */
  ghost predicate Begins(v: seq<Segment>, x: nat) {
    exists s :: 0 <= s < |v| && v[s].len > 0 && Start(v, s) == x
  }

  /**
   The frame in whose middle the byte at x physically follows the last byte of an earlier
   segment, if there is one.
   */
  ghost function SeamAt(v: seq<Segment>, frameOf: nat -> nat, x: nat): multiset<nat> {
    if 0 < x < |Flat(v)| && Begins(v, x) && Flat(v)[x] % PAGE_SIZE != 0
       && PhysAt(frameOf, Flat(v)[x - 1]) + 1 == PhysAt(frameOf, Flat(v)[x])
    then multiset{frameOf(Flat(v)[x] / PAGE_SIZE)}
    else multiset{}
  }

  /** The frames of all seams strictly between two flat positions. */
  ghost function SeamsIn(v: seq<Segment>, frameOf: nat -> nat, lo: nat, hi: nat): multiset<nat>
    decreases hi
  {
    if hi <= lo + 1 then multiset{} else SeamsIn(v, frameOf, lo, hi - 1) + SeamAt(v, frameOf, hi - 1)
  }

  lemma {:induction false} SeamsSplit(v: seq<Segment>, frameOf: nat -> nat, lo: nat, mid: nat, hi: nat)
    requires lo < mid < hi
    ensures SeamsIn(v, frameOf, lo, hi)
         == SeamsIn(v, frameOf, lo, mid) + SeamAt(v, frameOf, mid) + SeamsIn(v, frameOf, mid, hi)
    decreases hi
  {
    hide SeamAt;
    if hi > mid + 1 {
      SeamsSplit(v, frameOf, lo, mid, hi - 1);
    }
  }

  lemma {:induction false} SeamsGrow(v: seq<Segment>, frameOf: nat -> nat, lo: nat, mid: nat, hi: nat)
    requires lo <= mid <= hi
    ensures SeamsIn(v, frameOf, lo, mid) <= SeamsIn(v, frameOf, lo, hi)
    decreases hi
  {
    hide SeamAt;
    if mid < hi {
      SeamsGrow(v, frameOf, lo, mid, hi - 1);
    }
  }

  /** Inside one segment there is no seam. */
  lemma {:induction false} NoneInside(v: seq<Segment>, frameOf: nat -> nat, k: nat, x: nat, hi: nat)
    requires k < |v| && Start(v, k) <= x && hi <= Start(v, k) + v[k].len
    ensures SeamsIn(v, frameOf, x, hi) == multiset{}
    decreases hi
  {
    hide SeamAt, Flat;
    if hi > x + 1 {
      NoneInside(v, frameOf, k, x, hi - 1);
      NotBegun(v, k, hi - 1);
      NoSeam(v, frameOf, hi - 1);
    }
  }

  lemma {:induction false} NotBegun(v: seq<Segment>, k: nat, y: nat)
    requires k < |v| && Start(v, k) < y < Start(v, k) + v[k].len
    ensures !Begins(v, y)
  {
    if s :| 0 <= s < |v| && v[s].len > 0 && Start(v, s) == y {
      if s <= k {
        StartMono(v, s, k);
      } else {
        StartMono(v, k + 1, s);
      }
    }
  }

  lemma NoSeam(v: seq<Segment>, frameOf: nat -> nat, y: nat)
    requires !Begins(v, y)
    ensures SeamAt(v, frameOf, y) == multiset{}
  {
  }

  /** Segments that all begin on pages have no seam. */
  lemma {:induction false} NoneOnPages(v: seq<Segment>, frameOf: nat -> nat, lo: nat, hi: nat)
    requires forall s :: 0 <= s < |v| && v[s].len > 0 && lo < Start(v, s) < hi ==> v[s].base % PAGE_SIZE == 0
    ensures SeamsIn(v, frameOf, lo, hi) == multiset{}
    decreases hi
  {
    hide SeamAt, Flat, Begins;
    if hi > lo + 1 {
      NoneOnPages(v, frameOf, lo, hi - 1);
      OnPageHere(v, frameOf, hi - 1);
    }
  }

  lemma {:induction false} OnPageHere(v: seq<Segment>, frameOf: nat -> nat, y: nat)
    requires forall s :: 0 <= s < |v| && v[s].len > 0 && Start(v, s) == y ==> v[s].base % PAGE_SIZE == 0
    ensures SeamAt(v, frameOf, y) == multiset{}
  {
    if s :| 0 <= s < |v| && v[s].len > 0 && Start(v, s) == y {
      FlatSlice(v, s, 0, 1);
      assert Flat(v)[y] == Flat(v)[y..y + 1][0];
      hide Flat;
    } else {
      NoSeam(v, frameOf, y);
    }
  }

  /** The end of the last entry of a table is where its last byte is. */
  lemma LastByteOf(vs: seq<Bvec>)
    requires vs != [] && vs[|vs| - 1].len > 0
    ensures var b, n := vs[|vs| - 1], TotalLen(vs);
            n > 0 && Phys(vs)[n - 1] == b.page * PAGE_SIZE + b.off + b.len - 1
  {
  }

  /**
   A piece that starts at flat position x continues a table that describes the bytes
   before x exactly when these two bytes are physical neighbours.
   */
  lemma {:induction false} ContinuesIff(v: seq<Segment>, frameOf: nat -> nat, c: Cur, vs: seq<Bvec>, size: nat,
                                        p: Piece)
    requires Wf(v, c) && 0 < size < c.count && vs != [] && vs[|vs| - 1].len > 0
    requires Phys(vs) == Translate(frameOf, RestOf(v, c)[..size])
    requires var a := RestOf(v, c)[size]; p.page == frameOf(a / PAGE_SIZE) && p.off == a % PAGE_SIZE
    ensures var x := Pos(v, c) + size;
            && 0 < x < |Flat(v)| && Flat(v)[x] == RestOf(v, c)[size]
            && (Continues(vs[|vs| - 1], p) <==> PhysAt(frameOf, Flat(v)[x - 1]) + 1 == PhysAt(frameOf, Flat(v)[x]))
  {
    hide Flat, Phys, Translate;
    LastByteOf(vs);
    var rest := RestOf(v, c);
    assert |Phys(vs)| == size;
    assert rest[..size][size - 1] == rest[size - 1] == Flat(v)[Pos(v, c) + size - 1];
  }
}
