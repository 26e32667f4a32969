/** The bio object: its raw bio_vec table, adding pages, and pinning user pages into it. */
module Bios {
  import opened Params
  import opened Memory
  import opened Cursor
  import opened IovIter
  import opened UserPages
  import opened Bvecs

  /** The first n slots of a table hold a bio_vec each: a page pointer, then length and offset. */
  ghost predicate TableOk(words: seq<Word>, n: nat) {
    2 * n <= |words| && forall i :: 0 <= i < n ==> words[2 * i].Ptr? && words[2 * i + 1].LenOff?
  }

  ghost function Decode(words: seq<Word>, n: nat): (vs: seq<Bvec>)
    requires TableOk(words, n)
    ensures |vs| == n
    ensures forall i :: 0 <= i < n ==> vs[i] == Bvec(words[2 * i].page, words[2 * i + 1].len, words[2 * i + 1].off)
  {
    seq(n, i requires 0 <= i < n => Bvec(words[2 * i].page, words[2 * i + 1].len, words[2 * i + 1].off))
  }

  lemma {:induction false} DecodeAppend(w: seq<Word>, n: nat, p: Piece)
    requires TableOk(w, n) && 2 * n + 2 <= |w|
    ensures var w' := w[2 * n := Ptr(p.page)][2 * n + 1 := LenOff(p.len, p.off)];
            TableOk(w', n + 1) && Decode(w', n + 1) == Decode(w, n) + [Bvec(p.page, p.len, p.off)]
  {
    var w' := w[2 * n := Ptr(p.page)][2 * n + 1 := LenOff(p.len, p.off)];
    forall i | 0 <= i < n ensures w'[2 * i] == w[2 * i] && w'[2 * i + 1] == w[2 * i + 1] {
    }
  }

  /** The bio_vecs of a table depend on its used slots only. */
  lemma {:induction false} DecodePrefix(w: seq<Word>, w': seq<Word>, n: nat)
    requires TableOk(w, n) && |w'| == |w| && forall k :: 0 <= k < 2 * n ==> w'[k] == w[k]
    ensures TableOk(w', n) && Decode(w', n) == Decode(w, n)
  {
    forall i | 0 <= i < n ensures w'[2 * i] == w[2 * i] && w'[2 * i + 1] == w[2 * i + 1] {
    }
  }

  lemma {:induction false} LastWord(w: seq<Word>, n: nat)
    requires TableOk(w, n) && n > 0
    ensures w[2 * n - 2].Ptr? && w[2 * n - 1].LenOff?
    ensures Decode(w, n)[n - 1] == Bvec(w[2 * n - 2].page, w[2 * n - 1].len, w[2 * n - 1].off)
  {
    var k := n - 1;
    assert w[2 * k].Ptr? && w[2 * k + 1].LenOff?;
  }

  lemma {:induction false} DecodeGrow(w: seq<Word>, n: nat, p: Piece, o: Outcome)
    requires TableOk(w, n) && n > 0 && o.Merged? && w[2 * n - 1].LenOff?
    ensures var last := w[2 * n - 1];
            var w' := w[2 * n - 1 := LenOff(last.len + p.len, last.off)];
            TableOk(w', n) && Decode(w', n) == Apply(Decode(w, n), p, o)
  {
    LastWord(w, n);
    var last := w[2 * n - 1];
    var w' := w[2 * n - 1 := LenOff(last.len + p.len, last.off)];
    forall i | 0 <= i < n - 1 ensures w'[2 * i] == w[2 * i] && w'[2 * i + 1] == w[2 * i + 1] {
    }
  }

  class Bio {
    const maxVecs: nat
    const cloned: bool
    const zoneAppend: bool
    const table: array<Word> // two words a slot
    var vcnt: nat
    var size: nat            // bi_iter.bi_size

    /** bio_init on a table of its own. */
    constructor (maxVecs: nat, zoneAppend: bool)
      ensures Valid() && fresh(table) && this.maxVecs == maxVecs && this.zoneAppend == zoneAppend && !cloned
      ensures Vecs() == [] && size == 0
    {
      this.maxVecs, this.cloned, this.zoneAppend := maxVecs, false, zoneAppend;
      table := new Word[2 * maxVecs](_ => Ptr(0));
      vcnt, size := 0, 0;
    }

    ghost predicate Valid()
      reads this, table
    {
      && table.Length == 2 * maxVecs && vcnt <= maxVecs
      && TableOk(table[..], vcnt)
      && Positive(Vecs()) && size == TotalLen(Vecs()) <= UINT_MAX
    }

    ghost function Vecs(): (vs: seq<Bvec>)
      requires TableOk(table[..], vcnt)
      reads this, table
      ensures |vs| == vcnt
    {
      Decode(table[..], vcnt)
    }

    /** Words from here on are not part of a bio_vec yet. */
    ghost predicate FreeWordsKept(before: seq<Word>)
      reads this, table
    {
      |before| == table.Length && forall w :: 2 * vcnt <= w < table.Length ==> table[w] == before[w]
    }

    /** The add took outcome o: table and size follow it, and no word past the last bio_vec is touched. */
    twostate predicate Carried(p: Piece, o: Outcome)
      requires old(Valid()) && (o.Merged? ==> old(Vecs()) != [])
      reads this, table
    {
      && Valid() && Vecs() == Apply(old(Vecs()), p, o) && size == SizeAfter(old(size), p, o)
      && FreeWordsKept(old(table[..]))
    }

    /** __bio_add_page: a new last entry. */
    method AppendVec(p: Piece)
      requires Valid() && InPage(p) && vcnt < maxVecs && size + p.len <= UINT_MAX
      modifies `vcnt, `size, table
      ensures Carried(p, Appended)
    {
      hide Decode, TableOk, TotalLen, Phys, Walk;
      DecodeAppend(table[..], vcnt, p);
      WalkAppend(Vecs(), Bvec(p.page, p.len, p.off));
      table[2 * vcnt] := Ptr(p.page);
      table[2 * vcnt + 1] := LenOff(p.len, p.off);
      vcnt := vcnt + 1;
      size := size + p.len;
      assert table[..] == old(table[..])[2 * old(vcnt) := Ptr(p.page)][2 * old(vcnt) + 1 := LenOff(p.len, p.off)];
    }

    /** Grows the last entry. */
    method GrowLast(p: Piece, ghost pol: Policy, ghost same: bool)
      requires Valid() && InPage(p) && vcnt > 0 && size + p.len <= UINT_MAX
      requires PageIsMergeable(Vecs()[vcnt - 1], p, pol) == (true, same)
      modifies `size, table
      ensures Carried(p, Merged(same))
    {
      hide Decode, TableOk, TotalLen, Phys, Walk, PageIsMergeable, Describes;
      LastWord(table[..], vcnt);
      DecodeGrow(table[..], vcnt, p, Merged(same));
      TakenDescribes(Vecs(), p, pol, Merged(same));
      var w := table[2 * vcnt - 1];
      table[2 * vcnt - 1] := LenOff(w.len + p.len, w.off);
      size := size + p.len;
      assert table[..] == old(table[..])[2 * vcnt - 1 := LenOff(w.len + p.len, w.off)];
    }

    method Get(i: nat) returns (b: Bvec)
      requires Valid() && i < vcnt
      ensures b == Vecs()[i] && b.len > 0
    {
      b := Bvec(table[2 * i].page, table[2 * i + 1].len, table[2 * i + 1].off);
      assert b == Vecs()[i];
    }

    /** The stretches that bio_for_each_segment_all visits, in order. */
    method PageSegments() returns (ps: seq<Piece>)
      requires Valid()
      ensures ps == Segments(Vecs())
    {
      hide Decode, TableOk, TotalLen, Stretches, Positive;
      ghost var vs := Vecs();
      ps := [];
      var idx := 0;
      assert vs[..0] == [];
      while idx < vcnt
        invariant idx <= vcnt && Vecs() == vs && ps == Segments(vs[..idx])
      {
        var b := Get(idx);
        assert vs[..idx + 1][..idx] == vs[..idx];
        ps := ps + Stretches(b.page + b.off / PAGE_SIZE, b.off % PAGE_SIZE, b.len);
        idx := idx + 1;
      }
      assert vs[..idx] == vs;
    }

    method Last() returns (b: Bvec)
      requires Valid() && vcnt > 0
      ensures b == Vecs()[vcnt - 1]
    {
      LastWord(table[..], vcnt);
      b := Bvec(table[2 * vcnt - 2].page, table[2 * vcnt - 1].len, table[2 * vcnt - 1].off);
    }

    /** __bio_try_merge_page. */
    method TryMergePage(p: Piece, pol: Policy) returns (done: bool, same: bool)
      requires Valid() && InPage(p)
      modifies `size, table
      ensures (done, same) ==
              if cloned || old(vcnt) == 0 then (false, false) else TryMerge(old(Vecs()), old(size), p, pol)
      ensures if done then Carried(p, Merged(same)) else Carried(p, Rejected(Seam))
    {
      hide Decode, TableOk, TotalLen, PageIsMergeable;
      same := false;
      if cloned {
        return false, same;
      }
      if vcnt > 0 {
        var b := Last();
        var (mergeable, inPage) := PageIsMergeable(b, p, pol);
        if mergeable {
          if size > UINT_MAX - p.len {
            return false, false;
          }
          GrowLast(p, pol, inPage);
          return true, inPage;
        }
      }
      return false, same;
    }

    /** bio_add_hw_page: the number of bytes taken, and whether they went into the last page. */
    method AddHwPage(q: Queue, p: Piece, maxSectors: nat, pol: Policy)
      returns (n: nat, same: bool)
      requires Valid() && InPage(p) && ValidQueue(q)
      modifies `vcnt, `size, table
      ensures var o := HwAdd(q, Room(maxVecs, cloned, maxSectors), old(Vecs()), old(size), p, pol);
              && Carried(p, o) && n == (if o.Rejected? then 0 else p.len)
              && same == (o.Merged? && o.samePage)
      ensures AddedIfFits(q, Room(maxVecs, cloned, maxSectors), old(Vecs()), old(size), p, pol, n)
    {
      hide Decode, TableOk, TotalLen, Zone, Gap, PageIsMergeable, AddedIfFits;
      AddedExact(q, Room(maxVecs, cloned, maxSectors), Vecs(), size, p, pol);
      same := false;
      if cloned || Wrap32(size + p.len) / 512 > maxSectors {
        return 0, same;
      }
      if vcnt > 0 {
        var b := Last();
        if Zone(q, b.page * PAGE_SIZE + b.off) == Zone(q, p.page * PAGE_SIZE + p.off + p.len - 1)
           && Wrap32(b.len + p.len) <= q.maxSegmentSize
        {
          var done;
          done, same := TryMergePage(p, pol);
          if done {
            return p.len, same;
          }
        }
        if Gap(q, b, p.off) {
          return 0, same;
        }
      }
      if vcnt >= maxVecs || size > UINT_MAX - p.len {
        return 0, same;
      }
      if vcnt >= q.maxSegments {
        return 0, same;
      }
      AppendVec(p);
      return p.len, same;
    }
  }
}
