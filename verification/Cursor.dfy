/**
 The cursor arithmetic of an iterator over a segment vector, on values. A cursor
 (segment index, offset in that segment) stands for one offset into the flat
 sequence of byte addresses that the vector lists.
 */
module Cursor {
  import opened Params
  import opened Memory

  /** One iovec, kvec or bvec: `len` bytes from address `base`. */
  datatype Segment = Segment(base: nat, len: nat)

  /** Number of bytes in the first k segments. */
  ghost function Start(v: seq<Segment>, k: nat): nat
    requires k <= |v|
  {
    if k == 0 then 0 else Start(v, k - 1) + v[k - 1].len
  }

  /** The byte addresses of the first k segments, in order. */
  ghost function FlatTo(v: seq<Segment>, k: nat): (r: seq<nat>)
    requires k <= |v|
    ensures |r| == Start(v, k)
  {
    if k == 0 then [] else FlatTo(v, k - 1) + Range(v[k - 1].base, v[k - 1].len)
  }

  /** The flat address sequence that the whole vector stands for. */
  ghost function Flat(v: seq<Segment>): (r: seq<nat>)
    ensures |r| == Start(v, |v|)
  {
    FlatTo(v, |v|)
  }

  /** (s, off) names a byte, or the end of the vector. */
  ghost predicate Canonical(v: seq<Segment>, s: nat, off: nat) {
    s <= |v| && if s == |v| then off == 0 else off < v[s].len
  }

  lemma {:induction false} StartMono(v: seq<Segment>, j: nat, k: nat)
    requires j <= k <= |v|
    ensures Start(v, j) <= Start(v, k)
    decreases k
  {
    if j < k {
      StartMono(v, j, k - 1);
    }
  }

  lemma {:induction false} FlatPrefix(v: seq<Segment>, j: nat, k: nat)
    requires j <= k <= |v|
    ensures Start(v, j) <= Start(v, k)
    ensures FlatTo(v, k)[..Start(v, j)] == FlatTo(v, j)
    decreases k
  {
    if j < k {
      FlatPrefix(v, j, k - 1);
      StartMono(v, j, k - 1);
      assert FlatTo(v, k)[..Start(v, j)] == FlatTo(v, k - 1)[..Start(v, j)];
    }
  }

  /** Bytes inside one segment are contiguous in the flat sequence. */
  lemma {:induction false} FlatSlice(v: seq<Segment>, s: nat, off: nat, n: nat)
    requires s < |v| && off + n <= v[s].len
    ensures Start(v, s) + off + n <= |Flat(v)|
    ensures Flat(v)[Start(v, s) + off..Start(v, s) + off + n] == Range(v[s].base + off, n)
  {
    FlatPrefix(v, s + 1, |v|);
    var a := Start(v, s) + off;
    var f := FlatTo(v, s + 1);
    assert Flat(v)[a..a + n] == Flat(v)[..Start(v, s + 1)][a..a + n] == f[a..a + n];
    assert f[a..a + n] == Range(v[s].base + off, n);
  }

  /** Two canonical cursors at the same flat position are the same cursor. */
  lemma {:induction false} CanonicalUnique(v: seq<Segment>, s: nat, off: nat, s': nat, off': nat)
    requires Canonical(v, s, off) && Canonical(v, s', off')
    requires Start(v, s) + off == Start(v, s') + off'
    ensures s == s' && off == off'
  {
    if s < s' {
      StartMono(v, s + 1, s');
    } else if s' < s {
      StartMono(v, s' + 1, s);
    }
  }

  /** The advance loop: skip whole segments while at least one fits into x. */
  ghost function Seek(v: seq<Segment>, s: nat, x: nat): (nat, nat)
    requires s <= |v|
    decreases |v| - s
  {
    if s < |v| && v[s].len <= x then Seek(v, s + 1, x - v[s].len) else (s, x)
  }

  /** The revert loop: step back over segments until u bytes are undone. */
  ghost function Unwind(v: seq<Segment>, s: nat, u: nat): (nat, nat)
    requires s <= |v| && 0 < u <= Start(v, s)
  {
    var n := v[s - 1].len;
    if u <= n then (s - 1, n - u) else Unwind(v, s - 1, u - n)
  }

  /** The advance loop lands on the one canonical cursor at the requested flat position. */
  lemma {:induction false} SeekPosition(v: seq<Segment>, s: nat, x: nat)
    requires s <= |v| && Start(v, s) + x <= Start(v, |v|)
    ensures var (s', off') := Seek(v, s, x);
            s <= s' && Canonical(v, s', off') && Start(v, s') + off' == Start(v, s) + x
    decreases |v| - s
  {
    if s < |v| && v[s].len <= x {
      SeekPosition(v, s + 1, x - v[s].len);
    } else if s < |v| {
      StartMono(v, s, |v|);
    }
  }

  /** The revert loop lands on the one canonical cursor u bytes before the start of segment s. */
  lemma {:induction false} UnwindPosition(v: seq<Segment>, s: nat, u: nat)
    requires s <= |v| && 0 < u <= Start(v, s)
    ensures var (s', off') := Unwind(v, s, u);
            s' < s && Canonical(v, s', off') && Start(v, s') + off' == Start(v, s) - u
  {
    if v[s - 1].len < u {
      UnwindPosition(v, s - 1, u - v[s - 1].len);
    }
  }

  /** iov_iter without its vector: what save_state, advance and revert touch. */
  datatype Cur = Cur(seg: nat, nrSegs: nat, off: nat, count: nat)

  ghost predicate Wf(v: seq<Segment>, c: Cur) {
    && c.seg <= |v|
    && (if c.seg == |v| then c.off == 0 else c.off <= v[c.seg].len)
    && Pos(v, c) + c.count <= Start(v, |v|)
  }

  ghost function Pos(v: seq<Segment>, c: Cur): nat
    requires c.seg <= |v|
  {
    Start(v, c.seg) + c.off
  }

  /** The addresses the cursor has still to deliver. */
  ghost function RestOf(v: seq<Segment>, c: Cur): (r: seq<nat>)
    requires Wf(v, c)
    ensures |r| == c.count
  {
    Flat(v)[Pos(v, c)..Pos(v, c) + c.count]
  }

  /** Moving n bytes on drops the first n of the remaining addresses. */
  lemma {:induction false} RestAfter(v: seq<Segment>, c: Cur, c': Cur, n: nat)
    requires Wf(v, c) && Wf(v, c') && n <= c.count
    requires c'.count == c.count - n && Pos(v, c') == Pos(v, c) + n
    ensures RestOf(v, c') == RestOf(v, c)[n..]
  {
    hide Flat;
  }

  /** Moving n bytes back puts the n addresses before the cursor in front again. */
  lemma {:induction false} RestBefore(v: seq<Segment>, c: Cur, c': Cur, n: nat)
    requires Wf(v, c) && Wf(v, c') && n <= Pos(v, c)
    requires c'.count == c.count + n && Pos(v, c') == Pos(v, c) - n
    ensures RestOf(v, c') == Flat(v)[Pos(v, c')..Pos(v, c)] + RestOf(v, c)
  {
    hide Flat;
  }

  /** The next n addresses after the first `done` ones, when they lie in segment s from `skip` on. */
  lemma {:induction false} NextChunk(v: seq<Segment>, c: Cur, s: nat, skip: nat, done: nat, n: nat)
    requires Wf(v, c) && s < |v| && skip + n <= v[s].len
    requires Start(v, s) + skip == Pos(v, c) + done && done + n <= c.count
    ensures RestOf(v, c)[..done + n] == RestOf(v, c)[..done] + Range(v[s].base + skip, n)
  {
    FlatSlice(v, s, skip, n);
    var p := Pos(v, c) + done;
    assert RestOf(v, c)[done..done + n] == Flat(v)[p..p + n];
  }

  /** iov_iter_advance on a vector iterator; nr_segs shrinks by the segments skipped. */
  ghost function Advanced(v: seq<Segment>, c: Cur, size: nat): Cur
    requires Wf(v, c) && c.nrSegs == |v| - c.seg
  {
    if c.count == 0 then c else
      var n := Min(size, c.count);
      var (s, off) := Seek(v, c.seg, n + c.off);
      AdvancedFits(v, c, n);
      Cur(s, c.nrSegs - (s - c.seg), off, c.count - n)
  }

  lemma {:induction false} AdvancedFits(v: seq<Segment>, c: Cur, n: nat)
    requires Wf(v, c) && n <= c.count
    ensures var (s, off) := Seek(v, c.seg, n + c.off);
            c.seg <= s <= |v| && Canonical(v, s, off) && Start(v, s) + off == Pos(v, c) + n
  {
    SeekPosition(v, c.seg, n + c.off);
  }

  /** iov_iter_revert on a vector iterator, for an amount that was consumed before. */
  ghost function Reverted(v: seq<Segment>, c: Cur, unroll: nat): Cur
    requires Wf(v, c) && unroll <= Pos(v, c)
  {
    if unroll == 0 || unroll > MAX_RW_COUNT then c
    else if unroll <= c.off then c.(off := c.off - unroll, count := c.count + unroll)
    else
      var (s, off) := Unwind(v, c.seg, unroll - c.off);
      UnwindPosition(v, c.seg, unroll - c.off);
      Cur(s, c.nrSegs + (c.seg - s), off, c.count + unroll)
  }

  /**
   Reverting what was just advanced restores index, offset, nr_segs and count
   exactly when the amount is one that revert accepts.
   */
  lemma {:induction false} RevertUndoesAdvance(v: seq<Segment>, c: Cur, k: nat)
    requires Wf(v, c) && c.nrSegs == |v| - c.seg && Canonical(v, c.seg, c.off)
    requires 0 < k <= c.count
    ensures var a := Advanced(v, c, k);
            Wf(v, a) && k <= Pos(v, a) && (Reverted(v, a, k) == c <==> k <= MAX_RW_COUNT)
  {
    var a := Advanced(v, c, k);
    AdvancedFits(v, c, k);
    if k <= MAX_RW_COUNT {
      var r := Reverted(v, a, k);
      if a.off < k {
        UnwindPosition(v, a.seg, k - a.off);
      } else if c.seg < a.seg {
        StartMono(v, c.seg + 1, a.seg);
      }
      CanonicalUnique(v, r.seg, r.off, c.seg, c.off);
    }
  }

  /** Advancing in two steps is advancing once by the sum. */
  lemma {:induction false} AdvanceComposes(v: seq<Segment>, c: Cur, m: nat, n: nat)
    requires Wf(v, c) && c.nrSegs == |v| - c.seg && m + n <= c.count
    requires m < c.count
    ensures var a := Advanced(v, c, m);
            Wf(v, a) && a.nrSegs == |v| - a.seg && Advanced(v, a, n) == Advanced(v, c, m + n)
  {
    var a := Advanced(v, c, m);
    AdvancedFits(v, c, m);
    AdvancedFits(v, a, n);
    AdvancedFits(v, c, m + n);
    var x, y := Advanced(v, a, n), Advanced(v, c, m + n);
    CanonicalUnique(v, x.seg, x.off, y.seg, y.off);
  }

  /** Dropping segments that are behind the cursor changes nothing about what is left. */
  lemma {:induction false} FlatSuffix(v: seq<Segment>, s: nat, k: nat)
    requires s + k <= |v|
    ensures Start(v[s..], k) == Start(v, s + k) - Start(v, s)
    ensures Start(v, s) <= Start(v, s + k) && FlatTo(v[s..], k) == FlatTo(v, s + k)[Start(v, s)..]
    decreases k
  {
    if k > 0 {
      FlatSuffix(v, s, k - 1);
      assert v[s..][k - 1] == v[s + k - 1];
    }
  }

  lemma {:induction false} SuffixCursor(v: seq<Segment>, c: Cur)
    requires Wf(v, c)
    ensures var w, d := v[c.seg..], Cur(0, c.nrSegs, c.off, c.count);
            Wf(w, d) && RestOf(w, d) == RestOf(v, c)
  {
    FlatSuffix(v, c.seg, |v| - c.seg);
    var w := v[c.seg..];
    assert Flat(w)[c.off..c.off + c.count] == Flat(v)[Start(v, c.seg)..][c.off..c.off + c.count];
  }

  datatype SavedState = SavedState(off: nat, count: nat, nrSegs: nat)

  /** iov_iter_restore on a vector iterator: the index is recomputed from nr_segs. */
  ghost function Restored(c: Cur, st: SavedState): Cur
    requires st.nrSegs <= c.seg + c.nrSegs
  {
    Cur(c.seg + c.nrSegs - st.nrSegs, st.nrSegs, st.off, st.count)
  }
}
