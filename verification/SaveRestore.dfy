/** iov_iter_save_state and iov_iter_restore around arbitrary work on the iterator. */
module SaveRestore {
  import opened Params
  import opened Memory
  import opened Cursor
  import opened IovIter
  import opened UserPages
  import opened BvecPages

  datatype Op =
    | AdvanceBy(n: nat)
    | RevertBy(n: nat)
    | CopyOut(n: nat, faultAt: nat)
    | CopyIn(n: nat, faultAt: nat)
    | Extract(maxsize: nat, maxpages: nat, gup: int, allocOk: bool)
    | TruncateTo(limit: nat)
    | ReexpandTo(n: nat)

  lemma {:induction false} AllMapped(mem: seq<Byte>, v: seq<Segment>, c: Cur, k: nat)
    requires Mapped(mem, Flat(v)) && Wf(v, c) && k <= c.count
    ensures Mapped(mem, RestOf(v, c)[..k])
  {
    hide Flat;
    forall i | 0 <= i < k ensures RestOf(v, c)[..k][i] < |mem| {
      assert RestOf(v, c)[..k][i] == Flat(v)[Pos(v, c) + i];
    }
  }

  /**
   One operation. `behind` bytes lie between the saved position and the cursor, and
   `total` bytes were left at the saved position; going back further than the one, and
   reexpanding to more than the other leaves, is what a caller may not ask for. Pages come
   out of user memory or out of bio_vecs; for a kvec iterator the source answers with an
   error.
   */
  method Perform(it: Iter, op: Op, mem: array<Byte>, buf: array<Byte>, mm: AddressSpace, behind: nat, total: nat)
    returns (behind': nat)
    requires it.Valid() && mem != buf && Mapped(mem[..], Flat(it.vec)) && behind <= Pos(it.vec, it.Where())
    requires it.count + behind <= total && Pos(it.vec, it.Where()) - behind + total <= |Flat(it.vec)|
    modifies it, mem, buf, mm
    ensures it.Valid() && Pos(it.vec, it.Where()) - behind' == old(Pos(it.vec, it.Where())) - behind
    ensures it.count + behind' <= total
    ensures
      match op
      case AdvanceBy(n) => it.Consumed(Min(n, old(it.count)))
      case RevertBy(n) => n <= behind && n <= MAX_RW_COUNT ==> it.count == old(it.count) + n && behind' == behind - n
      case CopyOut(n, faultAt) =>
        it.Consumed(if it.dataSource then 0 else old(it.Reach(Min(n, buf.Length), faultAt)))
      case CopyIn(n, faultAt) =>
        it.Consumed(if it.dataSource then old(it.Reach(Min(n, buf.Length), faultAt)) else 0)
      case Extract(maxsize, maxpages, gup, allocOk) =>
        it.UserBacked() && old(it.count) > 0 && maxsize > 0 && gup > 0 && allocOk ==> it.count < old(it.count)
      case TruncateTo(limit) => it.Where() == old(it.Where()).(count := Min(old(it.count), limit))
      case ReexpandTo(n) => n + behind <= total ==> it.Where() == old(it.Where()).(count := n)
  {
    hide RestOf, Flat, Moved, Start, PagePointers, Frames, Range;
    behind' := behind;
    var had := it.count;
    match op {
      case AdvanceBy(n) =>
        it.Advance(n);
        behind' := behind + (had - it.count);
      case RevertBy(n) =>
        if n <= behind || n > MAX_RW_COUNT {
          it.Revert(n);
          behind' := if n > MAX_RW_COUNT then behind else behind - n;
        }
      case CopyOut(n, faultAt) =>
        AllMapped(mem[..], it.vec, it.Where(), it.Reach(Min(n, buf.Length), faultAt));
        var done := it.CopyToIter(mem, buf, 0, Min(n, buf.Length), faultAt);
        behind' := behind + done;
      case CopyIn(n, faultAt) =>
        AllMapped(mem[..], it.vec, it.Where(), it.Reach(Min(n, buf.Length), faultAt));
        var done := it.CopyFromIter(mem, buf, 0, Min(n, buf.Length), faultAt);
        behind' := behind + done;
      case Extract(maxsize, maxpages, gup, allocOk) =>
        if it.UserBacked() {
          var r, start, words := GetPagesAlloc(it, mm, maxsize, gup, allocOk);
          behind' := if r > 0 then behind + r else behind;
        } else if it.kind.BvecIter? {
          var r, start, words := GetBvecPages(it, mm, maxsize, maxpages, allocOk);
          behind' := if r > 0 then behind + r else behind;
        }
      case TruncateTo(limit) =>
        it.Truncate(limit);
      case ReexpandTo(n) =>
        if n + behind <= total {
          it.Reexpand(n);
        }
    }
  }

  /**
   iov_iter_restore brings back the saved iterator exactly, whatever was done in between:
   segment index plus nr_segs never changes, so the index need not be saved.
   */
  method SaveRunRestore(it: Iter, ops: seq<Op>, mem: array<Byte>, buf: array<Byte>, mm: AddressSpace)
    requires it.Valid() && mem != buf && Mapped(mem[..], Flat(it.vec))
    modifies it, mem, buf, mm
    ensures it.Where() == old(it.Where()) && it.Valid()
  {
    hide Flat, RestOf, Start;
    var st := it.SaveState();
    var behind, k := 0, 0;
    while k < |ops|
      invariant k <= |ops| && it.Valid() && Mapped(mem[..], Flat(it.vec))
      invariant Pos(it.vec, it.Where()) == old(Pos(it.vec, it.Where())) + behind
      invariant it.count + behind <= st.count
    {
      behind := Perform(it, ops[k], mem, buf, mm, behind, st.count);
      k := k + 1;
    }
    it.Restore(st);
  }
}
