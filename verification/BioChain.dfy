/**
 Chained completion: bio_chain and bio_endio as a state machine over their atomic steps.
 Any number of threads may be inside bio_endio; each bio records how far its own
 completion has come.
 */
module BioChain {

  datatype Phase =
    | Open                 // bio_remaining_done has not said true yet
    | Won                  // it has: the caller goes on to this bio's end_io
    | Checked(write: bool) // __bio_chain_endio has looked at both statuses
    | Updated              // and has written the parent's, if it must
    | Put                  // bio_put is done, bio_endio(parent) comes next
    | Delivered            // and has counted the parent's __bi_remaining down
    | Ended                // the bio's own bi_end_io has run

  /**
   parent is bi_private once bio_chain set it, or -1. `given`, the statuses that drivers have
   set, and the two counters are history.
   */
  datatype Node = Node(parent: int, held: bool, remaining: int, chain: bool, status: nat, phase: Phase,
                       given: set<nat>, puts: nat, ends: nat)

  type State = seq<Node>

  /** bio_init, by a caller who holds the bio. */
  const FRESH_NODE := Node(-1, true, 1, false, 0, Open, {}, 0, 0)

  datatype Step =
    | Chain(c: nat, p: nat)   // bio_chain
    | Fail(b: nat, e: nat)    // a driver sets bi_status
    | Endio(b: nat)           // the holder calls bio_endio
    | Check(b: nat)           // the steps of a bio_endio that has won:
    | Write(b: nat)
    | Release(b: nat)
    | Climb(b: nat)
    | End(b: nat)

  /** bio_remaining_done. */
  function Arrive(n: Node): Node {
    if !n.chain then n.(phase := Won)
    else if n.remaining == 1 then n.(remaining := 0, chain := false, phase := Won)
    else n.(remaining := n.remaining - 1)
  }

  /**
   When a step may happen. Parent and child are still held when they are chained, and
   rank orders the forest that the run builds, so that no bio becomes its own ancestor.
   */
  predicate Enabled(rank: nat -> nat, s: State, t: Step) {
    match t
    case Chain(c, p) =>
      && c < |s| && p < |s| && s[c].held && s[p].held && s[c].parent == -1 && rank(c) < rank(p)
    case Fail(b, e) => b < |s| && s[b].held && e != 0
    case Endio(b) => b < |s| && s[b].held
    case Check(b) => b < |s| && s[b].phase == Won && 0 <= s[b].parent < |s|
    case Write(b) => b < |s| && s[b].phase.Checked? && 0 <= s[b].parent < |s|
    case Release(b) => b < |s| && s[b].phase == Updated
    case Climb(b) => b < |s| && s[b].phase == Put && 0 <= s[b].parent < |s| && s[b].parent != b
    case End(b) => b < |s| && s[b].phase == Won && s[b].parent == -1
  }

  function Take(rank: nat -> nat, s: State, t: Step): (r: State)
    requires Enabled(rank, s, t)
    ensures |r| == |s|
  {
    match t
    case Chain(c, p) =>
      s[c := s[c].(parent := p)][p := s[p].(chain := true, remaining := s[p].remaining + 1)]
    case Fail(b, e) => s[b := s[b].(status := e, given := s[b].given + {e})]
    case Endio(b) => s[b := Arrive(s[b].(held := false))]
    case Check(b) =>
      s[b := s[b].(phase := Checked(s[b].status != 0 && s[s[b].parent].status == 0))]
    case Write(b) =>
      var p := s[b].parent;
      var s1 := if s[b].phase.write then s[p := s[p].(status := s[b].status)] else s;
      s1[b := s1[b].(phase := Updated)]
    case Release(b) => s[b := s[b].(phase := Put, puts := s[b].puts + 1)]
    case Climb(b) =>
      var p := s[b].parent;
      s[b := s[b].(phase := Delivered)][p := Arrive(s[p])]
    case End(b) => s[b := s[b].(phase := Ended, ends := s[b].ends + 1)]
  }

  /** A child of b that bio_endio has not reported to b yet. */
  predicate Owes(s: State, c: nat, b: nat) {
    c < |s| && s[c].parent == b && s[c].phase != Delivered
  }

  ghost function Owing(s: State, b: nat): set<nat> {
    set c: nat | c < |s| && Owes(s, c, b)
  }

  /** Every completion that b still waits for: its own, and those of its children. */
  ghost function Pending(s: State, b: nat): nat
    requires b < |s|
  {
    (if s[b].held then 1 else 0) + |Owing(s, b)|
  }

  /** c has passed its failure on, if it had one. */
  predicate Passed(n: Node) {
    n.phase == Updated || n.phase == Put || n.phase == Delivered
  }

  predicate NodeOk(n: Node) {
    && n.puts == (if n.phase == Put || n.phase == Delivered then 1 else 0)
    && n.ends == (if n.phase == Ended then 1 else 0)
    && (n.parent < 0 ==> n.phase == Open || n.phase == Won || n.phase == Ended)
    && (n.phase == Ended ==> n.parent < 0)
    && (n.held ==> n.phase == Open)
    && (n.phase != Open ==> !n.chain)
    && (n.given != {} ==> n.status != 0)
    && (n.phase == Checked(true) ==> n.status != 0)
  }

  predicate EdgeOk(rank: nat -> nat, s: State, b: nat)
    requires b < |s|
  {
    var p := s[b].parent;
    && -1 <= p < |s|
    && (p >= 0 ==>
      && rank(b) < rank(p)
      && (Passed(s[b]) && s[b].status != 0 ==> s[p].status != 0)
      && (s[b].phase == Checked(false) && s[b].status != 0 ==> s[p].status != 0))
  }

  /** The counter of an open bio is what it waits for; nothing is left to wait for afterwards. */
  ghost predicate CountOk(s: State, b: nat)
    requires b < |s|
  {
    if s[b].phase == Open then
      && s[b].remaining == Pending(s, b) > 0
      && (!s[b].chain ==> s[b].held && Owing(s, b) == {})
    else Pending(s, b) == 0
  }

  /** c is a child of b that has passed b the status that b has. */
  predicate Source(s: State, c: nat, b: nat)
    requires b < |s|
  {
    c < |s| && s[c].parent == b && Passed(s[c]) && s[c].status == s[b].status
  }

  /** b's status is not out of thin air: it was given to b, or a child has passed it on. */
  ghost predicate StatusOk(s: State, b: nat)
    requires b < |s|
  {
    s[b].status != 0 ==> s[b].status in s[b].given || exists c: nat :: Source(s, c, b)
  }

  ghost predicate Inv(rank: nat -> nat, s: State) {
    && (forall b: nat :: b < |s| ==> NodeOk(s[b]))
    && (forall b: nat :: b < |s| ==> EdgeOk(rank, s, b))
    && (forall b: nat :: b < |s| ==> CountOk(s, b))
    && (forall b: nat :: b < |s| ==> StatusOk(s, b))
  }

  lemma {:induction false} InvInit(rank: nat -> nat, s: State)
    requires forall b: nat :: b < |s| ==> s[b] == FRESH_NODE
    ensures Inv(rank, s)
  {
    forall b: nat | b < |s| ensures CountOk(s, b) {
      assert Owing(s, b) == {};
    }
  }

  /** What b waits for is unchanged when its token and its debtors are. */
  lemma {:induction false} PendingKept(s: State, s': State, b: nat)
    requires b < |s| == |s'| && s'[b].held == s[b].held
    requires forall c: nat :: c < |s| ==> (Owes(s', c, b) <==> Owes(s, c, b))
    ensures Owing(s', b) == Owing(s, b) && Pending(s', b) == Pending(s, b)
  {
  }

  lemma {:induction false} CountChain(rank: nat -> nat, s: State, c: nat, p: nat, b: nat)
    requires Enabled(rank, s, Chain(c, p)) && c != p && b < |s| && CountOk(s, b) && NodeOk(s[c])
    ensures CountOk(Take(rank, s, Chain(c, p)), b)
  {
    var s' := Take(rank, s, Chain(c, p));
    if b == p {
      OneMoreOwes(s, s', c, p);
    } else {
      PendingKept(s, s', b);
    }
  }

  lemma {:induction false} OneMoreOwes(s: State, s': State, c: nat, p: nat)
    requires c < |s| == |s'| && p < |s| && !Owes(s, c, p) && s'[p].held == s[p].held
    requires forall x: nat :: x < |s| ==> (Owes(s', x, p) <==> Owes(s, x, p) || x == c)
    ensures Pending(s', p) == Pending(s, p) + 1 && c in Owing(s', p)
  {
    assert Owing(s', p) == Owing(s, p) + {c};
  }

  lemma {:induction false} InvChain(rank: nat -> nat, s: State, c: nat, p: nat)
    requires Inv(rank, s) && Enabled(rank, s, Chain(c, p))
    ensures Inv(rank, Take(rank, s, Chain(c, p)))
  {
    hide CountOk;
    var s' := Take(rank, s, Chain(c, p));
    assert NodeOk(s[c]) && NodeOk(s[p]) && NodeOk(s'[c]) && NodeOk(s'[p]);
    forall b: nat | b < |s| ensures CountOk(s', b) && StatusOk(s', b) && EdgeOk(rank, s', b) {
      assert EdgeOk(rank, s, b) && NodeOk(s[b]);
      CountChain(rank, s, c, p, b);
      StatusKept(s, s', b);
    }
  }

  /** A status is accounted for as long as no child that passed its failure on is touched. */
  lemma {:induction false} StatusKept(s: State, s': State, b: nat)
    requires b < |s| == |s'| && StatusOk(s, b) && s'[b].status == s[b].status && s[b].given <= s'[b].given
    requires forall c: nat :: Source(s, c, b) ==> Source(s', c, b)
    ensures StatusOk(s', b)
  {
    if s[b].status != 0 && s[b].status !in s[b].given {
      var c: nat :| Source(s, c, b);
      assert Source(s', c, b);
    }
  }

  /** One arrival: the count of b and what b waits for go down together. */
  lemma {:induction false} ArriveOk(s: State, s': State, b: nat, n: Node)
    requires b < |s| == |s'| && CountOk(s, b) && s[b].phase == Open
    requires n.remaining == s[b].remaining && n.chain == s[b].chain && n.phase == Open && s'[b] == Arrive(n)
    requires Pending(s', b) == Pending(s, b) - 1
    requires !s[b].chain ==> Pending(s', b) == 0
    ensures CountOk(s', b)
  {
  }

  lemma {:induction false} InvEndio(rank: nat -> nat, s: State, b: nat)
    requires Inv(rank, s) && Enabled(rank, s, Endio(b))
    ensures Inv(rank, Take(rank, s, Endio(b)))
  {
    var s' := Take(rank, s, Endio(b));
    assert NodeOk(s[b]) && CountOk(s, b) && NodeOk(s'[b]);
    forall a: nat | a < |s| ensures CountOk(s', a) && StatusOk(s', a) && EdgeOk(rank, s', a) {
      assert CountOk(s, a) && EdgeOk(rank, s, a) && NodeOk(s[a]);
      StatusKept(s, s', a);
      assert Owing(s', a) == Owing(s, a);
      if a == b {
        ArriveOk(s, s', b, s[b].(held := false));
      }
    }
  }

  lemma {:induction false} CountClimb(rank: nat -> nat, s: State, b: nat)
    requires Inv(rank, s) && Enabled(rank, s, Climb(b))
    ensures var s', p := Take(rank, s, Climb(b)), s[b].parent;
            s[p].phase == Open && NodeOk(s'[p]) && forall a: nat :: a < |s| ==> CountOk(s', a)
  {
    var s' := Take(rank, s, Climb(b));
    var p: nat := s[b].parent;
    ParentWaits(rank, s, b);
    assert NodeOk(s[p]) && CountOk(s, p);
    assert Owing(s', p) == Owing(s, p) - {b};
    ArriveOk(s, s', p, s[p]);
    forall a: nat | a < |s| ensures CountOk(s', a) {
      assert CountOk(s, a);
      if a != p {
        PendingKept(s, s', a);
      }
    }
  }

  lemma {:induction false} InvClimb(rank: nat -> nat, s: State, b: nat)
    requires Inv(rank, s) && Enabled(rank, s, Climb(b))
    ensures Inv(rank, Take(rank, s, Climb(b)))
  {
    var s' := Take(rank, s, Climb(b));
    var p: nat := s[b].parent;
    CountClimb(rank, s, b);
    assert NodeOk(s[b]) && NodeOk(s'[b]);
    hide CountOk;
    forall a: nat | a < |s| ensures CountOk(s', a) && StatusOk(s', a) && EdgeOk(rank, s', a) {
      assert EdgeOk(rank, s, a) && NodeOk(s[a]);
      StatusKept(s, s', a);
    }
  }

  /** While a chained bio has not reported, its parent is open and counts it. */
  lemma {:induction false} ParentWaits(rank: nat -> nat, s: State, b: nat)
    requires Inv(rank, s) && b < |s| && s[b].parent >= 0 && s[b].phase != Delivered
    ensures var p := s[b].parent;
            && p < |s| && p != b && s[p].phase == Open && s[p].remaining > 0 && s[p].chain
            && b in Owing(s, p)
  {
    assert EdgeOk(rank, s, b);
    var p: nat := s[b].parent;
    assert Owes(s, b, p) && CountOk(s, p);
    assert b in Owing(s, p);
  }

  lemma {:induction false} InvCheck(rank: nat -> nat, s: State, b: nat)
    requires Inv(rank, s) && Enabled(rank, s, Check(b))
    ensures Inv(rank, Take(rank, s, Check(b)))
  {
    var s' := Take(rank, s, Check(b));
    assert NodeOk(s[b]) && EdgeOk(rank, s, b) && NodeOk(s'[b]);
    forall a: nat | a < |s| ensures CountOk(s', a) && StatusOk(s', a) && EdgeOk(rank, s', a) {
      assert CountOk(s, a) && EdgeOk(rank, s, a);
      StatusKept(s, s', a);
      PendingKept(s, s', a);
    }
  }

  lemma {:induction false} InvWrite(rank: nat -> nat, s: State, b: nat)
    requires Inv(rank, s) && Enabled(rank, s, Write(b))
    ensures Inv(rank, Take(rank, s, Write(b)))
  {
    var s' := Take(rank, s, Write(b));
    var p: nat := s[b].parent;
    ParentWaits(rank, s, b);
    assert NodeOk(s[b]) && NodeOk(s[p]) && NodeOk(s'[b]) && NodeOk(s'[p]);
    assert s[b].phase.write ==> s[b].phase == Checked(true);
    assert !s[b].phase.write ==> s[b].phase == Checked(false);
    forall a: nat | a < |s| ensures CountOk(s', a) && StatusOk(s', a) && EdgeOk(rank, s', a) {
      assert CountOk(s, a) && EdgeOk(rank, s, a) && NodeOk(s[a]) && EdgeOk(rank, s, b);
      PendingKept(s, s', a);
      if a == p && s[b].phase.write {
        assert Source(s', b, p);
      } else {
        StatusKept(s, s', a);
      }
    }
  }

  lemma {:induction false} InvRelease(rank: nat -> nat, s: State, b: nat)
    requires Inv(rank, s) && Enabled(rank, s, Release(b))
    ensures Inv(rank, Take(rank, s, Release(b)))
  {
    var s' := Take(rank, s, Release(b));
    assert NodeOk(s[b]) && NodeOk(s'[b]);
    forall a: nat | a < |s| ensures CountOk(s', a) && StatusOk(s', a) && EdgeOk(rank, s', a) {
      assert CountOk(s, a) && EdgeOk(rank, s, a);
      StatusKept(s, s', a);
      PendingKept(s, s', a);
    }
  }

  lemma {:induction false} InvEnd(rank: nat -> nat, s: State, b: nat)
    requires Inv(rank, s) && Enabled(rank, s, End(b))
    ensures Inv(rank, Take(rank, s, End(b)))
  {
    var s' := Take(rank, s, End(b));
    assert NodeOk(s[b]) && NodeOk(s'[b]);
    forall a: nat | a < |s| ensures CountOk(s', a) && StatusOk(s', a) && EdgeOk(rank, s', a) {
      assert CountOk(s, a) && EdgeOk(rank, s, a);
      StatusKept(s, s', a);
      PendingKept(s, s', a);
    }
  }

  lemma {:induction false} InvFail(rank: nat -> nat, s: State, b: nat, e: nat)
    requires Inv(rank, s) && Enabled(rank, s, Fail(b, e))
    ensures Inv(rank, Take(rank, s, Fail(b, e)))
  {
    var s' := Take(rank, s, Fail(b, e));
    assert NodeOk(s[b]) && NodeOk(s'[b]);
    forall a: nat | a < |s| ensures CountOk(s', a) && StatusOk(s', a) && EdgeOk(rank, s', a) {
      assert CountOk(s, a) && EdgeOk(rank, s, a) && StatusOk(s, a);
      PendingKept(s, s', a);
      if a != b {
        StatusKept(s, s', a);
      }
    }
  }

  /** Every step keeps the invariant. */
  lemma {:induction false} InvStep(rank: nat -> nat, s: State, t: Step)
    requires Inv(rank, s) && Enabled(rank, s, t)
    ensures Inv(rank, Take(rank, s, t))
  {
    match t
    case Chain(c, p) => InvChain(rank, s, c, p);
    case Fail(b, e) => InvFail(rank, s, b, e);
    case Endio(b) => InvEndio(rank, s, b);
    case Check(b) => InvCheck(rank, s, b);
    case Write(b) => InvWrite(rank, s, b);
    case Release(b) => InvRelease(rank, s, b);
    case Climb(b) => InvClimb(rank, s, b);
    case End(b) => InvEnd(rank, s, b);
  }

  /** b is r or one of r's descendants. */
  ghost predicate Under(rank: nat -> nat, s: State, b: nat, r: nat)
    requires Ordered(rank, s) && b < |s|
    decreases |s| - rank(b)
  {
    assert EdgeOk(rank, s, b);
    b == r || (s[b].parent >= 0 && Under(rank, s, s[b].parent, r))
  }

  /** Edges go up in rank, and ranks are as bounded as those of a forest of |s| bios can be. */
  ghost predicate Ordered(rank: nat -> nat, s: State) {
    forall b: nat :: b < |s| ==> rank(b) < |s| && EdgeOk(rank, s, b)
  }

  /** The completion of b and of everything under it lies in the past. */
  predicate Complete(n: Node) {
    !n.held && n.phase != Open
  }

  /** bio_remaining_done says true for a bio only after every bio of its tree has completed. */
  lemma {:induction false} TreeComplete(rank: nat -> nat, s: State, b: nat, r: nat)
    requires Inv(rank, s) && Ordered(rank, s) && b < |s| && r < |s| && Under(rank, s, b, r) && s[r].phase != Open
    ensures Complete(s[b]) && (b != r ==> s[b].phase == Delivered && s[b].puts == 1)
    decreases |s| - rank(b)
  {
    if b == r {
      assert NodeOk(s[b]);
    } else {
      TreeComplete(rank, s, s[b].parent, r);
      if s[b].phase != Delivered {
        ParentWaits(rank, s, b);
      }
      assert NodeOk(s[b]);
    }
  }

  /** A failure anywhere in a completed tree has reached its root. */
  lemma {:induction false} FailureClimbs(rank: nat -> nat, s: State, b: nat, r: nat)
    requires Inv(rank, s) && Ordered(rank, s) && b < |s| && r < |s| && Under(rank, s, b, r) && s[r].phase != Open
    requires s[b].status != 0
    ensures s[r].status != 0
    decreases |s| - rank(b)
  {
    if b != r {
      TreeComplete(rank, s, b, r);
      assert EdgeOk(rank, s, b);
      FailureClimbs(rank, s, s[b].parent, r);
    }
  }

  /** A status in the root is one that a driver gave to a bio of its tree. */
  lemma {:induction false} FailureFound(rank: nat -> nat, s: State, b: nat, r: nat) returns (f: nat)
    requires Inv(rank, s) && Ordered(rank, s) && b < |s| && r < |s| && Under(rank, s, b, r) && s[b].status != 0
    ensures f < |s| && Under(rank, s, f, r) && s[b].status in s[f].given
    decreases rank(b)
  {
    assert StatusOk(s, b);
    if s[b].status in s[b].given {
      f := b;
    } else {
      var c: nat :| Source(s, c, b);
      assert EdgeOk(rank, s, c);
      f := FailureFound(rank, s, c, r);
    }
  }

  lemma {:induction false} OrderedStep(rank: nat -> nat, s: State, t: Step)
    requires Inv(rank, s) && Ordered(rank, s) && Enabled(rank, s, t)
    ensures Ordered(rank, Take(rank, s, t))
  {
    InvStep(rank, s, t);
  }

  /** A run from freshly initialised bios: steps[k] leads from states[k] to states[k + 1]. */
  ghost predicate Run(rank: nat -> nat, states: seq<State>, steps: seq<Step>) {
    && |states| == |steps| + 1
    && (forall b: nat :: b < |states[0]| ==> states[0][b] == FRESH_NODE && rank(b) < |states[0]|)
    && forall k: nat :: k < |steps| ==>
      Enabled(rank, states[k], steps[k]) && states[k + 1] == Take(rank, states[k], steps[k])
  }

  lemma {:induction false} RunInv(rank: nat -> nat, states: seq<State>, steps: seq<Step>, k: nat)
    requires Run(rank, states, steps) && k < |states|
    ensures Inv(rank, states[k]) && Ordered(rank, states[k])
  {
    if k == 0 {
      InvInit(rank, states[0]);
    } else {
      RunInv(rank, states, steps, k - 1);
      InvStep(rank, states[k - 1], steps[k - 1]);
      OrderedStep(rank, states[k - 1], steps[k - 1]);
    }
  }

  /**
   Safety of chained completion, at every moment of every run, for every bio r that has
   no parent: its bi_end_io has run at most once, and once it has, every bio of its tree
   has completed, every chained one was put exactly once, r's status says exactly whether
   one of them failed, and it is a status that a driver gave to one of them.
   */
  lemma {:induction false} EndsOnce(rank: nat -> nat, states: seq<State>, steps: seq<Step>, k: nat, r: nat)
    requires Run(rank, states, steps) && k < |states| && r < |states[k]|
    ensures Ordered(rank, states[k])
    ensures var s := states[k];
            && s[r].ends <= 1 && s[r].puts <= 1
            && (s[r].ends == 1 ==>
              && s[r].parent == -1
              && (forall b: nat :: b < |s| && Under(rank, s, b, r) ==>
                    Complete(s[b]) && s[b].ends == (if b == r then 1 else 0) && s[b].puts == (if b == r then 0 else 1))
              && (s[r].status != 0 <==> exists b: nat :: b < |s| && Under(rank, s, b, r) && s[b].given != {})
              && (s[r].status != 0 ==> exists b: nat :: b < |s| && Under(rank, s, b, r) && s[r].status in s[b].given))
  {
    RunInv(rank, states, steps, k);
    var s := states[k];
    assert NodeOk(s[r]) && EdgeOk(rank, s, r);
    if s[r].ends == 1 {
      forall b: nat | b < |s| && Under(rank, s, b, r)
        ensures Complete(s[b]) && s[b].ends == (if b == r then 1 else 0) && s[b].puts == (if b == r then 0 else 1)
        ensures s[b].given != {} ==> s[r].status != 0
      {
        TreeComplete(rank, s, b, r);
        assert NodeOk(s[b]);
        if s[b].given != {} {
          FailureClimbs(rank, s, b, r);
        }
      }
      if s[r].status != 0 {
        var f := FailureFound(rank, s, r, r);
      }
    }
  }

  /**
   The first error stays: a status that a bio has is only replaced when a driver sets another
   one, or by a child that looked at it (at step j) while it was still 0.
   */
  lemma {:induction false} FirstErrorStays(rank: nat -> nat, states: seq<State>, steps: seq<Step>, k: nat, p: nat)
    requires Run(rank, states, steps) && k < |steps| && p < |states[k]| && |states[k + 1]| == |states[k]|
    requires states[k][p].status != 0 && states[k + 1][p].status != states[k][p].status
    ensures
      || steps[k] == Fail(p, states[k + 1][p].status)
      || (&& steps[k].Write? && steps[k].b < |states[k]| && states[k][steps[k].b].parent == p
          && states[k + 1][p].status == states[k][steps[k].b].status
          && exists j :: 0 <= j < k && SawNone(states, steps, j, steps[k].b, p))
  {
    RunInv(rank, states, steps, k);
    if steps[k].Write? {
      var b := steps[k].b;
      assert NodeOk(states[k][b]);
      WhenChecked(rank, states, steps, k, b);
    }
  }

  /** At step j child b has found its parent p without an error. */
  ghost predicate SawNone(states: seq<State>, steps: seq<Step>, j: nat, b: nat, p: nat) {
    && j < |steps| && j < |states| && b < |states[j]| && p < |states[j]|
    && steps[j] == Check(b) && states[j][b].parent == p && states[j][p].status == 0
  }

  lemma {:induction false} WhenChecked(rank: nat -> nat, states: seq<State>, steps: seq<Step>, k: nat, b: nat)
    requires Run(rank, states, steps) && k < |states| && b < |states[k]| && states[k][b].phase == Checked(true)
    ensures states[k][b].parent >= 0 && exists j :: 0 <= j < k && SawNone(states, steps, j, b, states[k][b].parent)
  {
    hide Inv, Take, Enabled, Ordered;
    if k > 0 {
      RunInv(rank, states, steps, k - 1);
      CheckedNow(rank, states[k - 1], steps[k - 1], b);
      if steps[k - 1] == Check(b) {
        assert SawNone(states, steps, k - 1, b, states[k][b].parent);
      } else {
        WhenChecked(rank, states, steps, k - 1, b);
      }
    }
  }

  lemma CheckedNow(rank: nat -> nat, s: State, t: Step, b: nat)
    requires Inv(rank, s) && Enabled(rank, s, t) && b < |s| && Take(rank, s, t)[b].phase == Checked(true)
    ensures s[b].parent >= 0 && Take(rank, s, t)[b].parent == s[b].parent
    ensures if t == Check(b) then s[b].parent < |s| && s[s[b].parent].status == 0 else s[b].phase == Checked(true)
  {
    hide CountOk, StatusOk;
    assert NodeOk(s[b]);
    if t.Climb? {
      ParentWaits(rank, s, t.b);
    }
  }

  /** BUG_ON(__bi_remaining <= 0) never fires: whoever arrives at a chained bio finds the count positive. */
  lemma {:induction false} CountPositive(rank: nat -> nat, states: seq<State>, steps: seq<Step>, k: nat)
    requires Run(rank, states, steps) && k < |steps|
    ensures var s := states[k];
            match steps[k]
            case Endio(b) => s[b].phase == Open && s[b].remaining > 0
            case Climb(b) => s[s[b].parent].phase == Open && s[s[b].parent].chain && s[s[b].parent].remaining > 0
            case _ => true
  {
    RunInv(rank, states, steps, k);
    var s := states[k];
    match steps[k]
    case Endio(b) => assert NodeOk(s[b]) && CountOk(s, b);
    case Climb(b) => ParentWaits(rank, s, b);
    case _ =>
  }

  predicate Internal(t: Step) {
    !t.Chain? && !t.Fail? && !t.Endio?
  }

  predicate Finished(n: Node) {
    if n.parent < 0 then n.phase == Ended && n.ends == 1 else n.phase == Delivered && n.puts == 1
  }

  /**
   Progress: when every holder has called bio_endio, some thread can go on until every
   bio is finished; so when nothing moves any more, every root has ended exactly once
   and every chained bio was put exactly once.
   */
  lemma {:induction false} NoStall(rank: nat -> nat, states: seq<State>, steps: seq<Step>, k: nat)
    requires Run(rank, states, steps) && k < |states|
    requires forall b: nat :: b < |states[k]| ==> !states[k][b].held
    ensures (exists t :: Internal(t) && Enabled(rank, states[k], t))
            || forall b: nat :: b < |states[k]| ==> Finished(states[k][b])
  {
    RunInv(rank, states, steps, k);
    var s := states[k];
    if b: nat :| b < |s| && !Finished(s[b]) {
      var t := NextStep(rank, s, b);
    }
  }

  lemma {:induction false} NextStep(rank: nat -> nat, s: State, b: nat) returns (t: Step)
    requires Inv(rank, s) && Ordered(rank, s) && b < |s| && !Finished(s[b])
    requires forall a: nat :: a < |s| ==> !s[a].held
    ensures Internal(t) && Enabled(rank, s, t)
    decreases rank(b)
  {
    assert NodeOk(s[b]) && EdgeOk(rank, s, b) && CountOk(s, b);
    match s[b].phase
    case Open =>
      assert |Owing(s, b)| > 0;
      var c :| c in Owing(s, b);
      assert EdgeOk(rank, s, c) && NodeOk(s[c]);
      t := NextStep(rank, s, c);
    case Won => t := if s[b].parent < 0 then End(b) else Check(b);
    case Checked(_) => t := Write(b);
    case Updated => t := Release(b);
    case Put => t := Climb(b);
    case Delivered =>
    case Ended =>
  }

  /** How many steps a bio has still to go through. */
  function Ahead(n: Node): nat {
    (if n.held then 1 else 0) +
    match n.phase
    case Open => 6
    case Won => 5
    case Checked(_) => 4
    case Updated => 3
    case Put => 2
    case Delivered => 1
    case Ended => 1
  }

  ghost function TotalAhead(s: State): nat {
    if s == [] then 0 else TotalAhead(s[..|s| - 1]) + Ahead(s[|s| - 1])
  }

  lemma {:induction false} AheadUpdate(s: State, b: nat, n: Node)
    requires b < |s|
    ensures TotalAhead(s[b := n]) == TotalAhead(s) - Ahead(s[b]) + Ahead(n)
  {
    if b == |s| - 1 {
      assert s[b := n][..b] == s[..b];
    } else {
      AheadUpdate(s[..|s| - 1], b, n);
      assert s[b := n][..|s| - 1] == s[..|s| - 1][b := n];
    }
  }

  /** Completion comes to an end: every completion step brings the state closer to the last one. */
  lemma {:induction false} StepsRunOut(rank: nat -> nat, s: State, t: Step)
    requires Inv(rank, s) && Enabled(rank, s, t)
    ensures if Internal(t) || t.Endio? then TotalAhead(Take(rank, s, t)) < TotalAhead(s)
            else TotalAhead(Take(rank, s, t)) == TotalAhead(s)
  {
    hide TotalAhead, CountOk, StatusOk, EdgeOk;
    match t
    case Chain(c, p) =>
      AheadUpdate(s, c, s[c].(parent := p));
      AheadUpdate(s[c := s[c].(parent := p)], p, s[p].(chain := true, remaining := s[p].remaining + 1));
    case Fail(b, e) => AheadUpdate(s, b, s[b].(status := e, given := s[b].given + {e}));
    case Endio(b) =>
      assert NodeOk(s[b]);
      AheadUpdate(s, b, Arrive(s[b].(held := false)));
    case Check(b) => AheadUpdate(s, b, Take(rank, s, t)[b]);
    case Write(b) =>
      var p: nat := s[b].parent;
      ParentWaits(rank, s, b);
      AheadUpdate(s, p, s[p].(status := s[b].status));
      AheadUpdate(s, b, s[b].(phase := Updated));
      AheadUpdate(s[p := s[p].(status := s[b].status)], b, s[b].(phase := Updated));
    case Release(b) => AheadUpdate(s, b, Take(rank, s, t)[b]);
    case Climb(b) =>
      var p: nat := s[b].parent;
      ParentWaits(rank, s, b);
      AheadUpdate(s, b, s[b].(phase := Delivered));
      AheadUpdate(s[b := s[b].(phase := Delivered)], p, Arrive(s[p]));
    case End(b) => AheadUpdate(s, b, Take(rank, s, t)[b]);
  }
}
