/** The per-CPU cache of bios: bio_alloc_percpu_cache, bio_put_percpu_cache, pruning, and a CPU going away. */
module BioCaches {
  const THRESHOLD: nat := 16        // ALLOC_CACHE_THRESHOLD
  const CACHE_MAX: nat := 256       // ALLOC_CACHE_MAX
  const WORD: nat := 0x1_0000_0000

  /** bio_alloc_cache: two lists, the first entry first, and their counters. */
  datatype Cache = Cache(free: seq<nat>, irq: seq<nat>, nr: nat, nrIrq: nat)

  const EMPTY_CACHE := Cache([], [], 0, 0)

  datatype Place = InUse | OnFree(cpu: nat) | OnIrq(cpu: nat) | Freed

  ghost predicate NoDup(s: seq<nat>) {
    forall i, j :: 0 <= i < j < |s| ==> s[i] != s[j]
  }

  /** Counters are lengths, and the lists are what is placed on them. */
  ghost predicate CacheOk(c: Cache, cpu: nat, places: map<nat, Place>) {
    && c.nr == |c.free| && c.nrIrq == |c.irq| && c.nr + c.nrIrq <= CACHE_MAX + 1
    && NoDup(c.free) && NoDup(c.irq)
    && (forall b :: b in c.free <==> b in places && places[b] == OnFree(cpu))
    && (forall b :: b in c.irq <==> b in places && places[b] == OnIrq(cpu))
  }

  ghost predicate AllOk(caches: seq<Cache>, places: map<nat, Place>) {
    forall cpu :: 0 <= cpu < |caches| ==> CacheOk(caches[cpu], cpu, places)
  }

  /** How many bios a prune frees. */
  function PruneCount(c: Cache, nr: nat): (k: nat)
    ensures k <= |c.free| + |c.irq|
  {
    if nr != 0 && nr != |c.free| && nr < |c.free| + |c.irq| then nr else |c.free| + |c.irq|
  }

  /** A prune frees more than it was asked to exactly when nr is 0 or the free list's length. */
  lemma PruneTooMuchIff(c: Cache, nr: nat)
    ensures PruneCount(c, nr) > nr <==> |c.free| + |c.irq| > nr && (nr == 0 || nr == |c.free|)
  {
  }

  /** Two bios asked for, three freed. */
  lemma {:induction false} PruneTooMuchExample()
    ensures PruneCount(Cache([10, 11], [12], 2, 1), 2) == 3
  {
  }

  /** The callers there are ask for -1U, and then no more is freed than asked for, and everything. */
  lemma {:induction false} FullPruneExact(c: Cache, cpu: nat, places: map<nat, Place>)
    requires CacheOk(c, cpu, places)
    ensures PruneCount(c, WORD - 1) == |c.free| + |c.irq| <= WORD - 1
  {
  }

  lemma OkFacts(caches: seq<Cache>, cpu: nat, places: map<nat, Place>)
    requires AllOk(caches, places) && cpu < |caches|
    ensures var c := caches[cpu];
            && c.nr == |c.free| && c.nrIrq == |c.irq| && NoDup(c.free) && c.nr + c.nrIrq <= CACHE_MAX + 1
            && (forall b :: b in c.free <==> b in places && places[b] == OnFree(cpu))
            && (forall b :: b in c.irq <==> b in places && places[b] == OnIrq(cpu))
            && Apart(c, places)
  {
    assert CacheOk(caches[cpu], cpu, places);
  }

  lemma NoneMoved(places: map<nat, Place>, p: Place)
    ensures Moved(places, [], p) == places
  {
  }

  lemma FreeFirst(places: map<nat, Place>, free: seq<nat>, i: nat)
    requires i < |free| && NoDup(free) && forall b :: b in free ==> b in places
    ensures Moved(places, free[..i + 1], Freed) == Moved(places, free[..i], Freed)[free[i] := Freed]
    ensures free[i..][1..] == free[i + 1..] && Moved(places, free[..i], Freed)[free[i]] == places[free[i]]
  {
    assert free[..i + 1] == free[..i] + [free[i]];
  }

  lemma PopOk(caches: seq<Cache>, cpu: nat, places: map<nat, Place>, p: Place)
    requires AllOk(caches, places) && cpu < |caches| && caches[cpu].free != [] && (p == InUse || p == Freed)
    ensures var d := caches[cpu];
            var b := d.free[0];
            && d.nr > 0 && b in places && places[b] == OnFree(cpu)
            && AllOk(caches[cpu := Cache(d.free[1..], d.irq, d.nr - 1, d.nrIrq)], places[b := p])
  {
    var d := caches[cpu];
    assert CacheOk(d, cpu, places);
    Popped(d, cpu, places, p);
  }

  /** The listed bios go to place p. */
  function Moved(places: map<nat, Place>, bs: seq<nat>, p: Place): map<nat, Place> {
    map b | b in places :: if b in bs then p else places[b]
  }

  /** Taking the first bio off a free list. */
  lemma Popped(c: Cache, cpu: nat, places: map<nat, Place>, p: Place)
    requires CacheOk(c, cpu, places) && c.free != [] && (p == InUse || p == Freed)
    ensures CacheOk(Cache(c.free[1..], c.irq, c.nr - 1, c.nrIrq), cpu, places[c.free[0] := p])
  {
    var b, rest := c.free[0], c.free[1..];
    assert c.free == [b] + rest;
    assert b !in rest;
  }

  /** The first k bios of both lists together are freed, the others are still cached, and no other bio is touched. */
  ghost predicate Pruned(c: Cache, c': Cache, places: map<nat, Place>, places': map<nat, Place>, k: nat) {
    && k <= |c.free| + |c.irq| && c'.free + c'.irq == (c.free + c.irq)[k..] && places'.Keys == places.Keys
    && (forall b :: b in (c.free + c.irq)[..k] ==> b in places' && places'[b] == Freed)
    && (forall b :: b in places && b !in c.free && b !in c.irq ==> places'[b] == places[b])
  }

  /** Every bio listed is known, and on one list only. */
  ghost predicate Apart(c: Cache, places: map<nat, Place>) {
    (forall b :: b in c.free ==> b in places && b !in c.irq) && forall b :: b in c.irq ==> b in places
  }

  /** A prune that the free list alone satisfies. */
  lemma PrunedFirst(c: Cache, c': Cache, places: map<nat, Place>, i: nat)
    requires i <= |c.free| && Apart(c, places) && c'.free == c.free[i..] && c'.irq == c.irq
    ensures Pruned(c, c', places, Moved(places, c.free[..i], Freed), i)
  {
    assert (c.free + c.irq)[..i] == c.free[..i];
  }

  /** A prune that empties the free list, splices, and goes on for j more. */
  lemma PrunedBoth(c: Cache, c': Cache, places: map<nat, Place>, cpu: nat, j: nat)
    requires j <= |c.irq| && Apart(c, places) && c'.free == c.irq[j..] && c'.irq == []
    ensures var p1 := Moved(Moved(places, c.free[..|c.free|], Freed), c.irq, OnFree(cpu));
            Pruned(c, c', places, Moved(p1, c.irq[..j], Freed), |c.free| + j)
  {
    assert (c.free + c.irq)[..|c.free| + j] == c.free + c.irq[..j];
  }

  /** On a list of one of the first n CPUs. */
  predicate CachedBelow(p: Place, n: nat) {
    match p case OnFree(cpu) => cpu < n case OnIrq(cpu) => cpu < n case _ => false
  }

  /** A bio that is on no list may come into use. */
  lemma NewOk(caches: seq<Cache>, places: map<nat, Place>, b: nat)
    requires AllOk(caches, places) && (b in places ==> places[b] == Freed)
    ensures AllOk(caches, places[b := InUse])
  {
    forall cpu | 0 <= cpu < |caches| ensures CacheOk(caches[cpu], cpu, places[b := InUse]) {
      assert CacheOk(caches[cpu], cpu, places);
    }
  }

  /** What callers see of the allocator: a bio is handed out, or put for the last time. */
  datatype Event = Took(b: nat) | Gave(b: nat) | Nothing

  function Changed(held: set<nat>, e: Event): set<nat> {
    match e
    case Took(b) => held + {b}
    case Gave(b) => held - {b}
    case Nothing => held
  }

  ghost function HeldAfter(log: seq<Event>): set<nat> {
    if log == [] then {} else Changed(HeldAfter(log[..|log| - 1]), log[|log| - 1])
  }

  /** No bio is handed out that somebody holds. */
  ghost predicate Exclusive(log: seq<Event>) {
    forall k :: 0 <= k < |log| && log[k].Took? ==> log[k].b !in HeldAfter(log[..k])
  }

  /** So between two times that a bio is handed out it was put. */
  lemma {:induction false} GivenBetween(log: seq<Event>, i: nat, j: nat)
    requires Exclusive(log) && i < j < |log| && log[i].Took? && log[j] == log[i]
    ensures exists k :: i < k < j && log[k] == Gave(log[i].b)
  {
    if forall k :: i < k < j ==> log[k] != Gave(log[i].b) {
      StillHeld(log, i, j);
    }
  }

  lemma {:induction false} StillHeld(log: seq<Event>, i: nat, j: nat)
    requires i < j <= |log| && log[i].Took? && forall k :: i < k < j ==> log[k] != Gave(log[i].b)
    ensures log[i].b in HeldAfter(log[..j])
  {
    assert log[..j][..j - 1] == log[..j - 1];
    if i < j - 1 {
      StillHeld(log, i, j - 1);
    }
  }

  lemma LogMore(log: seq<Event>, e: Event)
    requires Exclusive(log) && (e.Took? ==> e.b !in HeldAfter(log))
    ensures Exclusive(log + [e])
    ensures HeldAfter(log + [e]) == Changed(HeldAfter(log), e)
  {
    var log' := log + [e];
    assert log'[..|log|] == log;
    forall k | 0 <= k < |log'| && log'[k].Took? ensures log'[k].b !in HeldAfter(log'[..k]) {
      assert k < |log| ==> log'[..k] == log[..k];
    }
  }

  /** A prune takes no bio away from its user, and gives none to anybody. */
  lemma PrunedInUse(caches: seq<Cache>, caches': seq<Cache>, cpu: nat, places: map<nat, Place>,
                    places': map<nat, Place>, k: nat)
    requires AllOk(caches, places) && AllOk(caches', places') && cpu < |caches| == |caches'|
    requires Pruned(caches[cpu], caches'[cpu], places, places', k)
    ensures places'.Keys == places.Keys && forall b :: b in places ==> (places[b] == InUse <==> places'[b] == InUse)
  {
    hide AllOk, CacheOk, NoDup;
    OkFacts(caches, cpu, places);
    OkFacts(caches', cpu, places');
    var c, c' := caches[cpu], caches'[cpu];
    var all := c.free + c.irq;
    forall b | b in c.free || b in c.irq ensures b in places' && places'[b] != InUse {
      assert b in all;
      assert all == all[..k] + all[k..];
      if b !in all[..k] {
        assert b in c'.free + c'.irq;
      }
    }
  }

  /** One step of a run; a put names the bio by its place among those held, a CPU may go away. */
  datatype Step = Alloc(cpu: nat, cacheable: bool) | Put(cpu: nat, b: nat, cacheable: bool, polled: bool)
    | Shrink(cpu: nat, nr: nat) | Dead(cpu: nat)

  /** What a step comes to when the bios in `held` are in use, on a machine of n CPUs. */
  predicate Answers(step: Step, n: nat, held: set<nat>, e: Event) {
    if step.cpu >= n then e == Nothing else
      match step
      case Alloc(_, _) => e.Took?
      case Put(_, b, _, _) => e == if b in held then Gave(b) else Nothing
      case _ => e == Nothing
  }

  lemma NoEvents()
    ensures Exclusive([])
  {
  }

  class BioSet {
    var caches: seq<Cache>            // one a CPU
    var places: map<nat, Place>       // where each bio ever allocated is; the source needs no such record

    constructor (cpus: nat)
      ensures Valid() && |caches| == cpus && places == map[]
    {
      caches := seq(cpus, _ => EMPTY_CACHE);
      places := map[];
    }

    ghost predicate Valid()
      reads this
    {
      AllOk(caches, places)
    }

    /** Only this CPU's cache and the given bio were touched. */
    twostate predicate OnlyAt(cpu: nat)
      reads this
    {
      |caches| == |old(caches)| && forall k :: 0 <= k < |caches| && k != cpu ==> caches[k] == old(caches)[k]
    }

    /** The bios that callers have and did not put. */
    ghost function Held(): set<nat>
      reads this
    {
      set b | b in places && places[b] == InUse
    }

    /** bio_free. Nothing is freed twice: a bio in some other state must be passed. */
    method SetPlace(b: nat, p: Place)
      requires b in places ==> places[b] != Freed
      modifies `places
      ensures places == old(places)[b := p]
    {
      places := places[b := p];
    }

    /** bio_alloc_irq_cache_splice; it warns when the free list is not empty. */
    method Splice(cpu: nat) returns (warned: bool)
      requires Valid() && cpu < |caches|
      modifies this
      ensures Valid() && OnlyAt(cpu)
      ensures warned <==> old(caches)[cpu].free != []
      ensures warned ==> caches == old(caches) && places == old(places)
      ensures !warned ==>
        && caches[cpu] == Cache(old(caches)[cpu].irq, [], old(caches)[cpu].nrIrq, 0)
        && places == Moved(old(places), old(caches)[cpu].irq, OnFree(cpu))
    {
      var c := caches[cpu];
      if c.free != [] {
        return true;
      }
      caches := caches[cpu := Cache(c.irq, [], c.nr + c.nrIrq, 0)];
      places := Moved(places, c.irq, OnFree(cpu));
      warned := false;
    }

    /** bio_alloc_percpu_cache. */
    method AllocCached(cpu: nat) returns (ok: bool, b: nat)
      requires Valid() && cpu < |caches|
      modifies this
      ensures Valid() && OnlyAt(cpu)
      ensures var c := old(caches)[cpu]; ok <==> c.free != [] || c.nrIrq >= THRESHOLD
      ensures var c := old(caches)[cpu];
              ok ==>
                && (b in c.free || b in c.irq) && b in places && places[b] == InUse
                && caches[cpu].nr + caches[cpu].nrIrq == c.nr + c.nrIrq - 1
                && forall x :: x in old(places) && x != b ==>
                     && x in places
                     && (places[x] == old(places)[x] || (old(places)[x] == OnIrq(cpu) && places[x] == OnFree(cpu)))
      ensures places.Keys == old(places).Keys
      ensures !ok ==> caches == old(caches) && places == old(places)
    {
      hide CacheOk, AllOk, NoDup;
      OkFacts(caches, cpu, places);
      if caches[cpu].free == [] {
        if caches[cpu].nrIrq >= THRESHOLD {
          var warned := Splice(cpu);
          assert !warned;
        }
        if caches[cpu].free == [] {
          return false, 0;
        }
      }
      var c := caches[cpu];
      b := c.free[0];
      PopOk(caches, cpu, places, InUse);
      caches := caches[cpu := Cache(c.free[1..], c.irq, c.nr - 1, c.nrIrq)];
      SetPlace(b, InUse);
      ok := true;
    }

    /**
     bio_alloc_bioset: a bio of the cache, where the caller may use it and it has one, or
     memory of the mempool that no bio occupies. Either way nobody else uses the bio.
     */
    method Alloc(cpu: nat, cacheable: bool, unused: nat) returns (b: nat)
      requires Valid() && cpu < |caches| && (unused in places ==> places[unused] == Freed)
      modifies this
      ensures Valid() && OnlyAt(cpu)
      ensures b !in old(Held()) && Held() == old(Held()) + {b}
      ensures var c := old(caches)[cpu];
              if cacheable && (c.free != [] || c.nrIrq >= THRESHOLD) then b in c.free || b in c.irq
              else b == unused && caches == old(caches)
    {
      hide CacheOk, AllOk, Moved;
      OkFacts(caches, cpu, places);
      if cacheable {
        var ok;
        ok, b := AllocCached(cpu);
        if ok {
          return;
        }
      }
      NewOk(caches, places, unused);
      b, places := unused, places[unused := InUse];
    }

    /**
     The last bio_put of a bio. `cacheable` is REQ_ALLOC_CACHE; `polled` is REQ_POLLED
     outside of interrupts.
     */
    method Put(cpu: nat, b: nat, cacheable: bool, polled: bool)
      requires Valid() && cpu < |caches| && b in places && places[b] == InUse
      modifies this
      ensures Valid() && OnlyAt(cpu)
      ensures var c := old(caches)[cpu];
              if !cacheable || c.nr + c.nrIrq > CACHE_MAX then
                caches == old(caches) && places == old(places)[b := Freed]
              else if polled then
                caches[cpu] == Cache([b] + c.free, c.irq, c.nr + 1, c.nrIrq) && places == old(places)[b := OnFree(cpu)]
              else
                caches[cpu] == Cache(c.free, [b] + c.irq, c.nr, c.nrIrq + 1) && places == old(places)[b := OnIrq(cpu)]
    {
      var c := caches[cpu];
      if !cacheable || c.nrIrq + c.nr > CACHE_MAX {
        SetPlace(b, Freed);
        return;
      }
      if polled {
        caches := caches[cpu := Cache([b] + c.free, c.irq, c.nr + 1, c.nrIrq)];
        SetPlace(b, OnFree(cpu));
      } else {
        caches := caches[cpu := Cache(c.free, [b] + c.irq, c.nr, c.nrIrq + 1)];
        SetPlace(b, OnIrq(cpu));
      }
    }

    /** __bio_alloc_cache_prune: stops after nr bios, which for 0 it never reaches. */
    method PruneList(cpu: nat, nr: nat) returns (i: nat)
      requires Valid() && cpu < |caches|
      modifies this
      ensures Valid() && OnlyAt(cpu)
      ensures var c := old(caches)[cpu];
              && i == (if nr == 0 || nr > |c.free| then |c.free| else nr)
              && caches[cpu] == Cache(c.free[i..], c.irq, c.nr - i, c.nrIrq)
              && places == Moved(old(places), c.free[..i], Freed)
    {
      hide CacheOk, AllOk, Moved;
      i := 0;
      ghost var c := caches[cpu];
      OkFacts(caches, cpu, places);
      NoneMoved(places, Freed);
      while caches[cpu].free != []
        invariant Valid() && OnlyAt(cpu) && i <= |c.free| && (nr == 0 || i < nr || c.free == [])
        invariant caches[cpu] == Cache(c.free[i..], c.irq, c.nr - i, c.nrIrq)
        invariant places == Moved(old(places), c.free[..i], Freed)
        decreases |caches[cpu].free|
      {
        var d := caches[cpu];
        FreeFirst(old(places), c.free, i);
        PopOk(caches, cpu, places, Freed);
        caches := caches[cpu := Cache(d.free[1..], d.irq, d.nr - 1, d.nrIrq)];
        SetPlace(d.free[0], Freed);
        i := i + 1;
        if i == nr {
          break;
        }
      }
    }

    /**
     bio_alloc_cache_prune. The count is an unsigned word, so that a prune of exactly as
     many bios as the free list has goes on to free the whole other list.
     */
    method Prune(cpu: nat, nr: nat)
      requires Valid() && cpu < |caches| && nr < WORD
      modifies this
      ensures Valid() && OnlyAt(cpu)
      ensures Pruned(old(caches)[cpu], caches[cpu], old(places), places, PruneCount(old(caches)[cpu], nr))
    {
      hide CacheOk, AllOk, Moved, Pruned, NoDup;
      ghost var c := caches[cpu];
      OkFacts(caches, cpu, places);
      var i := PruneList(cpu, nr);
      var left := (nr + WORD - i) % WORD;
      if caches[cpu].free == [] {
        var warned := Splice(cpu);
        assert !warned;
        var j := PruneList(cpu, left);
        PrunedBoth(c, caches[cpu], old(places), cpu, j);
      } else {
        PrunedFirst(c, caches[cpu], old(places), i);
      }
    }

    /** bio_cpu_dead: everything the CPU had cached is freed, once, and nothing else changes. */
    method CpuDead(cpu: nat)
      requires Valid() && cpu < |caches|
      modifies this
      ensures Valid() && OnlyAt(cpu) && caches[cpu] == EMPTY_CACHE && places.Keys == old(places).Keys
      ensures forall b :: b in places ==>
        places[b] == if old(places)[b] == OnFree(cpu) || old(places)[b] == OnIrq(cpu) then Freed else old(places)[b]
    {
      ghost var c := caches[cpu];
      OkFacts(caches, cpu, places);
      Prune(cpu, WORD - 1);
      assert (c.free + c.irq)[|c.free + c.irq|..] == [];
      assert (c.free + c.irq)[..|c.free + c.irq|] == c.free + c.irq;
    }

    /** bio_alloc_cache_destroy: what every CPU had cached is freed, once. */
    method Destroy()
      requires Valid()
      modifies this
      ensures Valid() && |caches| == |old(caches)| && forall cpu :: 0 <= cpu < |caches| ==> caches[cpu] == EMPTY_CACHE
      ensures places.Keys == old(places).Keys
      ensures forall b :: b in places ==>
        places[b] == if CachedBelow(old(places)[b], |caches|) then Freed else old(places)[b]
    {
      hide AllOk;
      var cpu := 0;
      while cpu < |caches|
        invariant Valid() && cpu <= |caches| == |old(caches)| && places.Keys == old(places).Keys
        invariant forall k :: 0 <= k < cpu ==> caches[k] == EMPTY_CACHE
        invariant forall b :: b in places ==>
          places[b] == if CachedBelow(old(places)[b], cpu) then Freed else old(places)[b]
      {
        CpuDead(cpu);
        cpu := cpu + 1;
      }
    }

    /**
     Whatever callers do on whatever CPUs, with the account of every step: an allocation hands
     out a bio, a put of a bio that is held takes it back, and nothing else does either. Nobody
     is given a bio that somebody else has, and the bios in use are those handed out and not put.
     */
    method Run(steps: seq<Step>) returns (ghost log: seq<Event>)
      requires Valid() && Held() == {}
      modifies this
      ensures Valid() && |caches| == |old(caches)| && Exclusive(log) && Held() == HeldAfter(log)
      ensures |log| == |steps| && forall k :: 0 <= k < |log| ==>
        Answers(steps[k], |caches|, HeldAfter(log[..k]), log[k])
    {
      hide AllOk, CacheOk, NoDup, Answers, Exclusive;
      log := [];
      assert Exclusive(log) by { NoEvents(); }
      var k := 0;
      while k < |steps|
        invariant 0 <= k <= |steps| && Valid() && |caches| == |old(caches)|
        invariant |log| == k && Exclusive(log) && Held() == HeldAfter(log)
        invariant forall j :: 0 <= j < k ==> Answers(steps[j], |caches|, HeldAfter(log[..j]), log[j])
      {
        ghost var e := Perform(steps[k]);
        LogMore(log, e);
        assert forall j :: 0 <= j <= k ==> (log + [e])[..j] == log[..j];
        log := log + [e];
        k := k + 1;
      }
    }

    /** One step; memory that the mempool comes up with is some that no bio occupies. */
    method Perform(step: Step) returns (ghost e: Event)
      requires Valid()
      modifies this
      ensures Valid() && |caches| == |old(caches)| && Answers(step, |caches|, old(Held()), e)
      ensures e.Took? ==> e.b !in old(Held())
      ensures Held() == Changed(old(Held()), e)
    {
      hide AllOk, CacheOk, NoDup, Pruned;
      e := Nothing;
      if step.cpu >= |caches| {
        return;
      }
      match step {
        case Alloc(cpu, cacheable) =>
          var unused := Unoccupied();
          var b := Alloc(cpu, cacheable, unused);
          e := Took(b);
        case Put(cpu, b, cacheable, polled) =>
          if b in places && places[b] == InUse {
            Put(cpu, b, cacheable, polled);
            e := Gave(b);
          }
        case Shrink(cpu, nr) =>
          if nr < WORD {
            Prune(cpu, nr);
            PrunedInUse(old(caches), caches, cpu, old(places), places, PruneCount(old(caches)[cpu], nr));
            assert Held() == old(Held());
          }
        case Dead(cpu) =>
          CpuDead(cpu);
          assert Held() == old(Held());
      }
    }

    method Unoccupied() returns (b: nat)
      ensures b !in places
    {
      b := 0;
      var seen := {};
      while b in places
        invariant seen <= places.Keys && forall x :: x in seen <==> 0 <= x < b
        decreases |places.Keys - seen|
      {
        ghost var before := places.Keys - seen;
        seen := seen + {b};
        assert places.Keys - seen == before - {b};
        b := b + 1;
      }
    }
  }
}
