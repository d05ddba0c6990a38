/**
 The concurrent pool refines an atomic one.

 In the atomic pool a call is invoked, takes effect in one indivisible step and
 then responds.  Every step of the C code is either invisible there or exactly
 one of those three; so every run of `struniq` is linearizable.
 */
module StruniqRefinement {
  import opened Struniq
  import opened StruniqInvariant
  import opened StruniqTheorems

  datatype Phase =
    | Ready
    | Pending(s: string)
    | Committed(s: string, r: Result)
    | Done(s: string, r: Result)

  datatype Atomic = Atomic(pool: map<string, Addr>, calls: map<Tid, Phase>)

  function PhaseOf(a: Atomic, t: Tid): Phase {
    if t in a.calls then a.calls[t] else Ready
  }

  function SetPhase(a: Atomic, t: Tid, p: Phase): Atomic {
    a.(calls := a.calls[t := p])
  }

  predicate Invoke(a: Atomic, t: Tid, s: string, b: Atomic) {
    (PhaseOf(a, t).Ready? || PhaseOf(a, t).Done?) && b == SetPhase(a, t, Pending(s))
  }

  /** The indivisible effect: find the string, add it, or give up for lack of memory. */
  predicate Commit(a: Atomic, t: Tid, r: Result, b: Atomic) {
    && PhaseOf(a, t).Pending?
    && var s := PhaseOf(a, t).s;
       match r
       case OutOfMemory => b == SetPhase(a, t, Committed(s, r))
       case Pooled(x) =>
         if s in a.pool then a.pool[s] == x && b == SetPhase(a, t, Committed(s, r))
         else x !in a.pool.Values && b == SetPhase(a.(pool := a.pool[s := x]), t, Committed(s, r))
  }

  predicate Respond(a: Atomic, t: Tid, b: Atomic) {
    && PhaseOf(a, t).Committed?
    && b == SetPhase(a, t, Done(PhaseOf(a, t).s, PhaseOf(a, t).r))
  }

  /** What a move with choice `c` may do: a call invokes with its own argument, a
      call gives up exactly when `malloc` fails, and a node handed out by `malloc` is
      not seen yet. */
  ghost predicate AtomicNext(a: Atomic, t: Tid, c: Choice, b: Atomic) {
    match c
    case Call(s) => Invoke(a, t, s, b)
    case MallocFails => Commit(a, t, OutOfMemory, b)
    case Malloc(_) => b == a
    case Proceed => b == a || (exists x :: Commit(a, t, Pooled(x), b)) || Respond(a, t, b)
  }

  // ----- The abstraction -----

  function PhaseAt(pc: Pc): Phase {
    match pc
    case Idle => Ready
    case LoadHead(s) => Pending(s)
    case Compare(s, _) => Pending(s)
    case Advance(s, _) => Pending(s)
    case Allocate(s) => Pending(s)
    case Fill(s, _) => Pending(s)
    case Acquire(s, _) => Pending(s)
    case ReloadHead(s, _) => Pending(s)
    case Recompare(s, _, _) => Pending(s)
    case Readvance(s, _, _) => Pending(s)
    case Discard(s, _, a) => Committed(s, Pooled(a))
    case Link(s, _) => Pending(s)
    case Publish(s, _) => Pending(s)
    case Release(s, a) => Committed(s, Pooled(a))
    case Return(s, r) => Committed(s, r)
    case Returned(s, r) => Done(s, r)
    case Fault => Ready
  }

  /** `pool` holds exactly the strings of the published nodes, each with its node. */
  ghost predicate IsPool(pool: map<string, Addr>, h: map<Addr, Node>, g: Lists) {
    forall s, x :: s in pool && pool[s] == x <==> InPool(g, x) && Holds(h, x, s)
  }

  ghost predicate Abstracts(a: Atomic, st: State, g: Lists) {
    && IsPool(a.pool, st.heap, g)
    && a.calls == map t | t in st.threads :: PhaseAt(st.threads[t])
  }

  /** The atomic state after a step of thread `t`. */
  function NextAtomic(a: Atomic, st: State, t: Tid, st': State): Atomic {
    var b := SetPhase(a, t, PhaseAt(PcOf(st', t)));
    if PcOf(st, t).Publish? then b.(pool := a.pool[PcOf(st, t).s := PcOf(st, t).n]) else b
  }

  // ----- Every step is an atomic step -----

  /** What a step that publishes nothing may do to the phase of its thread. */
  ghost predicate PhaseStep(st: State, g: Lists, t: Tid, c: Choice, p: Phase, q: Phase) {
    match c
    case Call(s) => (p.Ready? || p.Done?) && q == Pending(s)
    case MallocFails => p.Pending? && q == Committed(p.s, OutOfMemory)
    case Malloc(_) => q == p && t in st.threads
    case Proceed =>
      || (q == p && t in st.threads)
      || (p.Pending? && q.Committed? && q.s == p.s && q.r.Pooled? && InPool(g, q.r.a) && Holds(st.heap, q.r.a, p.s))
      || (p.Committed? && q == Done(p.s, p.r))
  }

  lemma WalkPhases(st: State, g: Lists, t: Tid, c: Choice, st': State)
    requires Inv(st, g) && StepsTo(st, t, c, st') && Walking(PcOf(st, t))
    ensures PhaseStep(st, g, t, c, PhaseAt(PcOf(st, t)), PhaseAt(PcOf(st', t)))
  {
    var pc := PcOf(st, t);
    assert ThreadOk(st, g, pc);
    match pc {
      case Compare(s, p) =>
        if p.At? { InPoolAt(g, Slot(s), p.a); PublishedOk(st, g, Slot(s), p.a); }
      case Advance(s, a) => PublishedOk(st, g, Slot(s), a);
      case Recompare(s, n, p) =>
        RecompareStep(st, g, s, n, p);
        if Look(st, p, s).Match? { InPoolAt(g, Slot(s), p.a); }
      case Readvance(s, n, a) => ReadvanceStep(st, g, s, n, a);
    }
  }

  lemma OtherPhases(st: State, g: Lists, t: Tid, c: Choice, st': State)
    requires Inv(st, g) && StepsTo(st, t, c, st') && !Walking(PcOf(st, t)) && !PcOf(st, t).Publish?
    ensures PhaseStep(st, g, t, c, PhaseAt(PcOf(st, t)), PhaseAt(PcOf(st', t)))
  {
    assert t in st.threads ==> ThreadOk(st, g, st.threads[t]);
    assert st.lock == HeldBy(t) <==> InCritical(PcOf(st, t));
  }

  lemma CallsAfter(a: Atomic, st: State, g: Lists, t: Tid, st': State)
    requires Abstracts(a, st, g) && st'.threads == st.threads[t := PcOf(st', t)]
    ensures a.calls[t := PhaseAt(PcOf(st', t))] == map u | u in st'.threads :: PhaseAt(st'.threads[u])
  {
  }

  /** A step that publishes nothing leaves the pool as it is. */
  lemma PoolUnchanged(pool: map<string, Addr>, st: State, g: Lists, st': State)
    requires IsPool(pool, st.heap, g) && Grows(st, g, st', g)
    ensures IsPool(pool, st'.heap, g)
  {
    forall s, x ensures s in pool && pool[s] == x <==> InPool(g, x) && Holds(st'.heap, x, s) {
      assert InPool(g, x) ==> (Holds(st'.heap, x, s) <==> Holds(st.heap, x, s));
    }
  }

  /** Publication adds exactly one string, which was not there, with a new node. */
  lemma PoolExtended(pool: map<string, Addr>, st: State, g: Lists, st': State, s: string, n: Addr)
    requires Buckets(st, g) && IsPool(pool, st.heap, g)
    requires st'.heap == st.heap && Holds(st.heap, n, s) && !InPool(g, n)
    requires Missed(st.heap, g[Slot(s)], |g[Slot(s)]|, s)
    ensures s !in pool && n !in pool.Values
    ensures IsPool(pool[s := n], st'.heap, Pushed(g, Slot(s), n))
  {
    PushInPool(g, Slot(s), n);
    assert s in pool ==> InPool(g, pool[s]) && Holds(st.heap, pool[s], s);
    forall x | InPool(g, x) ensures !Holds(st.heap, x, s) {
      var k :| 0 <= k < |g| && x in g[k];
      MissedEverywhere(st, g, s, k, x);
    }
    forall z | z in pool ensures pool[z] != n {
      assert InPool(g, pool[z]);
    }
    forall z, x ensures z in pool[s := n] && pool[s := n][z] == x <==>
                        InPool(Pushed(g, Slot(s), n), x) && Holds(st'.heap, x, z)
    {
      assert z in pool && pool[z] == x <==> InPool(g, x) && Holds(st.heap, x, z);
    }
  }

  lemma PublishRefines(a: Atomic, st: State, g: Lists, t: Tid, c: Choice, st': State)
    requires Inv(st, g) && StepsTo(st, t, c, st') && PcOf(st, t).Publish? && Abstracts(a, st, g)
    ensures Abstracts(NextAtomic(a, st, t, st'), st', NextLists(st, g, t))
    ensures Commit(a, t, Pooled(PcOf(st, t).n), NextAtomic(a, st, t, st'))
  {
    var Publish(s, n) := PcOf(st, t);
    assert ThreadOk(st, g, PcOf(st, t));
    PoolExtended(a.pool, st, g, st', s, n);
    CallsAfter(a, st, g, t, st');
  }

  lemma QuietRefines(a: Atomic, st: State, g: Lists, t: Tid, c: Choice, st': State)
    requires Inv(st, g) && StepsTo(st, t, c, st') && !PcOf(st, t).Publish? && Abstracts(a, st, g)
    ensures Abstracts(NextAtomic(a, st, t, st'), st', NextLists(st, g, t))
    ensures AtomicNext(a, t, c, NextAtomic(a, st, t, st'))
  {
    InvStep(st, g, t, c, st');
    PoolUnchanged(a.pool, st, g, st');
    CallsAfter(a, st, g, t, st');
    if Walking(PcOf(st, t)) {
      WalkPhases(st, g, t, c, st');
    } else {
      OtherPhases(st, g, t, c, st');
    }
    PhaseRefines(a, st, g, t, c, st');
  }

  /** Forward simulation: one concrete step is one atomic step, or none. */
  lemma StepRefines(a: Atomic, st: State, g: Lists, t: Tid, c: Choice, st': State)
    requires Inv(st, g) && StepsTo(st, t, c, st') && Abstracts(a, st, g)
    ensures Abstracts(NextAtomic(a, st, t, st'), st', NextLists(st, g, t))
    ensures AtomicNext(a, t, c, NextAtomic(a, st, t, st'))
  {
    if PcOf(st, t).Publish? {
      PublishRefines(a, st, g, t, c, st');
    } else {
      QuietRefines(a, st, g, t, c, st');
    }
  }

  lemma PhaseRefines(a: Atomic, st: State, g: Lists, t: Tid, c: Choice, st': State)
    requires Abstracts(a, st, g) && !PcOf(st, t).Publish?
    requires PhaseStep(st, g, t, c, PhaseAt(PcOf(st, t)), PhaseAt(PcOf(st', t)))
    ensures AtomicNext(a, t, c, NextAtomic(a, st, t, st'))
  {
    var b := NextAtomic(a, st, t, st');
    var p, q := PhaseAt(PcOf(st, t)), PhaseAt(PcOf(st', t));
    if q == p {
      assert b == a;
    } else if q.Pending? {
      assert Invoke(a, t, q.s, b);
    } else if q.Committed? {
      assert Commit(a, t, q.r, b);
    } else {
      assert Respond(a, t, b);
    }
  }

  // ----- Whole runs -----

  ghost predicate IsAtomicRun(w: seq<Atomic>, moves: seq<(Tid, Choice)>) {
    && |w| == |moves| + 1
    && w[0] == Atomic(map[], map[])
    && forall i | 0 <= i < |moves| :: AtomicNext(w[i], moves[i].0, moves[i].1, w[i + 1])
  }

  /** What an observer can see of a state agrees with the atomic pool. */
  ghost predicate Matches(st: State, a: Atomic) {
    && HasTable(st)
    && (forall t: Tid :: PhaseOf(a, t) == PhaseAt(PcOf(st, t)))
    && (forall s, x :: s in a.pool && a.pool[s] == x <==> Published(st, x) && Holds(st.heap, x, s))
  }

  lemma AbstractMatches(a: Atomic, st: State, g: Lists)
    requires Buckets(st, g) && Abstracts(a, st, g)
    ensures Matches(st, a)
  {
    forall s, x ensures s in a.pool && a.pool[s] == x <==> Published(st, x) && Holds(st.heap, x, s) {
      PublishedInPool(st, g, x);
    }
  }

  lemma {:induction false} RunWitness(r: Run, i: nat) returns (w: seq<Atomic>, g: Lists)
    requires IsRun(r) && i < |r.states|
    ensures Inv(r.states[i], g) && IsAtomicRun(w, r.moves[..i]) && Abstracts(w[i], r.states[i], g)
    ensures forall m | 0 <= m <= i :: Matches(r.states[m], w[m])
  {
    if i == 0 {
      InvInitial(r.states[0]);
      g := seq(HASH_TABLE_SIZE, _ => []);
      w := [Atomic(map[], map[])];
      AbstractMatches(w[0], r.states[0], g);
    } else {
      w, g := RunWitness(r, i - 1);
      w, g := ExtendWitness(r, i - 1, w, g);
    }
  }

  lemma StepWitness(r: Run, i: nat, a: Atomic, g: Lists) returns (b: Atomic, g': Lists)
    requires IsRun(r) && i < |r.moves| && Inv(r.states[i], g) && Abstracts(a, r.states[i], g)
    ensures Inv(r.states[i + 1], g') && Abstracts(b, r.states[i + 1], g')
    ensures AtomicNext(a, r.moves[i].0, r.moves[i].1, b)
  {
    assert StepAt(r, i);
    var (t, c) := r.moves[i];
    InvStep(r.states[i], g, t, c, r.states[i + 1]);
    StepRefines(a, r.states[i], g, t, c, r.states[i + 1]);
    b := NextAtomic(a, r.states[i], t, r.states[i + 1]);
    g' := NextLists(r.states[i], g, t);
  }

  lemma ExtendWitness(r: Run, i: nat, w: seq<Atomic>, g: Lists) returns (w': seq<Atomic>, g': Lists)
    requires IsRun(r) && i < |r.moves| && Inv(r.states[i], g)
    requires IsAtomicRun(w, r.moves[..i]) && Abstracts(w[i], r.states[i], g)
    requires forall m | 0 <= m <= i :: Matches(r.states[m], w[m])
    ensures Inv(r.states[i + 1], g') && IsAtomicRun(w', r.moves[..i + 1]) && Abstracts(w'[i + 1], r.states[i + 1], g')
    ensures forall m | 0 <= m <= i + 1 :: Matches(r.states[m], w'[m])
  {
    var b;
    b, g' := StepWitness(r, i, w[i], g);
    AbstractMatches(b, r.states[i + 1], g');
    w' := w + [b];
    AtomicRunExtends(w, r.moves[..i], b, r.moves[i]);
    assert r.moves[..i + 1] == r.moves[..i] + [r.moves[i]];
  }

  lemma AtomicRunExtends(w: seq<Atomic>, moves: seq<(Tid, Choice)>, a: Atomic, m: (Tid, Choice))
    requires IsAtomicRun(w, moves) && AtomicNext(w[|moves|], m.0, m.1, a)
    ensures IsAtomicRun(w + [a], moves + [m])
  {
  }

  /** Every run of the concurrent pool is matched, state by state and move by
      move, by a run of the atomic pool. */
  lemma Linearizable(r: Run) returns (w: seq<Atomic>)
    requires IsRun(r)
    ensures IsAtomicRun(w, r.moves)
    ensures forall i | 0 <= i < |r.states| :: Matches(r.states[i], w[i])
  {
    var g;
    w, g := RunWitness(r, |r.moves|);
    assert r.moves[..|r.moves|] == r.moves;
  }
}
