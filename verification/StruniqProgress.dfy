/**
 How long a call of `struniq` and its critical section last, counted in the
 thread's own moves.
 */
module StruniqProgress {
  import opened Struniq
  import opened StruniqInvariant
  import opened StruniqTheorems

  /** The list is the same, or one node longer at the front. */
  ghost predicate Extends(ids: seq<Addr>, ids': seq<Addr>) {
    ids' == ids || exists n :: ids' == [n] + ids
  }

  lemma ListExtends(st: State, g: Lists, t: Tid, k: nat)
    requires |g| == HASH_TABLE_SIZE && k < HASH_TABLE_SIZE
    ensures Extends(g[k], NextLists(st, g, t)[k])
  {
    match PcOf(st, t)
    case Publish(s, n) =>
      if Slot(s) == k { assert NextLists(st, g, t)[k] == [n] + g[k]; }
    case _ =>
  }

  // ----- The whole call -----

  /** `moves` is no more than what brings a thread to `pc`, at index `pos` of its
      bucket `ids` while it walks. */
  ghost predicate Spent(pc: Pc, ids: seq<Addr>, pos: nat, moves: nat) {
    var n := |ids|;
    pos <= n &&
    match pc
    case Idle => false
    case LoadHead(_) => moves == 0
    case Compare(_, p) => p == PtrAt(ids, pos) && moves <= 1 + 2 * pos
    case Advance(_, a) => At(a) == PtrAt(ids, pos) && moves <= 2 + 2 * pos
    case Allocate(_) => moves <= 2 + 2 * n
    case Fill(_, _) => moves <= 3 + 2 * n
    case Acquire(_, _) => moves <= 4 + 2 * n
    case ReloadHead(_, _) => moves <= 5 + 2 * n
    case Recompare(_, _, p) => p == PtrAt(ids, pos) && moves <= 6 + 2 * n + 2 * pos
    case Readvance(_, _, a) => At(a) == PtrAt(ids, pos) && moves <= 7 + 2 * n + 2 * pos
    case Discard(_, _, _) => moves <= 7 + 4 * n
    case Link(_, _) => moves <= 7 + 4 * n
    case Publish(_, _) => moves <= 8 + 4 * n
    case Release(_, _) => moves <= 9 + 4 * n
    case Return(_, _) => moves <= 10 + 4 * n
    case Returned(_, _) => moves <= 11 + 4 * n
    case Fault => false
  }

  /** A string added by another thread costs the caller nothing. */
  lemma SpentKept(pc: Pc, ids: seq<Addr>, ids': seq<Addr>, pos: nat, moves: nat) returns (pos': nat)
    requires Spent(pc, ids, pos, moves) && Extends(ids, ids')
    ensures Spent(pc, ids', pos', moves)
  {
    pos' := pos + (|ids'| - |ids|);
    assert PtrAt(ids', pos') == PtrAt(ids, pos);
  }

  /** One move of the caller costs one. */
  lemma SpentStep(st: State, g: Lists, t: Tid, c: Choice, st': State, s: string, pos: nat, moves: nat)
      returns (pos': nat)
    requires Inv(st, g) && StepsTo(st, t, c, st')
    requires CallOf(PcOf(st, t), s) && !PcOf(st, t).Returned? && Spent(PcOf(st, t), g[Slot(s)], pos, moves)
    ensures CallOf(PcOf(st', t), s) && Spent(PcOf(st', t), NextLists(st, g, t)[Slot(s)], pos', moves + 1)
  {
    var pc, ids := PcOf(st, t), g[Slot(s)];
    assert ThreadOk(st, g, pc);
    assert st.lock == HeldBy(t) <==> InCritical(pc);
    assert BucketOk(st.heap, st.table[Slot(s)], ids, Slot(s));
    pos' := pos;
    if pc.LoadHead? || pc.ReloadHead? {
      pos' := 0;
    } else if Walking(pc) {
      pos' := WalkSpent(st, g, t, c, st', s, pos, moves);
    }
  }

  lemma WalkSpent(st: State, g: Lists, t: Tid, c: Choice, st': State, s: string, pos: nat, moves: nat)
      returns (pos': nat)
    requires Inv(st, g) && StepsTo(st, t, c, st') && Walking(PcOf(st, t))
    requires CallOf(PcOf(st, t), s) && Spent(PcOf(st, t), g[Slot(s)], pos, moves)
    ensures CallOf(PcOf(st', t), s) && Spent(PcOf(st', t), g[Slot(s)], pos', moves + 1)
  {
    var pc, ids := PcOf(st, t), g[Slot(s)];
    assert BucketOk(st.heap, st.table[Slot(s)], ids, Slot(s));
    if pc.Advance? || pc.Readvance? {
      assert NodeOk(st.heap, ids, pos, Slot(s));
      pos' := pos + 1;
    } else {
      assert pos < |ids| ==> NodeOk(st.heap, ids, pos, Slot(s));
      pos' := pos;
    }
  }

  /** `ids` is the bucket of `s`. */
  ghost predicate IsBucket(st: State, s: string, ids: seq<Addr>) {
    HasTable(st) && Chain(st.heap, st.table[Slot(s)], ids)
  }

  lemma BucketIs(st: State, g: Lists, s: string, ids: seq<Addr>)
    requires Buckets(st, g)
    ensures IsBucket(st, s, ids) <==> ids == g[Slot(s)]
  {
    BucketChain(st, g, Slot(s));
    if IsBucket(st, s, ids) {
      ChainUnique(st.heap, st.table[Slot(s)], ids, g[Slot(s)]);
    }
  }

  /** The thread is in its call and has made at most `moves` moves. */
  ghost predicate InCall(st: State, t: Tid, s: string, ids: seq<Addr>, pos: nat, moves: nat) {
    IsBucket(st, s, ids) && CallOf(PcOf(st, t), s) && Spent(PcOf(st, t), ids, pos, moves)
  }

  /** From state `j` to the next, counting from state `i`. */
  lemma CallStep(r: Run, i: nat, j: nat, t: Tid, s: string, ids: seq<Addr>, pos: nat)
      returns (ids': seq<Addr>, pos': nat)
    requires IsRun(r) && i <= j < |r.moves|
    requires InCall(r.states[j], t, s, ids, pos, Moves(r, i, j, t)) && !PcOf(r.states[j], t).Returned?
    ensures InCall(r.states[j + 1], t, s, ids', pos', Moves(r, i, j + 1, t))
  {
    assert StepAt(r, j);
    var moves := Moves(r, i, j, t);
    var st, st' := r.states[j], r.states[j + 1];
    var (u, c) := r.moves[j];
    var g := RunInv(r, j);
    InvStep(st, g, u, c, st');
    var g' := NextLists(st, g, u);
    BucketIs(st, g, s, ids);
    ids' := g'[Slot(s)];
    BucketIs(st', g', s, ids');
    if u == t {
      pos' := SpentStep(st, g, t, c, st', s, pos, moves);
    } else {
      OthersKeepPc(st, u, c, st', t);
      ListExtends(st, g, u, Slot(s));
      pos' := SpentKept(PcOf(st, t), ids, ids', pos, moves);
    }
  }

  lemma CallStart(r: Run, i: nat, t: Tid, s: string) returns (ids: seq<Addr>)
    requires IsRun(r) && i < |r.states| && PcOf(r.states[i], t) == LoadHead(s)
    ensures InCall(r.states[i], t, s, ids, 0, 0)
  {
    var g := RunInv(r, i);
    ids := g[Slot(s)];
    BucketIs(r.states[i], g, s, ids);
  }

  lemma {:induction false} CallMoves(r: Run, i: nat, j: nat, t: Tid, s: string) returns (ids: seq<Addr>, pos: nat)
    requires IsRun(r) && i <= j < |r.states| && PcOf(r.states[i], t) == LoadHead(s)
    requires forall m | i <= m < j :: !PcOf(r.states[m], t).Returned?
    ensures InCall(r.states[j], t, s, ids, pos, Moves(r, i, j, t))
    decreases j
  {
    if i == j {
      ids := CallStart(r, i, t, s);
      pos := 0;
    } else {
      var before, at := CallMoves(r, i, j - 1, t, s);
      assert !PcOf(r.states[j - 1], t).Returned?;
      ids, pos := CallStep(r, i, j - 1, t, s, before, at);
    }
  }

  /** A call makes at most 4 moves per node that its bucket has by then, and 11
      more, up to and including its return. */
  lemma CallIsBounded(r: Run, i: nat, j: nat, t: Tid, s: string, ids: seq<Addr>)
    requires IsRun(r) && i <= j < |r.states| && PcOf(r.states[i], t) == LoadHead(s)
    requires forall m | i <= m < j :: !PcOf(r.states[m], t).Returned?
    requires IsBucket(r.states[j], s, ids)
    ensures Moves(r, i, j, t) <= 4 * |ids| + 11
  {
    var own, pos := CallMoves(r, i, j, t, s);
    ChainUnique(r.states[j].heap, r.states[j].table[Slot(s)], ids, own);
  }

  // ----- The critical section -----

  /** The same for the moves since the lock was acquired; `ids` is the bucket then. */
  ghost predicate SpentInside(pc: Pc, ids: seq<Addr>, pos: nat, moves: nat) {
    var n := |ids|;
    pos <= n &&
    match pc
    case ReloadHead(_, _) => moves == 0
    case Recompare(_, _, p) => p == PtrAt(ids, pos) && moves <= 1 + 2 * pos
    case Readvance(_, _, a) => At(a) == PtrAt(ids, pos) && moves <= 2 + 2 * pos
    case Discard(_, _, _) => moves <= 2 + 2 * n
    case Link(_, _) => moves <= 2 + 2 * n
    case Publish(_, _) => moves <= 3 + 2 * n
    case Release(_, _) => moves <= 4 + 2 * n
    case _ => false
  }

  /** The holder's bucket is as it was when the lock was acquired, until the holder
      publishes. */
  ghost predicate Inside(st: State, t: Tid, s: string, ids: seq<Addr>, pos: nat, moves: nat) {
    && CallOf(PcOf(st, t), s) && SpentInside(PcOf(st, t), ids, pos, moves)
    && (PcOf(st, t).Release? || IsBucket(st, s, ids))
  }

  lemma InsideStep(st: State, g: Lists, t: Tid, c: Choice, st': State, s: string, ids: seq<Addr>, pos: nat, moves: nat)
      returns (pos': nat)
    requires Inv(st, g) && StepsTo(st, t, c, st') && InCritical(PcOf(st', t)) && !PcOf(st, t).Release?
    requires CallOf(PcOf(st, t), s) && SpentInside(PcOf(st, t), ids, pos, moves) && g[Slot(s)] == ids
    ensures CallOf(PcOf(st', t), s) && SpentInside(PcOf(st', t), ids, pos', moves + 1)
    ensures PcOf(st', t).Release? || NextLists(st, g, t)[Slot(s)] == ids
  {
    var pc := PcOf(st, t);
    assert ThreadOk(st, g, pc);
    assert BucketOk(st.heap, st.table[Slot(s)], ids, Slot(s));
    pos' := if pc.ReloadHead? then 0 else pos;
    if Walking(pc) && pos < |ids| {
      PublishedOk(st, g, Slot(s), ids[pos]);
      assert NodeOk(st.heap, ids, pos, Slot(s));
      if pc.Readvance? { pos' := pos + 1; }
    }
  }

  /** Releasing leaves the critical section. */
  lemma ReleaseLeaves(st: State, g: Lists, t: Tid, c: Choice, st': State)
    requires Inv(st, g) && StepsTo(st, t, c, st') && PcOf(st, t).Release?
    ensures !InCritical(PcOf(st', t))
  {
  }

  lemma HolderStep(r: Run, i: nat, j: nat, t: Tid, s: string, ids: seq<Addr>, pos: nat) returns (pos': nat)
    requires IsRun(r) && i <= j < |r.moves|
    requires Inside(r.states[j], t, s, ids, pos, Moves(r, i, j, t)) && InCritical(PcOf(r.states[j + 1], t))
    ensures Inside(r.states[j + 1], t, s, ids, pos', Moves(r, i, j + 1, t))
  {
    assert StepAt(r, j);
    var moves := Moves(r, i, j, t);
    var st, st' := r.states[j], r.states[j + 1];
    var (u, c) := r.moves[j];
    var g := RunInv(r, j);
    InvStep(st, g, u, c, st');
    var g' := NextLists(st, g, u);
    BucketIs(st, g, s, ids);
    BucketIs(st', g', s, ids);
    if u == t {
      if PcOf(st, t).Release? { ReleaseLeaves(st, g, t, c, st'); }
      pos' := InsideStep(st, g, t, c, st', s, ids, pos, moves);
    } else {
      OthersKeepPc(st, u, c, st', t);
      assert InCritical(PcOf(st, t));
      assert st.lock == HeldBy(t) && !InCritical(PcOf(st, u));
      pos' := pos;
    }
  }

  lemma {:induction false} InsideMoves(r: Run, i: nat, j: nat, t: Tid, s: string, ids: seq<Addr>) returns (pos: nat)
    requires IsRun(r) && i <= j < |r.states|
    requires PcOf(r.states[i], t).ReloadHead? && PcOf(r.states[i], t).s == s && IsBucket(r.states[i], s, ids)
    requires forall m | i <= m <= j :: InCritical(PcOf(r.states[m], t))
    ensures Inside(r.states[j], t, s, ids, pos, Moves(r, i, j, t))
    decreases j
  {
    pos := 0;
    if i < j {
      var at := InsideMoves(r, i, j - 1, t, s, ids);
      pos := HolderStep(r, i, j - 1, t, s, ids, at);
    }
  }

  /** A thread that holds the lock makes at most 2 moves per node of its bucket, and
      4 more, before the move that releases it, whatever the others do. */
  lemma CriticalSectionIsBounded(r: Run, i: nat, j: nat, t: Tid, ids: seq<Addr>)
    requires IsRun(r) && i <= j < |r.states| && PcOf(r.states[i], t).ReloadHead?
    requires forall m | i <= m <= j :: InCritical(PcOf(r.states[m], t))
    requires IsBucket(r.states[i], PcOf(r.states[i], t).s, ids)
    ensures Moves(r, i, j, t) <= 2 * |ids| + 4
  {
    var pos := InsideMoves(r, i, j, t, PcOf(r.states[i], t).s, ids);
  }
}
