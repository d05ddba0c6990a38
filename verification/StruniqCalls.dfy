/**
 What a caller of `struniq` can rely on, stated over the moves of a run: the
 argument it passed, whether `malloc` failed in its call, and the node it got.
 */
module StruniqCalls {
  import opened Options
  import opened Struniq
  import opened StruniqInvariant
  import opened StruniqTheorems

  /** The last move of `t` before state `j` that starts a call. */
  function LastCall(r: Run, j: nat, t: Tid): (k: Option<nat>)
    requires j <= |r.moves|
    ensures k.Some? ==> k.v < j && r.moves[k.v].0 == t && r.moves[k.v].1.Call?
    ensures forall m | (if k.Some? then k.v + 1 else 0) <= m < j :: r.moves[m].0 == t ==> !r.moves[m].1.Call?
  {
    if j == 0 then None
    else if r.moves[j - 1].0 == t && r.moves[j - 1].1.Call? then Some(j - 1)
    else LastCall(r, j - 1, t)
  }

  /** The argument of a move that starts a call. */
  function Argument(r: Run, k: nat): string
    requires k < |r.moves| && r.moves[k].1.Call?
  {
    r.moves[k].1.s
  }

  /** `malloc` has failed for thread `t` after move `k` and before state `j`. */
  ghost predicate RanOut(r: Run, k: nat, j: nat, t: Tid)
    requires j <= |r.moves|
  {
    exists i | k < i < j :: r.moves[i] == (t, MallocFails)
  }

  predicate GaveUp(pc: Pc) {
    (pc.Return? || pc.Returned?) && pc.r.OutOfMemory?
  }

  /** A thread's place tells its call: the argument is the one passed, and it has
      given up exactly if `malloc` failed in this call. */
  ghost predicate Tells(r: Run, j: nat, t: Tid)
    requires IsRun(r) && j < |r.states|
  {
    var pc := PcOf(r.states[j], t);
    match LastCall(r, j, t)
    case None => pc == Idle
    case Some(k) => CallOf(pc, Argument(r, k)) && (GaveUp(pc) <==> RanOut(r, k, j, t))
  }

  lemma OwnCall(st: State, t: Tid, c: Choice, st': State)
    requires StepsTo(st, t, c, st') && c.Call?
    ensures PcOf(st', t) == LoadHead(c.s)
  {
  }

  lemma OwnMove(st: State, t: Tid, c: Choice, st': State, s: string)
    requires StepsTo(st, t, c, st') && PcOf(st', t) != Fault && !c.Call?
    requires CallOf(PcOf(st, t), s)
    ensures CallOf(PcOf(st', t), s)
  {
  }

  lemma IdleOnlyCalls(st: State, t: Tid, c: Choice, st': State)
    requires StepsTo(st, t, c, st') && PcOf(st, t) == Idle
    ensures c.Call?
  {
  }

  lemma OwnMoveGivesUp(st: State, t: Tid, c: Choice, st': State)
    requires StepsTo(st, t, c, st') && !c.Call?
    ensures GaveUp(PcOf(st', t)) <==> GaveUp(PcOf(st, t)) || c.MallocFails?
  {
  }

  lemma RanOutStep(r: Run, k: nat, j: nat, t: Tid)
    requires k < j < |r.moves|
    ensures RanOut(r, k, j + 1, t) <==> RanOut(r, k, j, t) || r.moves[j] == (t, MallocFails)
  {
  }

  lemma TellsStep(r: Run, j: nat, t: Tid)
    requires IsRun(r) && j < |r.moves| && Tells(r, j, t)
    ensures Tells(r, j + 1, t)
  {
    assert StepAt(r, j);
    var st, st' := r.states[j], r.states[j + 1];
    var (u, c) := r.moves[j];
    if u == t && c.Call? {
      OwnCall(st, t, c, st');
    } else {
      if LastCall(r, j, t).Some? { RanOutStep(r, LastCall(r, j, t).v, j, t); }
      if u != t {
        OthersKeepPc(st, u, c, st', t);
      } else if LastCall(r, j, t).Some? {
        PoolIsSafe(r, j + 1);
        OwnMove(st, t, c, st', Argument(r, LastCall(r, j, t).v));
        OwnMoveGivesUp(st, t, c, st');
      } else {
        IdleOnlyCalls(st, t, c, st');
      }
    }
  }

  /** In every state of every run, for every thread. */
  lemma {:induction false} PlaceTellsCall(r: Run, j: nat, t: Tid)
    requires IsRun(r) && j < |r.states|
    ensures Tells(r, j, t)
  {
    if j > 0 {
      PlaceTellsCall(r, j - 1, t);
      TellsStep(r, j - 1, t);
    }
  }

  /** A call that has returned got a pooled node, unless `malloc` failed in it. */
  lemma OutOfMemoryOnlyByMalloc(r: Run, j: nat, t: Tid)
    requires IsRun(r) && j < |r.states| && PcOf(r.states[j], t).Returned?
    ensures LastCall(r, j, t).Some?
    ensures PcOf(r.states[j], t).r.OutOfMemory? <==> RanOut(r, LastCall(r, j, t).v, j, t)
  {
    PlaceTellsCall(r, j, t);
  }

  /** Finished calls in which `malloc` did not fail return one node exactly when
      they were made with one argument. */
  lemma EqualCallsEqualNodes(r: Run, i: nat, t: Tid, k: nat, j: nat, u: Tid, m: nat)
    requires IsRun(r) && i < |r.states| && j < |r.states|
    requires PcOf(r.states[i], t).Returned? && LastCall(r, i, t) == Some(k) && !RanOut(r, k, i, t)
    requires PcOf(r.states[j], u).Returned? && LastCall(r, j, u) == Some(m) && !RanOut(r, m, j, u)
    ensures var a, b := PcOf(r.states[i], t).r, PcOf(r.states[j], u).r;
            a.Pooled? && b.Pooled? && (a == b <==> r.moves[k].1.s == r.moves[m].1.s)
  {
    PlaceTellsCall(r, i, t);
    PlaceTellsCall(r, j, u);
    SameArgumentSameNode(r, i, t, j, u);
  }

  // ----- A pooled string is found without memory and without the lock -----

  /** The node `x` is still ahead of the first walk, or is its result. */
  ghost predicate Ahead(pc: Pc, ids: seq<Addr>, s: string, x: Addr, i: nat, at: nat) {
    && i <= at < |ids| && ids[at] == x
    && match pc
       case LoadHead(z) => z == s
       case Compare(z, p) => z == s && p == PtrAt(ids, i)
       case Advance(z, a) => z == s && At(a) == PtrAt(ids, i) && i < at
       case Return(z, res) => z == s && res == Pooled(x)
       case Returned(z, res) => z == s && res == Pooled(x)
       case _ => false
  }

  lemma AheadOwnStep(st: State, g: Lists, t: Tid, c: Choice, st': State, s: string, x: Addr, i: nat, at: nat)
      returns (i': nat)
    requires Inv(st, g) && StepsTo(st, t, c, st') && !PcOf(st, t).Returned?
    requires Holds(st.heap, x, s) && Ahead(PcOf(st, t), g[Slot(s)], s, x, i, at)
    ensures NextLists(st, g, t) == g && Ahead(PcOf(st', t), g[Slot(s)], s, x, i', at)
  {
    var pc, ids := PcOf(st, t), g[Slot(s)];
    assert BucketOk(st.heap, st.table[Slot(s)], ids, Slot(s));
    assert NodeOk(st.heap, ids, i, Slot(s));
    i' := i;
    if pc.LoadHead? {
      i' := 0;
    } else if pc.Advance? {
      i' := i + 1;
    } else if pc.Compare? && Look(st, pc.p, s).Match? {
      InPoolAt(g, Slot(s), ids[i]);
      InPoolAt(g, Slot(s), x);
      SameContentsSameNode(st, g, ids[i], x, s);
    }
  }

  /** The list is the same or longer at the front. */
  ghost predicate Grown(ids: seq<Addr>, ids': seq<Addr>) {
    |ids| <= |ids'| && ids'[|ids'| - |ids|..] == ids
  }

  lemma AheadOtherStep(pc: Pc, ids: seq<Addr>, ids': seq<Addr>, s: string, x: Addr, i: nat, at: nat)
    requires Ahead(pc, ids, s, x, i, at) && Grown(ids, ids')
    ensures Ahead(pc, ids', s, x, i + (|ids'| - |ids|), at + (|ids'| - |ids|))
  {
    var d := |ids'| - |ids|;
    assert ids'[at + d] == ids'[d..][at] && ids'[i + d] == ids'[d..][i];
  }

  /** The first walk for `s` will end at the published node `x`. */
  ghost predicate OnTrack(st: State, t: Tid, s: string, x: Addr, g: Lists, i: nat, at: nat) {
    Inv(st, g) && Holds(st.heap, x, s) && Ahead(PcOf(st, t), g[Slot(s)], s, x, i, at)
  }

  lemma OwnTrackStep(st: State, t: Tid, c: Choice, st': State, s: string, x: Addr, g: Lists, i: nat, at: nat)
      returns (i': nat)
    requires OnTrack(st, t, s, x, g, i, at) && StepsTo(st, t, c, st') && !PcOf(st, t).Returned?
    ensures OnTrack(st', t, s, x, g, i', at)
  {
    InvStep(st, g, t, c, st');
    InPoolAt(g, Slot(s), x);
    i' := AheadOwnStep(st, g, t, c, st', s, x, i, at);
  }

  lemma OtherTrackStep(st: State, u: Tid, c: Choice, st': State, t: Tid, s: string, x: Addr, g: Lists, i: nat, at: nat)
      returns (g': Lists, i': nat, at': nat)
    requires OnTrack(st, t, s, x, g, i, at) && StepsTo(st, u, c, st') && u != t
    ensures OnTrack(st', t, s, x, g', i', at')
  {
    InvStep(st, g, u, c, st');
    OthersKeepPc(st, u, c, st', t);
    g' := NextLists(st, g, u);
    i', at' := AheadKept(st, g, st', g', PcOf(st, t), s, x, i, at);
  }

  lemma AheadKept(st: State, g: Lists, st': State, g': Lists, pc: Pc, s: string, x: Addr, i: nat, at: nat)
      returns (i': nat, at': nat)
    requires |g| == HASH_TABLE_SIZE && Holds(st.heap, x, s) && Ahead(pc, g[Slot(s)], s, x, i, at) && Grows(st, g, st', g')
    ensures |g'| == HASH_TABLE_SIZE && Holds(st'.heap, x, s) && Ahead(pc, g'[Slot(s)], s, x, i', at')
  {
    var ids, ids' := g[Slot(s)], g'[Slot(s)];
    TrackGrows(st, g, st', g', s, x);
    AheadOtherStep(pc, ids, ids', s, x, i, at);
    i', at' := i + (|ids'| - |ids|), at + (|ids'| - |ids|);
  }

  lemma TrackGrows(st: State, g: Lists, st': State, g': Lists, s: string, x: Addr)
    requires |g| == HASH_TABLE_SIZE && x in g[Slot(s)] && Holds(st.heap, x, s) && Grows(st, g, st', g')
    ensures |g'| == HASH_TABLE_SIZE && Holds(st'.heap, x, s)
    ensures Grown(g[Slot(s)], g'[Slot(s)])
  {
    InPoolAt(g, Slot(s), x);
  }

  lemma TrackStart(st: State, t: Tid, s: string, x: Addr, g: Lists) returns (at: nat)
    requires Inv(st, g) && PcOf(st, t) == LoadHead(s) && Published(st, x) && Holds(st.heap, x, s)
    ensures OnTrack(st, t, s, x, g, 0, at)
  {
    PublishedInPool(st, g, x);
    var k :| 0 <= k < |g| && x in g[k];
    PublishedOk(st, g, k, x);
    at :| 0 <= at < |g[k]| && g[k][at] == x;
  }

  lemma {:induction false} StaysOnTrack(r: Run, i: nat, j: nat, t: Tid, s: string, x: Addr, g: Lists, at: nat)
      returns (g': Lists, pos: nat, at': nat)
    requires IsRun(r) && i <= j < |r.states| && OnTrack(r.states[i], t, s, x, g, 0, at)
    requires forall m | i <= m < j :: !PcOf(r.states[m], t).Returned?
    ensures OnTrack(r.states[j], t, s, x, g', pos, at')
    decreases j
  {
    g', pos, at' := g, 0, at;
    if i < j {
      g', pos, at' := StaysOnTrack(r, i, j - 1, t, s, x, g, at);
      assert StepAt(r, j - 1);
      var (u, c) := r.moves[j - 1];
      if u == t {
        pos := OwnTrackStep(r.states[j - 1], t, c, r.states[j], s, x, g', pos, at');
      } else {
        g', pos, at' := OtherTrackStep(r.states[j - 1], u, c, r.states[j], t, s, x, g', pos, at');
      }
    }
  }

  /** A call whose argument was in the pool when it began only walks its bucket: it
      never allocates, never takes the lock, and returns the node that was there,
      whatever other threads do meanwhile. */
  lemma PooledStringIsFound(r: Run, i: nat, j: nat, t: Tid, s: string, x: Addr)
    requires IsRun(r) && i <= j < |r.states| && PcOf(r.states[i], t) == LoadHead(s)
    requires forall m | i <= m < j :: !PcOf(r.states[m], t).Returned?
    requires HasTable(r.states[i]) && Published(r.states[i], x) && Holds(r.states[i].heap, x, s)
    ensures var pc := PcOf(r.states[j], t);
            || pc.LoadHead? || pc.Compare? || pc.Advance?
            || pc == Return(s, Pooled(x)) || pc == Returned(s, Pooled(x))
  {
    var g := RunInv(r, i);
    var at := TrackStart(r.states[i], t, s, x, g);
    var pos;
    g, pos, at := StaysOnTrack(r, i, j, t, s, x, g, at);
    assert Ahead(PcOf(r.states[j], t), g[Slot(s)], s, x, pos, at);
  }
}
