/**
 What every run of the string pool guarantees.  The statements speak of states
 and runs only; the bucket lists of the invariant appear in the proofs.
 */
module StruniqTheorems {
  import opened StringHash
  import opened Struniq
  import opened StruniqInvariant

  /** Following `next` from `p` visits exactly `ids`, all initialised, and ends. */
  ghost predicate Chain(h: map<Addr, Node>, p: Ptr, ids: seq<Addr>) {
    && p == PtrAt(ids, 0)
    && forall i | 0 <= i < |ids| ::
         ids[i] in h && h[ids[i]].next == Init(PtrAt(ids, i + 1)) && h[ids[i]].contents.Init?
  }

  ghost predicate InBucket(st: State, k: nat, a: Addr)
    requires HasTable(st) && k < HASH_TABLE_SIZE
  {
    exists ids :: Chain(st.heap, st.table[k], ids) && a in ids
  }

  ghost predicate IsList(st: State, k: nat)
    requires HasTable(st) && k < HASH_TABLE_SIZE
  {
    exists ids :: Chain(st.heap, st.table[k], ids)
  }

  ghost predicate Published(st: State, a: Addr)
    requires HasTable(st)
  {
    exists k | 0 <= k < HASH_TABLE_SIZE :: InBucket(st, k, a)
  }

  // ----- Chains and bucket lists -----

  lemma {:induction false} ChainUnique(h: map<Addr, Node>, p: Ptr, ids: seq<Addr>, ids': seq<Addr>)
    requires Chain(h, p, ids) && Chain(h, p, ids')
    ensures ids == ids'
    decreases |ids|
  {
    if ids != [] {
      ChainTail(h, p, ids);
      ChainTail(h, p, ids');
      ChainUnique(h, h[ids[0]].next.v, ids[1..], ids'[1..]);
      assert ids == [ids[0]] + ids[1..] && ids' == [ids'[0]] + ids'[1..];
    }
  }

  lemma ChainTail(h: map<Addr, Node>, p: Ptr, ids: seq<Addr>)
    requires Chain(h, p, ids) && ids != []
    ensures Chain(h, h[ids[0]].next.v, ids[1..])
  {
    var rest := ids[1..];
    forall i | 0 <= i < |rest|
      ensures rest[i] in h && h[rest[i]].next == Init(PtrAt(rest, i + 1)) && h[rest[i]].contents.Init?
    {
      assert rest[i] == ids[i + 1];
    }
  }

  lemma BucketChain(st: State, g: Lists, k: nat)
    requires Buckets(st, g) && k < HASH_TABLE_SIZE
    ensures Chain(st.heap, st.table[k], g[k])
    ensures forall a :: InBucket(st, k, a) <==> a in g[k]
  {
    var ids := g[k];
    assert BucketOk(st.heap, st.table[k], ids, k);
    forall i | 0 <= i < |ids|
      ensures ids[i] in st.heap && st.heap[ids[i]].next == Init(PtrAt(ids, i + 1)) && st.heap[ids[i]].contents.Init?
    {
      assert NodeOk(st.heap, ids, i, k);
    }
    forall a | InBucket(st, k, a) ensures a in ids {
      var ids' :| Chain(st.heap, st.table[k], ids') && a in ids';
      ChainUnique(st.heap, st.table[k], ids, ids');
    }
  }

  lemma PublishedInPool(st: State, g: Lists, a: Addr)
    requires Buckets(st, g)
    ensures Published(st, a) <==> InPool(g, a)
  {
    forall k | 0 <= k < HASH_TABLE_SIZE ensures InBucket(st, k, a) <==> a in g[k] {
      BucketChain(st, g, k);
    }
  }

  /** The part of a bucket that starts at one of its nodes is a chain. */
  lemma SuffixChain(st: State, g: Lists, k: nat, i: nat)
    requires Buckets(st, g) && k < HASH_TABLE_SIZE && i <= |g[k]|
    ensures Chain(st.heap, PtrAt(g[k], i), g[k][i..])
    decreases i
  {
    BucketChain(st, g, k);
    if i > 0 {
      SuffixChain(st, g, k, i - 1);
      ChainTail(st.heap, PtrAt(g[k], i - 1), g[k][i - 1..]);
      assert g[k][i - 1..][1..] == g[k][i..];
    } else {
      assert g[k][0..] == g[k];
    }
  }

  // ----- The invariant along a run -----

  lemma GrowsTransitive(st: State, g: Lists, st1: State, g1: Lists, st2: State, g2: Lists)
    requires Grows(st, g, st1, g1) && Grows(st1, g1, st2, g2)
    ensures Grows(st, g, st2, g2)
  {
    forall k | 0 <= k < |g| ensures |g[k]| <= |g2[k]| && g2[k][|g2[k]| - |g[k]|..] == g[k] {
      assert g2[k][|g2[k]| - |g[k]|..] == g2[k][|g2[k]| - |g1[k]|..][|g1[k]| - |g[k]|..];
    }
    forall a | InPool(g, a) ensures a in st.heap && a in st2.heap && st2.heap[a] == st.heap[a] {
      GrowsKeeps(st, g, st1, g1, a);
    }
  }

  lemma GrowsKeeps(st: State, g: Lists, st': State, g': Lists, a: Addr)
    requires Grows(st, g, st', g') && InPool(g, a)
    ensures InPool(g', a)
  {
    var k :| 0 <= k < |g| && a in g[k];
    assert a in g'[k][|g'[k]| - |g[k]|..];
  }

  lemma {:induction false} RunInv(r: Run, i: nat) returns (g: Lists)
    requires IsRun(r) && i < |r.states|
    ensures Inv(r.states[i], g)
  {
    if i == 0 {
      InvInitial(r.states[0]);
      g := seq(HASH_TABLE_SIZE, _ => []);
    } else {
      g := RunInv(r, i - 1);
      assert StepAt(r, i - 1);
      InvStep(r.states[i - 1], g, r.moves[i - 1].0, r.moves[i - 1].1, r.states[i]);
      g := NextLists(r.states[i - 1], g, r.moves[i - 1].0);
    }
  }

  lemma {:induction false} RunGrows(r: Run, i: nat, j: nat, g: Lists) returns (g': Lists)
    requires IsRun(r) && i <= j < |r.states| && Inv(r.states[i], g)
    ensures Inv(r.states[j], g') && Grows(r.states[i], g, r.states[j], g')
    decreases j
  {
    if i == j {
      g' := g;
      forall a | InPool(g, a) ensures a in r.states[i].heap {
        var k :| 0 <= k < |g| && a in g[k];
        PublishedOk(r.states[i], g, k, a);
      }
    } else {
      var g1 := RunGrows(r, i, j - 1, g);
      assert StepAt(r, j - 1);
      InvStep(r.states[j - 1], g1, r.moves[j - 1].0, r.moves[j - 1].1, r.states[j]);
      g' := NextLists(r.states[j - 1], g1, r.moves[j - 1].0);
      GrowsTransitive(r.states[i], g, r.states[j - 1], g1, r.states[j], g');
    }
  }

  // ----- Safety in every reachable state -----

  ghost predicate Safe(st: State) {
    && HasTable(st)
    // every bucket is a finite list
    && (forall k | 0 <= k < HASH_TABLE_SIZE :: IsList(st, k))
    // every node is complete and in the bucket of its own hash code
    && (forall k, a | 0 <= k < HASH_TABLE_SIZE && InBucket(st, k, a) ::
          a in st.heap && st.heap[a].contents.Init? && Hash(st.heap[a].contents.v) % 257 == k)
    // no string is stored twice
    && (forall a, b | Published(st, a) && Published(st, b) && a in st.heap && b in st.heap
                      && st.heap[a].contents == st.heap[b].contents :: a == b)
    // no thread has touched memory it must not touch
    && (forall t: Tid :: PcOf(st, t) != Fault)
  }

  lemma PoolIsSafe(r: Run, i: nat)
    requires IsRun(r) && i < |r.states|
    ensures Safe(r.states[i])
  {
    var st := r.states[i];
    var g := RunInv(r, i);
    forall k | 0 <= k < HASH_TABLE_SIZE ensures IsList(st, k) {
      BucketChain(st, g, k);
    }
    forall k, a | 0 <= k < HASH_TABLE_SIZE && InBucket(st, k, a)
      ensures a in st.heap && st.heap[a].contents.Init? && Hash(st.heap[a].contents.v) % 257 == k
    {
      BucketChain(st, g, k);
      PublishedOk(st, g, k, a);
    }
    forall a, b | Published(st, a) && Published(st, b) && a in st.heap && b in st.heap
                  && st.heap[a].contents == st.heap[b].contents
      ensures a == b
    {
      PublishedInPool(st, g, a);
      PublishedInPool(st, g, b);
      var k :| 0 <= k < |g| && a in g[k];
      PublishedOk(st, g, k, a);
      SameContentsSameNode(st, g, a, b, st.heap[a].contents.v);
    }
    forall t: Tid ensures PcOf(st, t) != Fault {
      if t in st.threads {
        assert ThreadOk(st, g, st.threads[t]);
      }
    }
  }

  /** A string that no node of its own bucket holds is in no bucket. */
  lemma MissedEverywhere(st: State, g: Lists, s: string, k: nat, a: Addr)
    requires Buckets(st, g) && Missed(st.heap, g[Slot(s)], |g[Slot(s)]|, s) && k < HASH_TABLE_SIZE && a in g[k]
    ensures !Holds(st.heap, a, s)
  {
    PublishedOk(st, g, k, a);
    if Slot(s) == k {
      var j :| 0 <= j < |g[k]| && g[k][j] == a;
      assert !Holds(st.heap, g[k][j], s);
    }
  }

  /** A miss on the second walk is a miss in the whole table, up to publication. */
  lemma MissMeansAbsent(r: Run, i: nat, t: Tid, k: nat, a: Addr)
    requires IsRun(r) && i < |r.states| && HasTable(r.states[i]) && k < HASH_TABLE_SIZE
    requires var pc := PcOf(r.states[i], t); pc.Link? || pc.Publish?
    requires InBucket(r.states[i], k, a)
    ensures !Holds(r.states[i].heap, a, PcOf(r.states[i], t).s)
  {
    var st := r.states[i];
    var g := RunInv(r, i);
    assert ThreadOk(st, g, PcOf(st, t));
    BucketChain(st, g, k);
    MissedEverywhere(st, g, PcOf(st, t).s, k, a);
  }

  // ----- Results -----

  /** The thread is inside a call with argument `s`, or has just returned from it. */
  predicate CallOf(pc: Pc, s: string) {
    pc != Idle && pc != Fault && pc.s == s
  }

  /** The node a call returned holds the call's argument from then on, and stays published. */
  lemma ResultIsForever(r: Run, i: nat, j: nat, t: Tid)
    requires IsRun(r) && i <= j < |r.states|
    requires PcOf(r.states[i], t).Returned? && PcOf(r.states[i], t).r.Pooled?
    ensures Holds(r.states[j].heap, PcOf(r.states[i], t).r.a, PcOf(r.states[i], t).s)
    ensures HasTable(r.states[j]) && Published(r.states[j], PcOf(r.states[i], t).r.a)
  {
    var Returned(s, res) := PcOf(r.states[i], t);
    var g := RunInv(r, i);
    assert ThreadOk(r.states[i], g, PcOf(r.states[i], t));
    InPoolAt(g, Slot(s), res.a);
    var g' := RunGrows(r, i, j, g);
    GrowsKeeps(r.states[i], g, r.states[j], g', res.a);
    PublishedInPool(r.states[j], g', res.a);
  }

  /** Calls with equal arguments that do not run out of memory return one node,
      whatever the threads, the times and the return paths. */
  lemma SameArgumentSameNode(r: Run, i: nat, t: Tid, j: nat, u: Tid)
    requires IsRun(r) && i < |r.states| && j < |r.states|
    requires PcOf(r.states[i], t).Returned? && PcOf(r.states[i], t).r.Pooled?
    requires PcOf(r.states[j], u).Returned? && PcOf(r.states[j], u).r.Pooled?
    ensures PcOf(r.states[i], t).s == PcOf(r.states[j], u).s <==>
            PcOf(r.states[i], t).r.a == PcOf(r.states[j], u).r.a
  {
    var m := if i <= j then j else i;
    ResultIsForever(r, i, m, t);
    ResultIsForever(r, j, m, u);
    PoolIsSafe(r, m);
  }

  /** An address that a step frees was never published before. */
  lemma OnlyUnpublishedFreed(r: Run, i: nat, m: nat, a: Addr)
    requires IsRun(r) && m <= i < |r.moves|
    requires a in r.states[i].heap && a !in r.states[i + 1].heap
    ensures HasTable(r.states[m]) && !Published(r.states[m], a)
  {
    var g := RunInv(r, m);
    var g' := RunGrows(r, m, i + 1, g);
    PublishedInPool(r.states[m], g, a);
  }

  // ----- No node is leaked -----

  ghost predicate Owned(st: State, a: Addr) {
    exists t | t in st.threads :: Private(st.threads[t]) == At(a)
  }

  /** Everything allocated since the start is published or owned by a thread. */
  ghost predicate Accounted(st: State, g: Lists, base: set<Addr>) {
    forall a | a in st.heap :: a in base || InPool(g, a) || Owned(st, a)
  }

  /** How a step may change the allocated addresses and its thread's own node. */
  lemma OwnershipStep(st: State, g: Lists, t: Tid, c: Choice, st': State)
    requires Inv(st, g) && StepsTo(st, t, c, st')
    ensures var p, q := Private(PcOf(st, t)), Private(PcOf(st', t));
            || (q == p && st'.heap.Keys == st.heap.Keys)
            || (p.Null? && q.At? && st'.heap.Keys == st.heap.Keys + {q.a})
            || (p.At? && q.Null? && st'.heap.Keys == st.heap.Keys - {p.a})
            || (p.At? && q.Null? && st'.heap.Keys == st.heap.Keys && InPool(NextLists(st, g, t), p.a))
  {
    var pc := PcOf(st, t);
    if t in st.threads { assert ThreadOk(st, g, pc); }
    match pc {
      case Publish(s, n) => PushInPool(g, Slot(s), n);
      case Recompare(s, n, p) => RecompareStep(st, g, s, n, p);
      case Readvance(s, n, a) => ReadvanceStep(st, g, s, n, a);
      case _ =>
    }
  }

  lemma AccountedStep(st: State, g: Lists, t: Tid, c: Choice, st': State, base: set<Addr>)
    requires Inv(st, g) && StepsTo(st, t, c, st') && Accounted(st, g, base)
    ensures Accounted(st', NextLists(st, g, t), base)
  {
    var g' := NextLists(st, g, t);
    OwnershipStep(st, g, t, c, st');
    InvStep(st, g, t, c, st');
    forall a | a in st'.heap ensures a in base || InPool(g', a) || Owned(st', a) {
      if a !in st.heap {
        assert Private(st'.threads[t]) == At(a);
      } else if InPool(g, a) {
        GrowsKeeps(st, g, st', g', a);
      } else if a !in base {
        var u :| u in st.threads && Private(st.threads[u]) == At(a);
        if u != t { assert st'.threads[u] == st.threads[u]; }
      }
    }
  }

  lemma {:induction false} RunAccounted(r: Run, i: nat) returns (g: Lists)
    requires IsRun(r) && i < |r.states|
    ensures Inv(r.states[i], g) && Accounted(r.states[i], g, r.states[0].heap.Keys)
  {
    if i == 0 {
      InvInitial(r.states[0]);
      g := seq(HASH_TABLE_SIZE, _ => []);
    } else {
      g := RunAccounted(r, i - 1);
      assert StepAt(r, i - 1);
      var (t, c) := r.moves[i - 1];
      InvStep(r.states[i - 1], g, t, c, r.states[i]);
      AccountedStep(r.states[i - 1], g, t, c, r.states[i], r.states[0].heap.Keys);
      g := NextLists(r.states[i - 1], g, t);
    }
  }

  /** A node that a call allocated is freed, published, or still in the hands of
      exactly one thread that is inside a call. */
  lemma NoLeak(r: Run, i: nat, a: Addr)
    requires IsRun(r) && i < |r.states| && a in r.states[i].heap && a !in r.states[0].heap
    ensures HasTable(r.states[i])
    ensures Published(r.states[i], a) <==> !Owned(r.states[i], a)
    ensures forall t, u | Private(PcOf(r.states[i], t)) == At(a) == Private(PcOf(r.states[i], u)) :: t == u
  {
    var st := r.states[i];
    var g := RunAccounted(r, i);
    PublishedInPool(st, g, a);
    if Owned(st, a) {
      var t :| t in st.threads && Private(st.threads[t]) == At(a);
      assert ThreadOk(st, g, st.threads[t]);
    }
  }

  // ----- Walks -----

  predicate Walking(pc: Pc) {
    pc.Compare? || pc.Advance? || pc.Recompare? || pc.Readvance?
  }

  function Position(pc: Pc): Ptr
    requires Walking(pc)
  {
    match pc
    case Compare(_, p) => p
    case Advance(_, a) => At(a)
    case Recompare(_, _, p) => p
    case Readvance(_, _, a) => At(a)
  }

  /** A walking thread stands on a published suffix of its bucket. */
  lemma WalkerSuffix(st: State, g: Lists, pc: Pc) returns (ids: seq<Addr>)
    requires Buckets(st, g) && ThreadOk(st, g, pc) && Walking(pc)
    ensures Chain(st.heap, Position(pc), ids)
    ensures forall a | a in ids :: InPool(g, a)
  {
    var k := Slot(pc.s);
    var i: nat := |g[k]|;
    if Position(pc).At? {
      var a := Position(pc).a;
      assert a in g[k];
      i :| 0 <= i < |g[k]| && g[k][i] == a;
    }
    SuffixChain(st, g, k, i);
    ids := g[k][i..];
    forall a | a in ids ensures InPool(g, a) {
      InPoolAt(g, k, a);
    }
  }

  /** What a walker still has to visit is a finite list of initialised nodes that
      no later step of any thread changes. */
  lemma FrozenSuffix(r: Run, i: nat, t: Tid) returns (ids: seq<Addr>)
    requires IsRun(r) && i < |r.states| && Walking(PcOf(r.states[i], t))
    ensures Chain(r.states[i].heap, Position(PcOf(r.states[i], t)), ids)
    ensures forall j, a | i <= j < |r.states| && a in ids ::
              a in r.states[j].heap && r.states[j].heap[a] == r.states[i].heap[a]
  {
    var g := RunInv(r, i);
    assert ThreadOk(r.states[i], g, PcOf(r.states[i], t));
    ids := WalkerSuffix(r.states[i], g, PcOf(r.states[i], t));
    forall j, a | i <= j < |r.states| && a in ids
      ensures a in r.states[j].heap && r.states[j].heap[a] == r.states[i].heap[a]
    {
      var g' := RunGrows(r, i, j, g);
    }
  }

  /** How many moves of the run between states `i` and `j` are by thread `t`. */
  function Moves(r: Run, i: nat, j: nat, t: Tid): nat
    requires i <= j <= |r.moves|
    decreases j
  {
    if i == j then 0 else Moves(r, i, j - 1, t) + (if r.moves[j - 1].0 == t then 1 else 0)
  }

  function WalkMeasure(pc: Pc, ids: seq<Addr>): int {
    2 * |ids| - (if pc.Advance? || pc.Readvance? then 1 else 0)
  }

  lemma OthersKeepPc(st: State, u: Tid, c: Choice, st': State, t: Tid)
    requires StepsTo(st, u, c, st') && u != t
    ensures PcOf(st', t) == PcOf(st, t)
  {
  }

  lemma OwnWalkStep(st: State, t: Tid, c: Choice, st': State, ids: seq<Addr>) returns (ids': seq<Addr>)
    requires StepsTo(st, t, c, st')
    requires Walking(PcOf(st, t)) && Walking(PcOf(st', t))
    requires Chain(st.heap, Position(PcOf(st, t)), ids)
    ensures Chain(st'.heap, Position(PcOf(st', t)), ids')
    ensures WalkMeasure(PcOf(st', t), ids') == WalkMeasure(PcOf(st, t), ids) - 1
  {
    var pc := PcOf(st, t);
    ids' := ids;
    if pc.Advance? || pc.Readvance? {
      ChainTail(st.heap, Position(pc), ids);
      ids' := ids[1..];
    }
  }

  /** Whatever another thread does, the walker's chain is the same. */
  lemma OtherWalkStep(st: State, g: Lists, st': State, g': Lists, pc: Pc, ids: seq<Addr>)
    requires Inv(st, g) && ThreadOk(st, g, pc) && Walking(pc) && Grows(st, g, st', g')
    requires Chain(st.heap, Position(pc), ids)
    ensures Chain(st'.heap, Position(pc), ids)
  {
    var own := WalkerSuffix(st, g, pc);
    ChainUnique(st.heap, Position(pc), ids, own);
  }

  /** One step of any thread: the walker's remaining work drops by one if it
      moved and stays the same otherwise. */
  lemma WalkerStep(r: Run, j: nat, t: Tid, ids: seq<Addr>) returns (ids': seq<Addr>)
    requires IsRun(r) && j < |r.moves|
    requires Walking(PcOf(r.states[j], t)) && Walking(PcOf(r.states[j + 1], t))
    requires Chain(r.states[j].heap, Position(PcOf(r.states[j], t)), ids)
    ensures Chain(r.states[j + 1].heap, Position(PcOf(r.states[j + 1], t)), ids')
    ensures WalkMeasure(PcOf(r.states[j + 1], t), ids') + (if r.moves[j].0 == t then 1 else 0)
            == WalkMeasure(PcOf(r.states[j], t), ids)
  {
    var st, st' := r.states[j], r.states[j + 1];
    var (u, c) := r.moves[j];
    assert StepAt(r, j);
    if u == t {
      ids' := OwnWalkStep(st, t, c, st', ids);
    } else {
      var g := RunInv(r, j);
      InvStep(st, g, u, c, st');
      OthersKeepPc(st, u, c, st', t);
      assert ThreadOk(st, g, PcOf(st, t));
      OtherWalkStep(st, g, st', NextLists(st, g, u), PcOf(st, t), ids);
      ids' := ids;
    }
  }

  /** Between two states of one walk the walker makes exactly as many moves as its
      remaining work drops by. */
  lemma {:induction false} WalkMoves(r: Run, i: nat, j: nat, t: Tid, ids: seq<Addr>)
      returns (left: seq<Addr>)
    requires IsRun(r) && i <= j < |r.states|
    requires forall m | i <= m <= j :: Walking(PcOf(r.states[m], t))
    requires Chain(r.states[i].heap, Position(PcOf(r.states[i], t)), ids)
    ensures Chain(r.states[j].heap, Position(PcOf(r.states[j], t)), left)
    ensures Moves(r, i, j, t) + WalkMeasure(PcOf(r.states[j], t), left) == WalkMeasure(PcOf(r.states[i], t), ids)
    decreases j
  {
    if i == j {
      left := ids;
    } else {
      var before := WalkMoves(r, i, j - 1, t, ids);
      left := WalkerStep(r, j - 1, t, before);
    }
  }

  /** A walk takes at most two steps per node of the suffix it started on, however
      many strings other threads add meanwhile. */
  lemma WalkIsBounded(r: Run, i: nat, j: nat, t: Tid, ids: seq<Addr>)
    requires IsRun(r) && i <= j < |r.states|
    requires forall m | i <= m <= j :: Walking(PcOf(r.states[m], t))
    requires Chain(r.states[i].heap, Position(PcOf(r.states[i], t)), ids)
    ensures Moves(r, i, j, t) <= 2 * |ids|
  {
    var left := WalkMoves(r, i, j, t, ids);
    assert Position(PcOf(r.states[j], t)) == PtrAt(left, 0);
  }

  // ----- No deadlock -----

  ghost predicate CanMove(st: State, t: Tid)
    requires HasTable(st)
  {
    exists c :: Step(st, t, c).Some?
  }

  /** Every thread can move, except one that waits for a lock whose holder can. */
  lemma NoDeadlock(r: Run, i: nat, t: Tid)
    requires IsRun(r) && i < |r.states|
    ensures var st := r.states[i];
            HasTable(st) &&
            (CanMove(st, t) || (PcOf(st, t).Acquire? && st.lock.HeldBy? && CanMove(st, st.lock.t)))
  {
    var g := RunInv(r, i);
    var st := r.states[i];
    ThreadCanMove(st, g, t);
    if st.lock.HeldBy? {
      assert InCritical(PcOf(st, st.lock.t));
      ThreadCanMove(st, g, st.lock.t);
    }
  }

  lemma ThreadCanMove(st: State, g: Lists, t: Tid)
    requires Inv(st, g)
    ensures CanMove(st, t) || (PcOf(st, t).Acquire? && st.lock.HeldBy?)
  {
    if t in st.threads {
      assert ThreadOk(st, g, st.threads[t]);
    }
    var pc := PcOf(st, t);
    if pc.Idle? || pc.Returned? {
      assert Step(st, t, Call("")).Some?;
    } else if pc.Allocate? {
      assert Step(st, t, MallocFails).Some?;
    } else if !(pc.Acquire? && st.lock.HeldBy?) {
      assert Step(st, t, Proceed).Some?;
    }
  }
}
