/**
 The inductive invariant of the string pool.

 The invariant is stated over a state and the bucket lists `g`: `g[k]` lists the
 addresses of the nodes linked from `table[k]`, front to back.  `g` is not part
 of the state; each step yields the lists of the next state.
 */
module StruniqInvariant {
  import opened Struniq

  type Lists = seq<seq<Addr>>

  function PtrAt(ids: seq<Addr>, i: nat): Ptr {
    if i < |ids| then At(ids[i]) else Null
  }

  /** `a` is fully initialised and holds `s`. */
  predicate Holds(h: map<Addr, Node>, a: Addr, s: string) {
    a in h && h[a].contents == Init(s)
  }

  ghost predicate NodeOk(h: map<Addr, Node>, ids: seq<Addr>, i: nat, k: nat)
    requires i < |ids|
  {
    && ids[i] in h
    && h[ids[i]].next == Init(PtrAt(ids, i + 1))
    && h[ids[i]].contents.Init?
    && Slot(h[ids[i]].contents.v) == k
  }

  ghost predicate Linked(h: map<Addr, Node>, ids: seq<Addr>, k: nat) {
    forall i | 0 <= i < |ids| :: NodeOk(h, ids, i, k)
  }

  ghost predicate Distinct(h: map<Addr, Node>, ids: seq<Addr>) {
    forall i, j | 0 <= i < j < |ids| && ids[i] in h && ids[j] in h ::
      h[ids[i]].contents != h[ids[j]].contents
  }

  ghost predicate BucketOk(h: map<Addr, Node>, head: Ptr, ids: seq<Addr>, k: nat) {
    && head == PtrAt(ids, 0)
    && Linked(h, ids, k)
    && Distinct(h, ids)
  }

  ghost predicate InPool(g: Lists, a: Addr) {
    exists k | 0 <= k < |g| :: a in g[k]
  }

  /** No node of the list before position `i` holds `s`. */
  ghost predicate Missed(h: map<Addr, Node>, ids: seq<Addr>, i: nat, s: string)
    requires i <= |ids|
  {
    forall j | 0 <= j < i :: !Holds(h, ids[j], s)
  }

  ghost predicate MissedUpTo(h: map<Addr, Node>, ids: seq<Addr>, p: Ptr, s: string) {
    exists i | 0 <= i <= |ids| :: p == PtrAt(ids, i) && Missed(h, ids, i, s)
  }

  /** The unpublished node a thread owns, if any. */
  function Private(pc: Pc): Ptr {
    match pc
    case Fill(_, n) => At(n)
    case Acquire(_, n) => At(n)
    case ReloadHead(_, n) => At(n)
    case Recompare(_, n, _) => At(n)
    case Readvance(_, n, _) => At(n)
    case Discard(_, n, _) => At(n)
    case Link(_, n) => At(n)
    case Publish(_, n) => At(n)
    case _ => Null
  }

  predicate InCritical(pc: Pc) {
    pc.ReloadHead? || pc.Recompare? || pc.Readvance? || pc.Discard? || pc.Link? || pc.Publish? || pc.Release?
  }

  ghost predicate PrivateOk(st: State, g: Lists, n: Addr) {
    n in st.heap && !InPool(g, n)
  }

  /** What a thread may rely on where it is. */
  ghost predicate ThreadOk(st: State, g: Lists, pc: Pc)
    requires HasTable(st) && |g| == HASH_TABLE_SIZE
  {
    && (Private(pc).At? ==> PrivateOk(st, g, Private(pc).a))
    && match pc
       case Idle => true
       case LoadHead(s) => true
       case Compare(s, p) => p.At? ==> p.a in g[Slot(s)]
       case Advance(s, a) => a in g[Slot(s)]
       case Allocate(s) => true
       case Fill(s, n) => true
       case Acquire(s, n) => Holds(st.heap, n, s)
       case ReloadHead(s, n) => Holds(st.heap, n, s)
       case Recompare(s, n, p) => Holds(st.heap, n, s) && MissedUpTo(st.heap, g[Slot(s)], p, s)
       case Readvance(s, n, a) =>
         Holds(st.heap, n, s) && MissedUpTo(st.heap, g[Slot(s)], At(a), s) && !Holds(st.heap, a, s)
       case Discard(s, n, a) => a in g[Slot(s)] && Holds(st.heap, a, s)
       case Link(s, n) => Holds(st.heap, n, s) && Missed(st.heap, g[Slot(s)], |g[Slot(s)]|, s)
       case Publish(s, n) =>
         && Holds(st.heap, n, s) && Missed(st.heap, g[Slot(s)], |g[Slot(s)]|, s)
         && st.heap[n].next == Init(PtrAt(g[Slot(s)], 0))
       case Release(s, a) => a in g[Slot(s)] && Holds(st.heap, a, s)
       case Return(s, r) => r.Pooled? ==> r.a in g[Slot(s)] && Holds(st.heap, r.a, s)
       case Returned(s, r) => r.Pooled? ==> r.a in g[Slot(s)] && Holds(st.heap, r.a, s)
       case Fault => false
  }

  ghost predicate Buckets(st: State, g: Lists) {
    && HasTable(st) && |g| == HASH_TABLE_SIZE
    && forall k | 0 <= k < HASH_TABLE_SIZE :: BucketOk(st.heap, st.table[k], g[k], k)
  }

  ghost predicate LockOk(st: State) {
    forall t: Tid :: st.lock == HeldBy(t) <==> InCritical(PcOf(st, t))
  }

  ghost predicate OwnersDiffer(st: State) {
    forall t, u | t in st.threads && u in st.threads && t != u && Private(st.threads[t]).At? ::
      Private(st.threads[t]) != Private(st.threads[u])
  }

  ghost predicate ThreadsOk(st: State, g: Lists)
    requires HasTable(st) && |g| == HASH_TABLE_SIZE
  {
    forall t | t in st.threads :: ThreadOk(st, g, st.threads[t])
  }

  ghost predicate Inv(st: State, g: Lists) {
    Buckets(st, g) && ThreadsOk(st, g) && LockOk(st) && OwnersDiffer(st)
  }

  /** The lists only grow, at the front, and published nodes never change. */
  ghost predicate Grows(st: State, g: Lists, st': State, g': Lists) {
    && |g| == |g'|
    && (forall k | 0 <= k < |g| :: |g[k]| <= |g'[k]| && g'[k][|g'[k]| - |g[k]|..] == g[k])
    && (forall a | InPool(g, a) :: a in st.heap && a in st'.heap && st'.heap[a] == st.heap[a])
  }

  // ----- Facts about the bucket lists -----

  lemma InPoolAt(g: Lists, k: nat, a: Addr)
    requires k < |g| && a in g[k]
    ensures InPool(g, a)
  {
  }

  lemma PublishedOk(st: State, g: Lists, k: nat, a: Addr)
    requires Buckets(st, g) && k < HASH_TABLE_SIZE && a in g[k]
    ensures a in st.heap && st.heap[a].contents.Init? && st.heap[a].next.Init?
    ensures Slot(st.heap[a].contents.v) == k
    ensures st.heap[a].next.v.At? ==> st.heap[a].next.v.a in g[k]
  {
    var i :| 0 <= i < |g[k]| && g[k][i] == a;
    assert NodeOk(st.heap, g[k], i, k);
  }

  /** A pooled string is stored once: its node is determined by its contents. */
  lemma SameContentsSameNode(st: State, g: Lists, a: Addr, b: Addr, s: string)
    requires Buckets(st, g) && InPool(g, a) && InPool(g, b)
    requires Holds(st.heap, a, s) && Holds(st.heap, b, s)
    ensures a == b
  {
    var k :| 0 <= k < |g| && a in g[k];
    var m :| 0 <= m < |g| && b in g[m];
    PublishedOk(st, g, k, a);
    PublishedOk(st, g, m, b);
    assert BucketOk(st.heap, st.table[k], g[k], k);
    var i :| 0 <= i < |g[k]| && g[k][i] == a;
    var j :| 0 <= j < |g[k]| && g[k][j] == b;
    assert !(i < j) && !(j < i);
  }

  // ----- Preservation -----

  /** The heaps agree everywhere but at `x`. */
  ghost predicate SameBut(h: map<Addr, Node>, h': map<Addr, Node>, x: Addr) {
    forall a: Addr | a != x :: (a in h <==> a in h') && (a in h ==> h'[a] == h[a])
  }

  lemma BucketFrame(h: map<Addr, Node>, h': map<Addr, Node>, x: Addr, head: Ptr, ids: seq<Addr>, k: nat)
    requires BucketOk(h, head, ids, k) && SameBut(h, h', x) && x !in ids
    ensures BucketOk(h', head, ids, k)
  {
    forall i | 0 <= i < |ids| ensures NodeOk(h', ids, i, k) {
      assert NodeOk(h, ids, i, k);
    }
  }

  lemma MissedFrame(h: map<Addr, Node>, h': map<Addr, Node>, x: Addr, ids: seq<Addr>, i: nat, s: string)
    requires i <= |ids| && Missed(h, ids, i, s) && SameBut(h, h', x) && x !in ids
    ensures Missed(h', ids, i, s)
  {
    forall j | 0 <= j < i ensures !Holds(h', ids[j], s) {
      assert !Holds(h, ids[j], s);
    }
  }

  /** A change at an unpublished address disturbs no thread that does not own it. */
  lemma ThreadFrame(st: State, g: Lists, st': State, x: Addr, pc: Pc)
    requires HasTable(st) && HasTable(st') && |g| == HASH_TABLE_SIZE
    requires ThreadOk(st, g, pc) && SameBut(st.heap, st'.heap, x) && !InPool(g, x)
    requires Private(pc) != At(x)
    ensures ThreadOk(st', g, pc)
  {
    match pc
    case Recompare(s, n, p) =>
      var i :| 0 <= i <= |g[Slot(s)]| && p == PtrAt(g[Slot(s)], i) && Missed(st.heap, g[Slot(s)], i, s);
      MissedFrame(st.heap, st'.heap, x, g[Slot(s)], i, s);
    case Readvance(s, n, a) =>
      var i :| 0 <= i <= |g[Slot(s)]| && At(a) == PtrAt(g[Slot(s)], i) && Missed(st.heap, g[Slot(s)], i, s);
      MissedFrame(st.heap, st'.heap, x, g[Slot(s)], i, s);
      assert a in g[Slot(s)];
    case Link(s, n) =>
      MissedFrame(st.heap, st'.heap, x, g[Slot(s)], |g[Slot(s)]|, s);
    case Publish(s, n) =>
      MissedFrame(st.heap, st'.heap, x, g[Slot(s)], |g[Slot(s)]|, s);
    case _ =>
  }

  /** Thread `t` goes to `pc` and changes the heap at most at `x`, which is its
      own unpublished node or was not allocated. */
  lemma PrivateStep(st: State, g: Lists, t: Tid, x: Addr, h': map<Addr, Node>, pc: Pc)
    requires Inv(st, g)
    requires Private(PcOf(st, t)) == At(x) || x !in st.heap
    requires SameBut(st.heap, h', x)
    requires ThreadOk(st.(heap := h'), g, pc)
    requires InCritical(pc) == InCritical(PcOf(st, t))
    requires Private(pc).At? ==> Private(pc) == At(x) || Private(pc) == Private(PcOf(st, t))
    ensures Inv(Goto(st.(heap := h'), t, pc), g)
    ensures Grows(st, g, Goto(st.(heap := h'), t, pc), g)
  {
    var st' := Goto(st.(heap := h'), t, pc);
    forall k | 0 <= k < HASH_TABLE_SIZE ensures x !in g[k] {
      if x in g[k] {
        PublishedOk(st, g, k, x);
        assert false;
      }
    }
    forall k | 0 <= k < HASH_TABLE_SIZE ensures BucketOk(h', st.table[k], g[k], k) {
      BucketFrame(st.heap, h', x, st.table[k], g[k], k);
    }
    forall u | u in st'.threads ensures ThreadOk(st', g, st'.threads[u]) {
      if u != t {
        assert ThreadOk(st, g, st.threads[u]);
        ThreadFrame(st, g, st', x, st.threads[u]);
      } else {
        assert ThreadOk(st.(heap := h'), g, pc);
      }
    }
    forall u: Tid ensures st'.lock == HeldBy(u) <==> InCritical(PcOf(st', u)) {
      assert st.lock == HeldBy(u) <==> InCritical(PcOf(st, u));
    }
    forall a | InPool(g, a) ensures a in st.heap && a in h' && h'[a] == st.heap[a] {
      var k :| 0 <= k < |g| && a in g[k];
      PublishedOk(st, g, k, a);
    }
  }

  lemma LocalStep(st: State, g: Lists, t: Tid, pc: Pc)
    requires Inv(st, g)
    requires ThreadOk(st, g, pc)
    requires InCritical(pc) == InCritical(PcOf(st, t))
    requires Private(pc).At? ==> Private(pc) == Private(PcOf(st, t))
    ensures Inv(Goto(st, t, pc), g)
    ensures Grows(st, g, Goto(st, t, pc), g)
  {
    assert st.(heap := st.heap) == st;
    if Private(PcOf(st, t)).At? {
      PrivateStep(st, g, t, Private(PcOf(st, t)).a, st.heap, pc);
    } else {
      var x := Unused(st.heap.Keys);
      PrivateStep(st, g, t, x, st.heap, pc);
    }
  }

  /** Some address is not in use. */
  ghost function Unused(used: set<Addr>): (x: Addr)
    ensures x !in used
    ensures forall a | a in used :: a < x
    decreases |used|
  {
    if used == {} then 0
    else
      var a :| a in used;
      var x := Unused(used - {a});
      assert used == (used - {a}) + {a};
      if x <= a then a + 1 else x
  }

  /** Acquiring the free lock or releasing the held one. */
  lemma LockStep(st: State, g: Lists, t: Tid, lock: Lock, pc: Pc)
    requires Inv(st, g)
    requires ThreadOk(st, g, pc)
    requires Private(pc) == Private(PcOf(st, t))
    requires || (st.lock.Free? && lock == HeldBy(t) && InCritical(pc))
             || (st.lock == HeldBy(t) && lock.Free? && !InCritical(pc))
    ensures Inv(Goto(st.(lock := lock), t, pc), g)
    ensures Grows(st, g, Goto(st.(lock := lock), t, pc), g)
  {
    var st' := Goto(st.(lock := lock), t, pc);
    forall u | u in st'.threads ensures ThreadOk(st', g, st'.threads[u]) {
      assert u != t ==> ThreadOk(st, g, st.threads[u]);
    }
    forall u: Tid ensures st'.lock == HeldBy(u) <==> InCritical(PcOf(st', u)) {
      assert st.lock == HeldBy(u) <==> InCritical(PcOf(st, u));
    }
    forall k | 0 <= k < HASH_TABLE_SIZE ensures BucketOk(st'.heap, st'.table[k], g[k], k) {
    }
    forall a | InPool(g, a) ensures a in st.heap {
      var k :| 0 <= k < |g| && a in g[k];
      PublishedOk(st, g, k, a);
    }
  }

  // ----- Publication -----

  function Pushed(g: Lists, k: nat, n: Addr): Lists
    requires k < |g|
  {
    g[k := [n] + g[k]]
  }

  lemma PushInPool(g: Lists, k: nat, n: Addr)
    requires k < |g|
    ensures forall a :: InPool(Pushed(g, k, n), a) <==> a == n || InPool(g, a)
  {
    var g' := Pushed(g, k, n);
    forall a ensures InPool(g', a) <==> a == n || InPool(g, a) {
      if InPool(g', a) {
        var m :| 0 <= m < |g'| && a in g'[m];
        if a != n { assert a in g[m]; }
      }
      if InPool(g, a) {
        var m :| 0 <= m < |g| && a in g[m];
        assert a in g'[m];
      }
      if a == n { assert a in g'[k]; }
    }
  }

  lemma PushBucket(h: map<Addr, Node>, head: Ptr, ids: seq<Addr>, k: nat, n: Addr, s: string)
    requires BucketOk(h, head, ids, k) && Holds(h, n, s) && Slot(s) == k
    requires h[n].next == Init(PtrAt(ids, 0)) && Missed(h, ids, |ids|, s)
    ensures BucketOk(h, At(n), [n] + ids, k)
  {
    var ids' := [n] + ids;
    forall i | 0 <= i < |ids'| ensures NodeOk(h, ids', i, k) {
      if i > 0 { assert NodeOk(h, ids, i - 1, k); }
    }
    forall i, j | 0 <= i < j < |ids'| && ids'[i] in h && ids'[j] in h
      ensures h[ids'[i]].contents != h[ids'[j]].contents
    {
      if i == 0 {
        assert !Holds(h, ids[j - 1], s);
      } else {
        assert ids'[i] == ids[i - 1] && ids'[j] == ids[j - 1];
      }
    }
  }

  /** Threads outside the critical section survive a publication. */
  lemma PushThread(st: State, g: Lists, st': State, n: Addr, k: nat, pc: Pc)
    requires HasTable(st) && HasTable(st') && |g| == HASH_TABLE_SIZE && k < |g|
    requires ThreadOk(st, g, pc) && st'.heap == st.heap
    requires !InCritical(pc) && Private(pc) != At(n)
    ensures ThreadOk(st', Pushed(g, k, n), pc)
  {
    PushInPool(g, k, n);
  }

  lemma PublishBuckets(st: State, g: Lists, s: string, n: Addr, table: seq<Ptr>)
    requires Buckets(st, g) && ThreadOk(st, g, Publish(s, n))
    requires table == st.table[Slot(s) := At(n)]
    ensures Buckets(st.(table := table), Pushed(g, Slot(s), n))
  {
    var k := Slot(s);
    PushBucket(st.heap, st.table[k], g[k], k, n, s);
    forall m | 0 <= m < HASH_TABLE_SIZE ensures BucketOk(st.heap, table[m], Pushed(g, k, n)[m], m) {
      assert BucketOk(st.heap, st.table[m], g[m], m);
    }
  }

  lemma PublishThreads(st: State, g: Lists, t: Tid, s: string, n: Addr, st': State)
    requires Inv(st, g) && PcOf(st, t) == Publish(s, n)
    requires st' == Goto(st.(table := st.table[Slot(s) := At(n)]), t, Release(s, n))
    ensures ThreadsOk(st', Pushed(g, Slot(s), n))
  {
    assert ThreadOk(st, g, Publish(s, n));
    forall u | u in st'.threads ensures ThreadOk(st', Pushed(g, Slot(s), n), st'.threads[u]) {
      if u != t {
        assert st.lock == HeldBy(t) && !InCritical(PcOf(st, u));
        PushThread(st, g, st', n, Slot(s), st.threads[u]);
      }
    }
  }

  lemma PushGrows(st: State, g: Lists, st': State, k: nat, n: Addr)
    requires Buckets(st, g) && k < HASH_TABLE_SIZE && st'.heap == st.heap
    ensures Grows(st, g, st', Pushed(g, k, n))
  {
    forall a | InPool(g, a) ensures a in st.heap {
      var m :| 0 <= m < |g| && a in g[m];
      PublishedOk(st, g, m, a);
    }
  }

  lemma PublishStep(st: State, g: Lists, t: Tid, s: string, n: Addr)
    requires Inv(st, g) && PcOf(st, t) == Publish(s, n)
    ensures var st' := Goto(st.(table := st.table[Slot(s) := At(n)]), t, Release(s, n));
            Inv(st', Pushed(g, Slot(s), n)) && Grows(st, g, st', Pushed(g, Slot(s), n))
  {
    var st' := Goto(st.(table := st.table[Slot(s) := At(n)]), t, Release(s, n));
    assert ThreadOk(st, g, Publish(s, n));
    PublishBuckets(st, g, s, n, st'.table);
    PublishThreads(st, g, t, s, n, st');
    PushGrows(st, g, st', Slot(s), n);
    forall u: Tid ensures st'.lock == HeldBy(u) <==> InCritical(PcOf(st', u)) {
      assert st.lock == HeldBy(u) <==> InCritical(PcOf(st, u));
    }
  }

  // ----- The second walk, under the lock -----

  lemma RecompareStep(st: State, g: Lists, s: string, n: Addr, p: Ptr)
    requires Buckets(st, g) && ThreadOk(st, g, Recompare(s, n, p))
    ensures match Look(st, p, s)
            case End => ThreadOk(st, g, Link(s, n))
            case Broken => false
            case Match(a) => ThreadOk(st, g, Discard(s, n, a))
            case Mismatch(a) => ThreadOk(st, g, Readvance(s, n, a))
  {
    var ids := g[Slot(s)];
    var i :| 0 <= i <= |ids| && p == PtrAt(ids, i) && Missed(st.heap, ids, i, s);
    if i < |ids| {
      PublishedOk(st, g, Slot(s), ids[i]);
    }
  }

  lemma ReadvanceStep(st: State, g: Lists, s: string, n: Addr, a: Addr)
    requires Buckets(st, g) && ThreadOk(st, g, Readvance(s, n, a))
    ensures ReadableNext(st, a) && ThreadOk(st, g, Recompare(s, n, st.heap[a].next.v))
  {
    var ids := g[Slot(s)];
    var i :| 0 <= i <= |ids| && At(a) == PtrAt(ids, i) && Missed(st.heap, ids, i, s);
    assert NodeOk(st.heap, ids, i, Slot(s));
    assert Missed(st.heap, ids, i + 1, s);
  }

  // ----- Every step preserves the invariant -----

  /** The bucket lists after a step. */
  function NextLists(st: State, g: Lists, t: Tid): Lists
    requires |g| == HASH_TABLE_SIZE
  {
    match PcOf(st, t)
    case Publish(s, n) => Pushed(g, Slot(s), n)
    case _ => g
  }

  lemma InvStep(st: State, g: Lists, t: Tid, c: Choice, st': State)
    requires Inv(st, g) && StepsTo(st, t, c, st')
    ensures Inv(st', NextLists(st, g, t)) && Grows(st, g, st', NextLists(st, g, t))
  {
    var pc := PcOf(st, t);
    assert ThreadOk(st, g, pc);
    match pc
    case Allocate(_) => AllocateStep(st, g, t, c, st');
    case Fill(s, n) => PrivateStep(st, g, t, n, st'.heap, Acquire(s, n));
    case Acquire(s, n) => LockStep(st, g, t, HeldBy(t), ReloadHead(s, n));
    case ReloadHead(_, _) => RewalkStep(st, g, t, c, st');
    case Recompare(_, _, _) => RewalkStep(st, g, t, c, st');
    case Readvance(_, _, _) => RewalkStep(st, g, t, c, st');
    case Discard(_, _, _) => DiscardStep(st, g, t, c, st');
    case Link(_, _) => LinkStep(st, g, t, c, st');
    case Publish(s, n) => PublishStep(st, g, t, s, n);
    case Release(s, a) => ReleaseStep(st, g, t, c, st');
    case _ => ReaderStep(st, g, t, c, st');
  }

  /** The steps outside the lock that touch no private node. */
  lemma ReaderStep(st: State, g: Lists, t: Tid, c: Choice, st': State)
    requires Inv(st, g) && StepsTo(st, t, c, st')
    requires var pc := PcOf(st, t);
             pc.Idle? || pc.Returned? || pc.LoadHead? || pc.Compare? || pc.Advance? || pc.Return? || pc.Fault?
    ensures Inv(st', g) && Grows(st, g, st', g)
  {
    var pc := PcOf(st, t);
    assert ThreadOk(st, g, pc);
    match pc {
      case LoadHead(s) => assert BucketOk(st.heap, st.table[Slot(s)], g[Slot(s)], Slot(s));
      case Compare(s, p) => if p.At? { PublishedOk(st, g, Slot(s), p.a); }
      case Advance(s, a) => PublishedOk(st, g, Slot(s), a);
      case _ =>
    }
    LocalStep(st, g, t, PcOf(st', t));
  }

  lemma RewalkStep(st: State, g: Lists, t: Tid, c: Choice, st': State)
    requires Inv(st, g) && StepsTo(st, t, c, st')
    requires var pc := PcOf(st, t); pc.ReloadHead? || pc.Recompare? || pc.Readvance?
    ensures Inv(st', g) && Grows(st, g, st', g)
  {
    var pc := PcOf(st, t);
    assert ThreadOk(st, g, pc);
    match pc {
      case ReloadHead(s, n) =>
        assert BucketOk(st.heap, st.table[Slot(s)], g[Slot(s)], Slot(s));
        assert Missed(st.heap, g[Slot(s)], 0, s);
      case Recompare(s, n, p) => RecompareStep(st, g, s, n, p);
      case Readvance(s, n, a) => ReadvanceStep(st, g, s, n, a);
    }
    LocalStep(st, g, t, PcOf(st', t));
  }

  lemma ReleaseStep(st: State, g: Lists, t: Tid, c: Choice, st': State)
    requires Inv(st, g) && PcOf(st, t).Release? && StepsTo(st, t, c, st')
    ensures Inv(st', g) && Grows(st, g, st', g)
  {
    var Release(s, a) := PcOf(st, t);
    assert ThreadOk(st, g, PcOf(st, t));
    LockStep(st, g, t, Free, Return(s, Pooled(a)));
  }

  lemma AllocateStep(st: State, g: Lists, t: Tid, c: Choice, st': State)
    requires Inv(st, g) && PcOf(st, t).Allocate? && StepsTo(st, t, c, st')
    ensures Inv(st', g) && Grows(st, g, st', g)
  {
    var s := PcOf(st, t).s;
    if c.MallocFails? {
      LocalStep(st, g, t, Return(s, OutOfMemory));
    } else {
      if InPool(g, c.n) {
        var k :| 0 <= k < |g| && c.n in g[k];
        PublishedOk(st, g, k, c.n);
        assert false;
      }
      PrivateStep(st, g, t, c.n, st'.heap, Fill(s, c.n));
    }
  }

  lemma DiscardStep(st: State, g: Lists, t: Tid, c: Choice, st': State)
    requires Inv(st, g) && PcOf(st, t).Discard? && StepsTo(st, t, c, st')
    ensures Inv(st', g) && Grows(st, g, st', g)
  {
    var Discard(s, n, a) := PcOf(st, t);
    assert ThreadOk(st, g, PcOf(st, t));
    InPoolAt(g, Slot(s), a);
    PrivateStep(st, g, t, n, st'.heap, Release(s, a));
  }

  lemma LinkStep(st: State, g: Lists, t: Tid, c: Choice, st': State)
    requires Inv(st, g) && PcOf(st, t).Link? && StepsTo(st, t, c, st')
    ensures Inv(st', g) && Grows(st, g, st', g)
  {
    var Link(s, n) := PcOf(st, t);
    var ids := g[Slot(s)];
    assert ThreadOk(st, g, PcOf(st, t));
    assert BucketOk(st.heap, st.table[Slot(s)], ids, Slot(s));
    if n in ids { InPoolAt(g, Slot(s), n); }
    MissedFrame(st.heap, st'.heap, n, ids, |ids|, s);
    PrivateStep(st, g, t, n, st'.heap, Publish(s, n));
  }

  lemma InvInitial(st: State)
    requires Initial(st)
    ensures Inv(st, seq(HASH_TABLE_SIZE, _ => []))
  {
  }
}
