/**
 The string pool `struniq` of localename.c as a transition system.

 Any number of threads run `struniq` over one shared heap, one table of bucket
 heads and one lock.  Every action below performs at most one access to shared
 memory, so every interleaving of the C statements is a run of this system
 (under sequential consistency).  A thread that touches memory that is not
 allocated, reads a field nobody wrote, frees twice, or releases a lock it does
 not hold goes to `Fault`.
 */
module Struniq {
  import opened Options
  import opened StringHash

  const HASH_TABLE_SIZE: nat := 257

  type Addr = nat
  type Tid = nat

  datatype Ptr = Null | At(a: Addr)
  datatype Cell<T> = Uninit | Init(v: T)
  datatype Node = Node(next: Cell<Ptr>, contents: Cell<string>)
  datatype Lock = Free | HeldBy(t: Tid)

  /** What a call returns: the contents of a pooled node, or the literal "C". */
  datatype Result = Pooled(a: Addr) | OutOfMemory

  /** Where a thread is inside `struniq (s)`. */
  datatype Pc =
    | Idle
    | LoadHead(s: string)                         // p = struniq_hash_table[slot]
    | Compare(s: string, p: Ptr)                  // p != NULL, strcmp
    | Advance(s: string, at: Addr)                // p = p->next
    | Allocate(s: string)                         // malloc
    | Fill(s: string, n: Addr)                    // memcpy
    | Acquire(s: string, n: Addr)                 // gl_lock_lock
    | ReloadHead(s: string, n: Addr)              // second walk, under the lock
    | Recompare(s: string, n: Addr, p: Ptr)
    | Readvance(s: string, n: Addr, at: Addr)
    | Discard(s: string, n: Addr, at: Addr)       // free (new_node); new_node = p
    | Link(s: string, n: Addr)                    // new_node->next = head
    | Publish(s: string, n: Addr)                 // head = new_node
    | Release(s: string, at: Addr)                // gl_lock_unlock
    | Return(s: string, r: Result)                // return
    | Returned(s: string, r: Result)
    | Fault

  datatype State = State(heap: map<Addr, Node>, table: seq<Ptr>, lock: Lock, threads: map<Tid, Pc>)

  /** The choices that are not the thread's: its next argument and what `malloc` does. */
  datatype Choice = Call(s: string) | Malloc(n: Addr) | MallocFails | Proceed

  function Slot(s: string): (k: nat)
    ensures k < HASH_TABLE_SIZE
  {
    Hash(s) % HASH_TABLE_SIZE
  }

  function PcOf(st: State, t: Tid): Pc {
    if t in st.threads then st.threads[t] else Idle
  }

  function Goto(st: State, t: Tid, pc: Pc): State {
    st.(threads := st.threads[t := pc])
  }

  predicate ReadableNext(st: State, a: Addr) {
    a in st.heap && st.heap[a].next.Init?
  }

  predicate ReadableContents(st: State, a: Addr) {
    a in st.heap && st.heap[a].contents.Init?
  }

  predicate HasTable(st: State) {
    |st.table| == HASH_TABLE_SIZE
  }

  /** What a thread walking a bucket sees at `p`. */
  datatype Sight = End | Broken | Match(a: Addr) | Mismatch(a: Addr)

  function Look(st: State, p: Ptr, s: string): Sight {
    if p.Null? then End
    else if !ReadableContents(st, p.a) then Broken
    else if st.heap[p.a].contents.v == s then Match(p.a)
    else Mismatch(p.a)
  }

  /** A choice is made where there is one: a call gets its argument, `malloc` its
      answer, and any other action just proceeds. */
  predicate Fits(pc: Pc, c: Choice) {
    match c
    case Call(_) => pc.Idle? || pc.Returned?
    case Malloc(_) => pc.Allocate?
    case MallocFails => pc.Allocate?
    case Proceed => !pc.Idle? && !pc.Returned? && !pc.Allocate?
  }

  /** The action of thread `t`, or None when it is not enabled.  No other thread
      moves. */
  function Step(st: State, t: Tid, c: Choice): (r: Option<State>)
    requires HasTable(st)
    ensures r.Some? ==> r.v.threads == st.threads[t := PcOf(r.v, t)] && Fits(PcOf(st, t), c)
  {
    if Fits(PcOf(st, t), c) then Act(st, t, c) else None
  }

  function Act(st: State, t: Tid, c: Choice): (r: Option<State>)
    requires HasTable(st) && Fits(PcOf(st, t), c)
    ensures r.Some? ==> r.v.threads == st.threads[t := PcOf(r.v, t)]
  {
    match PcOf(st, t)
    case Idle | Returned(_, _) => Some(Goto(st, t, LoadHead(c.s)))
    case LoadHead(s) =>
      Some(Goto(st, t, Compare(s, st.table[Slot(s)])))
    case Compare(s, p) =>
      Some(Goto(st, t, match Look(st, p, s)
                       case End => Allocate(s)
                       case Broken => Fault
                       case Match(a) => Return(s, Pooled(a))
                       case Mismatch(a) => Advance(s, a)))
    case Advance(s, a) =>
      Some(Goto(st, t, if ReadableNext(st, a) then Compare(s, st.heap[a].next.v) else Fault))
    case Allocate(s) =>
      if c.MallocFails? then Some(Goto(st, t, Return(s, OutOfMemory)))
      else if c.n !in st.heap then
        Some(Goto(st.(heap := st.heap[c.n := Node(Uninit, Uninit)]), t, Fill(s, c.n)))
      else None
    case Fill(s, n) =>
      if n !in st.heap then Some(Goto(st, t, Fault))
      else Some(Goto(st.(heap := st.heap[n := st.heap[n].(contents := Init(s))]), t, Acquire(s, n)))
    case Acquire(s, n) =>
      if st.lock.Free? then Some(Goto(st.(lock := HeldBy(t)), t, ReloadHead(s, n))) else None
    case ReloadHead(s, n) =>
      Some(Goto(st, t, Recompare(s, n, st.table[Slot(s)])))
    case Recompare(s, n, p) =>
      Some(Goto(st, t, match Look(st, p, s)
                       case End => Link(s, n)
                       case Broken => Fault
                       case Match(a) => Discard(s, n, a)
                       case Mismatch(a) => Readvance(s, n, a)))
    case Readvance(s, n, a) =>
      Some(Goto(st, t, if ReadableNext(st, a) then Recompare(s, n, st.heap[a].next.v) else Fault))
    case Discard(s, n, a) =>
      if n !in st.heap then Some(Goto(st, t, Fault))
      else Some(Goto(st.(heap := st.heap - {n}), t, Release(s, a)))
    case Link(s, n) =>
      if n !in st.heap then Some(Goto(st, t, Fault))
      else Some(Goto(st.(heap := st.heap[n := st.heap[n].(next := Init(st.table[Slot(s)]))]), t, Publish(s, n)))
    case Publish(s, n) =>
      Some(Goto(st.(table := st.table[Slot(s) := At(n)]), t, Release(s, n)))
    case Release(s, a) =>
      if st.lock != HeldBy(t) then Some(Goto(st, t, Fault))
      else Some(Goto(st.(lock := Free), t, Return(s, Pooled(a))))
    case Return(s, r) =>
      Some(Goto(st, t, Returned(s, r)))
    case Fault => None
  }

  /** The table is all NULL, the lock is free and no thread has started. */
  ghost predicate Initial(st: State) {
    && HasTable(st)
    && (forall k | 0 <= k < HASH_TABLE_SIZE :: st.table[k] == Null)
    && st.lock.Free?
    && st.threads == map[]
  }

  /** A run: its states, and who moved with which choice between them. */
  datatype Run = Run(states: seq<State>, moves: seq<(Tid, Choice)>)

  ghost predicate StepsTo(st: State, t: Tid, c: Choice, st': State) {
    HasTable(st) && Step(st, t, c) == Some(st')
  }

  ghost predicate StepAt(r: Run, i: nat)
    requires |r.states| == |r.moves| + 1 && i < |r.moves|
  {
    StepsTo(r.states[i], r.moves[i].0, r.moves[i].1, r.states[i + 1])
  }

  ghost predicate IsRun(r: Run) {
    && |r.states| == |r.moves| + 1
    && Initial(r.states[0])
    && forall i | 0 <= i < |r.moves| :: StepAt(r, i)
  }
}
