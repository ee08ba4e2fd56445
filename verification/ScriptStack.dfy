/** The heartbeat slots and the bounded script stack of src/hooks/ScriptStack.cpp.

    The claim is an interleaving of compare-exchange steps of any number of threads; each step is
    one sequentially consistent access.  The stack is thread-local, so it is a class. */
module ScriptStack {
  import opened Arithmetic
  import opened Bytes
  import opened Wrappers

  datatype Frame = Frame(funcHash: nat, classHash: nat, enteredNs: int)

  // ----- The shared slots -----

  const MAX_THREADS: nat := 16

  /** A thread.  The system hands the id of a finished thread to a new one, so a thread is not its
      id: several threads of a run may have the same. */
  type Tid = nat

  /** A heartbeat slot; thread id 0 marks a free one.  `owner` is the thread that claimed it, kept
      for the statements. */
  datatype Slot = Slot(threadId: nat, owner: Tid, beat: Frame)

  /** Where a thread stands in `UpdateHeartbeat`: about to try slot `i`, or about to store field
      `field` of its slot. */
  datatype Pc = Idle | Scanning(f: Frame, i: nat) | Storing(f: Frame, field: nat)

  /** A thread: `id` is what the system calls it, `slotIndex` its `t_slotIndex`; `beat` is the last
      heartbeat it finished storing, kept for the statements. */
  datatype Thread = Thread(id: nat, pc: Pc, slotIndex: int, beat: Option<Frame>)

  datatype State = State(slots: seq<Slot>, threads: map<Tid, Thread>)

  datatype Action =
    | Update(f: Frame)  // UpdateHeartbeat begins
    | TryClaim          // one compare-exchange
    | GiveUp            // the scan has passed the last slot
    | Store             // one field of the own slot

  const NO_FRAME := Frame(0, 0, 0)
  const FREE := Slot(0, 0, NO_FRAME)

  /** Every thread that will ever run, none with a slot. */
  ghost predicate Init(s: State) {
    && s.slots == seq(MAX_THREADS, i => FREE)
    && forall t :: t in s.threads ==> s.threads[t].id != 0 && s.threads[t] == Thread(s.threads[t].id, Idle, -1, None)
  }

  predicate Enabled(s: State, t: Tid, a: Action) {
    t in s.threads &&
    var pc := s.threads[t].pc;
    match a
    case Update(_) => pc.Idle?
    case TryClaim => pc.Scanning? && pc.i < |s.slots|
    case GiveUp => pc.Scanning? && pc.i >= |s.slots|
    case Store => pc.Storing? && 0 <= s.threads[t].slotIndex < |s.slots|
  }

  function WithField(beat: Frame, f: Frame, field: nat): Frame {
    if field == 0 then beat.(funcHash := f.funcHash)
    else if field == 1 then beat.(classHash := f.classHash)
    else beat.(enteredNs := f.enteredNs)
  }

  /** One thread takes one step. */
  function Step(s: State, t: Tid, a: Action): State
    requires Enabled(s, t, a)
  {
    var me := s.threads[t];
    match a
    case Update(f) =>
      s.(threads := s.threads[t := me.(pc := if me.slotIndex < 0 then Scanning(f, 0) else Storing(f, 0))])
    case TryClaim =>
      var f, i := me.pc.f, me.pc.i;
      if s.slots[i].threadId == 0 then
        s.(slots := s.slots[i := s.slots[i].(threadId := me.id, owner := t)],
           threads := s.threads[t := me.(pc := Storing(f, 0), slotIndex := i)])
      else s.(threads := s.threads[t := me.(pc := Scanning(f, i + 1))])
    case GiveUp => s.(threads := s.threads[t := me.(pc := Idle)])
    case Store =>
      var f, k, i := me.pc.f, me.pc.field, me.slotIndex;
      s.(slots := s.slots[i := s.slots[i].(beat := WithField(s.slots[i].beat, f, k))],
         threads := s.threads[t := if k < 2 then me.(pc := Storing(f, k + 1)) else me.(pc := Idle, beat := Some(f))])
  }

  ghost predicate CanRun(s: State, run: seq<(Tid, Action)>)
    decreases |run|
  {
    run == [] || (Enabled(s, run[0].0, run[0].1) && CanRun(Step(s, run[0].0, run[0].1), run[1..]))
  }

  ghost function Run(s: State, run: seq<(Tid, Action)>): State
    requires CanRun(s, run)
    decreases |run|
  {
    if run == [] then s else Run(Step(s, run[0].0, run[0].1), run[1..])
  }

  /** The first `field` fields of the slot are those of `f`. */
  predicate StoredUpTo(beat: Frame, f: Frame, field: nat) {
    && (field > 0 ==> beat.funcHash == f.funcHash)
    && (field > 1 ==> beat.classHash == f.classHash)
    && (field > 2 ==> beat.enteredNs == f.enteredNs)
  }

  /** A thread's own part of the invariant. */
  predicate ThreadInv(slots: seq<Slot>, t: Tid, me: Thread) {
    && -1 <= me.slotIndex < |slots| && me.id != 0
    && (me.slotIndex >= 0 ==> slots[me.slotIndex].owner == t && slots[me.slotIndex].threadId == me.id)
    && (me.pc.Scanning? ==> me.slotIndex == -1 && me.pc.i <= |slots| && Taken(slots, me.pc.i))
    && (me.pc.Storing? ==> me.slotIndex >= 0 && me.pc.field <= 2
                           && StoredUpTo(slots[me.slotIndex].beat, me.pc.f, me.pc.field))
    && (me.pc.Idle? && me.beat.Some? ==> me.slotIndex >= 0 && slots[me.slotIndex].beat == me.beat.value)
    && (me.beat.Some? ==> me.slotIndex >= 0)
  }

  /** The first `n` slots are taken. */
  predicate Taken(slots: seq<Slot>, n: nat) {
    n <= |slots| && forall i :: 0 <= i < n ==> slots[i].threadId != 0
  }

  /** Taken slots form a prefix of the array. */
  predicate Prefix(slots: seq<Slot>) {
    forall i, j :: 0 <= i < j < |slots| && slots[j].threadId != 0 ==> slots[i].threadId != 0
  }

  /** A taken slot is the slot of the thread that claimed it. */
  ghost predicate Owned(s: State) {
    forall i :: 0 <= i < |s.slots| && s.slots[i].threadId != 0 ==>
      s.slots[i].owner in s.threads && s.threads[s.slots[i].owner].slotIndex == i
  }

  ghost predicate Inv(s: State) {
    && |s.slots| == MAX_THREADS
    && Prefix(s.slots) && Owned(s)
    && forall t :: t in s.threads ==> ThreadInv(s.slots, t, s.threads[t])
  }

  lemma StepKeepsInv(s: State, t: Tid, a: Action)
    requires Inv(s) && Enabled(s, t, a)
    ensures Inv(Step(s, t, a))
  {
    assert ThreadInv(s.slots, t, s.threads[t]);
    match a
    case Update(_) =>
    case TryClaim => ClaimKeepsInv(s, t);
    case GiveUp =>
    case Store => StoreKeepsInv(s, t);
  }

  lemma ClaimKeepsInv(s: State, t: Tid)
    requires Inv(s) && Enabled(s, t, TryClaim)
    ensures Inv(Step(s, t, TryClaim))
  {
    assert ThreadInv(s.slots, t, s.threads[t]);
  }

  lemma StoreKeepsInv(s: State, t: Tid)
    requires Inv(s) && Enabled(s, t, Store)
    ensures Inv(Step(s, t, Store))
  {
    assert ThreadInv(s.slots, t, s.threads[t]);
  }

  lemma {:induction false} RunKeepsInv(s: State, run: seq<(Tid, Action)>)
    requires Inv(s) && CanRun(s, run)
    ensures Inv(Run(s, run))
    decreases |run|
  {
    if run != [] {
      StepKeepsInv(s, run[0].0, run[0].1);
      RunKeepsInv(Step(s, run[0].0, run[0].1), run[1..]);
    }
  }

  /** A taken slot carries its owner's id. */
  predicate CarryIds(s: State) {
    forall x :: x in s.slots && x.threadId != 0 ==> x.owner in s.threads && s.threads[x.owner].id == x.threadId
  }

  predicate OneSlotEach(slots: seq<Slot>) {
    forall i, j :: 0 <= i < j < |slots| && slots[i].threadId != 0 && slots[j].threadId != 0 ==>
      slots[i].owner != slots[j].owner
  }

  /** In every reachable state no slot belongs to two threads, every taken slot carries its owner's
      id, no thread owns two slots, and the taken slots are a prefix.  So two slots carry one id only
      where two threads have it. */
  lemma OwnershipIsExclusive(s: State, run: seq<(Tid, Action)>)
    requires Init(s) && CanRun(s, run)
    ensures var n := Run(s, run);
      && (forall t, u :: t in n.threads && u in n.threads && 0 <= n.threads[t].slotIndex == n.threads[u].slotIndex ==>
            t == u)
      && CarryIds(n) && OneSlotEach(n.slots) && Prefix(n.slots)
  {
    RunKeepsInv(s, run);
    var n := Run(s, run);
    forall t, u | t in n.threads && u in n.threads && 0 <= n.threads[t].slotIndex == n.threads[u].slotIndex
      ensures t == u
    {
      assert ThreadInv(n.slots, t, n.threads[t]) && ThreadInv(n.slots, u, n.threads[u]);
    }
    forall x | x in n.slots && x.threadId != 0 ensures x.owner in n.threads && n.threads[x.owner].id == x.threadId {
      assert ThreadInv(n.slots, x.owner, n.threads[x.owner]);
    }
  }

  /** A claim fails only when every slot is taken, by some other thread each. */
  lemma FailedClaimMeansFull(s: State, run: seq<(Tid, Action)>, t: Tid)
    requires Init(s) && CanRun(s, run) && Enabled(Run(s, run), t, GiveUp)
    ensures var n := Run(s, run);
      |n.slots| == 16
      && forall i :: 0 <= i < 16 ==> n.slots[i].threadId != 0 && n.slots[i].owner != t
  {
    RunKeepsInv(s, run);
    assert ThreadInv(Run(s, run).slots, t, Run(s, run).threads[t]);
  }

  /** Distinct owners of the first `n` slots. */
  lemma {:induction false} OwnersAreMany(s: State, n: nat)
    requires Inv(s) && n <= |s.slots| && Taken(s.slots, n)
    ensures |set i | 0 <= i < n :: s.slots[i].owner| == n
  {
    if n > 0 {
      OwnersAreMany(s, n - 1);
      var before := set i | 0 <= i < n - 1 :: s.slots[i].owner;
      assert (set i | 0 <= i < n :: s.slots[i].owner) == before + {s.slots[n - 1].owner};
      assert s.slots[n - 1].owner !in before;
    }
  }

  /** A thread that has no slot while all are taken is at least the seventeenth. */
  lemma FullMeansMany(s: State, t: Tid)
    requires Inv(s) && t in s.threads && Taken(s.slots, MAX_THREADS)
    requires forall i :: 0 <= i < MAX_THREADS ==> s.slots[i].owner != t
    ensures |s.threads| > MAX_THREADS
  {
    OwnersAreMany(s, MAX_THREADS);
    var owners := set i | 0 <= i < MAX_THREADS :: s.slots[i].owner;
    SubsetSize(owners, s.threads.Keys - {t});
    assert |s.threads.Keys - {t}| == |s.threads| - 1;
  }

  /** With at most sixteen threads no claim ever fails. */
  lemma SixteenThreadsAllGetSlots(s: State, run: seq<(Tid, Action)>, t: Tid)
    requires Init(s) && |s.threads| <= 16 && CanRun(s, run)
    ensures !Enabled(Run(s, run), t, GiveUp)
  {
    RunKeepsInv(s, run);
    SameThreads(s, run);
    if Enabled(Run(s, run), t, GiveUp) {
      FailedClaimMeansFull(s, run, t);
      FullMeansMany(Run(s, run), t);
    }
  }

  lemma {:induction false} SubsetSize<T>(a: set<T>, b: set<T>)
    requires a <= b
    ensures |a| <= |b|
    decreases |a|
  {
    if a != {} {
      var x :| x in a;
      SubsetSize(a - {x}, b - {x});
    }
  }

  lemma {:induction false} SameThreads(s: State, run: seq<(Tid, Action)>)
    requires CanRun(s, run)
    ensures Run(s, run).threads.Keys == s.threads.Keys
    decreases |run|
  {
    if run != [] {
      assert Step(s, run[0].0, run[0].1).threads.Keys == s.threads.Keys;
      SameThreads(Step(s, run[0].0, run[0].1), run[1..]);
    }
  }

  /** A slot, once taken, keeps its owner for the rest of the run. */
  lemma {:induction false} OwnerStays(s: State, run: seq<(Tid, Action)>, i: nat)
    requires Inv(s) && CanRun(s, run) && i < |s.slots| && s.slots[i].threadId != 0
    ensures |Run(s, run).slots| == |s.slots| && Run(s, run).slots[i].threadId == s.slots[i].threadId
    ensures Run(s, run).slots[i].owner == s.slots[i].owner
    decreases |run|
  {
    if run != [] {
      StepKeepsInv(s, run[0].0, run[0].1);
      OwnerStays(Step(s, run[0].0, run[0].1), run[1..], i);
    }
  }

  /** A thread at rest finds in its slot exactly the last heartbeat it stored: no other thread
      ever writes there. */
  lemma HeartbeatIsOwn(s: State, run: seq<(Tid, Action)>, t: Tid)
    requires Init(s) && CanRun(s, run)
    requires t in Run(s, run).threads && Run(s, run).threads[t].pc.Idle? && Run(s, run).threads[t].beat.Some?
    ensures var n := Run(s, run); var me := n.threads[t];
      0 <= me.slotIndex < |n.slots| && n.slots[me.slotIndex] == Slot(me.id, t, me.beat.value)
  {
    RunKeepsInv(s, run);
    assert ThreadInv(Run(s, run).slots, t, Run(s, run).threads[t]);
  }

  // ----- The bounded stack -----

  const MAX_DEPTH: nat := 128

  /** One thread's stack.  `ideal` is an unbounded stack that sees the same pushes and pops, and
      `peak` its greatest depth so far. */
  class ThreadStack {
    const frames: array<Frame>
    var depth: nat
    var overflow: nat
    var maxDepthSeen: nat
    ghost var ideal: seq<Frame>
    ghost var peak: nat

    ghost predicate Valid() reads this {
      frames.Length == MAX_DEPTH && depth <= maxDepthSeen <= MAX_DEPTH && overflow < TWO_32
    }

    /** The bounded stack is the unbounded one cut at 128 frames, the rest counted. */
    ghost predicate Refines() reads this, frames {
      && Valid() && |ideal| <= peak
      && depth == Min(|ideal|, MAX_DEPTH) && overflow == |ideal| - depth
      && maxDepthSeen == Min(peak, MAX_DEPTH)
      && frames[..depth] == ideal[..depth]
    }

    constructor ()
      ensures Refines() && ideal == [] && peak == 0 && fresh(frames)
    {
      frames := new Frame[MAX_DEPTH];
      depth, overflow, maxDepthSeen := 0, 0, 0;
      ideal, peak := [], 0;
    }

    /** Refinement survives every push but the one that wraps the 32-bit overflow count. */
    method Push(f: Frame)
      requires Valid()
      modifies this`depth, this`overflow, this`maxDepthSeen, this`ideal, this`peak, frames
      ensures Valid() && ideal == old(ideal) + [f]
      ensures peak == if |ideal| > old(peak) then |ideal| else old(peak)
      ensures old(Refines()) ==> (Refines() <==> |ideal| < 128 + 0x1_0000_0000)
    {
      ideal := ideal + [f];
      if |ideal| > peak { peak := |ideal|; }
      if depth < MAX_DEPTH {
        frames[depth] := f;
        depth := depth + 1;
        if depth > maxDepthSeen { maxDepthSeen := depth; }
        assert old(Refines()) ==> frames[..depth] == old(frames[..depth]) + [f];
      } else {
        overflow := (overflow + 1) % TWO_32;
      }
    }

    /** Popping an empty stack does nothing. */
    method Pop()
      requires Valid()
      modifies this`depth, this`overflow, this`ideal
      ensures Valid() && ideal == if old(ideal) == [] then [] else old(ideal)[..|old(ideal)| - 1]
      ensures old(Refines()) ==> Refines()
    {
      if ideal != [] { ideal := ideal[..|ideal| - 1]; }
      if overflow > 0 {
        overflow := overflow - 1;
      } else if depth > 0 {
        depth := depth - 1;
      }
    }
  }
}
