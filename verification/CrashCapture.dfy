/** The double-buffered snapshot worker of src/snapshot/SnapshotWorker.cpp and the crash handler
    of src/handler/SehHandler.cpp, as one machine of interleaved steps.

    Every shared access of a tick is a step of its own, so a handler activation may run between
    any two of them.  An activation is one call of `Handler`; nested calls on a thread that
    already runs one are further activations, so they need no special treatment. */
module CrashCapture {
  import opened Wrappers

  /** The content of a field; only whether two contents are equal matters. */
  type Value = int

  // The slow fields of a snapshot, in the order in which a tick copies them.
  const INVENTORY := 0
  const HARDWARE := 1
  const PLUGIN_META := 2
  const GPU := 3
  const WRAP_CHAINS := 4
  const MOD_DIFF := 5
  const ARCHIVE_CONFLICTS := 6
  const SETUP_INTEGRITY := 7
  const SLOW_FIELDS := 8

  /** `live` stands for everything a tick writes every time. */
  datatype Snapshot = Snapshot(live: Value, slow: seq<Value>)

  /** What the worker does next. */
  datatype WorkerPc =
    | Idle
    | Filling
    | Refreshing(next: nat)
    | Copying(field: nat)
    | Publishing
    | Flipping
    | Watching

  /** The globals of the worker; `published` is -1 for the null pointer. */
  datatype Worker = Worker(
    buffers: seq<Snapshot>,
    published: int,
    writeIndex: nat,
    cacheGen: nat,
    bufferGen: seq<nat>,
    caches: seq<Value>,
    memo: Memo,
    pc: WorkerPc)

  /** What the refresh functions go by: when each cache was last replaced (0 for never), what the
      tick has seen and what the last conflict and setup refreshes had seen, whether the mod diff is
      done, and whether the game root and the plugin directory are known. */
  datatype Memo = Memo(
    freshNs: seq<int>,
    lastIsEP1: bool,
    lastEvalIsEP1: bool,
    moduleCount: nat,
    setupModuleCount: nat,
    modDiffComputed: bool,
    hasGameRoot: bool,
    hasPluginDir: bool)

  /** What happens in one call of a refresh function, should its cache be stale: the new content
      cannot be made, because of an exception, or it is made.  The rest is about the inventory only:
      what happens in `ComputeModDiffOnce`, should it get that far. */
  datatype Refresh = Refresh(now: int, attempt: Attempt)

  datatype Attempt = Fails | Produces(value: Value, diff: DiffAttempt)

  /** No mods to compare; the path of the session file throws, outside that function's try block;
      an exception inside it, before or after the diff was stored; or the diff is stored and the
      session file written. */
  datatype DiffAttempt = NoMods | PathThrows | Caught(stored: Option<Value>) | Computes(diff: Value)

  const INVENTORY_REFRESH_NS: int := 5 * 60 * 1_000_000_000

  const REFRESHES := 5

  function RefreshedField(i: nat): nat
    requires i < REFRESHES
  {
    if i == 0 then INVENTORY
    else if i == 1 then PLUGIN_META
    else if i == 2 then WRAP_CHAINS
    else if i == 3 then ARCHIVE_CONFLICTS
    else SETUP_INTEGRITY
  }

  datatype WorkerLabel =
    | Begin
    | WriteLive(v: Value)
    | BeginRefresh(isEP1: bool, moduleCount: nat)
    | DoRefresh(r: Refresh)
    | CheckGeneration
    | CopyField
    | CommitGeneration
    | Publish
    | Flip
    | EndWatch
    | Throw(garbage: Value)  // an exception out of the tick; a field being assigned is left as garbage

  predicate Shape(w: Worker) {
    && |w.buffers| == 2 && |w.bufferGen| == 2 && |w.caches| == SLOW_FIELDS && w.writeIndex < 2
    && |w.buffers[0].slow| == SLOW_FIELDS && |w.buffers[1].slow| == SLOW_FIELDS
    && |w.memo.freshNs| == REFRESHES
  }

  function SetSlow(w: Worker, field: nat, v: Value): Worker
    requires Shape(w) && field < SLOW_FIELDS
  {
    var b := w.buffers[w.writeIndex];
    w.(buffers := w.buffers[w.writeIndex := b.(slow := b.slow[field := v])])
  }

  predicate Enabled(w: Worker, l: WorkerLabel) {
    match l
    case Begin => w.pc.Idle?
    case WriteLive(_) => w.pc.Filling?
    case BeginRefresh(_, _) => w.pc.Filling?
    case DoRefresh(_) => w.pc.Refreshing? && w.pc.next < REFRESHES
    case CheckGeneration => w.pc == Refreshing(REFRESHES)
    case CopyField => w.pc.Copying? && w.pc.field < SLOW_FIELDS
    case CommitGeneration => w.pc == Copying(SLOW_FIELDS)
    case Publish => w.pc.Publishing?
    case Flip => w.pc.Flipping?
    case EndWatch => w.pc.Watching?
    case Throw(_) => w.pc.Filling? || (w.pc.Copying? && w.pc.field < SLOW_FIELDS)
  }

  /** Whether a refresh function goes on to its try block. */
  predicate Stale(m: Memo, i: nat, now: int)
    requires |m.freshNs| == REFRESHES && i < REFRESHES
  {
    var expired := m.freshNs[i] == 0 || now - m.freshNs[i] >= INVENTORY_REFRESH_NS;
    if i < 3 then expired && m.hasGameRoot
    else if i == 3 then expired || m.lastIsEP1 != m.lastEvalIsEP1
    else expired || m.moduleCount != m.setupModuleCount
  }

  /** A refresh has replaced its cache. */
  function Stamped(m: Memo, i: nat, now: int): Memo
    requires |m.freshNs| == REFRESHES && i < REFRESHES
  {
    m.(freshNs := m.freshNs[i := now],
       lastEvalIsEP1 := if i == 3 then m.lastIsEP1 else m.lastEvalIsEP1,
       setupModuleCount := if i == 4 then m.moduleCount else m.setupModuleCount)
  }

  /** `ComputeModDiffOnce` gets past its early returns. */
  predicate DiffDue(m: Memo, d: DiffAttempt) { !m.modDiffComputed && !d.NoMods? && m.hasPluginDir }

  predicate DiffThrows(m: Memo, d: DiffAttempt) { DiffDue(m, d) && d.PathThrows? }

  /** The globals after `ComputeModDiffOnce`, whether or not it throws. */
  function DiffOnce(w: Worker, d: DiffAttempt): Worker
    requires Shape(w)
  {
    if !DiffDue(w.memo, d) then w
    else
      match d
      case Computes(v) => w.(caches := w.caches[MOD_DIFF := v], memo := w.memo.(modDiffComputed := true))
      case Caught(Some(v)) => w.(caches := w.caches[MOD_DIFF := v])
      case _ => w
  }

  /** The globals after the `i`-th refresh function. */
  function Refreshed(w: Worker, i: nat, r: Refresh): (w': Worker)
    requires Shape(w) && i < REFRESHES
    ensures Shape(w') && w' == w.(caches := w'.caches, cacheGen := w'.cacheGen, memo := w'.memo)
  {
    if !Stale(w.memo, i, r.now) || r.attempt.Fails? then w
    else
      var n := w.(caches := w.caches[RefreshedField(i) := r.attempt.value], memo := Stamped(w.memo, i, r.now));
      if i > 0 then n.(cacheGen := n.cacheGen + 1)
      else if DiffThrows(n.memo, r.attempt.diff) then n
      else DiffOnce(n, r.attempt.diff).(cacheGen := n.cacheGen + 1)
  }

  function WorkerStep(w: Worker, frozen: bool, l: WorkerLabel): Worker
    requires Shape(w) && Enabled(w, l)
  {
    match l
    case Begin => if frozen then w else w.(pc := Filling)
    case WriteLive(v) => w.(buffers := w.buffers[w.writeIndex := w.buffers[w.writeIndex].(live := v)])
    case BeginRefresh(isEP1, moduleCount) =>
      w.(memo := w.memo.(lastIsEP1 := isEP1, moduleCount := moduleCount), pc := Refreshing(0))
    case DoRefresh(r) => Refreshed(w, w.pc.next, r).(pc := Refreshing(w.pc.next + 1))
    case CheckGeneration => w.(pc := if w.bufferGen[w.writeIndex] != w.cacheGen then Copying(0) else Publishing)
    case CopyField => SetSlow(w, w.pc.field, w.caches[w.pc.field]).(pc := Copying(w.pc.field + 1))
    case CommitGeneration => w.(bufferGen := w.bufferGen[w.writeIndex := w.cacheGen], pc := Publishing)
    case Publish => w.(published := w.writeIndex, pc := Flipping)
    case Flip => w.(writeIndex := (w.writeIndex + 1) % 2, pc := Watching)
    case EndWatch => w.(pc := Idle)
    // What a throw while filling leaves in `lastIsEP1` is not shown: every tick sets it before a refresh reads it.
    case Throw(g) => (if w.pc.Copying? then SetSlow(w, w.pc.field, g) else w).(pc := Idle)
  }

  // ----- The whole machine -----

  /** Where a handler activation stands: about to compare-exchange `g_handlerInProgress`, past it
      but not yet frozen, writing its report, or returned. */
  datatype HandlerPc = AtCas | Won | Reporting | Returned

  datatype State = State(
    worker: Worker,
    frozen: bool,
    inProgress: int,
    handlers: map<nat, HandlerPc>)

  datatype Label =
    | Work(w: WorkerLabel)
    | Enter(a: nat)
    | Cas(a: nat)
    | Freeze(a: nat)
    | ReadCurrent(a: nat)
    | Release(a: nat)

  predicate CanStep(s: State, l: Label) {
    match l
    case Work(wl) => Shape(s.worker) && Enabled(s.worker, wl)
    case Enter(a) => a !in s.handlers
    case Cas(a) => a in s.handlers && s.handlers[a] == AtCas
    case Freeze(a) => a in s.handlers && s.handlers[a] == Won
    case ReadCurrent(a) => a in s.handlers && s.handlers[a] == Reporting
    case Release(a) => a in s.handlers && s.handlers[a] == Reporting
  }

  function Step(s: State, l: Label): State
    requires CanStep(s, l)
  {
    match l
    case Work(wl) => s.(worker := WorkerStep(s.worker, s.frozen, wl))
    case Enter(a) => s.(handlers := s.handlers[a := AtCas])
    case Cas(a) =>
      if s.inProgress == 0
      then s.(inProgress := 1, handlers := s.handlers[a := Won])
      else s.(handlers := s.handlers[a := Returned])
    case Freeze(a) => s.(frozen := true, handlers := s.handlers[a := Reporting])
    case ReadCurrent(a) => s
    case Release(a) => s.(inProgress := s.inProgress - 1, handlers := s.handlers[a := Returned])
  }

  predicate CanRun(s: State, ls: seq<Label>)
    decreases |ls|
  {
    ls == [] || (CanStep(s, ls[0]) && CanRun(Step(s, ls[0]), ls[1..]))
  }

  function Run(s: State, ls: seq<Label>): State
    requires CanRun(s, ls)
    decreases |ls|
  {
    if ls == [] then s else Run(Step(s, ls[0]), ls[1..])
  }

  /** Before the first tick: nothing published, both buffers of generation 0, caches of generation
      1 and of any content. */
  predicate Initial(s: State) {
    && Shape(s.worker) && s.worker.published == -1 && s.worker.writeIndex == 0
    && s.worker.cacheGen == 1 && s.worker.bufferGen == [0, 0] && s.worker.pc == Idle
    && s.worker.memo.freshNs == [0, 0, 0, 0, 0] && !s.worker.memo.modDiffComputed
    && !s.frozen && s.inProgress == 0 && s.handlers == map[]
  }

  // ----- Invariants -----

  predicate Inside(s: State, a: nat) {
    a in s.handlers && (s.handlers[a] == Won || s.handlers[a] == Reporting)
  }

  /** `g_handlerInProgress` is 1 exactly while one activation is past its compare-exchange and
      has not yet released. */
  ghost predicate HandlerInv(s: State) {
    && (s.inProgress == 0 || s.inProgress == 1)
    && (forall a :: Inside(s, a) ==> s.inProgress == 1)
    && (forall a, b :: Inside(s, a) && Inside(s, b) ==> a == b)
    && (s.inProgress == 1 ==> exists a :: Inside(s, a))
    && (forall a :: a in s.handlers && s.handlers[a] == Reporting ==> s.frozen)
  }

  /** A buffer of the current generation holds the caches, the inventory possibly excepted; while
      a buffer is being copied into, its generation is not the current one. */
  ghost predicate WorkerInv(w: Worker) {
    && Shape(w) && -1 <= w.published < 2
    && (w.pc.Flipping? <==> w.published == w.writeIndex)
    && (w.pc.Refreshing? ==> w.pc.next <= REFRESHES)
    && (forall b :: 0 <= b < 2 ==> w.bufferGen[b] <= w.cacheGen)
    && (forall b, k :: 0 <= b < 2 && 0 <= k < SLOW_FIELDS && k != INVENTORY && w.bufferGen[b] == w.cacheGen
          ==> w.buffers[b].slow[k] == w.caches[k])
    && (w.pc.Copying? ==>
      && w.pc.field <= SLOW_FIELDS && w.bufferGen[w.writeIndex] != w.cacheGen
      && forall k :: 0 <= k < w.pc.field ==> w.buffers[w.writeIndex].slow[k] == w.caches[k])
    && (w.pc.Publishing? ==> w.bufferGen[w.writeIndex] == w.cacheGen)
  }

  ghost predicate Inv(s: State) {
    WorkerInv(s.worker) && HandlerInv(s)
  }

  /** The inventory refresh replaces its cache and throws before the generation advances. */
  predicate Aborts(w: Worker, l: WorkerLabel)
    requires Shape(w)
  {
    && l.DoRefresh? && w.pc == Refreshing(0) && Stale(w.memo, 0, l.r.now)
    && l.r.attempt.Produces? && DiffThrows(w.memo, l.r.attempt.diff)
  }

  /** A refresh that is not aborted advances the generation or changes no cache. */
  lemma RefreshReplaces(w: Worker, i: nat, r: Refresh)
    requires Shape(w) && i < REFRESHES
    ensures var w' := Refreshed(w, i, r);
      if i == 0 && Stale(w.memo, 0, r.now) && r.attempt.Produces? && DiffThrows(w.memo, r.attempt.diff)
      then w'.cacheGen == w.cacheGen && w'.caches == w.caches[INVENTORY := r.attempt.value]
           && !w.memo.modDiffComputed && !w'.memo.modDiffComputed
      else w'.cacheGen == w.cacheGen + 1
           || (w'.cacheGen == w.cacheGen && w'.caches == w.caches && w'.memo.modDiffComputed == w.memo.modDiffComputed)
  {
  }

  lemma WorkerStepKeepsInv(w: Worker, frozen: bool, l: WorkerLabel)
    requires WorkerInv(w) && Enabled(w, l)
    ensures WorkerInv(WorkerStep(w, frozen, l))
  {
    var w' := WorkerStep(w, frozen, l);
    match l
    case DoRefresh(r) =>
      RefreshReplaces(w, w.pc.next, r);
      if w'.cacheGen > w.cacheGen {
        assert forall b :: 0 <= b < 2 ==> w'.bufferGen[b] < w'.cacheGen;
      }
    case CommitGeneration =>
    case _ =>
  }

  lemma HandlerStepKeepsInv(s: State, l: Label)
    requires HandlerInv(s) && CanStep(s, l)
    ensures HandlerInv(Step(s, l))
  {
    var s' := Step(s, l);
    match l
    case Work(_) =>
      assert forall a :: Inside(s', a) == Inside(s, a);
    case Enter(a) =>
      assert forall b :: Inside(s', b) == Inside(s, b);
    case Cas(a) =>
      assert forall b :: b != a ==> Inside(s', b) == Inside(s, b);
      assert Inside(s', a) == (s.inProgress == 0);
      assert !Inside(s, a);
    case Freeze(a) =>
      assert forall b :: Inside(s', b) == Inside(s, b);
    case ReadCurrent(_) =>
    case Release(a) =>
      assert Inside(s, a);
      assert forall b :: !Inside(s', b) by {
        forall b ensures !Inside(s', b) { assert Inside(s', b) ==> Inside(s, b); }
      }
  }

  lemma StepKeepsInv(s: State, l: Label)
    requires Inv(s) && CanStep(s, l)
    ensures Inv(Step(s, l))
  {
    HandlerStepKeepsInv(s, l);
    if l.Work? { WorkerStepKeepsInv(s.worker, s.frozen, l.w); }
  }

  lemma {:induction false} RunKeepsInv(s: State, ls: seq<Label>)
    requires Inv(s) && CanRun(s, ls)
    ensures Inv(Run(s, ls))
    decreases |ls|
  {
    if ls != [] {
      StepKeepsInv(s, ls[0]);
      RunKeepsInv(Step(s, ls[0]), ls[1..]);
    }
  }

  lemma InitialInv(s: State)
    requires Initial(s)
    ensures Inv(s)
  {
  }

  // ----- Mutual exclusion -----

  /** In every interleaving at most one activation is inside the report body, and it is there only
      with the worker frozen. */
  lemma OneReportAtATime(s: State, ls: seq<Label>, a: nat, b: nat)
    requires Initial(s) && CanRun(s, ls)
    requires Inside(Run(s, ls), a) && Inside(Run(s, ls), b)
    ensures a == b && Run(s, ls).inProgress == 1
    ensures Run(s, ls).handlers[a] == Reporting ==> Run(s, ls).frozen
  {
    InitialInv(s);
    RunKeepsInv(s, ls);
  }

  // ----- Stability of what a handler reads -----

  /** The buffer a label writes, or -1. */
  function WrittenBuffer(s: State, l: Label): int {
    if l.Work? && (l.w.WriteLive? || l.w.CopyField? || (l.w.Throw? && s.worker.pc.Copying?))
    then s.worker.writeIndex else -1
  }

  predicate Writing(pc: WorkerPc) {
    pc.Filling? || pc.Refreshing? || pc.Copying? || pc.Publishing?
  }

  /** The worker is frozen, and a tick still in flight is not about buffer `p`.  The flag is read
      only where a tick begins, so this is all that can be said of a tick already under way. */
  ghost predicate Untouchable(s: State, p: int) {
    Inv(s) && s.frozen && (Writing(s.worker.pc) ==> s.worker.writeIndex != p)
  }

  lemma UntouchableStep(s: State, l: Label, p: int)
    requires Untouchable(s, p) && CanStep(s, l) && 0 <= p < 2
    ensures Untouchable(Step(s, l), p)
    ensures WrittenBuffer(s, l) != p
    ensures Step(s, l).worker.buffers[p] == s.worker.buffers[p]
  {
    StepKeepsInv(s, l);
  }

  lemma {:induction false} UntouchableRun(s: State, ls: seq<Label>, p: int)
    requires Untouchable(s, p) && CanRun(s, ls) && 0 <= p < 2
    ensures Untouchable(Run(s, ls), p) && Run(s, ls).worker.buffers[p] == s.worker.buffers[p]
    decreases |ls|
  {
    if ls != [] {
      UntouchableStep(s, ls[0], p);
      UntouchableRun(Step(s, ls[0]), ls[1..], p);
    }
  }

  /** The main safety result.  Take any run to a moment where an activation is writing its report
      and reads the published pointer `p`, then any further run: the snapshot has not changed, and
      no step that can come next writes it. */
  lemma FrozenSnapshotIsStable(s: State, ls: seq<Label>, a: nat, more: seq<Label>, l: Label)
    requires Initial(s) && CanRun(s, ls) && CanStep(Run(s, ls), ReadCurrent(a))
    requires CanRun(Run(s, ls), more) && CanStep(Run(Run(s, ls), more), l)
    requires Run(s, ls).worker.published >= 0
    ensures var read := Run(s, ls);
      var p := read.worker.published;
      var later := Run(read, more);
      && p < 2 && Shape(read.worker) && Shape(later.worker)
      && later.worker.buffers[p] == read.worker.buffers[p]
      && WrittenBuffer(later, l) != p
      && Shape(Step(later, l).worker) && Step(later, l).worker.buffers[p] == read.worker.buffers[p]
  {
    InitialInv(s);
    RunKeepsInv(s, ls);
    var read := Run(s, ls);
    UntouchableRun(read, more, read.worker.published);
    UntouchableStep(Run(read, more), l, read.worker.published);
  }

  // ----- The generation counter -----

  /** A buffer of the current generation holds exactly the current caches. */
  ghost predicate Coherent(w: Worker)
    requires Shape(w)
  {
    forall b :: 0 <= b < 2 && w.bufferGen[b] == w.cacheGen ==> w.buffers[b].slow == w.caches
  }

  /** An aborted inventory refresh puts a different inventory beside a buffer of the current
      generation. */
  predicate Diverges(w: Worker, l: WorkerLabel)
    requires Shape(w)
  {
    && Aborts(w, l) && l.r.attempt.value != w.caches[INVENTORY]
    && (w.bufferGen[0] == w.cacheGen || w.bufferGen[1] == w.cacheGen)
  }

  /** Each step, an exception in the middle of the copy included, keeps the correspondence of
      generation and content, except exactly the aborted inventory refresh. */
  lemma CoherenceStep(w: Worker, frozen: bool, l: WorkerLabel)
    requires WorkerInv(w) && Enabled(w, l) && Coherent(w)
    ensures Coherent(WorkerStep(w, frozen, l)) <==> !Diverges(w, l)
  {
    WorkerStepKeepsInv(w, frozen, l);
    var w' := WorkerStep(w, frozen, l);
    if l.DoRefresh? {
      CoherentRefresh(w, l);
    } else if l.CommitGeneration? {
      assert w'.buffers[w.writeIndex].slow == w'.caches;
    }
  }

  lemma CoherentRefresh(w: Worker, l: WorkerLabel)
    requires WorkerInv(w) && Enabled(w, l) && Coherent(w) && l.DoRefresh?
    ensures Shape(WorkerStep(w, false, l)) && (Coherent(WorkerStep(w, false, l)) <==> !Diverges(w, l))
  {
    RefreshReplaces(w, w.pc.next, l.r);
    var w' := WorkerStep(w, false, l);
    if Diverges(w, l) {
      var b := if w.bufferGen[0] == w.cacheGen then 0 else 1;
      assert w'.bufferGen[b] == w'.cacheGen;
      assert w'.caches[INVENTORY] != w.caches[INVENTORY];
    } else if w'.cacheGen > w.cacheGen {
      assert forall b :: 0 <= b < 2 ==> w'.bufferGen[b] < w'.cacheGen;
    } else if w.bufferGen[0] == w.cacheGen || w.bufferGen[1] == w.cacheGen {
      assert w'.caches == w.caches;
    }
  }

  /** No step of the run diverges. */
  ghost predicate NeverDiverges(s: State, ls: seq<Label>)
    requires CanRun(s, ls)
    decreases |ls|
  {
    ls == [] || (!(ls[0].Work? && Diverges(s.worker, ls[0].w)) && NeverDiverges(Step(s, ls[0]), ls[1..]))
  }

  lemma {:induction false} CoherenceRun(s: State, ls: seq<Label>)
    requires Inv(s) && Coherent(s.worker) && CanRun(s, ls) && NeverDiverges(s, ls)
    ensures Inv(Run(s, ls)) && Coherent(Run(s, ls).worker)
    decreases |ls|
  {
    if ls != [] {
      StepKeepsInv(s, ls[0]);
      if ls[0].Work? { CoherenceStep(s.worker, s.frozen, ls[0].w); }
      CoherenceRun(Step(s, ls[0]), ls[1..]);
    }
  }

  /** In every run without a diverging step, however many ticks threw part-way, each published
      snapshot's slow fields are the caches at its publication. */
  lemma PublishedMatchesCaches(s: State, ls: seq<Label>)
    requires Initial(s) && CanRun(s, ls) && NeverDiverges(s, ls)
    requires CanStep(Run(s, ls), Work(Publish))
    ensures var at := Run(s, ls).worker;
      var published := Step(Run(s, ls), Work(Publish)).worker.published;
      0 <= published < 2 && at.buffers[published].slow == at.caches
  {
    InitialInv(s);
    CoherenceRun(s, ls);
  }

  /** Once the mod diff is computed, the correspondence holds. */
  ghost predicate Settled(w: Worker)
    requires Shape(w)
  {
    w.memo.modDiffComputed ==> Coherent(w)
  }

  /** A later abort is impossible, and the refresh that computes the diff undoes an earlier one. */
  lemma SettledStep(s: State, l: Label)
    requires Inv(s) && Settled(s.worker) && CanStep(s, l)
    ensures Inv(Step(s, l)) && Settled(Step(s, l).worker)
  {
    StepKeepsInv(s, l);
    if l.Work? {
      var w, w' := s.worker, Step(s, l).worker;
      if w.memo.modDiffComputed {
        CoherenceStep(w, s.frozen, l.w);
      } else if l.w.DoRefresh? {
        RefreshReplaces(w, w.pc.next, l.w.r);
        assert w'.cacheGen > w.cacheGen ==> forall b :: 0 <= b < 2 ==> w'.bufferGen[b] < w'.cacheGen;
      }
    }
  }

  lemma {:induction false} SettledRun(s: State, ls: seq<Label>)
    requires Inv(s) && Settled(s.worker) && CanRun(s, ls)
    ensures Inv(Run(s, ls)) && Settled(Run(s, ls).worker)
    decreases |ls|
  {
    if ls != [] {
      SettledStep(s, ls[0]);
      SettledRun(Step(s, ls[0]), ls[1..]);
    }
  }

  /** In every run at all, a buffer of the current generation holds the current caches once the
      first mod diff has been computed, so whatever is published from then on matches them. */
  lemma CoherentOnceDiffComputed(s: State, ls: seq<Label>)
    requires Initial(s) && CanRun(s, ls) && Run(s, ls).worker.memo.modDiffComputed
    ensures var at := Run(s, ls).worker;
      && Shape(at) && Coherent(at)
      && (CanStep(Run(s, ls), Work(Publish)) ==> at.buffers[at.writeIndex].slow == at.caches)
  {
    InitialInv(s);
    SettledRun(s, ls);
  }

  /** Even after an aborted refresh only the inventory can lag behind at a publication. */
  lemma OnlyInventoryCanLag(s: State, ls: seq<Label>)
    requires Initial(s) && CanRun(s, ls) && CanStep(Run(s, ls), Work(Publish))
    ensures var at := Run(s, ls).worker;
      var slow := at.buffers[at.writeIndex].slow;
      |slow| == SLOW_FIELDS == |at.caches| && slow == at.caches[INVENTORY := slow[INVENTORY]]
  {
    InitialInv(s);
    RunKeepsInv(s, ls);
  }

  // ----- What a refresh does, in plain terms -----

  /** The cache of refresh `i` is out of date: never filled, five minutes old, or filled for another
      game state. */
  predicate OutOfDate(m: Memo, i: nat, now: int)
    requires |m.freshNs| == 5 && i < 5
  {
    || m.freshNs[i] == 0 || now >= m.freshNs[i] + 300_000_000_000
    || (i == 3 && m.lastIsEP1 != m.lastEvalIsEP1) || (i == 4 && m.moduleCount != m.setupModuleCount)
  }

  /** An up-to-date cache, an unknown game root (for inventory, plugins and wrap chains) or an exception
      leave everything as it is. */
  lemma RefreshLeaves(w: Worker, frozen: bool, r: Refresh)
    requires Shape(w) && Enabled(w, DoRefresh(r))
    requires !OutOfDate(w.memo, w.pc.next, r.now) || (w.pc.next <= 2 && !w.memo.hasGameRoot) || r.attempt.Fails?
    ensures WorkerStep(w, frozen, DoRefresh(r)) == w.(pc := Refreshing(w.pc.next + 1))
  {
  }

  /** Otherwise the cache of this refresh holds the new content and is up to date, and every other cache
      but the mod diff stays. */
  lemma RefreshFills(w: Worker, frozen: bool, r: Refresh)
    requires Shape(w) && Enabled(w, DoRefresh(r))
    requires OutOfDate(w.memo, w.pc.next, r.now) && (w.pc.next <= 2 ==> w.memo.hasGameRoot) && r.attempt.Produces?
    ensures var i, w' := w.pc.next, WorkerStep(w, frozen, DoRefresh(r));
      var field := [0, 2, 4, 6, 7][i];
      && w'.caches[field] == r.attempt.value && w'.memo.freshNs == w.memo.freshNs[i := r.now]
      && (i == 3 ==> w'.memo.lastEvalIsEP1 == w.memo.lastIsEP1)
      && (i == 4 ==> w'.memo.setupModuleCount == w.memo.moduleCount)
      && |w'.caches| == 8 && (forall k :: 0 <= k < 8 && k != field && k != 5 ==> w'.caches[k] == w.caches[k])
      && (i > 0 ==> w'.caches[5] == w.caches[5] && w'.cacheGen == w.cacheGen + 1)
  {
  }

  /** The first inventory refresh that gets to comparing the mods stores the diff. */
  lemma DiffIsStored(s: State, ls: seq<Label>, r: Refresh)
    requires Initial(s) && CanRun(s, ls) && CanStep(Run(s, ls), Work(DoRefresh(r)))
    requires var w := Run(s, ls).worker;
      && w.pc.next == 0 && |w.memo.freshNs| == 5 && OutOfDate(w.memo, 0, r.now)
      && w.memo.hasGameRoot && w.memo.hasPluginDir && !w.memo.modDiffComputed
    requires r.attempt.Produces? && r.attempt.diff.Computes?
    ensures var w' := Step(Run(s, ls), Work(DoRefresh(r))).worker;
      && w'.memo.modDiffComputed && |w'.caches| == 8 && w'.caches[MOD_DIFF] == r.attempt.diff.diff
      && w'.caches[INVENTORY] == r.attempt.value && w'.cacheGen == Run(s, ls).worker.cacheGen + 1
  {
  }

  /** In every other case it is not done, so a later refresh tries again; an exception after it was stored
      leaves it stored. */
  lemma DiffIsNotDone(w: Worker, frozen: bool, r: Refresh)
    requires Shape(w) && Enabled(w, DoRefresh(r)) && w.pc.next == 0 && OutOfDate(w.memo, 0, r.now)
    requires w.memo.hasGameRoot && r.attempt.Produces? && !w.memo.modDiffComputed
    requires !r.attempt.diff.Computes? || !w.memo.hasPluginDir
    ensures var w', d := WorkerStep(w, frozen, DoRefresh(r)), r.attempt.diff;
      && !w'.memo.modDiffComputed && |w'.caches| == 8
      && w'.caches[5] == (if d.Caught? && d.stored.Some? && w.memo.hasPluginDir then d.stored.value else w.caches[5])
      && w'.cacheGen == w.cacheGen + if d.PathThrows? && w.memo.hasPluginDir then 0 else 1
  {
  }

  lemma RefreshKeepsDiff(w: Worker, i: nat, r: Refresh)
    requires Shape(w) && i < REFRESHES && w.memo.modDiffComputed
    ensures var w' := Refreshed(w, i, r); w'.memo.modDiffComputed && w'.caches[MOD_DIFF] == w.caches[MOD_DIFF]
  {
  }

  lemma WorkerKeepsDiff(w: Worker, frozen: bool, l: WorkerLabel)
    requires Shape(w) && Enabled(w, l) && w.memo.modDiffComputed
    ensures var w' := WorkerStep(w, frozen, l);
      Shape(w') && w'.memo.modDiffComputed && w'.caches[MOD_DIFF] == w.caches[MOD_DIFF]
  {
    if l.DoRefresh? { RefreshKeepsDiff(w, w.pc.next, l.r); }
  }

  lemma DiffKept(s: State, l: Label)
    requires CanStep(s, l) && Shape(s.worker) && s.worker.memo.modDiffComputed
    ensures var w' := Step(s, l).worker;
      Shape(w') && w'.memo.modDiffComputed && w'.caches[MOD_DIFF] == s.worker.caches[MOD_DIFF]
  {
    if l.Work? { WorkerKeepsDiff(s.worker, s.frozen, l.w); }
  }

  lemma {:induction false} DiffKeptInRun(s: State, ls: seq<Label>)
    requires CanRun(s, ls) && Shape(s.worker) && s.worker.memo.modDiffComputed
    ensures var w' := Run(s, ls).worker;
      Shape(w') && w'.memo.modDiffComputed && w'.caches[MOD_DIFF] == s.worker.caches[MOD_DIFF]
    decreases |ls|
  {
    if ls != [] {
      DiffKept(s, ls[0]);
      DiffKeptInRun(Step(s, ls[0]), ls[1..]);
    }
  }

  /** From then on no run changes it: the diff of a session is against the file that the last session
      left, not against the one this session has written. */
  lemma DiffIsComputedOnce(s: State, ls: seq<Label>, more: seq<Label>)
    requires Initial(s) && CanRun(s, ls) && Run(s, ls).worker.memo.modDiffComputed && CanRun(Run(s, ls), more)
    ensures var w, later := Run(s, ls).worker, Run(Run(s, ls), more).worker;
      && |w.caches| == |later.caches| == 8
      && later.memo.modDiffComputed && later.caches[MOD_DIFF] == w.caches[MOD_DIFF]
  {
    InitialInv(s);
    RunKeepsInv(s, ls);
    DiffKeptInRun(Run(s, ls), more);
  }

  // ----- A whole tick -----

  /** Where a tick throws, if the code there is reached. */
  datatype ThrowAt = Nowhere | WhileFilling | WhileCopying(field: nat, garbage: Value)

  predicate TickInput(refreshes: seq<Refresh>, throwAt: ThrowAt) {
    && |refreshes| == REFRESHES
    && (throwAt.WhileCopying? ==> throwAt.field < SLOW_FIELDS)
  }

  function WithLive(w: Worker, live: Value): Worker
    requires Shape(w)
  {
    w.(buffers := w.buffers[w.writeIndex := w.buffers[w.writeIndex].(live := live)])
  }

  function WithSlow(w: Worker, slow: seq<Value>): Worker
    requires Shape(w)
  {
    w.(buffers := w.buffers[w.writeIndex := w.buffers[w.writeIndex].(slow := slow)])
  }

  /** What a tick has seen of the game when its refreshes begin. */
  datatype Seen = Seen(isEP1: bool, moduleCount: nat)

  function WithSeen(w: Worker, seen: Seen): Worker {
    w.(memo := w.memo.(lastIsEP1 := seen.isEP1, moduleCount := seen.moduleCount))
  }

  /** The globals after the first `n` refresh functions. */
  function AfterRefreshes(w: Worker, refreshes: seq<Refresh>, n: nat): (r: Worker)
    requires Shape(w) && n <= |refreshes| == REFRESHES
    ensures Shape(r) && r == w.(caches := r.caches, cacheGen := r.cacheGen, memo := r.memo)
  {
    if n == 0 then w else Refreshed(AfterRefreshes(w, refreshes, n - 1), n - 1, refreshes[n - 1])
  }

  function Published(w: Worker): Worker {
    w.(published := w.writeIndex, writeIndex := (w.writeIndex + 1) % 2)
  }

  function Refilled(r: Worker): Worker
    requires Shape(r)
  {
    WithSlow(r, r.caches).(bufferGen := r.bufferGen[r.writeIndex := r.cacheGen])
  }

  /** The slow fields when the assignment of field `k` threw. */
  function Torn(r: Worker, k: nat, garbage: Value): seq<Value>
    requires Shape(r) && k < SLOW_FIELDS
  {
    r.caches[..k] + [garbage] + r.buffers[r.writeIndex].slow[k + 1..]
  }

  /** From the generation test on. */
  function AfterRefill(r: Worker, throwAt: ThrowAt): Worker
    requires Shape(r) && (throwAt.WhileCopying? ==> throwAt.field < SLOW_FIELDS)
  {
    if r.bufferGen[r.writeIndex] == r.cacheGen then Published(r)
    else if throwAt.WhileCopying? then WithSlow(r, Torn(r, throwAt.field, throwAt.garbage))
    else Published(Refilled(r))
  }

  /** What a whole tick amounts to when nothing runs in between. */
  function AfterTick(w: Worker, frozen: bool, live: Value, seen: Seen, refreshes: seq<Refresh>, throwAt: ThrowAt)
    : Worker
    requires Shape(w) && TickInput(refreshes, throwAt)
  {
    if frozen then w
    else if throwAt.WhileFilling? then WithLive(w, live)
    else AfterRefill(AfterRefreshes(WithSeen(WithLive(w, live), seen), refreshes, REFRESHES), throwAt)
  }

  /** A tick that nothing interrupts publishes the buffer it wrote, with what it captured, and leaves the
      other one alone; the slow fields are the caches unless their generation was current already. */
  lemma TickPublishes(w: Worker, live: Value, seen: Seen, refreshes: seq<Refresh>)
    requires Shape(w) && TickInput(refreshes, Nowhere)
    ensures var i, w' := w.writeIndex, AfterTick(w, false, live, seen, refreshes, Nowhere);
      && Shape(w') && w'.published == i && w'.writeIndex == 1 - i
      && w'.buffers[i].live == live && w'.buffers[1 - i] == w.buffers[1 - i]
      && (w.bufferGen[i] == w'.cacheGen ==> w'.buffers[i].slow == w.buffers[i].slow)
      && (w.bufferGen[i] != w'.cacheGen ==> w'.buffers[i].slow == w'.caches && w'.bufferGen[i] == w'.cacheGen)
  {
  }

  /** One that throws, or finds the worker frozen, publishes nothing. */
  lemma TickKeepsPublished(w: Worker, frozen: bool, live: Value, seen: Seen, refreshes: seq<Refresh>, throwAt: ThrowAt)
    requires Shape(w) && TickInput(refreshes, throwAt)
    requires frozen || throwAt.WhileFilling?
    ensures var i, w' := w.writeIndex, AfterTick(w, frozen, live, seen, refreshes, throwAt);
      && Shape(w') && w'.published == w.published && w'.writeIndex == i && w'.caches == w.caches
      && w'.buffers[1 - i] == w.buffers[1 - i] && w'.buffers[i].slow == w.buffers[i].slow
      && w'.buffers[i].live == if frozen then w.buffers[i].live else live
  {
  }

  lemma {:induction false} RunAppend(s: State, a: seq<Label>, b: seq<Label>)
    requires CanRun(s, a) && CanRun(Run(s, a), b)
    ensures CanRun(s, a + b) && Run(s, a + b) == Run(Run(s, a), b)
    decreases |a|
  {
    if a == [] {
      assert a + b == b;
    } else {
      RunAppend(Step(s, a[0]), a[1..], b);
      assert (a + b)[1..] == a[1..] + b;
    }
  }

  lemma RunOne(s: State, l: Label)
    requires CanStep(s, l)
    ensures CanRun(s, [l]) && Run(s, [l]) == Step(s, l)
  {
    assert [l][1..] == [];
    assert CanRun(Step(s, l), []);
  }

  /** Extends a run by one worker step. */
  lemma Then(s: State, ls: seq<Label>, l: WorkerLabel) returns (more: seq<Label>)
    requires CanRun(s, ls) && CanStep(Run(s, ls), Work(l))
    ensures CanRun(s, more) && Run(s, more) == Step(Run(s, ls), Work(l))
  {
    RunOne(Run(s, ls), Work(l));
    RunAppend(s, ls, [Work(l)]);
    more := ls + [Work(l)];
  }

  lemma {:induction false} RefreshRun(s: State, ls: seq<Label>, w: Worker, refreshes: seq<Refresh>, n: nat)
    returns (more: seq<Label>)
    requires CanRun(s, ls) && Shape(w) && Run(s, ls).worker == w.(pc := Refreshing(0))
    requires TickInput(refreshes, Nowhere) && n <= REFRESHES
    ensures CanRun(s, more)
    ensures Run(s, more) == Run(s, ls).(worker := AfterRefreshes(w, refreshes, n).(pc := Refreshing(n)))
  {
    if n == 0 {
      more := ls;
    } else {
      more := RefreshRun(s, ls, w, refreshes, n - 1);
      more := RefreshOne(s, more, AfterRefreshes(w, refreshes, n - 1), n - 1, refreshes[n - 1]);
      assert Run(s, ls).(worker := AfterRefreshes(w, refreshes, n - 1)).(worker := AfterRefreshes(w, refreshes, n))
          == Run(s, ls).(worker := AfterRefreshes(w, refreshes, n));
    }
  }

  /** One refresh function as a step. */
  lemma RefreshOne(s: State, ls: seq<Label>, w: Worker, i: nat, r: Refresh) returns (more: seq<Label>)
    requires CanRun(s, ls) && Shape(w) && i < REFRESHES && Run(s, ls).worker == w.(pc := Refreshing(i))
    ensures CanRun(s, more) && Run(s, more) == Run(s, ls).(worker := Refreshed(w, i, r).(pc := Refreshing(i + 1)))
  {
    RefreshedAt(w, i, r);
    more := Then(s, ls, DoRefresh(r));
  }

  /** Where the worker stands does not matter to a refresh. */
  lemma RefreshedAt(w: Worker, i: nat, r: Refresh)
    requires Shape(w) && i < REFRESHES
    ensures Refreshed(w.(pc := Refreshing(i)), i, r).(pc := Refreshing(i + 1)) == Refreshed(w, i, r).(pc := Refreshing(i + 1))
  {
  }

  /** The slow fields of the target after the first `k` copies. */
  function Copied(w: Worker, k: nat): seq<Value>
    requires Shape(w) && k <= SLOW_FIELDS
  {
    w.caches[..k] + w.buffers[w.writeIndex].slow[k..]
  }

  lemma TornAt(w: Worker, k: nat, garbage: Value)
    requires Shape(w) && k < SLOW_FIELDS
    ensures Copied(w, k)[k := garbage] == Torn(w, k, garbage)
  {
  }

  lemma SlowTwice(w: Worker, slow: seq<Value>)
    requires Shape(w) && |slow| == SLOW_FIELDS
    ensures Shape(WithSlow(w, slow)) && WithSlow(w, slow).buffers[w.writeIndex].slow == slow
    ensures forall other :: |other| == SLOW_FIELDS ==> WithSlow(WithSlow(w, slow), other) == WithSlow(w, other)
  {
  }

  lemma CopyOne(w: Worker, frozen: bool, k: nat)
    requires Shape(w) && k < SLOW_FIELDS
    ensures Copied(w, k)[k := w.caches[k]] == Copied(w, k + 1)
    ensures WorkerStep(WithSlow(w, Copied(w, k)).(pc := Copying(k)), frozen, CopyField)
         == WithSlow(w, Copied(w, k + 1)).(pc := Copying(k + 1))
  {
    assert Copied(w, k)[k := w.caches[k]] == Copied(w, k + 1);
  }

  lemma {:induction false} CopyRun(s: State, ls: seq<Label>, w: Worker, k: nat) returns (more: seq<Label>)
    requires CanRun(s, ls) && Shape(w) && Run(s, ls).worker == w.(pc := Copying(0)) && k <= SLOW_FIELDS
    ensures CanRun(s, more)
    ensures Run(s, more) == Run(s, ls).(worker := WithSlow(w, Copied(w, k)).(pc := Copying(k)))
  {
    if k == 0 {
      assert Copied(w, 0) == w.buffers[w.writeIndex].slow;
      assert WithSlow(w, Copied(w, 0)) == w;
      more := ls;
    } else {
      more := CopyRun(s, ls, w, k - 1);
      CopyOne(w, s.frozen, k - 1);
      CopyOne(w, Run(s, more).frozen, k - 1);
      more := Then(s, more, CopyField);
    }
  }

  lemma PublishRun(s: State, ls: seq<Label>, w: Worker) returns (more: seq<Label>)
    requires CanRun(s, ls) && Shape(w) && Run(s, ls).worker == w.(pc := Publishing)
    ensures CanRun(s, more) && Run(s, more) == Run(s, ls).(worker := Published(w).(pc := Idle))
  {
    more := Then(s, ls, Publish);
    more := Then(s, more, Flip);
    more := Then(s, more, EndWatch);
  }

  lemma ThrownRun(s: State, ls: seq<Label>, r: Worker, field: nat, garbage: Value) returns (more: seq<Label>)
    requires CanRun(s, ls) && Shape(r) && field < SLOW_FIELDS
    requires Run(s, ls).worker == r.(pc := Copying(0))
    ensures CanRun(s, more)
    ensures Run(s, more) == Run(s, ls).(worker := WithSlow(r, Torn(r, field, garbage)).(pc := Idle))
  {
    more := CopyRun(s, ls, r, field);
    more := Then(s, more, Throw(garbage));
    TornAt(r, field, garbage);
  }

  lemma CopiedRun(s: State, ls: seq<Label>, r: Worker) returns (more: seq<Label>)
    requires CanRun(s, ls) && Shape(r) && Run(s, ls).worker == r.(pc := Copying(0))
    ensures CanRun(s, more) && Run(s, more) == Run(s, ls).(worker := Refilled(r).(pc := Publishing))
  {
    more := CopyRun(s, ls, r, SLOW_FIELDS);
    assert Copied(r, SLOW_FIELDS) == r.caches;
    more := Then(s, more, CommitGeneration);
  }

  /** From the generation test on. */
  lemma RefillRun(s: State, ls: seq<Label>, r: Worker, throwAt: ThrowAt) returns (more: seq<Label>)
    requires CanRun(s, ls) && Shape(r) && r.pc == Idle
    requires Run(s, ls).worker == r.(pc := Refreshing(REFRESHES))
    requires throwAt.WhileCopying? ==> throwAt.field < SLOW_FIELDS
    ensures CanRun(s, more) && Run(s, more) == Run(s, ls).(worker := AfterRefill(r, throwAt))
  {
    more := Then(s, ls, CheckGeneration);
    if r.bufferGen[r.writeIndex] == r.cacheGen {
      more := PublishRun(s, more, r);
    } else if throwAt.WhileCopying? {
      more := ThrownRun(s, more, r, throwAt.field, throwAt.garbage);
    } else {
      more := CopiedRun(s, more, r);
      more := PublishRun(s, more, Refilled(r));
    }
  }

  /** A whole tick is a run of the machine. */
  lemma TickIsRun(s: State, live: Value, seen: Seen, refreshes: seq<Refresh>, throwAt: ThrowAt) returns (ls: seq<Label>)
    requires Shape(s.worker) && s.worker.pc == Idle && TickInput(refreshes, throwAt)
    ensures CanRun(s, ls)
    ensures Run(s, ls) == s.(worker := AfterTick(s.worker, s.frozen, live, seen, refreshes, throwAt))
  {
    ls := Then(s, [], Begin);
    if !s.frozen {
      ls := Then(s, ls, WriteLive(live));
      var f := WithLive(s.worker, live);
      if throwAt.WhileFilling? {
        ls := Then(s, ls, Throw(0));
      } else {
        f := WithSeen(f, seen);
        ls := Then(s, ls, BeginRefresh(seen.isEP1, seen.moduleCount));
        ls := RefreshRun(s, ls, f, refreshes, REFRESHES);
        ls := RefillRun(s, ls, AfterRefreshes(f, refreshes, REFRESHES), throwAt);
      }
    }
  }

  // ----- A run that publishes an old inventory -----

  const ZEROS: seq<Value> := [0, 0, 0, 0, 0, 0, 0, 0]

  const MODEST := Seen(false, 0)

  function MemoAt(freshNs: seq<int>): Memo { Memo(freshNs, false, false, 0, 0, false, true, true) }

  /** The first tick fills every cache; there are no mods yet. */
  const FIRST: seq<Refresh> := [
    Refresh(1, Produces(0, NoMods)), Refresh(2, Produces(0, NoMods)), Refresh(3, Produces(0, NoMods)),
    Refresh(4, Produces(0, NoMods)), Refresh(5, Produces(0, NoMods))]

  function Filled(w: Worker, freshNs: seq<int>, n: nat): Worker {
    w.(cacheGen := w.cacheGen + n, memo := MemoAt(freshNs))
  }

  /** The stamps after the first `n` refreshes of the first tick. */
  function Stamps(n: nat): (r: seq<int>)
    ensures |r| == REFRESHES
  {
    seq(REFRESHES, k => if k < n then k + 1 else 0)
  }

  lemma StampNext(n: nat)
    requires n < REFRESHES
    ensures Stamps(n)[n := n + 1] == Stamps(n + 1) && Stamps(n)[n] == 0
  {
  }

  lemma FillOne(w: Worker, i: nat)
    requires Shape(w) && i < REFRESHES && w.caches == ZEROS
    requires w.memo == MemoAt(w.memo.freshNs) && w.memo.freshNs[i] == 0
    ensures Refreshed(w, i, FIRST[i]) == Filled(w, w.memo.freshNs[i := i + 1], 1)
  {
    assert ZEROS[RefreshedField(i) := 0] == ZEROS;
  }

  lemma {:induction false} FillFirst(w: Worker, n: nat)
    requires Shape(w) && w.caches == ZEROS && w.memo == MemoAt(Stamps(0)) && n <= REFRESHES
    ensures AfterRefreshes(w, FIRST, n) == Filled(w, Stamps(n), n)
  {
    if n > 0 {
      FillFirst(w, n - 1);
      StampNext(n - 1);
      FillOne(AfterRefreshes(w, FIRST, n - 1), n - 1);
    }
  }

  /** Five minutes later the inventory is the first to be stale. */
  const LATER: int := 1 + INVENTORY_REFRESH_NS

  function AtLater(attempt: Attempt): seq<Refresh> {
    var none := Refresh(LATER, Fails);
    [Refresh(LATER, attempt), none, none, none, none]
  }

  lemma OthersFresh(w: Worker, first: int, attempt: Attempt)
    requires Shape(w) && w.memo == MemoAt([first, 2, 3, 4, 5])
    ensures AfterRefreshes(w, AtLater(attempt), REFRESHES) == Refreshed(w, 0, Refresh(LATER, attempt))
  {
    var rs := AtLater(attempt);
    assert AfterRefreshes(w, rs, 0) == w;
    assert AfterRefreshes(w, rs, 1) == Refreshed(w, 0, Refresh(LATER, attempt));
    assert AfterRefreshes(w, rs, 2) == AfterRefreshes(w, rs, 1);
    assert AfterRefreshes(w, rs, 3) == AfterRefreshes(w, rs, 1);
    assert AfterRefreshes(w, rs, 4) == AfterRefreshes(w, rs, 1);
  }

  lemma TickOf(w: Worker, refreshes: seq<Refresh>, r: Worker)
    requires Shape(w) && Shape(r) && TickInput(refreshes, Nowhere) && w.buffers[w.writeIndex].live == 0
    requires w.memo == MemoAt(w.memo.freshNs) && AfterRefreshes(w, refreshes, REFRESHES) == r
    ensures AfterTick(w, false, 0, MODEST, refreshes, Nowhere)
         == if r.bufferGen[r.writeIndex] == r.cacheGen then Published(r) else Published(Refilled(r))
  {
    var b := w.buffers[w.writeIndex];
    assert w.buffers[w.writeIndex := b] == w.buffers;
    assert WithSeen(WithLive(w, 0), MODEST) == w;
  }

  const EMPTY := Snapshot(0, ZEROS)

  const AT_START := Worker([EMPTY, EMPTY], -1, 0, 1, [0, 0], ZEROS, MemoAt([0, 0, 0, 0, 0]), Idle)

  const AFTER_FIRST := Worker([EMPTY, EMPTY], 0, 1, 6, [6, 0], ZEROS, MemoAt([1, 2, 3, 4, 5]), Idle)

  const NEW_CACHES: seq<Value> := [7, 0, 0, 0, 0, 0, 0, 0]

  const AFTER_ABORT :=
    Worker([EMPTY, Snapshot(0, NEW_CACHES)], 1, 0, 6, [6, 6], NEW_CACHES, MemoAt([LATER, 2, 3, 4, 5]), Idle)

  lemma TickFills()
    ensures AfterTick(AT_START, false, 0, MODEST, FIRST, Nowhere) == AFTER_FIRST
  {
    assert Stamps(0) == [0, 0, 0, 0, 0] && Stamps(REFRESHES) == [1, 2, 3, 4, 5];
    FillFirst(AT_START, REFRESHES);
    var r := Filled(AT_START, [1, 2, 3, 4, 5], 5);
    TickOf(AT_START, FIRST, r);
    assert Published(Refilled(r)) == AFTER_FIRST;
  }

  lemma TickAborts()
    ensures AfterTick(AFTER_FIRST, false, 0, MODEST, AtLater(Produces(7, PathThrows)), Nowhere) == AFTER_ABORT
  {
    OthersFresh(AFTER_FIRST, 1, Produces(7, PathThrows));
    var r := AFTER_FIRST.(caches := NEW_CACHES, memo := MemoAt([LATER, 2, 3, 4, 5]));
    assert [1, 2, 3, 4, 5][0 := LATER] == [LATER, 2, 3, 4, 5] && ZEROS[INVENTORY := 7] == NEW_CACHES;
    TickOf(AFTER_FIRST, AtLater(Produces(7, PathThrows)), r);
    assert Published(Refilled(r)) == AFTER_ABORT;
  }

  lemma TickFindsGenerationCurrent()
    ensures AfterTick(AFTER_ABORT, false, 0, MODEST, AtLater(Fails), Nowhere) == Published(AFTER_ABORT)
  {
    OthersFresh(AFTER_ABORT, LATER, Fails);
    TickOf(AFTER_ABORT, AtLater(Fails), AFTER_ABORT);
  }

  /** The run that breaks the correspondence: a first tick in which every refresh succeeds, five
      minutes later a tick in which building the path throws, all other caches being fresh, and a
      third tick that finds its buffer's generation current and publishes the old inventory. */
  lemma AbortedRefreshPublishesStaleInventory() returns (s: State, ls: seq<Label>)
    ensures Initial(s) && CanRun(s, ls) && Shape(Run(s, ls).worker)
    ensures var w := Run(s, ls).worker;
      0 <= w.published < 2 && w.buffers[w.published].slow[INVENTORY] != w.caches[INVENTORY]
  {
    s := State(AT_START, false, 0, map[]);
    TickFills();
    var ls1 := TickIsRun(s, 0, MODEST, FIRST, Nowhere);
    TickAborts();
    var ls2 := TickIsRun(s.(worker := AFTER_FIRST), 0, MODEST, AtLater(Produces(7, PathThrows)), Nowhere);
    TickFindsGenerationCurrent();
    var ls3 := TickIsRun(s.(worker := AFTER_ABORT), 0, MODEST, AtLater(Fails), Nowhere);
    RunAppend(s, ls1, ls2);
    RunAppend(s, ls1 + ls2, ls3);
    ls := ls1 + ls2 + ls3;
  }

  // ----- The code itself -----

  /** The worker's globals and its tick. */
  class SnapshotWorker {
    var g_buffers: array<Snapshot>
    var g_published: int
    var g_writeIndex: nat
    var g_cacheGen: nat
    var g_bufferCacheGen: array<nat>
    var g_caches: array<Value>
    var g_freshNs: seq<int>
    var g_lastIsEP1: bool
    var g_lastEvalIsEP1: bool
    var g_lastModuleRawCount: nat
    var g_lastSetupModuleRawCount: nat
    var g_modDiffComputed: bool
    var g_crashInProgress: bool
    const hasGameRoot: bool
    const hasPluginDir: bool

    ghost predicate Valid()
      reads this, g_buffers, g_bufferCacheGen, g_caches
    {
      && g_buffers.Length == 2 && g_bufferCacheGen.Length == 2 && g_caches.Length == SLOW_FIELDS
      && g_buffers as object != g_caches as object
      && g_caches as object != g_bufferCacheGen as object
      && Shape(Globals())
    }

    ghost function Globals(): Worker
      reads this, g_buffers, g_bufferCacheGen, g_caches
    {
      Worker(g_buffers[..], g_published, g_writeIndex, g_cacheGen, g_bufferCacheGen[..], g_caches[..],
             Memo(g_freshNs, g_lastIsEP1, g_lastEvalIsEP1, g_lastModuleRawCount, g_lastSetupModuleRawCount,
                  g_modDiffComputed, hasGameRoot, hasPluginDir),
             Idle)
    }

    method ComputeModDiffOnce(attempt: DiffAttempt) returns (thrown: bool)
      requires Valid()
      modifies this`g_modDiffComputed, g_caches
      ensures Valid() && thrown == DiffThrows(old(Globals()).memo, attempt)
      ensures Globals() == DiffOnce(old(Globals()), attempt)
    {
      thrown := false;
      if g_modDiffComputed { return; }
      if attempt.NoMods? { return; }
      if !hasPluginDir { return; }
      match attempt
      case PathThrows => return true;
      case Caught(stored) =>
        if stored.Some? { g_caches[MOD_DIFF] := stored.value; }
      case Computes(diff) =>
        g_caches[MOD_DIFF] := diff;
        g_modDiffComputed := true;
    }

    /** The freshness test of a refresh function. */
    method NeedsRefresh(i: nat, now: int) returns (stale: bool)
      requires Valid() && i < REFRESHES
      ensures stale == Stale(Globals().memo, i, now)
    {
      var expired := g_freshNs[i] == 0 || now - g_freshNs[i] >= INVENTORY_REFRESH_NS;
      if i < 3 {
        if !expired { return false; }
        if !hasGameRoot { return false; }
        return true;
      }
      stale := expired || if i == 3 then g_lastIsEP1 != g_lastEvalIsEP1
                          else g_lastModuleRawCount != g_lastSetupModuleRawCount;
    }

    /** Puts new content into a cache. */
    method Replace(i: nat, value: Value, now: int)
      requires Valid() && i < REFRESHES
      modifies this`g_freshNs, this`g_lastEvalIsEP1, this`g_lastSetupModuleRawCount, g_caches
      ensures Valid()
      ensures var w := old(Globals());
        Globals() == w.(caches := w.caches[RefreshedField(i) := value], memo := Stamped(w.memo, i, now))
    {
      g_caches[RefreshedField(i)] := value;
      if i == 3 { g_lastEvalIsEP1 := g_lastIsEP1; }
      if i == 4 { g_lastSetupModuleRawCount := g_lastModuleRawCount; }
      g_freshNs := g_freshNs[i := now];
    }

    /** One refresh function: its freshness test, then its try block. */
    method RefreshIfStale(i: nat, r: Refresh)
      requires Valid() && i < REFRESHES
      modifies this`g_cacheGen, this`g_freshNs, this`g_lastEvalIsEP1, this`g_lastSetupModuleRawCount
      modifies this`g_modDiffComputed, g_caches
      ensures Valid() && Globals() == Refreshed(old(Globals()), i, r)
    {
      var stale := NeedsRefresh(i, r.now);
      if !stale { return; }
      if r.attempt.Fails? { return; }
      Replace(i, r.attempt.value, r.now);
      if i == 0 {
        var thrown := ComputeModDiffOnce(r.attempt.diff);
        if thrown { return; }
      }
      g_cacheGen := g_cacheGen + 1;
    }

    /** The five refresh functions, in the order of the tick. */
    method RefreshAll(refreshes: seq<Refresh>)
      requires Valid() && |refreshes| == REFRESHES
      modifies this`g_cacheGen, this`g_freshNs, this`g_lastEvalIsEP1, this`g_lastSetupModuleRawCount
      modifies this`g_modDiffComputed, g_caches
      ensures Valid() && Globals() == AfterRefreshes(old(Globals()), refreshes, REFRESHES)
    {
      for i := 0 to REFRESHES
        invariant Valid() && Globals() == AfterRefreshes(old(Globals()), refreshes, i)
      {
        RefreshIfStale(i, refreshes[i]);
      }
    }

    /** Assigns one slow field of the target. */
    method SetSlow(k: nat, value: Value)
      requires Valid() && k < SLOW_FIELDS
      modifies g_buffers
      ensures Valid()
      ensures var w := old(Globals()); Globals() == WithSlow(w, w.buffers[w.writeIndex].slow[k := value])
    {
      var target := g_buffers[g_writeIndex];
      g_buffers[g_writeIndex] := target.(slow := target.slow[k := value]);
    }

    /** Copies the caches into the target, up to an assignment that throws. */
    method CopyCaches(throwAt: ThrowAt) returns (thrown: bool)
      requires Valid() && (throwAt.WhileCopying? ==> throwAt.field < SLOW_FIELDS)
      modifies g_buffers
      ensures Valid() && thrown == throwAt.WhileCopying?
      ensures var r := old(Globals());
        Globals() == WithSlow(r, if thrown then Torn(r, throwAt.field, throwAt.garbage) else r.caches)
    {
      ghost var r := Globals();
      assert Copied(r, 0) == r.buffers[r.writeIndex].slow;
      for k := 0 to SLOW_FIELDS
        invariant Valid() && Globals() == WithSlow(r, Copied(r, k))
        invariant throwAt.WhileCopying? ==> k <= throwAt.field
      {
        SlowTwice(r, Copied(r, k));
        if throwAt.WhileCopying? && throwAt.field == k {
          TornAt(r, k, throwAt.garbage);
          SetSlow(k, throwAt.garbage);
          return true;
        }
        CopyOne(r, false, k);
        SetSlow(k, g_caches[k]);
      }
      assert Copied(r, SLOW_FIELDS) == r.caches;
      thrown := false;
    }

    method Fill(live: Value)
      requires Valid()
      modifies g_buffers
      ensures Valid() && Globals() == WithLive(old(Globals()), live)
    {
      g_buffers[g_writeIndex] := g_buffers[g_writeIndex].(live := live);
    }

    method See(seen: Seen)
      requires Valid()
      modifies this`g_lastIsEP1, this`g_lastModuleRawCount
      ensures Valid() && Globals() == WithSeen(old(Globals()), seen)
    {
      g_lastIsEP1, g_lastModuleRawCount := seen.isEP1, seen.moduleCount;
    }

    /** One tick with no handler in between; `live` is what it captures. */
    method Tick(live: Value, seen: Seen, refreshes: seq<Refresh>, throwAt: ThrowAt)
      requires Valid() && TickInput(refreshes, throwAt)
      modifies this`g_cacheGen, this`g_published, this`g_writeIndex, g_buffers, g_bufferCacheGen, g_caches
      modifies this`g_freshNs, this`g_lastIsEP1, this`g_lastEvalIsEP1, this`g_lastModuleRawCount
      modifies this`g_lastSetupModuleRawCount, this`g_modDiffComputed
      ensures Valid()
      ensures Globals() == AfterTick(old(Globals()), g_crashInProgress, live, seen, refreshes, throwAt)
    {
      if g_crashInProgress { return; }
      Fill(live);
      if throwAt.WhileFilling? { return; }
      See(seen);
      RefreshAll(refreshes);
      Refill(throwAt);
    }

    /** The end of the tick: the guarded copy, then the publication. */
    method Refill(throwAt: ThrowAt)
      requires Valid() && (throwAt.WhileCopying? ==> throwAt.field < SLOW_FIELDS)
      modifies this`g_published, this`g_writeIndex, g_buffers, g_bufferCacheGen
      ensures Valid() && Globals() == AfterRefill(old(Globals()), throwAt)
    {
      if g_bufferCacheGen[g_writeIndex] != g_cacheGen {
        var thrown := CopyCaches(throwAt);
        if thrown { return; }
        g_bufferCacheGen[g_writeIndex] := g_cacheGen;
        assert Globals() == Refilled(old(Globals()));
      }
      g_published := g_writeIndex;
      g_writeIndex := (g_writeIndex + 1) % 2;
    }

    method FreezeForCrash()
      modifies this`g_crashInProgress
      ensures g_crashInProgress
    {
      g_crashInProgress := true;
    }
  }

  /** The handler's own globals.  `Handler` here runs without interruption; interleavings are the
      machine's. */
  class SehHandler {
    var g_handlerInProgress: int
    var g_respectDebugger: bool
    const worker: SnapshotWorker

    constructor (worker: SnapshotWorker, respectDebugger: bool)
      ensures this.worker == worker && g_handlerInProgress == 0 && g_respectDebugger == respectDebugger
    {
      this.worker := worker;
      g_handlerInProgress := 0;
      g_respectDebugger := respectDebugger;
    }

    /** A handled exception freezes the worker for good and reports on the published snapshot; any
        other call, a nested one included, changes nothing. */
    method Handler(debuggerPresent: bool, wellFormed: bool, shouldHandle: bool) returns (reportedOn: Option<int>)
      modifies this`g_handlerInProgress, worker`g_crashInProgress
      ensures g_handlerInProgress == old(g_handlerInProgress)
      ensures reportedOn.Some? <==> !(g_respectDebugger && debuggerPresent) && wellFormed && shouldHandle
                                    && old(g_handlerInProgress) == 0
      ensures reportedOn.Some? ==> reportedOn.value == worker.g_published
      ensures worker.g_crashInProgress == (old(worker.g_crashInProgress) || reportedOn.Some?)
    {
      reportedOn := None;
      if g_respectDebugger && debuggerPresent { return; }
      if !wellFormed { return; }
      if !shouldHandle { return; }
      if g_handlerInProgress != 0 { return; }
      g_handlerInProgress := 1;
      worker.FreezeForCrash();
      reportedOn := Some(worker.g_published);
      g_handlerInProgress := g_handlerInProgress - 1;
    }
  }
}
