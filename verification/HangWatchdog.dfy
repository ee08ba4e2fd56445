/** The hang watchdog of src/handler/HangWatchdog.cpp: its verdict, its one flag, and what the two
    give over whole runs.

    Time is a reading of the monotonic clock, handed in with every event. */
module HangWatchdog {
  import opened Wrappers
  import ScriptStack

  datatype Verdict = NoVerdict | Detected | Rearmed

  const ENGINE_STATE_RUNNING := 3

  function EvaluateHang(maxLast: int, now: int, engineState: int, threshold: int, alreadyReported: bool): Verdict {
    if engineState != ENGINE_STATE_RUNNING || maxLast <= 0 then NoVerdict
    else
      var hung := now - maxLast > threshold;
      if hung && !alreadyReported then Detected
      else if !hung && alreadyReported then Rearmed
      else NoVerdict
  }

  /** The engine state in a snapshot. */
  datatype EngineLive = EngineLive(hasData: bool, engineReadOk: bool, engineStateRaw: int)

  const NANOSECONDS := 1_000_000_000

  /** What a check is called with, besides the threshold: a snapshot or none, whether the watchdog is
      enabled, whether a debugger is to be respected, and whether one is attached. */
  datatype Look = Look(snap: Option<EngineLive>, enabled: bool, respectDebugger: bool, debuggerPresent: bool)

  /** The check goes as far as the heartbeats. */
  predicate Looks(look: Look, thresholdSeconds: nat) {
    && look.enabled && thresholdSeconds != 0 && look.snap.Some?
    && !(look.respectDebugger && look.debuggerPresent)
  }

  /** The snapshot shows an engine that could be read and is running. */
  predicate Runs(look: Look) {
    && look.snap.Some? && look.snap.value.hasData && look.snap.value.engineReadOk
    && look.snap.value.engineStateRaw == 3
  }

  /** All that a verdict takes besides the silence. */
  predicate Judges(look: Look, thresholdSeconds: nat, latest: int) {
    && look.enabled && thresholdSeconds > 0 && !(look.respectDebugger && look.debuggerPresent)
    && Runs(look) && latest > 0
  }

  function EngineState(live: EngineLive): int {
    if live.hasData && live.engineReadOk then live.engineStateRaw else -1
  }

  /** The verdict of a check, its early returns included. */
  function VerdictOf(latest: int, now: int, look: Look, thresholdSeconds: nat, alreadyReported: bool): Verdict {
    if !Looks(look, thresholdSeconds) then NoVerdict
    else EvaluateHang(latest, now, EngineState(look.snap.value), thresholdSeconds * NANOSECONDS, alreadyReported)
  }

  /** A heartbeat slot; thread id 0 marks a free one. */
  datatype Slot = Slot(threadId: nat, lastEnteredNs: int)

  /** A maximum after one more slot. */
  function Raised(maxLast: int, slot: Slot): int {
    if slot.threadId != 0 && slot.lastEnteredNs > maxLast then slot.lastEnteredNs else maxLast
  }

  /** The latest heartbeat of a claimed slot, or 0. */
  function Latest(slots: seq<Slot>): int {
    if slots == [] then 0 else Raised(Latest(slots[..|slots| - 1]), slots[|slots| - 1])
  }

  lemma {:induction false} LatestIsMaximum(slots: seq<Slot>)
    ensures Latest(slots) >= 0
    ensures forall s :: s in slots && s.threadId != 0 ==> s.lastEnteredNs <= Latest(slots)
    ensures Latest(slots) == 0 || exists s :: s in slots && s.threadId != 0 && s.lastEnteredNs == Latest(slots)
  {
    if slots != [] {
      var init, last := slots[..|slots| - 1], slots[|slots| - 1];
      LatestIsMaximum(init);
      assert forall s :: s in slots <==> s in init || s == last;
    }
  }

  class Watchdog {
    var g_reported: bool

    constructor ()
      ensures !g_reported
    {
      g_reported := false;
    }

    method CheckForHang(slots: seq<Slot>, now: int, look: Look, thresholdSeconds: nat) returns (v: Verdict)
      modifies this
      ensures v == VerdictOf(Latest(slots), now, look, thresholdSeconds, old(g_reported))
      ensures g_reported == if v.NoVerdict? then old(g_reported) else v.Detected?
      ensures !Runs(look) ==> v.NoVerdict?
      ensures v.Detected? <==> Judges(look, thresholdSeconds, Latest(slots)) && !old(g_reported)
                               && now > Latest(slots) + thresholdSeconds * 1_000_000_000
      ensures v.Rearmed? <==> Judges(look, thresholdSeconds, Latest(slots)) && old(g_reported)
                              && now <= Latest(slots) + thresholdSeconds * 1_000_000_000
    {
      if !look.enabled || thresholdSeconds == 0 || look.snap.None? { return NoVerdict; }
      if look.respectDebugger && look.debuggerPresent { return NoVerdict; }
      var stuck: seq<int> := [];
      for i := 0 to |slots|
        invariant forall n :: n in stuck <==> exists s :: s in slots[..i] && s.threadId != 0 && s.lastEnteredNs == n
      {
        assert slots[..i + 1] == slots[..i] + [slots[i]];
        if slots[i].threadId == 0 { continue; }
        stuck := stuck + [slots[i].lastEnteredNs];
      }
      assert slots[..|slots|] == slots;
      var maxLast := 0;
      for i := 0 to |stuck|
        invariant maxLast == 0 || maxLast in stuck
        invariant maxLast >= 0 && forall j :: 0 <= j < i ==> stuck[j] <= maxLast
      {
        if stuck[i] > maxLast { maxLast := stuck[i]; }
      }
      IsLatest(slots, stuck, maxLast);
      var live := look.snap.value;
      var engineState := if live.hasData && live.engineReadOk then live.engineStateRaw else -1;
      v := EvaluateHang(maxLast, now, engineState, thresholdSeconds * NANOSECONDS, g_reported);
      if v == Detected {
        g_reported := true;
      } else if v == Rearmed {
        g_reported := false;
      }
    }
  }

  lemma IsLatest(slots: seq<Slot>, stuck: seq<int>, maxLast: int)
    requires forall n :: n in stuck <==> exists s :: s in slots && s.threadId != 0 && s.lastEnteredNs == n
    requires maxLast >= 0 && (maxLast == 0 || maxLast in stuck) && forall j :: 0 <= j < |stuck| ==> stuck[j] <= maxLast
    ensures maxLast == Latest(slots)
  {
    var latest := Latest(slots);
    LatestIsMaximum(slots);
    if latest != 0 {
      assert latest in stuck;
    }
  }

  // ----- Runs -----

  /** A threshold, and how long before it is stored a heartbeat may have been stamped. */
  datatype Config = Config(thresholdSeconds: nat, delay: nat) {
    function Threshold(): nat { thresholdSeconds * NANOSECONDS }
  }

  /** What can happen.  A check reads the slots one after the other and only then the clock, and
      heartbeats are stored meanwhile. */
  datatype Event =
    | Beat(slot: nat, threadId: nat, stamp: int)
    | Begin(look: Look)
    | Read
    | Judge
    | Wait

  /** A check under way: when its first slot was read, how many have been, and the maximum so far. */
  datatype Check = NoCheck | Reading(engineState: int, start: int, next: nat, maxLast: int)

  /** A verdict, the engine state that its check saw, when its first slot was read, the time it was
      given and the heartbeat it was given on. */
  datatype Entry = Entry(verdict: Verdict, engineState: int, start: int, now: int, latest: int)

  datatype State = State(slots: seq<Slot>, check: Check, reported: bool, clock: int, log: seq<Entry>)

  const START := State(seq(ScriptStack.MAX_THREADS, i => Slot(0, 0)), NoCheck, false, 0, [])

  /** The clock does not run backwards, and a thread stamps its heartbeats in order. */
  predicate CanStep(s: State, e: Event, now: int, c: Config) {
    s.clock <= now &&
    match e
    case Beat(slot, threadId, stamp) =>
      slot < |s.slots| && threadId != 0 && s.slots[slot].lastEnteredNs <= stamp && now - c.delay <= stamp <= now
    case Begin(_) => s.check.NoCheck?
    case Read => s.check.Reading? && s.check.next < |s.slots|
    case Judge => s.check.Reading? && s.check.next >= |s.slots|
    case Wait => true
  }

  /** One event at time `now`; the log is kept for the statements below. */
  function Step(s: State, e: Event, now: int, c: Config): State
    requires CanStep(s, e, now, c)
  {
    match e
    case Beat(slot, threadId, stamp) => s.(clock := now, slots := s.slots[slot := Slot(threadId, stamp)])
    case Begin(look) =>
      if Looks(look, c.thresholdSeconds)
      then s.(clock := now, check := Reading(EngineState(look.snap.value), now, 0, 0))
      else s.(clock := now)
    case Read =>
      var r := s.check;
      s.(clock := now,
         check := r.(start := if r.next == 0 then now else r.start, next := r.next + 1,
                     maxLast := Raised(r.maxLast, s.slots[r.next])))
    case Judge =>
      var r := s.check;
      var v := EvaluateHang(r.maxLast, now, r.engineState, c.Threshold(), s.reported);
      var judged := s.(clock := now, check := NoCheck);
      if v.NoVerdict? then judged
      else judged.(reported := v.Detected?, log := s.log + [Entry(v, r.engineState, r.start, now, r.maxLast)])
    case Wait => s.(clock := now)
  }

  ghost predicate CanRun(s: State, events: seq<(Event, int)>, c: Config)
    decreases |events|
  {
    events == [] ||
    (CanStep(s, events[0].0, events[0].1, c) && CanRun(Step(s, events[0].0, events[0].1, c), events[1..], c))
  }

  ghost function Run(s: State, events: seq<(Event, int)>, c: Config): State
    requires CanRun(s, events, c)
    decreases |events|
  {
    if events == [] then s else Run(Step(s, events[0].0, events[0].1, c), events[1..], c)
  }

  // ----- The latest heartbeat of a part of the slots -----

  function Max(a: int, b: int): int { if a < b then b else a }

  lemma {:induction false} LatestConcat(a: seq<Slot>, b: seq<Slot>)
    ensures Latest(a + b) == Max(Latest(a), Latest(b))
    decreases |b|
  {
    LatestIsMaximum(a);
    if b == [] {
      assert a + b == a;
    } else {
      LatestConcat(a, b[..|b| - 1]);
      assert (a + b)[..|a + b| - 1] == a + b[..|b| - 1];
    }
  }

  lemma LatestOne(slot: Slot)
    ensures Latest([slot]) == Raised(0, slot)
  {
    assert [slot][..0] == [];
  }

  /** Reading slot `i`. */
  lemma LatestRead(slots: seq<Slot>, i: nat)
    requires i < |slots|
    ensures Latest(slots[..i + 1]) == Raised(Latest(slots[..i]), slots[i])
    ensures Latest(slots[i..]) == Max(Raised(0, slots[i]), Latest(slots[i + 1..]))
  {
    LatestOne(slots[i]);
    LatestConcat(slots[..i], [slots[i]]);
    LatestConcat([slots[i]], slots[i + 1..]);
    assert slots[..i + 1] == slots[..i] + [slots[i]];
    assert slots[i..] == [slots[i]] + slots[i + 1..];
  }

  lemma LatestParts(slots: seq<Slot>, i: nat)
    requires i <= |slots|
    ensures Latest(slots) == Max(Latest(slots[..i]), Latest(slots[i..]))
  {
    LatestConcat(slots[..i], slots[i..]);
    assert slots == slots[..i] + slots[i..];
  }

  /** A heartbeat raises the latest one to its stamp at most. */
  lemma LatestBeat(slots: seq<Slot>, k: nat, slot: Slot)
    requires k < |slots| && slot.threadId != 0 && slots[k].lastEnteredNs <= slot.lastEnteredNs && 0 <= slot.lastEnteredNs
    ensures Latest(slots[k := slot]) == Max(Latest(slots), slot.lastEnteredNs)
  {
    var beaten := slots[k := slot];
    assert beaten == slots[..k] + [slot] + slots[k + 1..];
    LatestConcat(slots[..k] + [slot], slots[k + 1..]);
    LatestConcat(slots[..k], [slot]);
    LatestParts(slots, k);
    LatestRead(slots, k);
    LatestOne(slot);
  }

  // ----- The invariant -----

  /** Detected and Rearmed alternate, starting with Detected, and the flag says which came last. */
  predicate Alternates(log: seq<Entry>, reported: bool) {
    && (forall i :: 0 <= i < |log| ==> log[i].verdict == if i % 2 == 0 then Detected else Rearmed)
    && (reported <==> |log| % 2 == 1)
  }

  /** A verdict is right about the silence it was given on. */
  predicate Sound(e: Entry, c: Config) {
    && c.thresholdSeconds > 0 && e.latest > 0 && e.engineState == 3
    && (e.verdict == Detected ==> e.now - e.latest > c.Threshold())
    && (e.verdict == Rearmed ==> e.now - e.latest <= c.Threshold())
  }

  /** What is seen later, against what had been seen of slots first read at `start`: nothing older,
      and nothing newer that was not stored since. */
  predicate Follows(latest: int, start: int, later: int, c: Config) {
    latest <= later && (latest < later ==> start - c.delay <= later)
  }

  /** What the check under way, or else the next one, will see if no heartbeat comes any more. */
  function Prospect(s: State): int {
    if s.check.Reading? && s.check.next <= |s.slots| then Max(s.check.maxLast, Latest(s.slots[s.check.next..]))
    else Latest(s.slots)
  }

  /** The slots that a check has read have been overtaken since its start at most. */
  ghost predicate CheckInv(s: State, c: Config) {
    s.check.Reading? ==>
      var r := s.check;
      && c.thresholdSeconds > 0 && r.start <= s.clock
      && r.next <= |s.slots| && 0 <= r.maxLast <= Latest(s.slots)
      && (Latest(s.slots[..r.next]) > r.maxLast ==> r.start - c.delay <= Latest(s.slots[..r.next]))
  }

  ghost predicate SlotsInv(s: State) {
    0 <= s.clock && forall x :: x in s.slots ==> 0 <= x.lastEnteredNs <= s.clock
  }

  /** Slots first read at `start` showed `latest`, and everything since follows that. */
  ghost predicate Marks(s: State, latest: int, start: int, c: Config) {
    && Follows(latest, start, Prospect(s), c) && start <= s.clock
    && (s.check.Reading? ==> start <= s.check.start)
  }

  ghost predicate LogInv(s: State, c: Config) {
    && (forall i :: 0 <= i < |s.log| ==> Sound(s.log[i], c) && s.log[i].start <= s.log[i].now <= s.clock)
    && (forall i :: 0 <= i < |s.log| ==> Marks(s, s.log[i].latest, s.log[i].start, c))
    && (forall i, j :: 0 <= i < j < |s.log| ==> Ordered(s.log[i], s.log[j], c))
  }

  predicate Ordered(e: Entry, d: Entry, c: Config) {
    e.now <= d.now && Follows(e.latest, e.start, d.latest, c)
  }

  ghost predicate Inv(s: State, c: Config) {
    SlotsInv(s) && CheckInv(s, c) && Alternates(s.log, s.reported) && LogInv(s, c)
  }

  /** A heartbeat raises the part of the slots that it falls in. */
  lemma BeatParts(slots: seq<Slot>, n: nat, k: nat, slot: Slot)
    requires k < |slots| && n <= |slots|
    requires slot.threadId != 0 && slots[k].lastEnteredNs <= slot.lastEnteredNs && 0 <= slot.lastEnteredNs
    ensures var beaten := slots[k := slot];
      && Latest(beaten) == Max(Latest(slots), slot.lastEnteredNs)
      && Latest(beaten[..n]) == (if k < n then Max(Latest(slots[..n]), slot.lastEnteredNs) else Latest(slots[..n]))
      && Latest(beaten[n..]) == (if k < n then Latest(slots[n..]) else Max(Latest(slots[n..]), slot.lastEnteredNs))
  {
    var beaten := slots[k := slot];
    LatestBeat(slots, k, slot);
    if k < n {
      LatestBeat(slots[..n], k, slot);
      assert beaten[..n] == slots[..n][k := slot] && beaten[n..] == slots[n..];
    } else {
      LatestBeat(slots[n..], k - n, slot);
      assert beaten[..n] == slots[..n] && beaten[n..] == slots[n..][k - n := slot];
    }
  }

  lemma BeatKeepsSlots(s: State, e: Event, now: int, c: Config)
    requires SlotsInv(s) && CanStep(s, e, now, c) && e.Beat?
    ensures SlotsInv(Step(s, e, now, c)) && 0 <= s.slots[e.slot].lastEnteredNs
  {
    assert s.slots[e.slot] in s.slots;
    assert forall x :: x in Step(s, e, now, c).slots ==> x in s.slots || x == Slot(e.threadId, e.stamp);
  }

  lemma BeatKeeps(s: State, e: Event, now: int, c: Config)
    requires SlotsInv(s) && CheckInv(s, c) && CanStep(s, e, now, c) && e.Beat?
    ensures CheckInv(Step(s, e, now, c), c)
    ensures Prospect(s) == Prospect(Step(s, e, now, c)) || Prospect(Step(s, e, now, c)) == Max(Prospect(s), e.stamp)
  {
    BeatKeepsSlots(s, e, now, c);
    BeatParts(s.slots, if s.check.Reading? then s.check.next else 0, e.slot, Slot(e.threadId, e.stamp));
  }

  lemma ReadKeeps(s: State, now: int, c: Config)
    requires CheckInv(s, c) && CanStep(s, Read, now, c)
    ensures CheckInv(Step(s, Read, now, c), c)
  {
    var n := s.check.next;
    LatestRead(s.slots, n);
    LatestParts(s.slots, n + 1);
    if n == 0 { assert s.slots[..0] == []; }
  }

  lemma ReadKeepsProspect(s: State, now: int, c: Config)
    requires CheckInv(s, c) && CanStep(s, Read, now, c)
    ensures Prospect(Step(s, Read, now, c)) == Prospect(s)
  {
    LatestRead(s.slots, s.check.next);
    LatestIsMaximum(s.slots[s.check.next + 1..]);
  }

  /** Every event keeps the slots and the check in order. */
  lemma BasicsKept(s: State, e: Event, now: int, c: Config)
    requires SlotsInv(s) && CheckInv(s, c) && CanStep(s, e, now, c)
    ensures SlotsInv(Step(s, e, now, c)) && CheckInv(Step(s, e, now, c), c)
  {
    match e
    case Beat(_, _, _) =>
      BeatKeepsSlots(s, e, now, c);
      BeatKeeps(s, e, now, c);
    case Begin(_) =>
      LatestIsMaximum(s.slots);
      assert s.slots[..0] == [];
    case Read => ReadKeeps(s, now, c);
    case Judge =>
    case Wait =>
  }

  /** A check at its end has seen what was in prospect. */
  lemma JudgeSees(s: State, now: int, c: Config)
    requires CheckInv(s, c) && CanStep(s, Judge, now, c)
    ensures Prospect(s) == s.check.maxLast <= Latest(s.slots)
    ensures Follows(s.check.maxLast, s.check.start, Latest(s.slots), c)
  {
    assert s.slots[s.check.next..] == [] && s.slots[..s.check.next] == s.slots;
  }

  /** What has been seen keeps being followed. */
  lemma MarksKept(s: State, e: Event, now: int, c: Config, latest: int, start: int)
    requires SlotsInv(s) && CheckInv(s, c) && CanStep(s, e, now, c) && Marks(s, latest, start, c)
    ensures Marks(Step(s, e, now, c), latest, start, c)
  {
    match e
    case Beat(_, _, _) => BeatKeeps(s, e, now, c);
    case Begin(_) =>
      LatestIsMaximum(s.slots);
      assert s.slots[0..] == s.slots;
    case Read => ReadKeepsProspect(s, now, c);
    case Judge => JudgeSees(s, now, c);
    case Wait =>
  }

  lemma StepKeepsInv(s: State, e: Event, now: int, c: Config)
    requires Inv(s, c) && CanStep(s, e, now, c)
    ensures Inv(Step(s, e, now, c), c)
  {
    BasicsKept(s, e, now, c);
    forall i | 0 <= i < |s.log| ensures Marks(Step(s, e, now, c), s.log[i].latest, s.log[i].start, c) {
      MarksKept(s, e, now, c, s.log[i].latest, s.log[i].start);
    }
    if e.Judge? { JudgeKeepsLog(s, now, c); }
  }

  lemma JudgeKeepsLog(s: State, now: int, c: Config)
    requires Inv(s, c) && CanStep(s, Judge, now, c)
    requires forall i :: 0 <= i < |s.log| ==> Marks(Step(s, Judge, now, c), s.log[i].latest, s.log[i].start, c)
    ensures Alternates(Step(s, Judge, now, c).log, Step(s, Judge, now, c).reported) && LogInv(Step(s, Judge, now, c), c)
  {
    JudgeSees(s, now, c);
    var r := s.check;
    var v := EvaluateHang(r.maxLast, now, r.engineState, c.Threshold(), s.reported);
    if !v.NoVerdict? { LogGrows(s, Step(s, Judge, now, c), Entry(v, r.engineState, r.start, now, r.maxLast), c); }
  }

  /** A verdict that follows all earlier ones joins the log. */
  lemma LogGrows(s: State, s': State, e: Entry, c: Config)
    requires LogInv(s, c) && s'.log == s.log + [e] && s.clock <= e.now == s'.clock
    requires Sound(e, c) && e.start <= e.now && Marks(s', e.latest, e.start, c) && e.latest == Prospect(s)
    requires forall i :: 0 <= i < |s.log| ==> Marks(s', s.log[i].latest, s.log[i].start, c)
    ensures LogInv(s', c)
  {
    forall i | 0 <= i < |s.log| ensures Ordered(s.log[i], e, c) {
      assert Marks(s, s.log[i].latest, s.log[i].start, c);
    }
  }

  lemma {:induction false} RunKeepsInv(s: State, events: seq<(Event, int)>, c: Config)
    requires Inv(s, c) && CanRun(s, events, c)
    ensures Inv(Run(s, events, c), c)
    decreases |events|
  {
    if events != [] {
      StepKeepsInv(s, events[0].0, events[0].1, c);
      RunKeepsInv(Step(s, events[0].0, events[0].1, c), events[1..], c);
    }
  }

  /** Over every run with a monotone clock, whatever is stored while a check reads: reports and
      re-arms alternate, starting with a report; each is about a running engine and right about the
      silence; every report sees a newer heartbeat than the report
      before it; and it comes more than the threshold, less the delay of stamps, after that report
      began to read the slots. */
  lemma ReportsAlternateAndAreApart(events: seq<(Event, int)>, c: Config)
    requires CanRun(START, events, c)
    ensures var s := Run(START, events, c);
      && Alternates(s.log, s.reported)
      && (forall i :: 0 <= i < |s.log| ==> Sound(s.log[i], c))
      && forall i, j :: 0 <= i < j < |s.log| && s.log[i].verdict == s.log[j].verdict == Detected ==>
           s.log[i].latest < s.log[j].latest && s.log[j].now - s.log[i].start > c.Threshold() - c.delay
  {
    StartInv(c);
    RunKeepsInv(START, events, c);
    var log := Run(START, events, c).log;
    forall i, j | 0 <= i < j < |log| && log[i].verdict == log[j].verdict == Detected
      ensures log[i].latest < log[j].latest && log[j].now - log[i].start > c.Threshold() - c.delay
    {
      var r := log[i + 1];
      assert r.verdict == Rearmed;
      assert Sound(log[i], c) && Sound(log[j], c) && Sound(r, c);
      assert Ordered(log[i], r, c) && Ordered(r, log[j], c);
    }
  }

  // ----- Whole checks -----

  lemma {:induction false} RunAppend(s: State, a: seq<(Event, int)>, b: seq<(Event, int)>, c: Config)
    requires CanRun(s, a, c) && CanRun(Run(s, a, c), b, c)
    ensures CanRun(s, a + b, c) && Run(s, a + b, c) == Run(Run(s, a, c), b, c)
    decreases |a|
  {
    if a == [] {
      assert a + b == b;
    } else {
      RunAppend(Step(s, a[0].0, a[0].1, c), a[1..], b, c);
      assert (a + b)[1..] == a[1..] + b;
    }
  }

  /** Extends a run by one event. */
  lemma Then(s: State, events: seq<(Event, int)>, e: Event, now: int, c: Config) returns (more: seq<(Event, int)>)
    requires CanRun(s, events, c) && CanStep(Run(s, events, c), e, now, c)
    ensures CanRun(s, more, c) && Run(s, more, c) == Step(Run(s, events, c), e, now, c)
  {
    var one := [(e, now)];
    assert one[1..] == [];
    assert CanRun(Run(s, events, c), one, c) && Run(Run(s, events, c), one, c) == Step(Run(s, events, c), e, now, c);
    RunAppend(s, events, one, c);
    more := events + one;
  }

  /** The first `n` slots are read at one time, nothing being stored meanwhile. */
  lemma {:induction false} Reads(s: State, events: seq<(Event, int)>, engineState: int, now: int, c: Config, n: nat)
    returns (more: seq<(Event, int)>)
    requires CanRun(s, events, c)
    requires var r := Run(s, events, c);
      r.check == Reading(engineState, now, 0, 0) && n <= |r.slots| && r.clock == now
    ensures CanRun(s, more, c)
    ensures var r := Run(s, events, c);
      Run(s, more, c) == r.(check := Reading(engineState, now, n, Latest(r.slots[..n])))
  {
    var r := Run(s, events, c);
    if n == 0 {
      more := events;
      assert r.slots[..0] == [];
    } else {
      more := Reads(s, events, engineState, now, c, n - 1);
      LatestRead(r.slots, n - 1);
      more := Then(s, more, Read, now, c);
    }
  }

  /** All slots are read at one time. */
  lemma Collect(s: State, events: seq<(Event, int)>, look: Look, now: int, c: Config) returns (more: seq<(Event, int)>)
    requires CanRun(s, events, c)
    requires Run(s, events, c).clock <= now && Run(s, events, c).check.NoCheck? && Looks(look, c.thresholdSeconds)
    ensures CanRun(s, more, c)
    ensures var r := Run(s, events, c);
      Run(s, more, c)
      == r.(clock := now, check := Reading(EngineState(look.snap.value), now, |r.slots|, Latest(r.slots)))
  {
    var r := Run(s, events, c);
    more := Then(s, events, Begin(look), now, c);
    more := Reads(s, more, EngineState(look.snap.value), now, c, |r.slots|);
    assert r.slots[..|r.slots|] == r.slots;
  }

  /** A check that nothing interrupts gives the verdict of `CheckForHang` and leaves its flag. */
  lemma CheckIsRun(s: State, events: seq<(Event, int)>, look: Look, now: int, c: Config) returns (more: seq<(Event, int)>)
    requires CanRun(s, events, c) && Run(s, events, c).clock <= now && Run(s, events, c).check.NoCheck?
    ensures CanRun(s, more, c)
    ensures var r := Run(s, events, c);
      var v := VerdictOf(Latest(r.slots), now, look, c.thresholdSeconds, r.reported);
      Run(s, more, c)
      == r.(clock := now, reported := if v.NoVerdict? then r.reported else v.Detected?,
            log := if v.NoVerdict? then r.log else r.log + [Entry(v, EngineState(look.snap.value), now, now, Latest(r.slots))])
  {
    if Looks(look, c.thresholdSeconds) {
      more := Collect(s, events, look, now, c);
      more := Then(s, more, Judge, now, c);
    } else {
      more := Then(s, events, Begin(look), now, c);
    }
  }

  // ----- When reports may come closer -----

  const AWAKE := Look(Some(EngineLive(true, true, ENGINE_STATE_RUNNING)), true, false, false)

  /** A heartbeat stored while the check read has overtaken it: older than the time of the report by
      more than the delay, but not by more than the threshold. */
  predicate Overtaken(s: State, c: Config) { c.delay < s.clock - Latest(s.slots) <= c.Threshold() }

  /** A report has just been given. */
  predicate JustReported(s: State) {
    s.check.NoCheck? && s.reported && s.log != [] && s.log[|s.log| - 1].now == s.clock
  }

  /** Entry `k` is a later report. */
  predicate IsReport(s: State, from: nat, k: nat) { from <= k < |s.log| && s.log[k].verdict.Detected? }

  /** In whatever follows, every report comes more than the threshold, less the delay, after now. */
  ghost predicate StaysApart(s: State, c: Config) {
    forall events, k: nat :: CanRun(s, events, c) && IsReport(Run(s, events, c), |s.log|, k) ==>
      Run(s, events, c).log[k].now - s.clock > c.Threshold() - c.delay
  }

  lemma {:induction false} LogOnlyGrows(s: State, events: seq<(Event, int)>, c: Config)
    requires CanRun(s, events, c)
    ensures s.log <= Run(s, events, c).log
    decreases |events|
  {
    if events != [] { LogOnlyGrows(Step(s, events[0].0, events[0].1, c), events[1..], c); }
  }

  /** Entries from `n` on follow what the slots showed at `start`. */
  ghost predicate Since(s: State, n: nat, latest: int, start: int, c: Config) {
    && Marks(s, latest, start, c) && n <= |s.log|
    && forall k :: n <= k < |s.log| ==> Follows(latest, start, s.log[k].latest, c) && start <= s.log[k].now
  }

  lemma {:induction false} SinceKept(s: State, events: seq<(Event, int)>, n: nat, latest: int, start: int, c: Config)
    requires Inv(s, c) && CanRun(s, events, c) && Since(s, n, latest, start, c)
    ensures Inv(Run(s, events, c), c) && Since(Run(s, events, c), n, latest, start, c)
    decreases |events|
  {
    if events != [] {
      var (e, now) := events[0];
      StepKeepsInv(s, e, now, c);
      MarksKept(s, e, now, c, latest, start);
      if e.Judge? { JudgeSees(s, now, c); }
      SinceKept(Step(s, e, now, c), events[1..], n, latest, start, c);
    }
  }

  lemma ApartUnlessOvertaken(s: State, events: seq<(Event, int)>, k: nat, c: Config)
    requires Inv(s, c) && JustReported(s) && !Overtaken(s, c)
    requires CanRun(s, events, c) && IsReport(Run(s, events, c), |s.log|, k)
    ensures Run(s, events, c).log[k].now - s.clock > c.Threshold() - c.delay
  {
    var n := |s.log|;
    SinceKept(s, events, n, Latest(s.slots), s.clock, c);
    LogOnlyGrows(s, events, c);
    var log := Run(s, events, c).log;
    assert log[n - 1] == s.log[n - 1];
    var r, d := log[n], log[k];
    assert r.verdict.Rearmed? && Sound(r, c) && Sound(d, c);
    if k > n { assert Ordered(r, d, c); }
  }

  /** A re-arm at once, and a report as soon as the threshold has passed since the heartbeat. */
  lemma OvertakenIsClose(s: State, c: Config) returns (events: seq<(Event, int)>)
    requires Inv(s, c) && JustReported(s) && Overtaken(s, c)
    ensures CanRun(s, events, c) && IsReport(Run(s, events, c), |s.log|, |s.log| + 1)
    ensures Run(s, events, c).log[|s.log| + 1].now - s.clock <= c.Threshold() - c.delay
  {
    var last := s.log[|s.log| - 1];
    assert Sound(last, c) && Marks(s, last.latest, last.start, c);
    events := CheckIsRun(s, [], AWAKE, s.clock, c);
    events := CheckIsRun(s, events, AWAKE, Latest(s.slots) + c.Threshold() + 1, c);
  }

  lemma StartInv(c: Config)
    ensures Inv(START, c) && Latest(START.slots) == 0
  {
    LatestIsMaximum(START.slots);
  }

  /** After any run that has just given a report, the later reports keep their distance from its time
      exactly when no heartbeat has overtaken its check; in particular when none newer than the one
      it was given on has been stored. */
  lemma ApartExactlyUnlessOvertaken(past: seq<(Event, int)>, c: Config)
    requires CanRun(START, past, c) && JustReported(Run(START, past, c))
    ensures var s := Run(START, past, c);
      && (StaysApart(s, c) <==> !Overtaken(s, c))
      && (Latest(s.slots) == s.log[|s.log| - 1].latest ==> !Overtaken(s, c))
  {
    StartInv(c);
    RunKeepsInv(START, past, c);
    var s := Run(START, past, c);
    assert Sound(s.log[|s.log| - 1], c);
    if Overtaken(s, c) {
      var events := OvertakenIsClose(s, c);
    } else {
      forall events, k: nat | CanRun(s, events, c) && IsReport(Run(s, events, c), |s.log|, k)
        ensures Run(s, events, c).log[k].now - s.clock > c.Threshold() - c.delay
      {
        ApartUnlessOvertaken(s, events, k, c);
      }
    }
  }

  lemma LatestFirstBeat(slots: seq<Slot>, stamp: int)
    requires slots != [] && 0 <= slots[0].lastEnteredNs <= stamp && Latest(slots) <= stamp
    ensures Latest(slots[0 := Slot(1, stamp)]) == stamp
  {
    LatestBeat(slots, 0, Slot(1, stamp));
  }

  /** Such a run: with a threshold of one second and a heartbeat stored between the slots and the
      clock of the first check, two reports are exactly one second apart. */
  lemma ReportsCanBeClose() returns (events: seq<(Event, int)>)
    ensures var c := Config(1, 0);
      && CanRun(START, events, c)
      && var log := Run(START, events, c).log;
         && |log| == 3 && log[0].verdict == log[2].verdict == Detected
         && log[2].now - log[0].now == c.Threshold()
  {
    var c, second := Config(1, 0), NANOSECONDS;
    StartInv(c);
    LatestFirstBeat(START.slots, 1);
    events := Then(START, [], Beat(0, 1, 1), 1, c);
    LatestFirstBeat(Run(START, events, c).slots, 2 * second + 1);
    events := Collect(START, events, AWAKE, 2 * second, c);
    events := Then(START, events, Beat(0, 1, 2 * second + 1), 2 * second + 1, c);
    events := Then(START, events, Judge, 2 * second + 2, c);
    events := CheckIsRun(START, events, AWAKE, 2 * second + 4, c);
    events := CheckIsRun(START, events, AWAKE, 3 * second + 2, c);
  }
}
