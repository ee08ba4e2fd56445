/** Crash grouping of analyzer/core/grouping.lua.

    A summary is what the analyzer has already parsed.  The label, the top module and the other
    texts of a group are those of its first summary, which stands for them here. */
module Grouping {
  import opened AsciiText
  import opened Order
  import opened Wrappers

  /** One crash; `stackModules` are the names of its stack modules, if they have one. */
  datatype Summary = Summary(crashId: Option<string>, looseId: Option<string>, crashTimeUnix: int,
                             stackModules: seq<Option<string>>)

  datatype Group = Group(crashId: string, count: nat, firstSeen: int, lastSeen: int, first: Summary)

  datatype Analysis = Analysis(distinctCount: nat, totalCount: nat, groups: seq<Group>, byCrashId: map<string, Group>,
                               looseCounts: map<string, nat>, cooccurrence: map<string, nat>)

  const FRAMEWORK_DLLS: set<string> := {"redscope.dll", "red4ext.dll", "cyber_engine_tweaks.asi", "scc.dll"}

  function IdOf(s: Summary): string {
    if s.crashId.None? || s.crashId.value == "" then "?" else s.crashId.value
  }

  // ----- The specification -----

  /** How often an id occurs, and its earliest and latest time. */
  datatype Tally = Tally(count: nat, firstSeen: int, lastSeen: int)

  function Min(a: int, b: int): int { if b < a then b else a }

  function Max(a: int, b: int): int { if b > a then b else a }

  function Tallied(t: Option<Tally>, time: int): Option<Tally> {
    match t
    case None => Some(Tally(1, time, time))
    case Some(t) => Some(Tally(t.count + 1, Min(t.firstSeen, time), Max(t.lastSeen, time)))
  }

  function TallyOf(summaries: seq<Summary>, id: string): Option<Tally> {
    if summaries == [] then None
    else
      var before, last := TallyOf(summaries[..|summaries| - 1], id), summaries[|summaries| - 1];
      if IdOf(last) == id then Tallied(before, last.crashTimeUnix) else before
  }

  /** The first summary with an id. */
  function FirstWith(summaries: seq<Summary>, id: string): Option<Summary> {
    if summaries == [] then None
    else
      var before, last := FirstWith(summaries[..|summaries| - 1], id), summaries[|summaries| - 1];
      if before.None? && IdOf(last) == id then Some(last) else before
  }

  ghost predicate Mentions(s: Summary, moduleKey: string) {
    moduleKey !in FRAMEWORK_DLLS && exists m :: m in s.stackModules && m.Some? && Lower(m.value) == moduleKey
  }

  predicate HasLoose(s: Summary, looseId: string) {
    looseId != "" && s.looseId == Some(looseId)
  }

  /** The crash ids whose summaries mention a module. */
  ghost function MentionIds(summaries: seq<Summary>, moduleKey: string): set<string> {
    set s | s in summaries && Mentions(s, moduleKey) :: IdOf(s)
  }

  /** The crash ids that share a loose id. */
  ghost function LooseIds(summaries: seq<Summary>, looseId: string): set<string> {
    set s | s in summaries && HasLoose(s, looseId) :: IdOf(s)
  }

  /** A group is the tally of its id, named after the id's first summary. */
  ghost predicate IsGroup(g: Group, summaries: seq<Summary>, id: string) {
    && g.crashId == id && TallyOf(summaries, id) == Some(Tally(g.count, g.firstSeen, g.lastSeen))
    && FirstWith(summaries, id) == Some(g.first)
  }

  ghost predicate IsGrouping(groups: map<string, Group>, summaries: seq<Summary>) {
    forall id :: if id in groups then IsGroup(groups[id], summaries, id) else TallyOf(summaries, id).None?
  }

  /** `sets` collects, under every key that `ids` gives anything for, exactly that. */
  ghost predicate IsCollection(sets: map<string, set<string>>, ids: string -> set<string>) {
    forall key :: if key in sets then sets[key] == ids(key) != {} else ids(key) == {}
  }

  ghost predicate IsCount(counts: map<string, nat>, ids: string -> set<string>) {
    forall key :: if key in counts then counts[key] == |ids(key)| > 0 else ids(key) == {}
  }

  /** Most frequent first, then latest, then by id. */
  predicate Before(a: Group, b: Group) {
    if a.count != b.count then a.count > b.count
    else if a.lastSeen != b.lastSeen then a.lastSeen > b.lastSeen
    else Less(a.crashId, b.crashId)
  }

  ghost predicate IsAnalysis(r: Analysis, summaries: seq<Summary>) {
    && r.totalCount == |summaries| && r.distinctCount == |r.groups|
    && IsGrouping(r.byCrashId, summaries)
    && (forall g :: g in r.groups <==> g.crashId in r.byCrashId && r.byCrashId[g.crashId] == g)
    && (forall i, j :: 0 <= i < j < |r.groups| ==> r.groups[i].crashId != r.groups[j].crashId)
    && InOrder(r.groups, Before)
    && IsCount(r.looseCounts, id => LooseIds(summaries, id))
    && IsCount(r.cooccurrence, key => MentionIds(summaries, key))
  }

  // ----- The tables -----

  lemma TallySnoc(summaries: seq<Summary>, s: Summary, id: string)
    ensures TallyOf(summaries + [s], id)
         == if IdOf(s) == id then Tallied(TallyOf(summaries, id), s.crashTimeUnix) else TallyOf(summaries, id)
    ensures FirstWith(summaries + [s], id)
         == if FirstWith(summaries, id).None? && IdOf(s) == id then Some(s) else FirstWith(summaries, id)
  {
    assert (summaries + [s])[..|summaries|] == summaries;
  }

  lemma {:induction false} TallyHasFirst(summaries: seq<Summary>, id: string)
    ensures TallyOf(summaries, id).None? <==> FirstWith(summaries, id).None?
  {
    if summaries != [] { TallyHasFirst(summaries[..|summaries| - 1], id); }
  }

  /** Which summaries have an id. */
  function Occurrences(summaries: seq<Summary>, id: string): set<nat> {
    set i: nat | i < |summaries| && IdOf(summaries[i]) == id
  }

  /** A summary without an id, or with an empty one, goes under "?". */
  lemma IdsAre(s: Summary)
    ensures s.crashId == None || s.crashId == Some("") ==> IdOf(s) == "?"
    ensures forall id :: s.crashId == Some(id) && id != "" ==> IdOf(s) == id
  {
  }

  /** A tally in plain terms: how many summaries have the id, and the least and the greatest of their
      times. */
  ghost predicate Tallies(t: Tally, summaries: seq<Summary>, id: string) {
    var at := Occurrences(summaries, id);
    && t.count == |at| > 0
    && (forall i :: i in at ==> t.firstSeen <= summaries[i].crashTimeUnix <= t.lastSeen)
    && (exists i :: i in at && summaries[i].crashTimeUnix == t.firstSeen)
    && (exists i :: i in at && summaries[i].crashTimeUnix == t.lastSeen)
  }

  lemma OccurrencesSnoc(summaries: seq<Summary>, s: Summary, id: string)
    ensures var at := Occurrences(summaries, id);
      Occurrences(summaries + [s], id) == if IdOf(s) == id then at + {|summaries|} else at
  {
  }

  lemma {:induction false} TallyMeans(summaries: seq<Summary>, id: string)
    ensures var t := TallyOf(summaries, id);
      if t.None? then Occurrences(summaries, id) == {} else Tallies(t.value, summaries, id)
  {
    if summaries != [] {
      var init, last := summaries[..|summaries| - 1], summaries[|summaries| - 1];
      assert summaries == init + [last];
      TallyMeans(init, id);
      OccurrencesSnoc(init, last, id);
      TallyStep(init, last, id);
    }
  }

  lemma TallyStep(init: seq<Summary>, last: Summary, id: string)
    requires var t := TallyOf(init, id);
      if t.None? then Occurrences(init, id) == {} else Tallies(t.value, init, id)
    requires var at := Occurrences(init, id);
      Occurrences(init + [last], id) == if IdOf(last) == id then at + {|init|} else at
    ensures var t := TallyOf(init + [last], id);
      if t.None? then Occurrences(init + [last], id) == {} else Tallies(t.value, init + [last], id)
  {
    var all, was := init + [last], TallyOf(init, id);
    TallySnoc(init, last, id);
    if IdOf(last) == id { assert |init| in Occurrences(all, id) && all[|init|] == last; }
    if was.Some? {
      var i :| i in Occurrences(init, id) && init[i].crashTimeUnix == was.value.firstSeen;
      var j :| j in Occurrences(init, id) && init[j].crashTimeUnix == was.value.lastSeen;
      assert i in Occurrences(all, id) && all[i] == init[i];
      assert j in Occurrences(all, id) && all[j] == init[j];
    }
  }

  /** The first summary with an id has it, and none before it does. */
  lemma {:induction false} FirstIsFirst(summaries: seq<Summary>, id: string)
    ensures var f := FirstWith(summaries, id);
      if f.None? then Occurrences(summaries, id) == {}
      else exists i :: i in Occurrences(summaries, id) && summaries[i] == f.value
                       && forall j :: j in Occurrences(summaries, id) ==> i <= j
  {
    if summaries != [] {
      var init, last := summaries[..|summaries| - 1], summaries[|summaries| - 1];
      assert summaries == init + [last];
      FirstIsFirst(init, id);
      OccurrencesSnoc(init, last, id);
      if FirstWith(init, id).Some? {
        var i :| i in Occurrences(init, id) && init[i] == FirstWith(init, id).value
                 && forall j :: j in Occurrences(init, id) ==> i <= j;
        assert i in Occurrences(summaries, id) && summaries[i] == init[i];
      } else if IdOf(last) == id {
        assert |init| in Occurrences(summaries, id);
      }
    }
  }

  /** Counts one summary in its group. */
  method AddToGroup(groups: map<string, Group>, order: seq<string>, s: Summary, ghost before: seq<Summary>)
    returns (newGroups: map<string, Group>, newOrder: seq<string>)
    requires IsGrouping(groups, before)
    requires (forall id :: id in order <==> id in groups) && forall i, j :: 0 <= i < j < |order| ==> order[i] != order[j]
    ensures IsGrouping(newGroups, before + [s])
    ensures forall id :: id in newOrder <==> id in newGroups
    ensures forall i, j :: 0 <= i < j < |newOrder| ==> newOrder[i] != newOrder[j]
  {
    var id := IdOf(s);
    var t := s.crashTimeUnix;
    newOrder := order;
    var g: Group;
    if id in groups {
      g := groups[id];
      assert IsGroup(g, before, id);
      g := g.(count := g.count + 1);
      if t < g.firstSeen { g := g.(firstSeen := t); }
      if t > g.lastSeen { g := g.(lastSeen := t); }
    } else {
      g := Group(id, 1, t, t, s);
      newOrder := order + [id];
    }
    TallyHasFirst(before, id);
    newGroups := groups[id := g];
    forall other
      ensures if other in newGroups then IsGroup(newGroups[other], before + [s], other)
              else TallyOf(before + [s], other).None?
    {
      TallySnoc(before, s, other);
    }
  }

  /** Files `id` under `key`. */
  function Filed(sets: map<string, set<string>>, key: string, id: string): map<string, set<string>> {
    sets[key := (if key in sets then sets[key] else {}) + {id}]
  }

  method AddLoose(sets: map<string, set<string>>, s: Summary, ghost before: seq<Summary>)
    returns (newSets: map<string, set<string>>)
    requires IsCollection(sets, id => LooseIds(before, id))
    ensures IsCollection(newSets, id => LooseIds(before + [s], id))
  {
    newSets := sets;
    if s.looseId.Some? && s.looseId.value != "" {
      newSets := Filed(sets, s.looseId.value, IdOf(s));
    }
    forall key
      ensures if key in newSets then newSets[key] == LooseIds(before + [s], key) != {}
              else LooseIds(before + [s], key) == {}
    {
    }
  }

  method AddModules(sets: map<string, set<string>>, s: Summary, ghost before: seq<Summary>)
    returns (newSets: map<string, set<string>>)
    requires IsCollection(sets, key => MentionIds(before, key))
    ensures IsCollection(newSets, key => MentionIds(before + [s], key))
  {
    newSets := sets;
    for i := 0 to |s.stackModules|
      invariant IsCollection(newSets, key => MentionIds(before, key) + MentionOf(Cut(s, i), key))
    {
      var sm := s.stackModules[i];
      ghost var was := newSets;
      if sm.Some? {
        var mk := Lower(sm.value);
        if mk !in FRAMEWORK_DLLS { newSets := Filed(newSets, mk, IdOf(s)); }
      }
      OneMoreModule(was, newSets, before, s, i);
    }
    assert Cut(s, |s.stackModules|) == s;
    forall key
      ensures if key in newSets then newSets[key] == MentionIds(before + [s], key) != {}
              else MentionIds(before + [s], key) == {}
    {
    }
  }

  ghost function MentionOf(s: Summary, moduleKey: string): set<string> {
    if Mentions(s, moduleKey) then {IdOf(s)} else {}
  }

  function Cut(s: Summary, i: nat): Summary
    requires i <= |s.stackModules|
  {
    s.(stackModules := s.stackModules[..i])
  }

  predicate FiledRight(sets: map<string, set<string>>, key: string, ids: set<string>) {
    if key in sets then sets[key] == ids != {} else ids == {}
  }

  lemma OneMoreModule(was: map<string, set<string>>, sets: map<string, set<string>>, before: seq<Summary>, s: Summary,
                      i: nat)
    requires i < |s.stackModules|
    requires IsCollection(was, key => MentionIds(before, key) + MentionOf(Cut(s, i), key))
    requires var sm := s.stackModules[i];
      sets == if sm.Some? && Lower(sm.value) !in FRAMEWORK_DLLS then Filed(was, Lower(sm.value), IdOf(s)) else was
    ensures IsCollection(sets, key => MentionIds(before, key) + MentionOf(Cut(s, i + 1), key))
  {
    forall key ensures FiledRight(sets, key, MentionIds(before, key) + MentionOf(Cut(s, i + 1), key)) {
      OneMoreKey(was, sets, before, s, i, key);
    }
  }

  lemma OneMoreKey(was: map<string, set<string>>, sets: map<string, set<string>>, before: seq<Summary>, s: Summary, i: nat,
                   key: string)
    requires i < |s.stackModules|
    requires IsCollection(was, key => MentionIds(before, key) + MentionOf(Cut(s, i), key))
    requires var sm := s.stackModules[i];
      sets == if sm.Some? && Lower(sm.value) !in FRAMEWORK_DLLS then Filed(was, Lower(sm.value), IdOf(s)) else was
    ensures FiledRight(sets, key, MentionIds(before, key) + MentionOf(Cut(s, i + 1), key))
  {
    MentionSnoc(s, i, key);
    assert FiledRight(was, key, MentionIds(before, key) + MentionOf(Cut(s, i), key));
  }

  /** One more module adds a mention of itself. */
  lemma MentionSnoc(s: Summary, i: nat, key: string)
    requires i < |s.stackModules|
    ensures var sm := s.stackModules[i];
      MentionOf(Cut(s, i + 1), key)
      == MentionOf(Cut(s, i), key)
         + if sm.Some? && Lower(sm.value) !in FRAMEWORK_DLLS && Lower(sm.value) == key then {IdOf(s)} else {}
  {
    assert s.stackModules[..i + 1] == s.stackModules[..i] + [s.stackModules[i]];
  }

  /** Counts the members of every set; `pairs` visits the keys in no particular order. */
  method CountSets(sets: map<string, set<string>>, ghost ids: string -> set<string>) returns (counts: map<string, nat>)
    requires IsCollection(sets, ids)
    ensures IsCount(counts, ids)
  {
    counts := map[];
    var keys := sets.Keys;
    while keys != {}
      invariant keys <= sets.Keys && counts.Keys == sets.Keys - keys
      invariant forall key :: key in counts ==> counts[key] == |sets[key]|
      decreases |keys|
    {
      var key :| key in keys;
      var n, left := 0, sets[key];
      while left != {}
        invariant n + |left| == |sets[key]|
        decreases |left|
      {
        var x :| x in left;
        left := left - {x};
        n := n + 1;
      }
      counts := counts[key := n];
      keys := keys - {key};
    }
  }

  // ----- The order of the groups -----

  lemma BeforeStrictWeak()
    ensures StrictWeak(Before)
  {
    forall a: Group, b: Group ensures Before(a, b) ==> !Before(b, a) {
      LessAsymmetric(a.crashId, b.crashId);
    }
    forall a: Group, b: Group, c: Group ensures !Before(b, a) && !Before(c, b) ==> !Before(c, a) {
      LessTransitive(a.crashId, b.crashId, c.crashId);
    }
  }

  method Listed(groups: map<string, Group>, order: seq<string>, ghost summaries: seq<Summary>) returns (list: seq<Group>)
    requires IsGrouping(groups, summaries)
    requires (forall id :: id in order <==> id in groups) && forall i, j :: 0 <= i < j < |order| ==> order[i] != order[j]
    ensures |list| == |order|
    ensures forall g :: g in list <==> g.crashId in groups && groups[g.crashId] == g
    ensures forall i, j :: 0 <= i < j < |list| ==> list[i].crashId != list[j].crashId
  {
    list := [];
    for i := 0 to |order|
      invariant |list| == i && forall j :: 0 <= j < i ==> list[j] == groups[order[j]] && list[j].crashId == order[j]
    {
      assert order[i] in groups;
      assert IsGroup(groups[order[i]], summaries, order[i]);
      list := list + [groups[order[i]]];
    }
    forall g ensures g in list <==> g.crashId in groups && groups[g.crashId] == g {
      if g.crashId in groups && groups[g.crashId] == g {
        var j :| 0 <= j < |order| && order[j] == g.crashId;
        assert list[j] == g;
      }
    }
  }

  function CrashIdOf(g: Group): string { g.crashId }

  lemma SortingKeepsDistinct(sorted: seq<Group>, list: seq<Group>)
    requires multiset(sorted) == multiset(list)
    requires forall i, j :: 0 <= i < j < |list| ==> list[i].crashId != list[j].crashId
    ensures |sorted| == |list| && forall g :: g in sorted <==> g in list
    ensures forall i, j :: 0 <= i < j < |sorted| ==> sorted[i].crashId != sorted[j].crashId
  {
    forall g ensures g in sorted <==> g in list {
      assert g in sorted <==> g in multiset(sorted);
      assert g in list <==> g in multiset(list);
    }
    assert |multiset(sorted)| == |multiset(list)|;
    var ids, sortedIds := Keys(list, CrashIdOf), Keys(sorted, CrashIdOf);
    PermutedKeys(sorted, list, CrashIdOf);
    forall i, j | 0 <= i < j < |ids| ensures ids[i] != ids[j] {
      KeyAt(list, CrashIdOf, i);
      KeyAt(list, CrashIdOf, j);
    }
    forall i, j | 0 <= i < j < |sorted| ensures sorted[i].crashId != sorted[j].crashId {
      KeyAt(sorted, CrashIdOf, i);
      KeyAt(sorted, CrashIdOf, j);
      if sortedIds[i] == sortedIds[j] {
        Repeated(sortedIds, i, j);
        NotRepeated(ids, sortedIds[i]);
      }
    }
  }

  method Analyze(summaries: seq<Summary>) returns (r: Analysis)
    ensures IsAnalysis(r, summaries)
  {
    var groups: map<string, Group> := map[];
    var order: seq<string> := [];
    var loose: map<string, set<string>> := map[];
    var modules: map<string, set<string>> := map[];
    var total := 0;
    for i := 0 to |summaries|
      invariant total == i && IsGrouping(groups, summaries[..i])
      invariant (forall id :: id in order <==> id in groups) && forall j, k :: 0 <= j < k < |order| ==> order[j] != order[k]
      invariant IsCollection(loose, id => LooseIds(summaries[..i], id))
      invariant IsCollection(modules, key => MentionIds(summaries[..i], key))
    {
      var s := summaries[i];
      total := total + 1;
      assert summaries[..i + 1] == summaries[..i] + [s];
      groups, order := AddToGroup(groups, order, s, summaries[..i]);
      loose := AddLoose(loose, s, summaries[..i]);
      modules := AddModules(modules, s, summaries[..i]);
    }
    assert summaries[..|summaries|] == summaries;
    var list := Listed(groups, order, summaries);
    BeforeStrictWeak();
    var sorted := Sort(list, Before);
    SortingKeepsDistinct(sorted, list);
    var cooc := CountSets(modules, key => MentionIds(summaries, key));
    var looseDistinct := CountSets(loose, id => LooseIds(summaries, id));
    r := Analysis(|order|, total, sorted, groups, looseDistinct, cooc);
  }

  // ----- Independence of the input order -----

  /** What of a group does not depend on which of its summaries came first. */
  datatype Row = Row(crashId: string, count: nat, firstSeen: int, lastSeen: int)

  function RowOf(g: Group): Row { Row(g.crashId, g.count, g.firstSeen, g.lastSeen) }

  function TalliedIf(t: Option<Tally>, s: Summary, id: string): Option<Tally> {
    if IdOf(s) == id then Tallied(t, s.crashTimeUnix) else t
  }

  lemma LastApart<T>(a: seq<T>, b: seq<T>)
    requires b != []
    ensures a + b == a + b[..|b| - 1] + [b[|b| - 1]]
  {
  }

  /** Two summaries may be tallied in either order. */
  lemma OneMoreLast(a: seq<Summary>, b: seq<Summary>, last: Summary, s: Summary, id: string)
    requires TallyOf(a, id) == TalliedIf(TallyOf(b, id), s, id)
    ensures TallyOf(a + [last], id) == TalliedIf(TallyOf(b + [last], id), s, id)
  {
    TallySnoc(a, last, id);
    TallySnoc(b, last, id);
  }

  /** A summary may as well come last. */
  lemma {:induction false} TallyMoves(before: seq<Summary>, s: Summary, after: seq<Summary>, id: string)
    ensures TallyOf(before + [s] + after, id) == TalliedIf(TallyOf(before + after, id), s, id)
    decreases |after|
  {
    if after == [] {
      assert before + [s] + after == before + [s] && before + after == before;
      TallySnoc(before, s, id);
    } else {
      var init, last := after[..|after| - 1], after[|after| - 1];
      TallyMoves(before, s, init, id);
      LastApart(before + [s], after);
      LastApart(before, after);
      OneMoreLast(before + [s] + init, before + init, last, s, id);
    }
  }

  lemma {:induction false} TallyOfPermutation(a: seq<Summary>, b: seq<Summary>, id: string)
    requires multiset(a) == multiset(b)
    ensures TallyOf(a, id) == TallyOf(b, id)
    decreases |a|
  {
    if a == [] {
      assert |multiset(a)| == |multiset(b)|;
    } else {
      var init, last := a[..|a| - 1], a[|a| - 1];
      assert a == init + [last];
      var i := WithoutOne(b, last);
      assert b == b[..i] + [last] + b[i + 1..];
      assert multiset(init) == multiset(a) - multiset{last};
      TallyOfPermutation(init, b[..i] + b[i + 1..], id);
      TallyMoves(b[..i], last, b[i + 1..], id);
    }
  }

  ghost predicate RowBefore(a: Row, b: Row) {
    if a.count != b.count then a.count > b.count
    else if a.lastSeen != b.lastSeen then a.lastSeen > b.lastSeen
    else Less(a.crashId, b.crashId)
  }

  /** Rows in order, no id twice. */
  ghost predicate Ranked(rows: seq<Row>) {
    forall i, j :: 0 <= i < j < |rows| ==> RowBefore(rows[i], rows[j])
  }

  lemma RowsAreRanked(r: Analysis, summaries: seq<Summary>)
    requires IsAnalysis(r, summaries)
    ensures Ranked(Keys(r.groups, RowOf))
  {
    var rows := Keys(r.groups, RowOf);
    forall i, j | 0 <= i < j < |rows| ensures RowBefore(rows[i], rows[j]) {
      KeyAt(r.groups, RowOf, i);
      KeyAt(r.groups, RowOf, j);
      assert !Before(r.groups[j], r.groups[i]);
      LessTotal(r.groups[i].crashId, r.groups[j].crashId);
    }
  }

  /** The list in plain terms: counts never grow, among equal counts the latest crash never gets later,
      and where both are equal the ids ascend. */
  lemma GroupsDescend(r: Analysis, summaries: seq<Summary>, i: nat, j: nat)
    requires IsAnalysis(r, summaries) && i < j < |r.groups|
    ensures var a, b := r.groups[i], r.groups[j];
      && a.count >= b.count
      && (a.count == b.count ==> a.lastSeen >= b.lastSeen)
      && (a.count == b.count && a.lastSeen == b.lastSeen ==> Less(a.crashId, b.crashId))
  {
    assert !Before(r.groups[j], r.groups[i]);
    LessTotal(r.groups[i].crashId, r.groups[j].crashId);
  }

  /** A reported group in plain terms. */
  lemma GroupsAreTallies(r: Analysis, summaries: seq<Summary>, g: Group)
    requires IsAnalysis(r, summaries) && g in r.groups
    ensures Tallies(Tally(g.count, g.firstSeen, g.lastSeen), summaries, g.crashId)
  {
    assert IsGroup(g, summaries, g.crashId);
    TallyMeans(summaries, g.crashId);
  }

  /** The summaries whose stack mentions a module, whatever its case. */
  ghost predicate OnStack(s: Summary, moduleKey: string) {
    exists m :: m in s.stackModules && m.Some? && Lower(m.value) == moduleKey
  }

  /** The co-occurrence counts the crash ids of every module that is not one of the four framework
      modules. */
  lemma CooccurrenceIsExact(r: Analysis, summaries: seq<Summary>, key: string)
    requires IsAnalysis(r, summaries)
    ensures var ids := set s | s in summaries && OnStack(s, key) :: IdOf(s);
      if key in ["redscope.dll", "red4ext.dll", "cyber_engine_tweaks.asi", "scc.dll"] || ids == {}
      then key !in r.cooccurrence
      else key in r.cooccurrence && r.cooccurrence[key] == |ids|
  {
    var ids := set s | s in summaries && OnStack(s, key) :: IdOf(s);
    var keyIds := k => MentionIds(summaries, k);
    assert IsCount(r.cooccurrence, keyIds);
    assert keyIds(key) == MentionIds(summaries, key);
    FrameworkIs(key);
    if key in FRAMEWORK_DLLS {
      assert MentionIds(summaries, key) == {};
    } else {
      assert MentionIds(summaries, key) == ids;
    }
  }

  /** The loose counts are those of the crash ids that share a loose id; an empty one counts for nothing. */
  lemma LooseCountsAreExact(r: Analysis, summaries: seq<Summary>, key: string)
    requires IsAnalysis(r, summaries)
    ensures var ids := set s | s in summaries && s.looseId == Some(key) :: IdOf(s);
      if key == "" || ids == {} then key !in r.looseCounts
      else key in r.looseCounts && r.looseCounts[key] == |ids|
  {
    var ids := set s | s in summaries && s.looseId == Some(key) :: IdOf(s);
    var looseIds := k => LooseIds(summaries, k);
    assert IsCount(r.looseCounts, looseIds);
    assert looseIds(key) == LooseIds(summaries, key);
    assert LooseIds(summaries, key) == if key == "" then {} else ids;
  }

  lemma FrameworkIs(key: string)
    ensures key in FRAMEWORK_DLLS <==> key in ["redscope.dll", "red4ext.dll", "cyber_engine_tweaks.asi", "scc.dll"]
  {
  }

  lemma RowMember(r: Analysis, summaries: seq<Summary>, row: Row)
    requires IsAnalysis(r, summaries)
    ensures row in Keys(r.groups, RowOf)
       <==> TallyOf(summaries, row.crashId) == Some(Tally(row.count, row.firstSeen, row.lastSeen))
  {
    var rows := Keys(r.groups, RowOf);
    if row in rows {
      var i :| 0 <= i < |rows| && rows[i] == row;
      KeyAt(r.groups, RowOf, i);
      assert r.groups[i] in r.groups;
      assert IsGroup(r.byCrashId[row.crashId], summaries, row.crashId);
    }
    if TallyOf(summaries, row.crashId) == Some(Tally(row.count, row.firstSeen, row.lastSeen)) {
      var g := r.byCrashId[row.crashId];
      assert IsGroup(g, summaries, row.crashId) && g in r.groups;
      var i :| 0 <= i < |r.groups| && r.groups[i] == g;
      KeyAt(r.groups, RowOf, i);
      assert rows[i] == row;
    }
  }

  /** Lists with the same rows in a strict order are the same list. */
  lemma {:induction false} RankedIsUnique(a: seq<Row>, b: seq<Row>)
    requires Ranked(a) && Ranked(b) && forall row :: row in a <==> row in b
    ensures a == b
    decreases |a|
  {
    HasMember(a);
    HasMember(b);
    if a != [] {
      SameHead(a, b);
      forall row ensures row in a[1..] <==> row in b[1..] {
        TailMembers(a, row);
        TailMembers(b, row);
      }
      RankedIsUnique(a[1..], b[1..]);
      assert a == [a[0]] + a[1..] && b == [b[0]] + b[1..];
    }
  }

  lemma HasMember(rows: seq<Row>)
    ensures rows != [] <==> exists row :: row in rows
  {
    if rows != [] { assert rows[0] in rows; }
  }

  lemma RowBeforeAsymmetric(a: Row, b: Row)
    ensures RowBefore(a, b) ==> !RowBefore(b, a) && a != b
  {
    LessAsymmetric(a.crashId, b.crashId);
  }

  lemma SameHead(a: seq<Row>, b: seq<Row>)
    requires a != [] && b != [] && Ranked(a) && Ranked(b) && forall row :: row in a <==> row in b
    ensures a[0] == b[0]
  {
    if a[0] != b[0] {
      assert a[0] in b && b[0] in a;
      var i :| 0 <= i < |b| && b[i] == a[0];
      var j :| 0 <= j < |a| && a[j] == b[0];
      assert RowBefore(b[0], b[i]) && RowBefore(a[0], a[j]);
      RowBeforeAsymmetric(a[0], b[0]);
    }
  }

  lemma TailMembers(rows: seq<Row>, row: Row)
    requires rows != [] && Ranked(rows)
    ensures row in rows[1..] <==> row in rows && row != rows[0]
  {
    assert rows == [rows[0]] + rows[1..];
    if row in rows[1..] {
      var i :| 0 <= i < |rows[1..]| && rows[1..][i] == row;
      assert RowBefore(rows[0], rows[i + 1]);
      RowBeforeAsymmetric(rows[0], row);
    }
  }

  lemma SameCounts(a: map<string, nat>, b: map<string, nat>, ids: string -> set<string>, jds: string -> set<string>)
    requires IsCount(a, ids) && IsCount(b, jds) && forall key :: ids(key) == jds(key)
    ensures a == b
  {
    forall key ensures key in a <==> key in b {
      assert ids(key) == jds(key);
      if key in a { assert ids(key) != {}; }
      if key in b { assert jds(key) != {}; }
    }
    assert a.Keys == b.Keys;
  }

  /** Analysing the same summaries in another order gives the same ranked list of ids with the
      same counts and times, the same co-occurrence, and the same loose counts. */
  lemma OrderDoesNotMatter(a: seq<Summary>, b: seq<Summary>, r: Analysis, q: Analysis)
    requires multiset(a) == multiset(b) && IsAnalysis(r, a) && IsAnalysis(q, b)
    ensures Keys(r.groups, RowOf) == Keys(q.groups, RowOf)
    ensures r.cooccurrence == q.cooccurrence && r.looseCounts == q.looseCounts
    ensures r.totalCount == q.totalCount && r.distinctCount == q.distinctCount
  {
    RowsAreRanked(r, a);
    RowsAreRanked(q, b);
    forall row ensures row in Keys(r.groups, RowOf) <==> row in Keys(q.groups, RowOf) {
      RowMember(r, a, row);
      RowMember(q, b, row);
      TallyOfPermutation(a, b, row.crashId);
    }
    RankedIsUnique(Keys(r.groups, RowOf), Keys(q.groups, RowOf));
    SameMembers(a, b);
    SameCounts(r.cooccurrence, q.cooccurrence, key => MentionIds(a, key), key => MentionIds(b, key));
    SameCounts(r.looseCounts, q.looseCounts, id => LooseIds(a, id), id => LooseIds(b, id));
  }

  // ----- The counts add up -----

  function CountOf(summaries: seq<Summary>, id: string): nat {
    var t := TallyOf(summaries, id);
    if t.None? then 0 else t.value.count
  }

  function SumOf(summaries: seq<Summary>, ids: seq<string>): nat {
    if ids == [] then 0 else SumOf(summaries, ids[..|ids| - 1]) + CountOf(summaries, ids[|ids| - 1])
  }

  lemma {:induction false} SumSnoc(summaries: seq<Summary>, s: Summary, ids: seq<string>)
    requires forall i, j :: 0 <= i < j < |ids| ==> ids[i] != ids[j]
    ensures SumOf(summaries + [s], ids) == SumOf(summaries, ids) + if IdOf(s) in ids then 1 else 0
  {
    if ids != [] {
      var init, last := ids[..|ids| - 1], ids[|ids| - 1];
      SumSnoc(summaries, s, init);
      TallySnoc(summaries, s, last);
      assert ids == init + [last];
    }
  }

  lemma {:induction false} SumIsTotal(summaries: seq<Summary>, ids: seq<string>)
    requires forall i, j :: 0 <= i < j < |ids| ==> ids[i] != ids[j]
    requires forall s :: s in summaries ==> IdOf(s) in ids
    ensures SumOf(summaries, ids) == |summaries|
    decreases |summaries|, |ids|
  {
    if summaries == [] {
      if ids != [] { SumIsTotal(summaries, ids[..|ids| - 1]); }
    } else {
      var init, last := summaries[..|summaries| - 1], summaries[|summaries| - 1];
      assert summaries == init + [last];
      SumIsTotal(init, ids);
      SumSnoc(init, last, ids);
    }
  }

  function TotalOf(groups: seq<Group>): nat {
    if groups == [] then 0 else TotalOf(groups[..|groups| - 1]) + groups[|groups| - 1].count
  }

  lemma {:induction false} TotalIsSum(groups: seq<Group>, ids: seq<string>, summaries: seq<Summary>)
    requires |ids| == |groups| && forall i :: 0 <= i < |ids| ==> groups[i].count == CountOf(summaries, ids[i])
    ensures TotalOf(groups) == SumOf(summaries, ids)
  {
    if groups != [] { TotalIsSum(groups[..|groups| - 1], ids[..|ids| - 1], summaries); }
  }

  lemma {:induction false} EveryIdTallied(summaries: seq<Summary>, s: Summary)
    requires s in summaries
    ensures TallyOf(summaries, IdOf(s)).Some?
  {
    var init, last := summaries[..|summaries| - 1], summaries[|summaries| - 1];
    assert summaries == init + [last];
    if s != last { EveryIdTallied(init, s); }
  }

  /** Every summary is counted in exactly one group. */
  lemma CountsAddUp(summaries: seq<Summary>, r: Analysis)
    requires IsAnalysis(r, summaries)
    ensures TotalOf(r.groups) == r.totalCount
  {
    var ids := Keys(r.groups, CrashIdOf);
    forall i | 0 <= i < |ids| ensures ids[i] == r.groups[i].crashId && r.groups[i].count == CountOf(summaries, ids[i]) {
      KeyAt(r.groups, CrashIdOf, i);
      assert r.groups[i] in r.groups;
      assert IsGroup(r.groups[i], summaries, ids[i]);
    }
    forall s | s in summaries ensures IdOf(s) in ids {
      EveryIdTallied(summaries, s);
      var g := r.byCrashId[IdOf(s)];
      assert IsGroup(g, summaries, IdOf(s)) && g in r.groups;
      var i :| 0 <= i < |r.groups| && r.groups[i] == g;
      assert ids[i] == IdOf(s);
    }
    TotalIsSum(r.groups, ids, summaries);
    SumIsTotal(summaries, ids);
  }
}
