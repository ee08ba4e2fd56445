/** The curated-conflict database of src/snapshot/CuratedConflicts.cpp: `FinalizeConflictDB` and
    `EvaluateConflicts`.

    Hash maps are visited in no particular order, so loops over them pick any remaining key. */
module CuratedConflicts {
  import opened Arithmetic
  import opened AsciiText
  import opened Order

  /** `archives` were lowered when the entry was loaded. */
  datatype ModEntry = ModEntry(archives: seq<string>, tags: seq<string>)

  type Mods = map<string, ModEntry>

  type Groups = seq<seq<string>>

  const PHANTOM_LIBERTY: string := "Phantom Liberty"
  const MAX_CONFLICT_GROUPS: nat := 64
  const MAX_MISSING_DEPS: nat := 64

  // ----- Keys of unordered pairs -----

  const SEP: char := 1 as char

  function PairKey(a: string, b: string): string {
    if Less(a, b) then a + [SEP] + b else b + [SEP] + a
  }

  predicate Clean(name: string) { SEP !in name }

  lemma PairKeySymmetric(a: string, b: string)
    ensures PairKey(a, b) == PairKey(b, a)
  {
    LessTotal(a, b);
    LessAsymmetric(a, b);
    LessAsymmetric(b, a);
  }

  lemma SplitAtSep(a: string, b: string, c: string, d: string)
    requires Clean(a) && Clean(c) && a + [SEP] + b == c + [SEP] + d
    ensures a == c && b == d
  {
    var s := a + [SEP] + b;
    assert forall i :: 0 <= i < |a| ==> s[i] == a[i] != SEP;
    assert forall i :: 0 <= i < |c| ==> s[i] == c[i] != SEP;
    assert s[|a|] == SEP && s[|c|] == (c + [SEP] + d)[|c|] == SEP;
    assert a == s[..|a|] && c == s[..|c|] && b == s[|a| + 1..] && d == s[|c| + 1..];
  }

  /** The key determines the pair, for names free of the separator. */
  lemma PairKeyDetermines(a: string, b: string, c: string, d: string)
    requires Clean(a) && Clean(b) && Clean(c) && Clean(d)
    ensures PairKey(a, b) == PairKey(c, d) <==> (a == c && b == d) || (a == d && b == c)
  {
    PairKeySymmetric(a, b);
    if PairKey(a, b) == PairKey(c, d) {
      var x, y := if Less(a, b) then a else b, if Less(a, b) then b else a;
      var z, w := if Less(c, d) then c else d, if Less(c, d) then d else c;
      SplitAtSep(x, y, z, w);
    }
  }

  /** Other names can collide. */
  lemma PairKeyCanCollide()
    ensures exists a, b, c, d :: PairKey(a, b) == PairKey(c, d) && a != c && a != d
  {
    var a, b, c, d := ['x', SEP, 'y'], ['z'], ['x'], ['y', SEP, 'z'];
    assert Less(a, b) && Less(c, d);
    assert a + [SEP] + b == c + [SEP] + d;
    assert PairKey(a, b) == PairKey(c, d) && a != c && a != d;
  }

  // ----- Lists -----

  function Filter<T>(s: seq<T>, keep: T -> bool): seq<T> {
    if s == [] then []
    else Filter(s[..|s| - 1], keep) + if keep(s[|s| - 1]) then [s[|s| - 1]] else []
  }

  lemma {:induction false} InFilter<T>(s: seq<T>, keep: T -> bool, x: T)
    ensures x in Filter(s, keep) <==> x in s && keep(x)
  {
    if s != [] {
      InFilter(s[..|s| - 1], keep, x);
      assert s == s[..|s| - 1] + [s[|s| - 1]];
    }
  }

  lemma FilterSnoc<T>(s: seq<T>, x: T, keep: T -> bool)
    ensures Filter(s + [x], keep) == Filter(s, keep) + if keep(x) then [x] else []
  {
    assert (s + [x])[..|s|] == s;
  }

  function Itself(s: string): string { s }

  /** A list as the sort leaves it. */
  ghost predicate Sorted(sorted: seq<string>, names: seq<string>) {
    IsSorting(sorted, names, ByKey(Itself))
  }

  method SortNames(names: seq<string>) returns (sorted: seq<string>)
    ensures Sorted(sorted, names)
  {
    ByKeyStrictWeak<string>(Itself);
    sorted := Sort(names, ByKey(Itself));
  }

  // ----- Finalising -----

  predicate HasTag(mods: Mods, m: string, tag: string) {
    m in mods && tag in mods[m].tags
  }

  /** The mods under each tag. */
  ghost predicate Tagged(groups: map<string, seq<string>>, mods: Mods) {
    forall tag, m :: (tag in groups && m in groups[tag]) <==> HasTag(mods, m, tag)
  }

  function Pushed(groups: map<string, seq<string>>, tag: string, name: string): map<string, seq<string>> {
    groups[tag := (if tag in groups then groups[tag] else []) + [name]]
  }

  method GroupByTag(mods: Mods) returns (groups: map<string, seq<string>>)
    ensures Tagged(groups, mods)
  {
    groups := map[];
    var left := mods.Keys;
    while left != {}
      invariant left <= mods.Keys
      invariant forall tag, m :: (tag in groups && m in groups[tag]) <==> HasTag(mods, m, tag) && m !in left
      decreases |left|
    {
      var name :| name in left;
      var tags := mods[name].tags;
      for i := 0 to |tags|
        invariant forall tag, m :: (tag in groups && m in groups[tag]) <==>
                    (HasTag(mods, m, tag) && m !in left) || (m == name && tag in tags[..i])
      {
        assert tags[..i + 1] == tags[..i] + [tags[i]];
        groups := Pushed(groups, tags[i], name);
      }
      assert tags[..|tags|] == tags;
      left := left - {name};
    }
  }

  /** The tags with at least two entries, sorted. */
  method SharedTags(groups: map<string, seq<string>>) returns (tags: seq<string>)
    ensures forall tag :: tag in tags <==> tag in groups && |groups[tag]| >= 2
  {
    var found: seq<string> := [];
    var left := groups.Keys;
    while left != {}
      invariant left <= groups.Keys
      invariant forall tag :: tag in found <==> tag in groups && tag !in left && |groups[tag]| >= 2
      decreases |left|
    {
      var tag :| tag in left;
      if |groups[tag]| >= 2 { found := found + [tag]; }
      left := left - {tag};
    }
    tags := SortNames(found);
    SameMembers(tags, found);
  }

  /** Appends the group of every shared tag. */
  method TagConflicts(groups: map<string, seq<string>>, tags: seq<string>) returns (added: Groups)
    requires forall tag :: tag in tags ==> tag in groups
    ensures |added| == |tags| && forall i :: 0 <= i < |tags| ==> Sorted(added[i], groups[tags[i]])
  {
    added := [];
    for i := 0 to |tags|
      invariant |added| == i && forall j :: 0 <= j < i ==> Sorted(added[j], groups[tags[j]])
    {
      var members := SortNames(groups[tags[i]]);
      added := added + [members];
    }
  }

  function Known(mods: Mods): string -> bool { m => m in mods }

  function KnownOrExpansion(mods: Mods): string -> bool { m => m == PHANTOM_LIBERTY || m in mods }

  /** The known members of every group that has at least two. */
  function Pruned(groups: Groups, mods: Mods): Groups {
    if groups == [] then []
    else
      var g := Filter(groups[|groups| - 1], Known(mods));
      Pruned(groups[..|groups| - 1], mods) + if |g| < 2 then [] else [g]
  }

  ghost predicate KnownPart(groups: Groups, mods: Mods, g: seq<string>) {
    exists h :: h in groups && g == Filter(h, Known(mods))
  }

  lemma KnownPartSnoc(groups: Groups, last: seq<string>, mods: Mods, g: seq<string>)
    ensures KnownPart(groups + [last], mods, g) <==> KnownPart(groups, mods, g) || g == Filter(last, Known(mods))
  {
    assert forall h :: h in groups + [last] <==> h in groups || h == last;
    if g == Filter(last, Known(mods)) { assert last in groups + [last]; }
  }

  lemma {:induction false} InPruned(groups: Groups, mods: Mods, g: seq<string>)
    ensures g in Pruned(groups, mods) <==> |g| >= 2 && KnownPart(groups, mods, g)
  {
    if groups != [] {
      var init, last := groups[..|groups| - 1], groups[|groups| - 1];
      InPruned(init, mods, g);
      assert groups == init + [last];
      KnownPartSnoc(init, last, mods, g);
    }
  }

  /** What finalising leaves of the dependencies. */
  function FinalDeps(deps: map<string, seq<string>>, mods: Mods): map<string, seq<string>> {
    map m | m in deps && m in mods && Filter(deps[m], KnownOrExpansion(mods)) != [] ::
      Filter(deps[m], KnownOrExpansion(mods))
  }

  lemma {:induction false} FilterCounts<T>(s: seq<T>, keep: T -> bool, x: T)
    ensures multiset(Filter(s, keep))[x] == if keep(x) then multiset(s)[x] else 0
  {
    if s != [] {
      FilterCounts(s[..|s| - 1], keep, x);
      assert s == s[..|s| - 1] + [s[|s| - 1]];
    }
  }

  /** A mod keeps its entry when it is known and requires something known, or the expansion; and it keeps
      exactly those requirements, each as often as it was listed. */
  lemma FinalDepsMean(deps: map<string, seq<string>>, mods: Mods, m: string)
    ensures m in FinalDeps(deps, mods) <==>
      m in mods && m in deps && exists r :: r in deps[m] && (r in mods || r == "Phantom Liberty")
    ensures m in FinalDeps(deps, mods) ==>
      forall r :: multiset(FinalDeps(deps, mods)[m])[r]
                  == if r in mods || r == "Phantom Liberty" then multiset(deps[m])[r] else 0
  {
    if m in deps {
      var kept := Filter(deps[m], KnownOrExpansion(mods));
      forall r
        ensures r in kept <==> r in deps[m] && (r in mods || r == "Phantom Liberty")
        ensures multiset(kept)[r] == if r in mods || r == "Phantom Liberty" then multiset(deps[m])[r] else 0
      {
        InFilter(deps[m], KnownOrExpansion(mods), r);
        FilterCounts(deps[m], KnownOrExpansion(mods), r);
      }
      if kept != [] { assert kept[0] in kept; }
    }
  }

  /** Two mods belong together: they share a tag, or stand in the same explicit group. */
  ghost predicate Related(conflicts: Groups, mods: Mods, a: string, b: string) {
    && a in mods && b in mods
    && ((exists tag :: HasTag(mods, a, tag) && HasTag(mods, b, tag))
        || exists g :: g in conflicts && a in g && b in g)
  }

  /** Groups hold exactly the relation: known mods only, and two different mods together if and
      only if they are related. */
  ghost predicate Finalized(loaded: Groups, conflicts: Groups, mods: Mods) {
    && (forall g, m :: g in conflicts && m in g ==> m in mods)
    && (forall a, b :: a != b ==> ((exists g :: g in conflicts && a in g && b in g) <==> Related(loaded, mods, a, b)))
  }

  /** While dependencies are pruned: a mod still to be looked at has its old entry, another its
      final one. */
  predicate DepsOf(deps: map<string, seq<string>>, before: map<string, seq<string>>, final: map<string, seq<string>>,
                   left: set<string>, m: string)
  {
    var from := if m in left then before else final;
    if m in from then m in deps && deps[m] == from[m] else m !in deps
  }

  ghost predicate AllDeps(deps: map<string, seq<string>>, before: map<string, seq<string>>,
                          final: map<string, seq<string>>, left: set<string>)
  {
    forall m :: DepsOf(deps, before, final, left, m)
  }

  /** Giving a mod its final entry, or none, finishes it. */
  lemma DepsDone(deps: map<string, seq<string>>, before: map<string, seq<string>>, final: map<string, seq<string>>,
                 left: set<string>, m: string)
    requires AllDeps(deps, before, final, left)
    ensures AllDeps(if m in final then deps[m := final[m]] else deps - {m}, before, final, left - {m})
  {
    var done := if m in final then deps[m := final[m]] else deps - {m};
    forall n ensures DepsOf(done, before, final, left - {m}, n) {
      assert DepsOf(deps, before, final, left, n);
    }
  }

  lemma SameDeps(deps: map<string, seq<string>>, before: map<string, seq<string>>, final: map<string, seq<string>>)
    requires AllDeps(deps, before, final, {})
    ensures deps == final
  {
    forall m ensures (m in deps <==> m in final) && (m in deps ==> deps[m] == final[m]) {
      assert DepsOf(deps, before, final, {}, m);
    }
  }

  class ConflictDB {
    var mods: Mods
    var dependencies: map<string, seq<string>>
    var conflicts: Groups
    var exceptions: Groups

    method FinalizeConflictDB()
      modifies this`dependencies, this`conflicts
      ensures Finalized(old(conflicts), conflicts, mods)
      ensures dependencies == FinalDeps(old(dependencies), mods)
    {
      var tagGroups := GroupByTag(mods);
      var tagNames := SharedTags(tagGroups);
      var added := TagConflicts(tagGroups, tagNames);
      ghost var explicit := conflicts;
      conflicts := conflicts + added;
      ghost var all := conflicts;
      conflicts := Pruned(conflicts, mods);
      GroupsAreFinal(explicit, added, tagGroups, tagNames, mods);
      PruneDependencies();
    }

    method PruneDependencies()
      modifies this`dependencies
      ensures dependencies == FinalDeps(old(dependencies), mods)
    {
      ghost var before := dependencies;
      var left := dependencies.Keys;
      while left != {}
        invariant left <= before.Keys && AllDeps(dependencies, before, FinalDeps(before, mods), left)
        decreases |left|
      {
        var m :| m in left;
        assert DepsOf(dependencies, before, FinalDeps(before, mods), left, m);
        DepsDone(dependencies, before, FinalDeps(before, mods), left, m);
        left := left - {m};
        if m !in mods {
          dependencies := dependencies - {m};
          continue;
        }
        var reqs := Filter(dependencies[m], KnownOrExpansion(mods));
        dependencies := if reqs == [] then dependencies - {m} else dependencies[m := reqs];
      }
      SameDeps(dependencies, before, FinalDeps(before, mods));
    }
  }

  lemma TogetherInPruned(groups: Groups, mods: Mods, a: string, b: string)
    requires a != b
    ensures (exists g :: g in Pruned(groups, mods) && a in g && b in g)
       <==> a in mods && b in mods && exists h :: h in groups && a in h && b in h
  {
    if exists g :: g in Pruned(groups, mods) && a in g && b in g {
      var g :| g in Pruned(groups, mods) && a in g && b in g;
      InPruned(groups, mods, g);
      var h :| h in groups && g == Filter(h, Known(mods));
      InFilter(h, Known(mods), a);
      InFilter(h, Known(mods), b);
    }
    if a in mods && b in mods && exists h :: h in groups && a in h && b in h {
      var h :| h in groups && a in h && b in h;
      var g := Filter(h, Known(mods));
      InFilter(h, Known(mods), a);
      InFilter(h, Known(mods), b);
      TwoMembers(g, a, b);
      InPruned(groups, mods, g);
    }
  }

  lemma TwoMembers(g: seq<string>, a: string, b: string)
    requires a in g && b in g && a != b
    ensures |g| >= 2
  {
    var i :| 0 <= i < |g| && g[i] == a;
    var j :| 0 <= j < |g| && g[j] == b;
    assert i != j;
  }

  /** Two mods stand together in an added group exactly when they share a tag. */
  lemma TogetherByTag(added: Groups, groups: map<string, seq<string>>, tags: seq<string>, mods: Mods, a: string, b: string)
    requires a != b && Tagged(groups, mods)
    requires forall tag :: tag in tags <==> tag in groups && |groups[tag]| >= 2
    requires |added| == |tags| && forall i :: 0 <= i < |tags| ==> Sorted(added[i], groups[tags[i]])
    ensures (exists g :: g in added && a in g && b in g) <==> exists tag :: HasTag(mods, a, tag) && HasTag(mods, b, tag)
  {
    if exists g :: g in added && a in g && b in g {
      var g :| g in added && a in g && b in g;
      var i :| 0 <= i < |added| && added[i] == g;
      SameMembers(g, groups[tags[i]]);
      assert HasTag(mods, a, tags[i]) && HasTag(mods, b, tags[i]);
    }
    if exists tag :: HasTag(mods, a, tag) && HasTag(mods, b, tag) {
      var tag :| HasTag(mods, a, tag) && HasTag(mods, b, tag);
      assert a in groups[tag] && b in groups[tag];
      TwoMembers(groups[tag], a, b);
      var i :| 0 <= i < |tags| && tags[i] == tag;
      SameMembers(added[i], groups[tag]);
      assert added[i] in added;
    }
  }

  lemma TogetherEither(x: Groups, y: Groups, a: string, b: string)
    ensures (exists g :: g in x + y && a in g && b in g)
       <==> (exists g :: g in x && a in g && b in g) || (exists g :: g in y && a in g && b in g)
  {
    assert forall g :: g in x + y <==> g in x || g in y;
  }

  lemma GroupsAreFinal(explicit: Groups, added: Groups, groups: map<string, seq<string>>, tags: seq<string>, mods: Mods)
    requires Tagged(groups, mods)
    requires forall tag :: tag in tags <==> tag in groups && |groups[tag]| >= 2
    requires |added| == |tags| && forall i :: 0 <= i < |tags| ==> Sorted(added[i], groups[tags[i]])
    ensures Finalized(explicit, Pruned(explicit + added, mods), mods)
  {
    var conflicts := Pruned(explicit + added, mods);
    forall g, m | g in conflicts && m in g ensures m in mods {
      InPruned(explicit + added, mods, g);
      var h :| h in explicit + added && g == Filter(h, Known(mods));
      InFilter(h, Known(mods), m);
    }
    forall a, b | a != b
      ensures (exists g :: g in conflicts && a in g && b in g) <==> Related(explicit, mods, a, b)
    {
      TogetherInPruned(explicit + added, mods, a, b);
      TogetherEither(explicit, added, a, b);
      TogetherByTag(added, groups, tags, mods, a, b);
    }
  }

  // ----- Evaluating -----

  datatype MissingDep = MissingDep(mod: string, required: seq<string>)

  datatype ArchiveConflicts = ArchiveConflicts(active: Groups, missingDeps: seq<MissingDep>, dbModCount: nat, truncated: nat)

  /** A mod is installed when one of its archives is, up to case. */
  ghost predicate Installed(mods: Mods, archives: seq<string>, m: string) {
    m in mods && exists a, b :: a in mods[m].archives && b in archives && a == Lower(b)
  }

  method LoweredSet(archives: seq<string>) returns (lowered: set<string>)
    ensures forall a :: a in lowered <==> exists b :: b in archives && a == Lower(b)
  {
    lowered := {};
    for i := 0 to |archives|
      invariant forall a :: a in lowered <==> exists b :: b in archives[..i] && a == Lower(b)
    {
      assert archives[..i + 1] == archives[..i] + [archives[i]];
      lowered := lowered + {Lower(archives[i])};
    }
    assert archives[..|archives|] == archives;
  }

  method AnyIn(archives: seq<string>, lowered: set<string>) returns (present: bool)
    ensures present <==> exists a :: a in archives && a in lowered
  {
    for i := 0 to |archives|
      invariant forall j :: 0 <= j < i ==> archives[j] !in lowered
    {
      if archives[i] in lowered { return true; }
    }
    present := false;
  }

  /** The installed mods of the database. */
  method InstalledMods(mods: Mods, archives: seq<string>) returns (installed: set<string>)
    ensures forall m :: m in installed <==> Installed(mods, archives, m)
  {
    var lowered := LoweredSet(archives);
    installed := {};
    var left := mods.Keys;
    while left != {}
      invariant left <= mods.Keys
      invariant forall m :: m in installed <==> m !in left && Installed(mods, archives, m)
      decreases |left|
    {
      var name :| name in left;
      var present := AnyIn(mods[name].archives, lowered);
      left := left - {name};
      assert present <==> Installed(mods, archives, name);
      if present { installed := installed + {name}; }
    }
  }

  /** The keys of all pairs in a group, up to row `i` and, in it, column `j`. */
  ghost predicate PairUpTo(g: seq<string>, i: nat, j: nat, key: string) {
    exists p, q :: 0 <= p < q < |g| && (p < i || (p == i && q < j)) && key == PairKey(g[p], g[q])
  }

  ghost predicate PairIn(g: seq<string>, key: string) {
    exists p, q :: 0 <= p < q < |g| && key == PairKey(g[p], g[q])
  }

  ghost predicate PairInAny(groups: Groups, key: string) {
    exists g :: g in groups && PairIn(g, key)
  }

  lemma PairStep(g: seq<string>, i: nat, j: nat, key: string)
    requires i < j < |g|
    ensures PairUpTo(g, i, j + 1, key) <==> PairUpTo(g, i, j, key) || key == PairKey(g[i], g[j])
  {
    if key == PairKey(g[i], g[j]) { assert i < j && (i < i || (i == i && j < j + 1)); }
  }

  lemma PairRow(g: seq<string>, i: nat, key: string)
    requires i < |g|
    ensures PairUpTo(g, i, |g|, key) <==> PairUpTo(g, i + 1, i + 2, key)
  {
  }

  method AddPairs(pairs: set<string>, g: seq<string>) returns (more: set<string>)
    ensures forall key :: key in more <==> key in pairs || PairIn(g, key)
  {
    more := pairs;
    for i := 0 to |g|
      invariant forall key :: key in more <==> key in pairs || PairUpTo(g, i, i + 1, key)
    {
      for j := i + 1 to |g|
        invariant forall key :: key in more <==> key in pairs || PairUpTo(g, i, j, key)
      {
        forall key { PairStep(g, i, j, key); }
        more := more + {PairKey(g[i], g[j])};
      }
      forall key { PairRow(g, i, key); }
    }
    forall key ensures PairUpTo(g, |g|, |g| + 1, key) <==> PairIn(g, key) {
    }
  }

  method ExceptedPairs(exceptions: Groups) returns (pairs: set<string>)
    ensures forall key :: key in pairs <==> PairInAny(exceptions, key)
  {
    pairs := {};
    for i := 0 to |exceptions|
      invariant forall key :: key in pairs <==> PairInAny(exceptions[..i], key)
    {
      assert exceptions[..i + 1] == exceptions[..i] + [exceptions[i]];
      assert forall g :: g in exceptions[..i + 1] <==> g in exceptions[..i] || g == exceptions[i];
      pairs := AddPairs(pairs, exceptions[i]);
    }
    assert exceptions[..|exceptions|] == exceptions;
  }

  /** `a` still conflicts with some other member. */
  predicate Conflicting(a: string, members: seq<string>, pairs: set<string>) {
    exists b :: b in members && a != b && PairKey(a, b) !in pairs
  }

  function Surviving(g: seq<string>, installed: set<string>, pairs: set<string>): seq<string> {
    var members := Filter(g, m => m in installed);
    Filter(members, a => Conflicting(a, members, pairs))
  }

  method StillConflicts(a: string, members: seq<string>, pairs: set<string>) returns (still: bool)
    ensures still == Conflicting(a, members, pairs)
  {
    for i := 0 to |members|
      invariant forall j :: 0 <= j < i ==> a == members[j] || PairKey(a, members[j]) in pairs
    {
      if a != members[i] && PairKey(a, members[i]) !in pairs { return true; }
    }
    still := false;
  }

  method Survivors(g: seq<string>, installed: set<string>, pairs: set<string>) returns (survivors: seq<string>)
    ensures survivors == Surviving(g, installed, pairs)
  {
    var members: seq<string> := [];
    for i := 0 to |g|
      invariant members == Filter(g[..i], m => m in installed)
    {
      assert g[..i + 1] == g[..i] + [g[i]];
      FilterSnoc(g[..i], g[i], m => m in installed);
      if g[i] in installed { members := members + [g[i]]; }
    }
    assert g[..|g|] == g;
    survivors := [];
    if |members| < 2 {
      FewSurvive(members, pairs);
      return;
    }
    ghost var keep := a => Conflicting(a, members, pairs);
    for i := 0 to |members|
      invariant survivors == Filter(members[..i], keep)
    {
      assert members[..i + 1] == members[..i] + [members[i]];
      FilterSnoc(members[..i], members[i], keep);
      var still := StillConflicts(members[i], members, pairs);
      if still { survivors := survivors + [members[i]]; }
    }
    assert members[..|members|] == members;
  }

  lemma FewSurvive(members: seq<string>, pairs: set<string>)
    requires |members| < 2
    ensures Filter(members, a => Conflicting(a, members, pairs)) == []
  {
    if |members| == 1 {
      assert members[..0] == [];
      assert !Conflicting(members[0], members, pairs);
    }
  }

  /** Survivors come in pairs: a survivor's partner survives too. */
  lemma SurvivorsArePaired(g: seq<string>, installed: set<string>, pairs: set<string>, a: string)
    requires a in Surviving(g, installed, pairs)
    ensures a in g && a in installed
    ensures exists b :: b in Surviving(g, installed, pairs) && a != b && PairKey(a, b) !in pairs
  {
    var members := Filter(g, m => m in installed);
    var keep := x => Conflicting(x, members, pairs);
    InFilter(members, keep, a);
    InFilter(g, m => m in installed, a);
    var b :| b in members && a != b && PairKey(a, b) !in pairs;
    PairKeySymmetric(a, b);
    assert Conflicting(b, members, pairs);
    InFilter(members, keep, b);
  }

  lemma ConflictsSurvive(g: seq<string>, installed: set<string>, pairs: set<string>, a: string, b: string)
    requires a in g && b in g && a in installed && b in installed && a != b && PairKey(a, b) !in pairs
    ensures a in Surviving(g, installed, pairs) && b in Surviving(g, installed, pairs)
  {
    var members := Filter(g, m => m in installed);
    InFilter(g, m => m in installed, a);
    InFilter(g, m => m in installed, b);
    PairKeySymmetric(a, b);
    assert Conflicting(a, members, pairs) && Conflicting(b, members, pairs);
    InFilter(members, x => Conflicting(x, members, pairs), a);
    InFilter(members, x => Conflicting(x, members, pairs), b);
  }

  lemma SurvivorsAreNoneOrTwo(g: seq<string>, installed: set<string>, pairs: set<string>)
    ensures var s := Surviving(g, installed, pairs); s == [] || exists a, b :: a in s && b in s && a != b
  {
    var s := Surviving(g, installed, pairs);
    if s != [] {
      SurvivorsArePaired(g, installed, pairs, s[0]);
      var b :| b in s && s[0] != b && PairKey(s[0], b) !in pairs;
      assert s[0] in s && b in s && s[0] != b;
    }
  }

  function SurvivingGroups(conflicts: Groups, installed: set<string>, pairs: set<string>): Groups {
    if conflicts == [] then []
    else
      var s := Surviving(conflicts[|conflicts| - 1], installed, pairs);
      SurvivingGroups(conflicts[..|conflicts| - 1], installed, pairs) + if |s| >= 2 then [s] else []
  }

  ghost predicate SortedEach(active: Groups, groups: Groups) {
    |active| <= |groups| && forall k :: 0 <= k < |active| ==> Sorted(active[k], groups[k])
  }

  /** The first groups, sorted, and how many there were beyond the limit. */
  method ActiveGroups(conflicts: Groups, installed: set<string>, pairs: set<string>) returns (active: Groups, dropped: nat)
    ensures var groups := SurvivingGroups(conflicts, installed, pairs);
      && |active| == Min(MAX_CONFLICT_GROUPS, |groups|) && dropped == |groups| - |active|
      && SortedEach(active, groups)
  {
    active, dropped := [], 0;
    for i := 0 to |conflicts|
      invariant var groups := SurvivingGroups(conflicts[..i], installed, pairs);
        && |active| == Min(MAX_CONFLICT_GROUPS, |groups|) && dropped == |groups| - |active|
        && SortedEach(active, groups)
    {
      assert conflicts[..i + 1][..i] == conflicts[..i];
      var survivors := Survivors(conflicts[i], installed, pairs);
      if |survivors| >= 2 {
        if |active| >= MAX_CONFLICT_GROUPS { dropped := dropped + 1; continue; }
        survivors := SortNames(survivors);
        active := active + [survivors];
      }
    }
    assert conflicts[..|conflicts|] == conflicts;
  }

  lemma {:induction false} InSurvivingGroups(conflicts: Groups, installed: set<string>, pairs: set<string>, g: seq<string>)
    ensures g in SurvivingGroups(conflicts, installed, pairs)
       <==> |g| >= 2 && exists c :: c in conflicts && g == Surviving(c, installed, pairs)
  {
    if conflicts != [] {
      var init, last := conflicts[..|conflicts| - 1], conflicts[|conflicts| - 1];
      InSurvivingGroups(init, installed, pairs, g);
      assert conflicts == init + [last];
      assert forall c :: c in conflicts <==> c in init || c == last;
      if g == Surviving(last, installed, pairs) { assert last in conflicts; }
      if c :| c in init && g == Surviving(c, installed, pairs) { assert c in conflicts; }
    }
  }

  // ----- Missing dependencies -----

  type Deps = map<string, seq<string>>

  /** A finalised database, the installed archives, and what is known of the expansion. */
  datatype Query = Query(mods: Mods, dependencies: Deps, conflicts: Groups, exceptions: Groups,
                         archives: seq<string>, isEP1: bool, engineReadValid: bool)

  predicate IsUnmet(r: string, q: Query, installed: set<string>) {
    if r == PHANTOM_LIBERTY then q.engineReadValid && !q.isEP1 else r !in installed
  }

  /** What a mod of the database requires and does not find. */
  function Unmet(m: string, q: Query, installed: set<string>): seq<string> {
    if m in q.dependencies then Filter(q.dependencies[m], r => IsUnmet(r, q, installed)) else []
  }

  /** What counts as missing: a required mod that is not installed, and the expansion only when the engine
      was read and said that it is not there. */
  lemma UnmetMeans(m: string, q: Query, installed: set<string>, r: string)
    ensures r in Unmet(m, q, installed) <==>
      && m in q.dependencies && r in q.dependencies[m]
      && if r == "Phantom Liberty" then q.engineReadValid && !q.isEP1 else r !in installed
  {
    if m in q.dependencies { InFilter(q.dependencies[m], x => IsUnmet(x, q, installed), r); }
  }

  method UnmetOf(m: string, q: Query, installed: set<string>) returns (unmet: seq<string>)
    requires m in q.dependencies
    ensures unmet == Unmet(m, q, installed)
  {
    unmet := [];
    var reqs := q.dependencies[m];
    ghost var keep := r => IsUnmet(r, q, installed);
    for i := 0 to |reqs|
      invariant unmet == Filter(reqs[..i], keep)
    {
      assert reqs[..i + 1][..i] == reqs[..i];
      var met: bool;
      if reqs[i] == PHANTOM_LIBERTY {
        if !q.engineReadValid { continue; }
        met := q.isEP1;
      } else {
        met := reqs[i] in installed;
      }
      if !met { unmet := unmet + [reqs[i]]; }
    }
    assert reqs[..|reqs|] == reqs;
  }

  predicate Needy(m: string, q: Query, installed: set<string>) {
    m in installed && Unmet(m, q, installed) != []
  }

  /** An entry lists everything its installed mod is missing. */
  ghost predicate IsMissing(e: MissingDep, q: Query, installed: set<string>) {
    Needy(e.mod, q, installed) && Sorted(e.required, Unmet(e.mod, q, installed))
  }

  ghost predicate DistinctMods(missing: seq<MissingDep>) {
    forall i, j :: 0 <= i < j < |missing| ==> missing[i].mod != missing[j].mod
  }

  ghost function NeedyAmong(mods: set<string>, q: Query, installed: set<string>): set<string> {
    set m | m in mods && Needy(m, q, installed)
  }

  ghost predicate AllMissing(missing: seq<MissingDep>, mods: set<string>, q: Query, installed: set<string>) {
    forall e :: e in missing ==> e.mod in mods && IsMissing(e, q, installed)
  }

  /** There is an entry for each of these mods. */
  ghost predicate Names(missing: seq<MissingDep>, mods: set<string>) {
    forall m :: m in mods ==> exists e :: e in missing && e.mod == m
  }

  /** One entry for each needy mod among some, up to the limit, the others counted. */
  ghost predicate MissingAmong(missing: seq<MissingDep>, dropped: nat, mods: set<string>, q: Query, installed: set<string>) {
    && AllMissing(missing, mods, q, installed)
    && DistinctMods(missing) && |missing| <= MAX_MISSING_DEPS && (dropped > 0 ==> |missing| == MAX_MISSING_DEPS)
    && |missing| + dropped == |NeedyAmong(mods, q, installed)|
    && (dropped == 0 ==> Names(missing, NeedyAmong(mods, q, installed)))
  }

  method MissingDeps(q: Query, installed: set<string>) returns (missing: seq<MissingDep>, dropped: nat)
    ensures MissingAmong(missing, dropped, q.dependencies.Keys, q, installed)
  {
    missing, dropped := [], 0;
    var left := q.dependencies.Keys;
    while left != {}
      invariant left <= q.dependencies.Keys
      invariant MissingAmong(missing, dropped, q.dependencies.Keys - left, q, installed)
      decreases |left|
    {
      var m :| m in left;
      ghost var seen := q.dependencies.Keys - left;
      left := left - {m};
      assert q.dependencies.Keys - left == seen + {m};
      OneMore(seen, m, q, installed);
      if m !in installed { continue; }
      var unmet := UnmetOf(m, q, installed);
      if unmet != [] {
        if |missing| >= MAX_MISSING_DEPS { dropped := dropped + 1; continue; }
        unmet := SortNames(unmet);
        Appended(missing, dropped, MissingDep(m, unmet), seen, q, installed);
        missing := missing + [MissingDep(m, unmet)];
      }
    }
    assert q.dependencies.Keys - left == q.dependencies.Keys;
  }

  lemma OneMore(seen: set<string>, m: string, q: Query, installed: set<string>)
    requires m !in seen
    ensures NeedyAmong(seen + {m}, q, installed)
         == NeedyAmong(seen, q, installed) + if Needy(m, q, installed) then {m} else {}
    ensures |NeedyAmong(seen + {m}, q, installed)|
         == |NeedyAmong(seen, q, installed)| + if Needy(m, q, installed) then 1 else 0
  {
    assert NeedyAmong(seen + {m}, q, installed)
        == NeedyAmong(seen, q, installed) + if Needy(m, q, installed) then {m} else {};
  }

  lemma Appended(missing: seq<MissingDep>, dropped: nat, e: MissingDep, seen: set<string>, q: Query, installed: set<string>)
    requires MissingAmong(missing, dropped, seen, q, installed)
    requires |missing| < MAX_MISSING_DEPS && e.mod !in seen && IsMissing(e, q, installed)
    ensures MissingAmong(missing + [e], dropped, seen + {e.mod}, q, installed)
  {
    OneMore(seen, e.mod, q, installed);
    AppendedMissing(missing, e, seen, q, installed);
    AppendedDistinct(missing, e, seen, q, installed);
    if dropped == 0 { AppendedNames(missing, e, NeedyAmong(seen, q, installed)); }
  }

  lemma AppendedMissing(missing: seq<MissingDep>, e: MissingDep, seen: set<string>, q: Query, installed: set<string>)
    requires AllMissing(missing, seen, q, installed) && IsMissing(e, q, installed)
    ensures AllMissing(missing + [e], seen + {e.mod}, q, installed)
  {
  }

  lemma AppendedDistinct(missing: seq<MissingDep>, e: MissingDep, seen: set<string>, q: Query, installed: set<string>)
    requires AllMissing(missing, seen, q, installed) && DistinctMods(missing) && e.mod !in seen
    ensures DistinctMods(missing + [e])
  {
    forall i | 0 <= i < |missing| ensures missing[i].mod != e.mod {
      assert missing[i] in missing;
    }
  }

  lemma AppendedNames(missing: seq<MissingDep>, e: MissingDep, mods: set<string>)
    requires Names(missing, mods)
    ensures Names(missing + [e], mods + {e.mod})
  {
    forall m | m in mods + {e.mod} ensures exists x :: x in missing + [e] && x.mod == m {
      if m == e.mod {
        assert e in missing + [e];
      } else {
        var x :| x in missing && x.mod == m;
        assert x in missing + [e];
      }
    }
  }

  function ModOf(e: MissingDep): string { e.mod }

  // ----- The evaluation -----

  /** What the loops have found before the final sorts: the installed mods, the keys of excepted
      pairs, the groups kept, the entries kept and how many entries were not. */
  datatype Findings = Findings(installed: set<string>, pairs: set<string>, active: Groups,
                               missing: seq<MissingDep>, droppedDeps: nat)

  method EvaluateConflicts(q: Query) returns (r: ArchiveConflicts, ghost f: Findings)
    ensures Found(f, q) && Reported(r, f, q)
    ensures |r.active| <= 64 && |r.missingDeps| <= 64 && r.dbModCount == |q.mods|
  {
    var installed := InstalledMods(q.mods, q.archives);
    var pairs := ExceptedPairs(q.exceptions);
    var active, droppedGroups := ActiveGroups(q.conflicts, installed, pairs);
    var missing, droppedDeps := MissingDeps(q, installed);
    f := Findings(installed, pairs, active, missing, droppedDeps);
    LessListStrictWeak();
    ByKeyStrictWeak(ModOf);
    var sortedActive := Sort(active, LessList);
    var sortedMissing := Sort(missing, ByKey(ModOf));
    assert |multiset(sortedActive)| == |multiset(active)| && |multiset(sortedMissing)| == |multiset(missing)|;
    r := ArchiveConflicts(sortedActive, sortedMissing, |q.mods|, droppedGroups + droppedDeps);
  }

  /** The findings are right. */
  ghost predicate Found(f: Findings, q: Query) {
    && (forall m :: m in f.installed <==> Installed(q.mods, q.archives, m))
    && (forall key :: key in f.pairs <==> PairInAny(q.exceptions, key))
    && KeptGroups(f.active, SurvivingGroups(q.conflicts, f.installed, f.pairs))
    && MissingAmong(f.missing, f.droppedDeps, q.dependencies.Keys, q, f.installed)
  }

  ghost predicate KeptGroups(active: Groups, groups: Groups) {
    |active| == Min(MAX_CONFLICT_GROUPS, |groups|) && SortedEach(active, groups)
  }

  /** The report lists the findings in order and counts what both limits left out. */
  ghost predicate Reported(r: ArchiveConflicts, f: Findings, q: Query) {
    && IsSorting(r.active, f.active, LessList) && IsSorting(r.missingDeps, f.missing, ByKey(ModOf))
    && r.truncated == |SurvivingGroups(q.conflicts, f.installed, f.pairs)| - |f.active| + f.droppedDeps
  }

  // ----- What is reported -----

  lemma SourceOf(r: ArchiveConflicts, f: Findings, q: Query, g: seq<string>) returns (c: seq<string>)
    requires Found(f, q) && Reported(r, f, q) && g in r.active
    ensures c in q.conflicts && |g| >= 2 && multiset(g) == multiset(Surviving(c, f.installed, f.pairs))
  {
    var groups := SurvivingGroups(q.conflicts, f.installed, f.pairs);
    SameMembers(r.active, f.active);
    var k :| 0 <= k < |f.active| && f.active[k] == g;
    InSurvivingGroups(q.conflicts, f.installed, f.pairs, groups[k]);
    c :| c in q.conflicts && groups[k] == Surviving(c, f.installed, f.pairs);
    assert |multiset(g)| == |multiset(groups[k])|;
  }

  /** Every reported group comes from one conflict group, lists installed mods only, and gives each
      of them a partner that no exception pairs it with; so it names at least two mods. */
  lemma ReportedGroupsAreConflicts(r: ArchiveConflicts, f: Findings, q: Query, g: seq<string>)
    requires Found(f, q) && Reported(r, f, q) && g in r.active
    ensures g != [] && exists c :: c in q.conflicts && forall a :: a in g ==> a in c
    ensures forall a :: a in g ==> Installed(q.mods, q.archives, a)
                                   && exists b :: b in g && a != b && !PairInAny(q.exceptions, PairKey(a, b))
  {
    var c := SourceOf(r, f, q, g);
    forall a | a in g
      ensures a in c && Installed(q.mods, q.archives, a)
      ensures exists b :: b in g && a != b && !PairInAny(q.exceptions, PairKey(a, b))
    {
      ReportedMember(f, q, c, g, a);
    }
  }

  lemma ReportedMember(f: Findings, q: Query, c: seq<string>, g: seq<string>, a: string)
    requires Found(f, q) && multiset(g) == multiset(Surviving(c, f.installed, f.pairs)) && a in g
    ensures a in c && Installed(q.mods, q.archives, a)
    ensures exists b :: b in g && a != b && !PairInAny(q.exceptions, PairKey(a, b))
  {
    var s := Surviving(c, f.installed, f.pairs);
    SameMembers(g, s);
    SurvivorsArePaired(c, f.installed, f.pairs, a);
    var b :| b in s && a != b && PairKey(a, b) !in f.pairs;
  }

  /** When nothing was truncated, two installed mods of one conflict group that no exception pairs
      are reported together. */
  lemma ConflictsAreReported(r: ArchiveConflicts, f: Findings, q: Query, c: seq<string>, a: string, b: string)
    requires Found(f, q) && Reported(r, f, q) && r.truncated == 0
    requires c in q.conflicts && a in c && b in c && a != b
    requires Installed(q.mods, q.archives, a) && Installed(q.mods, q.archives, b)
    requires !PairInAny(q.exceptions, PairKey(a, b))
    ensures exists g :: g in r.active && a in g && b in g
  {
    var groups := SurvivingGroups(q.conflicts, f.installed, f.pairs);
    var s := Surviving(c, f.installed, f.pairs);
    ConflictsSurvive(c, f.installed, f.pairs, a, b);
    TwoMembers(s, a, b);
    InSurvivingGroups(q.conflicts, f.installed, f.pairs, s);
    var k :| 0 <= k < |groups| && groups[k] == s;
    var g := f.active[k];
    assert Sorted(g, s) && g in f.active;
    SameMembers(g, s);
    SameMembers(r.active, f.active);
  }

  /** Every reported missing dependency is one, and when nothing was truncated they all are
      reported. */
  lemma MissingDepsAreExact(r: ArchiveConflicts, f: Findings, q: Query)
    requires Found(f, q) && Reported(r, f, q)
    ensures forall e :: e in r.missingDeps ==> IsMissing(e, q, f.installed)
    ensures r.truncated == 0 ==> forall m :: Needy(m, q, f.installed) ==> exists e :: e in r.missingDeps && e.mod == m
  {
    SameMembers(r.missingDeps, f.missing);
    forall m | r.truncated == 0 && Needy(m, q, f.installed) ensures exists e :: e in r.missingDeps && e.mod == m {
      assert m in NeedyAmong(q.dependencies.Keys, q, f.installed);
      var e :| e in f.missing && e.mod == m;
      assert e in r.missingDeps;
    }
  }

  /** Something is left out only where one of the lists is full, with 64 entries. */
  lemma TruncatedOnlyWhenFull(r: ArchiveConflicts, f: Findings, q: Query)
    requires Found(f, q) && Reported(r, f, q)
    ensures |r.active| <= 64 && |r.missingDeps| <= 64
    ensures r.truncated > 0 ==> |r.active| == 64 || |r.missingDeps| == 64
  {
    assert |multiset(r.active)| == |multiset(f.active)| && |multiset(r.missingDeps)| == |multiset(f.missing)|;
  }

  ghost predicate AllClean(groups: Groups) {
    forall g, m :: g in groups && m in g ==> Clean(m)
  }

  lemma ListedTogetherIsPaired(g: seq<string>, a: string, b: string)
    requires a in g && b in g && a != b
    ensures PairIn(g, PairKey(a, b))
  {
    var p :| 0 <= p < |g| && g[p] == a;
    var q :| 0 <= q < |g| && g[q] == b;
    PairKeySymmetric(a, b);
    var lo, hi := if p < q then p else q, if p < q then q else p;
    assert lo < hi && PairKey(a, b) == PairKey(g[lo], g[hi]);
  }

  lemma PairedIsListedTogether(g: seq<string>, a: string, b: string)
    requires Clean(a) && Clean(b) && (forall m :: m in g ==> Clean(m)) && PairIn(g, PairKey(a, b))
    ensures a in g && b in g
  {
    var p, q :| 0 <= p < q < |g| && PairKey(a, b) == PairKey(g[p], g[q]);
    assert g[p] in g && g[q] in g;
    PairKeyDetermines(a, b, g[p], g[q]);
  }

  /** For clean names an exception pairs two mods exactly when some exception group lists both. */
  lemma ExceptionMeansListedTogether(exceptions: Groups, a: string, b: string)
    requires AllClean(exceptions) && Clean(a) && Clean(b) && a != b
    ensures PairInAny(exceptions, PairKey(a, b)) <==> exists g :: g in exceptions && a in g && b in g
  {
    if PairInAny(exceptions, PairKey(a, b)) {
      var g :| g in exceptions && PairIn(g, PairKey(a, b));
      PairedIsListedTogether(g, a, b);
    }
    if exists g :: g in exceptions && a in g && b in g {
      var g :| g in exceptions && a in g && b in g;
      ListedTogetherIsPaired(g, a, b);
    }
  }

  /** From the loaded database to the report: two different installed mods that share a tag or an
      explicit group, and that no exception group lists together, are reported together, unless the
      report was truncated. */
  lemma RelatedModsAreReported(r: ArchiveConflicts, f: Findings, q: Query, loaded: Groups, a: string, b: string)
    requires Finalized(loaded, q.conflicts, q.mods) && Found(f, q) && Reported(r, f, q) && r.truncated == 0
    requires AllClean(q.exceptions) && Clean(a) && Clean(b) && a != b && Related(loaded, q.mods, a, b)
    requires Installed(q.mods, q.archives, a) && Installed(q.mods, q.archives, b)
    requires !exists e :: e in q.exceptions && a in e && b in e
    ensures exists g :: g in r.active && a in g && b in g
  {
    ExceptionMeansListedTogether(q.exceptions, a, b);
    var c :| c in q.conflicts && a in c && b in c;
    ConflictsAreReported(r, f, q, c, a, b);
  }
}
