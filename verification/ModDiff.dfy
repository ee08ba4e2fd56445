/** The mod-list diff of src/snapshot/SessionHistory.cpp. */
module ModDiff {
  import opened Order

  datatype Mod = Mod(name: string, version: string)

  datatype Diff = Diff(added: seq<Mod>, updated: seq<(Mod, Mod)>, removed: seq<Mod>)

  const NO_CHANGE := Diff([], [], [])

  function NameOf(m: Mod): string { m.name }

  function Names(mods: seq<Mod>): seq<string> { Keys(mods, NameOf) }

  ghost predicate ByName(mods: seq<Mod>) {
    forall i, j :: 0 <= i < j < |mods| ==> !Less(mods[j].name, mods[i].name)
  }

  /** A list as the sort may leave it: mods of the same name in any order. */
  ghost predicate Sorting(sorted: seq<Mod>, mods: seq<Mod>) {
    ByName(sorted) && multiset(sorted) == multiset(mods)
  }

  method SortByName(mods: seq<Mod>) returns (sorted: seq<Mod>)
    ensures Sorting(sorted, mods)
  {
    ByKeyStrictWeak<Mod>(NameOf);
    sorted := Sort(mods, ByKey(NameOf));
    forall i, j | 0 <= i < j < |sorted| ensures !Less(sorted[j].name, sorted[i].name) {
      ByKeyMeans(NameOf, sorted[j], sorted[i]);
    }
  }

  // ----- The merge -----

  function Then(a: Diff, b: Diff): Diff {
    Diff(a.added + b.added, a.updated + b.updated, a.removed + b.removed)
  }

  /** What one round of the loops reports, and how many mods it takes from either list. */
  function Round(a: seq<Mod>, b: seq<Mod>): (r: (Diff, nat, nat))
    requires a != [] || b != []
    ensures r.1 <= |a| && r.2 <= |b| && r.1 + r.2 > 0
  {
    if b == [] then (if a[0].name == "" then NO_CHANGE else Diff([], [], [a[0]]), 1, 0)
    else if a == [] then (if b[0].name == "" then NO_CHANGE else Diff([b[0]], [], []), 0, 1)
    else if a[0].name == "" then (NO_CHANGE, 1, 0)
    else if b[0].name == "" then (NO_CHANGE, 0, 1)
    else if Less(a[0].name, b[0].name) then (Diff([], [], [a[0]]), 1, 0)
    else if Less(b[0].name, a[0].name) then (Diff([b[0]], [], []), 0, 1)
    else (if a[0].version != b[0].version then Diff([], [(a[0], b[0])], []) else NO_CHANGE, 1, 1)
  }

  function Merge(a: seq<Mod>, b: seq<Mod>): Diff
    decreases |a| + |b|
  {
    if a == [] && b == [] then NO_CHANGE
    else var (d, i, j) := Round(a, b); Then(d, Merge(a[i..], b[j..]))
  }

  lemma ThenAssociates(a: Diff, b: Diff, c: Diff)
    ensures Then(Then(a, b), c) == Then(a, Then(b, c))
  {
  }

  lemma ThenNothing(a: Diff)
    ensures Then(a, NO_CHANGE) == a == Then(NO_CHANGE, a)
  {
  }

  lemma MergeRound(before: Diff, a: seq<Mod>, b: seq<Mod>)
    requires a != [] || b != []
    ensures var (d, i, j) := Round(a, b); Then(before, Merge(a, b)) == Then(Then(before, d), Merge(a[i..], b[j..]))
  {
    var (d, i, j) := Round(a, b);
    ThenAssociates(before, d, Merge(a[i..], b[j..]));
  }

  /** The same at positions in two lists. */
  lemma MergeStep(before: Diff, a: seq<Mod>, b: seq<Mod>, i: nat, j: nat)
    requires i <= |a| && j <= |b| && (i < |a| || j < |b|)
    ensures var (d, p, q) := Round(a[i..], b[j..]);
      Then(before, Merge(a[i..], b[j..])) == Then(Then(before, d), Merge(a[i + p..], b[j + q..]))
  {
    var (d, p, q) := Round(a[i..], b[j..]);
    MergeRound(before, a[i..], b[j..]);
    assert a[i..][p..] == a[i + p..] && b[j..][q..] == b[j + q..];
  }

  function Removing(before: Diff, m: Mod): Diff {
    if m.name == "" then before else Then(before, Diff([], [], [m]))
  }

  function Adding(before: Diff, m: Mod): Diff {
    if m.name == "" then before else Then(before, Diff([m], [], []))
  }

  lemma RemovingRound(before: Diff, a: seq<Mod>, i: nat)
    requires i < |a|
    ensures Then(before, Merge(a[i..], [])) == Then(Removing(before, a[i]), Merge(a[i + 1..], []))
  {
    MergeStep(before, a, [], i, 0);
    ThenNothing(before);
  }

  lemma AddingRound(before: Diff, b: seq<Mod>, j: nat)
    requires j < |b|
    ensures Then(before, Merge([], b[j..])) == Then(Adding(before, b[j]), Merge([], b[j + 1..]))
  {
    MergeStep(before, [], b, 0, j);
    ThenNothing(before);
  }

  /** The second loop: what is left of the prior list was removed. */
  method FlushRemoved(a: seq<Mod>, from: nat, before: Diff) returns (diff: Diff)
    requires from <= |a|
    ensures diff == Then(before, Merge(a[from..], []))
  {
    diff := before;
    var i := from;
    while i < |a|
      invariant i <= |a| && Then(before, Merge(a[from..], [])) == Then(diff, Merge(a[i..], []))
    {
      RemovingRound(diff, a, i);
      if a[i].name != "" { diff := Then(diff, Diff([], [], [a[i]])); }
      i := i + 1;
    }
    ThenNothing(diff);
  }

  /** The third loop: what is left of the current list was added. */
  method FlushAdded(b: seq<Mod>, from: nat, before: Diff) returns (diff: Diff)
    requires from <= |b|
    ensures diff == Then(before, Merge([], b[from..]))
  {
    diff := before;
    var j := from;
    while j < |b|
      invariant j <= |b| && Then(before, Merge([], b[from..])) == Then(diff, Merge([], b[j..]))
    {
      AddingRound(diff, b, j);
      if b[j].name != "" { diff := Then(diff, Diff([b[j]], [], [])); }
      j := j + 1;
    }
    ThenNothing(diff);
  }

  /** The two loops after one list has run out. */
  method Flush(a: seq<Mod>, i: nat, b: seq<Mod>, j: nat, before: Diff) returns (diff: Diff)
    requires i <= |a| && j <= |b| && (i == |a| || j == |b|)
    ensures diff == Then(before, Merge(a[i..], b[j..]))
  {
    var removed := FlushRemoved(a, i, before);
    diff := FlushAdded(b, j, removed);
    ThenNothing(before);
    ThenNothing(removed);
  }

  method MergeSorted(a: seq<Mod>, b: seq<Mod>) returns (diff: Diff)
    ensures diff == Merge(a, b)
  {
    diff := NO_CHANGE;
    var i, j := 0, 0;
    ThenNothing(Merge(a, b));
    while i < |a| && j < |b|
      invariant i <= |a| && j <= |b| && Merge(a, b) == Then(diff, Merge(a[i..], b[j..]))
      decreases |a| - i + |b| - j
    {
      MergeStep(diff, a, b, i, j);
      ThenNothing(diff);
      if a[i].name == "" { i := i + 1; continue; }
      if b[j].name == "" { j := j + 1; continue; }
      if Less(a[i].name, b[j].name) {
        diff := Then(diff, Diff([], [], [a[i]]));
        i := i + 1;
      } else if Less(b[j].name, a[i].name) {
        diff := Then(diff, Diff([b[j]], [], []));
        j := j + 1;
      } else {
        if a[i].version != b[j].version {
          diff := Then(diff, Diff([], [(a[i], b[j])], []));
        }
        i, j := i + 1, j + 1;
      }
    }
    diff := Flush(a, i, b, j, diff);
  }

  // ----- The diff is a patch -----

  function OldOf(update: (Mod, Mod)): Mod { update.0 }

  function NewOf(update: (Mod, Mod)): Mod { update.1 }

  function Olds(updated: seq<(Mod, Mod)>): seq<Mod> { Keys(updated, OldOf) }

  function News(updated: seq<(Mod, Mod)>): seq<Mod> { Keys(updated, NewOf) }

  /** Every update keeps the name and changes the version, and no part of a diff is nameless. */
  ghost predicate Proper(d: Diff) {
    && (forall p :: p in d.updated ==> p.0.name == p.1.name != "" && p.0.version != p.1.version)
    && (forall m :: m in d.added + d.removed ==> m.name != "")
  }

  /** Taking away what is removed or updated, and adding what is added or updated to, turns the
      named mods of one list into those of the other, duplicates included. */
  ghost predicate Patches(d: Diff, prior: multiset<Mod>, current: multiset<Mod>) {
    forall m: Mod :: m.name != "" ==> Balances(d, prior, current, m)
  }

  ghost predicate Balances(d: Diff, prior: multiset<Mod>, current: multiset<Mod>, m: Mod) {
    && prior[m] + multiset(d.added)[m] + multiset(News(d.updated))[m]
       == current[m] + multiset(d.removed)[m] + multiset(Olds(d.updated))[m]
    && multiset(d.removed)[m] + multiset(Olds(d.updated))[m] <= prior[m]
    && multiset(d.added)[m] + multiset(News(d.updated))[m] <= current[m]
  }

  lemma PatchThen(d: Diff, e: Diff, a: seq<Mod>, b: seq<Mod>, c: seq<Mod>, f: seq<Mod>)
    requires Patches(d, multiset(a), multiset(b)) && Patches(e, multiset(c), multiset(f))
    ensures Patches(Then(d, e), multiset(a + c), multiset(b + f))
  {
    KeysConcat(d.updated, e.updated, OldOf);
    KeysConcat(d.updated, e.updated, NewOf);
  }

  lemma PatchSplit(d: Diff, e: Diff, a: seq<Mod>, b: seq<Mod>, i: nat, j: nat)
    requires i <= |a| && j <= |b|
    requires Patches(d, multiset(a[..i]), multiset(b[..j])) && Patches(e, multiset(a[i..]), multiset(b[j..]))
    ensures Patches(Then(d, e), multiset(a), multiset(b))
  {
    PatchThen(d, e, a[..i], b[..j], a[i..], b[j..]);
    assert a == a[..i] + a[i..];
    assert b == b[..j] + b[j..];
  }

  lemma UpdatePatches(x: Mod, y: Mod)
    ensures Patches(Diff([], [(x, y)], []), multiset([x]), multiset([y]))
  {
    KeyOfOne((x, y), OldOf);
    KeyOfOne((x, y), NewOf);
  }

  lemma RoundIsProper(a: seq<Mod>, b: seq<Mod>)
    requires a != [] || b != []
    ensures Proper(Round(a, b).0)
  {
    if a != [] && b != [] { LessTotal(a[0].name, b[0].name); }
  }

  lemma RoundPatches(a: seq<Mod>, b: seq<Mod>)
    requires a != [] || b != []
    ensures var (d, i, j) := Round(a, b); Patches(d, multiset(a[..i]), multiset(b[..j]))
  {
    var (d, i, j) := Round(a, b);
    if a != [] && b != [] { LessTotal(a[0].name, b[0].name); }
    if i == 1 && j == 1 {
      OneOfEach(d, a[..i], b[..j]);
    } else if i == 1 {
      OneRemoved(d, a[..i], b[..j]);
    } else {
      OneAdded(d, a[..i], b[..j]);
    }
  }

  lemma OneRemoved(d: Diff, x: seq<Mod>, none: seq<Mod>)
    requires |x| == 1 && none == []
    requires d == if x[0].name == "" then NO_CHANGE else Diff([], [], [x[0]])
    ensures Patches(d, multiset(x), multiset(none))
  {
    assert x == [x[0]];
  }

  lemma OneAdded(d: Diff, none: seq<Mod>, y: seq<Mod>)
    requires |y| == 1 && none == []
    requires d == if y[0].name == "" then NO_CHANGE else Diff([y[0]], [], [])
    ensures Patches(d, multiset(none), multiset(y))
  {
    assert y == [y[0]];
  }

  /** The round that takes one mod from either list. */
  lemma OneOfEach(d: Diff, x: seq<Mod>, y: seq<Mod>)
    requires |x| == 1 && |y| == 1 && x[0].name == y[0].name
    requires d == if x[0].version != y[0].version then Diff([], [(x[0], y[0])], []) else NO_CHANGE
    ensures Patches(d, multiset(x), multiset(y))
  {
    assert x == [x[0]] && y == [y[0]];
    if x[0].version != y[0].version { UpdatePatches(x[0], y[0]); }
  }

  lemma {:induction false} MergePatches(a: seq<Mod>, b: seq<Mod>)
    ensures Patches(Merge(a, b), multiset(a), multiset(b))
    decreases |a| + |b|
  {
    if a != [] || b != [] {
      var (d, i, j) := Round(a, b);
      RoundPatches(a, b);
      MergePatches(a[i..], b[j..]);
      PatchSplit(d, Merge(a[i..], b[j..]), a, b, i, j);
    }
  }

  lemma {:induction false} MergeIsProper(a: seq<Mod>, b: seq<Mod>)
    ensures Proper(Merge(a, b))
    decreases |a| + |b|
  {
    if a != [] || b != [] {
      var (d, i, j) := Round(a, b);
      RoundIsProper(a, b);
      MergeIsProper(a[i..], b[j..]);
    }
  }

  // ----- Counting by name -----

  function Count(mods: seq<Mod>, name: string): nat { multiset(Names(mods))[name] }

  function PositivePart(x: int): nat { if x > 0 then x else 0 }

  lemma CountCons(m: Mod, mods: seq<Mod>, name: string)
    ensures Count([m] + mods, name) == (if m.name == name then 1 else 0) + Count(mods, name)
  {
    KeysConcat([m], mods, NameOf);
    KeyOfOne(m, NameOf);
  }

  lemma CountConcat(a: seq<Mod>, b: seq<Mod>, name: string)
    ensures Count(a + b, name) == Count(a, name) + Count(b, name)
  {
    KeysConcat(a, b, NameOf);
  }

  lemma CountTail(mods: seq<Mod>, name: string)
    requires mods != []
    ensures Count(mods, name) == (if mods[0].name == name then 1 else 0) + Count(mods[1..], name)
  {
    CountCons(mods[0], mods[1..], name);
    assert mods == [mods[0]] + mods[1..];
  }

  /** A name below the first one of a sorted list does not occur in it. */
  lemma {:induction false} CountBelow(mods: seq<Mod>, name: string)
    requires ByName(mods) && (mods != [] ==> Less(name, mods[0].name))
    ensures Count(mods, name) == 0
  {
    forall k | 0 <= k < |mods| ensures Names(mods)[k] != name {
      KeyAt(mods, NameOf, k);
      LessAsymmetric(name, mods[0].name);
      assert k > 0 ==> !Less(mods[k].name, mods[0].name);
    }
  }

  /** One round removes, or adds, a mod of the surplus side only. */
  lemma RoundCounts(a: seq<Mod>, b: seq<Mod>, name: string)
    requires (a != [] || b != []) && ByName(a) && ByName(b) && name != ""
    ensures var (d, i, j) := Round(a, b);
      var ca, cb := Count(a, name), Count(b, name);
      var ta, tb := Count(a[i..], name), Count(b[j..], name);
      && Count(d.removed, name) + PositivePart(ta - tb) == PositivePart(ca - cb)
      && Count(d.added, name) + PositivePart(tb - ta) == PositivePart(cb - ca)
  {
    var (d, i, j) := Round(a, b);
    assert Count([], name) == 0;
    if a != [] { CountTail(a, name); CountCons(a[0], [], name); assert [a[0]] + [] == [a[0]]; }
    if b != [] { CountTail(b, name); CountCons(b[0], [], name); assert [b[0]] + [] == [b[0]]; }
    assert i == 0 ==> a[i..] == a;
    assert j == 0 ==> b[j..] == b;
    if a != [] && b != [] {
      LessTotal(a[0].name, b[0].name);
      if Less(a[0].name, b[0].name) { CountBelow(b, a[0].name); }
      if Less(b[0].name, a[0].name) { CountBelow(a, b[0].name); }
    }
  }

  /** Per name, exactly the surplus of either side is removed or added. */
  lemma {:induction false} MergeCounts(a: seq<Mod>, b: seq<Mod>, name: string)
    requires ByName(a) && ByName(b) && name != ""
    ensures Count(Merge(a, b).removed, name) == PositivePart(Count(a, name) - Count(b, name))
    ensures Count(Merge(a, b).added, name) == PositivePart(Count(b, name) - Count(a, name))
    decreases |a| + |b|
  {
    if a != [] || b != [] {
      var (d, i, j) := Round(a, b);
      RoundCounts(a, b, name);
      MergeCounts(a[i..], b[j..], name);
      var rest := Merge(a[i..], b[j..]);
      CountConcat(d.removed, rest.removed, name);
      CountConcat(d.added, rest.added, name);
    }
  }

  /** The diff: sorts both lists and merges.  `a` and `b` are the sorted lists. */
  method ComputeModDiff(prior: seq<Mod>, current: seq<Mod>)
    returns (diff: Diff, priorModCount: nat, ghost a: seq<Mod>, ghost b: seq<Mod>)
    ensures priorModCount == |prior|
    ensures Sorting(a, prior) && Sorting(b, current) && diff == Merge(a, b)
  {
    priorModCount := |prior|;
    var sortedPrior := SortByName(prior);
    var sortedCurrent := SortByName(current);
    a, b := sortedPrior, sortedCurrent;
    diff := MergeSorted(sortedPrior, sortedCurrent);
  }

  /** However ties are broken, the diff is a proper patch, and for each name it removes and adds
      exactly the positive parts of the difference in counts. */
  lemma DiffIsExact(prior: seq<Mod>, current: seq<Mod>, a: seq<Mod>, b: seq<Mod>)
    requires Sorting(a, prior) && Sorting(b, current)
    ensures Proper(Merge(a, b)) && Patches(Merge(a, b), multiset(prior), multiset(current))
    ensures forall name :: name != "" ==>
              && Count(Merge(a, b).removed, name) == PositivePart(Count(prior, name) - Count(current, name))
              && Count(Merge(a, b).added, name) == PositivePart(Count(current, name) - Count(prior, name))
  {
    MergePatches(a, b);
    MergeIsProper(a, b);
    PermutedKeys(a, prior, NameOf);
    PermutedKeys(b, current, NameOf);
    forall name | name != ""
      ensures Count(Merge(a, b).removed, name) == PositivePart(Count(prior, name) - Count(current, name))
      ensures Count(Merge(a, b).added, name) == PositivePart(Count(current, name) - Count(prior, name))
    {
      MergeCounts(a, b, name);
    }
  }

  // ----- Minimality -----

  function Named(mods: seq<Mod>): seq<Mod> {
    if mods == [] then []
    else if mods[0].name == "" then Named(mods[1..]) else [mods[0]] + Named(mods[1..])
  }

  lemma {:induction false} NamedMultiset(mods: seq<Mod>, m: Mod)
    ensures multiset(Named(mods))[m] == if m.name == "" then 0 else multiset(mods)[m]
  {
    if mods != [] {
      NamedMultiset(mods[1..], m);
      assert mods == [mods[0]] + mods[1..];
    }
  }

  lemma {:induction false} NamedCount(mods: seq<Mod>, name: string)
    requires name != ""
    ensures Count(Named(mods), name) == Count(mods, name)
  {
    if mods != [] {
      NamedCount(mods[1..], name);
      CountTail(mods, name);
      if mods[0].name != "" { CountCons(mods[0], Named(mods[1..]), name); }
    }
  }

  /** Lists with the same named mods have the same count of every name. */
  lemma CountsAgree(x: seq<Mod>, y: seq<Mod>, name: string)
    requires name != "" && forall m: Mod :: m.name != "" ==> multiset(x)[m] == multiset(y)[m]
    ensures Count(x, name) == Count(y, name)
  {
    forall m: Mod ensures multiset(Named(x))[m] == multiset(Named(y))[m] {
      NamedMultiset(x, m);
      NamedMultiset(y, m);
    }
    PermutedKeys(Named(x), Named(y), NameOf);
    NamedCount(x, name);
    NamedCount(y, name);
  }

  lemma {:induction false} UpdatesKeepNames(updated: seq<(Mod, Mod)>, name: string)
    requires forall p :: p in updated ==> p.0.name == p.1.name
    ensures Count(Olds(updated), name) == Count(News(updated), name)
  {
    forall i | 0 <= i < |updated| ensures Names(Olds(updated))[i] == Names(News(updated))[i] {
      KeyAt(Olds(updated), NameOf, i);
      KeyAt(News(updated), NameOf, i);
      KeyAt(updated, OldOf, i);
      KeyAt(updated, NewOf, i);
      assert updated[i] in updated;
    }
    assert Names(Olds(updated)) == Names(News(updated));
  }

  /** No patch whose updates keep names removes, or adds, fewer mods of any name. */
  lemma DiffIsMinimal(prior: seq<Mod>, current: seq<Mod>, a: seq<Mod>, b: seq<Mod>, other: Diff, name: string)
    requires Sorting(a, prior) && Sorting(b, current) && name != ""
    requires forall p :: p in other.updated ==> p.0.name == p.1.name
    requires Patches(other, multiset(prior), multiset(current))
    ensures Count(Merge(a, b).removed, name) <= Count(other.removed, name)
    ensures Count(Merge(a, b).added, name) <= Count(other.added, name)
  {
    DiffIsExact(prior, current, a, b);
    var x := prior + other.added + News(other.updated);
    var y := current + other.removed + Olds(other.updated);
    forall m: Mod | m.name != "" ensures multiset(x)[m] == multiset(y)[m] {
      assert Balances(other, multiset(prior), multiset(current), m);
    }
    CountsAgree(x, y, name);
    CountConcat(prior + other.added, News(other.updated), name);
    CountConcat(prior, other.added, name);
    CountConcat(current + other.removed, Olds(other.updated), name);
    CountConcat(current, other.removed, name);
    UpdatesKeepNames(other.updated, name);
  }

  // ----- Updates -----

  /** The mods of one name, in order. */
  function OfName(mods: seq<Mod>, name: string): seq<Mod> {
    if mods == [] then []
    else if mods[0].name == name then [mods[0]] + OfName(mods[1..], name) else OfName(mods[1..], name)
  }

  lemma {:induction false} OfNameHolds(mods: seq<Mod>, name: string)
    ensures |OfName(mods, name)| == Count(mods, name)
    ensures forall m :: m in OfName(mods, name) ==> m.name == name
    ensures forall m: Mod :: m.name == name ==> multiset(OfName(mods, name))[m] == multiset(mods)[m]
  {
    if mods != [] {
      OfNameHolds(mods[1..], name);
      CountTail(mods, name);
      assert mods == [mods[0]] + mods[1..];
    }
  }

  /** Two lists pair these mods: they stand at one position and differ in version. */
  ghost predicate Paired(x: seq<Mod>, y: seq<Mod>, was: Mod, now: Mod) {
    was.version != now.version && exists k :: 0 <= k < |x| && k < |y| && x[k] == was && y[k] == now
  }

  lemma PairedCons(m: Mod, x: seq<Mod>, n: Mod, y: seq<Mod>, was: Mod, now: Mod)
    ensures Paired([m] + x, [n] + y, was, now)
       <==> was.version != now.version && ((m == was && n == now) || Paired(x, y, was, now))
  {
    if Paired([m] + x, [n] + y, was, now) {
      var k :| 0 <= k < |[m] + x| && k < |[n] + y| && ([m] + x)[k] == was && ([n] + y)[k] == now;
      if k > 0 { assert x[k - 1] == was && y[k - 1] == now; }
    }
    if Paired(x, y, was, now) {
      var k :| 0 <= k < |x| && k < |y| && x[k] == was && y[k] == now;
      assert ([m] + x)[k + 1] == was && ([n] + y)[k + 1] == now;
    }
    if m == was && n == now { assert ([m] + x)[0] == was && ([n] + y)[0] == now; }
  }

  lemma OfNameBelow(mods: seq<Mod>, name: string)
    requires ByName(mods) && (mods != [] ==> Less(name, mods[0].name))
    ensures OfName(mods, name) == []
  {
    CountBelow(mods, name);
    OfNameHolds(mods, name);
  }

  /** The updates of a name pair its mods position by position. */
  lemma {:induction false} UpdatesPair(a: seq<Mod>, b: seq<Mod>, was: Mod, now: Mod)
    requires ByName(a) && ByName(b) && was.name == now.name != ""
    ensures (was, now) in Merge(a, b).updated <==> Paired(OfName(a, was.name), OfName(b, was.name), was, now)
    decreases |a| + |b|
  {
    if a != [] || b != [] {
      var (d, i, j) := Round(a, b);
      UpdatesPair(a[i..], b[j..], was, now);
      RoundPairs(a, b, was, now);
    }
  }

  /** One round reports what the positions it takes pair. */
  lemma RoundPairs(a: seq<Mod>, b: seq<Mod>, was: Mod, now: Mod)
    requires (a != [] || b != []) && ByName(a) && ByName(b) && was.name == now.name != ""
    ensures var (d, i, j) := Round(a, b);
      Paired(OfName(a, was.name), OfName(b, was.name), was, now)
      <==> (was, now) in d.updated || Paired(OfName(a[i..], was.name), OfName(b[j..], was.name), was, now)
  {
    var name := was.name;
    var (d, i, j) := Round(a, b);
    if a != [] && b != [] {
      LessTotal(a[0].name, b[0].name);
      if Less(a[0].name, b[0].name) && a[0].name == name { OfNameBelow(b, name); }
      if Less(b[0].name, a[0].name) && b[0].name == name { OfNameBelow(a, name); }
      if i == 1 && j == 1 && a[0].name == name {
        PairedCons(a[0], OfName(a[1..], name), b[0], OfName(b[1..], name), was, now);
      }
    }
  }

  /** Versions of one name that must meet: more copies than positions. */
  lemma {:induction false} MustMeet(x: seq<Mod>, y: seq<Mod>, was: Mod, now: Mod)
    requires was.version != now.version
    requires multiset(x)[was] + multiset(y)[now] > |x| && multiset(x)[was] + multiset(y)[now] > |y|
    ensures Paired(x, y, was, now)
    decreases |x|
  {
    AtMost(x, was);
    AtMost(y, now);
    if x != [] && y != [] {
      assert x == [x[0]] + x[1..] && y == [y[0]] + y[1..];
      if !(x[0] == was && y[0] == now) { MustMeet(x[1..], y[1..], was, now); }
      PairedCons(x[0], x[1..], y[0], y[1..], was, now);
    }
  }

  lemma AtMost(x: seq<Mod>, m: Mod)
    ensures multiset(x)[m] <= |x|
  {
    assert multiset(x)[m] <= |multiset(x)|;
  }

  // ----- Other orders of the mods of one name -----

  function Without(x: seq<Mod>, m: Mod): seq<Mod> {
    if x == [] then [] else if x[0] == m then Without(x[1..], m) else [x[0]] + Without(x[1..], m)
  }

  function Copies(m: Mod, n: nat): (r: seq<Mod>)
    ensures |r| == n && forall k :: 0 <= k < n ==> r[k] == m
  {
    seq(n, i => m)
  }

  lemma {:induction false} CopiesCount(m: Mod, n: nat)
    ensures multiset(Copies(m, n)) == multiset{}[m := n]
  {
    if n > 0 {
      CopiesCount(m, n - 1);
      assert Copies(m, n) == Copies(m, n - 1) + [m];
    }
  }

  lemma {:induction false} WithoutHolds(x: seq<Mod>, m: Mod)
    ensures multiset(Without(x, m)) == multiset(x)[m := 0] && m !in Without(x, m)
  {
    if x != [] {
      WithoutHolds(x[1..], m);
      assert x == [x[0]] + x[1..];
    }
  }

  lemma PutBack<T>(c: seq<T>, w: seq<T>, s: multiset<T>, x: T)
    requires multiset(c) == multiset{}[x := s[x]] && multiset(w) == s[x := 0]
    ensures multiset(c + w) == s && multiset(w + c) == s
  {
  }

  lemma SameSize<T>(x: seq<T>, y: seq<T>)
    requires multiset(x) == multiset(y)
    ensures |x| == |y|
  {
    assert |multiset(x)| == |multiset(y)|;
  }

  /** The copies of a mod can be moved to the front, or to the back. */
  lemma CopiesMoved(x: seq<Mod>, m: Mod)
    ensures multiset(Copies(m, multiset(x)[m]) + Without(x, m)) == multiset(x)
    ensures multiset(Without(x, m) + Copies(m, multiset(x)[m])) == multiset(x)
    ensures m !in Without(x, m) && |Without(x, m)| == |x| - multiset(x)[m]
  {
    WithoutHolds(x, m);
    CopiesCount(m, multiset(x)[m]);
    PutBack(Copies(m, multiset(x)[m]), Without(x, m), multiset(x), m);
    SameSize(Copies(m, multiset(x)[m]) + Without(x, m), x);
  }

  /** With a position for every copy, two versions can be kept apart. */
  lemma CanBeApart(x: seq<Mod>, y: seq<Mod>, was: Mod, now: Mod) returns (x': seq<Mod>, y': seq<Mod>)
    requires multiset(x)[was] + multiset(y)[now] <= |x| || multiset(x)[was] + multiset(y)[now] <= |y|
    ensures multiset(x') == multiset(x) && multiset(y') == multiset(y) && !Paired(x', y', was, now)
  {
    CopiesMoved(x, was);
    CopiesMoved(y, now);
    var p, q := multiset(x)[was], multiset(y)[now];
    if p + q <= |x| {
      x', y' := Without(x, was) + Copies(was, p), Copies(now, q) + Without(y, now);
      forall k | 0 <= k < |x'| && k < |y'| && x'[k] == was ensures y'[k] != now {
        assert k >= |x| - p;
      }
    } else {
      x', y' := Copies(was, p) + Without(x, was), Without(y, now) + Copies(now, q);
      forall k | 0 <= k < |x'| && k < |y'| && x'[k] == was ensures y'[k] != now {
        assert k < p;
      }
    }
  }

  /** Any two versions can be made to meet. */
  lemma CanMeet(x: seq<Mod>, y: seq<Mod>, was: Mod, now: Mod) returns (x': seq<Mod>, y': seq<Mod>)
    requires was in x && now in y && was.version != now.version
    ensures multiset(x') == multiset(x) && multiset(y') == multiset(y) && Paired(x', y', was, now)
  {
    CopiesMoved(x, was);
    CopiesMoved(y, now);
    x', y' := Copies(was, multiset(x)[was]) + Without(x, was), Copies(now, multiset(y)[now]) + Without(y, now);
    assert was in multiset(x) && now in multiset(y);
    assert x'[0] == was && y'[0] == now;
  }

  /** A list with the mods of one name in another order. */
  function Reordered(mods: seq<Mod>, name: string, order: seq<Mod>): (r: seq<Mod>)
    requires |order| == |OfName(mods, name)|
    ensures |r| == |mods|
  {
    if mods == [] then []
    else if mods[0].name == name then [order[0]] + Reordered(mods[1..], name, order[1..])
    else [mods[0]] + Reordered(mods[1..], name, order)
  }

  lemma {:induction false} ReorderedNames(mods: seq<Mod>, name: string, order: seq<Mod>)
    requires |order| == |OfName(mods, name)| && forall m :: m in order ==> m.name == name
    ensures forall k :: 0 <= k < |mods| ==> Reordered(mods, name, order)[k].name == mods[k].name
  {
    if mods != [] {
      ReorderedNames(mods[1..], name, if mods[0].name == name then order[1..] else order);
    }
  }

  lemma {:induction false} ReorderedOrder(mods: seq<Mod>, name: string, order: seq<Mod>)
    requires |order| == |OfName(mods, name)| && forall m :: m in order ==> m.name == name
    ensures OfName(Reordered(mods, name, order), name) == order
  {
    if mods != [] {
      ReorderedOrder(mods[1..], name, if mods[0].name == name then order[1..] else order);
    }
  }

  lemma {:induction false} ReorderedCount(mods: seq<Mod>, name: string, order: seq<Mod>, m: Mod)
    requires |order| == |OfName(mods, name)|
    ensures multiset(Reordered(mods, name, order))[m] + multiset(OfName(mods, name))[m]
         == multiset(mods)[m] + multiset(order)[m]
  {
    if mods != [] {
      assert mods == [mods[0]] + mods[1..];
      if mods[0].name == name {
        ReorderedCount(mods[1..], name, order[1..], m);
        assert order == [order[0]] + order[1..];
      } else {
        ReorderedCount(mods[1..], name, order, m);
      }
    }
  }

  /** Reordering the mods of one name gives another sorting. */
  lemma AnotherSorting(a: seq<Mod>, mods: seq<Mod>, name: string, order: seq<Mod>) returns (b: seq<Mod>)
    requires Sorting(a, mods) && multiset(order) == multiset(OfName(a, name))
    ensures Sorting(b, mods) && OfName(b, name) == order
  {
    SameMembers(order, OfName(a, name));
    OfNameHolds(a, name);
    b := Reordered(a, name, order);
    ReorderedNames(a, name, order);
    ReorderedOrder(a, name, order);
    forall m ensures multiset(b)[m] == multiset(a)[m] {
      ReorderedCount(a, name, order, m);
    }
  }

  function Placed(m: Mod, sorted: seq<Mod>): seq<Mod> {
    if sorted == [] || !Less(sorted[0].name, m.name) then [m] + sorted else [sorted[0]] + Placed(m, sorted[1..])
  }

  lemma {:induction false} PlacedMultiset(m: Mod, sorted: seq<Mod>)
    ensures multiset(Placed(m, sorted)) == multiset([m] + sorted)
  {
    if sorted != [] && Less(sorted[0].name, m.name) {
      PlacedMultiset(m, sorted[1..]);
      assert sorted == [sorted[0]] + sorted[1..];
    }
  }

  lemma ByNameCons(m: Mod, sorted: seq<Mod>)
    requires ByName(sorted) && forall n :: n in sorted ==> !Less(n.name, m.name)
    ensures ByName([m] + sorted)
  {
  }

  lemma {:induction false} PlacedByName(m: Mod, sorted: seq<Mod>)
    requires ByName(sorted)
    ensures ByName(Placed(m, sorted))
  {
    if sorted != [] && Less(sorted[0].name, m.name) {
      PlacedByName(m, sorted[1..]);
      PlacedMultiset(m, sorted[1..]);
      SameMembers(Placed(m, sorted[1..]), [m] + sorted[1..]);
      LessAsymmetric(sorted[0].name, m.name);
      ByNameCons(sorted[0], Placed(m, sorted[1..]));
    } else {
      forall n | n in sorted ensures !Less(n.name, m.name) {
        LessTransitive(m.name, sorted[0].name, n.name);
      }
      ByNameCons(m, sorted);
    }
  }

  lemma {:induction false} HasSorting(mods: seq<Mod>) returns (sorted: seq<Mod>)
    ensures Sorting(sorted, mods)
  {
    sorted := [];
    if mods != [] {
      var rest := HasSorting(mods[1..]);
      PlacedMultiset(mods[0], rest);
      PlacedByName(mods[0], rest);
      sorted := Placed(mods[0], rest);
      assert mods == [mods[0]] + mods[1..];
    }
  }

  // ----- Which updates are reported -----

  /** The mod is listed in another version now. */
  ghost predicate Changed(prior: seq<Mod>, current: seq<Mod>, was: Mod, now: Mod) {
    was in prior && now in current && was.name == now.name != "" && was.version != now.version
  }

  /** The copies of the two versions are more than either list has mods of the name. */
  predicate Crowded(prior: seq<Mod>, current: seq<Mod>, was: Mod, now: Mod) {
    var copies := multiset(prior)[was] + multiset(current)[now];
    copies > Count(prior, was.name) && copies > Count(current, was.name)
  }

  lemma SortingOfName(sorted: seq<Mod>, mods: seq<Mod>, m: Mod)
    requires Sorting(sorted, mods)
    ensures multiset(OfName(sorted, m.name))[m] == multiset(mods)[m]
    ensures |OfName(sorted, m.name)| == Count(mods, m.name)
    ensures m in OfName(sorted, m.name) <==> m in mods
  {
    OfNameHolds(sorted, m.name);
    PermutedKeys(sorted, mods, NameOf);
    SameMembers(sorted, mods);
    assert m in OfName(sorted, m.name) <==> m in multiset(OfName(sorted, m.name));
    assert m in sorted <==> m in multiset(sorted);
  }

  /** An update is reported however ties are broken exactly when its two versions are crowded. */
  lemma UpdateIsForced(prior: seq<Mod>, current: seq<Mod>, was: Mod, now: Mod)
    requires was.name == now.name != "" && was.version != now.version
    ensures (forall a, b :: Sorting(a, prior) && Sorting(b, current) ==> (was, now) in Merge(a, b).updated)
       <==> Crowded(prior, current, was, now)
  {
    if Crowded(prior, current, was, now) {
      forall a, b | Sorting(a, prior) && Sorting(b, current) ensures (was, now) in Merge(a, b).updated {
        SortingOfName(a, prior, was);
        SortingOfName(b, current, now);
        MustMeet(OfName(a, was.name), OfName(b, was.name), was, now);
        UpdatesPair(a, b, was, now);
      }
    } else {
      var a := HasSorting(prior);
      var b := HasSorting(current);
      SortingOfName(a, prior, was);
      SortingOfName(b, current, now);
      var x, y := CanBeApart(OfName(a, was.name), OfName(b, was.name), was, now);
      a := AnotherSorting(a, prior, was.name, x);
      b := AnotherSorting(b, current, was.name, y);
      UpdatesPair(a, b, was, now);
    }
  }

  /** An update is reported for some way of breaking ties exactly when the mod has changed. */
  lemma UpdateIsPossible(prior: seq<Mod>, current: seq<Mod>, was: Mod, now: Mod)
    ensures (exists a, b :: Sorting(a, prior) && Sorting(b, current) && (was, now) in Merge(a, b).updated)
       <==> Changed(prior, current, was, now)
  {
    forall a, b | Sorting(a, prior) && Sorting(b, current) && (was, now) in Merge(a, b).updated
      ensures Changed(prior, current, was, now)
    {
      MergeIsProper(a, b);
      UpdatesComeFrom(a, b);
      SameMembers(a, prior);
      SameMembers(b, current);
    }
    if Changed(prior, current, was, now) {
      var a := HasSorting(prior);
      var b := HasSorting(current);
      SortingOfName(a, prior, was);
      SortingOfName(b, current, now);
      var x, y := CanMeet(OfName(a, was.name), OfName(b, was.name), was, now);
      a := AnotherSorting(a, prior, was.name, x);
      b := AnotherSorting(b, current, was.name, y);
      UpdatesPair(a, b, was, now);
      assert Sorting(a, prior) && Sorting(b, current) && (was, now) in Merge(a, b).updated;
    }
  }

  /** Both halves of an update come from the lists. */
  lemma {:induction false} UpdatesComeFrom(a: seq<Mod>, b: seq<Mod>)
    ensures forall p :: p in Merge(a, b).updated ==> p.0 in a && p.1 in b
    decreases |a| + |b|
  {
    if a != [] || b != [] {
      var (d, i, j) := Round(a, b);
      UpdatesComeFrom(a[i..], b[j..]);
    }
  }

  ghost predicate UpdatesAreChanges(a: seq<Mod>, b: seq<Mod>, prior: seq<Mod>, current: seq<Mod>) {
    forall was, now :: (was, now) in Merge(a, b).updated <==> Changed(prior, current, was, now)
  }

  /** The updates are exactly the changed mods, however ties are broken, exactly when the versions
      of every changed mod are crowded. */
  lemma UpdatesAreExact(prior: seq<Mod>, current: seq<Mod>)
    ensures (forall a, b :: Sorting(a, prior) && Sorting(b, current) ==> UpdatesAreChanges(a, b, prior, current))
       <==> (forall was, now :: Changed(prior, current, was, now) ==> Crowded(prior, current, was, now))
  {
    if forall was, now :: Changed(prior, current, was, now) ==> Crowded(prior, current, was, now) {
      forall a, b | Sorting(a, prior) && Sorting(b, current) ensures UpdatesAreChanges(a, b, prior, current) {
        forall was, now ensures (was, now) in Merge(a, b).updated <==> Changed(prior, current, was, now) {
          UpdateIsPossible(prior, current, was, now);
          if Changed(prior, current, was, now) { UpdateIsForced(prior, current, was, now); }
        }
      }
    }
    if forall a, b :: Sorting(a, prior) && Sorting(b, current) ==> UpdatesAreChanges(a, b, prior, current) {
      forall was, now | Changed(prior, current, was, now) ensures Crowded(prior, current, was, now) {
        forall a, b | Sorting(a, prior) && Sorting(b, current) ensures (was, now) in Merge(a, b).updated {
          assert UpdatesAreChanges(a, b, prior, current);
        }
        UpdateIsForced(prior, current, was, now);
      }
    }
  }

  ghost predicate UniqueNames(mods: seq<Mod>) {
    forall name :: name != "" ==> Count(mods, name) <= 1
  }

  /** So the updates are exact for lists that repeat no name. */
  lemma UniqueNamesAreCrowded(prior: seq<Mod>, current: seq<Mod>, was: Mod, now: Mod)
    requires UniqueNames(prior) && UniqueNames(current) && Changed(prior, current, was, now)
    ensures Crowded(prior, current, was, now)
  {
    assert was in multiset(prior) && now in multiset(current);
  }

  lemma UniqueNamesAreExact(prior: seq<Mod>, current: seq<Mod>, a: seq<Mod>, b: seq<Mod>)
    requires Sorting(a, prior) && Sorting(b, current) && UniqueNames(prior) && UniqueNames(current)
    ensures UpdatesAreChanges(a, b, prior, current)
  {
    forall was, now | Changed(prior, current, was, now) ensures Crowded(prior, current, was, now) {
      UniqueNamesAreCrowded(prior, current, was, now);
    }
    UpdatesAreExact(prior, current);
  }

  /** No name is listed in two versions. */
  ghost predicate OneVersionEach(mods: seq<Mod>) {
    forall m, n :: m in mods && n in mods && m.name == n.name != "" ==> m.version == n.version
  }

  lemma NoVersionsNoUpdates(mods: seq<Mod>, a: seq<Mod>, b: seq<Mod>)
    requires Sorting(a, mods) && Sorting(b, mods) && OneVersionEach(mods)
    ensures Merge(a, b).updated == []
  {
    var updated := Merge(a, b).updated;
    if updated != [] {
      assert updated[0] in updated;
      SameMembers(a, mods);
      SameMembers(b, mods);
      MergeIsProper(a, b);
      UpdatesComeFrom(a, b);
    }
  }

  lemma TwoVersionsUpdate(mods: seq<Mod>, a: seq<Mod>, m: Mod, n: Mod) returns (b: seq<Mod>)
    requires Sorting(a, mods) && m in mods && n in mods && m.name == n.name != "" && m.version != n.version
    ensures Sorting(b, mods) && (m, n) in Merge(a, b).updated
  {
    var x := OfName(a, m.name);
    SortingOfName(a, mods, m);
    SortingOfName(a, mods, n);
    var i :| 0 <= i < |x| && x[i] == m;
    var j :| 0 <= j < |x| && x[j] == n;
    b := AnotherSorting(a, mods, m.name, x[i := n][j := m]);
    assert Paired(x, x[i := n][j := m], m, n);
    UpdatesPair(a, b, m, n);
  }

  /** Comparing a list with itself, however the second copy is sorted, reports no update exactly
      when no name is listed in two versions. */
  lemma UnchangedReportsNothing(mods: seq<Mod>, a: seq<Mod>)
    requires Sorting(a, mods)
    ensures (forall b :: Sorting(b, mods) ==> Merge(a, b).updated == []) <==> OneVersionEach(mods)
  {
    if OneVersionEach(mods) {
      forall b | Sorting(b, mods) ensures Merge(a, b).updated == [] {
        NoVersionsNoUpdates(mods, a, b);
      }
    } else {
      var m, n :| m in mods && n in mods && m.name == n.name != "" && m.version != n.version;
      var b := TwoVersionsUpdate(mods, a, m, n);
    }
  }

  /** For example, two orderings of the same two mods, both sorted as far as `std::sort` is
      concerned, differ by two updates although nothing changed. */
  lemma TiesCanReportUpdates()
    ensures var a, b := [Mod("m", "1"), Mod("m", "2")], [Mod("m", "2"), Mod("m", "1")];
      && Sorting(a, a) && Sorting(b, a)
      && |Merge(a, b).updated| == 2 && Patches(NO_CHANGE, multiset(a), multiset(b))
  {
    var a, b := [Mod("m", "1"), Mod("m", "2")], [Mod("m", "2"), Mod("m", "1")];
    LessAsymmetric("m", "m");
    assert multiset(a) == multiset(b);
    assert a[1..][1..] == [] && b[1..][1..] == [];
    assert |Merge(a[1..], b[1..]).updated| == 1;
  }
}
