/** A reader of the diagnostic document: it looks members up by name in the parsed tree, and what
    it finds is the captured state again. */
module DiagnosticReader {
  import opened Json
  import opened JsonSidecar
  import opened NumberText
  import opened Wrappers

  // ----- Looking members up -----

  /** The value of the first member called `key`. */
  function Lookup(ms: seq<Member>, key: string): Option<Json> {
    if ms == [] then None
    else if ms[0].key == key then Some(ms[0].value)
    else Lookup(ms[1..], key)
  }

  lemma {:induction false} LookupAt(ms: seq<Member>, key: string, i: nat)
    requires i < |ms| && ms[i].key == key
    requires forall j :: 0 <= j < i ==> ms[j].key != key
    ensures Lookup(ms, key) == Some(ms[i].value)
  {
    if i > 0 { LookupAt(ms[1..], key, i - 1); }
  }

  lemma {:induction false} LookupNothing(ms: seq<Member>, key: string)
    requires forall i :: 0 <= i < |ms| ==> ms[i].key != key
    ensures Lookup(ms, key) == None
  {
    if ms != [] { LookupNothing(ms[1..], key); }
  }

  lemma {:induction false} LookupAppend(a: seq<Member>, b: seq<Member>, key: string)
    ensures Lookup(a + b, key) == if Lookup(a, key).Some? then Lookup(a, key) else Lookup(b, key)
  {
    if a == [] {
      assert a + b == b;
    } else {
      assert (a + b)[1..] == a[1..] + b;
      LookupAppend(a[1..], b, key);
    }
  }

  /** Members with other names in front of the others do not matter. */
  lemma LookupPast(a: seq<Member>, b: seq<Member>, keys: set<string>)
    requires forall i :: 0 <= i < |a| ==> a[i].key !in keys
    ensures forall key :: key in keys ==> Lookup(a + b, key) == Lookup(b, key)
  {
    forall key | key in keys ensures Lookup(a + b, key) == Lookup(b, key) {
      LookupNothing(a, key);
      LookupAppend(a, b, key);
    }
  }

  function StrAt(ms: seq<Member>, key: string): Option<string> {
    match Lookup(ms, key) case Some(Str(s)) => Some(s) case _ => None
  }

  function CountAt(ms: seq<Member>, key: string): Option<nat> {
    match Lookup(ms, key)
    case Some(Num(t)) => if t != [] && AllDigits(t) then Some(Value(t)) else None
    case _ => None
  }

  function BoolAt(ms: seq<Member>, key: string): Option<bool> {
    match Lookup(ms, key) case Some(Bool(b)) => Some(b) case _ => None
  }

  function ItemsAt(ms: seq<Member>, key: string): Option<seq<Json>> {
    match Lookup(ms, key) case Some(Arr(items)) => Some(items) case _ => None
  }

  function ObjectAt(ms: seq<Member>, key: string): Option<seq<Member>> {
    match Lookup(ms, key) case Some(Obj(inner)) => Some(inner) case _ => None
  }

  predicate NullAt(ms: seq<Member>, key: string) { Lookup(ms, key) == Some(Null) }

  /** The strings of an array that holds nothing else. */
  function Strings(items: seq<Json>): Option<seq<string>> {
    if items == [] then Some([])
    else if !items[0].Str? then None
    else
      match Strings(items[1..])
      case None => None
      case Some(rest) => Some([items[0].s] + rest)
  }

  function StringsAt(ms: seq<Member>, key: string): Option<seq<string>> {
    match ItemsAt(ms, key) case Some(items) => Strings(items) case None => None
  }

  lemma {:induction false} StringsOfStrs(ss: seq<string>)
    ensures Strings(Strs(ss)) == Some(ss)
  {
    if ss != [] {
      assert Strs(ss)[1..] == Strs(ss[1..]);
      StringsOfStrs(ss[1..]);
      assert [ss[0]] + ss[1..] == ss;
    }
  }

  lemma CountReads(ms: seq<Member>, key: string, n: nat)
    requires Lookup(ms, key) == Some(Count(n))
    ensures CountAt(ms, key) == Some(n)
  {
    RoundTrip(n);
  }

  // ----- Mods -----

  function TypeCalled(name: string): Option<ModType> {
    if name == "red4ext" then Some(Red4ext)
    else if name == "cet" then Some(Cet)
    else if name == "redscript" then Some(RedScript)
    else if name == "tweakxl" then Some(TweakXL)
    else if name == "archive" then Some(Archive)
    else if name == "asi" then Some(Asi)
    else if name == "unknown" then Some(Unknown)
    else None
  }

  lemma TypeNameReads(t: ModType)
    ensures TypeCalled(TypeName(t)) == Some(t)
  {
  }

  /** A mod of the document; without the member, it has no subpath or no archives. */
  function ReadMod(j: Json): Option<InstalledMod> {
    if !j.Obj? then None
    else
      var ms := j.members;
      match (StrAt(ms, "name"), StrAt(ms, "version"), StrAt(ms, "type"), BoolAt(ms, "enabled"))
      case (Some(name), Some(version), Some(typeName), Some(enabled)) =>
        var subpath := if Lookup(ms, "subpath").None? then Some("") else StrAt(ms, "subpath");
        var archives := if Lookup(ms, "archives").None? then Some([]) else StringsAt(ms, "archives");
        (match (TypeCalled(typeName), subpath, archives)
         case (Some(kind), Some(path), Some(files)) =>
           Some(InstalledMod(name, version, path, files, kind, enabled))
         case _ => None)
      case _ => None
  }

  lemma RequiredReads(m: InstalledMod)
    ensures StrAt(RequiredTree(m), "name") == Some(m.name)
    ensures StrAt(RequiredTree(m), "version") == Some(m.version)
    ensures BoolAt(RequiredTree(m), "enabled") == Some(m.enabled)
    ensures StrAt(RequiredTree(m), "type") == Some(TypeName(m.kind))
    ensures Lookup(RequiredTree(m), "subpath").None? && Lookup(RequiredTree(m), "archives").None?
  {
    var ms := RequiredTree(m);
    LookupAt(ms, "name", 0);
    LookupAt(ms, "version", 1);
    LookupAt(ms, "enabled", 2);
    LookupAt(ms, "type", 3);
    LookupNothing(ms, "subpath");
    LookupNothing(ms, "archives");
  }

  lemma OptionalReads(m: InstalledMod)
    ensures var ms := OptionalTree(m);
      && Lookup(ms, "subpath") == (if m.subpath == "" then None else Some(Str(m.subpath)))
      && Lookup(ms, "archives") == (if m.archives == [] then None else Some(Arr(Strs(m.archives))))
  {
    var ms := OptionalTree(m);
    if m.subpath == "" { LookupNothing(ms, "subpath"); } else { LookupAt(ms, "subpath", 0); }
    if m.archives == [] { LookupNothing(ms, "archives"); } else { LookupAt(ms, "archives", |ms| - 1); }
  }

  /** Every field of a mod is read back; the optional members are there exactly when they say
      something. */
  lemma ModReadsBack(m: InstalledMod)
    ensures ReadMod(ModTree(m)) == Some(m)
    ensures Lookup(ModTree(m).members, "subpath").None? <==> m.subpath == ""
    ensures Lookup(ModTree(m).members, "archives").None? <==> m.archives == []
  {
    RequiredReads(m);
    OptionalReads(m);
    var a, b := RequiredTree(m), OptionalTree(m);
    LookupAppend(a, b, "name");
    LookupAppend(a, b, "version");
    LookupAppend(a, b, "enabled");
    LookupAppend(a, b, "type");
    LookupAppend(a, b, "subpath");
    LookupAppend(a, b, "archives");
    TypeNameReads(m.kind);
    StringsOfStrs(m.archives);
  }

  function ReadMods(items: seq<Json>): Option<seq<InstalledMod>> {
    if items == [] then Some([])
    else
      match (ReadMod(items[0]), ReadMods(items[1..]))
      case (Some(m), Some(rest)) => Some([m] + rest)
      case _ => None
  }

  /** Those of the first `n` mods that have a name. */
  function Named(mods: seq<InstalledMod>, n: nat): seq<InstalledMod> {
    if mods == [] || n == 0 then []
    else (if mods[0].name == "" then [] else [mods[0]]) + Named(mods[1..], n - 1)
  }

  lemma {:induction false} ReadModsSnoc(items: seq<Json>, last: Json, m: InstalledMod)
    requires ReadMods(items).Some? && ReadMod(last) == Some(m)
    ensures ReadMods(items + [last]) == Some(ReadMods(items).value + [m])
  {
    if items == [] {
      assert items + [last] == [last];
      assert [last][1..] == [];
      assert [m] + [] == [] + [m];
    } else {
      assert (items + [last])[1..] == items[1..] + [last];
      ReadModsSnoc(items[1..], last, m);
      var first, rest := ReadMod(items[0]).value, ReadMods(items[1..]).value;
      assert [first] + (rest + [m]) == [first] + rest + [m];
    }
  }

  lemma {:induction false} NamedSnoc(mods: seq<InstalledMod>, m: InstalledMod)
    ensures Named(mods + [m], |mods| + 1) == Named(mods, |mods|) + if m.name == "" then [] else [m]
  {
    if mods == [] {
      assert mods + [m] == [m];
      assert [m][1..] == [];
    } else {
      assert (mods + [m])[1..] == mods[1..] + [m];
      NamedSnoc(mods[1..], m);
    }
  }

  lemma {:induction false} NamedOfFirst(mods: seq<InstalledMod>, n: nat)
    ensures Named(mods, n) == Named(First(mods, n), |First(mods, n)|)
  {
    if mods != [] && n > 0 {
      assert First(mods, n)[1..] == First(mods[1..], n - 1);
      NamedOfFirst(mods[1..], n - 1);
    }
  }

  lemma {:induction false} NamedModsReadBack(mods: seq<InstalledMod>)
    ensures ReadMods(NamedMods(mods)) == Some(Named(mods, |mods|))
  {
    if mods != [] {
      var last := |mods| - 1;
      NamedModsReadBack(mods[..last]);
      assert mods == mods[..last] + [mods[last]];
      NamedSnoc(mods[..last], mods[last]);
      ModReadsBack(mods[last]);
      if mods[last].name == "" {
        assert NamedMods(mods[..last]) + [] == NamedMods(mods[..last]);
        assert Named(mods[..last], last) + [] == Named(mods[..last], last);
      } else {
        ReadModsSnoc(NamedMods(mods[..last]), ModTree(mods[last]), mods[last]);
      }
    }
  }

  // ----- The other lists -----

  function ReadIssue(j: Json): Option<SetupIssue> {
    if !j.Obj? then None
    else
      match (StrAt(j.members, "kind"), StrAt(j.members, "detail"))
      case (Some(kind), Some(detail)) => Some(SetupIssue(kind, detail))
      case _ => None
  }

  lemma IssueReadsBack(i: SetupIssue)
    ensures ReadIssue(IssueTree(i)) == Some(i)
  {
    LookupAt(IssueTree(i).members, "kind", 0);
    LookupAt(IssueTree(i).members, "detail", 1);
  }

  function ReadGroup(j: Json): Option<seq<string>> {
    if j.Obj? then StringsAt(j.members, "mods") else None
  }

  lemma GroupReadsBack(mods: seq<string>)
    ensures ReadGroup(GroupTree(mods)) == Some(mods)
  {
    LookupAt(GroupTree(mods).members, "mods", 0);
    StringsOfStrs(mods);
  }

  function ReadDep(j: Json): Option<MissingDep> {
    if !j.Obj? then None
    else
      match (StrAt(j.members, "mod"), StringsAt(j.members, "requires"))
      case (Some(mod), Some(required)) => Some(MissingDep(mod, required))
      case _ => None
  }

  lemma DepReadsBack(d: MissingDep)
    ensures ReadDep(DepTree(d)) == Some(d)
  {
    LookupAt(DepTree(d).members, "mod", 0);
    LookupAt(DepTree(d).members, "requires", 1);
    StringsOfStrs(d.required);
  }

  // ----- The sections -----

  /** The section on the set-up: the issues in order, and how many were left out. */
  ghost predicate SetupSays(ms: seq<Member>, si: SetupIntegrity) {
    && CountAt(ms, "truncated") == Some(si.truncated)
    && ItemsAt(ms, "issues").Some?
    && var items := ItemsAt(ms, "issues").value;
      && |items| == |si.issues|
      && forall i :: 0 <= i < |items| ==> ReadIssue(items[i]) == Some(si.issues[i])
  }

  lemma SetupReadsBack(si: SetupIntegrity)
    ensures SetupSays(SetupTree(si).members, si)
  {
    var ms := SetupTree(si).members;
    LookupAt(ms, "issues", 0);
    LookupAt(ms, "truncated", 1);
    CountReads(ms, "truncated", si.truncated);
    forall i | 0 <= i < |si.issues| ensures ReadIssue(IssueTrees(si.issues)[i]) == Some(si.issues[i]) {
      IssueReadsBack(si.issues[i]);
    }
  }

  /** The section on curated conflicts: the groups and the missing dependencies in order, the size
      of the database and how much was left out. */
  ghost predicate CuratedSays(ms: seq<Member>, ac: ArchiveConflicts) {
    && CountAt(ms, "dbModCount") == Some(ac.dbModCount)
    && CountAt(ms, "truncated") == Some(ac.truncated)
    && ItemsAt(ms, "active").Some? && ItemsAt(ms, "missingDeps").Some?
    && var groups, deps := ItemsAt(ms, "active").value, ItemsAt(ms, "missingDeps").value;
      && |groups| == |ac.active| && |deps| == |ac.missingDeps|
      && (forall i :: 0 <= i < |groups| ==> ReadGroup(groups[i]) == Some(ac.active[i]))
      && forall i :: 0 <= i < |deps| ==> ReadDep(deps[i]) == Some(ac.missingDeps[i])
  }

  /** The conflicts are one section deeper. */
  ghost predicate ConflictsSay(ms: seq<Member>, ac: ArchiveConflicts) {
    ObjectAt(ms, "curated").Some? && CuratedSays(ObjectAt(ms, "curated").value, ac)
  }

  lemma CuratedReadsBack(ac: ArchiveConflicts)
    ensures CuratedSays(CuratedTree(ac).members, ac)
  {
    var ms := CuratedTree(ac).members;
    LookupAt(ms, "active", 0);
    LookupAt(ms, "missingDeps", 1);
    LookupAt(ms, "dbModCount", 2);
    LookupAt(ms, "truncated", 3);
    CountReads(ms, "dbModCount", ac.dbModCount);
    CountReads(ms, "truncated", ac.truncated);
    forall i | 0 <= i < |ac.active| ensures ReadGroup(GroupTrees(ac.active)[i]) == Some(ac.active[i]) {
      GroupReadsBack(ac.active[i]);
    }
    forall i | 0 <= i < |ac.missingDeps| ensures ReadDep(DepTrees(ac.missingDeps)[i]) == Some(ac.missingDeps[i]) {
      DepReadsBack(ac.missingDeps[i]);
    }
  }

  /** The section on the hardware; sizes are in mebibytes, and only the first graphics adapter is
      named. */
  ghost predicate HardwareSays(ms: seq<Member>, hw: HardwareSpecs) {
    ProcessorSays(ms, hw) && AdapterSays(ms, hw.gpus) && MemorySays(ms, hw) && SystemSays(ms, hw) && DisplaySays(ms, hw)
  }

  ghost predicate ProcessorSays(ms: seq<Member>, hw: HardwareSpecs) {
    && StrAt(ms, "cpu") == Some(hw.cpuName)
    && CountAt(ms, "cpuCores") == Some(hw.cpuPhysicalCores)
    && CountAt(ms, "cpuThreads") == Some(hw.cpuLogicalCores)
    && CountAt(ms, "cpuMaxMHz") == Some(hw.cpuMaxTurboMHz)
  }

  ghost predicate AdapterSays(ms: seq<Member>, gpus: seq<Gpu>) {
    if gpus == [] then
      Lookup(ms, "gpu").None? && Lookup(ms, "gpuDriver").None? && Lookup(ms, "vramMB").None?
    else
      && StrAt(ms, "gpu") == Some(gpus[0].name)
      && StrAt(ms, "gpuDriver") == Some(gpus[0].driverVersion)
      && CountAt(ms, "vramMB") == Some(gpus[0].vramDedicatedBytes / 1_048_576)
  }

  ghost predicate MemorySays(ms: seq<Member>, hw: HardwareSpecs) {
    && CountAt(ms, "ramTotalMB") == Some(hw.ramTotalBytes / 1_048_576)
    && StrAt(ms, "ramType") == Some(hw.ramType)
    && CountAt(ms, "ramSpeedMHz") == Some(hw.ramSpeedMHz)
  }

  ghost predicate SystemSays(ms: seq<Member>, hw: HardwareSpecs) {
    && StrAt(ms, "os") == Some(hw.osProductName)
    && StrAt(ms, "osVersion") == Some(hw.osDisplayVersion)
    && CountAt(ms, "osBuild") == Some(hw.osBuild)
  }

  ghost predicate DisplaySays(ms: seq<Member>, hw: HardwareSpecs) {
    && CountAt(ms, "displayW") == Some(hw.displayWidth)
    && CountAt(ms, "displayH") == Some(hw.displayHeight)
    && CountAt(ms, "displayHz") == Some(hw.displayRefreshHz)
    && StrAt(ms, "displayHdr") == Some(hw.displayHdrState)
  }

  lemma ProcessorReadsBack(hw: HardwareSpecs, rest: seq<Member>)
    ensures ProcessorSays(HardwareHead(hw) + rest, hw)
  {
    var ms := HardwareHead(hw) + rest;
    LookupAt(ms, "cpu", 0);
    LookupAt(ms, "cpuCores", 1);
    LookupAt(ms, "cpuThreads", 2);
    LookupAt(ms, "cpuMaxMHz", 3);
    CountReads(ms, "cpuCores", hw.cpuPhysicalCores);
    CountReads(ms, "cpuThreads", hw.cpuLogicalCores);
    CountReads(ms, "cpuMaxMHz", hw.cpuMaxTurboMHz);
  }

  lemma MemoryReadsBack(hw: HardwareSpecs, rest: seq<Member>)
    ensures MemorySays(RamMembers(hw) + rest, hw)
  {
    var ms := RamMembers(hw) + rest;
    LookupAt(ms, "ramTotalMB", 0);
    LookupAt(ms, "ramType", 1);
    LookupAt(ms, "ramSpeedMHz", 2);
    CountReads(ms, "ramTotalMB", hw.ramTotalBytes / MEBIBYTE);
    CountReads(ms, "ramSpeedMHz", hw.ramSpeedMHz);
  }

  lemma SystemReadsBack(hw: HardwareSpecs, rest: seq<Member>)
    ensures SystemSays(OsMembers(hw) + rest, hw)
  {
    var ms := OsMembers(hw) + rest;
    LookupAt(ms, "os", 0);
    LookupAt(ms, "osVersion", 1);
    LookupAt(ms, "osBuild", 2);
    CountReads(ms, "osBuild", hw.osBuild);
  }

  lemma DisplayReadsBack(hw: HardwareSpecs)
    ensures DisplaySays(DisplayTail(hw), hw)
  {
    var ms := DisplayTail(hw);
    LookupAt(ms, "displayW", 0);
    LookupAt(ms, "displayH", 1);
    LookupAt(ms, "displayHz", 2);
    LookupAt(ms, "displayHdr", 3);
    CountReads(ms, "displayW", hw.displayWidth);
    CountReads(ms, "displayH", hw.displayHeight);
    CountReads(ms, "displayHz", hw.displayRefreshHz);
  }

  const MEMORY_KEYS := {"ramTotalMB", "ramType", "ramSpeedMHz"}
  const SYSTEM_KEYS := {"os", "osVersion", "osBuild"}
  const DISPLAY_KEYS := {"displayW", "displayH", "displayHz", "displayHdr"}
  const LATER_KEYS := {"ramTotalMB", "ramType", "ramSpeedMHz", "os", "osVersion", "osBuild",
                       "displayW", "displayH", "displayHz", "displayHdr"}
  const ADAPTER_KEYS := {"gpu", "gpuDriver", "vramMB"}

  lemma OsTailReadsBack(hw: HardwareSpecs)
    ensures SystemSays(OsTail(hw), hw) && DisplaySays(OsTail(hw), hw)
  {
    SystemReadsBack(hw, DisplayTail(hw));
    DisplayReadsBack(hw);
    LookupPast(OsMembers(hw), DisplayTail(hw), DISPLAY_KEYS);
  }

  lemma HardwareTailReadsBack(hw: HardwareSpecs)
    ensures var ms := HardwareTail(hw); MemorySays(ms, hw) && SystemSays(ms, hw) && DisplaySays(ms, hw)
  {
    MemoryReadsBack(hw, OsTail(hw));
    OsTailReadsBack(hw);
    LookupPast(RamMembers(hw), OsTail(hw), SYSTEM_KEYS);
    LookupPast(RamMembers(hw), OsTail(hw), DISPLAY_KEYS);
  }

  lemma TailNamesNoAdapter(hw: HardwareSpecs)
    ensures forall key :: key in ADAPTER_KEYS ==> Lookup(HardwareTail(hw), key).None?
  {
    forall key | key in ADAPTER_KEYS ensures Lookup(HardwareTail(hw), key).None? {
      LookupNothing(DisplayTail(hw), key);
      LookupNothing(OsMembers(hw), key);
      LookupNothing(RamMembers(hw), key);
      LookupAppend(OsMembers(hw), DisplayTail(hw), key);
      LookupAppend(RamMembers(hw), OsTail(hw), key);
    }
  }

  lemma AdapterReadsBack(hw: HardwareSpecs)
    ensures AdapterSays(GpuMembers(hw.gpus) + HardwareTail(hw), hw.gpus)
  {
    var ms := GpuMembers(hw.gpus) + HardwareTail(hw);
    if hw.gpus == [] {
      assert ms == HardwareTail(hw);
      TailNamesNoAdapter(hw);
    } else {
      LookupAt(ms, "gpu", 0);
      LookupAt(ms, "gpuDriver", 1);
      LookupAt(ms, "vramMB", 2);
      CountReads(ms, "vramMB", hw.gpus[0].vramDedicatedBytes / MEBIBYTE);
    }
  }

  /** What is said in `b` is still said with members of other names in front. */
  lemma StillSays(a: seq<Member>, b: seq<Member>, hw: HardwareSpecs)
    requires Avoids(a, LATER_KEYS)
    requires MemorySays(b, hw) && SystemSays(b, hw) && DisplaySays(b, hw)
    ensures MemorySays(a + b, hw) && SystemSays(a + b, hw) && DisplaySays(a + b, hw)
  {
    LookupPast(a, b, LATER_KEYS);
  }

  lemma StillSaysAdapter(a: seq<Member>, b: seq<Member>, gpus: seq<Gpu>)
    requires Avoids(a, ADAPTER_KEYS)
    requires AdapterSays(b, gpus)
    ensures AdapterSays(a + b, gpus)
  {
    LookupPast(a, b, ADAPTER_KEYS);
  }

  ghost predicate Avoids(ms: seq<Member>, keys: set<string>) { forall i :: 0 <= i < |ms| ==> ms[i].key !in keys }

  lemma ProcessorNames(hw: HardwareSpecs)
    ensures Avoids(HardwareHead(hw), LATER_KEYS) && Avoids(HardwareHead(hw), ADAPTER_KEYS)
  {
  }

  lemma AdapterNames(gpus: seq<Gpu>)
    ensures Avoids(GpuMembers(gpus), LATER_KEYS)
  {
  }

  /** The three parts of the section, one after the other. */
  lemma PartsSay(head: seq<Member>, gpu: seq<Member>, tail: seq<Member>, hw: HardwareSpecs)
    requires Avoids(head, LATER_KEYS) && Avoids(head, ADAPTER_KEYS) && Avoids(gpu, LATER_KEYS)
    requires ProcessorSays(head + (gpu + tail), hw) && AdapterSays(gpu + tail, hw.gpus)
    requires MemorySays(tail, hw) && SystemSays(tail, hw) && DisplaySays(tail, hw)
    ensures HardwareSays(head + gpu + tail, hw)
  {
    assert head + gpu + tail == head + (gpu + tail);
    StillSaysAdapter(head, gpu + tail, hw.gpus);
    StillSays(gpu, tail, hw);
    StillSays(head, gpu + tail, hw);
  }

  lemma HardwareReadsBack(hw: HardwareSpecs)
    ensures HardwareSays(HardwareTree(hw).members, hw)
  {
    var head, gpu, tail := HardwareHead(hw), GpuMembers(hw.gpus), HardwareTail(hw);
    ProcessorNames(hw);
    AdapterNames(hw.gpus);
    ProcessorReadsBack(hw, gpu + tail);
    AdapterReadsBack(hw);
    HardwareTailReadsBack(hw);
    PartsSay(head, gpu, tail, hw);
  }

  // ----- The whole document -----

  /** Who wrote the document, and about which versions. */
  ghost predicate HeadSays(ms: seq<Member>, red4extVersion: string, buildId: string) {
    && StrAt(ms, "reportType") == Some("diagnostic") && StrAt(ms, "tool") == Some("REDscope")
    && StrAt(ms, "red4extVersion") == Some(red4extVersion) && StrAt(ms, "buildId") == Some(buildId)
  }

  /** The mods: the manager, what it said, how many were left out, and the named ones among the
      first 2048. */
  ghost predicate InventorySays(ms: seq<Member>, manager: ModManager, details: string, truncated: nat,
                                mods: seq<InstalledMod>) {
    && StrAt(ms, "modManager").Some? && ManagerCalled(StrAt(ms, "modManager").value) == Some(manager)
    && StrAt(ms, "modManagerDetails") == Some(details)
    && CountAt(ms, "modTruncated") == Some(truncated)
    && ItemsAt(ms, "installedMods").Some?
    && ReadMods(ItemsAt(ms, "installedMods").value) == Some(Named(mods, 2048))
  }

  function ManagerCalled(name: string): Option<ModManager> {
    if name == "none" then Some(NoManager)
    else if name == "MO2" then Some(MO2)
    else if name == "Vortex" then Some(Vortex)
    else None
  }

  lemma ManagerNameReads(m: ModManager)
    ensures ManagerCalled(ManagerName(m)) == Some(m)
  {
  }

  /** The document says what was captured. */
  ghost predicate Says(ms: seq<Member>, s: Snapshot) {
    && HeadSays(ms, s.red4extVersion, s.cp2077BuildString)
    && ObjectAt(ms, "hardware").Some? && HardwareSays(ObjectAt(ms, "hardware").value, s.hardware)
    && ObjectAt(ms, "setupIntegrity").Some? && SetupSays(ObjectAt(ms, "setupIntegrity").value, s.setupIntegrity)
    && ObjectAt(ms, "archiveConflicts").Some?
    && ConflictsSay(ObjectAt(ms, "archiveConflicts").value, s.archiveConflicts)
    && InventorySays(ms, s.inventory.manager, s.inventory.managerDetails, s.inventory.truncated,
                     s.inventory.mods)
  }

  /** The document without a snapshot. */
  ghost predicate SaysNothing(ms: seq<Member>) {
    && HeadSays(ms, "", "")
    && NullAt(ms, "hardware") && NullAt(ms, "setupIntegrity") && NullAt(ms, "archiveConflicts")
    && InventorySays(ms, NoManager, "", 0, [])
  }

  lemma HeadReadsBack(s: MaybeSnapshot, rest: seq<Member>)
    ensures var ms := HeadMembers(s) + rest;
      if s.Have? then HeadSays(ms, s.snapshot.red4extVersion, s.snapshot.cp2077BuildString) else HeadSays(ms, "", "")
  {
    var ms := HeadMembers(s) + rest;
    LookupAt(ms, "reportType", 0);
    LookupAt(ms, "tool", 1);
    LookupAt(ms, "red4extVersion", 2);
    LookupAt(ms, "buildId", 3);
  }

  lemma SectionsAt(s: MaybeSnapshot, rest: seq<Member>)
    ensures var ms := SectionMembers(s) + rest;
      && Lookup(ms, "hardware") == Some(HardwareSection(s))
      && Lookup(ms, "setupIntegrity") == Some(SetupSection(s))
      && Lookup(ms, "archiveConflicts") == Some(ConflictSection(s))
  {
    var ms := SectionMembers(s) + rest;
    LookupAt(ms, "hardware", 0);
    LookupAt(ms, "setupIntegrity", 1);
    LookupAt(ms, "archiveConflicts", 2);
  }

  lemma ManagerReadsBack(s: MaybeSnapshot)
    ensures var ms := InventoryMembers(s);
      && StrAt(ms, "modManager") == Some(ManagerName(if s.Have? then s.snapshot.inventory.manager else NoManager))
      && StrAt(ms, "modManagerDetails") == Some(if s.Have? then s.snapshot.inventory.managerDetails else "")
      && CountAt(ms, "modTruncated") == Some(if s.Have? then s.snapshot.inventory.truncated else 0)
      && ItemsAt(ms, "installedMods") == Some(ListedMods(s))
  {
    var ms := InventoryMembers(s);
    LookupAt(ms, "modManager", 0);
    LookupAt(ms, "modManagerDetails", 1);
    LookupAt(ms, "modTruncated", 2);
    CountReads(ms, "modTruncated", if s.Have? then s.snapshot.inventory.truncated else 0);
    LookupAt(ms, "installedMods", 3);
  }

  lemma ListReadsBack(s: MaybeSnapshot)
    ensures ReadMods(ListedMods(s)) == Some(Named(if s.Have? then s.snapshot.inventory.mods else [], 2048))
  {
    if s.Have? {
      var mods := s.snapshot.inventory.mods;
      NamedModsReadBack(First(mods, MAX_INSTALLED_MODS));
      NamedOfFirst(mods, MAX_INSTALLED_MODS);
    }
  }

  lemma ConflictsReadBack(ac: ArchiveConflicts)
    ensures ConflictsSay(ConflictTree(ac).members, ac)
  {
    LookupAt(ConflictTree(ac).members, "curated", 0);
    CuratedReadsBack(ac);
  }

  const SECTION_KEYS := {"hardware", "setupIntegrity", "archiveConflicts"}
  const INVENTORY_KEYS := {"modManager", "modManagerDetails", "modTruncated", "installedMods"}

  lemma HeadNames(s: MaybeSnapshot)
    ensures Avoids(HeadMembers(s), SECTION_KEYS) && Avoids(HeadMembers(s), INVENTORY_KEYS)
  {
  }

  lemma SectionNames(s: MaybeSnapshot)
    ensures Avoids(SectionMembers(s), INVENTORY_KEYS)
  {
  }

  /** Where the members of the document are found. */
  lemma MembersFound(head: seq<Member>, sections: seq<Member>, inventory: seq<Member>)
    requires Avoids(head, SECTION_KEYS) && Avoids(head, INVENTORY_KEYS) && Avoids(sections, INVENTORY_KEYS)
    ensures var ms := head + sections + inventory;
      && ms == head + (sections + inventory)
      && (forall key :: key in SECTION_KEYS ==> Lookup(ms, key) == Lookup(sections + inventory, key))
      && (forall key :: key in INVENTORY_KEYS ==> Lookup(ms, key) == Lookup(inventory, key))
  {
    assert head + sections + inventory == head + (sections + inventory);
    LookupPast(head, sections + inventory, SECTION_KEYS);
    LookupPast(head, sections + inventory, INVENTORY_KEYS);
    LookupPast(sections, inventory, INVENTORY_KEYS);
  }

  /** The three parts of the document. */
  lemma DocumentFound(s: MaybeSnapshot)
    ensures var ms, inventory := DiagnosticMembers(s), InventoryMembers(s);
      && (if s.Have? then HeadSays(ms, s.snapshot.red4extVersion, s.snapshot.cp2077BuildString) else HeadSays(ms, "", ""))
      && Lookup(ms, "hardware") == Some(HardwareSection(s))
      && Lookup(ms, "setupIntegrity") == Some(SetupSection(s))
      && Lookup(ms, "archiveConflicts") == Some(ConflictSection(s))
      && forall key :: key in INVENTORY_KEYS ==> Lookup(ms, key) == Lookup(inventory, key)
  {
    HeadNames(s);
    SectionNames(s);
    MembersFound(HeadMembers(s), SectionMembers(s), InventoryMembers(s));
    HeadReadsBack(s, SectionMembers(s) + InventoryMembers(s));
    SectionsAt(s, InventoryMembers(s));
  }

  lemma InventoryReadsBack(s: MaybeSnapshot, ms: seq<Member>)
    requires forall key :: key in INVENTORY_KEYS ==> Lookup(ms, key) == Lookup(InventoryMembers(s), key)
    ensures if s.Have? then
        var inv := s.snapshot.inventory;
        InventorySays(ms, inv.manager, inv.managerDetails, inv.truncated, inv.mods)
      else InventorySays(ms, NoManager, "", 0, [])
  {
    ManagerReadsBack(s);
    ManagerNameReads(if s.Have? then s.snapshot.inventory.manager else NoManager);
    ListReadsBack(s);
  }

  lemma SectionsSay(s: Snapshot)
    ensures var h, si, ac := HardwareSection(Have(s)), SetupSection(Have(s)), ConflictSection(Have(s));
      && h.Obj? && HardwareSays(h.members, s.hardware)
      && si.Obj? && SetupSays(si.members, s.setupIntegrity)
      && ac.Obj? && ConflictsSay(ac.members, s.archiveConflicts)
  {
    HardwareReadsBack(s.hardware);
    SetupReadsBack(s.setupIntegrity);
    ConflictsReadBack(s.archiveConflicts);
  }

  lemma PartsMakeDocument(ms: seq<Member>, s: Snapshot, h: Json, si: Json, ac: Json)
    requires HeadSays(ms, s.red4extVersion, s.cp2077BuildString)
    requires Lookup(ms, "hardware") == Some(h) && Lookup(ms, "setupIntegrity") == Some(si)
    requires Lookup(ms, "archiveConflicts") == Some(ac)
    requires h.Obj? && HardwareSays(h.members, s.hardware) && si.Obj? && SetupSays(si.members, s.setupIntegrity)
    requires ac.Obj? && ConflictsSay(ac.members, s.archiveConflicts)
    requires InventorySays(ms, s.inventory.manager, s.inventory.managerDetails, s.inventory.truncated,
                           s.inventory.mods)
    ensures Says(ms, s)
  {
    assert ObjectAt(ms, "hardware") == Some(h.members);
  }

  /** Looked up by name, the members of the document are the captured state: every field of every
      section, and of the mods the named ones among the first 2048. */
  lemma DiagnosticSaysSnapshot(s: Snapshot)
    ensures Says(DiagnosticMembers(Have(s)), s)
  {
    var ms := DiagnosticMembers(Have(s));
    DocumentFound(Have(s));
    SectionsSay(s);
    InventoryReadsBack(Have(s), ms);
    PartsMakeDocument(ms, s, HardwareSection(Have(s)), SetupSection(Have(s)), ConflictSection(Have(s)));
  }

  lemma DiagnosticSaysNothing()
    ensures SaysNothing(DiagnosticMembers(NoSnapshot))
  {
    DocumentFound(NoSnapshot);
    InventoryReadsBack(NoSnapshot, DiagnosticMembers(NoSnapshot));
  }

  /** What a reader of the bytes gets: a parsed document that says what was captured. */
  ghost predicate Reports(text: string, s: MaybeSnapshot) {
    match ParseDocument(text)
    case Some(Obj(ms)) => if s.Have? then Says(ms, s.snapshot) else SaysNothing(ms)
    case _ => false
  }

  /** Whatever parses to the intended tree, as `WriteDiagnostic` promises of the buffer, reports the
      snapshot. */
  lemma DiagnosticReports(text: string, s: MaybeSnapshot)
    requires ParseDocument(text) == Some(Obj(DiagnosticMembers(s)))
    ensures Reports(text, s)
  {
    if s.Have? { DiagnosticSaysSnapshot(s.snapshot); } else { DiagnosticSaysNothing(); }
  }
}
