/** The diagnostic document of src/report/JsonSidecar.cpp: the emitters that write it into the
    crash buffer, and the tree it stands for. */
module JsonSidecar {
  import opened NumberText
  import opened Json
  import opened Buffers
  import opened Utf8Text
  import opened Wrappers

  // ----- The captured state -----

  datatype ModManager = NoManager | MO2 | Vortex
  datatype ModType = Red4ext | Cet | RedScript | TweakXL | Archive | Asi | Unknown

  datatype InstalledMod = InstalledMod(
    name: string, version: string, subpath: string, archives: seq<string>, kind: ModType, enabled: bool)

  datatype ModInventory = ModInventory(
    manager: ModManager, managerDetails: string, mods: seq<InstalledMod>, truncated: nat)

  datatype Gpu = Gpu(name: string, driverVersion: string, vramDedicatedBytes: nat)

  datatype HardwareSpecs = HardwareSpecs(
    cpuName: string, cpuPhysicalCores: nat, cpuLogicalCores: nat, cpuMaxTurboMHz: nat, gpus: seq<Gpu>,
    ramTotalBytes: nat, ramType: string, ramSpeedMHz: nat, osProductName: string, osDisplayVersion: string,
    osBuild: nat, displayWidth: nat, displayHeight: nat, displayRefreshHz: nat, displayHdrState: string)

  datatype SetupIssue = SetupIssue(kind: string, detail: string)
  datatype SetupIntegrity = SetupIntegrity(issues: seq<SetupIssue>, truncated: nat)

  datatype MissingDep = MissingDep(mod: string, required: seq<string>)
  datatype ArchiveConflicts = ArchiveConflicts(
    active: seq<seq<string>>, missingDeps: seq<MissingDep>, dbModCount: nat, truncated: nat)

  datatype Snapshot = Snapshot(
    red4extVersion: string, cp2077BuildString: string, hardware: HardwareSpecs,
    setupIntegrity: SetupIntegrity, archiveConflicts: ArchiveConflicts, inventory: ModInventory)

  const MAX_INSTALLED_MODS := 2048
  const MEBIBYTE := 1024 * 1024

  // ----- The intended tree -----

  function Strs(ss: seq<string>): seq<Json> {
    seq(|ss|, i requires 0 <= i < |ss| => Str(ss[i]))
  }

  function GpuMembers(gpus: seq<Gpu>): seq<Member> {
    if gpus == [] then []
    else [Member("gpu", Str(gpus[0].name)), Member("gpuDriver", Str(gpus[0].driverVersion)),
          Member("vramMB", Count(gpus[0].vramDedicatedBytes / MEBIBYTE))]
  }

  function HardwareHead(hw: HardwareSpecs): seq<Member> {
    [Member("cpu", Str(hw.cpuName)), Member("cpuCores", Count(hw.cpuPhysicalCores)),
     Member("cpuThreads", Count(hw.cpuLogicalCores)), Member("cpuMaxMHz", Count(hw.cpuMaxTurboMHz))]
  }

  function HardwareTail(hw: HardwareSpecs): seq<Member> {
    RamMembers(hw) + OsTail(hw)
  }

  function RamMembers(hw: HardwareSpecs): seq<Member> {
    [Member("ramTotalMB", Count(hw.ramTotalBytes / MEBIBYTE)), Member("ramType", Str(hw.ramType)),
     Member("ramSpeedMHz", Count(hw.ramSpeedMHz))]
  }

  function OsTail(hw: HardwareSpecs): seq<Member> {
    OsMembers(hw) + DisplayTail(hw)
  }

  function OsMembers(hw: HardwareSpecs): seq<Member> {
    [Member("os", Str(hw.osProductName)), Member("osVersion", Str(hw.osDisplayVersion)),
     Member("osBuild", Count(hw.osBuild))]
  }

  function DisplayTail(hw: HardwareSpecs): seq<Member> {
    [Member("displayW", Count(hw.displayWidth)), Member("displayH", Count(hw.displayHeight)),
     Member("displayHz", Count(hw.displayRefreshHz)), Member("displayHdr", Str(hw.displayHdrState))]
  }

  function HardwareTree(hw: HardwareSpecs): Json {
    Obj(HardwareHead(hw) + GpuMembers(hw.gpus) + HardwareTail(hw))
  }

  function IssueTree(i: SetupIssue): Json {
    Obj([Member("kind", Str(i.kind)), Member("detail", Str(i.detail))])
  }

  function IssueTrees(issues: seq<SetupIssue>): seq<Json> {
    seq(|issues|, i requires 0 <= i < |issues| => IssueTree(issues[i]))
  }

  function SetupTree(si: SetupIntegrity): Json {
    Obj([Member("issues", Arr(IssueTrees(si.issues))), Member("truncated", Count(si.truncated))])
  }

  function GroupTree(mods: seq<string>): Json { Obj([Member("mods", Arr(Strs(mods)))]) }

  function GroupTrees(groups: seq<seq<string>>): seq<Json> {
    seq(|groups|, i requires 0 <= i < |groups| => GroupTree(groups[i]))
  }

  function DepTree(d: MissingDep): Json {
    Obj([Member("mod", Str(d.mod)), Member("requires", Arr(Strs(d.required)))])
  }

  function DepTrees(deps: seq<MissingDep>): seq<Json> {
    seq(|deps|, i requires 0 <= i < |deps| => DepTree(deps[i]))
  }

  function CuratedTree(ac: ArchiveConflicts): Json {
    Obj([Member("active", Arr(GroupTrees(ac.active))), Member("missingDeps", Arr(DepTrees(ac.missingDeps))),
         Member("dbModCount", Count(ac.dbModCount)), Member("truncated", Count(ac.truncated))])
  }

  function ConflictTree(ac: ArchiveConflicts): Json { Obj([Member("curated", CuratedTree(ac))]) }

  function ManagerName(m: ModManager): string {
    match m case NoManager => "none" case MO2 => "MO2" case Vortex => "Vortex"
  }

  function TypeName(t: ModType): string {
    match t
    case Red4ext => "red4ext"
    case Cet => "cet"
    case RedScript => "redscript"
    case TweakXL => "tweakxl"
    case Archive => "archive"
    case Asi => "asi"
    case Unknown => "unknown"
  }

  function ModTree(m: InstalledMod): Json { Obj(RequiredTree(m) + OptionalTree(m)) }

  function RequiredTree(m: InstalledMod): seq<Member> {
    [Member("name", Str(m.name)), Member("version", Str(m.version)), Member("enabled", Bool(m.enabled)),
     Member("type", Str(TypeName(m.kind)))]
  }

  function OptionalTree(m: InstalledMod): seq<Member> {
    (if m.subpath == "" then [] else [Member("subpath", Str(m.subpath))])
    + (if m.archives == [] then [] else [Member("archives", Arr(Strs(m.archives)))])
  }

  /** The mods that have a name, in order. */
  function NamedMods(mods: seq<InstalledMod>): seq<Json> {
    if mods == [] then []
    else
      NamedMods(mods[..|mods| - 1])
      + if mods[|mods| - 1].name == "" then [] else [ModTree(mods[|mods| - 1])]
  }

  function First<T>(s: seq<T>, n: nat): seq<T> { if |s| <= n then s else s[..n] }

  datatype MaybeSnapshot = NoSnapshot | Have(snapshot: Snapshot)

  function ManagerMembers(s: MaybeSnapshot): seq<Member> {
    [Member("modManager", Str(if s.Have? then ManagerName(s.snapshot.inventory.manager) else "none")),
     Member("modManagerDetails", Str(if s.Have? then s.snapshot.inventory.managerDetails else "")),
     Member("modTruncated", Count(if s.Have? then s.snapshot.inventory.truncated else 0))]
  }

  /** The mods of the document: among the first 2048, those with a name. */
  function ListedMods(s: MaybeSnapshot): seq<Json> {
    if s.Have? then NamedMods(First(s.snapshot.inventory.mods, MAX_INSTALLED_MODS)) else []
  }

  function InventoryMembers(s: MaybeSnapshot): seq<Member> {
    ManagerMembers(s) + [Member("installedMods", Arr(ListedMods(s)))]
  }

  function HeadMembers(s: MaybeSnapshot): seq<Member> {
    [Member("reportType", Str("diagnostic")), Member("tool", Str("REDscope")),
     Member("red4extVersion", Str(if s.Have? then s.snapshot.red4extVersion else "")),
     Member("buildId", Str(if s.Have? then s.snapshot.cp2077BuildString else ""))]
  }

  function HardwareSection(s: MaybeSnapshot): Json { if s.Have? then HardwareTree(s.snapshot.hardware) else Null }

  function SetupSection(s: MaybeSnapshot): Json { if s.Have? then SetupTree(s.snapshot.setupIntegrity) else Null }

  function ConflictSection(s: MaybeSnapshot): Json { if s.Have? then ConflictTree(s.snapshot.archiveConflicts) else Null }

  function SectionMembers(s: MaybeSnapshot): seq<Member> {
    [Member("hardware", HardwareSection(s)), Member("setupIntegrity", SetupSection(s)),
     Member("archiveConflicts", ConflictSection(s))]
  }

  function DiagnosticMembers(s: MaybeSnapshot): seq<Member> {
    HeadMembers(s) + SectionMembers(s) + InventoryMembers(s)
  }

  // ----- Appending pieces -----

  method Put(out: PreallocatedBuffer, text: string)
    requires out.Valid()
    modifies out, out.data
    ensures out.Valid() && out.intended == old(out.intended) + text
  {
    var _ := out.Append(text);
  }

  method Putf(out: PreallocatedBuffer, text: string)
    requires out.Valid() && '\0' !in text
    modifies out, out.data
    ensures out.Valid() && out.intended == old(out.intended) + text
  {
    var _ := out.Appendf(text);
  }

  method PutChar(out: PreallocatedBuffer, c: char)
    requires out.Valid()
    modifies out, out.data
    ensures out.Valid() && out.intended == old(out.intended) + [c]
  {
    var _ := out.AppendChar(c);
  }

  lemma {:induction false} EscapeSnoc(s: string, c: char)
    ensures Escape(s + [c]) == Escape(s) + EscapeChar(c)
  {
    if s == [] {
      assert [c][1..] == [];
      assert s + [c] == [c];
    } else {
      assert (s + [c])[1..] == s[1..] + [c];
      EscapeSnoc(s[1..], c);
    }
  }

  /** `\u00XX` with capital hexadecimal digits. */
  function UnicodeEscape(c: char): (t: string)
    requires c < ' '
    ensures '\0' !in t
  {
    ['\\', 'u', '0', '0', HexDigit(c as int / 16), HexDigit(c as int % 16)]
  }

  method AppendEscaped(out: PreallocatedBuffer, c: char)
    requires out.Valid()
    modifies out, out.data
    ensures out.Valid() && out.intended == old(out.intended) + EscapeChar(c)
  {
    match c {
      case '"' => Put(out, ['\\', '"']);
      case '\\' => Put(out, ['\\', '\\']);
      case '\n' => Put(out, ['\\', 'n']);
      case '\r' => Put(out, ['\\', 'r']);
      case '\t' => Put(out, ['\\', 't']);
      case _ =>
        if c < ' ' {
          Putf(out, UnicodeEscape(c));
        } else {
          PutChar(out, c);
        }
    }
  }

  lemma Glue(a: string, b: string, c: string)
    ensures a + b + c == a + (b + c)
  {
  }

  lemma EscapeNext(s: string, i: nat)
    requires i < |s|
    ensures ['"'] + Escape(s[..i]) + EscapeChar(s[i]) == ['"'] + Escape(s[..i + 1])
  {
    assert s[..i + 1] == s[..i] + [s[i]];
    EscapeSnoc(s[..i], s[i]);
  }

  method AppendJsonStringN(out: PreallocatedBuffer, s: string)
    requires out.Valid()
    modifies out, out.data
    ensures out.Valid() && out.intended == old(out.intended) + Quote(s)
  {
    ghost var before := out.intended;
    PutChar(out, '"');
    assert s[..0] == [];
    for i := 0 to |s|
      invariant out.Valid() && out.intended == before + (['"'] + Escape(s[..i]))
    {
      AppendEscaped(out, s[i]);
      Glue(before, ['"'] + Escape(s[..i]), EscapeChar(s[i]));
      EscapeNext(s, i);
    }
    assert s[..|s|] == s;
    PutChar(out, '"');
    Glue(before, ['"'] + Escape(s), ['"']);
  }

  // ----- Members of an object being written -----

  /** The object so far: what was there before it, and the members written. */
  ghost predicate Writing(out: PreallocatedBuffer, before: string, ms: seq<Member>)
    reads out, out.data
  {
    out.Valid() && out.intended == before + RenderMembers(ms)
  }

  lemma StringMemberText(before: string, ms: seq<Member>, key: string, s: string)
    ensures before + RenderMembers(ms) + (Lead(|ms|) + Key(key)) + Quote(s)
         == before + RenderMembers(ms + [Member(key, Str(s))])
  {
    var m := Member(key, Str(s));
    MembersSnoc(ms, m);
    assert RenderMember(m) == Key(key) + Quote(s);
    Regroup3(before, RenderMembers(ms), Lead(|ms|) + Key(key), Quote(s));
    Glue(Lead(|ms|), Key(key), Quote(s));
    Glue(RenderMembers(ms), Lead(|ms|), Key(key) + Quote(s));
  }

  /** One string member; `first` says that no separator is needed. */
  method StringMember(out: PreallocatedBuffer, key: string, s: string, first: bool,
                      ghost before: string, ghost ms: seq<Member>)
    requires Writing(out, before, ms) && first == (ms == [])
    modifies out, out.data
    ensures Writing(out, before, ms + [Member(key, Str(s))])
  {
    Put(out, (if first then [] else COMMA) + Key(key));
    AppendJsonStringN(out, s);
    StringMemberText(before, ms, key, s);
  }

  // Members whose values are numbers, written by one formatted append.

  function CountMembers(cs: seq<(string, nat)>): seq<Member> {
    if cs == [] then [] else [Member(cs[0].0, Count(cs[0].1))] + CountMembers(cs[1..])
  }

  function CountsText(cs: seq<(string, nat)>): string {
    if cs == [] then [] else COMMA + (Key(cs[0].0) + Decimal(cs[0].1)) + CountsText(cs[1..])
  }

  lemma {:induction false} CountsFollow(ms: seq<Member>, cs: seq<(string, nat)>)
    requires ms != []
    ensures RenderMembers(ms + CountMembers(cs)) == RenderMembers(ms) + CountsText(cs)
    decreases |cs|
  {
    if cs == [] {
      assert ms + [] == ms;
    } else {
      var m := Member(cs[0].0, Count(cs[0].1));
      assert ms + CountMembers(cs) == (ms + [m]) + CountMembers(cs[1..]);
      CountsFollow(ms + [m], cs[1..]);
      MembersSnoc(ms, m);
      Regroup3(RenderMembers(ms), COMMA, RenderMember(m), CountsText(cs[1..]));
      Glue(COMMA, RenderMember(m), CountsText(cs[1..]));
    }
  }

  lemma {:induction false} CountsHaveNoNul(cs: seq<(string, nat)>)
    requires forall i :: 0 <= i < |cs| ==> Plain(cs[i].0)
    ensures '\0' !in CountsText(cs)
  {
    if cs != [] {
      CountsHaveNoNul(cs[1..]);
      assert Plain(cs[0].0) && AllDigits(Decimal(cs[0].1));
    }
  }

  method CountMembersf(out: PreallocatedBuffer, cs: seq<(string, nat)>, ghost before: string, ghost ms: seq<Member>)
    requires Writing(out, before, ms) && ms != [] && forall i :: 0 <= i < |cs| ==> Plain(cs[i].0)
    modifies out, out.data
    ensures Writing(out, before, ms + CountMembers(cs))
  {
    CountsHaveNoNul(cs);
    Putf(out, CountsText(cs));
    CountsFollow(ms, cs);
    Glue(before, RenderMembers(ms), CountsText(cs));
  }

  lemma ThreeCounts(k: string, n: nat, l: string, m: nat, o: string, p: nat)
    ensures CountMembers([(k, n)]) == [Member(k, Count(n))]
    ensures CountMembers([(k, n), (l, m), (o, p)]) == [Member(k, Count(n)), Member(l, Count(m)), Member(o, Count(p))]
  {
    var cs := [(k, n), (l, m), (o, p)];
    assert cs[1..] == [(l, m), (o, p)] && cs[1..][1..] == [(o, p)];
    assert [(o, p)][1..] == [] && [(k, n)][1..] == [];
    assert CountMembers([(o, p)]) == [Member(o, Count(p))];
    assert [(l, m), (o, p)][1..] == [(o, p)];
    assert CountMembers([(l, m), (o, p)]) == [Member(l, Count(m)), Member(o, Count(p))];
  }

  // ----- Lists -----

  /** The elements of a list of strings. */
  method EmitStrings(out: PreallocatedBuffer, ss: seq<string>)
    requires out.Valid()
    modifies out, out.data
    ensures out.Valid() && out.intended == old(out.intended) + RenderItems(Strs(ss))
  {
    ghost var before := out.intended;
    for i := 0 to |ss|
      invariant out.Valid() && out.intended == before + RenderItems(Strs(ss)[..i])
    {
      if i > 0 { Put(out, COMMA); }
      AppendJsonStringN(out, ss[i]);
      ListStep(before, Strs(ss), i);
    }
    assert Strs(ss)[..|ss|] == Strs(ss);
  }

  /** One more element of a list. */
  lemma ListStep(before: string, items: seq<Json>, i: nat)
    requires i < |items|
    ensures items[..i + 1] == items[..i] + [items[i]]
    ensures before + RenderItems(items[..i]) + Lead(i) + Render(items[i]) == before + RenderItems(items[..i + 1])
    ensures i == 0 ==> before + RenderItems(items[..i]) + Render(items[i]) == before + RenderItems(items[..i + 1])
  {
    assert items[..i + 1] == items[..i] + [items[i]];
    ItemsSnoc(items[..i], items[i]);
    Regroup3(before, RenderItems(items[..i]), Lead(i), Render(items[i]));
    Glue(RenderItems(items[..i]), Lead(i), Render(items[i]));
    if i == 0 { assert before + [] == before; assert [] + Render(items[i]) == Render(items[i]); }
  }

  const OPEN: string := ['{', ' ']
  const CLOSE: string := [' ', '}']

  lemma OneMemberText(k: string, items: seq<Json>)
    ensures Render(Obj([Member(k, Arr(items))])) == OPEN + Key(k) + ['['] + RenderItems(items) + [']', ' ', '}']
  {
    var t := RenderItems(items);
    assert Render(Arr(items)) == ['['] + t + [']'];
    assert RenderMember(Member(k, Arr(items))) == Key(k) + (['['] + t + [']']);
  }

  method EmitGroup(out: PreallocatedBuffer, mods: seq<string>)
    requires out.Valid()
    modifies out, out.data
    ensures out.Valid() && out.intended == old(out.intended) + Render(GroupTree(mods))
  {
    ghost var before := out.intended;
    Put(out, OPEN + Key("mods") + ['[']);
    EmitStrings(out, mods);
    Put(out, [']', ' ', '}']);
    OneMemberText("mods", Strs(mods));
    Regroup3(before, OPEN + Key("mods") + ['['], RenderItems(Strs(mods)), [']', ' ', '}']);
    Glue(OPEN + Key("mods") + ['['], RenderItems(Strs(mods)), [']', ' ', '}']);
  }

  lemma ListText(before: string, ms: string, lead: string, key: string, t: string)
    ensures before + ms + (lead + key + ['[']) + t + [']'] == before + (ms + lead + (key + (['['] + t + [']'])))
  {
    Regroup4(before, ms, lead + key + ['['], t, [']']);
    Regroup3(lead, key, ['['], t + [']']);
    Glue(['['], t, [']']);
    Glue(ms, lead, key + (['['] + t + [']']));
  }

  /** A list member added to an object, up to its closing bracket. */
  lemma ListMemberText(before: string, ms: seq<Member>, key: string, items: seq<Json>)
    ensures before + RenderMembers(ms) + (Lead(|ms|) + Key(key) + ['[']) + RenderItems(items) + [']']
         == before + RenderMembers(ms + [Member(key, Arr(items))])
  {
    var m := Member(key, Arr(items));
    assert RenderMember(m) == Key(key) + Render(Arr(items));
    MembersSnoc(ms, m);
    ListText(before, RenderMembers(ms), Lead(|ms|), Key(key), RenderItems(items));
  }

  lemma ClosedObject(before: string, ms: seq<Member>)
    ensures before + OPEN + RenderMembers(ms) + CLOSE == before + Render(Obj(ms))
  {
    Regroup3(before, OPEN, RenderMembers(ms), CLOSE);
    Glue(OPEN, RenderMembers(ms), CLOSE);
  }

  /** A list of strings as a later member of an object; the closing bracket is the caller's. */
  method StringListMember(out: PreallocatedBuffer, key: string, ss: seq<string>, ghost before: string, ghost ms: seq<Member>)
    requires Writing(out, before, ms) && ms != []
    modifies out, out.data
    ensures out.Valid() && out.intended + [']'] == before + RenderMembers(ms + [Member(key, Arr(Strs(ss)))])
  {
    Put(out, COMMA + Key(key) + ['[']);
    EmitStrings(out, ss);
    ListMemberText(before, ms, key, Strs(ss));
  }

  method EmitDep(out: PreallocatedBuffer, d: MissingDep)
    requires out.Valid()
    modifies out, out.data
    ensures out.Valid() && out.intended == old(out.intended) + Render(DepTree(d))
  {
    ghost var before := out.intended;
    Put(out, OPEN);
    ghost var ms := [];
    assert before + OPEN + [] == before + OPEN;
    StringMember(out, "mod", d.mod, true, before + OPEN, ms);
    ms := ms + [Member("mod", Str(d.mod))];
    StringListMember(out, "requires", d.required, before + OPEN, ms);
    ghost var upTo := out.intended;
    ms := ms + [Member("requires", Arr(Strs(d.required)))];
    Put(out, [']'] + CLOSE);
    Glue(upTo, [']'], CLOSE);
    ClosedObject(before, ms);
    assert DepTree(d) == Obj(ms);
  }

  method EmitIssue(out: PreallocatedBuffer, i: SetupIssue)
    requires out.Valid()
    modifies out, out.data
    ensures out.Valid() && out.intended == old(out.intended) + Render(IssueTree(i))
  {
    ghost var before := out.intended;
    Put(out, OPEN);
    ghost var ms := [];
    assert before + OPEN + [] == before + OPEN;
    StringMember(out, "kind", i.kind, true, before + OPEN, ms);
    ms := ms + [Member("kind", Str(i.kind))];
    StringMember(out, "detail", i.detail, false, before + OPEN, ms);
    ms := ms + [Member("detail", Str(i.detail))];
    Put(out, CLOSE);
    ClosedObject(before, ms);
    assert IssueTree(i) == Obj(ms);
  }

  /** One installed mod. */
  method EmitMod(out: PreallocatedBuffer, m: InstalledMod)
    requires out.Valid()
    modifies out, out.data
    ensures out.Valid() && out.intended == old(out.intended) + Render(ModTree(m))
  {
    ghost var before := out.intended;
    Put(out, OPEN);
    assert before + OPEN + [] == before + OPEN;
    RequiredMembers(out, m, before + OPEN);
    OptionalMembers(out, m, before + OPEN, RequiredTree(m));
    Put(out, CLOSE);
    ClosedObject(before, RequiredTree(m) + OptionalTree(m));
  }

  method RequiredMembers(out: PreallocatedBuffer, m: InstalledMod, ghost start: string)
    requires Writing(out, start, [])
    modifies out, out.data
    ensures Writing(out, start, RequiredTree(m))
  {
    StringMember(out, "name", m.name, true, start, []);
    ghost var ms := [] + [Member("name", Str(m.name))];
    StringMember(out, "version", m.version, false, start, ms);
    ms := ms + [Member("version", Str(m.version))];
    EnabledAndType(out, m.enabled, TypeName(m.kind), start, ms);
    assert ms + [Member("enabled", Bool(m.enabled)), Member("type", Str(TypeName(m.kind)))] == RequiredTree(m);
  }

  method OptionalMembers(out: PreallocatedBuffer, m: InstalledMod, ghost before: string, ghost ms: seq<Member>)
    requires Writing(out, before, ms) && ms != []
    modifies out, out.data
    ensures Writing(out, before, ms + OptionalTree(m))
  {
    ghost var all := ms;
    if m.subpath != "" {
      StringMember(out, "subpath", m.subpath, false, before, ms);
      all := all + [Member("subpath", Str(m.subpath))];
    }
    if m.archives != [] {
      StringListMember(out, "archives", m.archives, before, all);
      all := all + [Member("archives", Arr(Strs(m.archives)))];
      Put(out, [']']);
    }
    assert all == ms + OptionalTree(m);
  }

  method EnabledAndType(out: PreallocatedBuffer, enabled: bool, kind: string, ghost before: string, ghost ms: seq<Member>)
    requires Writing(out, before, ms) && ms != []
    modifies out, out.data
    ensures Writing(out, before, ms + [Member("enabled", Bool(enabled)), Member("type", Str(kind))])
  {
    var flag := if enabled then "true" else "false";
    var text := (COMMA + (Key("enabled") + flag)) + (COMMA + Key("type"));
    assert '\0' !in Key("enabled") && '\0' !in Key("type") && '\0' !in flag;
    Putf(out, text);
    AppendJsonStringN(out, kind);
    EnabledAndTypeText(before, ms, enabled, kind);
  }

  lemma EnabledAndTypeText(before: string, ms: seq<Member>, enabled: bool, kind: string)
    requires ms != []
    ensures before + RenderMembers(ms)
            + ((COMMA + (Key("enabled") + if enabled then "true" else "false")) + (COMMA + Key("type"))) + Quote(kind)
         == before + RenderMembers(ms + [Member("enabled", Bool(enabled)), Member("type", Str(kind))])
  {
    var e := Member("enabled", Bool(enabled));
    var t := Member("type", Str(kind));
    MembersSnoc(ms, e);
    MembersSnoc(ms + [e], t);
    assert ms + [e] + [t] == ms + [e, t];
    assert RenderMember(e) == Key("enabled") + if enabled then "true" else "false";
    assert RenderMember(t) == Key("type") + Quote(kind);
    EnabledText(before, RenderMembers(ms), RenderMember(e), Key("type"), Quote(kind));
  }

  lemma EnabledText(before: string, ms: string, e: string, k: string, q: string)
    ensures before + ms + ((COMMA + e) + (COMMA + k)) + q == before + (ms + COMMA + e + COMMA + (k + q))
  {
    Regroup3(before, ms, (COMMA + e) + (COMMA + k), q);
    Glue(COMMA + e, COMMA + k, q);
    Glue(COMMA, k, q);
    Regroup4(ms, COMMA, e, COMMA, k + q);
    Glue(COMMA, e, COMMA + (k + q));
  }

  // ----- Lines of the document -----

  /** A member on its own line, with more to follow. */
  function Line(m: Member): string { INDENT + RenderMember(m) + [',', '\n'] }

  function OpenLines(ms: seq<Member>): string {
    if ms == [] then [] else OpenLines(ms[..|ms| - 1]) + Line(ms[|ms| - 1])
  }

  lemma LineParts(before: string, key: string, v: Json, t: string)
    requires Render(v) == t
    ensures before + (INDENT + Key(key)) + t + [',', '\n'] == before + Line(Member(key, v))
  {
    Regroup3(before, INDENT + Key(key), t, [',', '\n']);
    Regroup3(INDENT, Key(key), t, [',', '\n']);
    Glue(INDENT, Key(key) + t, [',', '\n']);
    Glue(Key(key), t, [',', '\n']);
    Glue(INDENT, Key(key), t + [',', '\n']);
  }

  method StringLine(out: PreallocatedBuffer, key: string, s: string)
    requires out.Valid()
    modifies out, out.data
    ensures out.Valid() && out.intended == old(out.intended) + Line(Member(key, Str(s)))
  {
    ghost var before := out.intended;
    Put(out, INDENT + Key(key));
    AppendJsonStringN(out, s);
    Put(out, [',', '\n']);
    LineParts(before, key, Str(s), Quote(s));
  }

  method NullLine(out: PreallocatedBuffer, key: string)
    requires out.Valid()
    modifies out, out.data
    ensures out.Valid() && out.intended == old(out.intended) + Line(Member(key, Null))
  {
    ghost var before := out.intended;
    Put(out, INDENT + Key(key));
    ghost var upTo := out.intended;
    Put(out, "null" + [',', '\n']);
    Glue(upTo, "null", [',', '\n']);
    LineParts(before, key, Null, "null");
  }

  /** The end of an object that is a line of its own. */
  lemma ObjectLine(before: string, key: string, ms: seq<Member>)
    ensures before + (INDENT + Key(key)) + OPEN + RenderMembers(ms) + (CLOSE + [',', '\n'])
         == before + Line(Member(key, Obj(ms)))
  {
    var start := before + (INDENT + Key(key));
    Glue(start + OPEN + RenderMembers(ms), CLOSE, [',', '\n']);
    ClosedObject(start, ms);
    LineParts(before, key, Obj(ms), Render(Obj(ms)));
  }

  method EmitHardwareJson(out: PreallocatedBuffer, s: MaybeSnapshot)
    requires out.Valid()
    modifies out, out.data
    ensures out.Valid() && out.intended == old(out.intended) + Line(Member("hardware", HardwareSection(s)))
  {
    if s.NoSnapshot? {
      NullLine(out, "hardware");
      return;
    }
    var hw := s.snapshot.hardware;
    ghost var before := out.intended;
    Put(out, INDENT + Key("hardware"));
    Put(out, OPEN);
    ghost var start := before + (INDENT + Key("hardware")) + OPEN;
    assert start + [] == start;
    ghost var ms := HardwareHead(hw);
    EmitCpu(out, hw, start);
    if hw.gpus != [] {
      EmitGpu(out, hw.gpus[0], start, ms);
      ms := ms + GpuMembers(hw.gpus);
    }
    EmitRamAndOs(out, hw, start, ms);
    ms := ms + HardwareTail(hw);
    Put(out, CLOSE + [',', '\n']);
    ObjectLine(before, "hardware", ms);
    assert HardwareTree(hw) == Obj(ms) by {
      assert HardwareHead(hw) + GpuMembers(hw.gpus) + HardwareTail(hw) == ms;
    }
  }

  method EmitCpu(out: PreallocatedBuffer, hw: HardwareSpecs, ghost start: string)
    requires Writing(out, start, [])
    modifies out, out.data
    ensures Writing(out, start, HardwareHead(hw))
  {
    StringMember(out, "cpu", hw.cpuName, true, start, []);
    ghost var ms := [Member("cpu", Str(hw.cpuName))];
    assert [] + ms == ms;
    CountMembersf(out, [("cpuCores", hw.cpuPhysicalCores), ("cpuThreads", hw.cpuLogicalCores),
                        ("cpuMaxMHz", hw.cpuMaxTurboMHz)], start, ms);
    ThreeCounts("cpuCores", hw.cpuPhysicalCores, "cpuThreads", hw.cpuLogicalCores, "cpuMaxMHz", hw.cpuMaxTurboMHz);
    assert HardwareHead(hw)
        == ms + [Member("cpuCores", Count(hw.cpuPhysicalCores)), Member("cpuThreads", Count(hw.cpuLogicalCores)),
                 Member("cpuMaxMHz", Count(hw.cpuMaxTurboMHz))];
  }

  method EmitGpu(out: PreallocatedBuffer, gpu: Gpu, ghost start: string, ghost ms: seq<Member>)
    requires Writing(out, start, ms) && ms != []
    modifies out, out.data
    ensures Writing(out, start, ms + GpuMembers([gpu]))
  {
    StringMember(out, "gpu", gpu.name, false, start, ms);
    ghost var ms1 := ms + [Member("gpu", Str(gpu.name))];
    StringMember(out, "gpuDriver", gpu.driverVersion, false, start, ms1);
    ghost var ms2 := ms1 + [Member("gpuDriver", Str(gpu.driverVersion))];
    CountMembersf(out, [("vramMB", gpu.vramDedicatedBytes / MEBIBYTE)], start, ms2);
    ThreeCounts("vramMB", gpu.vramDedicatedBytes / MEBIBYTE, "", 0, "", 0);
    assert ms2 + [Member("vramMB", Count(gpu.vramDedicatedBytes / MEBIBYTE))] == ms + GpuMembers([gpu]);
  }

  method EmitRamAndOs(out: PreallocatedBuffer, hw: HardwareSpecs, ghost start: string, ghost ms: seq<Member>)
    requires Writing(out, start, ms) && ms != []
    modifies out, out.data
    ensures Writing(out, start, ms + HardwareTail(hw))
  {
    EmitRam(out, hw, start, ms);
    EmitOsAndDisplay(out, hw, start, ms + RamMembers(hw));
    assert ms + RamMembers(hw) + OsTail(hw) == ms + HardwareTail(hw);
  }

  method EmitRam(out: PreallocatedBuffer, hw: HardwareSpecs, ghost start: string, ghost ms: seq<Member>)
    requires Writing(out, start, ms) && ms != []
    modifies out, out.data
    ensures Writing(out, start, ms + RamMembers(hw))
  {
    var ram := hw.ramTotalBytes / MEBIBYTE;
    CountMembersf(out, [("ramTotalMB", ram)], start, ms);
    ThreeCounts("ramTotalMB", ram, "", 0, "", 0);
    ghost var ms1 := ms + [Member("ramTotalMB", Count(ram))];
    StringMember(out, "ramType", hw.ramType, false, start, ms1);
    ghost var ms2 := ms1 + [Member("ramType", Str(hw.ramType))];
    CountMembersf(out, [("ramSpeedMHz", hw.ramSpeedMHz)], start, ms2);
    ThreeCounts("ramSpeedMHz", hw.ramSpeedMHz, "", 0, "", 0);
    assert ms2 + [Member("ramSpeedMHz", Count(hw.ramSpeedMHz))] == ms + RamMembers(hw);
  }

  method EmitOsAndDisplay(out: PreallocatedBuffer, hw: HardwareSpecs, ghost start: string, ghost ms: seq<Member>)
    requires Writing(out, start, ms) && ms != []
    modifies out, out.data
    ensures Writing(out, start, ms + OsTail(hw))
  {
    EmitOs(out, hw, start, ms);
    EmitDisplay(out, hw, start, ms + OsMembers(hw));
    assert ms + OsMembers(hw) + DisplayTail(hw) == ms + OsTail(hw);
  }

  method EmitOs(out: PreallocatedBuffer, hw: HardwareSpecs, ghost start: string, ghost ms: seq<Member>)
    requires Writing(out, start, ms) && ms != []
    modifies out, out.data
    ensures Writing(out, start, ms + OsMembers(hw))
  {
    StringMember(out, "os", hw.osProductName, false, start, ms);
    ghost var ms1 := ms + [Member("os", Str(hw.osProductName))];
    StringMember(out, "osVersion", hw.osDisplayVersion, false, start, ms1);
    ghost var ms2 := ms1 + [Member("osVersion", Str(hw.osDisplayVersion))];
    CountMembersf(out, [("osBuild", hw.osBuild)], start, ms2);
    ThreeCounts("osBuild", hw.osBuild, "", 0, "", 0);
    assert ms2 + [Member("osBuild", Count(hw.osBuild))] == ms + OsMembers(hw);
  }

  method EmitDisplay(out: PreallocatedBuffer, hw: HardwareSpecs, ghost start: string, ghost ms: seq<Member>)
    requires Writing(out, start, ms) && ms != []
    modifies out, out.data
    ensures Writing(out, start, ms + DisplayTail(hw))
  {
    CountMembersf(out, [("displayW", hw.displayWidth), ("displayH", hw.displayHeight),
                        ("displayHz", hw.displayRefreshHz)], start, ms);
    ThreeCounts("displayW", hw.displayWidth, "displayH", hw.displayHeight, "displayHz", hw.displayRefreshHz);
    ghost var ms1 := ms + [Member("displayW", Count(hw.displayWidth)), Member("displayH", Count(hw.displayHeight)),
                           Member("displayHz", Count(hw.displayRefreshHz))];
    StringMember(out, "displayHdr", hw.displayHdrState, false, start, ms1);
    assert ms1 + [Member("displayHdr", Str(hw.displayHdrState))] == ms + DisplayTail(hw);
  }

  method EmitSetupIntegrity(out: PreallocatedBuffer, s: MaybeSnapshot)
    requires out.Valid()
    modifies out, out.data
    ensures out.Valid() && out.intended == old(out.intended) + Line(Member("setupIntegrity", SetupSection(s)))
  {
    if s.NoSnapshot? {
      NullLine(out, "setupIntegrity");
      return;
    }
    var si := s.snapshot.setupIntegrity;
    ghost var before := out.intended;
    ghost var start := before + (INDENT + Key("setupIntegrity")) + OPEN;
    Put(out, INDENT + Key("setupIntegrity"));
    Put(out, OPEN + Key("issues") + ['[']);
    ghost var upTo := out.intended;
    for i := 0 to |si.issues|
      invariant out.Valid() && out.intended == upTo + RenderItems(IssueTrees(si.issues)[..i])
    {
      if i > 0 { Put(out, COMMA); }
      EmitIssue(out, si.issues[i]);
      ListStep(upTo, IssueTrees(si.issues), i);
    }
    assert IssueTrees(si.issues)[..|si.issues|] == IssueTrees(si.issues);
    EndOfSetup(out, si, before);
  }

  /** `], "truncated": n },` after the list of issues. */
  method EndOfSetup(out: PreallocatedBuffer, si: SetupIntegrity, ghost before: string)
    requires out.Valid()
    requires out.intended == before + (INDENT + Key("setupIntegrity")) + (OPEN + Key("issues") + ['['])
                             + RenderItems(IssueTrees(si.issues))
    modifies out, out.data
    ensures out.Valid() && out.intended == before + Line(Member("setupIntegrity", SetupTree(si)))
  {
    var cs := [("truncated", si.truncated)];
    CountsHaveNoNul(cs);
    SetupLine(before, out.intended, si);
    Putf(out, [']'] + CountsText(cs) + (CLOSE + [',', '\n']));
  }

  lemma SetupLine(before: string, list: string, si: SetupIntegrity)
    requires list == before + (INDENT + Key("setupIntegrity")) + (OPEN + Key("issues") + ['['])
                     + RenderItems(IssueTrees(si.issues))
    ensures list + ([']'] + CountsText([("truncated", si.truncated)]) + (CLOSE + [',', '\n']))
         == before + Line(Member("setupIntegrity", SetupTree(si)))
  {
    var head := before + (INDENT + Key("setupIntegrity"));
    var start := head + OPEN;
    var ms := [Member("issues", Arr(IssueTrees(si.issues)))];
    var cs := [("truncated", si.truncated)];
    FirstListText(head, "issues", IssueTrees(si.issues));
    Regroup3(list, [']'], CountsText(cs), CLOSE + [',', '\n']);
    CountsFollow(ms, cs);
    Glue(start, RenderMembers(ms), CountsText(cs));
    ObjectLine(before, "setupIntegrity", ms + CountMembers(cs));
    SetupTreeParts(si);
  }

  lemma SetupTreeParts(si: SetupIntegrity)
    ensures SetupTree(si)
         == Obj([Member("issues", Arr(IssueTrees(si.issues)))] + CountMembers([("truncated", si.truncated)]))
  {
    ThreeCounts("truncated", si.truncated, "", 0, "", 0);
  }

  /** A list as the first member of an object, closed. */
  lemma FirstListText(head: string, key: string, items: seq<Json>)
    ensures head + (OPEN + Key(key) + ['[']) + RenderItems(items) + [']']
         == head + OPEN + RenderMembers([Member(key, Arr(items))])
  {
    ListMemberText(head + OPEN, [], key, items);
    assert Lead(0) + Key(key) + ['['] == Key(key) + ['['];
    assert head + OPEN + [] == head + OPEN;
    assert head + (OPEN + Key(key) + ['[']) == head + OPEN + (Key(key) + ['[']);
    assert [] + [Member(key, Arr(items))] == [Member(key, Arr(items))];
  }

  method EmitArchiveConflicts(out: PreallocatedBuffer, s: MaybeSnapshot)
    requires out.Valid()
    modifies out, out.data
    ensures out.Valid() && out.intended == old(out.intended) + Line(Member("archiveConflicts", ConflictSection(s)))
  {
    if s.NoSnapshot? {
      NullLine(out, "archiveConflicts");
      return;
    }
    var ac := s.snapshot.archiveConflicts;
    ghost var before := out.intended;
    Put(out, INDENT + Key("archiveConflicts"));
    ghost var head := out.intended + (OPEN + Key("curated"));
    Put(out, (OPEN + Key("curated")) + (OPEN + Key("active") + ['[']));
    Glue(before + (INDENT + Key("archiveConflicts")), OPEN + Key("curated"), OPEN + Key("active") + ['[']);
    ghost var upTo := out.intended;
    for i := 0 to |ac.active|
      invariant out.Valid() && out.intended == upTo + RenderItems(GroupTrees(ac.active)[..i])
    {
      if i > 0 { Put(out, COMMA); }
      EmitGroup(out, ac.active[i]);
      ListStep(upTo, GroupTrees(ac.active), i);
    }
    assert GroupTrees(ac.active)[..|ac.active|] == GroupTrees(ac.active);
    EmitMissingDeps(out, ac, head);
    EndOfConflicts(out, ac, before);
  }

  function ActiveMember(ac: ArchiveConflicts): Member { Member("active", Arr(GroupTrees(ac.active))) }

  function DepsMember(ac: ArchiveConflicts): Member { Member("missingDeps", Arr(DepTrees(ac.missingDeps))) }

  /** `], "missingDeps": [` and the list. */
  method EmitMissingDeps(out: PreallocatedBuffer, ac: ArchiveConflicts, ghost head: string)
    requires out.Valid()
    requires out.intended == head + (OPEN + Key("active") + ['[']) + RenderItems(GroupTrees(ac.active))
    modifies out, out.data
    ensures out.Valid()
    ensures out.intended + [']'] == head + OPEN + RenderMembers([ActiveMember(ac), DepsMember(ac)])
  {
    ghost var ms := [ActiveMember(ac)];
    ghost var list := out.intended;
    FirstListText(head, "active", GroupTrees(ac.active));
    Put(out, [']'] + (COMMA + Key("missingDeps") + ['[']));
    Glue(list, [']'], COMMA + Key("missingDeps") + ['[']);
    ghost var upTo := out.intended;
    for i := 0 to |ac.missingDeps|
      invariant out.Valid() && out.intended == upTo + RenderItems(DepTrees(ac.missingDeps)[..i])
    {
      if i > 0 { Put(out, COMMA); }
      EmitDep(out, ac.missingDeps[i]);
      ListStep(upTo, DepTrees(ac.missingDeps), i);
    }
    assert DepTrees(ac.missingDeps)[..|ac.missingDeps|] == DepTrees(ac.missingDeps);
    ListMemberText(head + OPEN, ms, "missingDeps", DepTrees(ac.missingDeps));
    assert ms + [DepsMember(ac)] == [ActiveMember(ac), DepsMember(ac)];
  }

  /** `], "dbModCount": n, "truncated": m } },` after the two lists. */
  method EndOfConflicts(out: PreallocatedBuffer, ac: ArchiveConflicts, ghost before: string)
    requires out.Valid()
    requires out.intended + [']']
          == before + (INDENT + Key("archiveConflicts")) + (OPEN + Key("curated")) + OPEN
             + RenderMembers([ActiveMember(ac), DepsMember(ac)])
    modifies out, out.data
    ensures out.Valid() && out.intended == before + Line(Member("archiveConflicts", ConflictTree(ac)))
  {
    ghost var start := before + (INDENT + Key("archiveConflicts")) + (OPEN + Key("curated")) + OPEN;
    ghost var ms := [ActiveMember(ac), DepsMember(ac)];
    var cs := [("dbModCount", ac.dbModCount), ("truncated", ac.truncated)];
    var close := CLOSE + (CLOSE + [',', '\n']);
    ghost var list := out.intended;
    CountsHaveNoNul(cs);
    Putf(out, [']'] + (CountsText(cs) + close));
    Glue(list, [']'], CountsText(cs) + close);
    Glue(start + RenderMembers(ms), CountsText(cs), close);
    CountsFollow(ms, cs);
    Glue(start, RenderMembers(ms), CountsText(cs));
    TwoCounts("dbModCount", ac.dbModCount, "truncated", ac.truncated);
    ghost var all := ms + CountMembers(cs);
    assert out.intended == start + RenderMembers(all) + close;
    ConflictLine(before, all);
    assert CuratedTree(ac) == Obj(all);
  }

  lemma TwoCounts(k: string, n: nat, l: string, m: nat)
    ensures CountMembers([(k, n), (l, m)]) == [Member(k, Count(n)), Member(l, Count(m))]
  {
    assert [(k, n), (l, m)][1..] == [(l, m)] && [(l, m)][1..] == [];
    assert CountMembers([(l, m)]) == [Member(l, Count(m))];
  }

  lemma ConflictLine(before: string, ms: seq<Member>)
    ensures before + (INDENT + Key("archiveConflicts")) + (OPEN + Key("curated")) + OPEN + RenderMembers(ms)
            + (CLOSE + (CLOSE + [',', '\n']))
         == before + Line(Member("archiveConflicts", Obj([Member("curated", Obj(ms))])))
  {
    var head := before + (INDENT + Key("archiveConflicts"));
    var inner := Member("curated", Obj(ms));
    ClosedObject(head + (OPEN + Key("curated")), ms);
    Glue(head + (OPEN + Key("curated")) + OPEN + RenderMembers(ms), CLOSE, CLOSE + [',', '\n']);
    assert RenderMember(inner) == Key("curated") + Render(Obj(ms));
    Glue(head, OPEN + Key("curated"), Render(Obj(ms)));
    Glue(OPEN, Key("curated"), Render(Obj(ms)));
    Glue(head, OPEN, RenderMember(inner));
    assert RenderMembers([inner]) == RenderMember(inner);
    ObjectLine(before, "archiveConflicts", [inner]);
  }

  method EmitModInventory(out: PreallocatedBuffer, s: MaybeSnapshot, ghost before: string, ghost done: seq<Member>)
    requires out.Valid() && out.intended == before + OpenLines(done)
    modifies out, out.data
    ensures out.Valid() && out.intended == before + RenderLines(done + InventoryMembers(s))
  {
    EmitManager(out, s, before, done);
    ghost var start := out.intended;
    ListLine(out, s);
    InventoryText(before, start, done, s);
  }

  lemma InventoryText(before: string, start: string, done: seq<Member>, s: MaybeSnapshot)
    requires start == before + OpenLines(done + ManagerMembers(s))
    ensures start + (INDENT + Key("installedMods") + ['[']) + RenderItems(ListedMods(s)) + [']', '\n']
         == before + RenderLines(done + InventoryMembers(s))
  {
    var lines := done + ManagerMembers(s);
    LastLineText(start, "installedMods", ListedMods(s));
    ClosesLines(before, lines, Member("installedMods", Arr(ListedMods(s))));
    assert lines + [Member("installedMods", Arr(ListedMods(s)))] == done + InventoryMembers(s);
  }

  /** The last line: the list of mods. */
  method ListLine(out: PreallocatedBuffer, s: MaybeSnapshot)
    requires out.Valid()
    modifies out, out.data
    ensures out.Valid() && out.intended
         == old(out.intended) + (INDENT + Key("installedMods") + ['[']) + RenderItems(ListedMods(s)) + [']', '\n']
  {
    Put(out, INDENT + Key("installedMods") + ['[']);
    ghost var list := out.intended;
    if s.Have? {
      EmitMods(out, s.snapshot.inventory.mods);
    } else {
      assert list + RenderItems([]) == list;
    }
    Put(out, [']', '\n']);
  }

  method EmitManager(out: PreallocatedBuffer, s: MaybeSnapshot, ghost before: string, ghost done: seq<Member>)
    requires out.Valid() && out.intended == before + OpenLines(done)
    modifies out, out.data
    ensures out.Valid() && out.intended == before + OpenLines(done + ManagerMembers(s))
  {
    StringLine(out, "modManager", if s.Have? then ManagerName(s.snapshot.inventory.manager) else "none");
    StringLine(out, "modManagerDetails", if s.Have? then s.snapshot.inventory.managerDetails else "");
    CountLine(out, "modTruncated", if s.Have? then s.snapshot.inventory.truncated else 0);
    ThreeLines(before, done, ManagerMembers(s));
  }

  lemma ThreeLines(before: string, done: seq<Member>, ms: seq<Member>)
    requires |ms| == 3
    ensures before + OpenLines(done) + Line(ms[0]) + Line(ms[1]) + Line(ms[2]) == before + OpenLines(done + ms)
  {
    LinesSoFar(before, done, ms[0]);
    LinesSoFar(before, done + [ms[0]], ms[1]);
    LinesSoFar(before, done + [ms[0]] + [ms[1]], ms[2]);
    assert done + [ms[0]] + [ms[1]] + [ms[2]] == done + ms;
  }

  method CountLine(out: PreallocatedBuffer, key: string, n: nat)
    requires out.Valid() && Plain(key)
    modifies out, out.data
    ensures out.Valid() && out.intended == old(out.intended) + Line(Member(key, Count(n)))
  {
    assert '\0' !in INDENT + Key(key) + Decimal(n) + [',', '\n'] by { assert AllDigits(Decimal(n)); }
    Putf(out, INDENT + Key(key) + Decimal(n) + [',', '\n']);
    Glue(INDENT, Key(key), Decimal(n));
    assert RenderMember(Member(key, Count(n))) == Key(key) + Decimal(n);
  }

  lemma LinesSoFar(before: string, done: seq<Member>, m: Member)
    ensures before + OpenLines(done) + Line(m) == before + OpenLines(done + [m])
  {
    assert (done + [m])[..|done|] == done;
  }

  lemma LastLineText(before: string, key: string, items: seq<Json>)
    ensures before + (INDENT + Key(key) + ['[']) + RenderItems(items) + [']', '\n']
         == before + (INDENT + RenderMember(Member(key, Arr(items))) + ['\n'])
  {
    var m := Member(key, Arr(items));
    ListMemberText(before + INDENT, [], key, items);
    assert Lead(0) + Key(key) + ['['] == Key(key) + ['['];
    assert [] + [m] == [m];
    assert before + INDENT + [] == before + INDENT;
    Glue(before, INDENT, Key(key) + ['[']);
    Glue(INDENT, Key(key), ['[']);
    var list := before + (INDENT + Key(key) + ['[']) + RenderItems(items);
    assert list + [']', '\n'] == list + [']'] + ['\n'];
    assert RenderMembers([m]) == RenderMember(m);
    Glue(before, INDENT, RenderMember(m));
    Glue(before, INDENT + RenderMember(m), ['\n']);
  }

  lemma {:induction false} ClosesLines(before: string, done: seq<Member>, last: Member)
    ensures before + OpenLines(done) + (INDENT + RenderMember(last) + ['\n']) == before + RenderLines(done + [last])
    decreases |done|
  {
    LinesEnd(done, last);
    Glue(before, OpenLines(done), INDENT + RenderMember(last) + ['\n']);
  }

  lemma {:induction false} LinesEnd(done: seq<Member>, last: Member)
    ensures OpenLines(done) + (INDENT + RenderMember(last) + ['\n']) == RenderLines(done + [last])
    decreases |done|
  {
    if done == [] {
      assert done + [last] == [last];
      assert [] + (INDENT + RenderMember(last) + ['\n']) == INDENT + RenderMember(last) + ['\n'];
    } else {
      OpenLinesFirst(done);
      LinesEnd(done[1..], last);
      assert (done + [last])[1..] == done[1..] + [last];
      Glue(Line(done[0]), OpenLines(done[1..]), INDENT + RenderMember(last) + ['\n']);
    }
  }

  lemma {:induction false} OpenLinesFirst(ms: seq<Member>)
    requires ms != []
    ensures OpenLines(ms) == Line(ms[0]) + OpenLines(ms[1..])
    decreases |ms|
  {
    var init, last := ms[..|ms| - 1], ms[|ms| - 1];
    if init == [] {
      assert ms[1..] == [];
      assert OpenLines(ms) == [] + Line(ms[0]);
    } else {
      OpenLinesFirst(init);
      assert ms[1..][..|ms| - 2] == init[1..];
      Glue(Line(ms[0]), OpenLines(init[1..]), Line(last));
    }
  }

  lemma NamedStep(before: string, mods: seq<InstalledMod>, i: nat)
    requires i < |mods|
    ensures mods[i].name == "" ==> NamedMods(mods[..i + 1]) == NamedMods(mods[..i])
    ensures mods[i].name != "" ==> NamedMods(mods[..i + 1]) == NamedMods(mods[..i]) + [ModTree(mods[i])]
    ensures mods[i].name != "" ==>
      before + RenderItems(NamedMods(mods[..i])) + Lead(|NamedMods(mods[..i])|) + Render(ModTree(mods[i]))
      == before + RenderItems(NamedMods(mods[..i + 1]))
    ensures mods[i].name != "" && NamedMods(mods[..i]) == [] ==>
      before + RenderItems(NamedMods(mods[..i])) + Render(ModTree(mods[i]))
      == before + RenderItems(NamedMods(mods[..i + 1]))
  {
    assert mods[..i + 1][..i] == mods[..i];
    if mods[i].name != "" {
      var all := NamedMods(mods[..i + 1]);
      var n := |all| - 1;
      assert all == NamedMods(mods[..i]) + [ModTree(mods[i])];
      assert all[..n] == NamedMods(mods[..i]) && all[..n + 1] == all;
      ListStep(before, all, n);
    }
  }

  /** One round of the list: a comma unless it is the first named mod, then the mod. */
  method EmitNamed(out: PreallocatedBuffer, mods: seq<InstalledMod>, i: nat, emitted: nat, ghost before: string)
    returns (now: nat)
    requires out.Valid() && i < |mods| && emitted == |NamedMods(mods[..i])|
    requires out.intended == before + RenderItems(NamedMods(mods[..i]))
    modifies out, out.data
    ensures out.Valid() && now == |NamedMods(mods[..i + 1])|
    ensures out.intended == before + RenderItems(NamedMods(mods[..i + 1]))
  {
    NamedStep(before, mods, i);
    if mods[i].name == "" { return emitted; }
    if emitted > 0 { Put(out, COMMA); }
    EmitMod(out, mods[i]);
    now := emitted + 1;
  }

  /** The installed mods: nameless ones are skipped, and only the first 2048 are looked at. */
  method EmitMods(out: PreallocatedBuffer, mods: seq<InstalledMod>)
    requires out.Valid()
    modifies out, out.data
    ensures out.Valid()
    ensures out.intended == old(out.intended) + RenderItems(NamedMods(First(mods, MAX_INSTALLED_MODS)))
  {
    ghost var before := out.intended;
    var count := if |mods| > MAX_INSTALLED_MODS then MAX_INSTALLED_MODS else |mods|;
    var emitted := 0;
    assert before + RenderItems(NamedMods(mods[..0])) == before;
    for i := 0 to count
      invariant out.Valid() && out.intended == before + RenderItems(NamedMods(mods[..i]))
      invariant emitted == |NamedMods(mods[..i])|
    {
      emitted := EmitNamed(out, mods, i, emitted, before);
    }
    assert mods[..count] == First(mods, MAX_INSTALLED_MODS);
  }

  method BuildDiagnosticJson(s: MaybeSnapshot, out: PreallocatedBuffer)
    requires out.Valid() && out.intended == []
    modifies out, out.data
    ensures out.Valid() && out.intended == RenderDocument(DiagnosticMembers(s))
  {
    Put(out, ['{', '\n']);
    ghost var start := out.intended;
    assert start == ['{', '\n'] && start + OpenLines([]) == start;
    EmitHead(out, s, start);
    EmitHardwareJson(out, s);
    EmitSetupIntegrity(out, s);
    EmitArchiveConflicts(out, s);
    ThreeLines(start, HeadMembers(s), SectionMembers(s));
    EmitModInventory(out, s, start, HeadMembers(s) + SectionMembers(s));
    Put(out, ['}', '\n']);
  }

  method EmitHead(out: PreallocatedBuffer, s: MaybeSnapshot, ghost before: string)
    requires out.Valid() && out.intended == before + OpenLines([])
    modifies out, out.data
    ensures out.Valid() && out.intended == before + OpenLines(HeadMembers(s))
  {
    TwoStringLines(out, "reportType", "diagnostic", "tool", "REDscope");
    TwoStringLines(out, "red4extVersion", if s.Have? then s.snapshot.red4extVersion else "",
                   "buildId", if s.Have? then s.snapshot.cp2077BuildString else "");
    FourLines(before, HeadMembers(s));
  }

  method TwoStringLines(out: PreallocatedBuffer, k: string, s: string, l: string, t: string)
    requires out.Valid()
    modifies out, out.data
    ensures out.Valid() && out.intended == old(out.intended) + Line(Member(k, Str(s))) + Line(Member(l, Str(t)))
  {
    StringLine(out, k, s);
    StringLine(out, l, t);
  }

  lemma FourLines(before: string, ms: seq<Member>)
    requires |ms| == 4
    ensures before + OpenLines([]) + Line(ms[0]) + Line(ms[1]) + Line(ms[2]) + Line(ms[3]) == before + OpenLines(ms)
  {
    ThreeLines(before, [], ms[..3]);
    assert [] + ms[..3] == ms[..3];
    LinesSoFar(before, ms[..3], ms[3]);
    assert ms[..3] + [ms[3]] == ms;
  }

  // ----- The document -----

  ghost predicate AllPrintable(ms: seq<Member>) {
    forall i :: 0 <= i < |ms| ==> Plain(ms[i].key) && Printable(ms[i].value)
  }

  lemma PrintableParts(a: seq<Member>, b: seq<Member>)
    requires AllPrintable(a) && AllPrintable(b)
    ensures AllPrintable(a + b)
  {
  }

  lemma PrintableMember(k: string, v: Json)
    requires Plain(k) && Printable(v)
    ensures AllPrintable([Member(k, v)])
  {
  }

  lemma HardwareHeadPrintable(hw: HardwareSpecs)
    ensures AllPrintable(HardwareHead(hw))
  {
    CountPrintable(hw.cpuPhysicalCores);
    CountPrintable(hw.cpuLogicalCores);
    CountPrintable(hw.cpuMaxTurboMHz);
    FourPrintable("cpu", Str(hw.cpuName), "cpuCores", Count(hw.cpuPhysicalCores),
                  "cpuThreads", Count(hw.cpuLogicalCores), "cpuMaxMHz", Count(hw.cpuMaxTurboMHz));
  }

  lemma ThreePrintable(k: string, v: Json, l: string, w: Json, m: string, x: Json)
    requires Plain(k) && Plain(l) && Plain(m) && Printable(v) && Printable(w) && Printable(x)
    ensures AllPrintable([Member(k, v), Member(l, w), Member(m, x)])
  {
  }

  lemma FourPrintable(k: string, v: Json, l: string, w: Json, m: string, x: Json, n: string, y: Json)
    requires Plain(k) && Plain(l) && Plain(m) && Plain(n)
    requires Printable(v) && Printable(w) && Printable(x) && Printable(y)
    ensures AllPrintable([Member(k, v), Member(l, w), Member(m, x), Member(n, y)])
  {
  }

  lemma GpuPrintable(gpus: seq<Gpu>)
    ensures AllPrintable(GpuMembers(gpus))
  {
    if gpus != [] {
      var vram := gpus[0].vramDedicatedBytes / MEBIBYTE;
      CountPrintable(vram);
      ThreePrintable("gpu", Str(gpus[0].name), "gpuDriver", Str(gpus[0].driverVersion), "vramMB", Count(vram));
    }
  }

  lemma HardwareTailPrintable(hw: HardwareSpecs)
    ensures AllPrintable(HardwareTail(hw))
  {
    RamPrintable(hw);
    OsTailPrintable(hw);
    PrintableParts(RamMembers(hw), OsTail(hw));
  }

  lemma RamPrintable(hw: HardwareSpecs)
    ensures AllPrintable(RamMembers(hw))
  {
    var ram := hw.ramTotalBytes / MEBIBYTE;
    CountPrintable(ram);
    CountPrintable(hw.ramSpeedMHz);
    ThreePrintable("ramTotalMB", Count(ram), "ramType", Str(hw.ramType), "ramSpeedMHz", Count(hw.ramSpeedMHz));
  }

  lemma OsTailPrintable(hw: HardwareSpecs)
    ensures AllPrintable(OsTail(hw))
  {
    CountPrintable(hw.osBuild);
    ThreePrintable("os", Str(hw.osProductName), "osVersion", Str(hw.osDisplayVersion), "osBuild", Count(hw.osBuild));
    DisplayPrintable(hw);
    PrintableParts(OsMembers(hw), DisplayTail(hw));
  }

  lemma DisplayPrintable(hw: HardwareSpecs)
    ensures AllPrintable(DisplayTail(hw))
  {
    CountPrintable(hw.displayWidth);
    CountPrintable(hw.displayHeight);
    CountPrintable(hw.displayRefreshHz);
    FourPrintable("displayW", Count(hw.displayWidth), "displayH", Count(hw.displayHeight),
                  "displayHz", Count(hw.displayRefreshHz), "displayHdr", Str(hw.displayHdrState));
  }

  lemma HardwarePrintable(hw: HardwareSpecs)
    ensures Printable(HardwareTree(hw))
  {
    HardwareHeadPrintable(hw);
    GpuPrintable(hw.gpus);
    HardwareTailPrintable(hw);
    PrintableParts(HardwareHead(hw), GpuMembers(hw.gpus));
    PrintableParts(HardwareHead(hw) + GpuMembers(hw.gpus), HardwareTail(hw));
  }

  lemma StrsPrintable(ss: seq<string>)
    ensures Printable(Arr(Strs(ss)))
  {
  }

  lemma PairPrintable(k: string, v: Json, l: string, w: Json)
    requires Plain(k) && Plain(l) && Printable(v) && Printable(w)
    ensures Printable(Obj([Member(k, v), Member(l, w)]))
  {
  }

  lemma IssuePrintable(i: SetupIssue)
    ensures Printable(IssueTree(i))
  {
    PairPrintable("kind", Str(i.kind), "detail", Str(i.detail));
  }

  lemma SetupPrintable(si: SetupIntegrity)
    ensures Printable(SetupTree(si))
  {
    CountPrintable(si.truncated);
    forall i | 0 <= i < |si.issues| ensures Printable(IssueTrees(si.issues)[i]) {
      IssuePrintable(si.issues[i]);
    }
    PairPrintable("issues", Arr(IssueTrees(si.issues)), "truncated", Count(si.truncated));
  }

  lemma GroupsPrintable(groups: seq<seq<string>>)
    ensures Printable(Arr(GroupTrees(groups)))
  {
    forall i | 0 <= i < |groups| ensures Printable(GroupTrees(groups)[i]) {
      StrsPrintable(groups[i]);
      PrintableMember("mods", Arr(Strs(groups[i])));
    }
  }

  lemma DepPrintable(d: MissingDep)
    ensures Printable(DepTree(d))
  {
    StrsPrintable(d.required);
    PairPrintable("mod", Str(d.mod), "requires", Arr(Strs(d.required)));
  }

  lemma DepsPrintable(deps: seq<MissingDep>)
    ensures Printable(Arr(DepTrees(deps)))
  {
    forall i | 0 <= i < |deps| ensures Printable(DepTrees(deps)[i]) {
      DepPrintable(deps[i]);
    }
  }

  lemma CuratedPrintable(active: Json, missing: Json, dbModCount: nat, truncated: nat)
    requires Printable(active) && Printable(missing)
    ensures AllPrintable([Member("active", active), Member("missingDeps", missing),
                          Member("dbModCount", Count(dbModCount)), Member("truncated", Count(truncated))])
  {
    CountPrintable(dbModCount);
    CountPrintable(truncated);
    FourPrintable("active", active, "missingDeps", missing, "dbModCount", Count(dbModCount),
                  "truncated", Count(truncated));
  }

  lemma ConflictsPrintable(ac: ArchiveConflicts)
    ensures Printable(ConflictTree(ac))
  {
    GroupsPrintable(ac.active);
    DepsPrintable(ac.missingDeps);
    CuratedPrintable(Arr(GroupTrees(ac.active)), Arr(DepTrees(ac.missingDeps)), ac.dbModCount, ac.truncated);
    assert Printable(CuratedTree(ac));
    PrintableMember("curated", CuratedTree(ac));
  }

  lemma OptionalPrintable(m: InstalledMod)
    ensures AllPrintable(OptionalTree(m))
  {
    StrsPrintable(m.archives);
    PrintableMember("subpath", Str(m.subpath));
    PrintableMember("archives", Arr(Strs(m.archives)));
  }

  lemma ModPrintable(m: InstalledMod)
    ensures Printable(ModTree(m))
  {
    FourPrintable("name", Str(m.name), "version", Str(m.version), "enabled", Bool(m.enabled),
                  "type", Str(TypeName(m.kind)));
    OptionalPrintable(m);
    PrintableParts(RequiredTree(m), OptionalTree(m));
  }

  lemma {:induction false} ModsPrintable(mods: seq<InstalledMod>)
    ensures forall i :: 0 <= i < |NamedMods(mods)| ==> Printable(NamedMods(mods)[i])
    decreases |mods|
  {
    if mods != [] {
      ModsPrintable(mods[..|mods| - 1]);
      ModPrintable(mods[|mods| - 1]);
    }
  }

  lemma InventoryPrintable(s: MaybeSnapshot)
    ensures AllPrintable(InventoryMembers(s))
  {
    ManagerPrintable(s);
    if s.Have? { ModsPrintable(First(s.snapshot.inventory.mods, MAX_INSTALLED_MODS)); }
    PrintableMember("installedMods", Arr(ListedMods(s)));
    PrintableParts(ManagerMembers(s), [Member("installedMods", Arr(ListedMods(s)))]);
  }

  lemma ManagerPrintable(s: MaybeSnapshot)
    ensures AllPrintable(ManagerMembers(s))
  {
    if s.Have? {
      ManagerKeysPrintable(ManagerName(s.snapshot.inventory.manager), s.snapshot.inventory.managerDetails,
                           s.snapshot.inventory.truncated);
    } else {
      ManagerKeysPrintable("none", "", 0);
    }
  }

  lemma ManagerKeysPrintable(name: string, details: string, truncated: nat)
    ensures AllPrintable([Member("modManager", Str(name)), Member("modManagerDetails", Str(details)),
                          Member("modTruncated", Count(truncated))])
  {
    CountPrintable(truncated);
    ThreePrintable("modManager", Str(name), "modManagerDetails", Str(details), "modTruncated", Count(truncated));
  }

  lemma SectionsPrintable(s: MaybeSnapshot)
    ensures AllPrintable(SectionMembers(s))
  {
    if s.Have? {
      HardwarePrintable(s.snapshot.hardware);
      SetupPrintable(s.snapshot.setupIntegrity);
      ConflictsPrintable(s.snapshot.archiveConflicts);
    }
    ThreePrintable("hardware", HardwareSection(s), "setupIntegrity", SetupSection(s),
                   "archiveConflicts", ConflictSection(s));
  }

  lemma HeadPrintable(s: MaybeSnapshot)
    ensures AllPrintable(HeadMembers(s))
  {
    if s.Have? {
      HeadKeysPrintable(s.snapshot.red4extVersion, s.snapshot.cp2077BuildString);
    } else {
      HeadKeysPrintable("", "");
    }
  }

  lemma HeadKeysPrintable(version: string, build: string)
    ensures AllPrintable([Member("reportType", Str("diagnostic")), Member("tool", Str("REDscope")),
                          Member("red4extVersion", Str(version)), Member("buildId", Str(build))])
  {
    FourPrintable("reportType", Str("diagnostic"), "tool", Str("REDscope"), "red4extVersion", Str(version),
                  "buildId", Str(build));
  }

  lemma DiagnosticPrintable(s: MaybeSnapshot)
    ensures AllPrintable(DiagnosticMembers(s))
  {
    HeadPrintable(s);
    SectionsPrintable(s);
    InventoryPrintable(s);
    PrintableParts(HeadMembers(s), SectionMembers(s));
    PrintableParts(HeadMembers(s) + SectionMembers(s), InventoryMembers(s));
  }

  /** The intended document is in UTF-8 exactly when every string of the intended tree is. */
  lemma DiagnosticIsUtf8(s: MaybeSnapshot)
    ensures ValidUtf8(RenderDocument(DiagnosticMembers(s))) <==> StringsValid(Obj(DiagnosticMembers(s)))
  {
    DiagnosticPrintable(s);
    PrintableIsUtf8(DiagnosticMembers(s));
  }

  lemma PrintableIsUtf8(ms: seq<Member>)
    requires AllPrintable(ms)
    ensures ValidUtf8(RenderDocument(ms)) <==> StringsValid(Obj(ms))
  {
    DocumentIsUtf8(ms);
  }

  /** For every snapshot, and for none, the document the emitters ask for parses to exactly the
      intended tree. */
  lemma DiagnosticParses(s: MaybeSnapshot)
    ensures ParseDocument(RenderDocument(DiagnosticMembers(s))) == Some(Obj(DiagnosticMembers(s)))
  {
    DiagnosticPrintable(s);
    ParseRenderedDocument(DiagnosticMembers(s));
  }

  /** The writer as its callers use it: if the buffer exists and did not overflow, what it holds
      parses to the intended tree. */
  method WriteDiagnostic(s: MaybeSnapshot, out: PreallocatedBuffer)
    requires out.Valid()
    modifies out, out.data
    ensures out.Valid()
    ensures out.data != null && !out.overflow ==>
      ParseDocument(out.Contents()) == Some(Obj(DiagnosticMembers(s)))
  {
    out.Reset();
    BuildDiagnosticJson(s, out);
    DiagnosticParses(s);
  }
}
