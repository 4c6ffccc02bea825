/** The two layout appliers: the general one, driven by role assignments, and the legacy one. */
module LayoutAppliers {
  import opened Sorting
  import opened Wrappers
  import opened Deduplication
  import opened Disk
  import opened PartitionNames
  import opened DiskLayout
  import opened CommandRunner
  import opened LayoutPrograms
  import opened LayoutApply
  import Safety = ApplierSafety

  // ---- The assigned disks ----

  /** The `seen` loop over every device of every role. */
  method CollectDisks(a: Assignments) returns (disks: seq<string>)
    requires a.Valid()
    ensures disks == AllDisks(a, |a.keys|)
  {
    disks := [];
    var seen: set<string> := {};
    for i := 0 to |a.keys|
      invariant disks == AllDisks(a, i)
      invariant forall p :: p in seen <==> p in disks
    {
      assert a.keys[i] in a.entries;
      var devices := a.entries[a.keys[i]];
      ghost var before := disks;
      ghost var paths := DevicePaths(devices);
      assert paths[..0] == [];
      for k := 0 to |devices|
        invariant disks == AddNew(before, paths[..k])
        invariant forall p :: p in seen <==> p in disks
      {
        AddNewSnoc(before, paths[..k], paths[k]);
        assert paths[..k + 1] == paths[..k] + [paths[k]];
        if devices[k].path !in seen {
          disks := disks + [devices[k].path];
          seen := seen + {devices[k].path};
        }
      }
      assert paths[..|paths|] == paths;
    }
  }

  // ---- The partitions created, by role, disk and layout index ----

  type DeviceNodes = map<string, map<int, string>>

  /** The nodes of a role's partitions on these disks. */
  ghost predicate NodesOf(nodes: DeviceNodes, layout: DiskLayout, role: string, devices: seq<BlockDevice>) {
    forall k, i :: 0 <= k < |devices| && i in RoleIndices(layout, role) ==>
      && devices[k].path in nodes && i in nodes[devices[k].path]
      && nodes[devices[k].path][i] == PartName(devices[k].path, LocalNum(layout.partitions, i))
  }

  lemma IndexNumbers(layout: DiskLayout, role: string, i: int)
    requires i in RoleIndices(layout, role)
    ensures 0 <= i < |layout.partitions| && layout.partitions[i].TargetRole() == role
    ensures 1 <= LocalNum(layout.partitions, i) <= |RoleIndices(layout, role)|
    ensures RoleIndices(layout, role)[LocalNum(layout.partitions, i) - 1] == i
  {
    IndicesExact(layout.partitions, role, |layout.partitions|);
    Safety.LocalNumIndex(layout.partitions, i);
  }

  method CreateForRole(r: Runner, layout: DiskLayout, role: string, devices: seq<BlockDevice>)
    returns (ok: bool, nodes: DeviceNodes)
    modifies r
    ensures Ran(r.fails, old(r.trace), r.trace, Flatten(CreateOnDevices(layout, role, devices)), ok)
    ensures ok ==> NodesOf(nodes, layout, role, devices)
  {
    ghost var progs := CreateOnDevices(layout, role, devices);
    var indices := RoleIndices(layout, role);
    IndicesExact(layout.partitions, role, |layout.partitions|);
    nodes := map[];
    ok := true;
    for k := 0 to |devices|
      invariant Ran(r.fails, old(r.trace), r.trace, Flatten(progs[..k]), true)
      invariant NodesOf(nodes, layout, role, devices[..k])
    {
      ghost var before := r.trace;
      var paths;
      ok, paths := CreatePartitionsForRole(r, devices[k].path, layout.partitions, indices);
      RanPiece(r.fails, old(r.trace), before, r.trace, progs, k, ok);
      if !ok { return; }
      NodesGrow(nodes, layout, role, devices, k, paths);
      nodes := nodes[devices[k].path := paths];
    }
    assert progs[..|devices|] == progs;
    assert devices[..|devices|] == devices;
    ok := true;
  }

  lemma NodesGrow(nodes: DeviceNodes, layout: DiskLayout, role: string, devices: seq<BlockDevice>, k: nat,
                  paths: map<int, string>)
    requires k < |devices| && NodesOf(nodes, layout, role, devices[..k])
    requires var indices := RoleIndices(layout, role);
             forall n :: 0 <= n < |indices| ==>
                 indices[n] in paths && paths[indices[n]] == PartName(devices[k].path, n + 1)
    ensures NodesOf(nodes[devices[k].path := paths], layout, role, devices[..k + 1])
  {
    hide PartName, RoleIndices;
    var grown := nodes[devices[k].path := paths];
    forall j, i | 0 <= j < k + 1 && i in RoleIndices(layout, role)
      ensures devices[j].path in grown && i in grown[devices[j].path]
           && grown[devices[j].path][i] == PartName(devices[j].path, LocalNum(layout.partitions, i))
    {
      IndexNumbers(layout, role, i);
      if devices[j].path != devices[k].path {
        assert devices[..k][j] == devices[j];
      }
    }
  }

  /** Every role in `roles` has its nodes in the table. */
  ghost predicate TableOf(table: map<string, DeviceNodes>, layout: DiskLayout, a: Assignments, roles: seq<string>) {
    forall x :: x in roles ==> x in table && NodesOf(table[x], layout, x, a.Get(x).GetOr([]))
  }

  lemma RoleIsUsed(layout: DiskLayout, i: nat)
    requires i < |layout.partitions|
    ensures layout.partitions[i].TargetRole() in UsedRoles(layout)
  {
    var seen := RolesSeen(layout.partitions, |layout.partitions|);
    Safety.RolesSeenFacts(layout.partitions, |layout.partitions|);
    SameElements(seen, UsedRoles(layout));
  }

  /** The table has the nodes of the role that partition `i` targets. */
  ghost predicate HasNodes(table: map<string, DeviceNodes>, layout: DiskLayout, a: Assignments, i: int) {
    0 <= i < |layout.partitions| ==>
      var role := layout.partitions[i].TargetRole();
      role in table && NodesOf(table[role], layout, role, DevicesOf(layout, a, i))
  }

  ghost predicate HasAllNodes(table: map<string, DeviceNodes>, layout: DiskLayout, a: Assignments) {
    forall i :: HasNodes(table, layout, a, i)
  }

  lemma TableHasAllNodes(table: map<string, DeviceNodes>, layout: DiskLayout, a: Assignments)
    requires TableOf(table, layout, a, UsedRoles(layout))
    ensures HasAllNodes(table, layout, a)
  {
    forall i ensures HasNodes(table, layout, a, i) {
      if 0 <= i < |layout.partitions| { RoleIsUsed(layout, i); }
    }
  }

  lemma EmptyTable(layout: DiskLayout, a: Assignments)
    ensures TableOf(map[], layout, a, [])
  {
  }

  lemma TableGrows(table: map<string, DeviceNodes>, layout: DiskLayout, a: Assignments, roles: seq<string>, n: nat,
                   nodes: DeviceNodes)
    requires n < |roles| && TableOf(table, layout, a, roles[..n])
    requires NodesOf(nodes, layout, roles[n], a.Get(roles[n]).GetOr([]))
    ensures TableOf(table[roles[n] := nodes], layout, a, roles[..n + 1])
  {
    hide NodesOf;
    assert roles[..n + 1] == roles[..n] + [roles[n]];
  }

  lemma RolePrograms(layout: DiskLayout, a: Assignments, roles: seq<string>) returns (progs: seq<seq<Step>>)
    requires roles == UsedRoles(layout)
    ensures progs == CreateForRoles(layout, a) && |progs| == |roles|
    ensures forall n :: 0 <= n < |roles| ==>
              progs[n] == Flatten(CreateOnDevices(layout, roles[n], a.Get(roles[n]).GetOr([])))
  {
    progs := CreateForRoles(layout, a);
  }

  /** The partitioning loop: roles alphabetically, the disks of each role in order. */
  method CreateForEachRole(r: Runner, layout: DiskLayout, a: Assignments, roles: seq<string>)
    returns (ok: bool, table: map<string, DeviceNodes>)
    requires roles == UsedRoles(layout)
    modifies r
    ensures Ran(r.fails, old(r.trace), r.trace, Flatten(CreateForRoles(layout, a)), ok)
    ensures ok ==> TableOf(table, layout, a, roles)
  {
    hide CreateOnDevices, UsedRoles, CreateForRoles, NodesOf, TableOf;
    ghost var progs := RolePrograms(layout, a, roles);
    EmptyTable(layout, a);
    assert roles[..0] == [];
    table := map[];
    ok := true;
    for n := 0 to |roles|
      invariant Ran(r.fails, old(r.trace), r.trace, Flatten(progs[..n]), true)
      invariant TableOf(table, layout, a, roles[..n])
    {
      ghost var before := r.trace;
      var nodes;
      ok, nodes := CreateForRole(r, layout, roles[n], a.Get(roles[n]).GetOr([]));
      RanPiece(r.fails, old(r.trace), before, r.trace, progs, n, ok);
      if !ok { return; }
      TableGrows(table, layout, a, roles, n, nodes);
      table := table[roles[n] := nodes];
    }
    assert progs[..|roles|] == progs && roles[..|roles|] == roles;
    ok := true;
  }

  /** The nodes of partition `i`, looked up disk by disk. */
  method CollectMembers(layout: DiskLayout, a: Assignments, nodes: DeviceNodes, i: nat) returns (members: seq<string>)
    requires i < |layout.partitions|
    requires NodesOf(nodes, layout, layout.partitions[i].TargetRole(), DevicesOf(layout, a, i))
    ensures members == Members(layout, a, i)
  {
    var role := layout.partitions[i].TargetRole();
    var devices := DevicesOf(layout, a, i);
    IndicesExact(layout.partitions, role, |layout.partitions|);
    assert i in RoleIndices(layout, role);
    members := [];
    for k := 0 to |devices|
      invariant members == Members(layout, a, i)[..k]
    {
      members := members + [nodes[devices[k].path][i]];
    }
  }

  /** What the formatting loop does with one partition's node for the map of partitions. */
  method RecordPartition(m: PartitionMap, part: PartitionSpec, node: string, auxiliary: bool)
    returns (out: PartitionMap)
    ensures out == var c := AddCanonical(m, part, node); if auxiliary then AddAuxiliary(c, part, node) else c
  {
    out := m;
    if part.filesystem == "vfat" && part.mountPoint in [Some("/boot"), Some("/boot/efi")] {
      out := out.(esp := node);
    }
    if part.mountPoint == Some("/") {
      out := out.(root := node, rootFilesystem := part.filesystem);
    }
    if part.mountPoint == Some("/home") {
      out := out.(home := node);
    }
    if auxiliary {
      if part.filesystem == "swap" {
        out := out.(swapPartitions := out.swapPartitions + [node]);
      } else if Auxiliary(part) {
        out := out.(extraMounts := out.extraMounts + [(node, part.mountPoint.value, part.filesystem)]);
      }
    }
  }

  /** Partition `i` is formatted by `prog` and is `node` from then on. */
  ghost predicate FormatsAs(layout: DiskLayout, a: Assignments, i: int, prog: seq<Step>, node: string) {
    0 <= i < |layout.partitions| && prog == FormatProgs(layout, a)[i] && node == EffectiveNodes(layout, a)[i]
  }

  ghost predicate FormatAs(layout: DiskLayout, a: Assignments, progs: seq<seq<Step>>, all: seq<string>)
    requires |progs| == |all|
  {
    forall i {:trigger FormatsAs(layout, a, i, progs[i], all[i])} :: 0 <= i < |progs| ==>
        FormatsAs(layout, a, i, progs[i], all[i])
  }

  method FormatOnePartition(r: Runner, layout: DiskLayout, a: Assignments, table: map<string, DeviceNodes>, i: nat,
                            ghost progs: seq<seq<Step>>, ghost all: seq<string>)
    returns (ok: bool, node: string)
    requires i < |progs| == |all| == |layout.partitions|
    requires FormatAs(layout, a, progs, all) && HasAllNodes(table, layout, a)
    modifies r
    ensures Ran(r.fails, old(r.trace), r.trace, progs[i], ok)
    ensures ok ==> node == all[i]
  {
    assert FormatsAs(layout, a, i, progs[i], all[i]);
    assert HasNodes(table, layout, a, i);
    var members := CollectMembers(layout, a, table[layout.partitions[i].TargetRole()], i);
    if members == [] {
      RanAbort(r.fails, r.trace);
      return false, "";
    }
    ok, node := FormatMembers(r, layout.partitions[i], i, members);
  }

  /** The formatting loop, which also fills the partition map. */
  method FormatEveryPartition(r: Runner, layout: DiskLayout, a: Assignments, table: map<string, DeviceNodes>,
                              ghost progs: seq<seq<Step>>, ghost all: seq<string>)
    returns (ok: bool, nodes: seq<string>, m: PartitionMap)
    requires HasAllNodes(table, layout, a) && |progs| == |all| == |layout.partitions|
    requires FormatAs(layout, a, progs, all)
    modifies r
    ensures Ran(r.fails, old(r.trace), r.trace, Flatten(progs), ok)
    ensures ok ==> nodes == all && m == MapAfter(layout.partitions, all, |layout.partitions|, true)
  {
    hide FormatAs, HasAllNodes, AddCanonical, AddAuxiliary, Ran, Flatten;
    ok, nodes, m := true, [], NO_MAP;
    RanNoPiece(r.fails, r.trace, progs);
    for i := 0 to |layout.partitions|
      invariant Ran(r.fails, old(r.trace), r.trace, Flatten(progs[..i]), true)
      invariant nodes == all[..i]
      invariant m == MapAfter(layout.partitions, all, i, true)
    {
      ghost var before := r.trace;
      var node;
      ok, node := FormatOnePartition(r, layout, a, table, i, progs, all);
      RanPiece(r.fails, old(r.trace), before, r.trace, progs, i, ok);
      if !ok { return; }
      m := RecordPartition(m, layout.partitions[i], node, true);
      nodes := nodes + [node];
    }
    assert progs[..|progs|] == progs && all[..|all|] == all;
    ok := true;
  }

  method SettleDevices(r: Runner) returns (ok: bool)
    modifies r
    ensures Ran(r.fails, old(r.trace), r.trace, [Run(Settle)], ok)
  {
    ok := r.Issue(Settle);
  }

  /** Wiping, partitioning and probing; `phases` is the whole program. */
  method PrepareDisks(r: Runner, layout: DiskLayout, a: Assignments, roles: seq<string>, ghost phases: seq<seq<Step>>)
    returns (ok: bool, table: map<string, DeviceNodes>)
    requires a.Valid() && Applicable(layout, a) && roles == UsedRoles(layout) && |phases| == 7
    requires phases[0] == Flatten(Map(WipeProg, AllDisks(a, |a.keys|)))
    requires phases[1] == Flatten(CreateForRoles(layout, a))
    requires phases[2] == Flatten(Map(PartProbeProg, AllDisks(a, |a.keys|)))
    requires phases[3] == [Run(Settle)]
    modifies r
    ensures ok ==> Ran(r.fails, old(r.trace), r.trace, Flatten(phases[..4]), true)
    ensures !ok ==> Ran(r.fails, old(r.trace), r.trace, Flatten(phases), false)
    ensures ok ==> TableOf(table, layout, a, roles)
  {
    ghost var t0 := r.trace;
    RanNothing(r.fails, t0);
    assert phases[..0] == [];
    table := map[];
    var disks := CollectDisks(a);
    ok := WipeDevices(r, disks);
    RanPiece(r.fails, t0, t0, r.trace, phases, 0, ok);
    if !ok { return; }
    ghost var t1 := r.trace;
    ok, table := CreateForEachRole(r, layout, a, roles);
    RanPiece(r.fails, t0, t1, r.trace, phases, 1, ok);
    if !ok { return; }
    ghost var t2 := r.trace;
    ok := ProbeDevices(r, disks);
    RanPiece(r.fails, t0, t2, r.trace, phases, 2, ok);
    if !ok { return; }
    ghost var t3 := r.trace;
    ok := SettleDevices(r);
    RanPiece(r.fails, t0, t3, r.trace, phases, 3, ok);
  }

  /** The two mount passes that end both appliers. */
  method MountEverything(r: Runner, parts: seq<PartitionSpec>, nodes: seq<string>, skipSwap: bool,
                         ghost start: seq<Command>, ghost phases: seq<seq<Step>>)
    returns (ok: bool, names: seq<string>)
    requires |nodes| == |parts| && |phases| == 7
    requires phases[5] == MountRoot(parts, nodes) && phases[6] == Flatten(MountOthers(parts, nodes, skipSwap))
    requires Ran(r.fails, start, r.trace, Flatten(phases[..5]), true)
    modifies r
    ensures Ran(r.fails, start, r.trace, Flatten(phases), ok)
    ensures names == RootSubvolumeNames(parts)
  {
    ghost var t5 := r.trace;
    ok, names := MountRootFirst(r, parts, nodes);
    RanPiece(r.fails, start, t5, r.trace, phases, 5, ok);
    if !ok { return; }
    ghost var t6 := r.trace;
    ok := MountRest(r, parts, nodes, skipSwap);
    RanPiece(r.fails, start, t6, r.trace, phases, 6, ok);
    assert phases[..7] == phases;
  }

  lemma ResolvedPieces(layout: DiskLayout, a: Assignments)
    returns (phases: seq<seq<Step>>, progs: seq<seq<Step>>, all: seq<string>)
    requires Applicable(layout, a)
    ensures |phases| == 7 && |progs| == |all| == |layout.partitions|
    ensures Flatten(phases) == ResolvedProgram(layout, a)
    ensures phases[0] == Flatten(Map(WipeProg, AllDisks(a, |a.keys|)))
    ensures phases[1] == Flatten(CreateForRoles(layout, a))
    ensures phases[2] == Flatten(Map(PartProbeProg, AllDisks(a, |a.keys|)))
    ensures phases[3] == [Run(Settle)]
    ensures phases[4] == Flatten(progs)
    ensures phases[5] == MountRoot(layout.partitions, all)
    ensures phases[6] == Flatten(MountOthers(layout.partitions, all, true))
    ensures FormatAs(layout, a, progs, all)
    ensures ResolvedMap(layout, a) == FinalMap(layout.partitions, all, true)
  {
    hide CreateForRoles, MountOthers, MountRoot, WipeProg, AllDisks;
    phases := ResolvedPhases(layout, a);
    progs := FormatProgs(layout, a);
    all := EffectiveNodes(layout, a);
  }

  method FormatAndMount(r: Runner, layout: DiskLayout, a: Assignments, table: map<string, DeviceNodes>,
                        ghost start: seq<Command>, ghost phases: seq<seq<Step>>, ghost progs: seq<seq<Step>>,
                        ghost all: seq<string>)
    returns (m: Option<PartitionMap>)
    requires HasAllNodes(table, layout, a) && |phases| == 7 && |progs| == |all| == |layout.partitions|
    requires phases[4] == Flatten(progs)
    requires phases[5] == MountRoot(layout.partitions, all)
    requires phases[6] == Flatten(MountOthers(layout.partitions, all, true))
    requires FormatAs(layout, a, progs, all)
    requires Ran(r.fails, start, r.trace, Flatten(phases[..4]), true)
    modifies r
    ensures Ran(r.fails, start, r.trace, Flatten(phases), m.Some?)
    ensures m.Some? ==> m.value == FinalMap(layout.partitions, all, true)
  {
    ghost var before := r.trace;
    var ok, nodes, built := FormatEveryPartition(r, layout, a, table, progs, all);
    RanPiece(r.fails, start, before, r.trace, phases, 4, ok);
    if !ok { return None; }
    var names;
    ok, names := MountEverything(r, layout.partitions, nodes, true, start, phases);
    m := if ok then Some(built.(rootSubvolumes := names)) else None;
  }

  /** `apply_disk_layout_resolved`: `None` when it raises. */
  method ApplyDiskLayoutResolved(r: Runner, layout: DiskLayout, a: Assignments) returns (m: Option<PartitionMap>)
    requires a.Valid()
    modifies r
    ensures Ran(r.fails, old(r.trace), r.trace, ResolvedProgram(layout, a), m.Some?)
    ensures m.Some? ==> m.value == ResolvedMap(layout, a)
  {
    var groups := GroupByRole(layout.partitions);
    if a.keys == [] || exists role :: role in groups.keys && role !in a.entries {
      NotApplicable(layout, a);
      RanAbort(r.fails, r.trace);
      return None;
    }
    AllRolesAssigned(layout, a);
    ghost var phases, progs, all := ResolvedPieces(layout, a);
    ghost var start := r.trace;
    var ok, table := PrepareDisks(r, layout, a, Sort(groups.keys, StrLe), phases);
    if !ok { return None; }
    TableHasAllNodes(table, layout, a);
    m := FormatAndMount(r, layout, a, table, start, phases, progs, all);
  }

  lemma NotApplicable(layout: DiskLayout, a: Assignments)
    requires a.keys == []
             || exists role :: role in RolesSeen(layout.partitions, |layout.partitions|) && role !in a.entries
    ensures !Applicable(layout, a)
  {
    Safety.RolesSeenFacts(layout.partitions, |layout.partitions|);
  }

  lemma AllRolesAssigned(layout: DiskLayout, a: Assignments)
    requires a.keys != []
    requires forall role :: role in RolesSeen(layout.partitions, |layout.partitions|) ==> role in a.entries
    ensures Applicable(layout, a)
  {
    Safety.RolesSeenFacts(layout.partitions, |layout.partitions|);
  }

  // ---- The legacy applier ----

  /** `_create_partitions`: the node of every partition on this device. */
  method CreatePartitions(r: Runner, device: string, parts: seq<PartitionSpec>) returns (ok: bool, nodes: seq<string>)
    modifies r
    ensures Ran(r.fails, old(r.trace), r.trace, CreateAllProg(device, parts, AllIndices(|parts|)), ok)
    ensures ok ==> nodes == NodesOn(device, |parts|)
  {
    ghost var progs := CreateProgs(device, parts, AllIndices(|parts|));
    ok, nodes := true, [];
    for k := 0 to |parts|
      invariant Ran(r.fails, old(r.trace), r.trace, Flatten(progs[..k]), true)
      invariant nodes == NodesOn(device, |parts|)[..k]
    {
      ghost var before := r.trace;
      var arg := ParseSizeSpec(parts[k].size);
      if arg.None? {
        RanAbort(r.fails, before);
        RanPiece(r.fails, old(r.trace), before, before, progs, k, false);
        return false, nodes;
      }
      ok := r.Issue(NewPartition(device, k + 1, "0:" + arg.value, TypeCode(parts[k].filesystem), parts[k].partLabel));
      RanPiece(r.fails, old(r.trace), before, r.trace, progs, k, ok);
      if !ok { return; }
      nodes := nodes + [PartName(device, k + 1)];
    }
    assert progs[..|parts|] == progs;
    ok := true;
  }

  /** The primary device first, then the extra ones. */
  method CreateOnDisks(r: Runner, disks: seq<string>, parts: seq<PartitionSpec>)
    returns (ok: bool, nodes: seq<seq<string>>)
    modifies r
    ensures Ran(r.fails, old(r.trace), r.trace, Flatten(CreateOnEach(disks, parts)), ok)
    ensures ok ==> |nodes| == |disks| && forall k :: 0 <= k < |disks| ==> nodes[k] == NodesOn(disks[k], |parts|)
  {
    ghost var progs := CreateOnEach(disks, parts);
    ok, nodes := true, [];
    for k := 0 to |disks|
      invariant Ran(r.fails, old(r.trace), r.trace, Flatten(progs[..k]), true)
      invariant |nodes| == k && forall j :: 0 <= j < k ==> nodes[j] == NodesOn(disks[j], |parts|)
    {
      ghost var before := r.trace;
      var created;
      ok, created := CreatePartitions(r, disks[k], parts);
      RanPiece(r.fails, old(r.trace), before, r.trace, progs, k, ok);
      if !ok { return; }
      nodes := nodes + [created];
    }
    assert progs[..|disks|] == progs;
    ok := true;
  }

  method LegacyFormatOne(r: Runner, device: string, part: PartitionSpec, i: nat, node: string, others: seq<string>,
                         extras: seq<string>, level: Option<string>, ghost raid: Option<RaidConfig>)
    returns (ok: bool)
    requires node == PartName(device, i + 1) && others == NodesAt(extras, i) && level == BtrfsLevel(raid)
    modifies r
    ensures Ran(r.fails, old(r.trace), r.trace, LegacyFormat(device, part, i, extras, raid), ok)
  {
    if part.filesystem == "vfat" && extras != [] {
      ok := FormatOnEach(r, [node] + others, part);
    } else {
      ok := FormatPartition(r, node, part, if part.filesystem == "btrfs" && level.Some? then others else [], level);
    }
  }

  /** The nodes of partition `i` on the extra devices. */
  method NodesOnExtras(nodes: seq<seq<string>>, parts: seq<PartitionSpec>, extras: seq<string>, i: nat)
    returns (others: seq<string>)
    requires i < |parts| && |nodes| == 1 + |extras|
    requires forall k :: 0 <= k < |extras| ==> nodes[k + 1] == NodesOn(extras[k], |parts|)
    ensures others == NodesAt(extras, i)
  {
    others := [];
    for k := 0 to |extras|
      invariant others == NodesAt(extras, i)[..k]
    {
      assert nodes[k + 1] == NodesOn(extras[k], |parts|);
      others := others + [nodes[k + 1][i]];
    }
  }

  method LegacyFormatAll(r: Runner, device: string, parts: seq<PartitionSpec>, nodes: seq<seq<string>>,
                         extras: seq<string>, raid: Option<RaidConfig>)
    returns (ok: bool, m: PartitionMap)
    requires |nodes| == 1 + |extras| && nodes[0] == NodesOn(device, |parts|)
    requires forall k :: 0 <= k < |extras| ==> nodes[k + 1] == NodesOn(extras[k], |parts|)
    modifies r
    ensures Ran(r.fails, old(r.trace), r.trace, Flatten(LegacyFormats(device, parts, extras, raid)), ok)
    ensures ok ==> m == MapAfter(parts, NodesOn(device, |parts|), |parts|, false)
  {
    hide LegacyFormat, AddCanonical, AddAuxiliary;
    ghost var progs := LegacyFormats(device, parts, extras, raid);
    ok, m := true, NO_MAP;
    for i := 0 to |parts|
      invariant Ran(r.fails, old(r.trace), r.trace, Flatten(progs[..i]), true)
      invariant m == MapAfter(parts, NodesOn(device, |parts|), i, false)
    {
      ghost var before := r.trace;
      var others := NodesOnExtras(nodes, parts, extras, i);
      ok := LegacyFormatOne(r, device, parts[i], i, nodes[0][i], others, extras, BtrfsLevel(raid), raid);
      RanPiece(r.fails, old(r.trace), before, r.trace, progs, i, ok);
      if !ok { return; }
      m := RecordPartition(m, parts[i], nodes[0][i], false);
    }
    assert progs[..|parts|] == progs;
    ok := true;
  }

  method PrepareLegacyDisks(r: Runner, disks: seq<string>, parts: seq<PartitionSpec>, ghost phases: seq<seq<Step>>)
    returns (ok: bool, nodes: seq<seq<string>>)
    requires |phases| == 7
    requires phases[0] == Flatten(Map(WipeProg, disks))
    requires phases[1] == Flatten(CreateOnEach(disks, parts))
    requires phases[2] == Flatten(Map(PartProbeProg, disks))
    requires phases[3] == [Run(Settle)]
    modifies r
    ensures ok ==> Ran(r.fails, old(r.trace), r.trace, Flatten(phases[..4]), true)
    ensures !ok ==> Ran(r.fails, old(r.trace), r.trace, Flatten(phases), false)
    ensures ok ==> |nodes| == |disks| && forall k :: 0 <= k < |disks| ==> nodes[k] == NodesOn(disks[k], |parts|)
  {
    ghost var t0 := r.trace;
    RanNothing(r.fails, t0);
    assert phases[..0] == [];
    nodes := [];
    ok := WipeDevices(r, disks);
    RanPiece(r.fails, t0, t0, r.trace, phases, 0, ok);
    if !ok { return; }
    ghost var t1 := r.trace;
    ok, nodes := CreateOnDisks(r, disks, parts);
    RanPiece(r.fails, t0, t1, r.trace, phases, 1, ok);
    if !ok { return; }
    ghost var t2 := r.trace;
    ok := ProbeDevices(r, disks);
    RanPiece(r.fails, t0, t2, r.trace, phases, 2, ok);
    if !ok { return; }
    ghost var t3 := r.trace;
    ok := SettleDevices(r);
    RanPiece(r.fails, t0, t3, r.trace, phases, 3, ok);
  }

  lemma LegacyPieces(device: string, layout: DiskLayout, extras: seq<string>, raid: Option<RaidConfig>)
    returns (phases: seq<seq<Step>>)
    ensures |phases| == 7 && Flatten(phases) == LegacyProgram(device, layout, extras, raid)
    ensures phases[0] == Flatten(Map(WipeProg, [device] + extras))
    ensures phases[1] == Flatten(CreateOnEach([device] + extras, layout.partitions))
    ensures phases[2] == Flatten(Map(PartProbeProg, [device] + extras))
    ensures phases[3] == [Run(Settle)]
    ensures phases[4] == Flatten(LegacyFormats(device, layout.partitions, extras, raid))
    ensures phases[5] == MountRoot(layout.partitions, NodesOn(device, |layout.partitions|))
    ensures phases[6] == Flatten(MountOthers(layout.partitions, NodesOn(device, |layout.partitions|), false))
  {
    hide LegacyFormats, CreateOnEach, MountOthers, MountRoot, WipeProg, NodesOn;
    phases := LegacyPhases(device, layout, extras, raid);
  }

  method LegacyFormatAndMount(r: Runner, device: string, parts: seq<PartitionSpec>, nodes: seq<seq<string>>,
                              extras: seq<string>, raid: Option<RaidConfig>, ghost start: seq<Command>,
                              ghost phases: seq<seq<Step>>)
    returns (m: Option<PartitionMap>)
    requires |nodes| == 1 + |extras| && nodes[0] == NodesOn(device, |parts|) && |phases| == 7
    requires forall k :: 0 <= k < |extras| ==> nodes[k + 1] == NodesOn(extras[k], |parts|)
    requires phases[4] == Flatten(LegacyFormats(device, parts, extras, raid))
    requires phases[5] == MountRoot(parts, NodesOn(device, |parts|))
    requires phases[6] == Flatten(MountOthers(parts, NodesOn(device, |parts|), false))
    requires Ran(r.fails, start, r.trace, Flatten(phases[..4]), true)
    modifies r
    ensures Ran(r.fails, start, r.trace, Flatten(phases), m.Some?)
    ensures m.Some? ==> m.value == FinalMap(parts, NodesOn(device, |parts|), false)
  {
    ghost var before := r.trace;
    var ok, built := LegacyFormatAll(r, device, parts, nodes, extras, raid);
    RanPiece(r.fails, start, before, r.trace, phases, 4, ok);
    if !ok { return None; }
    var names;
    ok, names := MountEverything(r, parts, nodes[0], false, start, phases);
    m := if ok then Some(built.(rootSubvolumes := names)) else None;
  }

  /** `apply_disk_layout`: `None` when it raises. */
  method ApplyDiskLayout(r: Runner, device: string, layout: DiskLayout, extras: seq<string>, raid: Option<RaidConfig>)
    returns (m: Option<PartitionMap>)
    modifies r
    ensures Ran(r.fails, old(r.trace), r.trace, LegacyProgram(device, layout, extras, raid), m.Some?)
    ensures m.Some? ==> m.value == LegacyMap(device, layout)
  {
    ghost var phases := LegacyPieces(device, layout, extras, raid);
    ghost var start := r.trace;
    var ok, nodes := PrepareLegacyDisks(r, [device] + extras, layout.partitions, phases);
    if !ok { return None; }
    m := LegacyFormatAndMount(r, device, layout.partitions, nodes, extras, raid, start, phases);
  }
}
