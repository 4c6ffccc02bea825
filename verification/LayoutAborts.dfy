/** When the general applier raises although no command fails: after the disks have been wiped. */
module LayoutAborts {
  import opened Sorting
  import opened Wrappers
  import opened Disk
  import opened DiskLayout
  import opened DiskDescriptor
  import opened CommandRunner
  import opened LayoutPrograms
  import opened DiskWorld
  import S = ApplierSafety
  import L = LegacyRefinement

  /** A RAID partition that neither mdadm nor mkfs.btrfs is asked to build. */
  predicate NoArray(part: PartitionSpec) {
    && part.IsMultidisk() && Backend(part) != "mdadm"
    && !(Backend(part) == "btrfs" && part.filesystem == "btrfs" && RaidValue(part.raidLevel).Some?)
  }

  /** A partition that no run gets past: its size does not parse, or its array cannot be built. */
  predicate Unmakeable(part: PartitionSpec) {
    ParseSizeSpec(part.size).None? || NoArray(part)
  }

  ghost predicate HasUnmakeable(layout: DiskLayout) {
    exists i :: 0 <= i < |layout.partitions| && Unmakeable(layout.partitions[i])
  }

  ghost predicate SomeSizeFails(layout: DiskLayout) {
    exists i :: 0 <= i < |layout.partitions| && ParseSizeSpec(layout.partitions[i].size).None?
  }

  // ---- Partitioning ----

  lemma CreateAllAborts(device: string, parts: seq<PartitionSpec>, indices: seq<int>)
    requires forall k :: 0 <= k < |indices| ==> 0 <= indices[k] < |parts|
    ensures Aborts(CreateAllProg(device, parts, indices)) <==>
            exists k :: 0 <= k < |indices| && ParseSizeSpec(parts[indices[k]].size).None?
  {
    hide CreateProg, ParseSizeSpec;
    var progs := CreateProgs(device, parts, indices);
    FlattenAborts(progs);
    forall k | 0 <= k < |indices| ensures Aborts(progs[k]) <==> ParseSizeSpec(parts[indices[k]].size).None? {
      L.CreateProgAborts(device, k + 1, parts[indices[k]]);
    }
    if k :| 0 <= k < |indices| && ParseSizeSpec(parts[indices[k]].size).None? { assert Aborts(progs[k]); }
  }

  /** A partition of this role has a size that does not parse. */
  ghost predicate RoleFails(layout: DiskLayout, role: string) {
    exists i :: 0 <= i < |layout.partitions| && layout.partitions[i].TargetRole() == role &&
                ParseSizeSpec(layout.partitions[i].size).None?
  }

  lemma CreateOnDevicesAborts(layout: DiskLayout, role: string, devices: seq<BlockDevice>)
    ensures Aborts(Flatten(CreateOnDevices(layout, role, devices))) <==> devices != [] && RoleFails(layout, role)
  {
    hide CreateAllProg;
    var parts, indices := layout.partitions, RoleIndices(layout, role);
    var progs := CreateOnDevices(layout, role, devices);
    FlattenAborts(progs);
    IndicesExact(parts, role, |parts|);
    if i :| 0 <= i < |parts| && parts[i].TargetRole() == role && ParseSizeSpec(parts[i].size).None? {
      assert i in indices;
    }
    if k :| 0 <= k < |indices| && ParseSizeSpec(parts[indices[k]].size).None? {
      assert indices[k] in indices;
    }
    forall d | 0 <= d < |devices| ensures Aborts(progs[d]) <==> RoleFails(layout, role) {
      CreateAllAborts(devices[d].path, parts, indices);
    }
    if devices != [] && RoleFails(layout, role) { assert Aborts(progs[0]); }
  }

  /** Partitioning a disk for this partition raises. */
  predicate Unsized(layout: DiskLayout, a: Assignments, i: int)
    requires 0 <= i < |layout.partitions|
  {
    ParseSizeSpec(layout.partitions[i].size).None? && DevicesOf(layout, a, i) != []
  }

  lemma CreationAborts(layout: DiskLayout, a: Assignments)
    ensures Aborts(Flatten(CreateForRoles(layout, a))) <==>
            exists i :: 0 <= i < |layout.partitions| && Unsized(layout, a, i)
  {
    hide UsedRoles, ParseSizeSpec, CreateOnDevices, Flatten;
    var parts, roles, progs := layout.partitions, UsedRoles(layout), CreateForRoles(layout, a);
    S.UsedRolesFacts(layout);
    FlattenAborts(progs);
    forall r | 0 <= r < |roles|
      ensures Aborts(progs[r]) <==> a.Get(roles[r]).GetOr([]) != [] && RoleFails(layout, roles[r])
    {
      CreateOnDevicesAborts(layout, roles[r], a.Get(roles[r]).GetOr([]));
    }
    if r :| 0 <= r < |roles| && Aborts(progs[r]) {
      var i :| 0 <= i < |parts| && parts[i].TargetRole() == roles[r] && ParseSizeSpec(parts[i].size).None?;
      assert Unsized(layout, a, i);
    }
    if i :| 0 <= i < |parts| && Unsized(layout, a, i) {
      var r :| 0 <= r < |roles| && roles[r] == parts[i].TargetRole();
      assert RoleFails(layout, roles[r]);
      assert Aborts(progs[r]);
    }
  }

  // ---- Formatting ----

  lemma FormatEachAborts(members: seq<string>, part: PartitionSpec)
    ensures !Aborts(Flatten(FormatEach(members, part)))
  {
    FlattenAborts(FormatEach(members, part));
  }

  lemma FormatMembersAborts(part: PartitionSpec, index: nat, members: seq<string>)
    requires members != []
    ensures Aborts(FormatMembersProg(part, index, members)) <==> NoArray(part)
  {
    FormatEachAborts(members, part);
  }

  /** Formatting this partition raises. */
  predicate Unbuilt(layout: DiskLayout, a: Assignments, i: int)
    requires 0 <= i < |layout.partitions|
  {
    DevicesOf(layout, a, i) == [] || NoArray(layout.partitions[i])
  }

  lemma FormattingAborts(layout: DiskLayout, a: Assignments)
    ensures Aborts(Flatten(FormatProgs(layout, a))) <==>
            exists i :: 0 <= i < |layout.partitions| && Unbuilt(layout, a, i)
  {
    hide FormatMembersProg, NoArray;
    var parts, progs := layout.partitions, FormatProgs(layout, a);
    FlattenAborts(progs);
    forall i | 0 <= i < |parts| ensures Aborts(progs[i]) <==> Unbuilt(layout, a, i) {
      assert |Members(layout, a, i)| == |DevicesOf(layout, a, i)|;
      if Members(layout, a, i) != [] { FormatMembersAborts(parts[i], i, Members(layout, a, i)); }
    }
    if i :| 0 <= i < |parts| && Unbuilt(layout, a, i) { assert Aborts(progs[i]); }
    if i :| 0 <= i < |parts| && Aborts(progs[i]) { assert Unbuilt(layout, a, i); }
  }

  lemma MountingNeverAborts(parts: seq<PartitionSpec>, nodes: seq<string>, skipSwap: bool)
    requires |nodes| == |parts|
    ensures !Aborts(MountRoot(parts, nodes)) && !Aborts(Flatten(MountOthers(parts, nodes, skipSwap)))
  {
    forall i | 0 <= i < |parts| { L.MountNoAborts(nodes[i], parts[i]); }
    FlattenAborts(MountOthers(parts, nodes, skipSwap));
  }

  // ---- The whole program ----

  lemma SevenPhasesAbort(p: seq<seq<Step>>)
    requires |p| == 7 && !Aborts(p[0]) && !Aborts(p[2]) && !Aborts(p[3]) && !Aborts(p[5]) && !Aborts(p[6])
    ensures Aborts(Flatten(p)) <==> Aborts(p[1]) || Aborts(p[4])
  {
    FlattenAborts(p);
    if Aborts(p[1]) || Aborts(p[4]) { assert Aborts(p[if Aborts(p[1]) then 1 else 4]); }
  }

  /** No run gets past this partition. */
  predicate Blocks(layout: DiskLayout, a: Assignments, i: int)
    requires 0 <= i < |layout.partitions|
  {
    DevicesOf(layout, a, i) == [] || Unmakeable(layout.partitions[i])
  }

  /** What blocks a run does so while partitioning or while formatting. */
  lemma BlockedIn(layout: DiskLayout, a: Assignments)
    ensures (exists i :: 0 <= i < |layout.partitions| && Blocks(layout, a, i)) <==>
            || (exists i :: 0 <= i < |layout.partitions| && Unsized(layout, a, i))
            || (exists i :: 0 <= i < |layout.partitions| && Unbuilt(layout, a, i))
  {
    hide NoArray, ParseSizeSpec, DevicesOf;
    forall i | 0 <= i < |layout.partitions|
      ensures Blocks(layout, a, i) <==> Unsized(layout, a, i) || Unbuilt(layout, a, i)
    {
    }
  }

  /**
   * The program raises exactly if the layout names a role without an assigned disk, or has a partition that
   * cannot be made.
   */
  lemma AbortsExactly(layout: DiskLayout, a: Assignments)
    ensures Aborts(ResolvedProgram(layout, a)) <==>
            !Applicable(layout, a) || exists i :: 0 <= i < |layout.partitions| && Blocks(layout, a, i)
  {
    hide CreateForRoles, FormatProgs, MountRoot, MountOthers, AllDisks, NoArray, ParseSizeSpec, DevicesOf;
    if Applicable(layout, a) {
      L.WipeNoAborts(AllDisks(a, |a.keys|));
      CreationAborts(layout, a);
      FormattingAborts(layout, a);
      MountingNeverAborts(layout.partitions, EffectiveNodes(layout, a), true);
      SevenPhasesAbort(ResolvedPhases(layout, a));
      BlockedIn(layout, a);
    }
  }

  /** The legacy program raises exactly if some size does not parse, whatever its extra devices and RAID. */
  lemma LegacyAbortsExactly(device: string, layout: DiskLayout, extras: seq<string>, raid: Option<RaidConfig>)
    ensures Aborts(LegacyProgram(device, layout, extras, raid)) <==> SomeSizeFails(layout)
  {
    hide CreateOnEach, LegacyFormats, MountRoot, MountOthers, ParseSizeSpec, WipeProg;
    L.WipeNoAborts([device] + extras);
    L.CreateAborts(layout, [device] + extras);
    L.FormatNoAborts(layout, device, extras, raid);
    MountingNeverAborts(layout.partitions, NodesOn(device, |layout.partitions|), false);
    SevenPhasesAbort(LegacyPhases(device, layout, extras, raid));
  }

  lemma AssignedDevices(layout: DiskLayout, a: Assignments, i: nat)
    requires NonEmptyLists(a) && Applicable(layout, a) && i < |layout.partitions|
    ensures DevicesOf(layout, a, i) != []
  {
  }

  /**
   * On assigned disks, a run in which no command fails completes exactly if every size parses and every
   * array can be built; and no other run completes either unless that is so.
   */
  lemma CompletesExactly(layout: DiskLayout, a: Assignments)
    requires NonEmptyLists(a) && Applicable(layout, a)
    ensures Exec(ResolvedProgram(layout, a), Never, 0).ok <==> !HasUnmakeable(layout)
    ensures HasUnmakeable(layout) ==> forall fails :: !Exec(ResolvedProgram(layout, a), fails, 0).ok
  {
    hide Unmakeable, ResolvedProgram, Applicable, DevicesOf;
    AbortsExactly(layout, a);
    forall i | 0 <= i < |layout.partitions| ensures Blocks(layout, a, i) <==> Unmakeable(layout.partitions[i]) {
      AssignedDevices(layout, a, i);
    }
    QuietRun(ResolvedProgram(layout, a), 0);
    if HasUnmakeable(layout) {
      forall fails ensures !Exec(ResolvedProgram(layout, a), fails, 0).ok {
        if Exec(ResolvedProgram(layout, a), fails, 0).ok { RunDone(ResolvedProgram(layout, a), fails, 0); }
      }
    }
  }

  // ---- What has happened by then ----

  /** The commands that wipe these disks. */
  function WipeCommands(disks: seq<string>): seq<Command> {
    if disks == [] then []
    else
      var d := disks[|disks| - 1];
      WipeCommands(disks[..|disks| - 1]) + [Wipefs(d), ZapAll(d), ClearTable(d)]
  }

  lemma {:induction false} WipingCommands(disks: seq<string>)
    ensures Commands(Flatten(Map(WipeProg, disks))) == WipeCommands(disks)
  {
    if disks != [] {
      var n := |disks| - 1;
      var progs := Map(WipeProg, disks);
      WipingCommands(disks[..n]);
      assert progs[..n] == Map(WipeProg, disks[..n]);
      L.WipeNoAborts(disks[..n]);
      OneWipe(disks[n]);
      CommandsConcat(Flatten(progs[..n]), progs[n]);
    }
  }

  lemma OneWipe(d: string)
    ensures Commands(WipeProg(d)) == [Wipefs(d), ZapAll(d), ClearTable(d)]
  {
    var p := WipeProg(d);
    CommandsCons(p);
    CommandsCons(p[1..]);
    CommandsCons(p[1..][1..]);
    assert p[1..][1..][1..] == [];
  }

  lemma FirstPhase(p: seq<seq<Step>>)
    requires p != [] && !Aborts(p[0])
    ensures Commands(p[0]) <= Commands(Flatten(p))
  {
    assert p == [p[0]] + p[1..];
    FlattenConcat([p[0]], p[1..]);
    L.FlattenOne(p[0]);
    CommandsConcat(p[0], Flatten(p[1..]));
  }

  /** A layout with a partition that cannot be made costs the disks: the quiet run wipes them all, and then stops. */
  lemma AbortsAfterTheWipe(layout: DiskLayout, a: Assignments)
    requires NonEmptyLists(a) && Applicable(layout, a) && HasUnmakeable(layout)
    ensures var o := Exec(ResolvedProgram(layout, a), Never, 0);
            !o.ok && WipeCommands(AllDisks(a, |a.keys|)) <= o.trace
  {
    var disks := AllDisks(a, |a.keys|);
    CompletesExactly(layout, a);
    QuietRun(ResolvedProgram(layout, a), 0);
    L.WipeNoAborts(disks);
    WipingCommands(disks);
    FirstPhase(ResolvedPhases(layout, a));
  }

  /** The commands of the first two phases. */
  predicate Partitioning(c: Command) {
    c.Wipefs? || c.ZapAll? || c.ClearTable? || c.NewPartition?
  }

  predicate OnlyPartitions(prog: seq<Step>) {
    forall i :: 0 <= i < |prog| ==> prog[i].Abort? || (prog[i].Run? && Partitioning(prog[i].cmd))
  }

  lemma {:induction false} FlattenOnlyPartitions(progs: seq<seq<Step>>)
    requires forall i :: 0 <= i < |progs| ==> OnlyPartitions(progs[i])
    ensures OnlyPartitions(Flatten(progs))
    decreases |progs|
  {
    if progs != [] {
      FlattenOnlyPartitions(progs[..|progs| - 1]);
      var p, q := Flatten(progs[..|progs| - 1]), progs[|progs| - 1];
      assert forall i :: 0 <= i < |p + q| ==> (p + q)[i] == if i < |p| then p[i] else q[i - |p|];
    }
  }

  lemma {:induction false} RunOnlyPartitions(prog: seq<Step>, fails: Fails, n: int)
    requires OnlyPartitions(prog)
    ensures forall c :: c in Exec(prog, fails, n).trace ==> Partitioning(c)
    decreases |prog|
  {
    if prog != [] && ExecStep(prog[0], fails, n).ok {
      RunOnlyPartitions(prog[1..], fails, n + |ExecStep(prog[0], fails, n).trace|);
    }
  }

  lemma CreationOnlyPartitions(layout: DiskLayout, a: Assignments)
    ensures OnlyPartitions(Flatten(CreateForRoles(layout, a)))
  {
    hide ParseSizeSpec;
    var roles := UsedRoles(layout);
    forall r | 0 <= r < |roles| ensures OnlyPartitions(CreateForRoles(layout, a)[r]) {
      var devices := a.Get(roles[r]).GetOr([]);
      forall d | 0 <= d < |devices| ensures OnlyPartitions(CreateOnDevices(layout, roles[r], devices)[d]) {
        FlattenOnlyPartitions(CreateProgs(devices[d].path, layout.partitions, RoleIndices(layout, roles[r])));
      }
      FlattenOnlyPartitions(CreateOnDevices(layout, roles[r], devices));
    }
    FlattenOnlyPartitions(CreateForRoles(layout, a));
  }

  lemma TwoPhases(p: seq<seq<Step>>)
    requires |p| >= 2
    ensures Flatten(p) == p[0] + p[1] + Flatten(p[2..])
  {
    L.FlattenAround(p, 1);
    assert p[..1] == [p[0]];
    L.FlattenOne(p[0]);
  }

  /** If a size does not parse, no run formats, assembles or mounts anything: it ends while partitioning. */
  lemma UnparsedSizeFormatsNothing(layout: DiskLayout, a: Assignments, fails: Fails)
    requires NonEmptyLists(a) && Applicable(layout, a) && SomeSizeFails(layout)
    ensures var o := Exec(ResolvedProgram(layout, a), fails, 0);
            !o.ok && forall c :: c in o.trace ==> Partitioning(c)
  {
    hide CreateForRoles, FormatProgs, MountRoot, MountOthers, AllDisks, ParseSizeSpec, OnlyPartitions;
    var p := ResolvedPhases(layout, a);
    CreationAborts(layout, a);
    var i :| 0 <= i < |layout.partitions| && ParseSizeSpec(layout.partitions[i].size).None?;
    AssignedDevices(layout, a, i);
    assert Unsized(layout, a, i);
    TwoPhases(p);
    assert Aborts(p[0] + p[1]) by { assert Abort in p[1]; }
    AbortStops(p[0] + p[1], Flatten(p[2..]), fails, 0);
    WipesOnlyPartition(AllDisks(a, |a.keys|));
    CreationOnlyPartitions(layout, a);
    OnlyPartitionsConcat(p[0], p[1]);
    RunOnlyPartitions(p[0] + p[1], fails, 0);
  }

  lemma WipesOnlyPartition(disks: seq<string>)
    ensures OnlyPartitions(Flatten(Map(WipeProg, disks)))
  {
    FlattenOnlyPartitions(Map(WipeProg, disks));
  }

  lemma OnlyPartitionsConcat(p: seq<Step>, q: seq<Step>)
    requires OnlyPartitions(p) && OnlyPartitions(q)
    ensures OnlyPartitions(p + q)
  {
    assert forall i :: 0 <= i < |p + q| ==> (p + q)[i] == if i < |p| then p[i] else q[i - |p|];
  }

  // ---- Two validated layouts ----

  /** One partition whose size is a number without a unit. */
  const UNSIZED := DiskLayout([PartitionSpec("100", "ext4", Some("/"), "root", "", [], "", "", "", "")], [])

  /** A btrfs array of RAID level 5. */
  const BTRFS_RAID5 := DiskLayout(
    [PartitionSpec("*", "btrfs", Some("/"), "root", "", [], "", "pool", "5", "")],
    [DiskRole("pool", Text("hdd"))])

  lemma OnePartitionIsValid(layout: DiskLayout)
    requires |layout.partitions| == 1 && |layout.disks| <= 1 && layout.partitions[0].subvolumes == []
    requires layout.disks != [] ==> layout.disks[0].name == layout.partitions[0].TargetRole()
    requires layout.partitions[0].raidLevel != "" ==>
               layout.partitions[0].disks != "" && layout.partitions[0].raidLevel in ["0", "1", "5", "6", "10"]
    requires layout.partitions[0].raidBackend == ""
    ensures ValidLayout(layout)
  {
    forall e ensures !Fault(layout, e) {
      assert layout.partitions[1..] == [] && |MountPoints(layout.partitions)| <= 1;
      if layout.disks != [] { assert RoleNames(layout)[0] == layout.partitions[0].TargetRole(); }
    }
  }

  lemma {:induction false} FlattenHead(progs: seq<seq<Step>>)
    requires progs != [] && progs[0] != []
    ensures Flatten(progs) != [] && Flatten(progs)[0] == progs[0][0]
    decreases |progs|
  {
    if |progs| > 1 { FlattenHead(progs[..|progs| - 1]); }
  }

  /** The only partition cannot be sized: partitioning starts with the exception. */
  lemma NothingCreated(layout: DiskLayout, a: Assignments)
    requires NonEmptyLists(a) && Applicable(layout, a)
    requires |layout.partitions| == 1 && ParseSizeSpec(layout.partitions[0].size).None?
    ensures var p := Flatten(CreateForRoles(layout, a)); p != [] && p[0] == Abort
  {
    hide ParseSizeSpec;
    var parts, role := layout.partitions, layout.partitions[0].TargetRole();
    L.SoleRoleSeen(parts, role, 1);
    L.AllIndicesOf(parts, role, 1);
    assert UsedRoles(layout) == [role] by { assert [role][1..] == []; }
    var devices := a.Get(role).GetOr([]);
    AssignedDevices(layout, a, 0);
    FlattenHead(CreateProgs(devices[0].path, parts, RoleIndices(layout, role)));
    FlattenHead(CreateOnDevices(layout, role, devices));
    FlattenHead(CreateForRoles(layout, a));
  }

  /** If the second phase starts with an exception, a run without failing commands issues the first one's commands. */
  lemma SecondPhaseAborts(p: seq<seq<Step>>)
    requires |p| >= 2 && !Aborts(p[0]) && p[1] != [] && p[1][0] == Abort
    ensures Exec(Flatten(p), Never, 0) == Outcome(Commands(p[0]), false)
  {
    hide Flatten, Exec;
    var q, r := p[0] + p[1], Flatten(p[2..]);
    TwoPhases(p);
    CommandsConcat(p[0], p[1]);
    assert Commands(p[1]) == [] && Commands(p[0]) + [] == Commands(p[0]);
    assert Aborts(q) by { assert p[1][0] in q; }
    AbortStops(q, r, Never, 0);
    QuietRun(q, 0);
  }

  lemma OnlyPartitionUnparsed(layout: DiskLayout, a: Assignments)
    requires NonEmptyLists(a) && Applicable(layout, a)
    requires |layout.partitions| == 1 && ParseSizeSpec(layout.partitions[0].size).None?
    ensures Exec(ResolvedProgram(layout, a), Never, 0) == Outcome(WipeCommands(AllDisks(a, |a.keys|)), false)
  {
    hide CreateForRoles, FormatProgs, MountRoot, MountOthers, AllDisks, ParseSizeSpec, Flatten, Exec, Commands, Aborts;
    var disks := AllDisks(a, |a.keys|);
    NothingCreated(layout, a);
    L.WipeNoAborts(disks);
    WipingCommands(disks);
    SecondPhaseAborts(ResolvedPhases(layout, a));
  }

  lemma NoUnit()
    ensures ParseSizeSpec("100").None?
  {
    var digits := LeadingDigits("100");
    assert digits == "100" by { hide ParseSizeSpec; }
  }

  /**
   * The validator accepts a size that does not parse: the layout then costs the disks their contents, and no more
   * happens.
   */
  lemma UnparsedSizeWipes(a: Assignments)
    requires NonEmptyLists(a) && Applicable(UNSIZED, a)
    ensures ValidLayout(UNSIZED)
    ensures Exec(ResolvedProgram(UNSIZED, a), Never, 0) == Outcome(WipeCommands(AllDisks(a, |a.keys|)), false)
  {
    hide Applicable, ResolvedProgram;
    OnePartitionIsValid(UNSIZED);
    NoUnit();
    OnlyPartitionUnparsed(UNSIZED, a);
  }

  /** And it accepts btrfs arrays of levels that mkfs.btrfs is never asked for. */
  lemma BtrfsRaid5Wipes(a: Assignments)
    requires NonEmptyLists(a) && Applicable(BTRFS_RAID5, a)
    ensures ValidLayout(BTRFS_RAID5)
    ensures var o := Exec(ResolvedProgram(BTRFS_RAID5, a), Never, 0);
            !o.ok && WipeCommands(AllDisks(a, |a.keys|)) <= o.trace
  {
    hide Applicable, ResolvedProgram;
    OnePartitionIsValid(BTRFS_RAID5);
    assert Unmakeable(BTRFS_RAID5.partitions[0]);
    AbortsAfterTheWipe(BTRFS_RAID5, a);
  }
}
