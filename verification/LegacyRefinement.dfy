/** Where the general applier and the legacy one do the same. */
module LegacyRefinement {
  import opened Sorting
  import opened Wrappers
  import opened Dicts
  import opened Deduplication
  import opened Disk
  import opened PartitionNames
  import opened DiskLayout
  import opened CommandRunner
  import opened LayoutPrograms
  import opened DiskWorld

  /** All partitions target `role`, and it is the only role assigned. */
  predicate SoleRole(layout: DiskLayout, role: string, a: Assignments, devices: seq<BlockDevice>) {
    && a == Dict([role], map[role := devices])
    && forall i :: 0 <= i < |layout.partitions| ==> layout.partitions[i].TargetRole() == role
  }

  /** Both appliers know how to format this partition on this many disks, and do it alike. */
  predicate FormatsAlike(part: PartitionSpec, extras: seq<string>, raid: Option<RaidConfig>) {
    if part.IsMultidisk() then
      part.filesystem == "btrfs" && Backend(part) == "btrfs" && BtrfsLevel(raid).Some?
        && RaidValue(part.raidLevel) == BtrfsLevel(raid)
    else
      extras == [] || part.filesystem == "vfat" || part.filesystem == ""
  }

  predicate NoMountedSwap(layout: DiskLayout) {
    forall i :: 0 <= i < |layout.partitions| ==>
      (layout.partitions[i].filesystem == "swap" ==> layout.partitions[i].mountPoint in [None, Some("/")])
  }

  predicate SizesParse(layout: DiskLayout) {
    forall i :: 0 <= i < |layout.partitions| ==> ParseSizeSpec(layout.partitions[i].size).Some?
  }

  // ---- The phases, one by one ----

  lemma {:induction false} AllIndicesOf(parts: seq<PartitionSpec>, role: string, n: nat)
    requires n <= |parts| && forall i :: 0 <= i < n ==> parts[i].TargetRole() == role
    ensures IndicesOf(parts, role, n) == AllIndices(n)
  {
    if n > 0 { AllIndicesOf(parts, role, n - 1); }
  }

  lemma {:induction false} SoleRoleSeen(parts: seq<PartitionSpec>, role: string, n: nat)
    requires n <= |parts| && forall i :: 0 <= i < n ==> parts[i].TargetRole() == role
    ensures RolesSeen(parts, n) == if n == 0 then [] else [role]
  {
    if n > 0 { SoleRoleSeen(parts, role, n - 1); }
  }

  lemma {:induction false} AddNewDistinct(paths: seq<string>, more: seq<string>)
    requires Distinct(paths + more)
    ensures AddNew(paths, more) == paths + more
    decreases |more|
  {
    if more == [] {
      assert paths + more == paths;
    } else {
      assert (paths + more)[|paths|] == more[0];
      assert more[0] !in paths by {
        forall k | 0 <= k < |paths| ensures paths[k] != more[0] { assert (paths + more)[k] == paths[k]; }
      }
      assert paths + [more[0]] + more[1..] == paths + more;
      AddNewDistinct(paths + [more[0]], more[1..]);
    }
  }

  lemma DisksAlike(layout: DiskLayout, role: string, a: Assignments, devices: seq<BlockDevice>)
    requires SoleRole(layout, role, a, devices) && Distinct(DevicePaths(devices))
    ensures AllDisks(a, |a.keys|) == DevicePaths(devices)
  {
    assert [] + DevicePaths(devices) == DevicePaths(devices);
    AddNewDistinct([], DevicePaths(devices));
    assert AllDisks(a, 1) == AddNew(AllDisks(a, 0), DevicePaths(devices));
  }

  lemma FlattenOne(p: seq<Step>)
    ensures Flatten([p]) == p
  {
    assert [p][..0] == [];
    assert Flatten([]) + p == p;
  }

  lemma {:induction false} FlattenEmpties(progs: seq<seq<Step>>)
    requires forall i :: 0 <= i < |progs| ==> progs[i] == []
    ensures Flatten(progs) == []
    decreases |progs|
  {
    if progs != [] { FlattenEmpties(progs[..|progs| - 1]); }
  }

  lemma NothingToCreate(devices: seq<string>)
    ensures Flatten(CreateOnEach(devices, [])) == []
  {
    forall k | 0 <= k < |devices| ensures CreateOnEach(devices, [])[k] == [] {
      assert CreateProgs(devices[k], [], AllIndices(0)) == [];
    }
    FlattenEmpties(CreateOnEach(devices, []));
  }

  lemma SoleRoleUsed(layout: DiskLayout, role: string)
    requires layout.partitions != []
    requires forall i :: 0 <= i < |layout.partitions| ==> layout.partitions[i].TargetRole() == role
    ensures UsedRoles(layout) == [role]
  {
    SoleRoleSeen(layout.partitions, role, |layout.partitions|);
    assert [role][1..] == [];
  }

  lemma CreationAlike(layout: DiskLayout, role: string, a: Assignments, devices: seq<BlockDevice>)
    requires SoleRole(layout, role, a, devices)
    ensures Flatten(CreateForRoles(layout, a)) == Flatten(CreateOnEach(DevicePaths(devices), layout.partitions))
  {
    hide CreateAllProg, Flatten;
    var parts, n := layout.partitions, |layout.partitions|;
    var each := CreateOnEach(DevicePaths(devices), parts);
    if n == 0 {
      assert UsedRoles(layout) == [];
      assert CreateForRoles(layout, a) == [];
      NothingToCreate(DevicePaths(devices));
      FlattenEmpties([]);
    } else {
      AllIndicesOf(parts, role, n);
      SoleRoleUsed(layout, role);
      hide UsedRoles;
      assert CreateOnDevices(layout, role, devices) == each;
      assert CreateForRoles(layout, a) == [Flatten(each)];
      FlattenOne(Flatten(each));
    }
  }

  lemma MembersAlike(layout: DiskLayout, role: string, a: Assignments, devices: seq<BlockDevice>, i: nat)
    requires SoleRole(layout, role, a, devices) && i < |layout.partitions|
    ensures Members(layout, a, i) == NodesAt(DevicePaths(devices), i)
  {
    AllIndicesOf(layout.partitions, role, i);
  }

  lemma FormatAlike(layout: DiskLayout, role: string, a: Assignments, devices: seq<BlockDevice>,
                    raid: Option<RaidConfig>, i: nat)
    requires SoleRole(layout, role, a, devices) && devices != [] && i < |layout.partitions|
    requires FormatsAlike(layout.partitions[i], DevicePaths(devices)[1..], raid)
    ensures FormatProgs(layout, a)[i] ==
            LegacyFormat(devices[0].path, layout.partitions[i], i, DevicePaths(devices)[1..], raid)
    ensures EffectiveNodes(layout, a)[i] == PartName(devices[0].path, i + 1)
  {
    var part, paths := layout.partitions[i], DevicePaths(devices);
    var members, extras := NodesAt(paths, i), paths[1..];
    MembersAlike(layout, role, a, devices, i);
    assert members[1..] == NodesAt(extras, i);
    assert members == [PartName(devices[0].path, i + 1)] + NodesAt(extras, i);
    if !part.IsMultidisk() {
      if extras == [] {
        assert members == [members[0]];
        assert FormatEach(members, part) == [FormatProg(members[0], part, [], None)];
        FlattenOne(FormatProg(members[0], part, [], None));
      } else if part.filesystem == "" {
        FlattenEmpties(FormatEach(members, part));
      }
    }
  }

  lemma MountsAlike(layout: DiskLayout, nodes: seq<string>)
    requires |nodes| == |layout.partitions| && NoMountedSwap(layout)
    ensures MountOthers(layout.partitions, nodes, true) == MountOthers(layout.partitions, nodes, false)
  {
    forall i | 0 <= i < |nodes|
      ensures MountOther(nodes[i], layout.partitions[i], true) == MountOther(nodes[i], layout.partitions[i], false)
    {
    }
  }

  /**
   * On one role and its disks, when every partition is one both appliers format alike and no swap
   * partition is mounted, the two issue the same commands: their programs are equal.
   */
  lemma ProgramsEqual(layout: DiskLayout, role: string, a: Assignments, devices: seq<BlockDevice>,
                      raid: Option<RaidConfig>)
    requires SoleRole(layout, role, a, devices) && devices != [] && Distinct(DevicePaths(devices))
    requires forall i :: 0 <= i < |layout.partitions| ==>
               FormatsAlike(layout.partitions[i], DevicePaths(devices)[1..], raid)
    requires NoMountedSwap(layout)
    ensures ResolvedProgram(layout, a) == LegacyProgram(devices[0].path, layout, DevicePaths(devices)[1..], raid)
  {
    PhasesAlike(layout, role, a, devices, raid);
    MountsAlike(layout, EffectiveNodes(layout, a));
    assert ResolvedPhases(layout, a) == LegacyPhases(devices[0].path, layout, DevicePaths(devices)[1..], raid);
  }

  lemma FormatsAllAlike(layout: DiskLayout, role: string, a: Assignments, devices: seq<BlockDevice>,
                        raid: Option<RaidConfig>)
    requires SoleRole(layout, role, a, devices) && devices != []
    requires forall i :: 0 <= i < |layout.partitions| ==>
               FormatsAlike(layout.partitions[i], DevicePaths(devices)[1..], raid)
    ensures FormatProgs(layout, a) == LegacyFormats(devices[0].path, layout.partitions, DevicePaths(devices)[1..], raid)
    ensures EffectiveNodes(layout, a) == NodesOn(devices[0].path, |layout.partitions|)
  {
    forall i | 0 <= i < |layout.partitions|
      ensures FormatProgs(layout, a)[i] ==
              LegacyFormats(devices[0].path, layout.partitions, DevicePaths(devices)[1..], raid)[i]
      ensures EffectiveNodes(layout, a)[i] == NodesOn(devices[0].path, |layout.partitions|)[i]
    {
      FormatAlike(layout, role, a, devices, raid, i);
    }
  }

  lemma PhasesAlike(layout: DiskLayout, role: string, a: Assignments, devices: seq<BlockDevice>,
                    raid: Option<RaidConfig>)
    requires SoleRole(layout, role, a, devices) && devices != [] && Distinct(DevicePaths(devices))
    requires forall i :: 0 <= i < |layout.partitions| ==>
               FormatsAlike(layout.partitions[i], DevicePaths(devices)[1..], raid)
    ensures Applicable(layout, a)
    ensures var parts, paths := layout.partitions, DevicePaths(devices);
            && [devices[0].path] + paths[1..] == paths == AllDisks(a, |a.keys|)
            && Flatten(CreateForRoles(layout, a)) == Flatten(CreateOnEach(paths, parts))
            && FormatProgs(layout, a) == LegacyFormats(devices[0].path, parts, paths[1..], raid)
            && EffectiveNodes(layout, a) == NodesOn(devices[0].path, |parts|)
  {
    DisksAlike(layout, role, a, devices);
    CreationAlike(layout, role, a, devices);
    FormatsAllAlike(layout, role, a, devices, raid);
  }

  // ---- The partition maps ----

  lemma AddsAgree(m: PartitionMap, part: PartitionSpec, node: string)
    ensures AddAuxiliary(AddCanonical(m, part, node), part, node).(swapPartitions := [], extraMounts := []) ==
            AddCanonical(m.(swapPartitions := [], extraMounts := []), part, node)
  {
  }

  lemma {:induction false} MapsAgree(parts: seq<PartitionSpec>, nodes: seq<string>, n: nat)
    requires |nodes| == |parts| && n <= |parts|
    ensures MapAfter(parts, nodes, n, true).(swapPartitions := [], extraMounts := []) ==
            MapAfter(parts, nodes, n, false)
  {
    hide AddCanonical, AddAuxiliary;
    if n > 0 {
      MapsAgree(parts, nodes, n - 1);
      AddsAgree(MapAfter(parts, nodes, n - 1, true), parts[n - 1], nodes[n - 1]);
    }
  }

  /** The appliers agree on everything the legacy one reports. */
  lemma ReportsAgree(layout: DiskLayout, role: string, a: Assignments, devices: seq<BlockDevice>,
                     raid: Option<RaidConfig>)
    requires SoleRole(layout, role, a, devices) && devices != [] && Distinct(DevicePaths(devices))
    requires forall i :: 0 <= i < |layout.partitions| ==>
               FormatsAlike(layout.partitions[i], DevicePaths(devices)[1..], raid)
    ensures ResolvedMap(layout, a).(swapPartitions := [], extraMounts := []) == LegacyMap(devices[0].path, layout)
  {
    PhasesAlike(layout, role, a, devices, raid);
    MapsAgree(layout.partitions, EffectiveNodes(layout, a), |layout.partitions|);
  }

  // ---- Mounted swap ----

  /** Neither piece raises, and the second issues at least as many commands. */
  predicate NoFewer(p: seq<Step>, q: seq<Step>) {
    !Aborts(p) && !Aborts(q) && |Commands(p)| <= |Commands(q)|
  }

  lemma NoFewerConcat(p: seq<Step>, q: seq<Step>, p': seq<Step>, q': seq<Step>)
    requires NoFewer(p, q) && NoFewer(p', q')
    ensures NoFewer(p + p', q + q')
    ensures |Commands(p)| < |Commands(q)| || |Commands(p')| < |Commands(q')| ==> |Commands(p + p')| < |Commands(q + q')|
  {
    CommandsConcat(p, p');
    CommandsConcat(q, q');
  }

  ghost predicate AllNoFewer(p: seq<seq<Step>>, q: seq<seq<Step>>) {
    |p| == |q| && forall j {:trigger p[j]} {:trigger q[j]} :: 0 <= j < |p| ==> NoFewer(p[j], q[j])
  }

  lemma {:induction false} FlattenNoFewer(p: seq<seq<Step>>, q: seq<seq<Step>>)
    requires AllNoFewer(p, q)
    ensures NoFewer(Flatten(p), Flatten(q))
    decreases |p|
  {
    if p != [] {
      var n := |p| - 1;
      FlattenNoFewer(p[..n], q[..n]);
      NoFewerConcat(Flatten(p[..n]), Flatten(q[..n]), p[n], q[n]);
    }
  }

  lemma SliceNoFewer(p: seq<seq<Step>>, q: seq<seq<Step>>, i: nat)
    requires AllNoFewer(p, q) && i < |p|
    ensures AllNoFewer(p[..i], q[..i]) && NoFewer(p[i], q[i]) && AllNoFewer(p[i + 1..], q[i + 1..])
  {
  }

  lemma FlattenAround(p: seq<seq<Step>>, i: nat)
    requires i < |p|
    ensures Flatten(p) == Flatten(p[..i]) + p[i] + Flatten(p[i + 1..])
  {
    var x, y := p[..i + 1], p[i + 1..];
    assert Flatten(p) == Flatten(x + y) by { assert p == x + y; }
    FlattenConcat(x, y);
    FlattenSnoc(p, i);
  }

  /** More commands in one piece, and no fewer in the others, are more commands. */
  lemma MoreCommands(p: seq<seq<Step>>, q: seq<seq<Step>>, i: nat)
    requires AllNoFewer(p, q) && i < |p| && |Commands(p[i])| < |Commands(q[i])|
    ensures NoFewer(Flatten(p), Flatten(q)) && |Commands(Flatten(p))| < |Commands(Flatten(q))|
  {
    SliceNoFewer(p, q, i);
    FlattenNoFewer(p[..i], q[..i]);
    FlattenNoFewer(p[i + 1..], q[i + 1..]);
    FlattenAround(p, i);
    FlattenAround(q, i);
    NoFewerConcat(Flatten(p[..i]), Flatten(q[..i]), p[i], q[i]);
    NoFewerConcat(Flatten(p[..i]) + p[i], Flatten(q[..i]) + q[i], Flatten(p[i + 1..]), Flatten(q[i + 1..]));
  }

  lemma ChildrenNoAborts(path: string, part: PartitionSpec, svs: seq<SubvolumeSpec>)
    requires forall i :: 0 <= i < |svs| ==> svs[i].mountPoint.Some?
    ensures !Aborts(Flatten(MountChildren(path, part, svs)))
  {
    hide Flatten, MountTarget;
    FlattenAborts(MountChildren(path, part, svs));
  }

  lemma MountNoAborts(path: string, part: PartitionSpec)
    ensures !Aborts(MountOrSubvolumes(path, part))
  {
    hide Flatten, ChildSubvolumes, MountChildren, RootSubvolume;
    ChildrenNoAborts(path, part, ChildSubvolumes(part.subvolumes));
  }

  lemma CreateAborts(layout: DiskLayout, devices: seq<string>)
    requires devices != []
    ensures Aborts(Flatten(CreateOnEach(devices, layout.partitions))) <==> !SizesParse(layout)
  {
    var progs := CreateOnEach(devices, layout.partitions);
    FlattenAborts(progs);
    forall k | 0 <= k < |devices| ensures Aborts(progs[k]) <==> !SizesParse(layout) {
      CreateOneAborts(layout, devices[k]);
    }
    if !SizesParse(layout) { assert Aborts(progs[0]); }
  }

  lemma CreateProgAborts(device: string, num: int, part: PartitionSpec)
    ensures Aborts(CreateProg(device, num, part)) <==> ParseSizeSpec(part.size).None?
  {
    hide ParseSizeSpec;
  }

  lemma CreateOneAborts(layout: DiskLayout, device: string)
    ensures Aborts(CreateAllProg(device, layout.partitions, AllIndices(|layout.partitions|))) <==> !SizesParse(layout)
  {
    hide CreateProg, ParseSizeSpec;
    var parts := layout.partitions;
    var progs := CreateProgs(device, parts, AllIndices(|parts|));
    FlattenAborts(progs);
    forall i | 0 <= i < |parts| ensures Aborts(progs[i]) <==> ParseSizeSpec(parts[i].size).None? {
      CreateProgAborts(device, i + 1, parts[i]);
    }
    if !SizesParse(layout) {
      var i :| 0 <= i < |parts| && ParseSizeSpec(parts[i].size).None?;
      assert Aborts(progs[i]);
    }
  }

  lemma SwapCommands(path: string, part: PartitionSpec)
    ensures NoFewer(MountOther(path, part, true), MountOther(path, part, false))
    ensures part.filesystem == "swap" && part.mountPoint !in [None, Some("/")] ==>
              |Commands(MountOther(path, part, true))| < |Commands(MountOther(path, part, false))|
  {
    hide SubvolumesProg, MountTarget;
    MountNoAborts(path, part);
    if part.filesystem == "swap" && part.mountPoint !in [None, Some("/")] {
      CommandsCons(MountProg(path, part));
    }
  }

  /** Everything both programs do before the last mount pass. */
  function Prefix(layout: DiskLayout, device: string, raid: Option<RaidConfig>): seq<Step> {
    Flatten(LegacyPhases(device, layout, [], raid)[..6])
  }

  lemma LegacySplits(layout: DiskLayout, device: string, raid: Option<RaidConfig>)
    ensures LegacyProgram(device, layout, [], raid) ==
            Prefix(layout, device, raid)
            + Flatten(MountOthers(layout.partitions, NodesOn(device, |layout.partitions|), false))
  {
    var q := LegacyPhases(device, layout, [], raid);
    assert q[..7] == q;
    FlattenSnoc(q, 6);
  }

  lemma ResolvedSplitsAt6(layout: DiskLayout, a: Assignments)
    requires Applicable(layout, a)
    ensures ResolvedProgram(layout, a) ==
            Flatten(ResolvedPhases(layout, a)[..6])
            + Flatten(MountOthers(layout.partitions, EffectiveNodes(layout, a), true))
  {
    var p := ResolvedPhases(layout, a);
    assert p[..7] == p;
    FlattenSnoc(p, 6);
  }

  lemma SamePrefix(layout: DiskLayout, role: string, a: Assignments, devices: seq<BlockDevice>,
                   raid: Option<RaidConfig>)
    requires SoleRole(layout, role, a, devices) && devices != [] && Distinct(DevicePaths(devices))
    requires forall i :: 0 <= i < |layout.partitions| ==>
               FormatsAlike(layout.partitions[i], DevicePaths(devices)[1..], raid)
    ensures Applicable(layout, a) && EffectiveNodes(layout, a) == NodesOn(devices[0].path, |layout.partitions|)
    ensures ResolvedPhases(layout, a)[..6] ==
            LegacyPhases(devices[0].path, layout, DevicePaths(devices)[1..], raid)[..6]
  {
    hide FormatsAlike, EffectiveNodes, NodesOn, CreateForRoles, CreateOnEach, FormatProgs;
    hide LegacyFormats, AllDisks, MountRoot, MountOthers;
    PhasesAlike(layout, role, a, devices, raid);
  }

  lemma ResolvedSplits(layout: DiskLayout, role: string, a: Assignments, d: BlockDevice, raid: Option<RaidConfig>)
    requires SoleRole(layout, role, a, [d])
    requires forall i :: 0 <= i < |layout.partitions| ==> !layout.partitions[i].IsMultidisk()
    ensures ResolvedProgram(layout, a) ==
            Prefix(layout, d.path, raid)
            + Flatten(MountOthers(layout.partitions, NodesOn(d.path, |layout.partitions|), true))
  {
    assert DevicePaths([d]) == [d.path] && [d.path][1..] == [];
    SamePrefix(layout, role, a, [d], raid);
    ResolvedSplitsAt6(layout, a);
  }

  lemma FormatNoAborts(layout: DiskLayout, device: string, extras: seq<string>, raid: Option<RaidConfig>)
    ensures !Aborts(Flatten(LegacyFormats(device, layout.partitions, extras, raid)))
  {
    hide Flatten;
    forall i | 0 <= i < |layout.partitions| ensures !Aborts(LegacyFormats(device, layout.partitions, extras, raid)[i]) {
      FlattenAborts(FormatEach([PartName(device, i + 1)] + NodesAt(extras, i), layout.partitions[i]));
    }
    FlattenAborts(LegacyFormats(device, layout.partitions, extras, raid));
  }

  lemma WipeNoAborts(disks: seq<string>)
    ensures !Aborts(Flatten(Map(WipeProg, disks))) && !Aborts(Flatten(Map(PartProbeProg, disks)))
  {
    FlattenAborts(Map(WipeProg, disks));
    FlattenAborts(Map(PartProbeProg, disks));
  }

  /** Before the last mount pass, only a size that does not parse raises. */
  lemma PrefixAborts(layout: DiskLayout, device: string, raid: Option<RaidConfig>)
    ensures Aborts(Prefix(layout, device, raid)) <==> !SizesParse(layout)
  {
    hide CreateOnEach, LegacyFormats, MountOrSubvolumes, MountOthers, WipeProg, SizesParse;
    var parts := layout.partitions;
    var q := LegacyPhases(device, layout, [], raid)[..6];
    WipeNoAborts([device] + []);
    assert [device] + [] == [device];
    CreateAborts(layout, [device]);
    FormatNoAborts(layout, device, [], raid);
    var r := RootIndex(parts, 0);
    if r < |parts| { MountNoAborts(NodesOn(device, |parts|)[r], parts[r]); }
    assert !Aborts(q[0]) && !Aborts(q[2]) && !Aborts(q[3]);
    assert !Aborts(q[4]) && !Aborts(q[5]);
    FlattenAborts(q);
    assert Aborts(q[1]) <==> !SizesParse(layout);
  }

  /** A mounted swap partition costs the legacy applier a command that the general one does not issue. */
  lemma LastPassDiffers(parts: seq<PartitionSpec>, nodes: seq<string>, i: nat)
    requires |nodes| == |parts| && i < |parts| && parts[i].filesystem == "swap"
    requires parts[i].mountPoint !in [None, Some("/")]
    ensures var p, q := Flatten(MountOthers(parts, nodes, true)), Flatten(MountOthers(parts, nodes, false));
            NoFewer(p, q) && |Commands(p)| < |Commands(q)|
  {
    var p, q := MountOthers(parts, nodes, true), MountOthers(parts, nodes, false);
    forall j | 0 <= j < |parts| ensures NoFewer(p[j], q[j]) { SwapCommands(nodes[j], parts[j]); }
    SwapCommands(nodes[i], parts[i]);
    MoreCommands(p, q, i);
  }

  lemma QuietRunsDiffer(p: seq<Step>, q: seq<Step>)
    requires NoFewer(p, q) && |Commands(p)| < |Commands(q)|
    ensures !BehaveAlike(p, q)
  {
    QuietRun(p, 0);
    QuietRun(q, 0);
    assert Exec(p, Never, 0) != Exec(q, Never, 0);
  }

  lemma MountedSwapDiffers(layout: DiskLayout, role: string, a: Assignments, d: BlockDevice, raid: Option<RaidConfig>)
    requires SoleRole(layout, role, a, [d]) && SizesParse(layout) && !NoMountedSwap(layout)
    requires forall i :: 0 <= i < |layout.partitions| ==> !layout.partitions[i].IsMultidisk()
    ensures !BehaveAlike(ResolvedProgram(layout, a), LegacyProgram(d.path, layout, [], raid))
  {
    var parts, nodes := layout.partitions, NodesOn(d.path, |layout.partitions|);
    var i :| 0 <= i < |parts| && !(parts[i].filesystem == "swap" ==> parts[i].mountPoint in [None, Some("/")]);
    LegacySplits(layout, d.path, raid);
    ResolvedSplits(layout, role, a, d, raid);
    PrefixAborts(layout, d.path, raid);
    LastPassDiffers(parts, nodes, i);
    NoFewerConcat(Prefix(layout, d.path, raid), Prefix(layout, d.path, raid),
                  Flatten(MountOthers(parts, nodes, true)), Flatten(MountOthers(parts, nodes, false)));
    QuietRunsDiffer(ResolvedProgram(layout, a), LegacyProgram(d.path, layout, [], raid));
  }

  lemma SingleDiskAlike(layout: DiskLayout, role: string, a: Assignments, d: BlockDevice, raid: Option<RaidConfig>)
    requires SoleRole(layout, role, a, [d]) && NoMountedSwap(layout)
    requires forall i :: 0 <= i < |layout.partitions| ==> !layout.partitions[i].IsMultidisk()
    ensures BehaveAlike(ResolvedProgram(layout, a), LegacyProgram(d.path, layout, [], raid))
  {
    ResolvedSplits(layout, role, a, d, raid);
    LegacySplits(layout, d.path, raid);
    MountsAlike(layout, NodesOn(d.path, |layout.partitions|));
    EqualBehaveAlike(ResolvedProgram(layout, a), LegacyProgram(d.path, layout, [], raid));
  }

  /** The same commands and the same end, whichever commands fail. */
  ghost predicate BehaveAlike(p: seq<Step>, q: seq<Step>) {
    forall fails :: Exec(p, fails, 0) == Exec(q, fails, 0)
  }

  lemma EqualBehaveAlike(p: seq<Step>, q: seq<Step>)
    requires p == q
    ensures BehaveAlike(p, q)
  {
  }

  /** With a size that does not parse, both raise while partitioning, after the same commands. */
  lemma UnparsedBehaveAlike(layout: DiskLayout, role: string, a: Assignments, d: BlockDevice, raid: Option<RaidConfig>)
    requires SoleRole(layout, role, a, [d]) && !SizesParse(layout)
    requires forall i :: 0 <= i < |layout.partitions| ==> !layout.partitions[i].IsMultidisk()
    ensures BehaveAlike(ResolvedProgram(layout, a), LegacyProgram(d.path, layout, [], raid))
  {
    hide Prefix, MountOthers, SizesParse;
    var parts, nodes := layout.partitions, NodesOn(d.path, |layout.partitions|);
    var prefix := Prefix(layout, d.path, raid);
    ResolvedSplits(layout, role, a, d, raid);
    LegacySplits(layout, d.path, raid);
    PrefixAborts(layout, d.path, raid);
    forall fails
      ensures Exec(ResolvedProgram(layout, a), fails, 0) == Exec(LegacyProgram(d.path, layout, [], raid), fails, 0)
    {
      AbortStops(prefix, Flatten(MountOthers(parts, nodes, true)), fails, 0);
      AbortStops(prefix, Flatten(MountOthers(parts, nodes, false)), fails, 0);
    }
  }

  /**
   * On a single disk without RAID, the general applier behaves as the legacy one under every pattern of
   * failing commands exactly when no swap partition has a mount point other than `/`, or some size does not
   * parse, so that neither of them gets that far.
   */
  lemma RefinesLegacyExactly(layout: DiskLayout, role: string, a: Assignments, d: BlockDevice, raid: Option<RaidConfig>)
    requires SoleRole(layout, role, a, [d])
    requires forall i :: 0 <= i < |layout.partitions| ==> !layout.partitions[i].IsMultidisk()
    ensures BehaveAlike(ResolvedProgram(layout, a), LegacyProgram(d.path, layout, [], raid)) <==>
            NoMountedSwap(layout) || !SizesParse(layout)
  {
    if NoMountedSwap(layout) {
      SingleDiskAlike(layout, role, a, d, raid);
    } else if SizesParse(layout) {
      MountedSwapDiffers(layout, role, a, d, raid);
    } else {
      UnparsedBehaveAlike(layout, role, a, d, raid);
    }
  }
}
