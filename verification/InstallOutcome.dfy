/** What a complete run of the general applier has done to the disks: every partition formatted and mounted as asked. */
module InstallOutcome {
  import opened Text
  import opened Sorting
  import opened Wrappers
  import opened Disk
  import opened DiskDescriptor
  import opened PartitionNames
  import opened DiskLayout
  import opened CommandRunner
  import opened LayoutPrograms
  import opened DiskWorld
  import S = ApplierSafety
  import L = LegacyRefinement
  import A = LayoutAborts
  import Laws = LayoutLaws
  import RoleResolution
  import ResolutionLaws

  // ---- What a layout asks for ----

  /** The tool that makes each file system; other names, and none, leave the partition raw. */
  const MKFS_TOOLS := map[
    "vfat" := "mkfs.fat", "ext4" := "mkfs.ext4", "btrfs" := "mkfs.btrfs", "xfs" := "mkfs.xfs", "swap" := "mkswap"]

  /** FAT labels are in capitals, XFS labels have at most 12 characters and swap labels at most 15. */
  predicate LabelFor(part: PartitionSpec, fsLabel: string) {
    if part.filesystem == "vfat" then
      && |fsLabel| == |part.partLabel|
      && forall i :: 0 <= i < |fsLabel| ==>
           !('a' <= fsLabel[i] <= 'z') && LowerChar(fsLabel[i]) == LowerChar(part.partLabel[i])
    else if part.filesystem in ["xfs", "swap"] then
      var most := if part.filesystem == "xfs" then 12 else 15;
      fsLabel <= part.partLabel && |fsLabel| <= most && (|fsLabel| < most ==> fsLabel == part.partLabel)
    else fsLabel == part.partLabel
  }

  /** One file system, of the kind and with the label that the partition asks for, over all of `nodes`. */
  predicate Makes(c: Command, part: PartitionSpec, nodes: seq<string>) {
    && c.Mkfs? && c.nodes == nodes && part.filesystem in MKFS_TOOLS && c.tool == MKFS_TOOLS[part.filesystem]
    && LabelFor(part, c.fsLabel)
    && c.profile == if |nodes| > 1 then "raid" + part.raidLevel else ""
  }

  /** The partition lies on an array that mdadm builds: the back end for everything but btrfs, unless one is named. */
  predicate WantsArray(part: PartitionSpec) {
    && part.disks != "" && part.raidLevel != ""
    && (part.raidBackend == "mdadm" || (part.raidBackend == "" && part.filesystem != "btrfs"))
  }

  /** The commands that prepare the nodes of a partition, in order. */
  ghost predicate PreparedAs(cmds: seq<Command>, part: PartitionSpec, md: string, members: seq<string>) {
    if WantsArray(part) then
      && cmds != [] && cmds[0] == MdCreate(md, part.raidLevel, members)
      && if part.filesystem in MKFS_TOOLS then |cmds| == 2 && Makes(cmds[1], part, [md]) else |cmds| == 1
    else if part.filesystem !in MKFS_TOOLS then cmds == []
    else if part.disks != "" && part.raidLevel != "" then |cmds| == 1 && Makes(cmds[0], part, members)
    else |cmds| == |members| && forall k :: 0 <= k < |cmds| ==> Makes(cmds[k], part, [members[k]])
  }

  /** The role a partition is for. */
  function WantedRole(part: PartitionSpec): string {
    if part.disks != "" then part.disks else if part.disk != "" then part.disk else "primary"
  }

  /** Its number on each disk of that role: the partitions of the role count from 1 in layout order. */
  function Number(layout: DiskLayout, i: nat): nat
    requires i < |layout.partitions|
  {
    |Filter(layout.partitions[..i], (q: PartitionSpec) => WantedRole(q) == WantedRole(layout.partitions[i]))| + 1
  }

  /** The disks of its role. */
  function Disks(layout: DiskLayout, a: Assignments, i: nat): seq<BlockDevice>
    requires i < |layout.partitions|
  {
    a.Get(WantedRole(layout.partitions[i])).GetOr([])
  }

  /** One node on each disk of its role. */
  function DiskNodes(layout: DiskLayout, a: Assignments, i: nat): seq<string>
    requires i < |layout.partitions|
  {
    Map((d: BlockDevice) => PartName(d.path, Number(layout, i)), Disks(layout, a, i))
  }

  /** The array built for a partition. */
  function ArrayNode(i: nat): string {
    "/dev/md" + Decimal(i)
  }

  /** The nodes of a partition: one on each disk of its role, and the array built from them if there is one. */
  function OwnNodes(layout: DiskLayout, a: Assignments, i: nat): seq<string>
    requires i < |layout.partitions|
  {
    DiskNodes(layout, a, i) + if WantsArray(layout.partitions[i]) then [ArrayNode(i)] else []
  }

  /** The command formats one of these nodes or builds an array from it. */
  predicate Consumes(nodes: seq<string>, c: Command) {
    exists n :: n in nodes && ((c.Mkfs? && n in c.nodes) || (c.MdCreate? && n in c.members))
  }

  /** Where the file system of a partition is found: the array, or else the node on the first disk of its role. */
  function HomeNode(layout: DiskLayout, a: Assignments, i: nat): string
    requires i < |layout.partitions|
  {
    if WantsArray(layout.partitions[i]) then ArrayNode(i)
    else if DiskNodes(layout, a, i) == [] then ""
    else DiskNodes(layout, a, i)[0]
  }

  predicate Mounting(c: Command) {
    c.MountTop? || c.CreateSubvolume? || c.UmountTop? || c.Mount?
  }

  predicate MountsNode(node: string, c: Command) {
    Mounting(c) && c.node == node
  }

  /** The mount point starts with `k` slashes, and `target` is what follows them, below /mnt. */
  predicate BelowAfter(mountPoint: string, k: nat, target: string)
    requires k <= |mountPoint|
  {
    && (forall i :: 0 <= i < k ==> mountPoint[i] == '/') && (k < |mountPoint| ==> mountPoint[k] != '/')
    && target == if k == |mountPoint| then "/mnt" else "/mnt/" + mountPoint[k..]
  }

  /** `target` is below /mnt what the mount point is below the root. */
  predicate Below(mountPoint: string, target: string) {
    exists k :: 0 <= k <= |mountPoint| && BelowAfter(mountPoint, k, target)
  }

  predicate MountedAs(c: Command, node: string, part: PartitionSpec, sv: SubvolumeSpec) {
    && c.Mount? && c.node == node && sv.mountPoint.Some? && Below(sv.mountPoint.value, c.target)
    && c.options == "subvol=" + sv.name + if part.mountOptions == "" then "" else "," + part.mountOptions
  }

  /** The subvolumes mounted below the root one, in their order. */
  function Inner(svs: seq<SubvolumeSpec>): seq<SubvolumeSpec> {
    Filter(svs, (sv: SubvolumeSpec) => sv.mountPoint.Some? && sv.mountPoint.value != "/")
  }

  /** The last subvolume that asks for the root, if one does. */
  ghost predicate IsRootSubvolume(svs: seq<SubvolumeSpec>, k: nat) {
    k < |svs| && svs[k].mountPoint == Some("/") && forall j :: k < j < |svs| ==> svs[j].mountPoint != Some("/")
  }

  /** All subvolumes are made on the top volume; then the root one is mounted, if there is one, and then the others. */
  ghost predicate SubvolumesMountedAs(cmds: seq<Command>, node: string, part: PartitionSpec) {
    var svs, inner := part.subvolumes, Inner(part.subvolumes);
    && |cmds| >= |svs| + 2 + |inner|
    && cmds[0] == MountTop(node) && cmds[|svs| + 1] == UmountTop(node)
    && (forall k :: 0 <= k < |svs| ==> cmds[k + 1] == CreateSubvolume(node, svs[k].name))
    && (forall k :: 0 <= k < |inner| ==> MountedAs(cmds[|cmds| - |inner| + k], node, part, inner[k]))
    && (forall r: nat :: IsRootSubvolume(svs, r) ==>
          |cmds| == |svs| + 3 + |inner| && MountedAs(cmds[|svs| + 2], node, part, svs[r]))
    && ((forall r: nat :: !IsRootSubvolume(svs, r)) ==> |cmds| == |svs| + 2 + |inner|)
  }

  /** An earlier partition is mounted at the root already, or it is swap that is passed over. */
  predicate NotMounted(parts: seq<PartitionSpec>, i: nat, skipSwap: bool)
    requires i < |parts|
  {
    if parts[i].mountPoint == Some("/") then exists j :: 0 <= j < i && parts[j].mountPoint == Some("/")
    else (skipSwap && parts[i].filesystem == "swap") || (parts[i].mountPoint.None? && !HasSubvolumes(parts[i]))
  }

  /** The commands that mount a partition, in order. */
  ghost predicate MountedAsAsked(cmds: seq<Command>, node: string, parts: seq<PartitionSpec>, i: nat, skipSwap: bool)
    requires i < |parts|
  {
    var part := parts[i];
    if NotMounted(parts, i, skipSwap) then cmds == []
    else if part.filesystem == "btrfs" && part.subvolumes != [] then SubvolumesMountedAs(cmds, node, part)
    else
      && |cmds| == 1 && cmds[0].Mount? && cmds[0].node == node && cmds[0].options == part.mountOptions
      && part.mountPoint.Some? && Below(part.mountPoint.value, cmds[0].target)
  }

  /** The size argument of sgdisk: the rest of the disk, or so many mebi-, gibi- or tebibytes. */
  ghost predicate SizedAs(size: string, argument: string) {
    if size == "*" then argument == "0:0"
    else exists digits, unit :: size == digits + [unit] && argument == "0:+" + digits + [Capital(unit)]
                                && digits != "" && Digits(digits) && Capital(unit) in ['M', 'G', 'T']
  }

  function Capital(c: char): char {
    if 'a' <= c <= 'z' then (c as int - 32) as char else c
  }

  /** A partition of the size, type and label that `part` asks for. */
  ghost predicate CreatedFor(c: Command, disk: string, num: int, part: PartitionSpec) {
    && c.NewPartition? && c.disk == disk && c.num == num && SizedAs(part.size, c.size) && c.partLabel == part.partLabel
    && c.typeCode ==
       if part.filesystem == "vfat" then "EF00" else if part.filesystem == "swap" then "8200" else "8300"
  }

  predicate Creates(c: Command, disk: string, num: int) {
    c.NewPartition? && c.disk == disk && c.num == num
  }

  /** Partition `i` is made once on each disk of its role, and as asked. */
  ghost predicate CreatedAsAsked(t: seq<Command>, layout: DiskLayout, a: Assignments, i: nat)
    requires i < |layout.partitions|
  {
    forall d :: d in Disks(layout, a, i) ==>
      exists c :: CreatedFor(c, d.path, Number(layout, i), layout.partitions[i])
                  && Filter(t, x => Creates(x, d.path, Number(layout, i))) == [c]
  }

  /** The commands that consume nodes of partition `i`. */
  function Preparing(t: seq<Command>, layout: DiskLayout, a: Assignments, i: nat): seq<Command>
    requires i < |layout.partitions|
  {
    Filter(t, c => Consumes(OwnNodes(layout, a, i), c))
  }

  /** The commands that mount partition `i` or something on it. */
  function Mountings(t: seq<Command>, layout: DiskLayout, a: Assignments, i: nat): seq<Command>
    requires i < |layout.partitions|
  {
    Filter(t, c => MountsNode(HomeNode(layout, a, i), c))
  }

  /** Wiping, partitioning, probing, formatting and mounting follow one another. */
  ghost predicate InPhases(t: seq<Command>, disks: seq<string>, creations: seq<Command>, formats: seq<Command>,
                           mounts: seq<Command>) {
    && t == A.WipeCommands(disks) + creations + Map(d => PartProbe(d), disks) + [Settle] + formats + mounts
    && (forall c :: c in creations ==> c.NewPartition?)
    && (forall c :: c in formats ==> c.Mkfs? || c.MdCreate?)
    && (forall c :: c in mounts ==> Mounting(c))
  }

  /** The command consumes something, and only these nodes. */
  ghost predicate ConsumesOnly(nodes: seq<string>, c: Command) {
    && (c.Mkfs? || c.MdCreate?) && Consumes(nodes, c)
    && (forall n :: c.Mkfs? && n in c.nodes ==> n in nodes)
    && (forall n :: c.MdCreate? && n in c.members ==> n in nodes)
  }

  /** What is formatted or assembled belongs to one partition of the layout. */
  ghost predicate NothingElsePrepared(t: seq<Command>, layout: DiskLayout, a: Assignments) {
    forall c :: c in t && (c.Mkfs? || c.MdCreate?) ==>
      exists i :: 0 <= i < |layout.partitions| && ConsumesOnly(OwnNodes(layout, a, i), c)
  }

  /** Nothing is mounted before the partition that is mounted at the root, but what is on it. */
  ghost predicate RootMountedFirst(t: seq<Command>, layout: DiskLayout, a: Assignments) {
    forall r, x, y :: 0 <= r < |layout.partitions| && layout.partitions[r].mountPoint == Some("/")
                      && 0 <= x < y < |t| && Mounting(t[x]) && MountsNode(HomeNode(layout, a, r), t[y]) ==>
      t[x].node == t[y].node
  }

  // ---- Formatting one partition ----

  lemma SingleCommand(c: Command)
    ensures Commands([Run(c)]) == [c] && !Aborts([Run(c)])
  {
    CommandsCons([Run(c)]);
    assert [Run(c)][1..] == [];
  }

  lemma UpperIsFatLabel(part: PartitionSpec)
    requires part.filesystem == "vfat"
    ensures LabelFor(part, Upper(part.partLabel))
  {
  }

  lemma FormatMakes(path: string, part: PartitionSpec, extra: seq<string>, level: Option<string>)
    requires extra != [] ==> part.filesystem == "btrfs" && level == Some(part.raidLevel)
    ensures var cmds := Commands(FormatProg(path, part, extra, level));
            if part.filesystem in MKFS_TOOLS then |cmds| == 1 && Makes(cmds[0], part, [path] + extra) else cmds == []
  {
    if part.filesystem in MKFS_TOOLS {
      assert [path] + [] == [path];
      var c := FormatProg(path, part, extra, level)[0].cmd;
      assert FormatProg(path, part, extra, level) == [Run(c)];
      SingleCommand(c);
      if part.filesystem == "vfat" { UpperIsFatLabel(part); }
    }
  }

  lemma {:induction false} FormatEachMakes(paths: seq<string>, part: PartitionSpec)
    ensures var cmds := Commands(Flatten(FormatEach(paths, part)));
            if part.filesystem in MKFS_TOOLS
            then |cmds| == |paths| && forall k :: 0 <= k < |cmds| ==> Makes(cmds[k], part, [paths[k]])
            else cmds == []
    decreases |paths|
  {
    hide Makes, FormatProg, MKFS_TOOLS;
    if paths != [] {
      var n := |paths| - 1;
      var progs := FormatEach(paths, part);
      FormatEachMakes(paths[..n], part);
      assert progs[..n] == FormatEach(paths[..n], part);
      A.FormatEachAborts(paths[..n], part);
      CommandsConcat(Flatten(progs[..n]), progs[n]);
      FormatMakes(paths[n], part, [], None);
      assert [paths[n]] + [] == [paths[n]];
    } else {
      assert FormatEach(paths, part) == [];
    }
  }

  lemma ArrayPrepared(part: PartitionSpec, i: nat, members: seq<string>)
    requires members != [] && UsesMd(part)
    ensures PreparedAs(Commands(FormatMembersProg(part, i, members)), part, ArrayNode(i), members)
  {
    hide Makes, FormatProg, MKFS_TOOLS, Commands, Decimal;
    var md := MdDevice(i);
    var c := MdCreate(md, part.raidLevel, members);
    SingleCommand(c);
    CommandsConcat([Run(c)], FormatProg(md, part, [], None));
    FormatMakes(md, part, [], None);
    assert [md] + [] == [md];
  }

  lemma PoolPrepared(part: PartitionSpec, i: nat, members: seq<string>)
    requires members != [] && part.IsMultidisk() && !UsesMd(part) && !Aborts(FormatMembersProg(part, i, members))
    ensures PreparedAs(Commands(FormatMembersProg(part, i, members)), part, ArrayNode(i), members)
  {
    hide Makes, FormatProg, MKFS_TOOLS, Commands, ArrayNode;
    A.FormatMembersAborts(part, i, members);
    FormatMakes(members[0], part, members[1..], RaidValue(part.raidLevel));
    assert [members[0]] + members[1..] == members;
    BtrfsHasTool();
  }

  lemma MembersPrepared(part: PartitionSpec, i: nat, members: seq<string>)
    requires members != [] && !Aborts(FormatMembersProg(part, i, members))
    ensures PreparedAs(Commands(FormatMembersProg(part, i, members)), part, ArrayNode(i), members)
  {
    hide Makes, FormatProg, MKFS_TOOLS, Commands, ArrayNode;
    if !part.IsMultidisk() {
      FormatEachMakes(members, part);
    } else if UsesMd(part) {
      ArrayPrepared(part, i, members);
    } else {
      PoolPrepared(part, i, members);
    }
  }

  lemma BtrfsHasTool()
    ensures "btrfs" in MKFS_TOOLS
  {
  }

  /** What prepares a partition consumes its own nodes, and nothing else. */
  lemma PreparingConsumes(cmds: seq<Command>, part: PartitionSpec, md: string, members: seq<string>, c: Command)
    requires PreparedAs(cmds, part, md, members) && members != [] && c in cmds
    ensures c.Mkfs? || c.MdCreate?
    ensures (c.Mkfs? ==> c.nodes != []) && (c.MdCreate? ==> c.members != [])
    ensures forall n :: c.Mkfs? && n in c.nodes ==> n in members || (WantsArray(part) && n == md)
    ensures forall n :: c.MdCreate? && n in c.members ==> n in members
  {
    hide MKFS_TOOLS, LabelFor;
    var k :| 0 <= k < |cmds| && cmds[k] == c;
  }

  // ---- Commands of a program in pieces ----

  lemma PiecesSnoc(progs: seq<seq<Step>>)
    requires progs != [] && !Aborts(Flatten(progs))
    ensures var n := |progs| - 1;
            && !Aborts(Flatten(progs[..n]))
            && Commands(Flatten(progs)) == Commands(Flatten(progs[..n])) + Commands(progs[n])
  {
    var n := |progs| - 1;
    assert forall s :: s in Flatten(progs[..n]) ==> s in Flatten(progs);
    CommandsConcat(Flatten(progs[..n]), progs[n]);
  }

  lemma {:induction false} NoPiecePicked(progs: seq<seq<Step>>, p: Command -> bool)
    requires !Aborts(Flatten(progs)) && forall j, c :: 0 <= j < |progs| && c in Commands(progs[j]) ==> !p(c)
    ensures Filter(Commands(Flatten(progs)), p) == []
    decreases |progs|
  {
    hide Commands;
    if progs != [] {
      var n := |progs| - 1;
      PiecesSnoc(progs);
      NoPiecePicked(progs[..n], p);
      FilterNone(Commands(progs[n]), p);
      FilterConcat(Commands(Flatten(progs[..n])), Commands(progs[n]), p);
    } else {
      NothingPicked(p);
    }
  }

  lemma NothingPicked(p: Command -> bool)
    ensures Filter(Commands(Flatten([])), p) == []
  {
  }

  /** Only the commands of one piece are picked. */
  lemma {:induction false} OnePiecePicked(progs: seq<seq<Step>>, x: nat, p: Command -> bool)
    requires x < |progs| && !Aborts(Flatten(progs))
    requires forall j, c :: 0 <= j < |progs| && j != x && c in Commands(progs[j]) ==> !p(c)
    ensures Filter(Commands(Flatten(progs)), p) == Filter(Commands(progs[x]), p)
    decreases |progs|
  {
    hide Commands, Filter;
    var n := |progs| - 1;
    PiecesSnoc(progs);
    FilterConcat(Commands(Flatten(progs[..n])), Commands(progs[n]), p);
    if x < n {
      OnePiecePicked(progs[..n], x, p);
      FilterNone(Commands(progs[n]), p);
      assert Filter(Commands(progs[x]), p) + [] == Filter(Commands(progs[x]), p);
    } else {
      NoPiecePicked(progs[..n], p);
      assert [] + Filter(Commands(progs[x]), p) == Filter(Commands(progs[x]), p);
    }
  }

  /** A property of the commands of every piece. */
  lemma {:induction false} EveryPiece(progs: seq<seq<Step>>, p: Command -> bool)
    requires !Aborts(Flatten(progs)) && forall j, c :: 0 <= j < |progs| && c in Commands(progs[j]) ==> p(c)
    ensures forall c :: c in Commands(Flatten(progs)) ==> p(c)
    decreases |progs|
  {
    if progs != [] {
      hide Commands;
      PiecesSnoc(progs);
      EveryPiece(progs[..|progs| - 1], p);
    }
  }

  /** The commands of the seven phases, one phase after the other. */
  lemma SevenPieces(p: seq<seq<Step>>)
    requires |p| == 7 && !Aborts(Flatten(p))
    ensures Commands(Flatten(p)) == Commands(p[0]) + Commands(p[1]) + Commands(p[2]) + Commands(p[3])
                                    + Commands(p[4]) + Commands(p[5]) + Commands(p[6])
    ensures forall i :: 0 <= i < 7 ==> !Aborts(p[i])
  {
    FlattenAborts(p);
    hide Commands, Aborts;
    assert p[..6][..5] == p[..5] && p[..5][..4] == p[..4] && p[..4][..3] == p[..3];
    assert p[..3][..2] == p[..2] && p[..2][..1] == p[..1] && p[..1][..0] == [];
    PiecesSnoc(p);
    PiecesSnoc(p[..6]);
    PiecesSnoc(p[..5]);
    PiecesSnoc(p[..4]);
    PiecesSnoc(p[..3]);
    PiecesSnoc(p[..2]);
    PiecesSnoc(p[..1]);
    NothingIssued();
    assert [] + Commands(p[0]) == Commands(p[0]);
  }

  lemma NothingIssued()
    ensures Commands(Flatten([])) == []
  {
  }

  // ---- The formatting phase ----

  lemma {:induction false} NumberIsLocal(parts: seq<PartitionSpec>, role: string, n: nat)
    requires n <= |parts|
    ensures |Filter(parts[..n], (q: PartitionSpec) => WantedRole(q) == role)| == |IndicesOf(parts, role, n)|
  {
    if n > 0 {
      NumberIsLocal(parts, role, n - 1);
      assert parts[..n] == parts[..n - 1] + [parts[n - 1]];
      FilterConcat(parts[..n - 1], [parts[n - 1]], (q: PartitionSpec) => WantedRole(q) == role);
      assert [parts[n - 1]][1..] == [];
    }
  }

  lemma DiskNodesAreMembers(layout: DiskLayout, a: Assignments, i: nat)
    requires i < |layout.partitions|
    ensures Number(layout, i) == LocalNum(layout.partitions, i)
    ensures Disks(layout, a, i) == DevicesOf(layout, a, i) && DiskNodes(layout, a, i) == Members(layout, a, i)
    ensures ArrayNode(i) == MdDevice(i) && (UsesMd(layout.partitions[i]) <==> WantsArray(layout.partitions[i]))
  {
    hide PartName;
    NumberIsLocal(layout.partitions, WantedRole(layout.partitions[i]), i);
  }

  lemma HomeIsEffective(layout: DiskLayout, a: Assignments, i: nat)
    requires i < |layout.partitions| && DevicesOf(layout, a, i) != []
    ensures HomeNode(layout, a, i) == EffectiveNodes(layout, a)[i]
  {
    hide Members, DiskNodes, ArrayNode, MdDevice, WantsArray, UsesMd;
    DiskNodesAreMembers(layout, a, i);
    MembersPerDevice(layout, a, i);
  }

  lemma MembersPerDevice(layout: DiskLayout, a: Assignments, i: nat)
    requires i < |layout.partitions|
    ensures |Members(layout, a, i)| == |DevicesOf(layout, a, i)|
  {
  }

  /** Nodes of different partitions are different. */
  lemma OwnNodesDisjoint(layout: DiskLayout, a: Assignments, i: nat, j: nat, n: string)
    requires S.RolesAssigned(layout, a) && i < |layout.partitions| && j < |layout.partitions| && i != j
    requires n in OwnNodes(layout, a, i)
    ensures n !in OwnNodes(layout, a, j)
  {
    hide Members, DiskNodes, ArrayNode, MdDevice, WantsArray, S.RolesAssigned;
    DiskNodesAreMembers(layout, a, i);
    DiskNodesAreMembers(layout, a, j);
    if n in OwnNodes(layout, a, j) {
      if n in Members(layout, a, i) {
        var x :| 0 <= x < |Members(layout, a, i)| && Members(layout, a, i)[x] == n;
        MemberOwnedOnce(layout, a, i, j, x);
      } else if n in Members(layout, a, j) {
        var x :| 0 <= x < |Members(layout, a, j)| && Members(layout, a, j)[x] == n;
        MemberOwnedOnce(layout, a, j, i, x);
      } else {
        S.MdInjective(i, j);
      }
    }
  }

  lemma MemberOwnedOnce(layout: DiskLayout, a: Assignments, i: nat, j: nat, x: nat)
    requires S.RolesAssigned(layout, a) && i < |layout.partitions| && j < |layout.partitions| && i != j
    requires x < |Members(layout, a, i)|
    ensures Members(layout, a, i)[x] !in OwnNodes(layout, a, j)
  {
    hide DiskNodes, ArrayNode, MdDevice, WantsArray;
    DiskNodesAreMembers(layout, a, j);
    var n := Members(layout, a, i)[x];
    S.MemberDisk(layout, a, i, x);
    S.MdIsNoPartition(S.PathsOf(a, layout.partitions[i].TargetRole())[x], LocalNum(layout.partitions, i), j);
    if y :| 0 <= y < |Members(layout, a, j)| && Members(layout, a, j)[y] == n {
      if i < j { S.MembersDisjoint(layout, a, i, j, x, y); } else { S.MembersDisjoint(layout, a, j, i, y, x); }
    }
  }

  lemma FormatPieceConsumes(layout: DiskLayout, a: Assignments, i: nat, c: Command)
    requires S.RolesAssigned(layout, a) && i < |layout.partitions| && !Aborts(FormatProgs(layout, a)[i])
    requires c in Commands(FormatProgs(layout, a)[i])
    ensures ConsumesOnly(OwnNodes(layout, a, i), c)
  {
    hide FormatMembersProg, PreparedAs, Members, DiskNodes, ArrayNode, WantsArray;
    S.MembersNonEmpty(layout, a, i);
    DiskNodesAreMembers(layout, a, i);
    var part, members := layout.partitions[i], Members(layout, a, i);
    MembersPrepared(part, i, members);
    PreparingConsumes(Commands(FormatProgs(layout, a)[i]), part, ArrayNode(i), members, c);
    if c.Mkfs? { assert c.nodes[0] in c.nodes; } else { assert c.members[0] in c.members; }
  }

  lemma OnlyOneConsumes(layout: DiskLayout, a: Assignments, i: nat, j: nat, c: Command)
    requires S.RolesAssigned(layout, a) && i < |layout.partitions| && j < |layout.partitions| && i != j
    requires ConsumesOnly(OwnNodes(layout, a, j), c)
    ensures !Consumes(OwnNodes(layout, a, i), c)
  {
    hide OwnNodes, S.RolesAssigned;
    if n :| n in OwnNodes(layout, a, i) && ((c.Mkfs? && n in c.nodes) || (c.MdCreate? && n in c.members)) {
      OwnNodesDisjoint(layout, a, i, j, n);
    }
  }

  /** The formatting phase prepares each partition as asked. */
  lemma FormatPhasePrepares(layout: DiskLayout, a: Assignments, i: nat)
    requires S.RolesAssigned(layout, a) && i < |layout.partitions| && !Aborts(Flatten(FormatProgs(layout, a)))
    ensures PreparedAs(Filter(Commands(Flatten(FormatProgs(layout, a))), c => Consumes(OwnNodes(layout, a, i), c)),
                       layout.partitions[i], ArrayNode(i), DiskNodes(layout, a, i))
  {
    DiskNodesAreMembers(layout, a, i);
    hide DiskNodes, ArrayNode, Members;
    hide FormatMembersProg, PreparedAs, Consumes, OwnNodes, S.RolesAssigned, ConsumesOnly, Commands;
    var progs := FormatProgs(layout, a);
    var p := c => Consumes(OwnNodes(layout, a, i), c);
    FlattenAborts(progs);
    forall j, c | 0 <= j < |progs| && c in Commands(progs[j]) ensures if j == i then p(c) else !p(c) {
      FormatPieceConsumes(layout, a, j, c);
      if j == i { ConsumesOnlyConsumes(OwnNodes(layout, a, i), c); } else { OnlyOneConsumes(layout, a, i, j, c); }
    }
    OnePiecePicked(progs, i, p);
    FilterAll(Commands(progs[i]), p);
    S.MembersNonEmpty(layout, a, i);
    MembersPrepared(layout.partitions[i], i, Members(layout, a, i));
  }

  lemma ConsumesOnlyConsumes(nodes: seq<string>, c: Command)
    requires ConsumesOnly(nodes, c)
    ensures Consumes(nodes, c)
  {
  }

  // ---- Mounting one partition ----

  lemma TargetIsBelow(mountPoint: string)
    ensures Below(mountPoint, MountTarget(mountPoint))
  {
    var s := LStrip(mountPoint, c => c == '/');
    var k := |mountPoint| - |s|;
    assert mountPoint[k..] == s;
    assert k < |mountPoint| ==> mountPoint[k] == s[0];
    assert BelowAfter(mountPoint, k, MountTarget(mountPoint));
  }

  lemma SubvolumeMounted(path: string, part: PartitionSpec, sv: SubvolumeSpec, target: string)
    requires sv.mountPoint.Some? && Below(sv.mountPoint.value, target)
    ensures Commands(MountSubvolume(path, part, sv, target)) == [Mount(path, SubvolumeOptions(sv, part), target)]
    ensures MountedAs(Mount(path, SubvolumeOptions(sv, part), target), path, part, sv)
  {
    hide Below;
    SingleCommand(Mount(path, SubvolumeOptions(sv, part), target));
  }

  lemma {:induction false} ChildrenAreInner(svs: seq<SubvolumeSpec>)
    ensures ChildSubvolumes(svs) == Inner(svs)
  {
    if svs != [] {
      var n := |svs| - 1;
      var p := (sv: SubvolumeSpec) => sv.mountPoint.Some? && sv.mountPoint.value != "/";
      ChildrenAreInner(svs[..n]);
      FilterConcat(svs[..n], [svs[n]], p);
      assert svs == svs[..n] + [svs[n]] && [svs[n]][1..] == [];
    }
  }

  lemma {:induction false} ChildrenMounted(path: string, part: PartitionSpec, svs: seq<SubvolumeSpec>)
    requires forall i :: 0 <= i < |svs| ==> svs[i].mountPoint.Some?
    ensures var cmds := Commands(Flatten(MountChildren(path, part, svs)));
            |cmds| == |svs| && forall k :: 0 <= k < |svs| ==> MountedAs(cmds[k], path, part, svs[k])
    decreases |svs|
  {
    hide MountedAs, Below, MountTarget, MountSubvolume;
    var progs := MountChildren(path, part, svs);
    if svs != [] {
      var n := |svs| - 1;
      ChildrenMounted(path, part, svs[..n]);
      assert progs[..n] == MountChildren(path, part, svs[..n]);
      ChildrenNeverAbort(path, part, svs);
      PiecesSnoc(progs);
      TargetIsBelow(svs[n].mountPoint.value);
      SubvolumeMounted(path, part, svs[n], MountTarget(svs[n].mountPoint.value));
    } else {
      assert progs == [];
    }
  }

  lemma ChildrenNeverAbort(path: string, part: PartitionSpec, svs: seq<SubvolumeSpec>)
    requires forall i :: 0 <= i < |svs| ==> svs[i].mountPoint.Some?
    ensures !Aborts(Flatten(MountChildren(path, part, svs)))
  {
    FlattenAborts(MountChildren(path, part, svs));
  }

  lemma TopCommands(path: string, part: PartitionSpec)
    ensures Commands(MakeSubvolumes(path, part)) == [MountTop(path)] + CreateSubvolumes(path, part) + [UmountTop(path)]
    ensures !Aborts(MakeSubvolumes(path, part))
  {
    var g := [Guarded(CreateSubvolumes(path, part), UmountTop(path))];
    SingleCommand(MountTop(path));
    CommandsCons(g);
    assert g[1..] == [] && Commands(g) == CreateSubvolumes(path, part) + [UmountTop(path)];
    CommandsConcat([Run(MountTop(path))], g);
  }

  /** The root subvolume is the last that asks for the root. */
  lemma {:induction false} RootSubvolumeIsLast(svs: seq<SubvolumeSpec>)
    ensures RootSubvolume(svs).None? <==> forall r: nat :: !IsRootSubvolume(svs, r)
    ensures forall r: nat :: IsRootSubvolume(svs, r) ==> RootSubvolume(svs) == Some(svs[r])
  {
    if svs != [] {
      var n := |svs| - 1;
      if svs[n].mountPoint == Some("/") {
        assert IsRootSubvolume(svs, n);
      } else {
        RootSubvolumeIsLast(svs[..n]);
        forall r: nat ensures IsRootSubvolume(svs, r) <==> IsRootSubvolume(svs[..n], r) {}
      }
    }
  }

  lemma RootMounted(path: string, part: PartitionSpec)
    ensures var cmds := Commands(MountRootSubvolume(path, part));
            && !Aborts(MountRootSubvolume(path, part))
            && (forall r: nat :: IsRootSubvolume(part.subvolumes, r) ==>
                  |cmds| == 1 && MountedAs(cmds[0], path, part, part.subvolumes[r]))
            && ((forall r: nat :: !IsRootSubvolume(part.subvolumes, r)) ==> cmds == [])
  {
    hide MountedAs;
    RootSubvolumeIsLast(part.subvolumes);
    var root := RootSubvolume(part.subvolumes);
    if root.Some? {
      var r: nat :| IsRootSubvolume(part.subvolumes, r);
      RootIsMnt();
      SubvolumeMounted(path, part, root.value, "/mnt");
    }
  }

  lemma RootIsMnt()
    ensures Below("/", "/mnt")
  {
    assert BelowAfter("/", 1, "/mnt");
  }

  lemma Assembled(path: string, part: PartitionSpec, top: seq<Command>, root: seq<Command>, children: seq<Command>)
    requires top == [MountTop(path)] + CreateSubvolumes(path, part) + [UmountTop(path)]
    requires forall r: nat :: IsRootSubvolume(part.subvolumes, r) ==>
               |root| == 1 && MountedAs(root[0], path, part, part.subvolumes[r])
    requires (forall r: nat :: !IsRootSubvolume(part.subvolumes, r)) ==> root == []
    requires |children| == |Inner(part.subvolumes)|
    requires forall k :: 0 <= k < |children| ==> MountedAs(children[k], path, part, Inner(part.subvolumes)[k])
    ensures SubvolumesMountedAs(top + root + children, path, part)
  {
    hide MountedAs, IsRootSubvolume, Inner, CreateSubvolumes;
    var svs, cmds := part.subvolumes, top + root + children;
    TopParts(path, part, top);
    ThreeParts(top, root, children);
    if forall r: nat :: !IsRootSubvolume(svs, r) {
    } else {
      var r: nat :| IsRootSubvolume(svs, r);
      assert cmds[|top|] == root[0];
    }
  }

  lemma TopParts(path: string, part: PartitionSpec, top: seq<Command>)
    requires top == [MountTop(path)] + CreateSubvolumes(path, part) + [UmountTop(path)]
    ensures var svs := part.subvolumes;
            && |top| == |svs| + 2 && top[0] == MountTop(path) && top[|svs| + 1] == UmountTop(path)
            && forall k :: 0 <= k < |svs| ==> top[k + 1] == CreateSubvolume(path, svs[k].name)
  {
  }

  lemma ThreeParts<T>(x: seq<T>, y: seq<T>, z: seq<T>)
    ensures forall k :: 0 <= k < |x| ==> (x + y + z)[k] == x[k]
    ensures forall k :: 0 <= k < |y| ==> (x + y + z)[|x| + k] == y[k]
    ensures forall k :: 0 <= k < |z| ==> (x + y + z)[|x + y + z| - |z| + k] == z[k]
  {
  }

  lemma SubvolumesMounted(path: string, part: PartitionSpec)
    requires part.subvolumes != []
    ensures SubvolumesMountedAs(Commands(SubvolumesProg(path, part)), path, part)
  {
    hide MountedAs, IsRootSubvolume, MountRootSubvolume, MakeSubvolumes, MountChildren, Inner, Commands,
      SubvolumesMountedAs, CreateSubvolumes;
    var svs := part.subvolumes;
    var top, root := MakeSubvolumes(path, part), MountRootSubvolume(path, part);
    var children := Flatten(MountChildren(path, part, ChildSubvolumes(svs)));
    TopCommands(path, part);
    RootMounted(path, part);
    ChildrenAreInner(svs);
    ChildrenMounted(path, part, ChildSubvolumes(svs));
    CommandsConcat(top, root);
    CommandsConcat(top + root, children);
    assert !Aborts(top + root);
    Assembled(path, part, Commands(top), Commands(root), Commands(children));
  }

  lemma SubvolumeProgramOf(part: PartitionSpec, path: string)
    requires HasSubvolumes(part)
    ensures MountOrSubvolumes(path, part) == SubvolumesProg(path, part)
  {
    hide SubvolumesProg;
  }

  /** The mount commands of a partition name its node. */
  lemma MountsOwnNode(path: string, part: PartitionSpec, c: Command)
    requires c in Commands(MountOrSubvolumes(path, part))
    ensures MountsNode(path, c)
  {
    if HasSubvolumes(part) {
      SubvolumeCommandsNameNode(path, part, c);
    } else if part.mountPoint.Some? {
      SingleCommand(Mount(path, part.mountOptions, MountTarget(part.mountPoint.value)));
    }
  }

  lemma SubvolumeCommandsNameNode(path: string, part: PartitionSpec, c: Command)
    requires part.subvolumes != [] && c in Commands(SubvolumesProg(path, part))
    ensures MountsNode(path, c)
  {
    hide MountRootSubvolume, MakeSubvolumes, MountChildren, Commands, IsRootSubvolume, ChildSubvolumes, Below;
    var svs := part.subvolumes;
    var top, root := MakeSubvolumes(path, part), MountRootSubvolume(path, part);
    var children := Flatten(MountChildren(path, part, ChildSubvolumes(svs)));
    TopCommands(path, part);
    RootMounted(path, part);
    ChildrenMounted(path, part, ChildSubvolumes(svs));
    CommandsConcat(top, root);
    CommandsConcat(top + root, children);
    assert !Aborts(top + root);
    RootSubvolumeIsLast(svs);
    if c in Commands(root) {
      assert exists r: nat :: IsRootSubvolume(svs, r);
    } else if c in Commands(children) {
      var k :| 0 <= k < |Commands(children)| && Commands(children)[k] == c;
      assert MountedAs(c, path, part, ChildSubvolumes(svs)[k]);
    }
  }

  // ---- The mounting phases ----

  ghost predicate DistinctNodes(nodes: seq<string>) {
    forall i, j :: 0 <= i < j < |nodes| ==> nodes[i] != nodes[j]
  }

  /** The first pass mounts the first partition that asks for the root. */
  lemma RootPhaseMounts(parts: seq<PartitionSpec>, nodes: seq<string>, i: nat)
    requires |nodes| == |parts| && DistinctNodes(nodes) && i < |parts|
    ensures Filter(Commands(MountRoot(parts, nodes)), c => MountsNode(nodes[i], c)) ==
            if i == RootIndex(parts, 0) then Commands(MountOrSubvolumes(nodes[i], parts[i])) else []
  {
    hide MountOrSubvolumes, Commands;
    var r := RootIndex(parts, 0);
    var p := c => MountsNode(nodes[i], c);
    if r < |parts| {
      forall c | c in Commands(MountOrSubvolumes(nodes[r], parts[r])) ensures MountsNode(nodes[r], c) {
        MountsOwnNode(nodes[r], parts[r], c);
      }
      if r == i {
        FilterAll(Commands(MountRoot(parts, nodes)), p);
      } else {
        FilterNone(Commands(MountRoot(parts, nodes)), p);
      }
    } else {
      NoCommands();
      FilterNone([], p);
    }
  }

  lemma NoCommands()
    ensures Commands([]) == []
  {
  }

  lemma OtherMountsOwnNode(path: string, part: PartitionSpec, skipSwap: bool, c: Command)
    requires c in Commands(MountOther(path, part, skipSwap))
    ensures MountsNode(path, c)
  {
    hide MountOrSubvolumes, Commands;
    NoCommands();
    if c in Commands(MountOrSubvolumes(path, part)) { MountsOwnNode(path, part, c); }
  }

  /** The second pass mounts the others. */
  lemma OthersPhaseMounts(parts: seq<PartitionSpec>, nodes: seq<string>, i: nat, skipSwap: bool)
    requires |nodes| == |parts| && DistinctNodes(nodes) && i < |parts|
    ensures Filter(Commands(Flatten(MountOthers(parts, nodes, skipSwap))), c => MountsNode(nodes[i], c)) ==
            Commands(MountOther(nodes[i], parts[i], skipSwap))
  {
    hide MountOther, Commands;
    var progs := MountOthers(parts, nodes, skipSwap);
    var p := c => MountsNode(nodes[i], c);
    A.MountingNeverAborts(parts, nodes, skipSwap);
    forall j, c | 0 <= j < |progs| && c in Commands(progs[j]) ensures if j == i then p(c) else !p(c) {
      OtherMountsOwnNode(nodes[j], parts[j], skipSwap, c);
    }
    OnePiecePicked(progs, i, p);
    FilterAll(Commands(progs[i]), p);
  }

  lemma RootIndexFirst(parts: seq<PartitionSpec>, i: nat, skipSwap: bool)
    requires i < |parts| && parts[i].mountPoint == Some("/")
    ensures i == RootIndex(parts, 0) <==> !NotMounted(parts, i, skipSwap)
  {
  }

  lemma PlainMounted(path: string, part: PartitionSpec)
    requires !HasSubvolumes(part)
    ensures var cmds := Commands(MountOrSubvolumes(path, part));
            if part.mountPoint.None? then cmds == []
            else
              && |cmds| == 1 && cmds[0].Mount? && cmds[0].node == path && cmds[0].options == part.mountOptions
              && Below(part.mountPoint.value, cmds[0].target)
  {
    if part.mountPoint.Some? {
      SingleCommand(Mount(path, part.mountOptions, MountTarget(part.mountPoint.value)));
      TargetIsBelow(part.mountPoint.value);
    }
  }

  lemma MountedOrNot(parts: seq<PartitionSpec>, node: string, i: nat, skipSwap: bool)
    requires i < |parts|
    ensures var cmds := (if i == RootIndex(parts, 0) then Commands(MountOrSubvolumes(node, parts[i])) else [])
                        + Commands(MountOther(node, parts[i], skipSwap));
            MountedAsAsked(cmds, node, parts, i, skipSwap)
  {
    hide MountOrSubvolumes, Commands, Below, SubvolumesMountedAs;
    var part := parts[i];
    NoCommands();
    var mount := Commands(MountOrSubvolumes(node, part));
    assert mount + [] == mount && [] + mount == mount;
    if part.mountPoint == Some("/") { RootIndexFirst(parts, i, skipSwap); }
    if HasSubvolumes(part) {
      SubvolumeProgramOf(part, node);
      SubvolumesMounted(node, part);
    } else {
      PlainMounted(node, part);
    }
  }

  lemma MountPhasesMount(parts: seq<PartitionSpec>, nodes: seq<string>, i: nat, skipSwap: bool)
    requires |nodes| == |parts| && DistinctNodes(nodes) && i < |parts|
    ensures var cmds := Commands(MountRoot(parts, nodes)) + Commands(Flatten(MountOthers(parts, nodes, skipSwap)));
            MountedAsAsked(Filter(cmds, c => MountsNode(nodes[i], c)), nodes[i], parts, i, skipSwap)
  {
    hide MountedAsAsked, Commands, MountRoot, MountOthers, MountOrSubvolumes, MountOther;
    var p := c => MountsNode(nodes[i], c);
    FilterConcat(Commands(MountRoot(parts, nodes)), Commands(Flatten(MountOthers(parts, nodes, skipSwap))), p);
    RootPhaseMounts(parts, nodes, i);
    OthersPhaseMounts(parts, nodes, i, skipSwap);
    MountedOrNot(parts, nodes[i], i, skipSwap);
  }

  /** The commands of both passes are mount commands, and those of the first come from the root partition. */
  lemma MountPhasesKinds(parts: seq<PartitionSpec>, nodes: seq<string>, skipSwap: bool)
    requires |nodes| == |parts|
    ensures forall c :: c in Commands(MountRoot(parts, nodes)) ==>
              Mounting(c) && RootIndex(parts, 0) < |parts| && c.node == nodes[RootIndex(parts, 0)]
    ensures forall c :: c in Commands(Flatten(MountOthers(parts, nodes, skipSwap))) ==>
              Mounting(c) && exists j :: 0 <= j < |parts| && parts[j].mountPoint != Some("/") && c.node == nodes[j]
  {
    hide MountOrSubvolumes, MountOther, Commands;
    NoCommands();
    var r := RootIndex(parts, 0);
    forall c | c in Commands(MountRoot(parts, nodes)) ensures r < |parts| && MountsNode(nodes[r], c) {
      if r < |parts| { MountsOwnNode(nodes[r], parts[r], c); }
    }
    var progs := MountOthers(parts, nodes, skipSwap);
    var p := c => Mounting(c) && exists j :: 0 <= j < |parts| && parts[j].mountPoint != Some("/") && c.node == nodes[j];
    A.MountingNeverAborts(parts, nodes, skipSwap);
    forall j, c | 0 <= j < |progs| && c in Commands(progs[j]) ensures p(c) {
      OtherMountsOwnNode(nodes[j], parts[j], skipSwap, c);
      RootIsNoOther(nodes[j], parts[j], skipSwap);
    }
    EveryPiece(progs, p);
  }

  lemma RootIsNoOther(path: string, part: PartitionSpec, skipSwap: bool)
    ensures part.mountPoint == Some("/") ==> Commands(MountOther(path, part, skipSwap)) == []
  {
  }

  // ---- Partitioning ----

  lemma SizeIsParsed(size: string)
    requires ParseSizeSpec(size).Some?
    ensures SizedAs(size, "0:" + ParseSizeSpec(size).value)
  {
    if size != "*" {
      var digits := LeadingDigits(size);
      var unit := size[|digits|..];
      assert |unit| == 1 && unit == [unit[0]];
      assert size == digits + [unit[0]];
      assert "0:" + ("+" + digits + [Capital(unit[0])]) == "0:+" + digits + [Capital(unit[0])];
    }
  }

  lemma {:induction false} FilterTwice<T>(s: seq<T>, p: T -> bool, q: T -> bool, both: T -> bool)
    requires forall x :: x in s ==> (both(x) <==> p(x) && q(x))
    ensures Filter(Filter(s, p), q) == Filter(s, both)
  {
    if s != [] {
      assert s[0] in s;
      FilterTwice(s[1..], p, q, both);
      FilterConcat(if p(s[0]) then [s[0]] else [], Filter(s[1..], p), q);
      assert [s[0]][1..] == [];
    }
  }

  lemma {:induction false} PickNumber(cmds: seq<Command>, from: int, disk: string, num: int)
    requires forall k :: 0 <= k < |cmds| ==> Creates(cmds[k], disk, from + k)
    ensures Filter(cmds, c => Creates(c, disk, num)) == if from <= num < from + |cmds| then [cmds[num - from]] else []
  {
    var p := c => Creates(c, disk, num);
    if cmds == [] {
      FilterNone(cmds, p);
    } else {
      hide Filter;
      var rest := cmds[1..];
      forall k | 0 <= k < |rest| ensures Creates(rest[k], disk, from + 1 + k) { assert rest[k] == cmds[k + 1]; }
      PickNumber(rest, from + 1, disk, num);
      FilterStep(cmds, p);
      assert p(cmds[0]) <==> num == from;
    }
  }

  lemma ExpectedForm(layout: DiskLayout, role: string, disk: string, k: nat)
    requires k < |Laws.ExpectedPartitions(layout, role, disk)|
    ensures k < |RoleIndices(layout, role)|
    ensures CreatedFor(Laws.ExpectedPartitions(layout, role, disk)[k], disk, k + 1,
                       layout.partitions[RoleIndices(layout, role)[k]])
  {
    hide SizedAs, ParseSizeSpec, RoleIndices;
    SizeIsParsed(layout.partitions[RoleIndices(layout, role)[k]].size);
  }

  lemma CreatedOnDisk(t: seq<Command>, layout: DiskLayout, role: string, disk: string, k: nat)
    requires Laws.PartitionsOn(t, disk) == Laws.ExpectedPartitions(layout, role, disk)
    requires k < |Laws.ExpectedPartitions(layout, role, disk)|
    ensures Filter(t, c => Creates(c, disk, k + 1)) == [Laws.ExpectedPartitions(layout, role, disk)[k]]
  {
    hide CreatedFor;
    var made := Laws.ExpectedPartitions(layout, role, disk);
    forall j | 0 <= j < |made| ensures Creates(made[j], disk, 1 + j) {
      ExpectedForm(layout, role, disk, j);
      CreatedForFields(made[j], disk, j + 1, layout.partitions[RoleIndices(layout, role)[j]]);
    }
    PickNumber(made, 1, disk, k + 1);
    FilterTwice(t, c => Laws.MakesPartitionOn(c, disk), c => Creates(c, disk, k + 1), c => Creates(c, disk, k + 1));
  }

  lemma CreatedForFields(c: Command, disk: string, num: int, part: PartitionSpec)
    requires CreatedFor(c, disk, num, part)
    ensures c.NewPartition? && c.disk == disk && c.num == num
  {
  }

  lemma DiskIsHeld(layout: DiskLayout, a: Assignments, i: nat, d: BlockDevice)
    requires S.RolesAssigned(layout, a) && i < |layout.partitions| && d in Disks(layout, a, i)
    ensures S.Holds(a, WantedRole(layout.partitions[i]), d.path)
  {
    var devices := Disks(layout, a, i);
    var k :| 0 <= k < |devices| && devices[k] == d;
    assert DevicePaths(devices)[k] == d.path;
  }

  lemma PartitionCreated(layout: DiskLayout, a: Assignments, fails: Fails, i: nat, d: BlockDevice)
    requires S.RolesAssigned(layout, a) && i < |layout.partitions| && d in Disks(layout, a, i)
    requires Exec(ResolvedProgram(layout, a), fails, 0).ok
    ensures var t := Exec(ResolvedProgram(layout, a), fails, 0).trace;
            exists c :: CreatedFor(c, d.path, Number(layout, i), layout.partitions[i])
                        && Filter(t, x => Creates(x, d.path, Number(layout, i))) == [c]
  {
    hide ResolvedProgram, CreatedFor, Laws.ExpectedPartitions, Laws.PartitionsOn, Number, S.RolesAssigned;
    var role := WantedRole(layout.partitions[i]);
    var t := Exec(ResolvedProgram(layout, a), fails, 0).trace;
    DiskIsHeld(layout, a, i, d);
    Laws.NumberedDensely(layout, a, role, d.path, fails);
    DiskNodesAreMembers(layout, a, i);
    S.LocalNumIndex(layout.partitions, i);
    var k := Number(layout, i) - 1;
    ExpectedForm(layout, role, d.path, k);
    CreatedOnDisk(t, layout, role, d.path, k);
  }

  // ---- The whole run ----

  lemma ProbesSnoc(disks: seq<string>)
    requires disks != []
    ensures var n := |disks| - 1;
            Map(d => PartProbe(d), disks) == Map(d => PartProbe(d), disks[..n]) + [PartProbe(disks[n])]
  {
  }

  lemma {:induction false} ProbingCommands(disks: seq<string>)
    ensures Commands(Flatten(Map(PartProbeProg, disks))) == Map(d => PartProbe(d), disks)
  {
    if disks != [] {
      var n := |disks| - 1;
      var progs := Map(PartProbeProg, disks);
      ProbingCommands(disks[..n]);
      assert progs[..n] == Map(PartProbeProg, disks[..n]);
      L.WipeNoAborts(disks[..n]);
      SingleCommand(PartProbe(disks[n]));
      hide Commands, Map, Flatten;
      FlattenSnoc(progs, n);
      assert progs[..n + 1] == progs;
      CommandsConcat(Flatten(progs[..n]), progs[n]);
      ProbesSnoc(disks);
    } else {
      assert Map(PartProbeProg, disks) == [];
    }
  }

  lemma CreateAllCreates(device: string, parts: seq<PartitionSpec>, indices: seq<int>)
    requires forall k :: 0 <= k < |indices| ==> 0 <= indices[k] < |parts|
    requires !Aborts(CreateAllProg(device, parts, indices))
    ensures forall c :: c in Commands(CreateAllProg(device, parts, indices)) ==> c.NewPartition?
  {
    var progs := CreateProgs(device, parts, indices);
    FlattenAborts(progs);
    forall j, c | 0 <= j < |progs| && c in Commands(progs[j]) ensures c.NewPartition? {
      assert progs[j] == [Run(progs[j][0].cmd)];
      SingleCommand(progs[j][0].cmd);
    }
    EveryPiece(progs, (c: Command) => c.NewPartition?);
  }

  lemma CreationCreates(layout: DiskLayout, a: Assignments)
    requires !Aborts(Flatten(CreateForRoles(layout, a)))
    ensures forall c :: c in Commands(Flatten(CreateForRoles(layout, a))) ==> c.NewPartition?
  {
    hide CreateAllProg, Commands;
    var roles, progs := UsedRoles(layout), CreateForRoles(layout, a);
    FlattenAborts(progs);
    forall j, c | 0 <= j < |progs| && c in Commands(progs[j]) ensures c.NewPartition? {
      var devices := a.Get(roles[j]).GetOr([]);
      var pieces := CreateOnDevices(layout, roles[j], devices);
      FlattenAborts(pieces);
      forall k, x | 0 <= k < |pieces| && x in Commands(pieces[k]) ensures x.NewPartition? {
        CreateAllCreates(devices[k].path, layout.partitions, RoleIndices(layout, roles[j]));
      }
      EveryPiece(pieces, (x: Command) => x.NewPartition?);
    }
    EveryPiece(progs, (c: Command) => c.NewPartition?);
  }

  lemma FormattingConsumes(layout: DiskLayout, a: Assignments)
    requires S.RolesAssigned(layout, a) && !Aborts(Flatten(FormatProgs(layout, a)))
    ensures forall c :: c in Commands(Flatten(FormatProgs(layout, a))) ==>
              (c.Mkfs? || c.MdCreate?)
              && exists i :: 0 <= i < |layout.partitions| && ConsumesOnly(OwnNodes(layout, a, i), c)
  {
    hide Commands, OwnNodes, Consumes, S.RolesAssigned;
    var progs := FormatProgs(layout, a);
    var p := (c: Command) => (c.Mkfs? || c.MdCreate?)
                             && exists i :: 0 <= i < |layout.partitions| && ConsumesOnly(OwnNodes(layout, a, i), c);
    FlattenAborts(progs);
    forall j, c | 0 <= j < |progs| && c in Commands(progs[j]) ensures p(c) { FormatPieceConsumes(layout, a, j, c); }
    EveryPiece(progs, p);
  }

  /** The trace of a complete run, phase by phase. */
  lemma TracePhases(layout: DiskLayout, a: Assignments)
    returns (creations: seq<Command>, formats: seq<Command>, first: seq<Command>, others: seq<Command>)
    requires S.RolesAssigned(layout, a) && !Aborts(ResolvedProgram(layout, a))
    ensures var nodes := EffectiveNodes(layout, a);
            && !Aborts(Flatten(FormatProgs(layout, a)))
            && formats == Commands(Flatten(FormatProgs(layout, a)))
            && first == Commands(MountRoot(layout.partitions, nodes))
            && others == Commands(Flatten(MountOthers(layout.partitions, nodes, true)))
    ensures InPhases(Commands(ResolvedProgram(layout, a)), AllDisks(a, |a.keys|), creations, formats, first + others)
  {
    hide Commands, Aborts, CreateForRoles, FormatProgs, MountRoot, MountOthers, AllDisks, ConsumesOnly, OwnNodes;
    var p, disks := ResolvedPhases(layout, a), AllDisks(a, |a.keys|);
    SevenPieces(p);
    A.WipingCommands(disks);
    ProbingCommands(disks);
    SingleCommand(Settle);
    CreationCreates(layout, a);
    FormattingConsumes(layout, a);
    MountPhasesKinds(layout.partitions, EffectiveNodes(layout, a), true);
    creations, formats, first, others := Commands(p[1]), Commands(p[4]), Commands(p[5]), Commands(p[6]);
    Regroup(A.WipeCommands(disks), creations, Map(d => PartProbe(d), disks), [Settle], formats, first, others);
  }

  lemma Regroup<T>(u: seq<T>, v: seq<T>, w: seq<T>, x: seq<T>, y: seq<T>, z: seq<T>, e: seq<T>)
    ensures u + v + w + x + y + z + e == u + v + w + x + y + (z + e)
  {
  }

  lemma {:induction false} WipesWipe(disks: seq<string>)
    ensures forall c :: c in A.WipeCommands(disks) ==> c.Wipefs? || c.ZapAll? || c.ClearTable?
  {
    if disks != [] { WipesWipe(disks[..|disks| - 1]); }
  }

  /** A selection of formatting commands, or of mount commands, sees one phase of the run. */
  lemma PickedFromPhase(t: seq<Command>, disks: seq<string>, creations: seq<Command>, formats: seq<Command>,
                        mounts: seq<Command>, p: Command -> bool)
    requires InPhases(t, disks, creations, formats, mounts)
    ensures (forall c :: p(c) ==> c.Mkfs? || c.MdCreate?) ==> Filter(t, p) == Filter(formats, p)
    ensures (forall c :: p(c) ==> Mounting(c)) ==> Filter(t, p) == Filter(mounts, p)
  {
    var before := A.WipeCommands(disks) + creations + Map(d => PartProbe(d), disks) + [Settle];
    WipesWipe(disks);
    assert forall c :: c in before ==> !c.Mkfs? && !c.MdCreate? && !Mounting(c);
    FilterConcat(before + formats, mounts, p);
    FilterConcat(before, formats, p);
    if forall c :: p(c) ==> c.Mkfs? || c.MdCreate? {
      FilterNone(before, p);
      FilterNone(mounts, p);
      assert [] + Filter(formats, p) + [] == Filter(formats, p);
    }
    if forall c :: p(c) ==> Mounting(c) {
      FilterNone(before, p);
      FilterNone(formats, p);
      assert [] + [] + Filter(mounts, p) == Filter(mounts, p);
    }
  }

  lemma NodesDistinct(layout: DiskLayout, a: Assignments)
    requires S.RolesAssigned(layout, a)
    ensures DistinctNodes(EffectiveNodes(layout, a))
    ensures forall i :: 0 <= i < |layout.partitions| ==> HomeNode(layout, a, i) == EffectiveNodes(layout, a)[i]
  {
    hide EffectiveNodes, HomeNode, S.RolesAssigned;
    EffectiveLength(layout, a);
    forall i, j | 0 <= i < j < |layout.partitions|
      ensures EffectiveNodes(layout, a)[i] != EffectiveNodes(layout, a)[j]
    {
      Laws.EffectiveNodesDistinct(layout, a, i, j);
    }
    forall i | 0 <= i < |layout.partitions| ensures HomeNode(layout, a, i) == EffectiveNodes(layout, a)[i] {
      AssignedDevices(layout, a, i);
      HomeIsEffective(layout, a, i);
    }
  }

  lemma EffectiveLength(layout: DiskLayout, a: Assignments)
    ensures |EffectiveNodes(layout, a)| == |layout.partitions|
  {
  }

  lemma AssignedDevices(layout: DiskLayout, a: Assignments, i: nat)
    requires S.RolesAssigned(layout, a) && i < |layout.partitions|
    ensures DevicesOf(layout, a, i) != []
  {
    A.AssignedDevices(layout, a, i);
  }

  /** The second pass touches no partition that is mounted at the root. */
  lemma OthersAreNotRoot(parts: seq<PartitionSpec>, nodes: seq<string>, skipSwap: bool, r: nat, c: Command)
    requires |nodes| == |parts| && DistinctNodes(nodes) && r < |parts| && parts[r].mountPoint == Some("/")
    requires c in Commands(Flatten(MountOthers(parts, nodes, skipSwap)))
    ensures Mounting(c) && c.node != nodes[r]
  {
    hide Commands, MountOthers, MountRoot, RootIndex;
    MountPhasesKinds(parts, nodes, skipSwap);
    var j :| 0 <= j < |parts| && parts[j].mountPoint != Some("/") && c.node == nodes[j];
  }

  /** Mount commands are found in the last phase. */
  lemma MountIsLate(t: seq<Command>, before: seq<Command>, first: seq<Command>, others: seq<Command>, x: nat)
    requires t == before + (first + others) && x < |t| && Mounting(t[x]) && forall c :: c in before ==> !Mounting(c)
    ensures x >= |before|
    ensures t[x] == if x < |before| + |first| then first[x - |before|] else others[x - |before| - |first|]
  {
    assert forall k :: 0 <= k < |before| ==> t[k] == before[k] && before[k] in before;
  }

  lemma BeforeMounting(t: seq<Command>, disks: seq<string>, creations: seq<Command>, formats: seq<Command>,
                       mounts: seq<Command>) returns (before: seq<Command>)
    requires InPhases(t, disks, creations, formats, mounts)
    ensures t == before + mounts && forall c :: c in before ==> !Mounting(c)
  {
    before := A.WipeCommands(disks) + creations + Map(d => PartProbe(d), disks) + [Settle] + formats;
    WipesWipe(disks);
  }

  /** Of two mount commands of which the later one is about a root partition, the earlier one is about the same. */
  lemma RootBefore(t: seq<Command>, disks: seq<string>, creations: seq<Command>, formats: seq<Command>,
                   first: seq<Command>, others: seq<Command>, parts: seq<PartitionSpec>, nodes: seq<string>,
                   skipSwap: bool, r: nat, x: nat, y: nat)
    requires InPhases(t, disks, creations, formats, first + others) && |nodes| == |parts| && DistinctNodes(nodes)
    requires first == Commands(MountRoot(parts, nodes))
    requires others == Commands(Flatten(MountOthers(parts, nodes, skipSwap)))
    requires r < |parts| && parts[r].mountPoint == Some("/") && x < y < |t| && Mounting(t[x])
    requires MountsNode(nodes[r], t[y])
    ensures t[x].node == t[y].node
  {
    hide Commands, MountRoot, MountOthers, InPhases, DistinctNodes;
    MountPhasesKinds(parts, nodes, skipSwap);
    var before := BeforeMounting(t, disks, creations, formats, first + others);
    MountIsLate(t, before, first, others, x);
    MountIsLate(t, before, first, others, y);
    forall c | c in others ensures c.node != nodes[r] { OthersAreNotRoot(parts, nodes, skipSwap, r, c); }
    assert y < |before| + |first|;
    assert t[x] in first && t[y] in first;
  }

  /** What is mounted at the root is mounted before anything else. */
  lemma RootFirst(layout: DiskLayout, a: Assignments, t: seq<Command>, disks: seq<string>, creations: seq<Command>,
                  formats: seq<Command>, first: seq<Command>, others: seq<Command>)
    requires S.RolesAssigned(layout, a) && InPhases(t, disks, creations, formats, first + others)
    requires first == Commands(MountRoot(layout.partitions, EffectiveNodes(layout, a)))
    requires others == Commands(Flatten(MountOthers(layout.partitions, EffectiveNodes(layout, a), true)))
    ensures RootMountedFirst(t, layout, a)
  {
    hide Commands, MountRoot, MountOthers, EffectiveNodes, HomeNode, S.RolesAssigned, InPhases, DistinctNodes;
    var parts, nodes := layout.partitions, EffectiveNodes(layout, a);
    EffectiveLength(layout, a);
    NodesDistinct(layout, a);
    forall r, x, y | 0 <= r < |parts| && parts[r].mountPoint == Some("/") && 0 <= x < y < |t| && Mounting(t[x])
                     && MountsNode(HomeNode(layout, a, r), t[y])
      ensures t[x].node == t[y].node
    {
      RootBefore(t, disks, creations, formats, first, others, parts, nodes, true, r, x, y);
    }
  }

  /**
   * The commands did what the layout asks for. After the wipes, each partition is made once on each disk of its role,
   * with its number, size, type and label. After probing, it is formatted once with its own tool and label, on each of
   * those nodes, or once over all of them, or on the array that is first built from them; and nothing else is
   * formatted. Then it is mounted at its mount point, or its subvolumes are made and mounted, the root before all.
   */
  ghost predicate Installed(t: seq<Command>, layout: DiskLayout, a: Assignments)
    requires S.RolesAssigned(layout, a)
  {
    && (exists creations, formats, mounts :: InPhases(t, AllDisks(a, |a.keys|), creations, formats, mounts))
    && (forall i :: 0 <= i < |layout.partitions| ==>
          && CreatedAsAsked(t, layout, a, i)
          && PreparedAs(Preparing(t, layout, a, i), layout.partitions[i], ArrayNode(i), DiskNodes(layout, a, i))
          && MountedAsAsked(Mountings(t, layout, a, i), HomeNode(layout, a, i), layout.partitions, i, true))
    && NothingElsePrepared(t, layout, a) && RootMountedFirst(t, layout, a)
  }

  /** A complete run of the general applier, whatever was set to fail, has installed the layout. */
  lemma CompleteRunInstalls(layout: DiskLayout, a: Assignments, fails: Fails)
    requires S.RolesAssigned(layout, a) && Exec(ResolvedProgram(layout, a), fails, 0).ok
    ensures Installed(Exec(ResolvedProgram(layout, a), fails, 0).trace, layout, a)
  {
    hide ResolvedProgram, Commands, Aborts, EffectiveNodes, S.RolesAssigned, FormatProgs, MountRoot, MountOthers;
    hide AllDisks, PreparedAs, MountedAsAsked, CreatedAsAsked, HomeNode, DiskNodes, OwnNodes, InPhases;
    hide RootMountedFirst;
    var prog := ResolvedProgram(layout, a);
    RunDone(prog, fails, 0);
    var t := Commands(prog);
    var creations, formats, first, others := TracePhases(layout, a);
    RootFirst(layout, a, t, AllDisks(a, |a.keys|), creations, formats, first, others);
    NodesDistinct(layout, a);
    EffectiveLength(layout, a);
    PhaseKinds(t, AllDisks(a, |a.keys|), creations, formats, first + others);
    FormattingConsumes(layout, a);
    forall i | 0 <= i < |layout.partitions|
      ensures CreatedAsAsked(t, layout, a, i)
      ensures PreparedAs(Preparing(t, layout, a, i), layout.partitions[i], ArrayNode(i), DiskNodes(layout, a, i))
      ensures MountedAsAsked(Mountings(t, layout, a, i), HomeNode(layout, a, i), layout.partitions, i, true)
    {
      AllCreated(layout, a, fails, i);
      PickedFromPhase(t, AllDisks(a, |a.keys|), creations, formats, first + others,
                      c => Consumes(OwnNodes(layout, a, i), c));
      FormatPhasePrepares(layout, a, i);
      PickedFromPhase(t, AllDisks(a, |a.keys|), creations, formats, first + others,
                      c => MountsNode(HomeNode(layout, a, i), c));
      MountPhasesMount(layout.partitions, EffectiveNodes(layout, a), i, true);
    }
  }

  lemma AllCreated(layout: DiskLayout, a: Assignments, fails: Fails, i: nat)
    requires S.RolesAssigned(layout, a) && i < |layout.partitions| && Exec(ResolvedProgram(layout, a), fails, 0).ok
    ensures CreatedAsAsked(Exec(ResolvedProgram(layout, a), fails, 0).trace, layout, a, i)
  {
    hide ResolvedProgram, CreatedFor, S.RolesAssigned;
    forall d | d in Disks(layout, a, i)
      ensures exists c :: CreatedFor(c, d.path, Number(layout, i), layout.partitions[i])
                          && Filter(Exec(ResolvedProgram(layout, a), fails, 0).trace,
                                    x => Creates(x, d.path, Number(layout, i))) == [c]
    {
      PartitionCreated(layout, a, fails, i, d);
    }
  }

  lemma PhaseKinds(t: seq<Command>, disks: seq<string>, creations: seq<Command>, formats: seq<Command>,
                   mounts: seq<Command>)
    requires InPhases(t, disks, creations, formats, mounts)
    ensures forall c :: c in t && (c.Mkfs? || c.MdCreate?) ==> c in formats
  {
    WipesWipe(disks);
  }

  /** So does resolving a validated layout with declared roles and then applying it. */
  lemma ResolvedRunInstalls(glob: Glob, req: RoleResolution.Request, disks: seq<BlockDevice>, fails: Fails)
    requires ResolutionLaws.DistinctPaths(disks) && RoleResolution.Resolve(glob, req, disks).Ok?
    requires forall d :: d in disks ==> WholeDisk(d.path) && d.path != "/dev/md"
    requires ValidLayout(req.layout) && req.layout.disks != []
    requires var a := RoleResolution.Resolve(glob, req, disks).value.assignments;
             Exec(ResolvedProgram(req.layout, a), fails, 0).ok
    ensures var a := RoleResolution.Resolve(glob, req, disks).value.assignments;
            && S.RolesAssigned(req.layout, a)
            && Installed(Exec(ResolvedProgram(req.layout, a), fails, 0).trace, req.layout, a)
  {
    hide RoleResolution.Resolve, ResolvedProgram, Installed, S.DisjointDisks, Applicable, ValidLayout;
    Laws.ResolvedDisksAreDisjoint(glob, req, disks);
    Laws.ResolvedLayoutApplies(glob, req, disks);
    CompleteRunInstalls(req.layout, RoleResolution.Resolve(glob, req, disks).value.assignments, fails);
  }
}
