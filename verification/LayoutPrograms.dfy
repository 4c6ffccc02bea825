/** The programs that the two layout appliers run. */
module LayoutPrograms {
  import opened Text
  import opened Sorting
  import opened Wrappers
  import opened Dicts
  import opened Deduplication
  import opened Disk
  import opened PartitionNames
  import opened DiskLayout
  import opened CommandRunner

  datatype PartitionMap = PartitionMap(
    esp: string,
    root: string,
    boot: string,
    home: string,
    rootFilesystem: string,
    rootSubvolumes: seq<string>,
    swapPartitions: seq<string>,
    extraMounts: seq<(string, string, string)>)

  datatype RaidBackend = Mdadm | Btrfs

  datatype RaidConfig = RaidConfig(level: string, backend: RaidBackend)

  // ---- Wiping, partitioning ----

  function WipeProg(device: string): seq<Step> {
    [Run(Wipefs(device)), Run(ZapAll(device)), Run(ClearTable(device))]
  }

  function TypeCode(filesystem: string): string {
    if filesystem == "vfat" then "EF00" else if filesystem == "swap" then "8200" else "8300"
  }

  /** One partition; a size that does not parse raises before the command. */
  function CreateProg(device: string, num: int, part: PartitionSpec): seq<Step> {
    var arg := ParseSizeSpec(part.size);
    if arg.None? then [Abort]
    else [Run(NewPartition(device, num, "0:" + arg.value, TypeCode(part.filesystem), part.partLabel))]
  }

  /** The partitions with these layout indices, numbered from 1 on this device. */
  function CreateProgs(device: string, parts: seq<PartitionSpec>, indices: seq<int>): seq<seq<Step>>
    requires forall k :: 0 <= k < |indices| ==> 0 <= indices[k] < |parts|
  {
    seq(|indices|, k requires 0 <= k < |indices| => CreateProg(device, k + 1, parts[indices[k]]))
  }

  function CreateAllProg(device: string, parts: seq<PartitionSpec>, indices: seq<int>): seq<Step>
    requires forall k :: 0 <= k < |indices| ==> 0 <= indices[k] < |parts|
  {
    Flatten(CreateProgs(device, parts, indices))
  }

  // ---- Formatting ----

  function Upper(s: string): string {
    seq(|s|, i requires 0 <= i < |s| => if 'a' <= s[i] <= 'z' then (s[i] as int - 32) as char else s[i])
  }

  function Truncated(s: string, n: nat): string {
    if |s| <= n then s else s[..n]
  }

  /** `_format_partition`. */
  function FormatProg(path: string, part: PartitionSpec, extra: seq<string>, level: Option<string>): seq<Step> {
    if part.filesystem == "vfat" then [Run(Mkfs("mkfs.fat", "", Upper(part.partLabel), [path]))]
    else if part.filesystem == "ext4" then [Run(Mkfs("mkfs.ext4", "", part.partLabel, [path]))]
    else if part.filesystem == "btrfs" then
      if extra == [] then [Run(Mkfs("mkfs.btrfs", "", part.partLabel, [path]))]
      else if level.None? then [Abort]
      else [Run(Mkfs("mkfs.btrfs", "raid" + level.value, part.partLabel, [path] + extra))]
    else if part.filesystem == "xfs" then [Run(Mkfs("mkfs.xfs", "", Truncated(part.partLabel, 12), [path]))]
    else if part.filesystem == "swap" then [Run(Mkfs("mkswap", "", Truncated(part.partLabel, 15), [path]))]
    else []
  }

  /** `RaidLevel(int(raid_level))` knows only these levels. */
  function RaidValue(level: string): Option<string> {
    if level in ["0", "1", "10"] then Some(level) else None
  }

  function Backend(part: PartitionSpec): string {
    if part.raidBackend != "" then part.raidBackend
    else if part.filesystem == "btrfs" then "btrfs"
    else "mdadm"
  }

  function MdDevice(index: nat): string {
    "/dev/md" + Decimal(index)
  }

  function FormatEach(paths: seq<string>, part: PartitionSpec): seq<seq<Step>> {
    seq(|paths|, k requires 0 <= k < |paths| => FormatProg(paths[k], part, [], None))
  }

  /** Formatting the partition with layout index `index`, given its node on each disk of its role. */
  function FormatMembersProg(part: PartitionSpec, index: nat, members: seq<string>): seq<Step>
    requires members != []
  {
    if !part.IsMultidisk() then Flatten(FormatEach(members, part))
    else if Backend(part) == "btrfs" && part.filesystem == "btrfs" then
      var level := RaidValue(part.raidLevel);
      if level.None? then [Abort] else FormatProg(members[0], part, members[1..], level)
    else if Backend(part) == "mdadm" then
      [Run(MdCreate(MdDevice(index), part.raidLevel, members))] + FormatProg(MdDevice(index), part, [], None)
    else [Abort]
  }

  predicate UsesMd(part: PartitionSpec) {
    part.IsMultidisk() && Backend(part) == "mdadm"
  }

  /** The device the rest of the installation works with. */
  function EffectiveNode(part: PartitionSpec, index: nat, members: seq<string>): string
    requires members != []
  {
    if UsesMd(part) then MdDevice(index) else members[0]
  }

  // ---- Mounting ----

  function MountTarget(mountPoint: string): string {
    var s := LStrip(mountPoint, c => c == '/');
    if s == "" then "/mnt" else "/mnt/" + s
  }

  /** `_mount_partition`. */
  function MountProg(path: string, part: PartitionSpec): seq<Step> {
    if part.mountPoint.None? then []
    else [Run(Mount(path, part.mountOptions, MountTarget(part.mountPoint.value)))]
  }

  function SubvolumeOptions(sv: SubvolumeSpec, part: PartitionSpec): string {
    "subvol=" + sv.name + if part.mountOptions == "" then "" else "," + part.mountOptions
  }

  function SubvolumeNames(part: PartitionSpec): seq<string> {
    seq(|part.subvolumes|, i requires 0 <= i < |part.subvolumes| => part.subvolumes[i].name)
  }

  function CreateSubvolumes(path: string, part: PartitionSpec): seq<Command> {
    seq(|part.subvolumes|, i requires 0 <= i < |part.subvolumes| => CreateSubvolume(path, part.subvolumes[i].name))
  }

  /** The subvolume that is mounted as root: the last one that asks for it. */
  function RootSubvolume(svs: seq<SubvolumeSpec>): Option<SubvolumeSpec> {
    if svs == [] then None
    else if svs[|svs| - 1].mountPoint == Some("/") then Some(svs[|svs| - 1])
    else RootSubvolume(svs[..|svs| - 1])
  }

  function ChildSubvolumes(svs: seq<SubvolumeSpec>): (r: seq<SubvolumeSpec>)
    ensures forall i :: 0 <= i < |r| ==> r[i].mountPoint.Some?
  {
    if svs == [] then []
    else
      var sv := svs[|svs| - 1];
      ChildSubvolumes(svs[..|svs| - 1]) + if sv.mountPoint.Some? && sv.mountPoint.value != "/" then [sv] else []
  }

  function MountSubvolume(path: string, part: PartitionSpec, sv: SubvolumeSpec, target: string): seq<Step> {
    [Run(Mount(path, SubvolumeOptions(sv, part), target))]
  }

  function MountChildren(path: string, part: PartitionSpec, svs: seq<SubvolumeSpec>): seq<seq<Step>>
    requires forall i :: 0 <= i < |svs| ==> svs[i].mountPoint.Some?
  {
    seq(|svs|, i requires 0 <= i < |svs| => MountSubvolume(path, part, svs[i], MountTarget(svs[i].mountPoint.value)))
  }

  function MountRootSubvolume(path: string, part: PartitionSpec): seq<Step> {
    var root := RootSubvolume(part.subvolumes);
    if root.None? then [] else MountSubvolume(path, part, root.value, "/mnt")
  }

  function MakeSubvolumes(path: string, part: PartitionSpec): seq<Step> {
    [Run(MountTop(path))] + [Guarded(CreateSubvolumes(path, part), UmountTop(path))]
  }

  /** `_create_and_mount_subvolumes`; the temporary mount directory is identified with the node mounted on it. */
  function SubvolumesProg(path: string, part: PartitionSpec): seq<Step> {
    if part.subvolumes == [] then []
    else
      MakeSubvolumes(path, part)
      + MountRootSubvolume(path, part)
      + Flatten(MountChildren(path, part, ChildSubvolumes(part.subvolumes)))
  }

  predicate HasSubvolumes(part: PartitionSpec) {
    part.filesystem == "btrfs" && part.subvolumes != []
  }

  function MountOrSubvolumes(path: string, part: PartitionSpec): seq<Step> {
    if HasSubvolumes(part) then SubvolumesProg(path, part) else MountProg(path, part)
  }

  /** The first partition from `i` on that is mounted at `/`, or the number of partitions. */
  function RootIndex(parts: seq<PartitionSpec>, i: nat): (r: int)
    requires i <= |parts|
    ensures i <= r <= |parts|
    ensures r < |parts| ==> parts[r].mountPoint == Some("/")
    ensures forall j :: i <= j < r ==> parts[j].mountPoint != Some("/")
    decreases |parts| - i
  {
    if i == |parts| || parts[i].mountPoint == Some("/") then i else RootIndex(parts, i + 1)
  }

  function MountRoot(parts: seq<PartitionSpec>, nodes: seq<string>): seq<Step>
    requires |nodes| == |parts|
  {
    var r := RootIndex(parts, 0);
    if r == |parts| then [] else MountOrSubvolumes(nodes[r], parts[r])
  }

  /** The second mount pass on one partition; only the general applier passes over swap. */
  function MountOther(path: string, part: PartitionSpec, skipSwap: bool): seq<Step> {
    if part.mountPoint == Some("/") then []
    else if skipSwap && part.filesystem == "swap" then []
    else MountOrSubvolumes(path, part)
  }

  function MountOthers(parts: seq<PartitionSpec>, nodes: seq<string>, skipSwap: bool): seq<seq<Step>>
    requires |nodes| == |parts|
  {
    seq(|parts|, i requires 0 <= i < |parts| => MountOther(nodes[i], parts[i], skipSwap))
  }

  // ---- The partition map ----

  const NO_MAP := PartitionMap("", "", "", "", "", [], [], [])

  predicate Auxiliary(part: PartitionSpec) {
    part.filesystem != "swap" && part.mountPoint.Some?
      && part.mountPoint.value !in ["", "/", "/boot", "/boot/efi", "/home"]
  }

  /** What one partition contributes to the fields both appliers fill. */
  function AddCanonical(m: PartitionMap, part: PartitionSpec, node: string): PartitionMap {
    var isEsp := part.filesystem == "vfat" && part.mountPoint in [Some("/boot"), Some("/boot/efi")];
    var m1 := if isEsp then m.(esp := node) else m;
    var m2 := if part.mountPoint == Some("/") then m1.(root := node, rootFilesystem := part.filesystem) else m1;
    if part.mountPoint == Some("/home") then m2.(home := node) else m2
  }

  /** The swap partition or auxiliary mount that only the general applier records. */
  function AddAuxiliary(m: PartitionMap, part: PartitionSpec, node: string): PartitionMap {
    if part.filesystem == "swap" then m.(swapPartitions := m.swapPartitions + [node])
    else if Auxiliary(part) then m.(extraMounts := m.extraMounts + [(node, part.mountPoint.value, part.filesystem)])
    else m
  }

  function MapAfter(parts: seq<PartitionSpec>, nodes: seq<string>, n: nat, auxiliary: bool): PartitionMap
    requires |nodes| == |parts| && n <= |parts|
  {
    if n == 0 then NO_MAP
    else
      var m := AddCanonical(MapAfter(parts, nodes, n - 1, auxiliary), parts[n - 1], nodes[n - 1]);
      if auxiliary then AddAuxiliary(m, parts[n - 1], nodes[n - 1]) else m
  }

  function RootSubvolumeNames(parts: seq<PartitionSpec>): seq<string> {
    var r := RootIndex(parts, 0);
    if r < |parts| && HasSubvolumes(parts[r]) then SubvolumeNames(parts[r]) else []
  }

  function FinalMap(parts: seq<PartitionSpec>, nodes: seq<string>, auxiliary: bool): PartitionMap
    requires |nodes| == |parts|
  {
    MapAfter(parts, nodes, |parts|, auxiliary).(rootSubvolumes := RootSubvolumeNames(parts))
  }

  // ---- The general applier ----

  type Assignments = Dict<seq<BlockDevice>>

  /** What the resolver hands over: no role is assigned an empty list. */
  ghost predicate NonEmptyLists(a: Assignments) {
    a.Valid() && forall r :: r in a.entries ==> a.entries[r] != []
  }

  function UsedRoles(layout: DiskLayout): seq<string> {
    Sort(RolesSeen(layout.partitions, |layout.partitions|), StrLe)
  }

  function DevicePaths(devices: seq<BlockDevice>): seq<string> {
    seq(|devices|, i requires 0 <= i < |devices| => devices[i].path)
  }

  /** Every assigned disk once, in assignment order. */
  function AllDisks(a: Assignments, n: nat): seq<string>
    requires n <= |a.keys|
  {
    if n == 0 then [] else AddNew(AllDisks(a, n - 1), DevicePaths(a.Get(a.keys[n - 1]).GetOr([])))
  }

  predicate Applicable(layout: DiskLayout, a: Assignments) {
    && a.keys != []
    && forall i :: 0 <= i < |layout.partitions| ==> layout.partitions[i].TargetRole() in a.entries
  }

  /** The devices of the role that partition `i` targets. */
  function DevicesOf(layout: DiskLayout, a: Assignments, i: int): seq<BlockDevice>
    requires 0 <= i < |layout.partitions|
  {
    a.Get(layout.partitions[i].TargetRole()).GetOr([])
  }

  /** The number of partition `i` on each disk of its role. */
  function LocalNum(parts: seq<PartitionSpec>, i: int): int
    requires 0 <= i < |parts|
  {
    |IndicesOf(parts, parts[i].TargetRole(), i)| + 1
  }

  /** The node of partition `i` on each disk of its role. */
  function Members(layout: DiskLayout, a: Assignments, i: int): seq<string>
    requires 0 <= i < |layout.partitions|
  {
    var devices := DevicesOf(layout, a, i);
    seq(|devices|, k requires 0 <= k < |devices| => PartName(devices[k].path, LocalNum(layout.partitions, i)))
  }

  function CreateOnDevices(layout: DiskLayout, role: string, devices: seq<BlockDevice>): seq<seq<Step>> {
    seq(|devices|, k requires 0 <= k < |devices| =>
      CreateAllProg(devices[k].path, layout.partitions, RoleIndices(layout, role)))
  }

  function CreateForRoles(layout: DiskLayout, a: Assignments): seq<seq<Step>> {
    var roles := UsedRoles(layout);
    seq(|roles|, r requires 0 <= r < |roles| => Flatten(CreateOnDevices(layout, roles[r], a.Get(roles[r]).GetOr([]))))
  }

  function FormatProgs(layout: DiskLayout, a: Assignments): seq<seq<Step>> {
    seq(|layout.partitions|, i requires 0 <= i < |layout.partitions| =>
      if Members(layout, a, i) == [] then [Abort]
      else FormatMembersProg(layout.partitions[i], i, Members(layout, a, i)))
  }

  function EffectiveNodes(layout: DiskLayout, a: Assignments): seq<string> {
    seq(|layout.partitions|, i requires 0 <= i < |layout.partitions| =>
      if Members(layout, a, i) == [] then "" else EffectiveNode(layout.partitions[i], i, Members(layout, a, i)))
  }

  function PartProbeProg(device: string): seq<Step> {
    [Run(PartProbe(device))]
  }

  function ResolvedPhases(layout: DiskLayout, a: Assignments): seq<seq<Step>> {
    var disks := AllDisks(a, |a.keys|);
    [ Flatten(Map(WipeProg, disks)),
      Flatten(CreateForRoles(layout, a)),
      Flatten(Map(PartProbeProg, disks)),
      [Run(Settle)],
      Flatten(FormatProgs(layout, a)),
      MountRoot(layout.partitions, EffectiveNodes(layout, a)),
      Flatten(MountOthers(layout.partitions, EffectiveNodes(layout, a), true))]
  }

  /** `apply_disk_layout_resolved`. */
  function ResolvedProgram(layout: DiskLayout, a: Assignments): seq<Step> {
    if !Applicable(layout, a) then [Abort] else Flatten(ResolvedPhases(layout, a))
  }

  function ResolvedMap(layout: DiskLayout, a: Assignments): PartitionMap {
    FinalMap(layout.partitions, EffectiveNodes(layout, a), true)
  }

  // ---- The legacy applier ----

  function AllIndices(n: nat): seq<int> {
    seq(n, i => i)
  }

  function NodesOn(device: string, n: nat): seq<string> {
    seq(n, i requires 0 <= i < n => PartName(device, i + 1))
  }

  function CreateOnEach(devices: seq<string>, parts: seq<PartitionSpec>): seq<seq<Step>> {
    seq(|devices|, k requires 0 <= k < |devices| => CreateAllProg(devices[k], parts, AllIndices(|parts|)))
  }

  /** The RAID level that the legacy applier passes to mkfs.btrfs. */
  function BtrfsLevel(raid: Option<RaidConfig>): Option<string> {
    if raid.Some? && raid.value.backend == Btrfs then Some(raid.value.level) else None
  }

  /** The node of partition `i` on each of `devices`. */
  function NodesAt(devices: seq<string>, i: nat): seq<string> {
    seq(|devices|, k requires 0 <= k < |devices| => PartName(devices[k], i + 1))
  }

  function LegacyFormat(device: string, part: PartitionSpec, i: nat, extras: seq<string>,
                        raid: Option<RaidConfig>): seq<Step> {
    var level := BtrfsLevel(raid);
    var node := PartName(device, i + 1);
    if part.filesystem == "vfat" && extras != [] then Flatten(FormatEach([node] + NodesAt(extras, i), part))
    else FormatProg(node, part, if part.filesystem == "btrfs" && level.Some? then NodesAt(extras, i) else [], level)
  }

  function LegacyFormats(device: string, parts: seq<PartitionSpec>, extras: seq<string>,
                         raid: Option<RaidConfig>): seq<seq<Step>> {
    seq(|parts|, i requires 0 <= i < |parts| => LegacyFormat(device, parts[i], i, extras, raid))
  }

  function LegacyPhases(device: string, layout: DiskLayout, extras: seq<string>,
                        raid: Option<RaidConfig>): seq<seq<Step>> {
    var parts := layout.partitions;
    var disks := [device] + extras;
    [ Flatten(Map(WipeProg, disks)),
      Flatten(CreateOnEach(disks, parts)),
      Flatten(Map(PartProbeProg, disks)),
      [Run(Settle)],
      Flatten(LegacyFormats(device, parts, extras, raid)),
      MountRoot(parts, NodesOn(device, |parts|)),
      Flatten(MountOthers(parts, NodesOn(device, |parts|), false))]
  }

  /** `apply_disk_layout`. */
  function LegacyProgram(device: string, layout: DiskLayout, extras: seq<string>, raid: Option<RaidConfig>): seq<Step> {
    Flatten(LegacyPhases(device, layout, extras, raid))
  }

  function LegacyMap(device: string, layout: DiskLayout): PartitionMap {
    FinalMap(layout.partitions, NodesOn(device, |layout.partitions|), false)
  }
}
