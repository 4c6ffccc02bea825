/** Which role counts when several sources define it, and what that means for the disk that is chosen. */
module RoleOverrides {
  import opened Text
  import opened Wrappers
  import opened Dicts
  import opened Disk
  import opened DiskDescriptor
  import opened DiskLayout
  import opened GreedyClaims
  import opened RoleResolution
  import opened ResolutionLaws

  /** The last role of this name in a list. */
  function LastNamed(roles: seq<DiskRole>, name: string): (r: Option<DiskRole>)
    ensures r.None? <==> forall i :: 0 <= i < |roles| ==> roles[i].name != name
    ensures r.Some? ==>
              exists i :: 0 <= i < |roles| && roles[i] == r.value && r.value.name == name
                          && forall j :: i < j < |roles| ==> roles[j].name != name
  {
    if roles == [] then None
    else if roles[|roles| - 1].name == name then Some(roles[|roles| - 1])
    else LastNamed(roles[..|roles| - 1], name)
  }

  /** The role every layout without declared disks has: any disk that is not removable. */
  const ANY_FIXED_DISK := DiskRole(
    "primary",
    Descriptor.Table(DescriptorTable(None, None, None, None, None, Some(false), None, None, None)))

  /** The auto-install configuration overrides the machine profile, and that the layout. */
  function RoleInForce(req: Request, name: string): Option<DiskRole> {
    if LastNamed(req.auto, name).Some? then LastNamed(req.auto, name)
    else if LastNamed(req.machine, name).Some? then LastNamed(req.machine, name)
    else if LastNamed(req.layout.disks, name).Some? then LastNamed(req.layout.disks, name)
    else if req.layout.disks == [] && name == "primary" then Some(ANY_FIXED_DISK)
    else None
  }

  lemma {:induction false} PutRolesGet(d: Dict<DiskRole>, roles: seq<DiskRole>, name: string)
    ensures PutRoles(d, roles).Get(name) ==
            if LastNamed(roles, name).Some? then LastNamed(roles, name) else d.Get(name)
    decreases |roles|
  {
    if roles != [] {
      PutRolesGet(d.Put(roles[0].name, roles[0]), roles[1..], name);
      LastNamedTail(roles, name);
    }
  }

  lemma {:induction false} LastNamedTail(roles: seq<DiskRole>, name: string)
    requires roles != []
    ensures LastNamed(roles, name) ==
            if LastNamed(roles[1..], name).Some? then LastNamed(roles[1..], name)
            else if roles[0].name == name then Some(roles[0])
            else None
  {
    if |roles| > 1 {
      var n := |roles| - 1;
      assert roles[1..][|roles[1..]| - 1] == roles[n] && roles[1..][..n - 1] == roles[..n][1..];
      if roles[n].name != name { LastNamedTail(roles[..n], name); }
    }
  }

  /** A role is in force exactly as the last source defines it, and no other role is. */
  lemma EffectiveRoleExact(req: Request, name: string)
    ensures req.Effective().Get(name) == RoleInForce(req, name)
    ensures name in req.Names() <==> RoleInForce(req, name).Some?
  {
    hide PutRoles, LastNamed;
    var layoutRoles := PutRoles(Empty(), req.layout.disks);
    var machineRoles := PutRoles(layoutRoles, req.machine);
    PutRolesGet(Empty(), req.layout.disks, name);
    PutRolesGet(layoutRoles, req.machine, name);
    PutRolesGet(machineRoles, req.auto, name);
    assert IMPLICIT_ROLE == ANY_FIXED_DISK;
    if req.layout.disks == [] { assert LastNamed(req.layout.disks, name).None?; }
    NamesFacts(req);
  }

  /** The implied role asks for nothing but that the disk is not removable. */
  lemma ImpliedRoleTakesFixedDisks(glob: Glob, d: BlockDevice)
    ensures ParseDescriptor(ANY_FIXED_DISK.descriptor).Some?
    ensures Selected(glob, ParseDescriptor(ANY_FIXED_DISK.descriptor).value, d) <==> !d.removable
  {
  }

  /** The device that a descriptor names, if it names one. */
  function DeviceNamed(descriptor: Descriptor): Option<string> {
    match descriptor
    case Text(s) => if StartsWith(Strip(s), "/dev/") then Some(Strip(s)) else None
    case Table(t) =>
      if t.device.Some? && StartsWith(Strip(t.device.value), "/dev/") then Some(Strip(t.device.value)) else None
  }

  lemma DeviceNamedIsExplicit(descriptor: Descriptor)
    requires DeviceNamed(descriptor).Some? && ParseDescriptor(descriptor).Some?
    ensures ParseDescriptor(descriptor).value.explicitDevice == DeviceNamed(descriptor)
  {
    hide Strip, ParseSizeBytes, TransportOf, VendorOf;
  }

  lemma SameDisk(disks: seq<BlockDevice>, d: BlockDevice, e: BlockDevice)
    requires DistinctPaths(disks) && d in disks && e in disks && d.path == e.path
    ensures d == e
  {
    var i :| 0 <= i < |disks| && disks[i] == d;
    var j :| 0 <= j < |disks| && disks[j] == e;
  }

  /** A role whose descriptor in force names a device is given that device, or the request does not resolve. */
  lemma DeviceInForceIsTaken(glob: Glob, req: Request, disks: seq<BlockDevice>, name: string)
    requires DistinctPaths(disks) && Resolve(glob, req, disks).Ok?
    requires RoleInForce(req, name).Some? && DeviceNamed(RoleInForce(req, name).value.descriptor).Some?
    ensures var taken := Resolve(glob, req, disks).value.assignments.Get(name);
            && taken.Some? && |taken.value| == 1 && taken.value[0] in disks
            && Some(taken.value[0].path) == DeviceNamed(RoleInForce(req, name).value.descriptor)
  {
    hide Resolve, DeviceNamed, RoleInForce, MatchSpec, Request.Names, Request.Effective, ParseDescriptor, Left;
    EffectiveRoleExact(req, name);
    var i :| 0 <= i < |req.Names()| && req.Names()[i] == name;
    ResolvedShape(glob, req, disks);
    SlotsFacts(glob, req, disks);
    var slots := req.Slots(glob, disks);
    assert RoleFits(slots, i);
    var descriptor := RoleInForce(req, name).value.descriptor;
    assert req.Criteria(name) == ParseDescriptor(descriptor);
    DeviceNamedIsExplicit(descriptor);
    LeftIsTheDevice(glob, req.Criteria(name).value, disks, slots, i);
    assert name in Resolve(glob, req, disks).value.assignments.keys;
  }

  lemma LeftIsTheDevice(glob: Glob, c: DiskCriteria, disks: seq<BlockDevice>, slots: seq<Slot>, i: nat)
    requires DistinctPaths(disks) && i < |slots| && KnownDisks(slots, ByPath(disks))
    requires slots[i].matched == Some(MatchSpec(glob, c, disks)) && c.explicitDevice.Some?
    requires |Left(slots, i)| == slots[i].count > 0
    ensures |Left(slots, i)| == 1 && Left(slots, i)[0] in disks && Left(slots, i)[0].path == c.explicitDevice.value
  {
    var left := Left(slots, i);
    UnclaimedExact(slots[i].Accepts(), Claimed(slots, i));
    DistinctFilter(slots[i].Accepts(), (d: BlockDevice) => d.path !in Claimed(slots, i));
    forall k | 0 <= k < |left| ensures left[k] in disks && left[k].path == c.explicitDevice.value {
      assert left[k] in left;
    }
    if |left| > 1 { SameDisk(disks, left[0], left[1]); }
  }

  /** So a device that the auto-install configuration names is the one that the role gets. */
  lemma AutoInstallDeviceWins(glob: Glob, req: Request, disks: seq<BlockDevice>, name: string, role: DiskRole)
    requires DistinctPaths(disks) && Resolve(glob, req, disks).Ok?
    requires LastNamed(req.auto, name) == Some(role) && DeviceNamed(role.descriptor).Some?
    ensures var taken := Resolve(glob, req, disks).value.assignments.Get(name);
            taken.Some? && |taken.value| == 1 && Some(taken.value[0].path) == DeviceNamed(role.descriptor)
  {
    DeviceInForceIsTaken(glob, req, disks, name);
  }

  // ---- How many disks a role takes ----

  /** Some array of one of these levels lies on the disks of the role. */
  ghost predicate HasArray(parts: seq<PartitionSpec>, role: string, levels: set<string>) {
    exists i :: 0 <= i < |parts| && role != "" && parts[i].disks == role && parts[i].raidLevel in levels
  }

  /** The most that one of its arrays needs, or a single disk. */
  ghost function DisksNeeded(parts: seq<PartitionSpec>, role: string): nat {
    if HasArray(parts, role, {"6", "10"}) then 4
    else if HasArray(parts, role, {"5"}) then 3
    else if HasArray(parts, role, {"0", "1"}) then 2
    else 1
  }

  lemma ArrayIsCounted(parts: seq<PartitionSpec>, role: string, levels: set<string>, n: nat)
    requires forall l :: l in levels ==> LevelMinimum(l) == Some(n) && l != ""
    requires HasArray(parts, role, levels)
    ensures RequiredForRole(parts, role).Some? && RequiredForRole(parts, role).value >= n
  {
    var i :| 0 <= i < |parts| && role != "" && parts[i].disks == role && parts[i].raidLevel in levels;
    assert parts[i] in parts && parts[i].TargetRole() == role && RequiredForPartition(parts[i]) == Some(n);
  }

  lemma CountedArray(parts: seq<PartitionSpec>, role: string)
    requires RequiredForRole(parts, role).Some?
    ensures var n := RequiredForRole(parts, role).value;
            && (n == 4 ==> HasArray(parts, role, {"6", "10"})) && (n == 3 ==> HasArray(parts, role, {"5"}))
            && (n == 2 ==> HasArray(parts, role, {"0", "1"})) && 2 <= n <= 4
  {
    var p :| p in parts && p.TargetRole() == role && RequiredForPartition(p) == RequiredForRole(parts, role);
    var i :| 0 <= i < |parts| && parts[i] == p;
    assert parts[i].disks == role && role != "";
  }

  lemma RequiredIsNeeded(parts: seq<PartitionSpec>, role: string)
    ensures RequiredForRole(parts, role).GetOr(1) == DisksNeeded(parts, role)
  {
    hide HasArray, RequiredForRole, LevelMinimum;
    Levels();
    if RequiredForRole(parts, role).Some? { CountedArray(parts, role); }
    if HasArray(parts, role, {"6", "10"}) { ArrayIsCounted(parts, role, {"6", "10"}, 4); }
    if HasArray(parts, role, {"5"}) { ArrayIsCounted(parts, role, {"5"}, 3); }
    if HasArray(parts, role, {"0", "1"}) { ArrayIsCounted(parts, role, {"0", "1"}, 2); }
  }

  lemma Levels()
    ensures LevelMinimum("0") == LevelMinimum("1") == Some(2) && LevelMinimum("5") == Some(3)
    ensures LevelMinimum("6") == LevelMinimum("10") == Some(4)
  {
  }

  /** After a successful resolution each role has exactly the disks that its largest array needs, or one. */
  lemma RoleTakesWhatItNeeds(glob: Glob, req: Request, disks: seq<BlockDevice>, name: string)
    requires DistinctPaths(disks) && Resolve(glob, req, disks).Ok? && name in req.Names()
    ensures var taken := Resolve(glob, req, disks).value.assignments.Get(name);
            taken.Some? && |taken.value| == DisksNeeded(req.layout.partitions, name)
  {
    hide Resolve, Left, Request.Names, Request.Criteria, MatchSpec, DisksNeeded;
    ResolvedShape(glob, req, disks);
    var slots := req.Slots(glob, disks);
    var i :| 0 <= i < |req.Names()| && req.Names()[i] == name;
    assert RoleFits(slots, i);
    RequiredIsNeeded(req.layout.partitions, name);
  }
}
