/** Disk layouts: their data, the validator, and the stack of role overrides. */
module DiskLayout {
  import opened Wrappers
  import opened Dicts
  import opened DiskDescriptor

  const DEFAULT_DISK_ROLE := "primary"

  datatype SubvolumeSpec = SubvolumeSpec(name: string, mountPoint: Option<string>)

  datatype DiskRole = DiskRole(name: string, descriptor: Descriptor)

  datatype PartitionSpec = PartitionSpec(
    size: string,
    filesystem: string,
    mountPoint: Option<string>,
    partLabel: string,
    mountOptions: string,
    subvolumes: seq<SubvolumeSpec>,
    disk: string,
    disks: string,
    raidLevel: string,
    raidBackend: string)
  {
    function TargetRole(): string {
      if disks != "" then disks else if disk != "" then disk else DEFAULT_DISK_ROLE
    }

    predicate IsMultidisk() {
      disks != "" && raidLevel != ""
    }
  }

  datatype DiskLayout = DiskLayout(partitions: seq<PartitionSpec>, disks: seq<DiskRole>)

  /** `parse_size_spec`: the sgdisk size argument; `None` is a `ValueError`. */
  function ParseSizeSpec(spec: string): Option<string> {
    if spec == "*" then Some("0")
    else
      var digits := LeadingDigits(spec);
      var unit := spec[|digits|..];
      if digits != "" && unit in ["M", "G", "T"] then Some("+" + digits + unit)
      else if digits != "" && unit == "m" then Some("+" + digits + "M")
      else if digits != "" && unit == "g" then Some("+" + digits + "G")
      else if digits != "" && unit == "t" then Some("+" + digits + "T")
      else None
  }

  // ---- Grouping by role ----

  /** The indices below `n` of the partitions that target `role`, in layout order. */
  function IndicesOf(parts: seq<PartitionSpec>, role: string, n: nat): (r: seq<int>)
    requires n <= |parts|
    ensures forall k :: 0 <= k < |r| ==> 0 <= r[k] < n
  {
    if n == 0 then []
    else IndicesOf(parts, role, n - 1) + (if parts[n - 1].TargetRole() == role then [n - 1] else [])
  }

  lemma {:induction false} IndicesExact(parts: seq<PartitionSpec>, role: string, n: nat)
    requires n <= |parts|
    ensures forall i :: i in IndicesOf(parts, role, n) <==> 0 <= i < n && parts[i].TargetRole() == role
    ensures forall a, b :: 0 <= a < b < |IndicesOf(parts, role, n)| ==>
              IndicesOf(parts, role, n)[a] < IndicesOf(parts, role, n)[b]
  {
    if n > 0 { IndicesExact(parts, role, n - 1); }
  }

  /** The partitions of a role, as the validator and the applier both group them. */
  function RoleIndices(layout: DiskLayout, role: string): (r: seq<int>)
    ensures forall k :: 0 <= k < |r| ==> 0 <= r[k] < |layout.partitions|
  {
    IndicesOf(layout.partitions, role, |layout.partitions|)
  }

  /** The roles of the partitions in the order of their first mention. */
  function RolesSeen(parts: seq<PartitionSpec>, n: nat): seq<string>
    requires n <= |parts|
  {
    if n == 0 then []
    else
      var before := RolesSeen(parts, n - 1);
      if parts[n - 1].TargetRole() in before then before else before + [parts[n - 1].TargetRole()]
  }

  // ---- Validation ----

  datatype LayoutError =
    | DuplicateRole(name: string)
    | NoPartitions
    | FillNotLast(index: nat)
    | DuplicateMount(mountPoint: string)
    | SubvolumesNeedBtrfs(index: nat)
    | UndeclaredRole(index: nat)
    | RaidNeedsDisks(index: nat)
    | UnsupportedRaidLevel(index: nat)
    | UnsupportedRaidBackend(index: nat)

  ghost predicate Repeats<T(!new)>(s: seq<T>, x: T) {
    exists i, j :: 0 <= i < j < |s| && s[i] == x && s[j] == x
  }

  function RoleNames(layout: DiskLayout): seq<string> {
    seq(|layout.disks|, i requires 0 <= i < |layout.disks| => layout.disks[i].name)
  }

  function MountPoints(parts: seq<PartitionSpec>): seq<string> {
    if parts == [] then []
    else (if parts[0].mountPoint.Some? then [parts[0].mountPoint.value] else []) + MountPoints(parts[1..])
  }

  /** The faults a layout can have; a layout without partitions is only checked for its role names. */
  ghost predicate Fault(layout: DiskLayout, e: LayoutError) {
    var parts := layout.partitions;
    match e
    case DuplicateRole(name) => Repeats(RoleNames(layout), name)
    case NoPartitions => parts == []
    case FillNotLast(i) =>
      && i < |parts| && parts[i].size == "*"
      && exists j :: i < j < |parts| && parts[j].TargetRole() == parts[i].TargetRole()
    case DuplicateMount(m) => Repeats(MountPoints(parts), m)
    case SubvolumesNeedBtrfs(i) => i < |parts| && parts[i].subvolumes != [] && parts[i].filesystem != "btrfs"
    case UndeclaredRole(i) => i < |parts| && layout.disks != [] && parts[i].TargetRole() !in RoleNames(layout)
    case RaidNeedsDisks(i) => i < |parts| && parts[i].raidLevel != "" && parts[i].disks == ""
    case UnsupportedRaidLevel(i) =>
      i < |parts| && parts[i].raidLevel != "" && parts[i].raidLevel !in ["0", "1", "5", "6", "10"]
    case UnsupportedRaidBackend(i) =>
      i < |parts| && parts[i].raidBackend != "" && parts[i].raidBackend !in ["btrfs", "mdadm"]
  }

  ghost predicate ValidLayout(layout: DiskLayout) {
    forall e :: !Fault(layout, e)
  }

  /** The `seen` loop that the validator runs over role names and over mount points. */
  method FindRepeats(s: seq<string>) returns (repeats: seq<string>)
    ensures forall x :: x in repeats <==> Repeats(s, x)
  {
    repeats := [];
    var seen: set<string> := {};
    for i := 0 to |s|
      invariant forall x :: x in seen <==> x in s[..i]
      invariant forall x :: x in repeats <==> Repeats(s[..i], x)
    {
      ghost var before := s[..i];
      assert s[..i + 1] == before + [s[i]];
      assert forall x :: Repeats(before + [s[i]], x) <==> Repeats(before, x) || (x == s[i] && x in before) by {
        forall x | Repeats(before, x) || (x == s[i] && x in before) ensures Repeats(before + [s[i]], x) {
          if Repeats(before, x) {
            var a, b :| 0 <= a < b < |before| && before[a] == x && before[b] == x;
            assert (before + [s[i]])[a] == x && (before + [s[i]])[b] == x;
          } else {
            var a :| 0 <= a < |before| && before[a] == x;
            assert (before + [s[i]])[a] == x && (before + [s[i]])[|before|] == x;
          }
        }
      }
      if s[i] in seen {
        repeats := repeats + [s[i]];
      }
      seen := seen + {s[i]};
    }
    assert s[..|s|] == s;
  }

  /** `groups` holds, for each role met among the first `n` partitions, the indices of its partitions. */
  ghost predicate Grouped(groups: Dict<seq<int>>, parts: seq<PartitionSpec>, n: nat)
    requires n <= |parts|
  {
    && groups.Valid()
    && (forall r :: r in groups.entries ==> groups.entries[r] == IndicesOf(parts, r, n))
    && (forall i :: 0 <= i < n ==> parts[i].TargetRole() in groups.entries)
  }

  lemma NoIndicesYet(parts: seq<PartitionSpec>, role: string, n: nat)
    requires n <= |parts| && forall i :: 0 <= i < n ==> parts[i].TargetRole() != role
    ensures IndicesOf(parts, role, n) == []
  {
    IndicesExact(parts, role, n);
    assert IndicesOf(parts, role, n) != [] ==> IndicesOf(parts, role, n)[0] in IndicesOf(parts, role, n);
  }

  lemma GroupStep(groups: Dict<seq<int>>, parts: seq<PartitionSpec>, n: nat, role: string)
    requires n < |parts| && Grouped(groups, parts, n) && role == parts[n].TargetRole()
    ensures Grouped(groups.Put(role, groups.Get(role).GetOr([]) + [n]), parts, n + 1)
  {
    hide PartitionSpec.TargetRole;
    var grown := groups.Put(role, groups.Get(role).GetOr([]) + [n]);
    if role !in groups.entries { NoIndicesYet(parts, role, n); }
    forall r | r in grown.entries ensures grown.entries[r] == IndicesOf(parts, r, n + 1) {
      if r != role { assert grown.entries[r] == groups.entries[r]; }
    }
    forall i | 0 <= i < n + 1 ensures parts[i].TargetRole() in grown.entries {}
  }

  /** Grouping by `setdefault(target_role, []).append(i)`. */
  method GroupByRole(parts: seq<PartitionSpec>) returns (groups: Dict<seq<int>>)
    ensures Grouped(groups, parts, |parts|)
    ensures groups.keys == RolesSeen(parts, |parts|)
  {
    hide IndicesOf;
    groups := Empty();
    for i := 0 to |parts|
      invariant Grouped(groups, parts, i)
      invariant groups.keys == RolesSeen(parts, i)
    {
      var role := parts[i].TargetRole();
      GroupStep(groups, parts, i, role);
      groups := groups.Put(role, groups.Get(role).GetOr([]) + [i]);
    }
  }

  lemma FillFault(layout: DiskLayout, role: string, p: nat)
    requires p < |RoleIndices(layout, role)|
    ensures var i := RoleIndices(layout, role)[p];
            Fault(layout, FillNotLast(i)) <==> layout.partitions[i].size == "*" && p != |RoleIndices(layout, role)| - 1
  {
    var indices := RoleIndices(layout, role);
    IndicesExact(layout.partitions, role, |layout.partitions|);
    var i := indices[p];
    assert i in indices;
    if p != |indices| - 1 {
      assert indices[p + 1] in indices && i < indices[p + 1];
    } else {
      assert forall q :: 0 <= q < |indices| ==> indices[q] <= i;
      assert forall j :: j in indices ==> j <= i;
    }
  }

  /** The fill-the-rest rule on one role: only its last partition may use `*`. */
  method CheckRoleFill(layout: DiskLayout, role: string, indices: seq<int>) returns (errors: seq<LayoutError>)
    requires indices == RoleIndices(layout, role)
    ensures forall e :: e in errors <==>
              e.FillNotLast? && Fault(layout, e) && layout.partitions[e.index].TargetRole() == role
  {
    IndicesExact(layout.partitions, role, |layout.partitions|);
    errors := [];
    for p := 0 to |indices|
      invariant forall e :: e in errors <==> e.FillNotLast? && e.index in indices[..p] && Fault(layout, e)
    {
      FillFault(layout, role, p);
      assert indices[p] in indices;
      assert indices[..p + 1] == indices[..p] + [indices[p]];
      if layout.partitions[indices[p]].size == "*" && p != |indices| - 1 {
        errors := errors + [FillNotLast(indices[p])];
      }
    }
    assert indices[..|indices|] == indices;
  }

  method CheckFillRest(layout: DiskLayout) returns (errors: seq<LayoutError>)
    ensures forall e :: e in errors <==> e.FillNotLast? && Fault(layout, e)
  {
    var groups := GroupByRole(layout.partitions);
    errors := [];
    for k := 0 to |groups.keys|
      invariant forall e :: e in errors <==>
                  e.FillNotLast? && Fault(layout, e) && layout.partitions[e.index].TargetRole() in groups.keys[..k]
    {
      assert groups.keys[k] in groups.entries;
      var found := CheckRoleFill(layout, groups.keys[k], groups.entries[groups.keys[k]]);
      errors := errors + found;
      assert groups.keys[..k + 1] == groups.keys[..k] + [groups.keys[k]];
    }
    assert groups.keys[..|groups.keys|] == groups.keys;
  }

  /** The checks that look at one partition at a time. */
  function PartitionErrors(layout: DiskLayout, i: nat): seq<LayoutError>
    requires i < |layout.partitions|
  {
    var part := layout.partitions[i];
    (if part.subvolumes != [] && part.filesystem != "btrfs" then [SubvolumesNeedBtrfs(i)] else [])
    + (if layout.disks != [] && part.TargetRole() !in RoleNames(layout) then [UndeclaredRole(i)] else [])
    + (if part.raidLevel != "" && part.disks == "" then [RaidNeedsDisks(i)] else [])
    + (if part.raidLevel != "" && part.raidLevel !in ["0", "1", "5", "6", "10"] then [UnsupportedRaidLevel(i)] else [])
    + (if part.raidBackend != "" && part.raidBackend !in ["btrfs", "mdadm"] then [UnsupportedRaidBackend(i)] else [])
  }

  predicate PerPartition(e: LayoutError) {
    || e.SubvolumesNeedBtrfs? || e.UndeclaredRole? || e.RaidNeedsDisks?
    || e.UnsupportedRaidLevel? || e.UnsupportedRaidBackend?
  }

  lemma PartitionErrorsExact(layout: DiskLayout, i: nat, e: LayoutError)
    requires i < |layout.partitions|
    ensures e in PartitionErrors(layout, i) <==> PerPartition(e) && e.index == i && Fault(layout, e)
  {
  }

  method CheckPartitions(layout: DiskLayout) returns (errors: seq<LayoutError>)
    ensures forall e :: e in errors <==> PerPartition(e) && Fault(layout, e)
  {
    errors := [];
    for i := 0 to |layout.partitions|
      invariant forall e :: e in errors <==> PerPartition(e) && e.index < i && Fault(layout, e)
    {
      forall e { PartitionErrorsExact(layout, i, e); }
      errors := errors + PartitionErrors(layout, i);
    }
  }

  /** `_validate_layout`: it reports every fault, and nothing else. */
  method ValidateLayout(layout: DiskLayout) returns (errors: seq<LayoutError>)
    ensures layout.partitions != [] ==> forall e :: e in errors <==> Fault(layout, e)
    ensures layout.partitions == [] ==>
              forall e :: e in errors <==> (e.DuplicateRole? || e.NoPartitions?) && Fault(layout, e)
    ensures errors == [] <==> ValidLayout(layout)
  {
    var names := FindRepeats(RoleNames(layout));
    errors := seq(|names|, i requires 0 <= i < |names| => DuplicateRole(names[i]));
    forall e: LayoutError ensures e in errors <==> e.DuplicateRole? && Fault(layout, e) {
      if e.DuplicateRole? && e.name in names {
        var i :| 0 <= i < |names| && names[i] == e.name;
        assert errors[i] == e;
      }
    }
    if layout.partitions == [] {
      errors := errors + [NoPartitions];
      assert Fault(layout, NoPartitions);
      return;
    }
    var fill := CheckFillRest(layout);
    var mounts := FindRepeats(MountPoints(layout.partitions));
    var mountErrors := seq(|mounts|, i requires 0 <= i < |mounts| => DuplicateMount(mounts[i]));
    forall e: LayoutError ensures e in mountErrors <==> e.DuplicateMount? && Fault(layout, e) {
      if e.DuplicateMount? && e.mountPoint in mounts {
        var i :| 0 <= i < |mounts| && mounts[i] == e.mountPoint;
        assert mountErrors[i] == e;
      }
    }
    var rest := CheckPartitions(layout);
    errors := errors + fill + mountErrors + rest;
    if errors != [] { assert errors[0] in errors; }
  }

  // ---- Disk counts ----

  /** The smallest array a RAID level makes sense for; it is also the count the resolver insists on. */
  function LevelMinimum(level: string): (n: Option<nat>)
    ensures n.Some? ==> n.value >= 2
  {
    if level in ["0", "1"] then Some(2)
    else if level == "5" then Some(3)
    else if level in ["6", "10"] then Some(4)
    else None
  }

  /** `_required_count_for_partition`. */
  function RequiredForPartition(p: PartitionSpec): Option<nat> {
    if p.IsMultidisk() then LevelMinimum(p.raidLevel) else None
  }

  /** `_required_count_for_role`: the largest demand of the role's partitions, if any makes one. */
  function RequiredForRole(parts: seq<PartitionSpec>, role: string): (r: Option<nat>)
    ensures r.Some? ==> r.value >= 2 && exists p :: p in parts && p.TargetRole() == role && RequiredForPartition(p) == r
    ensures forall p :: p in parts && p.TargetRole() == role && RequiredForPartition(p).Some? ==>
              r.Some? && r.value >= RequiredForPartition(p).value
  {
    if parts == [] then None
    else
      var n := |parts| - 1;
      var before := RequiredForRole(parts[..n], role);
      var mine := if parts[n].TargetRole() == role then RequiredForPartition(parts[n]) else None;
      assert parts == parts[..n] + [parts[n]];
      if mine.Some? && (before.None? || before.value < mine.value) then mine else before
  }

  /** The loop of `_required_count_for_role`. */
  method ComputeRequiredForRole(parts: seq<PartitionSpec>, role: string) returns (r: Option<nat>)
    ensures r == RequiredForRole(parts, role)
  {
    r := None;
    for i := 0 to |parts|
      invariant r == RequiredForRole(parts[..i], role)
    {
      assert parts[..i + 1][..i] == parts[..i];
      if parts[i].TargetRole() != role { continue; }
      var n := RequiredForPartition(parts[i]);
      if n.Some? && (r.None? || r.value < n.value) { r := n; }
    }
    assert parts[..|parts|] == parts;
  }

  // ---- Overrides ----

  function PutRoles(d: Dict<DiskRole>, roles: seq<DiskRole>): (r: Dict<DiskRole>)
    ensures d.Valid() ==> r.Valid()
    decreases |roles|
  {
    if roles == [] then d else PutRoles(d.Put(roles[0].name, roles[0]), roles[1..])
  }

  const IMPLICIT_ROLE := DiskRole(
    DEFAULT_DISK_ROLE,
    Table(DescriptorTable(None, None, None, None, None, Some(false), None, None, None)))

  /** `_merge_role_overrides`: layout, then machine, then auto-install. */
  function MergeRoleOverrides(layout: DiskLayout, machine: seq<DiskRole>, auto: seq<DiskRole>): (r: Dict<DiskRole>)
    ensures r.Valid()
  {
    var merged := PutRoles(PutRoles(PutRoles(Empty(), layout.disks), machine), auto);
    if layout.disks == [] && DEFAULT_DISK_ROLE !in merged.entries
    then merged.Put(DEFAULT_DISK_ROLE, IMPLICIT_ROLE)
    else merged
  }
}
