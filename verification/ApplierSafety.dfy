/** Every run of the general applier, complete or not, keeps to the rules of DiskWorld. */
module ApplierSafety {
  import opened Text
  import opened Sorting
  import opened Wrappers
  import opened Dicts
  import opened Deduplication
  import opened Disk
  import opened PartitionNames
  import opened DiskLayout
  import opened CommandRunner
  import opened LayoutPrograms
  import opened DiskWorld

  // ---- The disks of an assignment ----

  function PathsOf(a: Assignments, role: string): seq<string> {
    DevicePaths(a.Get(role).GetOr([]))
  }

  ghost predicate Holds(a: Assignments, role: string, path: string) {
    role in a.entries && path in PathsOf(a, role)
  }

  /** No physical disk is assigned twice, and the paths are whole-disk names (not the prefix of array names). */
  ghost predicate DisjointDisks(a: Assignments) {
    && NonEmptyLists(a)
    && (forall r, p :: Holds(a, r, p) ==> WholeDisk(p) && p != "/dev/md")
    && (forall r :: r in a.entries ==> Distinct(PathsOf(a, r)))
    && (forall q, r, p :: Holds(a, q, p) && Holds(a, r, p) ==> q == r)
  }

  ghost function Targets(a: Assignments): (s: set<string>)
    ensures forall p :: p in s <==> exists r :: Holds(a, r, p)
  {
    set r, p | r in a.entries && p in PathsOf(a, r) && Holds(a, r, p) :: p
  }

  lemma {:induction false} AllDisksUpTo(a: Assignments, n: nat, p: string)
    requires a.Valid() && n <= |a.keys|
    ensures Distinct(AllDisks(a, n))
    ensures p in AllDisks(a, n) <==> exists i :: 0 <= i < n && Holds(a, a.keys[i], p)
  {
    if n > 0 {
      AllDisksUpTo(a, n - 1, p);
      assert a.keys[n - 1] in a.keys;
      AddNewFacts(AllDisks(a, n - 1), PathsOf(a, a.keys[n - 1]));
      assert p in AllDisks(a, n) <==> p in AllDisks(a, n - 1) || Holds(a, a.keys[n - 1], p);
    }
  }

  lemma AllDisksAreTargets(a: Assignments)
    requires a.Valid()
    ensures Distinct(AllDisks(a, |a.keys|))
    ensures forall p :: p in AllDisks(a, |a.keys|) <==> p in Targets(a)
  {
    AllDisksUpTo(a, |a.keys|, "");
    forall p ensures p in AllDisks(a, |a.keys|) <==> p in Targets(a) {
      AllDisksUpTo(a, |a.keys|, p);
      if r :| Holds(a, r, p) {
        var i :| 0 <= i < |a.keys| && a.keys[i] == r;
      }
    }
  }

  // ---- Wiping ----

  ghost predicate Wiped(disks: seq<string>, i: int, w: World) {
    && w.count == map[] && w.nodes == {} && w.used == {}
    && forall j :: 0 <= j < |disks| ==> w.Stage(disks[j]) == if j < i then 3 else 0
  }

  lemma WipeKeeps(targets: set<string>, disks: seq<string>, i: int)
    requires Distinct(disks) && 0 <= i < |disks| && disks[i] in targets
    ensures Keeps(targets, (i, w) => Wiped(disks, i, w), WipeProg(disks[i]), i)
  {
    var d := disks[i];
    var p1, p2, p3 := [Run(Wipefs(d))], [Run(ZapAll(d))], [Run(ClearTable(d))];
    assert WipeProg(d) == p1 + p2 + p3;
    forall w | Wiped(disks, i, w)
      ensures SafeProg(targets, w, WipeProg(d)) && !Aborts(WipeProg(d)) && Wiped(disks, i + 1, EndWorld(w, WipeProg(d)))
    {
      OneCommand(targets, w, Wipefs(d));
      var w1 := Next(w, Wipefs(d));
      OneCommand(targets, w1, ZapAll(d));
      var w2 := Next(w1, ZapAll(d));
      OneCommand(targets, w2, ClearTable(d));
      SafeProgConcat(targets, w, p1, p2);
      SafeProgConcat(targets, w, p1 + p2, p3);
    }
  }

  // ---- Partitioning ----

  /** `n` is one of the partitions made so far. */
  ghost predicate IsPartition(targets: set<string>, w: World, n: string) {
    exists d, k :: d in targets && 1 <= k <= w.Count(d) && n == PartName(d, k)
  }

  /** All disks are wiped, have `counts` partitions, and exactly those nodes exist. */
  ghost predicate Partitioned(targets: set<string>, counts: map<string, int>, w: World) {
    && (forall d :: d in targets ==> w.Stage(d) == 3 && d in counts && counts[d] >= 0 && w.Count(d) == counts[d])
    && (forall n :: n in w.nodes <==> IsPartition(targets, w, n))
    && w.used == {}
  }

  lemma NewPartitionKeeps(targets: set<string>, counts: map<string, int>, w: World, c: Command)
    requires Partitioned(targets, counts, w) && (forall d :: d in targets ==> WholeDisk(d))
    requires c.NewPartition? && c.disk in targets && c.num == counts[c.disk] + 1
    ensures Allowed(targets, w, c)
    ensures Partitioned(targets, counts[c.disk := c.num], Next(w, c))
  {
    hide PartName, WholeDisk;
    var node := PartName(c.disk, c.num);
    if node in w.nodes {
      var d, k :| d in targets && 1 <= k <= w.Count(d) && node == PartName(d, k);
      PartNameInjective(c.disk, c.num, d, k);
    }
    var w' := Next(w, c);
    forall n ensures n in w'.nodes <==> IsPartition(targets, w', n) {
      if n in w'.nodes {
        if n == node {
          assert c.disk in targets && 1 <= c.num <= w'.Count(c.disk);
        } else {
          var d, k :| d in targets && 1 <= k <= w.Count(d) && n == PartName(d, k);
          assert 1 <= k <= w'.Count(d);
        }
      }
      if IsPartition(targets, w', n) {
        var d, k :| d in targets && 1 <= k <= w'.Count(d) && n == PartName(d, k);
        if d != c.disk || k < c.num { assert 1 <= k <= w.Count(d); }
      }
    }
  }

  lemma AbortSafe(targets: set<string>, w: World)
    ensures SafeProg(targets, w, [Abort]) && Aborts([Abort])
  {
  }

  lemma CreateAllSafe(targets: set<string>, counts: map<string, int>, w: World, device: string,
                      parts: seq<PartitionSpec>, indices: seq<int>)
    requires Partitioned(targets, counts, w) && (forall d :: d in targets ==> WholeDisk(d))
    requires device in targets && counts[device] == 0
    requires forall k :: 0 <= k < |indices| ==> 0 <= indices[k] < |parts|
    ensures SafeProg(targets, w, CreateAllProg(device, parts, indices))
    ensures !Aborts(CreateAllProg(device, parts, indices)) ==>
              Partitioned(targets, counts[device := |indices|], EndWorld(w, CreateAllProg(device, parts, indices)))
  {
    var progs := CreateProgs(device, parts, indices);
    var inv := (k: int, w: World) => k >= 0 && Partitioned(targets, counts[device := k], w);
    forall k | 0 <= k < |progs| ensures Keeps(targets, inv, progs[k], k) {
      forall w' | inv(k, w')
        ensures SafeProg(targets, w', progs[k]) && (!Aborts(progs[k]) ==> inv(k + 1, EndWorld(w', progs[k])))
      {
        if ParseSizeSpec(parts[indices[k]].size).None? {
          AbortSafe(targets, w');
        } else {
          var c := progs[k][0].cmd;
          NewPartitionKeeps(targets, counts[device := k], w', c);
          OneCommand(targets, w', c);
          assert counts[device := k][device := k + 1] == counts[device := k + 1];
        }
      }
    }
    assert counts[device := 0] == counts;
    LoopSafe(targets, inv, progs, w);
  }

  /** `counts` after the first `k` devices got `n` partitions each. */
  function CountsOn(counts: map<string, int>, paths: seq<string>, k: nat, n: int): map<string, int>
    requires k <= |paths|
  {
    if k == 0 then counts else CountsOn(counts, paths, k - 1, n)[paths[k - 1] := n]
  }

  lemma {:induction false} CountsOnGet(counts: map<string, int>, paths: seq<string>, k: nat, n: int, p: string)
    requires k <= |paths| && p in counts
    ensures p in CountsOn(counts, paths, k, n)
    ensures CountsOn(counts, paths, k, n)[p] == if p in paths[..k] then n else counts[p]
  {
    if k > 0 {
      CountsOnGet(counts, paths, k - 1, n, p);
      assert paths[..k] == paths[..k - 1] + [paths[k - 1]];
    }
  }

  lemma CreateAllWellGuarded(device: string, parts: seq<PartitionSpec>, indices: seq<int>)
    requires forall k :: 0 <= k < |indices| ==> 0 <= indices[k] < |parts|
    ensures AllWellGuarded(CreateAllProg(device, parts, indices))
  {
    FlattenWellGuarded(CreateProgs(device, parts, indices));
  }

  /** The devices are targets and have no partitions yet. */
  ghost predicate Untouched(targets: set<string>, counts: map<string, int>, paths: seq<string>) {
    && Distinct(paths)
    && forall k :: 0 <= k < |paths| ==> paths[k] in targets && paths[k] in counts && counts[paths[k]] == 0
  }

  lemma OwnCountIsZero(targets: set<string>, counts: map<string, int>, paths: seq<string>, k: nat, n: int)
    requires k < |paths| && Untouched(targets, counts, paths)
    ensures paths[k] in CountsOn(counts, paths, k, n) && CountsOn(counts, paths, k, n)[paths[k]] == 0
  {
    CountsOnGet(counts, paths, k, n, paths[k]);
    assert forall j :: 0 <= j < k ==> paths[j] != paths[k];
  }

  /** The first `k` of these devices have `n` partitions each. */
  ghost function DevicesDone(targets: set<string>, counts: map<string, int>, paths: seq<string>,
                             n: int): (int, World) -> bool {
    (k, w) => 0 <= k <= |paths| && Partitioned(targets, CountsOn(counts, paths, k, n), w)
  }

  lemma CreateDeviceKeeps(targets: set<string>, counts: map<string, int>, layout: DiskLayout, role: string,
                          paths: seq<string>, k: nat)
    requires k < |paths| && Untouched(targets, counts, paths) && (forall d :: d in targets ==> WholeDisk(d))
    ensures Keeps(targets, DevicesDone(targets, counts, paths, |RoleIndices(layout, role)|),
                  CreateAllProg(paths[k], layout.partitions, RoleIndices(layout, role)), k)
  {
    var indices := RoleIndices(layout, role);
    var inv := DevicesDone(targets, counts, paths, |indices|);
    var prog := CreateAllProg(paths[k], layout.partitions, indices);
    OwnCountIsZero(targets, counts, paths, k, |indices|);
    CreateAllWellGuarded(paths[k], layout.partitions, indices);
    assert CountsOn(counts, paths, k + 1, |indices|) == CountsOn(counts, paths, k, |indices|)[paths[k] := |indices|];
    hide CreateAllProg, RoleIndices, Partitioned, SafeProg;
    forall w | inv(k, w) ensures SafeProg(targets, w, prog) && (!Aborts(prog) ==> inv(k + 1, EndWorld(w, prog))) {
      CreateAllSafe(targets, CountsOn(counts, paths, k, |indices|), w, paths[k], layout.partitions, indices);
    }
  }

  lemma CreateOnDevicesSafe(targets: set<string>, counts: map<string, int>, w: World, layout: DiskLayout, role: string,
                            devices: seq<BlockDevice>)
    requires Partitioned(targets, counts, w) && (forall d :: d in targets ==> WholeDisk(d))
    requires Untouched(targets, counts, DevicePaths(devices))
    ensures SafeProg(targets, w, Flatten(CreateOnDevices(layout, role, devices)))
    ensures !Aborts(Flatten(CreateOnDevices(layout, role, devices))) ==>
              Partitioned(targets, CountsOn(counts, DevicePaths(devices), |devices|, |RoleIndices(layout, role)|),
                          EndWorld(w, Flatten(CreateOnDevices(layout, role, devices))))
  {
    var progs := CreateOnDevices(layout, role, devices);
    var paths := DevicePaths(devices);
    var inv := DevicesDone(targets, counts, paths, |RoleIndices(layout, role)|);
    forall k | 0 <= k < |progs| ensures Keeps(targets, inv, progs[k], k) {
      CreateDeviceKeeps(targets, counts, layout, role, paths, k);
    }
    LoopSafe(targets, inv, progs, w);
  }

  lemma CreateOnDevicesWellGuarded(layout: DiskLayout, role: string, devices: seq<BlockDevice>)
    ensures AllWellGuarded(Flatten(CreateOnDevices(layout, role, devices)))
  {
    forall k | 0 <= k < |devices| {
      CreateAllWellGuarded(devices[k].path, layout.partitions, RoleIndices(layout, role));
    }
    FlattenWellGuarded(CreateOnDevices(layout, role, devices));
  }

  // ---- All roles ----

  lemma {:induction false} RolesSeenFacts(parts: seq<PartitionSpec>, n: nat)
    requires n <= |parts|
    ensures Distinct(RolesSeen(parts, n))
    ensures forall r :: r in RolesSeen(parts, n) <==> exists i :: 0 <= i < n && parts[i].TargetRole() == r
  {
    if n > 0 { RolesSeenFacts(parts, n - 1); }
  }

  lemma UsedRolesFacts(layout: DiskLayout)
    ensures Distinct(UsedRoles(layout))
    ensures forall i :: 0 <= i < |layout.partitions| ==> layout.partitions[i].TargetRole() in UsedRoles(layout)
    ensures forall r :: r in UsedRoles(layout) ==>
              exists i :: 0 <= i < |layout.partitions| && layout.partitions[i].TargetRole() == r
  {
    var seen := RolesSeen(layout.partitions, |layout.partitions|);
    RolesSeenFacts(layout.partitions, |layout.partitions|);
    SameElements(seen, UsedRoles(layout));
    DistinctPermutes(seen, UsedRoles(layout));
  }

  ghost predicate AssignedRoles(a: Assignments, roles: seq<string>) {
    DisjointDisks(a) && Distinct(roles) && forall i :: 0 <= i < |roles| ==> roles[i] in a.entries
  }

  /** `counts` after the partitions of the first `r` roles. */
  ghost function CountsUpTo(layout: DiskLayout, a: Assignments, roles: seq<string>, r: nat): map<string, int>
    requires r <= |roles|
  {
    if r == 0 then map d | d in Targets(a) :: 0
    else
      var paths := PathsOf(a, roles[r - 1]);
      CountsOn(CountsUpTo(layout, a, roles, r - 1), paths, |paths|, |RoleIndices(layout, roles[r - 1])|)
  }

  /** The disks of a role have no partitions before its turn, and all of its partitions afterwards. */
  lemma {:induction false} CountOfDisk(layout: DiskLayout, a: Assignments, roles: seq<string>, r: nat, n: nat,
                                       p: string)
    requires AssignedRoles(a, roles) && r < |roles| && n <= |roles| && Holds(a, roles[r], p)
    ensures p in CountsUpTo(layout, a, roles, n)
    ensures CountsUpTo(layout, a, roles, n)[p] == if r < n then |RoleIndices(layout, roles[r])| else 0
  {
    if n > 0 {
      var paths := PathsOf(a, roles[n - 1]);
      CountOfDisk(layout, a, roles, r, n - 1, p);
      CountsOnGet(CountsUpTo(layout, a, roles, n - 1), paths, |paths|, |RoleIndices(layout, roles[n - 1])|, p);
      assert paths[..|paths|] == paths;
      assert p in paths <==> Holds(a, roles[n - 1], p);
    }
  }

  lemma RoleUntouched(layout: DiskLayout, a: Assignments, roles: seq<string>, r: nat)
    requires AssignedRoles(a, roles) && r < |roles|
    ensures Untouched(Targets(a), CountsUpTo(layout, a, roles, r), PathsOf(a, roles[r]))
  {
    var paths := PathsOf(a, roles[r]);
    forall k | 0 <= k < |paths|
      ensures paths[k] in Targets(a) && paths[k] in CountsUpTo(layout, a, roles, r)
              && CountsUpTo(layout, a, roles, r)[paths[k]] == 0
    {
      assert Holds(a, roles[r], paths[k]);
      CountOfDisk(layout, a, roles, r, r, paths[k]);
    }
  }

  lemma TargetsAreWholeDisks(a: Assignments)
    requires DisjointDisks(a)
    ensures forall d :: d in Targets(a) ==> WholeDisk(d) && d != "/dev/md"
  {
  }

  lemma CreateRoleKeeps(layout: DiskLayout, a: Assignments, r: nat, w: World)
    requires AssignedRoles(a, UsedRoles(layout)) && r < |UsedRoles(layout)|
    requires Partitioned(Targets(a), CountsUpTo(layout, a, UsedRoles(layout), r), w)
    ensures SafeProg(Targets(a), w, CreateForRoles(layout, a)[r])
    ensures !Aborts(CreateForRoles(layout, a)[r]) ==>
              Partitioned(Targets(a), CountsUpTo(layout, a, UsedRoles(layout), r + 1),
                          EndWorld(w, CreateForRoles(layout, a)[r]))
  {
    var role := UsedRoles(layout)[r];
    RoleUntouched(layout, a, UsedRoles(layout), r);
    TargetsAreWholeDisks(a);
    CreateOnDevicesSafe(Targets(a), CountsUpTo(layout, a, UsedRoles(layout), r), w, layout, role,
                        a.Get(role).GetOr([]));
  }

  lemma CreateForRolesSafe(layout: DiskLayout, a: Assignments, w: World)
    requires AssignedRoles(a, UsedRoles(layout))
    requires Partitioned(Targets(a), CountsUpTo(layout, a, UsedRoles(layout), 0), w)
    ensures SafeProg(Targets(a), w, Flatten(CreateForRoles(layout, a)))
    ensures !Aborts(Flatten(CreateForRoles(layout, a))) ==>
              Partitioned(Targets(a), CountsUpTo(layout, a, UsedRoles(layout), |UsedRoles(layout)|),
                          EndWorld(w, Flatten(CreateForRoles(layout, a))))
  {
    var progs := CreateForRoles(layout, a);
    var roles := UsedRoles(layout);
    var inv := (r: int, w: World) => 0 <= r <= |roles| && Partitioned(Targets(a), CountsUpTo(layout, a, roles, r), w);
    forall r | 0 <= r < |progs| ensures Keeps(Targets(a), inv, progs[r], r) {
      CreateOnDevicesWellGuarded(layout, roles[r], a.Get(roles[r]).GetOr([]));
      forall w' | inv(r, w')
        ensures SafeProg(Targets(a), w', progs[r]) && (!Aborts(progs[r]) ==> inv(r + 1, EndWorld(w', progs[r])))
      {
        CreateRoleKeeps(layout, a, r, w');
      }
    }
    LoopSafe(Targets(a), inv, progs, w);
  }

  // ---- Nodes ----

  ghost predicate RolesAssigned(layout: DiskLayout, a: Assignments) {
    DisjointDisks(a) && Applicable(layout, a)
  }

  lemma {:induction false} IndicesPrefix(parts: seq<PartitionSpec>, role: string, i: nat, n: nat)
    requires i <= n <= |parts|
    ensures IndicesOf(parts, role, i) <= IndicesOf(parts, role, n)
  {
    if i < n { IndicesPrefix(parts, role, i, n - 1); }
  }

  /** The partition numbered `LocalNum(i)` among those of its role is partition `i`. */
  lemma LocalNumIndex(parts: seq<PartitionSpec>, i: nat)
    requires i < |parts|
    ensures var indices := IndicesOf(parts, parts[i].TargetRole(), |parts|);
            1 <= LocalNum(parts, i) <= |indices| && indices[LocalNum(parts, i) - 1] == i
  {
    IndicesPrefix(parts, parts[i].TargetRole(), i + 1, |parts|);
  }

  lemma NotUsesPMd()
    ensures WholeDisk("/dev/md") && !UsesP("/dev/md")
  {
    var s := "/dev/md";
    forall i | 0 <= i <= |s| ensures !StartsWith(s[i..], "nvme") && !StartsWith(s[i..], "mmcblk") {
      assert i < |s| ==> s[i..][0] == s[i] && s[i] != 'n' && (s[i] == 'm' ==> |s[i..]| < 6);
    }
  }

  /** An array is never named like a partition of these disks. */
  lemma MdIsNoPartition(d: string, k: nat, m: nat)
    requires WholeDisk(d) && d != "/dev/md"
    ensures PartName(d, k) != MdDevice(m)
  {
    NotUsesPMd();
    assert MdDevice(m) == PartName("/dev/md", m);
    if PartName(d, k) == MdDevice(m) { PartNameInjective(d, k, "/dev/md", m); }
  }

  lemma MdInjective(m: nat, n: nat)
    requires MdDevice(m) == MdDevice(n)
    ensures m == n
  {
    assert MdDevice(m)[7..] == Decimal(m) && MdDevice(n)[7..] == Decimal(n);
    DecimalInjective(m, n);
  }

  /** The `k`-th disk of the role of partition `i`. */
  lemma MemberDisk(layout: DiskLayout, a: Assignments, i: nat, k: nat)
    requires RolesAssigned(layout, a) && i < |layout.partitions| && k < |Members(layout, a, i)|
    ensures var role := layout.partitions[i].TargetRole();
            && k < |PathsOf(a, role)| && Holds(a, role, PathsOf(a, role)[k])
            && WholeDisk(PathsOf(a, role)[k]) && PathsOf(a, role)[k] != "/dev/md"
            && Members(layout, a, i)[k] == PartName(PathsOf(a, role)[k], LocalNum(layout.partitions, i))
  {
    assert Holds(a, layout.partitions[i].TargetRole(), PathsOf(a, layout.partitions[i].TargetRole())[k]);
  }

  lemma MembersDistinct(layout: DiskLayout, a: Assignments, i: nat)
    requires RolesAssigned(layout, a) && i < |layout.partitions|
    ensures Distinct(Members(layout, a, i))
  {
    var paths := PathsOf(a, layout.partitions[i].TargetRole());
    var n := LocalNum(layout.partitions, i);
    forall j, k | 0 <= j < k < |Members(layout, a, i)| ensures Members(layout, a, i)[j] != Members(layout, a, i)[k] {
      MemberDisk(layout, a, i, j);
      MemberDisk(layout, a, i, k);
      if Members(layout, a, i)[j] == Members(layout, a, i)[k] { PartNameInjective(paths[j], n, paths[k], n); }
    }
  }

  /** Different partitions never share a node. */
  lemma MembersDisjoint(layout: DiskLayout, a: Assignments, i: nat, j: nat, x: nat, y: nat)
    requires RolesAssigned(layout, a) && i < j < |layout.partitions|
    requires x < |Members(layout, a, i)| && y < |Members(layout, a, j)|
    ensures Members(layout, a, i)[x] != Members(layout, a, j)[y]
  {
    MemberDisk(layout, a, i, x);
    MemberDisk(layout, a, j, y);
    var q, r := layout.partitions[i].TargetRole(), layout.partitions[j].TargetRole();
    if Members(layout, a, i)[x] == Members(layout, a, j)[y] {
      PartNameInjective(PathsOf(a, q)[x], LocalNum(layout.partitions, i), PathsOf(a, r)[y],
                        LocalNum(layout.partitions, j));
      assert q == r;
      LocalNumIndex(layout.partitions, i);
      LocalNumIndex(layout.partitions, j);
    }
  }

  // ---- Formatting ----

  /** `n` is a node of partition `j`, or the array built for it. */
  ghost predicate Owns(layout: DiskLayout, a: Assignments, j: int, n: string) {
    0 <= j < |layout.partitions| && (n in Members(layout, a, j) || n == MdDevice(j))
  }

  ghost predicate MembersIn(layout: DiskLayout, a: Assignments, w: World, j: int)
    requires 0 <= j < |layout.partitions|
  {
    forall k :: 0 <= k < |Members(layout, a, j)| ==> Members(layout, a, j)[k] in w.nodes
  }

  /** The first `i` partitions have been formatted; the nodes of the others are untouched. */
  ghost predicate Formatted(layout: DiskLayout, a: Assignments, i: int, w: World) {
    && (forall j :: 0 <= j < |layout.partitions| ==> MembersIn(layout, a, w, j))
    && (forall j: nat :: i <= j ==> MdDevice(j) !in w.nodes)
    && (forall j :: 0 <= j < i && j < |layout.partitions| ==> EffectiveNodes(layout, a)[j] in w.nodes)
    && (forall n :: n in w.used ==> exists j :: 0 <= j < i && Owns(layout, a, j, n))
  }

  lemma FormatSafe(targets: set<string>, w: World, path: string, part: PartitionSpec, extra: seq<string>,
                   level: Option<string>)
    requires Available(w, [path] + extra)
    ensures SafeProg(targets, w, FormatProg(path, part, extra, level))
    ensures var end := EndWorld(w, FormatProg(path, part, extra, level));
            end.nodes == w.nodes && end.used <= w.used + Elements([path] + extra)
  {
    var prog := FormatProg(path, part, extra, level);
    if prog == [Abort] {
      AbortSafe(targets, w);
    } else if prog != [] {
      var c := prog[0].cmd;
      assert prog == [Run(c)];
      assert c.nodes == [path] || c.nodes == [path] + extra;
      assert [path] + [] == [path];
      assert forall i :: 0 <= i < |c.nodes| ==> c.nodes[i] == ([path] + extra)[i];
      OneCommand(targets, w, c);
    }
  }

  lemma FormatWellGuarded(path: string, part: PartitionSpec, extra: seq<string>, level: Option<string>)
    ensures AllWellGuarded(FormatProg(path, part, extra, level))
  {
  }

  ghost function EachDone(w0: World, members: seq<string>): (int, World) -> bool {
    (k: int, w: World) => 0 <= k <= |members| && w.nodes == w0.nodes && w.used <= w0.used + Elements(members[..k])
  }

  lemma FormatEachSafe(targets: set<string>, w: World, part: PartitionSpec, members: seq<string>)
    requires Available(w, members)
    ensures SafeProg(targets, w, Flatten(FormatEach(members, part)))
    ensures !Aborts(Flatten(FormatEach(members, part))) ==>
              EachDone(w, members)(|members|, EndWorld(w, Flatten(FormatEach(members, part))))
  {
    var progs := FormatEach(members, part);
    var inv := EachDone(w, members);
    forall k | 0 <= k < |progs| ensures Keeps(targets, inv, progs[k], k) {
      FormatWellGuarded(members[k], part, [], None);
      assert members[..k + 1] == members[..k] + [members[k]];
      assert members[k] !in members[..k];
      forall w' | inv(k, w') ensures SafeProg(targets, w', progs[k]) && inv(k + 1, EndWorld(w', progs[k])) {
        assert [members[k]] + [] == [members[k]];
        FormatSafe(targets, w', members[k], part, [], None);
      }
    }
    LoopSafe(targets, inv, progs, w);
  }

  /** Formatting one partition consumes only its own nodes and leaves its effective node behind. */
  lemma FormatMembersSafe(targets: set<string>, w: World, part: PartitionSpec, i: nat, members: seq<string>)
    requires members != [] && Available(w, members) && MdDevice(i) !in w.nodes && MdDevice(i) !in w.used
    requires MdDevice(i) !in members
    ensures SafeProg(targets, w, FormatMembersProg(part, i, members))
    ensures !Aborts(FormatMembersProg(part, i, members)) ==>
              var end := EndWorld(w, FormatMembersProg(part, i, members));
              && w.nodes <= end.nodes <= w.nodes + {MdDevice(i)}
              && EffectiveNode(part, i, members) in end.nodes
              && end.used <= w.used + Elements(members) + {MdDevice(i)}
  {
    if !part.IsMultidisk() {
      FormatEachSafe(targets, w, part, members);
      assert members[..|members|] == members;
    } else if Backend(part) == "btrfs" && part.filesystem == "btrfs" {
      assert members == [members[0]] + members[1..];
      if RaidValue(part.raidLevel).None? {
        AbortSafe(targets, w);
      } else {
        FormatSafe(targets, w, members[0], part, members[1..], RaidValue(part.raidLevel));
      }
    } else if Backend(part) == "mdadm" {
      var md := MdDevice(i);
      var c := MdCreate(md, part.raidLevel, members);
      OneCommand(targets, w, c);
      assert [md] + [] == [md];
      FormatSafe(targets, Next(w, c), md, part, [], None);
      SafeProgConcat(targets, w, [Run(c)], FormatProg(md, part, [], None));
    } else {
      AbortSafe(targets, w);
    }
  }

  lemma FormatMembersWellGuarded(part: PartitionSpec, i: nat, members: seq<string>)
    requires members != []
    ensures AllWellGuarded(FormatMembersProg(part, i, members))
  {
    if !part.IsMultidisk() {
      forall k | 0 <= k < |members| { FormatWellGuarded(members[k], part, [], None); }
      FlattenWellGuarded(FormatEach(members, part));
    } else {
      FormatWellGuarded(members[0], part, members[1..], RaidValue(part.raidLevel));
      FormatWellGuarded(MdDevice(i), part, [], None);
    }
  }

  lemma MembersNonEmpty(layout: DiskLayout, a: Assignments, i: nat)
    requires RolesAssigned(layout, a) && i < |layout.partitions|
    ensures Members(layout, a, i) != []
  {
  }

  lemma MembersAvailable(layout: DiskLayout, a: Assignments, i: nat, w: World)
    requires RolesAssigned(layout, a) && i < |layout.partitions| && Formatted(layout, a, i, w)
    ensures Available(w, Members(layout, a, i))
    ensures MdDevice(i) !in w.used && MdDevice(i) !in Members(layout, a, i)
  {
    var members := Members(layout, a, i);
    MembersDistinct(layout, a, i);
    assert MembersIn(layout, a, w, i);
    forall k | 0 <= k < |members| ensures members[k] !in w.used && members[k] != MdDevice(i) {
      MemberDisk(layout, a, i, k);
      MdIsNoPartition(PathsOf(a, layout.partitions[i].TargetRole())[k], LocalNum(layout.partitions, i), i);
      if members[k] in w.used {
        var j :| 0 <= j < i && Owns(layout, a, j, members[k]);
        MdIsNoPartition(PathsOf(a, layout.partitions[i].TargetRole())[k], LocalNum(layout.partitions, i), j);
        var x :| 0 <= x < |Members(layout, a, j)| && Members(layout, a, j)[x] == members[k];
        MembersDisjoint(layout, a, j, i, x, k);
      }
    }
    if MdDevice(i) in w.used {
      var j :| 0 <= j < i && Owns(layout, a, j, MdDevice(i));
      if MdDevice(i) == MdDevice(j) { MdInjective(i, j); }
      var x :| 0 <= x < |Members(layout, a, j)| && Members(layout, a, j)[x] == MdDevice(i);
      MemberDisk(layout, a, j, x);
      MdIsNoPartition(PathsOf(a, layout.partitions[j].TargetRole())[x], LocalNum(layout.partitions, j), i);
    }
  }

  lemma FormatKeeps(layout: DiskLayout, a: Assignments, i: nat, w: World)
    requires RolesAssigned(layout, a) && i < |layout.partitions| && Formatted(layout, a, i, w)
    ensures SafeProg(Targets(a), w, FormatProgs(layout, a)[i])
    ensures !Aborts(FormatProgs(layout, a)[i]) ==> Formatted(layout, a, i + 1, EndWorld(w, FormatProgs(layout, a)[i]))
  {
    hide FormatMembersProg, RolesAssigned, SafeProg, Available, UsesMd;
    var members := Members(layout, a, i);
    var prog := FormatProgs(layout, a)[i];
    MembersNonEmpty(layout, a, i);
    MembersAvailable(layout, a, i, w);
    FormatMembersSafe(Targets(a), w, layout.partitions[i], i, members);
    if !Aborts(prog) {
      var end := EndWorld(w, prog);
      forall j | 0 <= j < |layout.partitions| ensures MembersIn(layout, a, end, j) {
        assert MembersIn(layout, a, w, j);
      }
      forall j: nat | i + 1 <= j ensures MdDevice(j) !in end.nodes {
        if MdDevice(j) == MdDevice(i) { MdInjective(j, i); }
      }
      forall n | n in end.used ensures exists j :: 0 <= j < i + 1 && Owns(layout, a, j, n) {
        if n in w.used {
          var j :| 0 <= j < i && Owns(layout, a, j, n);
        } else {
          assert Owns(layout, a, i, n);
        }
      }
    }
  }

  lemma FormatsSafe(layout: DiskLayout, a: Assignments, w: World)
    requires RolesAssigned(layout, a) && Formatted(layout, a, 0, w)
    ensures SafeProg(Targets(a), w, Flatten(FormatProgs(layout, a)))
    ensures !Aborts(Flatten(FormatProgs(layout, a))) ==>
              Formatted(layout, a, |layout.partitions|, EndWorld(w, Flatten(FormatProgs(layout, a))))
  {
    var progs := FormatProgs(layout, a);
    var inv := (i: int, w: World) => Formatted(layout, a, i, w);
    forall i | 0 <= i < |progs| ensures Keeps(Targets(a), inv, progs[i], i) {
      MembersNonEmpty(layout, a, i);
      FormatMembersWellGuarded(layout.partitions[i], i, Members(layout, a, i));
      forall w' | inv(i, w')
        ensures SafeProg(Targets(a), w', progs[i]) && (!Aborts(progs[i]) ==> inv(i + 1, EndWorld(w', progs[i])))
      {
        FormatKeeps(layout, a, i, w');
      }
    }
    LoopSafe(Targets(a), inv, progs, w);
  }

  /** Once everything is partitioned, the nodes of every partition exist and no array does. */
  lemma PartitionedIsFormatted0(layout: DiskLayout, a: Assignments, w: World)
    requires RolesAssigned(layout, a)
    requires Partitioned(Targets(a), CountsUpTo(layout, a, UsedRoles(layout), |UsedRoles(layout)|), w)
    ensures Formatted(layout, a, 0, w)
  {
    var roles := UsedRoles(layout);
    UsedRolesAssigned(layout, a);
    forall j | 0 <= j < |layout.partitions| ensures MembersIn(layout, a, w, j) {
      forall k | 0 <= k < |Members(layout, a, j)| ensures Members(layout, a, j)[k] in w.nodes {
        MemberExists(layout, a, w, j, k);
      }
    }
    forall j: nat ensures MdDevice(j) !in w.nodes {
      if IsPartition(Targets(a), w, MdDevice(j)) {
        var d, k :| d in Targets(a) && 1 <= k <= w.Count(d) && MdDevice(j) == PartName(d, k);
        TargetsAreWholeDisks(a);
        MdIsNoPartition(d, k, j);
      }
    }
  }

  lemma UsedRolesAssigned(layout: DiskLayout, a: Assignments)
    requires RolesAssigned(layout, a)
    ensures AssignedRoles(a, UsedRoles(layout))
  {
    UsedRolesFacts(layout);
    forall r | 0 <= r < |UsedRoles(layout)| ensures UsedRoles(layout)[r] in a.entries {
      assert UsedRoles(layout)[r] in UsedRoles(layout);
    }
  }

  lemma MemberExists(layout: DiskLayout, a: Assignments, w: World, j: nat, k: nat)
    requires RolesAssigned(layout, a) && j < |layout.partitions| && k < |Members(layout, a, j)|
    requires Partitioned(Targets(a), CountsUpTo(layout, a, UsedRoles(layout), |UsedRoles(layout)|), w)
    ensures Members(layout, a, j)[k] in w.nodes
  {
    hide UsedRoles, CountsUpTo, PartName, WholeDisk, DisjointDisks, AssignedRoles;
    var roles, role := UsedRoles(layout), layout.partitions[j].TargetRole();
    UsedRolesAssigned(layout, a);
    UsedRolesFacts(layout);
    var r :| 0 <= r < |roles| && roles[r] == role;
    MemberDisk(layout, a, j, k);
    var p := PathsOf(a, role)[k];
    CountOfDisk(layout, a, roles, r, |roles|, p);
    LocalNumIndex(layout.partitions, j);
    assert p in Targets(a) && 1 <= LocalNum(layout.partitions, j) <= w.Count(p);
  }

  // ---- Mounting ----

  /** The program names no node but `path` and changes nothing about the disks. */
  ghost predicate OnlyMounts(targets: set<string>, path: string, prog: seq<Step>) {
    && AllWellGuarded(prog) && !Aborts(prog)
    && forall w: World :: path in w.nodes ==> SafeProg(targets, w, prog) && EndWorld(w, prog) == w
  }

  lemma MountsOne(targets: set<string>, path: string, c: Command)
    requires c.Mount? || c.MountTop?
    requires c.node == path
    ensures OnlyMounts(targets, path, [Run(c)])
  {
    forall w: World | path in w.nodes ensures SafeProg(targets, w, [Run(c)]) && EndWorld(w, [Run(c)]) == w {
      OneCommand(targets, w, c);
    }
  }

  lemma MountsThen(targets: set<string>, path: string, p: seq<Step>, q: seq<Step>)
    requires OnlyMounts(targets, path, p) && OnlyMounts(targets, path, q)
    ensures OnlyMounts(targets, path, p + q)
  {
    assert forall i :: 0 <= i < |p + q| ==> (p + q)[i] == if i < |p| then p[i] else q[i - |p|];
    assert forall s :: s in p + q <==> s in p || s in q;
    forall w: World | path in w.nodes ensures SafeProg(targets, w, p + q) && EndWorld(w, p + q) == w {
      SafeProgConcat(targets, w, p, q);
    }
  }

  lemma MountsNothing(targets: set<string>, path: string)
    ensures OnlyMounts(targets, path, [])
  {
  }

  lemma {:induction false} MountsEach(targets: set<string>, path: string, progs: seq<seq<Step>>)
    requires forall i :: 0 <= i < |progs| ==> OnlyMounts(targets, path, progs[i])
    ensures OnlyMounts(targets, path, Flatten(progs))
    decreases |progs|
  {
    if progs == [] {
      MountsNothing(targets, path);
    } else {
      MountsEach(targets, path, progs[..|progs| - 1]);
      MountsThen(targets, path, Flatten(progs[..|progs| - 1]), progs[|progs| - 1]);
    }
  }

  lemma {:induction false} SubvolumeCommands(targets: set<string>, w: World, path: string, cmds: seq<Command>)
    requires path in w.nodes && forall i :: 0 <= i < |cmds| ==> cmds[i].CreateSubvolume? && cmds[i].node == path
    ensures Safe(targets, w, cmds) && AfterTrace(w, cmds) == w
    decreases |cmds|
  {
    if cmds != [] {
      assert Allowed(targets, w, cmds[0]) && Next(w, cmds[0]) == w;
      SubvolumeCommands(targets, w, path, cmds[1..]);
    }
  }

  lemma MountsGuarded(targets: set<string>, path: string, part: PartitionSpec)
    ensures OnlyMounts(targets, path, [Guarded(CreateSubvolumes(path, part), UmountTop(path))])
  {
    var step := Guarded(CreateSubvolumes(path, part), UmountTop(path));
    forall w: World | path in w.nodes ensures SafeProg(targets, w, [step]) && EndWorld(w, [step]) == w {
      SubvolumeCommands(targets, w, path, step.body);
      SafeConcat(targets, w, step.body, [step.cleanup]);
      assert [step.cleanup][1..] == [] && [step][1..] == [];
      assert Commands([step]) == step.body + [step.cleanup] + [];
      assert Commands([step]) == step.body + [step.cleanup];
    }
  }

  lemma MountSafe(targets: set<string>, path: string, part: PartitionSpec)
    ensures OnlyMounts(targets, path, MountOrSubvolumes(path, part))
  {
    if HasSubvolumes(part) {
      MountsOne(targets, path, MountTop(path));
      MountsGuarded(targets, path, part);
      MountsThen(targets, path, [Run(MountTop(path))], [Guarded(CreateSubvolumes(path, part), UmountTop(path))]);
      var root := RootSubvolume(part.subvolumes);
      if root.None? {
        MountsNothing(targets, path);
      } else {
        MountsOne(targets, path, Mount(path, SubvolumeOptions(root.value, part), "/mnt"));
      }
      var children := ChildSubvolumes(part.subvolumes);
      forall i | 0 <= i < |children| ensures OnlyMounts(targets, path, MountChildren(path, part, children)[i]) {
        MountsOne(targets, path, MountChildren(path, part, children)[i][0].cmd);
      }
      MountsEach(targets, path, MountChildren(path, part, children));
      MountsThen(targets, path, MakeSubvolumes(path, part), MountRootSubvolume(path, part));
      MountsThen(targets, path, MakeSubvolumes(path, part) + MountRootSubvolume(path, part),
                 Flatten(MountChildren(path, part, children)));
    } else if part.mountPoint.None? {
      MountsNothing(targets, path);
    } else {
      MountsOne(targets, path, MountProg(path, part)[0].cmd);
    }
  }

  lemma MountsSafe(layout: DiskLayout, a: Assignments, w: World)
    requires Formatted(layout, a, |layout.partitions|, w)
    ensures SafeProg(Targets(a), w, MountRoot(layout.partitions, EffectiveNodes(layout, a)))
    ensures EndWorld(w, MountRoot(layout.partitions, EffectiveNodes(layout, a))) == w
    ensures SafeProg(Targets(a), w, Flatten(MountOthers(layout.partitions, EffectiveNodes(layout, a), true)))
    ensures !Aborts(Flatten(MountOthers(layout.partitions, EffectiveNodes(layout, a), true))) ==>
              EndWorld(w, Flatten(MountOthers(layout.partitions, EffectiveNodes(layout, a), true))) == w
  {
    var parts, nodes := layout.partitions, EffectiveNodes(layout, a);
    var r := RootIndex(parts, 0);
    if r < |parts| {
      MountSafe(Targets(a), nodes[r], parts[r]);
      assert nodes[r] in w.nodes;
    }
    var progs := MountOthers(parts, nodes, true);
    var inv := (i: int, w': World) => w' == w;
    forall i | 0 <= i < |progs| ensures Keeps(Targets(a), inv, progs[i], i) {
      MountSafe(Targets(a), nodes[i], parts[i]);
      MountsNothing(Targets(a), nodes[i]);
      assert nodes[i] in w.nodes;
    }
    LoopSafe(Targets(a), inv, progs, w);
  }

  // ---- The whole program ----

  /** What holds between the phases of the applier. */
  ghost predicate Phase(layout: DiskLayout, a: Assignments, i: int, w: World) {
    if i == 0 then w == UNTOUCHED
    else if i == 1 then Partitioned(Targets(a), CountsUpTo(layout, a, UsedRoles(layout), 0), w)
    else if i <= 4 then Partitioned(Targets(a), CountsUpTo(layout, a, UsedRoles(layout), |UsedRoles(layout)|), w)
    else Formatted(layout, a, |layout.partitions|, w)
  }

  ghost function PhaseInv(layout: DiskLayout, a: Assignments): (int, World) -> bool {
    (i, w) => Phase(layout, a, i, w)
  }

  lemma WipeProgWellGuarded(d: string)
    ensures AllWellGuarded(WipeProg(d)) && AllWellGuarded(PartProbeProg(d))
  {
  }

  lemma WipesSafe(a: Assignments)
    requires a.Valid()
    ensures var prog := Flatten(Map(WipeProg, AllDisks(a, |a.keys|)));
            && SafeProg(Targets(a), UNTOUCHED, prog)
            && (!Aborts(prog) ==> Wiped(AllDisks(a, |a.keys|), |AllDisks(a, |a.keys|)|, EndWorld(UNTOUCHED, prog)))
  {
    var disks := AllDisks(a, |a.keys|);
    var progs := Map(WipeProg, disks);
    var inv := (i: int, w: World) => Wiped(disks, i, w);
    AllDisksAreTargets(a);
    forall i | 0 <= i < |progs| ensures Keeps(Targets(a), inv, progs[i], i) {
      assert disks[i] in disks;
      WipeKeeps(Targets(a), disks, i);
    }
    LoopSafe(Targets(a), inv, progs, UNTOUCHED);
  }

  lemma WipedEverywhere(targets: set<string>, disks: seq<string>, counts: map<string, int>, w: World)
    requires Wiped(disks, |disks|, w) && (forall p :: p in targets ==> p in disks)
    requires forall d :: d in targets ==> d in counts && counts[d] == 0
    ensures Partitioned(targets, counts, w)
  {
    forall d | d in targets ensures w.Stage(d) == 3 && w.Count(d) == 0 {
      var i :| 0 <= i < |disks| && disks[i] == d;
    }
  }

  lemma WipedIsPartitioned0(layout: DiskLayout, a: Assignments, w: World)
    requires RolesAssigned(layout, a) && Wiped(AllDisks(a, |a.keys|), |AllDisks(a, |a.keys|)|, w)
    ensures Partitioned(Targets(a), CountsUpTo(layout, a, UsedRoles(layout), 0), w)
  {
    hide Wiped, Partitioned, AllDisks, UsedRoles;
    AllDisksAreTargets(a);
    WipedEverywhere(Targets(a), AllDisks(a, |a.keys|), CountsUpTo(layout, a, UsedRoles(layout), 0), w);
  }

  lemma WipePhase(layout: DiskLayout, a: Assignments)
    requires RolesAssigned(layout, a)
    ensures Keeps(Targets(a), PhaseInv(layout, a), Flatten(Map(WipeProg, AllDisks(a, |a.keys|))), 0)
  {
    var prog := Flatten(Map(WipeProg, AllDisks(a, |a.keys|)));
    WipesSafe(a);
    if !Aborts(prog) { WipedIsPartitioned0(layout, a, EndWorld(UNTOUCHED, prog)); }
  }

  lemma PartitionPhase(layout: DiskLayout, a: Assignments)
    requires RolesAssigned(layout, a)
    ensures Keeps(Targets(a), PhaseInv(layout, a), Flatten(CreateForRoles(layout, a)), 1)
  {
    UsedRolesAssigned(layout, a);
    forall r | 0 <= r < |UsedRoles(layout)| {
      CreateOnDevicesWellGuarded(layout, UsedRoles(layout)[r], a.Get(UsedRoles(layout)[r]).GetOr([]));
    }
    FlattenWellGuarded(CreateForRoles(layout, a));
    forall w | Phase(layout, a, 1, w)
      ensures SafeProg(Targets(a), w, Flatten(CreateForRoles(layout, a)))
      ensures !Aborts(Flatten(CreateForRoles(layout, a))) ==>
              Phase(layout, a, 2, EndWorld(w, Flatten(CreateForRoles(layout, a))))
    {
      CreateForRolesSafe(layout, a, w);
    }
  }

  lemma ProbePhase(layout: DiskLayout, a: Assignments)
    requires RolesAssigned(layout, a)
    ensures Keeps(Targets(a), PhaseInv(layout, a), Flatten(Map(PartProbeProg, AllDisks(a, |a.keys|))), 2)
  {
    var disks := AllDisks(a, |a.keys|);
    var progs := Map(PartProbeProg, disks);
    AllDisksAreTargets(a);
    forall i | 0 <= i < |progs| ensures AllWellGuarded(progs[i]) { WipeProgWellGuarded(disks[i]); }
    FlattenWellGuarded(progs);
    forall w | Phase(layout, a, 2, w)
      ensures SafeProg(Targets(a), w, Flatten(progs)) && (!Aborts(Flatten(progs)) ==> EndWorld(w, Flatten(progs)) == w)
    {
      var inv := (i: int, w': World) => w' == w;
      forall i | 0 <= i < |progs| ensures Keeps(Targets(a), inv, progs[i], i) {
        assert disks[i] in disks;
        OneCommand(Targets(a), w, PartProbe(disks[i]));
      }
      LoopSafe(Targets(a), inv, progs, w);
    }
  }

  lemma SettlePhase(layout: DiskLayout, a: Assignments)
    ensures Keeps(Targets(a), PhaseInv(layout, a), [Run(Settle)], 3)
  {
    forall w | Phase(layout, a, 3, w)
      ensures SafeProg(Targets(a), w, [Run(Settle)]) && Phase(layout, a, 4, EndWorld(w, [Run(Settle)]))
    {
      OneCommand(Targets(a), w, Settle);
    }
  }

  lemma FormatPhase(layout: DiskLayout, a: Assignments)
    requires RolesAssigned(layout, a)
    ensures Keeps(Targets(a), PhaseInv(layout, a), Flatten(FormatProgs(layout, a)), 4)
  {
    forall i | 0 <= i < |layout.partitions| ensures AllWellGuarded(FormatProgs(layout, a)[i]) {
      MembersNonEmpty(layout, a, i);
      FormatMembersWellGuarded(layout.partitions[i], i, Members(layout, a, i));
    }
    FlattenWellGuarded(FormatProgs(layout, a));
    forall w | Phase(layout, a, 4, w)
      ensures SafeProg(Targets(a), w, Flatten(FormatProgs(layout, a)))
      ensures !Aborts(Flatten(FormatProgs(layout, a))) ==>
              Phase(layout, a, 5, EndWorld(w, Flatten(FormatProgs(layout, a))))
    {
      PartitionedIsFormatted0(layout, a, w);
      FormatsSafe(layout, a, w);
    }
  }

  lemma MountPhases(layout: DiskLayout, a: Assignments)
    ensures Keeps(Targets(a), PhaseInv(layout, a), MountRoot(layout.partitions, EffectiveNodes(layout, a)), 5)
    ensures Keeps(Targets(a), PhaseInv(layout, a),
                  Flatten(MountOthers(layout.partitions, EffectiveNodes(layout, a), true)), 6)
  {
    var parts, nodes := layout.partitions, EffectiveNodes(layout, a);
    var r := RootIndex(parts, 0);
    if r < |parts| { MountSafe(Targets(a), nodes[r], parts[r]); }
    forall i | 0 <= i < |parts|
      ensures AllWellGuarded(MountOthers(parts, nodes, true)[i])
    {
      MountSafe(Targets(a), nodes[i], parts[i]);
    }
    FlattenWellGuarded(MountOthers(parts, nodes, true));
    forall w | Formatted(layout, a, |parts|, w) { MountsSafe(layout, a, w); }
  }

  lemma SevenPhases(targets: set<string>, inv: (int, World) -> bool, w: World, p: seq<seq<Step>>)
    requires |p| == 7 && inv(0, w)
    requires Keeps(targets, inv, p[0], 0) && Keeps(targets, inv, p[1], 1) && Keeps(targets, inv, p[2], 2)
    requires Keeps(targets, inv, p[3], 3) && Keeps(targets, inv, p[4], 4) && Keeps(targets, inv, p[5], 5)
    requires Keeps(targets, inv, p[6], 6)
    ensures SafeProg(targets, w, Flatten(p))
  {
    LoopSafe(targets, inv, p, w);
  }

  lemma FirstPhaseHolds(layout: DiskLayout, a: Assignments)
    ensures PhaseInv(layout, a)(0, UNTOUCHED)
  {
  }

  lemma ResolvedProgramSafe(layout: DiskLayout, a: Assignments)
    requires DisjointDisks(a)
    ensures SafeProg(Targets(a), UNTOUCHED, ResolvedProgram(layout, a))
  {
    hide Keeps, SafeProg, PhaseInv, CreateForRoles, FormatProgs, MountRoot;
    hide MountOthers, AllDisks, Applicable, EffectiveNodes;
    if !Applicable(layout, a) {
      AbortSafe(Targets(a), UNTOUCHED);
    } else {
      FirstPhaseHolds(layout, a);
      WipePhase(layout, a);
      PartitionPhase(layout, a);
      ProbePhase(layout, a);
      SettlePhase(layout, a);
      FormatPhase(layout, a);
      MountPhases(layout, a);
      SevenPhases(Targets(a), PhaseInv(layout, a), UNTOUCHED, ResolvedPhases(layout, a));
    }
  }

  /**
   * Whatever commands fail, the trace keeps to the rules: only assigned disks are named, each is wiped at
   * most once and before anything is partitioned, and every node is consumed at most once, after it was made.
   */
  lemma EveryRunIsSafe(layout: DiskLayout, a: Assignments, fails: Fails)
    requires DisjointDisks(a)
    ensures Safe(Targets(a), UNTOUCHED, Exec(ResolvedProgram(layout, a), fails, 0).trace)
  {
    ResolvedProgramSafe(layout, a);
    RunSafe(Targets(a), UNTOUCHED, ResolvedProgram(layout, a), fails, 0);
  }

  lemma {:induction false} FlattenContains(progs: seq<seq<Step>>, i: nat, c: Command)
    requires i < |progs| && !Aborts(Flatten(progs)) && c in Commands(progs[i])
    ensures c in Commands(Flatten(progs))
    decreases |progs|
  {
    hide Commands;
    var n := |progs| - 1;
    CommandsConcat(Flatten(progs[..n]), progs[n]);
    assert forall s :: s in Flatten(progs[..n]) ==> s in Flatten(progs);
    if i < n { FlattenContains(progs[..n], i, c); }
  }

  lemma WipeCommands(d: string)
    ensures Wipefs(d) in Commands(WipeProg(d)) && ZapAll(d) in Commands(WipeProg(d))
            && ClearTable(d) in Commands(WipeProg(d))
  {
    var p := WipeProg(d);
    CommandsCons(p);
    CommandsCons(p[1..]);
    CommandsCons(p[1..][1..]);
    assert Commands(p) == [Wipefs(d)] + ([ZapAll(d)] + ([ClearTable(d)] + Commands(p[1..][1..][1..])));
  }

  /** A run that reaches the end has wiped every assigned disk. */
  lemma CompleteRunsWipeAll(layout: DiskLayout, a: Assignments, fails: Fails, d: string)
    requires DisjointDisks(a) && d in Targets(a)
    requires Exec(ResolvedProgram(layout, a), fails, 0).ok
    ensures var trace := Exec(ResolvedProgram(layout, a), fails, 0).trace;
            Wipefs(d) in trace && ZapAll(d) in trace && ClearTable(d) in trace
  {
    RunDone(ResolvedProgram(layout, a), fails, 0);
    AllDisksAreTargets(a);
    var disks := AllDisks(a, |a.keys|);
    var i :| 0 <= i < |disks| && disks[i] == d;
    WipeCommands(d);
    FlattenAborts(ResolvedPhases(layout, a));
    assert !Aborts(ResolvedPhases(layout, a)[0]);
    forall c | c in [Wipefs(d), ZapAll(d), ClearTable(d)] ensures c in Commands(ResolvedProgram(layout, a)) {
      FlattenContains(Map(WipeProg, disks), i, c);
      FlattenContains(ResolvedPhases(layout, a), 0, c);
    }
  }
}
