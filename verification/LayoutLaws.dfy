/** What a validated layout and a successful resolution give the applier. */
module LayoutLaws {
  import opened Text
  import opened Sorting
  import opened Wrappers
  import opened Dicts
  import opened Disk
  import opened PartitionNames
  import opened DiskLayout
  import opened GreedyClaims
  import opened RoleResolution
  import opened ResolutionLaws
  import opened CommandRunner
  import opened LayoutPrograms
  import W = DiskWorld
  import S = ApplierSafety
  import L = LegacyRefinement
  import A = LayoutAborts

  // ---- The partitions made on one disk ----

  predicate MakesPartitionOn(c: Command, disk: string) {
    c.NewPartition? && c.disk == disk
  }

  /** The commands in `trace` that create a partition on `disk`. */
  function PartitionsOn(trace: seq<Command>, disk: string): seq<Command> {
    Filter(trace, c => MakesPartitionOn(c, disk))
  }

  ghost predicate ValidIndices(parts: seq<PartitionSpec>, indices: seq<int>) {
    forall j :: 0 <= j < |indices| ==> 0 <= indices[j] < |parts|
  }

  /** How many of these partitions come before the first whose size does not parse. */
  ghost function Parsed(parts: seq<PartitionSpec>, indices: seq<int>): (n: nat)
    requires ValidIndices(parts, indices)
    ensures n <= |indices|
    ensures forall j :: 0 <= j < n ==> ParseSizeSpec(parts[indices[j]].size).Some?
    ensures n < |indices| ==> ParseSizeSpec(parts[indices[n]].size).None?
  {
    if indices == [] || ParseSizeSpec(parts[indices[0]].size).None? then 0
    else
      assert forall j :: 1 <= j < |indices| ==> indices[j] == indices[1..][j - 1];
      1 + Parsed(parts, indices[1..])
  }

  /** The partition with layout index `indices[k]` on a disk where it is the `k`-th. */
  ghost function ExpectedPartition(parts: seq<PartitionSpec>, indices: seq<int>, disk: string, k: int): Command
    requires ValidIndices(parts, indices) && 0 <= k < Parsed(parts, indices)
  {
    var part := parts[indices[k]];
    NewPartition(disk, k + 1, "0:" + ParseSizeSpec(part.size).value, TypeCode(part.filesystem), part.partLabel)
  }

  ghost function FirstExpected(parts: seq<PartitionSpec>, indices: seq<int>, disk: string, n: nat): seq<Command>
    requires ValidIndices(parts, indices) && n <= Parsed(parts, indices)
  {
    seq(n, k requires 0 <= k < n => ExpectedPartition(parts, indices, disk, k))
  }

  /** The partitions of a role on one disk, up to a size that does not parse: numbered 1, 2, ... in layout order. */
  ghost function ExpectedPartitions(layout: DiskLayout, role: string, disk: string): seq<Command> {
    var indices := RoleIndices(layout, role);
    FirstExpected(layout.partitions, indices, disk, Parsed(layout.partitions, indices))
  }

  lemma PartitionsConcat(x: seq<Command>, y: seq<Command>, disk: string)
    ensures PartitionsOn(x + y, disk) == PartitionsOn(x, disk) + PartitionsOn(y, disk)
  {
    FilterConcat(x, y, c => MakesPartitionOn(c, disk));
  }

  lemma {:induction false} NoPartitions(trace: seq<Command>, disk: string)
    requires forall i :: 0 <= i < |trace| ==> !MakesPartitionOn(trace[i], disk)
    ensures PartitionsOn(trace, disk) == []
  {
    if trace != [] { NoPartitions(trace[1..], disk); }
  }

  lemma ProgConcat(p: seq<Step>, q: seq<Step>, disk: string)
    ensures PartitionsOn(W.Commands(p + q), disk) ==
            PartitionsOn(W.Commands(p), disk) + if W.Aborts(p) then [] else PartitionsOn(W.Commands(q), disk)
    ensures W.Aborts(p + q) <==> W.Aborts(p) || W.Aborts(q)
  {
    W.CommandsConcat(p, q);
    PartitionsConcat(W.Commands(p), if W.Aborts(p) then [] else W.Commands(q), disk);
    assert forall s :: s in p + q <==> s in p || s in q;
  }

  /** The piece makes exactly these partitions on `disk`, or the first few of them if it raises. */
  predicate Contributes(p: seq<Step>, disk: string, made: seq<Command>) {
    PartitionsOn(W.Commands(p), disk) <= made && (!W.Aborts(p) ==> PartitionsOn(W.Commands(p), disk) == made)
  }

  lemma ContributesConcat(p: seq<Step>, q: seq<Step>, disk: string, x: seq<Command>, y: seq<Command>)
    requires Contributes(p, disk, x) && Contributes(q, disk, y)
    ensures Contributes(p + q, disk, x + y)
  {
    hide PartitionsOn;
    ProgConcat(p, q, disk);
    var made := PartitionsOn(W.Commands(q), disk);
    assert x + made <= x + y;
  }

  /** Whatever follows a piece that raises does not count. */
  lemma ContributesAborted(p: seq<Step>, q: seq<Step>, disk: string, made: seq<Command>)
    requires Contributes(p, disk, made) && W.Aborts(p)
    ensures Contributes(p + q, disk, made) && W.Aborts(p + q)
  {
    hide PartitionsOn;
    ProgConcat(p, q, disk);
    assert PartitionsOn(W.Commands(p), disk) + [] == PartitionsOn(W.Commands(p), disk);
  }

  lemma {:induction false} NoneContribute(progs: seq<seq<Step>>, disk: string)
    requires forall i :: 0 <= i < |progs| ==> Contributes(progs[i], disk, [])
    ensures Contributes(Flatten(progs), disk, [])
    decreases |progs|
  {
    if progs != [] {
      var n := |progs| - 1;
      NoneContribute(progs[..n], disk);
      ContributesConcat(Flatten(progs[..n]), progs[n], disk, [], []);
    }
  }

  lemma OneContributes(progs: seq<seq<Step>>, x: nat, disk: string, made: seq<Command>)
    requires x < |progs| && Contributes(progs[x], disk, made)
    requires forall i :: 0 <= i < |progs| && i != x ==> Contributes(progs[i], disk, [])
    ensures Contributes(Flatten(progs), disk, made)
  {
    NoneContribute(progs[..x], disk);
    NoneContribute(progs[x + 1..], disk);
    ContributesConcat(Flatten(progs[..x]), progs[x], disk, [], made);
    ContributesConcat(Flatten(progs[..x]) + progs[x], Flatten(progs[x + 1..]), disk, [] + made, []);
    L.FlattenAround(progs, x);
    assert [] + made + [] == made;
  }

  /** Steps that create no partition at all. */
  predicate Partitionless(prog: seq<Step>) {
    forall i :: 0 <= i < |prog| ==>
      && !prog[i].Abort?
      && (prog[i].Run? ==> !prog[i].cmd.NewPartition?)
      && (prog[i].Guarded? ==> W.WellGuarded(prog[i]))
  }

  lemma {:induction false} PartitionlessContributes(prog: seq<Step>, disk: string)
    requires Partitionless(prog)
    ensures Contributes(prog, disk, [])
    decreases |prog|
  {
    if prog != [] {
      PartitionlessContributes(prog[1..], disk);
      W.CommandsCons(prog);
      var first := W.StepCommands(prog[0]);
      NoPartitions(first, disk);
      PartitionsConcat(first, W.Commands(prog[1..]), disk);
    }
  }

  lemma {:induction false} FlattenPartitionless(progs: seq<seq<Step>>)
    requires forall i :: 0 <= i < |progs| ==> Partitionless(progs[i])
    ensures Partitionless(Flatten(progs))
    decreases |progs|
  {
    if progs != [] {
      FlattenPartitionless(progs[..|progs| - 1]);
      var p, q := Flatten(progs[..|progs| - 1]), progs[|progs| - 1];
      assert forall i :: 0 <= i < |p + q| ==> (p + q)[i] == if i < |p| then p[i] else q[i - |p|];
    }
  }

  // ---- The creation phase ----

  function Smaller(m: nat, n: nat): nat {
    if m <= n then m else n
  }

  lemma ExpectedSnoc(parts: seq<PartitionSpec>, indices: seq<int>, disk: string, k: nat)
    requires ValidIndices(parts, indices) && k < Parsed(parts, indices)
    ensures FirstExpected(parts, indices, disk, k + 1) ==
            FirstExpected(parts, indices, disk, k) + [ExpectedPartition(parts, indices, disk, k)]
  {
    hide ExpectedPartition, Parsed;
  }

  lemma CreateProgMakes(parts: seq<PartitionSpec>, indices: seq<int>, device: string, k: nat) returns (c: Command)
    requires ValidIndices(parts, indices) && k < Parsed(parts, indices)
    ensures c == ExpectedPartition(parts, indices, device, k)
    ensures CreateProg(device, k + 1, parts[indices[k]]) == [Run(c)]
    ensures c.NewPartition? && c.disk == device
  {
    hide Parsed, ParseSizeSpec;
    c := ExpectedPartition(parts, indices, device, k);
  }

  /** One more partition, with a size that parses. */
  lemma CreatesOne(p: seq<Step>, parts: seq<PartitionSpec>, indices: seq<int>, k: nat, device: string, disk: string)
    requires ValidIndices(parts, indices) && k < Parsed(parts, indices)
    requires Contributes(p, disk, if device == disk then FirstExpected(parts, indices, disk, k) else [])
    ensures Contributes(p + CreateProg(device, k + 1, parts[indices[k]]), disk,
                        if device == disk then FirstExpected(parts, indices, disk, k + 1) else [])
  {
    hide Contributes, Parsed, FirstExpected, ExpectedPartition, CreateProg;
    var c := CreateProgMakes(parts, indices, device, k);
    SingleContributes(c, disk);
    if device == disk {
      ContributesConcat(p, [Run(c)], disk, FirstExpected(parts, indices, disk, k), [c]);
      ExpectedSnoc(parts, indices, disk, k);
    } else {
      ContributesConcat(p, [Run(c)], disk, [], []);
      var none: seq<Command> := [];
      assert none + none == none;
    }
  }

  lemma AbortContributes(disk: string)
    ensures Contributes([Abort], disk, []) && W.Aborts([Abort])
  {
  }

  /** What the first `k` pieces of the creation on `device` contribute on `disk`, and whether they raise. */
  ghost predicate Created(p: seq<Step>, parts: seq<PartitionSpec>, indices: seq<int>, k: nat, device: string,
                          disk: string)
    requires ValidIndices(parts, indices)
  {
    && Contributes(p, disk,
                   if device == disk then FirstExpected(parts, indices, disk, Smaller(k, Parsed(parts, indices)))
                   else [])
    && (W.Aborts(p) <==> k > Parsed(parts, indices))
  }

  lemma CreatedParsed(p: seq<Step>, parts: seq<PartitionSpec>, indices: seq<int>, k: nat, device: string, disk: string)
    requires ValidIndices(parts, indices) && k < Parsed(parts, indices) && Created(p, parts, indices, k, device, disk)
    ensures Created(p + CreateProg(device, k + 1, parts[indices[k]]), parts, indices, k + 1, device, disk)
  {
    hide Contributes, Parsed, FirstExpected;
    CreatesOne(p, parts, indices, k, device, disk);
    var q := CreateProg(device, k + 1, parts[indices[k]]);
    ProgConcat(p, q, disk);
    RunNeverAborts(q);
  }

  lemma CreatedUnparsed(p: seq<Step>, parts: seq<PartitionSpec>, indices: seq<int>, k: nat, device: string,
                        disk: string)
    requires ValidIndices(parts, indices) && Parsed(parts, indices) <= k < |indices|
    requires Created(p, parts, indices, k, device, disk)
    ensures Created(p + CreateProg(device, k + 1, parts[indices[k]]), parts, indices, k + 1, device, disk)
  {
    hide Contributes, FirstExpected;
    var q := CreateProg(device, k + 1, parts[indices[k]]);
    var n := Parsed(parts, indices);
    var made := if device == disk then FirstExpected(parts, indices, disk, n) else [];
    if k == n {
      assert q == [Abort];
      AbortContributes(disk);
      ContributesConcat(p, q, disk, made, []);
      assert made + [] == made;
      ProgConcat(p, q, disk);
    } else {
      ContributesAborted(p, q, disk, made);
    }
  }

  lemma {:induction false} CreatesPrefix(device: string, parts: seq<PartitionSpec>, indices: seq<int>, k: nat,
                                         disk: string)
    requires k <= |indices| && ValidIndices(parts, indices)
    ensures Created(Flatten(CreateProgs(device, parts, indices)[..k]), parts, indices, k, device, disk)
  {
    hide Created, Parsed, CreateProg;
    var progs := CreateProgs(device, parts, indices);
    if k == 0 {
      assert progs[..0] == [];
      NothingCreated(parts, indices, device, disk);
    } else {
      CreatesPrefix(device, parts, indices, k - 1, disk);
      FlattenSnoc(progs, k - 1);
      if k - 1 < Parsed(parts, indices) {
        CreatedParsed(Flatten(progs[..k - 1]), parts, indices, k - 1, device, disk);
      } else {
        CreatedUnparsed(Flatten(progs[..k - 1]), parts, indices, k - 1, device, disk);
      }
    }
  }

  lemma NothingCreated(parts: seq<PartitionSpec>, indices: seq<int>, device: string, disk: string)
    requires ValidIndices(parts, indices)
    ensures Created([], parts, indices, 0, device, disk)
  {
    hide Parsed;
    NothingContributes(disk);
    assert FirstExpected(parts, indices, disk, 0) == [];
  }

  lemma RunNeverAborts(p: seq<Step>)
    requires |p| == 1 && p[0].Run?
    ensures !W.Aborts(p)
  {
  }

  lemma NothingContributes(disk: string)
    ensures Contributes([], disk, []) && !W.Aborts([])
  {
  }

  lemma SingleContributes(c: Command, disk: string)
    ensures Contributes([Run(c)], disk, if MakesPartitionOn(c, disk) then [c] else [])
  {
    W.CommandsCons([Run(c)]);
    assert [Run(c)][1..] == [] && W.Commands([Run(c)]) == [c];
    var on := c => MakesPartitionOn(c, disk);
    assert Filter([c], on) == (if on(c) then [c] else []) + Filter([c][1..], on);
    assert Filter([c][1..], on) == [];
  }

  lemma CreateAllContributes(layout: DiskLayout, role: string, device: string, disk: string)
    ensures Contributes(CreateAllProg(device, layout.partitions, RoleIndices(layout, role)), disk,
                        if device == disk then ExpectedPartitions(layout, role, disk) else [])
  {
    var indices := RoleIndices(layout, role);
    var progs := CreateProgs(device, layout.partitions, indices);
    IndicesExact(layout.partitions, role, |layout.partitions|);
    assert forall j :: 0 <= j < |indices| ==> indices[j] in indices;
    CreatesPrefix(device, layout.partitions, indices, |indices|, disk);
    assert progs[..|indices|] == progs;
  }

  lemma RoleContributes(layout: DiskLayout, role: string, devices: seq<BlockDevice>, disk: string)
    requires Distinct(DevicePaths(devices))
    ensures Contributes(Flatten(CreateOnDevices(layout, role, devices)), disk,
                        if disk in DevicePaths(devices) then ExpectedPartitions(layout, role, disk) else [])
  {
    var progs, paths := CreateOnDevices(layout, role, devices), DevicePaths(devices);
    forall k | 0 <= k < |devices|
      ensures Contributes(progs[k], disk, if paths[k] == disk then ExpectedPartitions(layout, role, disk) else [])
    {
      CreateAllContributes(layout, role, paths[k], disk);
    }
    if disk in paths {
      var x :| 0 <= x < |paths| && paths[x] == disk;
      OneContributes(progs, x, disk, ExpectedPartitions(layout, role, disk));
    } else {
      NoneContribute(progs, disk);
    }
  }

  lemma RolePieceContributes(layout: DiskLayout, a: Assignments, role: string, disk: string, r: nat)
    requires S.RolesAssigned(layout, a) && S.Holds(a, role, disk) && r < |UsedRoles(layout)|
    ensures Contributes(CreateForRoles(layout, a)[r], disk,
                        if UsedRoles(layout)[r] == role then ExpectedPartitions(layout, role, disk) else [])
  {
    var q := UsedRoles(layout)[r];
    S.UsedRolesAssigned(layout, a);
    RoleContributes(layout, q, a.Get(q).GetOr([]), disk);
    assert S.Holds(a, q, disk) <==> disk in S.PathsOf(a, q);
  }

  lemma UnusedRole(layout: DiskLayout, role: string)
    requires role !in UsedRoles(layout)
    ensures RoleIndices(layout, role) == []
  {
    S.UsedRolesFacts(layout);
    forall i | 0 <= i < |layout.partitions| ensures layout.partitions[i].TargetRole() != role {
      assert layout.partitions[i].TargetRole() in UsedRoles(layout);
    }
    NoIndicesYet(layout.partitions, role, |layout.partitions|);
  }

  lemma CreationContributes(layout: DiskLayout, a: Assignments, role: string, disk: string)
    requires S.RolesAssigned(layout, a) && S.Holds(a, role, disk)
    ensures Contributes(Flatten(CreateForRoles(layout, a)), disk, ExpectedPartitions(layout, role, disk))
  {
    var roles, progs := UsedRoles(layout), CreateForRoles(layout, a);
    S.UsedRolesFacts(layout);
    if x :| 0 <= x < |roles| && roles[x] == role {
      RolePieceContributes(layout, a, role, disk, x);
      forall r | 0 <= r < |progs| && r != x ensures Contributes(progs[r], disk, []) {
        assert roles[r] != roles[x];
        RolePieceContributes(layout, a, role, disk, r);
      }
      OneContributes(progs, x, disk, ExpectedPartitions(layout, role, disk));
    } else {
      UnusedRole(layout, role);
      forall r | 0 <= r < |progs| ensures Contributes(progs[r], disk, []) {
        RolePieceContributes(layout, a, role, disk, r);
      }
      NoneContribute(progs, disk);
    }
  }

  // ---- The other phases ----

  lemma WipesPartitionless(disks: seq<string>)
    ensures Partitionless(Flatten(Map(WipeProg, disks))) && Partitionless(Flatten(Map(PartProbeProg, disks)))
  {
    FlattenPartitionless(Map(WipeProg, disks));
    FlattenPartitionless(Map(PartProbeProg, disks));
  }

  /** A program that may raise, but whose steps create no partition. */
  predicate NoNewPartition(prog: seq<Step>) {
    forall i :: 0 <= i < |prog| ==>
      && (prog[i].Run? ==> !prog[i].cmd.NewPartition?)
      && W.WellGuarded(prog[i])
  }

  lemma {:induction false} NoNewPartitionMade(prog: seq<Step>, disk: string)
    requires NoNewPartition(prog)
    ensures PartitionsOn(W.Commands(prog), disk) == []
    decreases |prog|
  {
    if prog != [] && !prog[0].Abort? {
      NoNewPartitionMade(prog[1..], disk);
      W.CommandsCons(prog);
      var first := W.StepCommands(prog[0]);
      NoPartitions(first, disk);
      PartitionsConcat(first, W.Commands(prog[1..]), disk);
    }
  }

  lemma NoNewConcat(p: seq<Step>, q: seq<Step>)
    requires NoNewPartition(p) && NoNewPartition(q)
    ensures NoNewPartition(p + q)
  {
    assert forall i :: 0 <= i < |p + q| ==> (p + q)[i] == if i < |p| then p[i] else q[i - |p|];
  }

  lemma {:induction false} FlattenNoNew(progs: seq<seq<Step>>)
    requires forall i :: 0 <= i < |progs| ==> NoNewPartition(progs[i])
    ensures NoNewPartition(Flatten(progs))
    decreases |progs|
  {
    if progs != [] {
      FlattenNoNew(progs[..|progs| - 1]);
      NoNewConcat(Flatten(progs[..|progs| - 1]), progs[|progs| - 1]);
    }
  }

  lemma FormatNoNew(part: PartitionSpec, index: nat, members: seq<string>)
    requires members != []
    ensures NoNewPartition(FormatMembersProg(part, index, members))
  {
    FlattenNoNew(FormatEach(members, part));
  }

  lemma MountNoNew(path: string, part: PartitionSpec)
    ensures NoNewPartition(MountOrSubvolumes(path, part))
  {
    var children := ChildSubvolumes(part.subvolumes);
    FlattenNoNew(MountChildren(path, part, children));
    NoNewConcat(MakeSubvolumes(path, part), MountRootSubvolume(path, part));
    NoNewConcat(MakeSubvolumes(path, part) + MountRootSubvolume(path, part),
                Flatten(MountChildren(path, part, children)));
  }

  lemma FormatsNoNew(layout: DiskLayout, a: Assignments)
    ensures NoNewPartition(Flatten(FormatProgs(layout, a)))
  {
    forall i | 0 <= i < |layout.partitions| ensures NoNewPartition(FormatProgs(layout, a)[i]) {
      if Members(layout, a, i) != [] { FormatNoNew(layout.partitions[i], i, Members(layout, a, i)); }
    }
    FlattenNoNew(FormatProgs(layout, a));
  }

  lemma MountsNoNew(parts: seq<PartitionSpec>, nodes: seq<string>)
    requires |nodes| == |parts|
    ensures NoNewPartition(MountRoot(parts, nodes)) && NoNewPartition(Flatten(MountOthers(parts, nodes, true)))
  {
    forall i | 0 <= i < |parts| { MountNoNew(nodes[i], parts[i]); }
    FlattenNoNew(MountOthers(parts, nodes, true));
  }

  lemma SettleNoNew()
    ensures NoNewPartition([Run(Settle)])
  {
  }

  lemma NoNewContributes(prog: seq<Step>, disk: string)
    requires NoNewPartition(prog)
    ensures Contributes(prog, disk, [])
  {
    NoNewPartitionMade(prog, disk);
  }

  /** Only the second phase creates partitions, so the program makes what that phase makes. */
  lemma SecondPhaseOnly(p: seq<seq<Step>>, disk: string, made: seq<Command>)
    requires |p| == 7 && Partitionless(p[0]) && Contributes(p[1], disk, made)
    requires NoNewPartition(Flatten(p[2..]))
    ensures Contributes(Flatten(p), disk, made)
  {
    hide Contributes;
    PartitionlessContributes(p[0], disk);
    NoNewContributes(Flatten(p[2..]), disk);
    ContributesConcat(p[0], p[1], disk, [], made);
    ContributesConcat(p[0] + p[1], Flatten(p[2..]), disk, [] + made, []);
    A.TwoPhases(p);
    assert [] + made + [] == made;
  }

  lemma LaterPhasesNoNew(layout: DiskLayout, a: Assignments)
    ensures NoNewPartition(Flatten(ResolvedPhases(layout, a)[2..]))
  {
    var p := ResolvedPhases(layout, a)[2..];
    WipesPartitionless(AllDisks(a, |a.keys|));
    SettleNoNew();
    FormatsNoNew(layout, a);
    MountsNoNew(layout.partitions, EffectiveNodes(layout, a));
    assert NoNewPartition(p[0]) && NoNewPartition(p[1]) && NoNewPartition(p[2]) && NoNewPartition(p[3])
           && NoNewPartition(p[4]);
    FlattenNoNew(p);
  }

  /** Each assigned disk gets the partitions of its role, numbered densely from 1 in layout order. */
  lemma DensePartitions(layout: DiskLayout, a: Assignments, role: string, disk: string)
    requires S.RolesAssigned(layout, a) && S.Holds(a, role, disk)
    ensures Contributes(ResolvedProgram(layout, a), disk, ExpectedPartitions(layout, role, disk))
  {
    hide Contributes, CreateForRoles;
    WipesPartitionless(AllDisks(a, |a.keys|));
    CreationContributes(layout, a, role, disk);
    LaterPhasesNoNew(layout, a);
    SecondPhaseOnly(ResolvedPhases(layout, a), disk, ExpectedPartitions(layout, role, disk));
  }

  lemma {:induction false} GuardedBodyNoNew(body: seq<Command>, fails: Fails, n: int, disk: string)
    requires forall i :: 0 <= i < |body| ==> body[i].CreateSubvolume?
    ensures forall i :: 0 <= i < |ExecBody(body, fails, n).trace| ==> ExecBody(body, fails, n).trace[i].CreateSubvolume?
    decreases |body|
  {
    if body != [] { GuardedBodyNoNew(body[1..], fails, n + 1, disk); }
  }

  lemma StepMakesPrefix(step: Step, fails: Fails, n: int, disk: string)
    requires W.WellGuarded(step)
    ensures PartitionsOn(ExecStep(step, fails, n).trace, disk) == PartitionsOn(W.StepCommands(step), disk)
  {
    if step.Guarded? {
      GuardedBodyNoNew(step.body, fails, n, disk);
      NoPartitions(ExecStep(step, fails, n).trace, disk);
      NoPartitions(W.StepCommands(step), disk);
    }
  }

  /** A run that stops early has made the first few of the partitions of its program. */
  lemma {:induction false} RunMakesPrefix(prog: seq<Step>, fails: Fails, n: int, disk: string)
    requires W.AllWellGuarded(prog)
    ensures PartitionsOn(Exec(prog, fails, n).trace, disk) <= PartitionsOn(W.Commands(prog), disk)
    decreases |prog|
  {
    if prog != [] && !prog[0].Abort? {
      var o := ExecStep(prog[0], fails, n);
      StepMakesPrefix(prog[0], fails, n, disk);
      W.CommandsCons(prog);
      PartitionsConcat(W.StepCommands(prog[0]), W.Commands(prog[1..]), disk);
      if o.ok {
        var rest := Exec(prog[1..], fails, n + |o.trace|);
        RunMakesPrefix(prog[1..], fails, n + |o.trace|, disk);
        PartitionsConcat(o.trace, rest.trace, disk);
        assert Exec(prog, fails, n).trace == o.trace + rest.trace;
      }
    }
  }

  /** When every size parses, every partition of the role is expected. */
  lemma AllExpected(layout: DiskLayout, role: string, disk: string)
    requires L.SizesParse(layout)
    ensures |ExpectedPartitions(layout, role, disk)| == |RoleIndices(layout, role)|
  {
  }

  /**
   * In every run, each assigned disk receives partitions 1, 2, ... of its role, in layout order: all of
   * them when the run completes; the first few, and none beyond a size that does not parse, when it does not.
   */
  lemma NumberedDensely(layout: DiskLayout, a: Assignments, role: string, disk: string, fails: Fails)
    requires S.RolesAssigned(layout, a) && S.Holds(a, role, disk)
    ensures var o := Exec(ResolvedProgram(layout, a), fails, 0);
            && PartitionsOn(o.trace, disk) <= ExpectedPartitions(layout, role, disk)
            && (o.ok ==>
                  && PartitionsOn(o.trace, disk) == ExpectedPartitions(layout, role, disk)
                  && |ExpectedPartitions(layout, role, disk)| == |RoleIndices(layout, role)|)
  {
    hide ResolvedProgram, ExpectedPartitions, PartitionsOn;
    var prog := ResolvedProgram(layout, a);
    S.ResolvedProgramSafe(layout, a);
    DensePartitions(layout, a, role, disk);
    RunMakesPrefix(prog, fails, 0, disk);
    if Exec(prog, fails, 0).ok {
      W.RunDone(prog, fails, 0);
      A.CompletesExactly(layout, a);
      AllExpected(layout, role, disk);
    }
  }

  /** In a validated layout only the last partition of a disk fills the rest of it. */
  lemma FillIsLast(layout: DiskLayout, role: string, disk: string, k: nat)
    requires ValidLayout(layout) && k < |ExpectedPartitions(layout, role, disk)|
    ensures ExpectedPartitions(layout, role, disk)[k].size == "0:0" ==> k == |RoleIndices(layout, role)| - 1
  {
    var i := RoleIndices(layout, role)[k];
    var spec := layout.partitions[i].size;
    FillFault(layout, role, k);
    assert !Fault(layout, FillNotLast(i));
    OnlyStarFills(spec);
    var arg := ParseSizeSpec(spec).value;
    assert ("0:" + arg)[2..] == arg && "0:0"[2..] == "0";
  }

  lemma OnlyStarFills(spec: string)
    requires ParseSizeSpec(spec).Some?
    ensures ParseSizeSpec(spec).value == "0" ==> spec == "*"
  {
    if spec != "*" { assert ParseSizeSpec(spec).value[0] == '+'; }
  }

  // ---- From the resolver to the applier ----

  lemma LeftPaths(slots: seq<Slot>, disks: seq<BlockDevice>, i: nat)
    requires ResolutionLaws.DistinctPaths(disks) && KnownDisks(slots, ByPath(disks)) && i < |slots|
    ensures Distinct(DevicePaths(Left(slots, i)))
    ensures forall p :: p in DevicePaths(Left(slots, i)) ==> p in Paths(slots[i].Accepts()) && p !in Claimed(slots, i)
  {
    var left := Left(slots, i);
    UnclaimedExact(slots[i].Accepts(), Claimed(slots, i));
    DistinctFilter(slots[i].Accepts(), (d: BlockDevice) => d.path !in Claimed(slots, i));
    forall j, k | 0 <= j < k < |left| ensures left[j].path != left[k].path {
      assert left[j] in left && left[k] in left;
      assert left[j] != left[k];
    }
    forall p | p in DevicePaths(left) ensures p in Paths(slots[i].Accepts()) && p !in Claimed(slots, i) {
      var k :| 0 <= k < |left| && DevicePaths(left)[k] == p;
      assert left[k] in left;
    }
  }

  lemma {:induction false} ClaimedLater(slots: seq<Slot>, i: nat, n: nat, p: string)
    requires i < n <= |slots| && p in Paths(slots[i].Accepts())
    ensures p in Claimed(slots, n)
  {
    if i < n - 1 { ClaimedLater(slots, i, n - 1, p); }
  }

  lemma {:induction false} PathsComeFromDisks(glob: Glob, req: Request, disks: seq<BlockDevice>, i: nat)
    requires i < |req.Names()|
    ensures forall d :: d in req.Slots(glob, disks)[i].Accepts() ==> d in disks
  {
  }

  /** The disks left for the `i`-th role, as the applier sees them. */
  lemma LeftAsPaths(glob: Glob, req: Request, disks: seq<BlockDevice>, i: nat)
    requires ResolutionLaws.DistinctPaths(disks) && Resolve(glob, req, disks).Ok? && i < |req.Names()|
    ensures var a := Resolve(glob, req, disks).value.assignments;
            && a.Get(req.Names()[i]) == Some(Left(req.Slots(glob, disks), i))
            && |Left(req.Slots(glob, disks), i)| == RequiredForRole(req.layout.partitions, req.Names()[i]).GetOr(1)
            && Distinct(S.PathsOf(a, req.Names()[i]))
    ensures forall p :: p in S.PathsOf(Resolve(glob, req, disks).value.assignments, req.Names()[i]) ==>
              && p in Paths(req.Slots(glob, disks)[i].Accepts()) && p !in Claimed(req.Slots(glob, disks), i)
              && exists d :: d in disks && d.path == p
  {
    ResolvedShape(glob, req, disks);
    SlotsFacts(glob, req, disks);
    LeftPaths(req.Slots(glob, disks), disks, i);
    assert RoleFits(req.Slots(glob, disks), i);
    PathsComeFromDisks(glob, req, disks, i);
  }

  lemma AssignedRoleIndex(glob: Glob, req: Request, disks: seq<BlockDevice>, r: string) returns (i: nat)
    requires ResolutionLaws.DistinctPaths(disks) && Resolve(glob, req, disks).Ok?
    requires r in Resolve(glob, req, disks).value.assignments.entries
    ensures i < |req.Names()| && req.Names()[i] == r
  {
    ResolvedShape(glob, req, disks);
    assert r in Resolve(glob, req, disks).value.assignments.keys;
    i :| 0 <= i < |req.Names()| && req.Names()[i] == r;
  }

  /** A path left to a role is not left to a later one. */
  lemma NotHeldLater(glob: Glob, req: Request, disks: seq<BlockDevice>, i: nat, j: nat, p: string)
    requires ResolutionLaws.DistinctPaths(disks) && Resolve(glob, req, disks).Ok? && i < j < |req.Names()|
    requires p in S.PathsOf(Resolve(glob, req, disks).value.assignments, req.Names()[i])
    ensures p !in S.PathsOf(Resolve(glob, req, disks).value.assignments, req.Names()[j])
  {
    LeftAsPaths(glob, req, disks, i);
    LeftAsPaths(glob, req, disks, j);
    ClaimedLater(req.Slots(glob, disks), i, j, p);
  }

  lemma HeldByOne(glob: Glob, req: Request, disks: seq<BlockDevice>, q: string, r: string, p: string)
    requires ResolutionLaws.DistinctPaths(disks) && Resolve(glob, req, disks).Ok?
    requires S.Holds(Resolve(glob, req, disks).value.assignments, q, p)
    requires S.Holds(Resolve(glob, req, disks).value.assignments, r, p)
    ensures q == r
  {
    var i := AssignedRoleIndex(glob, req, disks, q);
    var j := AssignedRoleIndex(glob, req, disks, r);
    if i < j { NotHeldLater(glob, req, disks, i, j, p); }
    if j < i { NotHeldLater(glob, req, disks, j, i, p); }
  }

  lemma HeldIsDetected(glob: Glob, req: Request, disks: seq<BlockDevice>, r: string, p: string)
    requires ResolutionLaws.DistinctPaths(disks) && Resolve(glob, req, disks).Ok?
    requires S.Holds(Resolve(glob, req, disks).value.assignments, r, p)
    ensures exists d :: d in disks && d.path == p
  {
    var i := AssignedRoleIndex(glob, req, disks, r);
    LeftAsPaths(glob, req, disks, i);
  }

  lemma RoleHoldsDistinctDisks(glob: Glob, req: Request, disks: seq<BlockDevice>, r: string)
    requires ResolutionLaws.DistinctPaths(disks) && Resolve(glob, req, disks).Ok?
    requires r in Resolve(glob, req, disks).value.assignments.entries
    ensures var a := Resolve(glob, req, disks).value.assignments;
            a.entries[r] != [] && Distinct(S.PathsOf(a, r))
  {
    var i := AssignedRoleIndex(glob, req, disks, r);
    LeftAsPaths(glob, req, disks, i);
  }

  lemma ResolvedIsValid(glob: Glob, req: Request, disks: seq<BlockDevice>)
    requires ResolutionLaws.DistinctPaths(disks) && Resolve(glob, req, disks).Ok?
    ensures Resolve(glob, req, disks).value.assignments.Valid()
    ensures Resolve(glob, req, disks).value.assignments.keys == req.Names()
  {
    ResolvedShape(glob, req, disks);
  }

  /** A successful resolution hands the applier disjoint lists of whole disks, none of them empty. */
  lemma ResolvedDisksAreDisjoint(glob: Glob, req: Request, disks: seq<BlockDevice>)
    requires ResolutionLaws.DistinctPaths(disks) && Resolve(glob, req, disks).Ok?
    requires forall d :: d in disks ==> WholeDisk(d.path) && d.path != "/dev/md"
    ensures S.DisjointDisks(Resolve(glob, req, disks).value.assignments)
  {
    var a := Resolve(glob, req, disks).value.assignments;
    ResolvedIsValid(glob, req, disks);
    forall r | r in a.entries ensures a.entries[r] != [] && Distinct(S.PathsOf(a, r)) {
      RoleHoldsDistinctDisks(glob, req, disks, r);
    }
    forall r, p | S.Holds(a, r, p) ensures WholeDisk(p) && p != "/dev/md" {
      HeldIsDetected(glob, req, disks, r, p);
    }
    forall q, r, p | S.Holds(a, q, p) && S.Holds(a, r, p) ensures q == r {
      HeldByOne(glob, req, disks, q, r, p);
    }
  }

  /** In a validated layout that declares its roles, a successful resolution covers every partition. */
  lemma ResolvedLayoutApplies(glob: Glob, req: Request, disks: seq<BlockDevice>)
    requires ResolutionLaws.DistinctPaths(disks) && Resolve(glob, req, disks).Ok?
    requires ValidLayout(req.layout) && req.layout.disks != []
    ensures Applicable(req.layout, Resolve(glob, req, disks).value.assignments)
  {
    ResolvedIsValid(glob, req, disks);
    forall i | 0 <= i < |req.layout.partitions|
      ensures req.layout.partitions[i].TargetRole() in req.Names()
    {
      DeclaredRole(req, i);
    }
    assert !Fault(req.layout, LayoutError.NoPartitions);
    assert req.layout.partitions[0].TargetRole() in req.Names();
  }

  lemma DeclaredRole(req: Request, i: nat)
    requires ValidLayout(req.layout) && req.layout.disks != [] && i < |req.layout.partitions|
    ensures req.layout.partitions[i].TargetRole() in req.Names()
  {
    assert !Fault(req.layout, UndeclaredRole(i));
    MergedHasLayoutRoles(req);
    NamesFacts(req);
  }

  lemma {:induction false} PutRolesKeeps(d: Dict<DiskRole>, roles: seq<DiskRole>, r: string)
    ensures r in PutRoles(d, roles).entries <==> r in d.entries || exists i :: 0 <= i < |roles| && roles[i].name == r
    decreases |roles|
  {
    if roles != [] {
      PutRolesKeeps(d.Put(roles[0].name, roles[0]), roles[1..], r);
      if i :| 0 <= i < |roles[1..]| && roles[1..][i].name == r { assert roles[i + 1].name == r; }
      if i :| 0 <= i < |roles| && roles[i].name == r && i > 0 { assert roles[1..][i - 1].name == r; }
    }
  }

  lemma MergedHasLayoutRoles(req: Request)
    ensures forall r :: r in RoleNames(req.layout) ==> r in req.Effective().entries
  {
    forall r | r in RoleNames(req.layout) ensures r in req.Effective().entries {
      var i :| 0 <= i < |RoleNames(req.layout)| && RoleNames(req.layout)[i] == r;
      assert req.layout.disks[i].name == r;
      PutRolesKeeps(Empty(), req.layout.disks, r);
      PutRolesKeeps(PutRoles(Empty(), req.layout.disks), req.machine, r);
      PutRolesKeeps(PutRoles(PutRoles(Empty(), req.layout.disks), req.machine), req.auto, r);
    }
  }

  /** From detection to the disk: whatever a resolved installation does, its trace keeps to the rules. */
  lemma ResolvedInstallIsSafe(glob: Glob, req: Request, disks: seq<BlockDevice>, fails: Fails)
    requires ResolutionLaws.DistinctPaths(disks) && Resolve(glob, req, disks).Ok?
    requires forall d :: d in disks ==> WholeDisk(d.path) && d.path != "/dev/md"
    ensures var a := Resolve(glob, req, disks).value.assignments;
            W.Safe(S.Targets(a), W.UNTOUCHED, Exec(ResolvedProgram(req.layout, a), fails, 0).trace)
  {
    ResolvedDisksAreDisjoint(glob, req, disks);
    S.EveryRunIsSafe(req.layout, Resolve(glob, req, disks).value.assignments, fails);
  }

  lemma ResolvedListsAreNonEmpty(glob: Glob, req: Request, disks: seq<BlockDevice>)
    requires ResolutionLaws.DistinctPaths(disks) && Resolve(glob, req, disks).Ok?
    ensures NonEmptyLists(Resolve(glob, req, disks).value.assignments)
  {
    hide Resolve, S.PathsOf;
    var a := Resolve(glob, req, disks).value.assignments;
    ResolvedIsValid(glob, req, disks);
    forall r | r in a.entries ensures a.entries[r] != [] { RoleHoldsDistinctDisks(glob, req, disks, r); }
  }

  /**
   * A validated layout that declares its roles, once resolved, is installed by a run in which no command fails
   * exactly if every partition can be made; otherwise that run wipes every assigned disk and then stops.
   */
  lemma ResolvedInstallCompletesExactly(glob: Glob, req: Request, disks: seq<BlockDevice>)
    requires ResolutionLaws.DistinctPaths(disks) && Resolve(glob, req, disks).Ok?
    requires ValidLayout(req.layout) && req.layout.disks != []
    ensures var a := Resolve(glob, req, disks).value.assignments;
            var o := Exec(ResolvedProgram(req.layout, a), W.Never, 0);
            && (o.ok <==> !A.HasUnmakeable(req.layout))
            && (!o.ok ==> A.WipeCommands(AllDisks(a, |a.keys|)) <= o.trace)
  {
    hide Resolve, ValidLayout, Applicable, NonEmptyLists, A.HasUnmakeable, ResolvedProgram, AllDisks;
    var a := Resolve(glob, req, disks).value.assignments;
    ResolvedListsAreNonEmpty(glob, req, disks);
    ResolvedLayoutApplies(glob, req, disks);
    A.CompletesExactly(req.layout, a);
    if A.HasUnmakeable(req.layout) { A.AbortsAfterTheWipe(req.layout, a); }
  }

  /** A RAID partition gets at least its level's minimum of members, one on each of as many different disks. */
  lemma RaidMembers(glob: Glob, req: Request, disks: seq<BlockDevice>, i: nat)
    requires ResolutionLaws.DistinctPaths(disks) && Resolve(glob, req, disks).Ok? && ValidLayout(req.layout)
    requires i < |req.layout.partitions| && req.layout.partitions[i].IsMultidisk()
    requires Applicable(req.layout, Resolve(glob, req, disks).value.assignments)
    ensures var a := Resolve(glob, req, disks).value.assignments;
            var level := LevelMinimum(req.layout.partitions[i].raidLevel);
            && level.Some? && |DevicesOf(req.layout, a, i)| >= level.value
            && Distinct(DevicePaths(DevicesOf(req.layout, a, i)))
            && |Members(req.layout, a, i)| == |DevicesOf(req.layout, a, i)|
  {
    RoleTakesEnough(req.layout, i);
    var n := AssignedRoleIndex(glob, req, disks, req.layout.partitions[i].TargetRole());
    LeftAsPaths(glob, req, disks, n);
  }

  lemma RoleTakesEnough(layout: DiskLayout, i: nat)
    requires ValidLayout(layout) && i < |layout.partitions| && layout.partitions[i].IsMultidisk()
    ensures var part := layout.partitions[i];
            && LevelMinimum(part.raidLevel).Some?
            && RequiredForRole(layout.partitions, part.TargetRole()).GetOr(1) >= LevelMinimum(part.raidLevel).value
  {
    assert !Fault(layout, UnsupportedRaidLevel(i));
    assert layout.partitions[i] in layout.partitions;
  }

  // ---- The reported lists ----

  /** The indices below `n` of the partitions satisfying `p`, in layout order. */
  function IndicesWhere(parts: seq<PartitionSpec>, p: PartitionSpec -> bool, n: nat): (r: seq<int>)
    requires n <= |parts|
    ensures forall k :: 0 <= k < |r| ==> 0 <= r[k] < n
  {
    if n == 0 then [] else IndicesWhere(parts, p, n - 1) + if p(parts[n - 1]) then [n - 1] else []
  }

  lemma {:induction false} IndicesWhereExact(parts: seq<PartitionSpec>, p: PartitionSpec -> bool, n: nat)
    requires n <= |parts|
    ensures forall i :: i in IndicesWhere(parts, p, n) <==> 0 <= i < n && p(parts[i])
    ensures forall j, k :: 0 <= j < k < |IndicesWhere(parts, p, n)| ==>
              IndicesWhere(parts, p, n)[j] < IndicesWhere(parts, p, n)[k]
  {
    if n > 0 { IndicesWhereExact(parts, p, n - 1); }
  }

  predicate IsEsp(part: PartitionSpec) {
    part.filesystem == "vfat" && part.mountPoint in [Some("/boot"), Some("/boot/efi")]
  }

  predicate MountedAt(part: PartitionSpec, mountPoint: string) {
    part.mountPoint == Some(mountPoint)
  }

  /** The returned map names the last partition mounted at the root, the last one at /home, and the last ESP. */
  lemma {:induction false} FieldsFollowLayout(parts: seq<PartitionSpec>, nodes: seq<string>, n: nat, auxiliary: bool,
                                              i: nat)
    requires |nodes| == |parts| && i < n <= |parts|
    ensures MountedAt(parts[i], "/") && (forall j :: i < j < n ==> !MountedAt(parts[j], "/")) ==>
              && MapAfter(parts, nodes, n, auxiliary).root == nodes[i]
              && MapAfter(parts, nodes, n, auxiliary).rootFilesystem == parts[i].filesystem
    ensures MountedAt(parts[i], "/home") && (forall j :: i < j < n ==> !MountedAt(parts[j], "/home")) ==>
              MapAfter(parts, nodes, n, auxiliary).home == nodes[i]
    ensures IsEsp(parts[i]) && (forall j :: i < j < n ==> !IsEsp(parts[j])) ==>
              MapAfter(parts, nodes, n, auxiliary).esp == nodes[i]
  {
    if i < n - 1 {
      FieldsFollowLayout(parts, nodes, n - 1, auxiliary, i);
      AddKeepsFields(MapAfter(parts, nodes, n - 1, auxiliary), parts[n - 1], nodes[n - 1], auxiliary);
    }
  }

  lemma AddKeepsFields(m: PartitionMap, part: PartitionSpec, node: string, auxiliary: bool)
    ensures var c := AddCanonical(m, part, node); var o := if auxiliary then AddAuxiliary(c, part, node) else c;
            && (!MountedAt(part, "/") ==> o.root == m.root && o.rootFilesystem == m.rootFilesystem)
            && (!MountedAt(part, "/home") ==> o.home == m.home)
            && (!IsEsp(part) ==> o.esp == m.esp)
  {
  }

  predicate IsSwap(part: PartitionSpec) {
    part.filesystem == "swap"
  }

  function NodeAt(nodes: seq<string>, i: int): string {
    if 0 <= i < |nodes| then nodes[i] else ""
  }

  function MountAt(parts: seq<PartitionSpec>, nodes: seq<string>, i: int): (string, string, string) {
    if 0 <= i < |nodes| && i < |parts| then (nodes[i], parts[i].mountPoint.GetOr(""), parts[i].filesystem)
    else ("", "", "")
  }

  /** The map lists the swap partitions in layout order. */
  lemma {:induction false} SwapFollowsLayout(parts: seq<PartitionSpec>, nodes: seq<string>, n: nat)
    requires |nodes| == |parts| && n <= |parts|
    ensures MapAfter(parts, nodes, n, true).swapPartitions == Map(i => NodeAt(nodes, i), IndicesWhere(parts, IsSwap, n))
  {
    if n > 0 {
      SwapFollowsLayout(parts, nodes, n - 1);
      MapConcat(i => NodeAt(nodes, i), IndicesWhere(parts, IsSwap, n - 1), [n - 1]);
    }
  }

  /** The map lists the mounts outside the canonical ones in layout order. */
  lemma {:induction false} ExtraMountsFollowLayout(parts: seq<PartitionSpec>, nodes: seq<string>, n: nat)
    requires |nodes| == |parts| && n <= |parts|
    ensures MapAfter(parts, nodes, n, true).extraMounts ==
            Map(i => MountAt(parts, nodes, i), IndicesWhere(parts, Auxiliary, n))
  {
    if n > 0 {
      ExtraMountsFollowLayout(parts, nodes, n - 1);
      MapConcat(i => MountAt(parts, nodes, i), IndicesWhere(parts, Auxiliary, n - 1), [n - 1]);
    }
  }

  /** Different partitions are reported under different devices, so no entry is listed twice. */
  lemma EffectiveNodesDistinct(layout: DiskLayout, a: Assignments, i: nat, j: nat)
    requires S.RolesAssigned(layout, a) && i < j < |layout.partitions|
    ensures EffectiveNodes(layout, a)[i] != EffectiveNodes(layout, a)[j]
  {
    S.MembersNonEmpty(layout, a, i);
    S.MembersNonEmpty(layout, a, j);
    S.MembersDisjoint(layout, a, i, j, 0, 0);
    S.MemberDisk(layout, a, i, 0);
    S.MemberDisk(layout, a, j, 0);
    S.MdIsNoPartition(S.PathsOf(a, layout.partitions[i].TargetRole())[0], LocalNum(layout.partitions, i), j);
    S.MdIsNoPartition(S.PathsOf(a, layout.partitions[j].TargetRole())[0], LocalNum(layout.partitions, j), i);
    if MdDevice(i) == MdDevice(j) { S.MdInjective(i, j); }
  }
}
