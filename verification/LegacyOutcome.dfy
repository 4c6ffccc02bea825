/** What a complete run of the single-disk applier has done to its disk and to the extra devices it is given. */
module LegacyOutcome {
  import opened Text
  import opened Sorting
  import opened Wrappers
  import opened Dicts
  import opened PartitionNames
  import opened DiskLayout
  import opened CommandRunner
  import opened LayoutPrograms
  import opened DiskWorld
  import opened InstallOutcome
  import A = LayoutAborts
  import L = LegacyRefinement

  // ---- What is asked for ----

  /** The node of partition `i` on each of the disks: every disk is partitioned alike. */
  function NodesOf(disks: seq<string>, i: nat): seq<string> {
    Map(d => PartName(d, i + 1), disks)
  }

  /**
   * ESPs are formatted on every disk, btrfs over all of them when a btrfs RAID is asked for, and everything else on the
   * first disk alone.
   */
  ghost predicate LegacyPrepares(cmds: seq<Command>, part: PartitionSpec, nodes: seq<string>, raid: Option<RaidConfig>)
    requires nodes != []
  {
    if part.filesystem !in MKFS_TOOLS then cmds == []
    else if part.filesystem == "vfat" then
      |cmds| == |nodes| && forall k :: 0 <= k < |cmds| ==> Makes(cmds[k], part, [nodes[k]])
    else if part.filesystem == "btrfs" && raid.Some? && raid.value.backend == Btrfs then
      |cmds| == 1 && Makes(cmds[0], part.(raidLevel := raid.value.level), nodes)
    else
      |cmds| == 1 && Makes(cmds[0], part, [nodes[0]])
  }

  /** The partition is made once on each disk, under its number in the layout. */
  ghost predicate MadeOn(t: seq<Command>, disks: seq<string>, parts: seq<PartitionSpec>, i: nat)
    requires i < |parts|
  {
    forall d :: d in disks ==>
      exists c :: CreatedFor(c, d, i + 1, parts[i]) && Filter(t, x => Creates(x, d, i + 1)) == [c]
  }

  /** Unlike the general applier, this one mounts swap as well. */
  ghost predicate LegacyMounts(t: seq<Command>, parts: seq<PartitionSpec>, i: nat, disk: string)
    requires i < |parts|
  {
    var node := PartName(disk, i + 1);
    MountedAsAsked(Filter(t, c => MountsNode(node, c)), node, parts, i, false)
  }

  ghost predicate LegacyRootFirst(t: seq<Command>, parts: seq<PartitionSpec>, disk: string) {
    forall r: nat, x, y :: r < |parts| && parts[r].mountPoint == Some("/") && 0 <= x < y < |t| && Mounting(t[x])
                           && MountsNode(PartName(disk, r + 1), t[y]) ==>
      t[x].node == t[y].node
  }

  /** The commands did what the layout asks for, on these disks, of which only the first is mounted. */
  ghost predicate LegacyInstalled(t: seq<Command>, parts: seq<PartitionSpec>, disks: seq<string>,
                                  raid: Option<RaidConfig>)
    requires disks != []
  {
    && (exists creations, formats, mounts :: InPhases(t, disks, creations, formats, mounts))
    && (forall i: nat :: i < |parts| ==>
          && MadeOn(t, disks, parts, i)
          && LegacyPrepares(Filter(t, c => Consumes(NodesOf(disks, i), c)), parts[i], NodesOf(disks, i), raid)
          && LegacyMounts(t, parts, i, disks[0]))
    && (forall c :: c in t && (c.Mkfs? || c.MdCreate?) ==>
          exists i: nat :: i < |parts| && ConsumesOnly(NodesOf(disks, i), c))
    && LegacyRootFirst(t, parts, disks[0])
  }

  ghost predicate WholeDisks(disks: seq<string>) {
    disks != [] && Distinct(disks) && forall d :: d in disks ==> WholeDisk(d)
  }

  // ---- Formatting ----

  lemma NodesOfFirst(device: string, extras: seq<string>, i: nat)
    ensures NodesOf([device] + extras, i) == [PartName(device, i + 1)] + NodesAt(extras, i)
    ensures |NodesOf([device] + extras, i)| == |extras| + 1
  {
  }

  lemma MakesForLevel(c: Command, part: PartitionSpec, level: string, nodes: seq<string>)
    requires |nodes| <= 1
    ensures Makes(c, part.(raidLevel := level), nodes) <==> Makes(c, part, nodes)
  {
  }

  lemma FormatPrepares(device: string, part: PartitionSpec, i: nat, extras: seq<string>, raid: Option<RaidConfig>)
    ensures LegacyPrepares(Commands(LegacyFormat(device, part, i, extras, raid)), part, NodesOf([device] + extras, i),
                           raid)
  {
    hide Commands, Makes, FormatProg, FormatEach, PartName;
    var node, nodes, level := PartName(device, i + 1), NodesOf([device] + extras, i), BtrfsLevel(raid);
    NodesOfFirst(device, extras, i);
    if part.filesystem == "vfat" && extras != [] {
      FormatEachMakes(nodes, part);
    } else if part.filesystem == "btrfs" && level.Some? {
      var part' := part.(raidLevel := level.value);
      SameProgram(node, part, part', NodesAt(extras, i), level);
      FormatMakes(node, part', NodesAt(extras, i), level);
    } else {
      FormatMakes(node, part, [], level);
      assert [node] + [] == [node] && (extras == [] ==> nodes == [node]);
    }
    ToolNames();
  }

  lemma ToolNames()
    ensures "vfat" in MKFS_TOOLS && "btrfs" in MKFS_TOOLS
  {
  }

  lemma SameProgram(node: string, part: PartitionSpec, part': PartitionSpec, extra: seq<string>, level: Option<string>)
    requires part.filesystem == part'.filesystem && part.partLabel == part'.partLabel
    ensures FormatProg(node, part, extra, level) == FormatProg(node, part', extra, level)
  {
  }

  lemma PreparesConsumes(cmds: seq<Command>, part: PartitionSpec, nodes: seq<string>, raid: Option<RaidConfig>,
                         c: Command)
    requires nodes != [] && LegacyPrepares(cmds, part, nodes, raid) && c in cmds
    ensures ConsumesOnly(nodes, c)
  {
    hide MKFS_TOOLS, LabelFor;
    var k :| 0 <= k < |cmds| && cmds[k] == c;
    assert c.Mkfs? && c.nodes != [] && forall n :: n in c.nodes ==> n in nodes;
    assert c.nodes[0] in nodes;
  }

  lemma NodeNotShared(disks: seq<string>, i: nat, j: nat, n: string)
    requires WholeDisks(disks) && i != j && n in NodesOf(disks, i)
    ensures n !in NodesOf(disks, j)
  {
    hide PartName, WholeDisk;
    if n in NodesOf(disks, j) {
      var x :| 0 <= x < |disks| && NodesOf(disks, i)[x] == n;
      var y :| 0 <= y < |disks| && NodesOf(disks, j)[y] == n;
      assert disks[x] in disks && disks[y] in disks;
      PartNameInjective(disks[x], i + 1, disks[y], j + 1);
    }
  }

  lemma OnlyOnePartition(disks: seq<string>, i: nat, j: nat, c: Command)
    requires WholeDisks(disks) && i != j && ConsumesOnly(NodesOf(disks, j), c)
    ensures !Consumes(NodesOf(disks, i), c)
  {
    hide NodesOf, WholeDisks;
    if n :| n in NodesOf(disks, i) && ((c.Mkfs? && n in c.nodes) || (c.MdCreate? && n in c.members)) {
      NodeNotShared(disks, i, j, n);
    }
  }

  lemma PieceConsumes(device: string, parts: seq<PartitionSpec>, extras: seq<string>, raid: Option<RaidConfig>, j: nat,
                      c: Command)
    requires j < |parts| && c in Commands(LegacyFormats(device, parts, extras, raid)[j])
    ensures ConsumesOnly(NodesOf([device] + extras, j), c)
  {
    hide Commands, LegacyFormat, LegacyPrepares, ConsumesOnly;
    NodesOfFirst(device, extras, j);
    FormatPrepares(device, parts[j], j, extras, raid);
    PreparesConsumes(Commands(LegacyFormats(device, parts, extras, raid)[j]), parts[j], NodesOf([device] + extras, j),
                     raid, c);
  }

  lemma FormatsPrepare(device: string, layout: DiskLayout, extras: seq<string>, raid: Option<RaidConfig>, i: nat)
    requires WholeDisks([device] + extras) && i < |layout.partitions|
    ensures var nodes := NodesOf([device] + extras, i);
            var cmds := Commands(Flatten(LegacyFormats(device, layout.partitions, extras, raid)));
            |nodes| > 0 && LegacyPrepares(Filter(cmds, c => Consumes(nodes, c)), layout.partitions[i], nodes, raid)
  {
    hide Commands, LegacyFormat, LegacyPrepares, ConsumesOnly, Consumes, WholeDisks, NodesOf;
    var disks, parts := [device] + extras, layout.partitions;
    var progs := LegacyFormats(device, parts, extras, raid);
    var p := c => Consumes(NodesOf(disks, i), c);
    L.FormatNoAborts(layout, device, extras, raid);
    forall j, c | 0 <= j < |progs| && c in Commands(progs[j]) ensures if j == i then p(c) else !p(c) {
      PieceConsumes(device, parts, extras, raid, j, c);
      if j == i { ConsumesOnlyConsumes(NodesOf(disks, i), c); } else { OnlyOnePartition(disks, i, j, c); }
    }
    OnePiecePicked(progs, i, p);
    FilterAll(Commands(progs[i]), p);
    NodesOfFirst(device, extras, i);
    FormatPrepares(device, parts[i], i, extras, raid);
  }

  lemma FormatsConsume(device: string, layout: DiskLayout, extras: seq<string>, raid: Option<RaidConfig>)
    ensures forall c :: c in Commands(Flatten(LegacyFormats(device, layout.partitions, extras, raid))) ==>
              (c.Mkfs? || c.MdCreate?)
              && exists i: nat :: i < |layout.partitions| && ConsumesOnly(NodesOf([device] + extras, i), c)
  {
    hide Commands, LegacyFormat, NodesOf, Consumes;
    var disks, parts := [device] + extras, layout.partitions;
    var progs := LegacyFormats(device, parts, extras, raid);
    var p := (c: Command) => (c.Mkfs? || c.MdCreate?)
                             && exists i: nat :: i < |parts| && ConsumesOnly(NodesOf(disks, i), c);
    L.FormatNoAborts(layout, device, extras, raid);
    forall j, c | 0 <= j < |progs| && c in Commands(progs[j]) ensures p(c) {
      PieceConsumes(device, parts, extras, raid, j, c);
    }
    EveryPiece(progs, p);
  }

  // ---- Partitioning ----

  lemma CreateMakes(disk: string, num: int, part: PartitionSpec)
    requires !Aborts(CreateProg(disk, num, part))
    ensures var cmds := Commands(CreateProg(disk, num, part)); |cmds| == 1 && CreatedFor(cmds[0], disk, num, part)
  {
    hide SizedAs, ParseSizeSpec;
    SizeIsParsed(part.size);
    SingleCommand(CreateProg(disk, num, part)[0].cmd);
  }

  lemma CreatesIt(c: Command, disk: string, num: int, part: PartitionSpec)
    requires CreatedFor(c, disk, num, part)
    ensures c.NewPartition? && c.disk == disk && c.num == num
  {
  }

  lemma DiskCreates(disk: string, parts: seq<PartitionSpec>, i: nat) returns (c: Command)
    requires i < |parts| && !Aborts(CreateAllProg(disk, parts, AllIndices(|parts|)))
    ensures CreatedFor(c, disk, i + 1, parts[i])
    ensures Filter(Commands(CreateAllProg(disk, parts, AllIndices(|parts|))), x => Creates(x, disk, i + 1)) == [c]
  {
    hide Commands, CreateProg, CreatedFor, Flatten;
    var progs := CreateProgs(disk, parts, AllIndices(|parts|));
    var p := x => Creates(x, disk, i + 1);
    FlattenAborts(progs);
    forall j, x | 0 <= j < |progs| && x in Commands(progs[j]) ensures p(x) <==> j == i {
      CreateMakes(disk, j + 1, parts[j]);
      CreatesIt(Commands(progs[j])[0], disk, j + 1, parts[j]);
    }
    OnePiecePicked(progs, i, p);
    CreateMakes(disk, i + 1, parts[i]);
    FilterAll(Commands(progs[i]), p);
    c := Commands(progs[i])[0];
  }

  lemma DiskOnly(disk: string, parts: seq<PartitionSpec>)
    requires !Aborts(CreateAllProg(disk, parts, AllIndices(|parts|)))
    ensures forall c :: c in Commands(CreateAllProg(disk, parts, AllIndices(|parts|))) ==>
              c.NewPartition? && c.disk == disk
  {
    hide Commands, CreateProg, CreatedFor, Flatten;
    var progs := CreateProgs(disk, parts, AllIndices(|parts|));
    FlattenAborts(progs);
    forall j, x | 0 <= j < |progs| && x in Commands(progs[j]) ensures x.NewPartition? && x.disk == disk {
      CreateMakes(disk, j + 1, parts[j]);
      CreatesIt(Commands(progs[j])[0], disk, j + 1, parts[j]);
    }
    EveryPiece(progs, (x: Command) => x.NewPartition? && x.disk == disk);
  }

  /** The partitioning phase makes each partition once on each disk. */
  lemma CreationMakes(disks: seq<string>, parts: seq<PartitionSpec>, i: nat, d: string) returns (c: Command)
    requires Distinct(disks) && i < |parts| && d in disks && !Aborts(Flatten(CreateOnEach(disks, parts)))
    ensures CreatedFor(c, d, i + 1, parts[i])
    ensures Filter(Commands(Flatten(CreateOnEach(disks, parts))), x => Creates(x, d, i + 1)) == [c]
  {
    hide Commands, CreateAllProg, CreatedFor, Flatten;
    var progs := CreateOnEach(disks, parts);
    var p := x => Creates(x, d, i + 1);
    var k :| 0 <= k < |disks| && disks[k] == d;
    FlattenAborts(progs);
    forall j, x | 0 <= j < |progs| && j != k && x in Commands(progs[j]) ensures !p(x) { DiskOnly(disks[j], parts); }
    OnePiecePicked(progs, k, p);
    c := DiskCreates(d, parts, i);
  }

  lemma CreationsCreate(disks: seq<string>, parts: seq<PartitionSpec>)
    requires !Aborts(Flatten(CreateOnEach(disks, parts)))
    ensures forall c :: c in Commands(Flatten(CreateOnEach(disks, parts))) ==> c.NewPartition?
  {
    hide Commands, CreateAllProg, Flatten;
    var progs := CreateOnEach(disks, parts);
    FlattenAborts(progs);
    forall j, x | 0 <= j < |progs| && x in Commands(progs[j]) ensures x.NewPartition? { DiskOnly(disks[j], parts); }
    EveryPiece(progs, (x: Command) => x.NewPartition?);
  }

  lemma OnlyMiddle(u: seq<Command>, v: seq<Command>, w: seq<Command>, p: Command -> bool)
    requires (forall c :: c in u ==> !p(c)) && forall c :: c in w ==> !p(c)
    ensures Filter(u + v + w, p) == Filter(v, p)
  {
    hide Filter;
    FilterConcat(u + v, w, p);
    FilterConcat(u, v, p);
    FilterNone(u, p);
    FilterNone(w, p);
    assert [] + Filter(v, p) + [] == Filter(v, p);
  }

  /** A selection of partitioning commands sees the partitioning phase. */
  lemma PickedFromCreations(t: seq<Command>, disks: seq<string>, creations: seq<Command>, formats: seq<Command>,
                            mounts: seq<Command>, p: Command -> bool)
    requires InPhases(t, disks, creations, formats, mounts) && forall c :: p(c) ==> c.NewPartition?
    ensures Filter(t, p) == Filter(creations, p)
  {
    hide Filter, A.WipeCommands;
    var wipes := A.WipeCommands(disks);
    var after := Map(d => PartProbe(d), disks) + [Settle] + formats + mounts;
    WipesWipe(disks);
    assert t == wipes + creations + after;
    OnlyMiddle(wipes, creations, after, p);
  }

  // ---- The whole run ----

  /** The commands of the phases of a complete run. */
  ghost predicate Phases(t: seq<Command>, device: string, layout: DiskLayout, extras: seq<string>,
                         raid: Option<RaidConfig>, creations: seq<Command>, formats: seq<Command>,
                         first: seq<Command>, others: seq<Command>) {
    var disks, parts := [device] + extras, layout.partitions;
    && !Aborts(Flatten(CreateOnEach(disks, parts)))
    && creations == Commands(Flatten(CreateOnEach(disks, parts)))
    && formats == Commands(Flatten(LegacyFormats(device, parts, extras, raid)))
    && first == Commands(MountRoot(parts, NodesOn(device, |parts|)))
    && others == Commands(Flatten(MountOthers(parts, NodesOn(device, |parts|), false)))
    && InPhases(t, disks, creations, formats, first + others)
  }

  lemma LegacyTrace(device: string, layout: DiskLayout, extras: seq<string>, raid: Option<RaidConfig>)
    returns (creations: seq<Command>, formats: seq<Command>, first: seq<Command>, others: seq<Command>)
    requires !Aborts(LegacyProgram(device, layout, extras, raid))
    ensures Phases(Commands(LegacyProgram(device, layout, extras, raid)), device, layout, extras, raid, creations,
                   formats, first, others)
  {
    hide Commands, Aborts, CreateOnEach, LegacyFormats, MountRoot, MountOthers, ConsumesOnly, NodesOf;
    var p, disks, parts := LegacyPhases(device, layout, extras, raid), [device] + extras, layout.partitions;
    SevenPieces(p);
    A.WipingCommands(disks);
    ProbingCommands(disks);
    SingleCommand(Settle);
    assert p[1] == Flatten(CreateOnEach(disks, parts));
    CreationsCreate(disks, parts);
    FormatsConsume(device, layout, extras, raid);
    MountPhasesKinds(parts, NodesOn(device, |parts|), false);
    creations, formats, first, others := Commands(p[1]), Commands(p[4]), Commands(p[5]), Commands(p[6]);
    Regroup(A.WipeCommands(disks), creations, Map(d => PartProbe(d), disks), [Settle], formats, first, others);
  }

  lemma DeviceNodesDistinct(device: string, n: nat)
    requires WholeDisk(device)
    ensures DistinctNodes(NodesOn(device, n))
  {
    hide PartName, WholeDisk;
    forall i, j | 0 <= i < j < n ensures NodesOn(device, n)[i] != NodesOn(device, n)[j] {
      if PartName(device, i + 1) == PartName(device, j + 1) { PartNameInjective(device, i + 1, device, j + 1); }
    }
  }

  lemma PartitionMade(t: seq<Command>, device: string, layout: DiskLayout, extras: seq<string>,
                      raid: Option<RaidConfig>, creations: seq<Command>, formats: seq<Command>, first: seq<Command>,
                      others: seq<Command>, i: nat)
    requires WholeDisks([device] + extras) && i < |layout.partitions|
    requires Phases(t, device, layout, extras, raid, creations, formats, first, others)
    ensures MadeOn(t, [device] + extras, layout.partitions, i)
  {
    hide Commands, CreateOnEach, LegacyFormats, MountRoot, MountOthers, InPhases, Aborts, CreatedFor, WholeDisk;
    var disks, parts := [device] + extras, layout.partitions;
    forall d | d in disks
      ensures exists c :: CreatedFor(c, d, i + 1, parts[i]) && Filter(t, x => Creates(x, d, i + 1)) == [c]
    {
      var c := CreationMakes(disks, parts, i, d);
      PickedFromCreations(t, disks, creations, formats, first + others, x => Creates(x, d, i + 1));
    }
  }

  lemma PartitionPrepared(t: seq<Command>, device: string, layout: DiskLayout, extras: seq<string>,
                          raid: Option<RaidConfig>, creations: seq<Command>, formats: seq<Command>,
                          first: seq<Command>, others: seq<Command>, i: nat)
    requires WholeDisks([device] + extras) && i < |layout.partitions|
    requires Phases(t, device, layout, extras, raid, creations, formats, first, others)
    ensures var nodes := NodesOf([device] + extras, i);
            |nodes| > 0 && LegacyPrepares(Filter(t, c => Consumes(nodes, c)), layout.partitions[i], nodes, raid)
  {
    hide Commands, CreateOnEach, LegacyFormats, MountRoot, MountOthers, InPhases, LegacyPrepares, Aborts, Consumes;
    hide NodesOf, WholeDisks;
    var nodes := NodesOf([device] + extras, i);
    FormatsPrepare(device, layout, extras, raid, i);
    ConsumersFormat(nodes);
    PickedFromPhase(t, [device] + extras, creations, formats, first + others, c => Consumes(nodes, c));
  }

  lemma PartitionMounted(t: seq<Command>, device: string, layout: DiskLayout, extras: seq<string>,
                         raid: Option<RaidConfig>, creations: seq<Command>, formats: seq<Command>,
                         first: seq<Command>, others: seq<Command>, i: nat)
    requires WholeDisk(device) && i < |layout.partitions|
    requires Phases(t, device, layout, extras, raid, creations, formats, first, others)
    ensures LegacyMounts(t, layout.partitions, i, device)
  {
    hide Commands, CreateOnEach, LegacyFormats, MountRoot, MountOthers, InPhases, MountedAsAsked, Aborts, PartName;
    hide WholeDisk;
    var node := PartName(device, i + 1);
    DeviceNodesDistinct(device, |layout.partitions|);
    PickedFromPhase(t, [device] + extras, creations, formats, first + others, c => MountsNode(node, c));
    MountPhasesMount(layout.partitions, NodesOn(device, |layout.partitions|), i, false);
  }

  lemma ConsumersFormat(nodes: seq<string>)
    ensures forall c :: Consumes(nodes, c) ==> c.Mkfs? || c.MdCreate?
  {
  }

  lemma RootComesFirst(t: seq<Command>, device: string, layout: DiskLayout, extras: seq<string>,
                       raid: Option<RaidConfig>, creations: seq<Command>, formats: seq<Command>, first: seq<Command>,
                       others: seq<Command>)
    requires WholeDisk(device) && Phases(t, device, layout, extras, raid, creations, formats, first, others)
    ensures LegacyRootFirst(t, layout.partitions, device)
  {
    hide Commands, CreateOnEach, LegacyFormats, MountRoot, MountOthers, InPhases, Aborts, PartName, WholeDisk;
    hide DistinctNodes;
    var disks, parts := [device] + extras, layout.partitions;
    DeviceNodesDistinct(device, |parts|);
    forall r: nat, x, y | r < |parts| && parts[r].mountPoint == Some("/") && 0 <= x < y < |t| && Mounting(t[x])
                          && MountsNode(PartName(device, r + 1), t[y])
      ensures t[x].node == t[y].node
    {
      RootBefore(t, disks, creations, formats, first, others, parts, NodesOn(device, |parts|), false, r, x, y);
    }
  }

  lemma NothingElseConsumed(t: seq<Command>, device: string, layout: DiskLayout, extras: seq<string>,
                            raid: Option<RaidConfig>, creations: seq<Command>, formats: seq<Command>,
                            first: seq<Command>, others: seq<Command>)
    requires Phases(t, device, layout, extras, raid, creations, formats, first, others)
    ensures forall c :: c in t && (c.Mkfs? || c.MdCreate?) ==>
              exists i: nat :: i < |layout.partitions| && ConsumesOnly(NodesOf([device] + extras, i), c)
  {
    hide Commands, CreateOnEach, LegacyFormats, MountRoot, MountOthers, InPhases, Aborts, ConsumesOnly, NodesOf;
    PhaseKinds(t, [device] + extras, creations, formats, first + others);
    FormatsConsume(device, layout, extras, raid);
  }

  /**
   * A complete run, whatever was set to fail, has installed the layout on the disks it is given: partitioned all of
   * them alike, formatted them as asked, and mounted the first one's partitions, swap included.
   */
  lemma CompleteLegacyRunInstalls(device: string, layout: DiskLayout, extras: seq<string>, raid: Option<RaidConfig>,
                                  fails: Fails)
    requires WholeDisks([device] + extras) && Exec(LegacyProgram(device, layout, extras, raid), fails, 0).ok
    ensures LegacyInstalled(Exec(LegacyProgram(device, layout, extras, raid), fails, 0).trace, layout.partitions,
                            [device] + extras, raid)
  {
    hide LegacyProgram, Commands, Aborts, InPhases, LegacyPrepares, LegacyMounts, LegacyRootFirst, MadeOn, Consumes;
    hide NodesOf, PartName, WholeDisk, ConsumesOnly, Phases;
    var disks := [device] + extras;
    var prog := LegacyProgram(device, layout, extras, raid);
    RunDone(prog, fails, 0);
    var t := Commands(prog);
    var creations, formats, first, others := LegacyTrace(device, layout, extras, raid);
    assert disks[0] == device && device in disks;
    forall i: nat | i < |layout.partitions|
      ensures MadeOn(t, disks, layout.partitions, i) && |NodesOf(disks, i)| > 0
      ensures LegacyPrepares(Filter(t, c => Consumes(NodesOf(disks, i), c)), layout.partitions[i], NodesOf(disks, i),
                             raid)
      ensures LegacyMounts(t, layout.partitions, i, disks[0])
    {
      PartitionMade(t, device, layout, extras, raid, creations, formats, first, others, i);
      PartitionPrepared(t, device, layout, extras, raid, creations, formats, first, others, i);
      PartitionMounted(t, device, layout, extras, raid, creations, formats, first, others, i);
    }
    RootComesFirst(t, device, layout, extras, raid, creations, formats, first, others);
    NothingElseConsumed(t, device, layout, extras, raid, creations, formats, first, others);
    PhasesArePhases(t, device, layout, extras, raid, creations, formats, first, others);
  }

  lemma PhasesArePhases(t: seq<Command>, device: string, layout: DiskLayout, extras: seq<string>,
                        raid: Option<RaidConfig>, creations: seq<Command>, formats: seq<Command>,
                        first: seq<Command>, others: seq<Command>)
    requires Phases(t, device, layout, extras, raid, creations, formats, first, others)
    ensures InPhases(t, [device] + extras, creations, formats, first + others)
  {
  }
}
