/** The layout appliers, command by command. Each method runs the program of the same name. */
module LayoutApply {
  import opened Sorting
  import opened Wrappers
  import opened PartitionNames
  import opened DiskLayout
  import opened CommandRunner
  import opened LayoutPrograms

  /** `_wipe_device`. */
  method WipeDevice(r: Runner, device: string) returns (ok: bool)
    modifies r
    ensures Ran(r.fails, old(r.trace), r.trace, WipeProg(device), ok)
  {
    var prog := [[Run(Wipefs(device))], [Run(ZapAll(device))], [Run(ClearTable(device))]];
    WipeInPieces(device);
    ghost var t0 := r.trace;
    RanNothing(r.fails, t0);
    ok := r.Issue(Wipefs(device));
    RanPiece(r.fails, t0, t0, r.trace, prog, 0, ok);
    if !ok { return; }
    ghost var t1 := r.trace;
    ok := r.Issue(ZapAll(device));
    RanPiece(r.fails, t0, t1, r.trace, prog, 1, ok);
    if !ok { return; }
    ghost var t2 := r.trace;
    ok := r.Issue(ClearTable(device));
    RanPiece(r.fails, t0, t2, r.trace, prog, 2, ok);
    assert prog[..3] == prog;
  }

  lemma WipeInPieces(device: string)
    ensures Flatten([[Run(Wipefs(device))], [Run(ZapAll(device))], [Run(ClearTable(device))]]) == WipeProg(device)
  {
    var p := [[Run(Wipefs(device))], [Run(ZapAll(device))], [Run(ClearTable(device))]];
    assert p[..3] == p && p[..0] == [];
    FlattenSnoc(p, 0);
    FlattenSnoc(p, 1);
    FlattenSnoc(p, 2);
  }

  method WipeDevices(r: Runner, devices: seq<string>) returns (ok: bool)
    modifies r
    ensures Ran(r.fails, old(r.trace), r.trace, Flatten(Map(WipeProg, devices)), ok)
  {
    ghost var progs := Map(WipeProg, devices);
    ok := true;
    for i := 0 to |devices|
      invariant Ran(r.fails, old(r.trace), r.trace, Flatten(progs[..i]), true)
    {
      ghost var before := r.trace;
      ok := WipeDevice(r, devices[i]);
      RanPiece(r.fails, old(r.trace), before, r.trace, progs, i, ok);
      if !ok { return; }
    }
    assert progs[..|devices|] == progs;
    ok := true;
  }

  method ProbeDevices(r: Runner, devices: seq<string>) returns (ok: bool)
    modifies r
    ensures Ran(r.fails, old(r.trace), r.trace, Flatten(Map(PartProbeProg, devices)), ok)
  {
    ghost var progs := Map(PartProbeProg, devices);
    ok := true;
    for i := 0 to |devices|
      invariant Ran(r.fails, old(r.trace), r.trace, Flatten(progs[..i]), true)
    {
      ghost var before := r.trace;
      ok := r.Issue(PartProbe(devices[i]));
      RanPiece(r.fails, old(r.trace), before, r.trace, progs, i, ok);
      if !ok { return; }
    }
    assert progs[..|devices|] == progs;
    ok := true;
  }

  /** `_create_partitions_for_role`, on the partitions with these layout indices; the paths are keyed by index. */
  method CreatePartitionsForRole(r: Runner, device: string, parts: seq<PartitionSpec>, indices: seq<int>)
    returns (ok: bool, paths: map<int, string>)
    requires forall k :: 0 <= k < |indices| ==> 0 <= indices[k] < |parts|
    requires forall j, k :: 0 <= j < k < |indices| ==> indices[j] < indices[k]
    modifies r
    ensures Ran(r.fails, old(r.trace), r.trace, CreateAllProg(device, parts, indices), ok)
    ensures ok ==>
            forall k :: 0 <= k < |indices| ==> indices[k] in paths && paths[indices[k]] == PartName(device, k + 1)
  {
    ghost var progs := CreateProgs(device, parts, indices);
    paths := map[];
    ok := true;
    for k := 0 to |indices|
      invariant Ran(r.fails, old(r.trace), r.trace, Flatten(progs[..k]), true)
      invariant forall j :: 0 <= j < k ==> indices[j] in paths && paths[indices[j]] == PartName(device, j + 1)
    {
      var part := parts[indices[k]];
      ghost var before := r.trace;
      var arg := ParseSizeSpec(part.size);
      if arg.None? {
        RanAbort(r.fails, before);
        RanPiece(r.fails, old(r.trace), before, before, progs, k, false);
        return false, paths;
      }
      ok := r.Issue(NewPartition(device, k + 1, "0:" + arg.value, TypeCode(part.filesystem), part.partLabel));
      RanPiece(r.fails, old(r.trace), before, r.trace, progs, k, ok);
      if !ok { return; }
      paths := paths[indices[k] := PartName(device, k + 1)];
    }
    assert progs[..|indices|] == progs;
    ok := true;
  }

  lemma RanAbort(fails: Fails, t: seq<Command>)
    ensures Ran(fails, t, t, [Abort], false)
  {
    assert t + [] == t;
  }

  /** `_format_partition`. */
  method FormatPartition(r: Runner, path: string, part: PartitionSpec, extra: seq<string>, level: Option<string>)
    returns (ok: bool)
    modifies r
    ensures Ran(r.fails, old(r.trace), r.trace, FormatProg(path, part, extra, level), ok)
  {
    if part.filesystem == "vfat" {
      ok := r.Issue(Mkfs("mkfs.fat", "", Upper(part.partLabel), [path]));
    } else if part.filesystem == "ext4" {
      ok := r.Issue(Mkfs("mkfs.ext4", "", part.partLabel, [path]));
    } else if part.filesystem == "btrfs" {
      if extra != [] {
        if level.None? {
          RanAbort(r.fails, r.trace);
          return false;
        }
        ok := r.Issue(Mkfs("mkfs.btrfs", "raid" + level.value, part.partLabel, [path] + extra));
      } else {
        ok := r.Issue(Mkfs("mkfs.btrfs", "", part.partLabel, [path]));
      }
    } else if part.filesystem == "xfs" {
      ok := r.Issue(Mkfs("mkfs.xfs", "", Truncated(part.partLabel, 12), [path]));
    } else if part.filesystem == "swap" {
      ok := r.Issue(Mkfs("mkswap", "", Truncated(part.partLabel, 15), [path]));
    } else {
      RanNothing(r.fails, r.trace);
      ok := true;
    }
  }

  /** Formatting the same partition on several disks, one after the other. */
  method FormatOnEach(r: Runner, paths: seq<string>, part: PartitionSpec) returns (ok: bool)
    modifies r
    ensures Ran(r.fails, old(r.trace), r.trace, Flatten(FormatEach(paths, part)), ok)
  {
    ghost var progs := FormatEach(paths, part);
    ok := true;
    for k := 0 to |paths|
      invariant Ran(r.fails, old(r.trace), r.trace, Flatten(progs[..k]), true)
    {
      ghost var before := r.trace;
      ok := FormatPartition(r, paths[k], part, [], None);
      RanPiece(r.fails, old(r.trace), before, r.trace, progs, k, ok);
      if !ok { return; }
    }
    assert progs[..|paths|] == progs;
    ok := true;
  }

  /** The formatting of one layout partition by the general applier; `node` is its effective device. */
  method FormatMembers(r: Runner, part: PartitionSpec, index: nat, members: seq<string>)
    returns (ok: bool, node: string)
    requires members != []
    modifies r
    ensures Ran(r.fails, old(r.trace), r.trace, FormatMembersProg(part, index, members), ok)
    ensures ok ==> node == EffectiveNode(part, index, members)
  {
    node := members[0];
    if part.IsMultidisk() {
      var backend := Backend(part);
      if backend == "btrfs" && part.filesystem == "btrfs" {
        var level := RaidValue(part.raidLevel);
        if level.None? {
          RanAbort(r.fails, r.trace);
          return false, node;
        }
        ok := FormatPartition(r, members[0], part, members[1..], level);
      } else if backend == "mdadm" {
        var md := MdDevice(index);
        var create := MdCreate(md, part.raidLevel, members);
        ok := r.Issue(create);
        if !ok {
          RanStopped(r.fails, old(r.trace), r.trace, [Run(create)], FormatProg(md, part, [], None));
          return;
        }
        ghost var before := r.trace;
        ok := FormatPartition(r, md, part, [], None);
        RanThen(r.fails, old(r.trace), before, r.trace, [Run(create)], FormatProg(md, part, [], None), ok);
        node := md;
      } else {
        RanAbort(r.fails, r.trace);
        ok := false;
      }
    } else {
      ok := FormatOnEach(r, members, part);
    }
  }

  /** `_mount_partition`. */
  method MountPartition(r: Runner, path: string, part: PartitionSpec) returns (ok: bool)
    modifies r
    ensures Ran(r.fails, old(r.trace), r.trace, MountProg(path, part), ok)
  {
    if part.mountPoint.None? {
      RanNothing(r.fails, r.trace);
      return true;
    }
    ok := r.Issue(Mount(path, part.mountOptions, MountTarget(part.mountPoint.value)));
  }

  /** Splitting the subvolumes into the one mounted as root and the other mounted ones. */
  method SplitSubvolumes(svs: seq<SubvolumeSpec>) returns (root: Option<SubvolumeSpec>, children: seq<SubvolumeSpec>)
    ensures root == RootSubvolume(svs) && children == ChildSubvolumes(svs)
  {
    root, children := None, [];
    for i := 0 to |svs|
      invariant root == RootSubvolume(svs[..i]) && children == ChildSubvolumes(svs[..i])
    {
      assert svs[..i + 1][..i] == svs[..i];
      if svs[i].mountPoint == Some("/") {
        root := Some(svs[i]);
      } else if svs[i].mountPoint.Some? {
        children := children + [svs[i]];
      }
    }
    assert svs[..|svs|] == svs;
  }

  /** `_create_and_mount_subvolumes`: `names` are the subvolumes created. */
  method CreateAndMountSubvolumes(r: Runner, path: string, part: PartitionSpec) returns (ok: bool, names: seq<string>)
    requires part.subvolumes != []
    modifies r
    ensures Ran(r.fails, old(r.trace), r.trace, SubvolumesProg(path, part), ok)
    ensures names == SubvolumeNames(part)
  {
    names := SubvolumeNames(part);
    var root, children := SplitSubvolumes(part.subvolumes);
    ghost var mounts := MountChildren(path, part, children);
    ghost var rest := MountRootSubvolume(path, part) + Flatten(mounts);
    SubvolumesInPieces(path, part);
    ok := MakeAll(r, path, part);
    ghost var t1 := r.trace;
    if !ok {
      RanStopped(r.fails, old(r.trace), t1, MakeSubvolumes(path, part), rest);
      return;
    }
    if root.Some? {
      ok := r.Issue(Mount(path, SubvolumeOptions(root.value, part), "/mnt"));
    } else {
      RanNothing(r.fails, r.trace);
    }
    RanThen(r.fails, old(r.trace), t1, r.trace, MakeSubvolumes(path, part), MountRootSubvolume(path, part), ok);
    ghost var t2 := r.trace;
    ghost var head := MakeSubvolumes(path, part) + MountRootSubvolume(path, part);
    if !ok {
      RanStopped(r.fails, old(r.trace), t2, head, Flatten(mounts));
      return;
    }
    ok := MountEachChild(r, path, part, children);
    RanThen(r.fails, old(r.trace), t2, r.trace, head, Flatten(mounts), ok);
  }

  lemma SubvolumesInPieces(path: string, part: PartitionSpec)
    requires part.subvolumes != []
    ensures SubvolumesProg(path, part) ==
            MakeSubvolumes(path, part)
            + (MountRootSubvolume(path, part) + Flatten(MountChildren(path, part, ChildSubvolumes(part.subvolumes))))
  {
  }

  /** Mounting the top level, creating the subvolumes, and unmounting it again whatever happens. */
  method MakeAll(r: Runner, path: string, part: PartitionSpec) returns (ok: bool)
    modifies r
    ensures Ran(r.fails, old(r.trace), r.trace, MakeSubvolumes(path, part), ok)
  {
    var guarded := [Guarded(CreateSubvolumes(path, part), UmountTop(path))];
    ok := r.Issue(MountTop(path));
    if !ok {
      RanStopped(r.fails, old(r.trace), r.trace, [Run(MountTop(path))], guarded);
      return;
    }
    ghost var before := r.trace;
    ok := r.IssueGuarded(CreateSubvolumes(path, part), UmountTop(path));
    RanThen(r.fails, old(r.trace), before, r.trace, [Run(MountTop(path))], guarded, ok);
  }

  method MountEachChild(r: Runner, path: string, part: PartitionSpec, children: seq<SubvolumeSpec>) returns (ok: bool)
    requires forall i :: 0 <= i < |children| ==> children[i].mountPoint.Some?
    modifies r
    ensures Ran(r.fails, old(r.trace), r.trace, Flatten(MountChildren(path, part, children)), ok)
  {
    ghost var progs := MountChildren(path, part, children);
    ok := true;
    for i := 0 to |children|
      invariant Ran(r.fails, old(r.trace), r.trace, Flatten(progs[..i]), true)
    {
      ghost var before := r.trace;
      ok := r.Issue(Mount(path, SubvolumeOptions(children[i], part), MountTarget(children[i].mountPoint.value)));
      RanPiece(r.fails, old(r.trace), before, r.trace, progs, i, ok);
      if !ok { return; }
    }
    assert progs[..|children|] == progs;
    ok := true;
  }

  method MountNode(r: Runner, path: string, part: PartitionSpec) returns (ok: bool, names: seq<string>)
    modifies r
    ensures Ran(r.fails, old(r.trace), r.trace, MountOrSubvolumes(path, part), ok)
    ensures names == if HasSubvolumes(part) then SubvolumeNames(part) else []
  {
    names := [];
    if HasSubvolumes(part) {
      ok, names := CreateAndMountSubvolumes(r, path, part);
    } else {
      ok := MountPartition(r, path, part);
    }
  }

  /** The first mount pass: the first partition mounted at `/`. */
  method MountRootFirst(r: Runner, parts: seq<PartitionSpec>, nodes: seq<string>) returns (ok: bool, names: seq<string>)
    requires |nodes| == |parts|
    modifies r
    ensures Ran(r.fails, old(r.trace), r.trace, MountRoot(parts, nodes), ok)
    ensures names == RootSubvolumeNames(parts)
  {
    for i := 0 to |parts|
      invariant r.trace == old(r.trace)
      invariant RootIndex(parts, 0) == RootIndex(parts, i)
    {
      if parts[i].mountPoint != Some("/") { continue; }
      ok, names := MountNode(r, nodes[i], parts[i]);
      return;
    }
    RanNothing(r.fails, r.trace);
    ok, names := true, [];
  }

  /** The second mount pass: everything else in layout order. */
  method MountRest(r: Runner, parts: seq<PartitionSpec>, nodes: seq<string>, skipSwap: bool) returns (ok: bool)
    requires |nodes| == |parts|
    modifies r
    ensures Ran(r.fails, old(r.trace), r.trace, Flatten(MountOthers(parts, nodes, skipSwap)), ok)
  {
    ghost var progs := MountOthers(parts, nodes, skipSwap);
    ok := true;
    for i := 0 to |parts|
      invariant Ran(r.fails, old(r.trace), r.trace, Flatten(progs[..i]), true)
    {
      ghost var before := r.trace;
      if parts[i].mountPoint == Some("/") || (skipSwap && parts[i].filesystem == "swap") {
        RanNothing(r.fails, before);
        RanPiece(r.fails, old(r.trace), before, before, progs, i, true);
        continue;
      }
      var names;
      ok, names := MountNode(r, nodes[i], parts[i]);
      RanPiece(r.fails, old(r.trace), before, r.trace, progs, i, ok);
      if !ok { return; }
    }
    assert progs[..|parts|] == progs;
    ok := true;
  }
}
