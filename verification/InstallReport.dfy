/** What the general applier reports of an installed layout. */
module InstallReport {
  import opened Sorting
  import opened Wrappers
  import opened DiskLayout
  import opened LayoutPrograms
  import S = ApplierSafety
  import Laws = LayoutLaws
  import Outcome = InstallOutcome

  /** The value is what `of` has for the last partition that claims it, and empty if none does. */
  ghost predicate FromLast(parts: seq<PartitionSpec>, claims: PartitionSpec -> bool, of: seq<string>, value: string)
    requires |of| == |parts|
  {
    if forall i :: 0 <= i < |parts| ==> !claims(parts[i]) then value == ""
    else
      exists i :: 0 <= i < |parts| && claims(parts[i]) && value == of[i] &&
                  forall j :: i < j < |parts| ==> !claims(parts[j])
  }

  /** The list is what `of` has for the partitions that claim a place in it, in layout order. */
  ghost predicate FromAll<T>(parts: seq<PartitionSpec>, claims: PartitionSpec -> bool, of: int -> T, list: seq<T>) {
    exists places: seq<int> ::
      && (forall i :: i in places <==> 0 <= i < |parts| && claims(parts[i]))
      && (forall j, k :: 0 <= j < k < |places| ==> places[j] < places[k])
      && list == Map(of, places)
  }

  /** The names of the subvolumes of the partition that is mounted as root: the first that claims to be. */
  ghost predicate FromRoot(parts: seq<PartitionSpec>, names: seq<string>) {
    && ((forall i :: 0 <= i < |parts| ==> parts[i].mountPoint != Some("/")) ==> names == [])
    && forall i :: 0 <= i < |parts| && parts[i].mountPoint == Some("/") &&
                   (forall j :: 0 <= j < i ==> parts[j].mountPoint != Some("/")) ==>
         if parts[i].filesystem == "btrfs" then
           |names| == |parts[i].subvolumes| && forall k :: 0 <= k < |names| ==> names[k] == parts[i].subvolumes[k].name
         else names == []
  }

  /** Mounted elsewhere than at the places that have a field of their own. */
  predicate IsExtra(part: PartitionSpec) {
    !Laws.IsSwap(part) && part.mountPoint.Some? && part.mountPoint.value !in ["", "/", "/boot", "/boot/efi", "/home"]
  }

  function MountedAt(mountPoint: string): PartitionSpec -> bool {
    (p: PartitionSpec) => Laws.MountedAt(p, mountPoint)
  }

  /** The map describes the layout whose partitions have these devices. */
  ghost predicate Describes(m: PartitionMap, parts: seq<PartitionSpec>, nodes: seq<string>)
    requires |nodes| == |parts|
  {
    && FromLast(parts, MountedAt("/"), nodes, m.root)
    && FromLast(parts, MountedAt("/"), Map((p: PartitionSpec) => p.filesystem, parts), m.rootFilesystem)
    && FromLast(parts, MountedAt("/home"), nodes, m.home)
    && FromLast(parts, Laws.IsEsp, nodes, m.esp)
    && m.boot == ""
    && FromRoot(parts, m.rootSubvolumes)
    && FromAll(parts, Laws.IsSwap, i => Laws.NodeAt(nodes, i), m.swapPartitions)
    && FromAll(parts, IsExtra, i => Laws.MountAt(parts, nodes, i), m.extraMounts)
  }

  lemma {:induction false} LastClaim(parts: seq<PartitionSpec>, claims: PartitionSpec -> bool, i: nat) returns (k: nat)
    requires i < |parts| && claims(parts[i])
    ensures k < |parts| && claims(parts[k]) && forall j :: k < j < |parts| ==> !claims(parts[j])
    decreases |parts| - i
  {
    if j :| i < j < |parts| && claims(parts[j]) {
      k := LastClaim(parts, claims, j);
    } else {
      k := i;
    }
  }

  lemma NothingClaimed(parts: seq<PartitionSpec>, nodes: seq<string>)
    requires |nodes| == |parts|
    ensures MapAfter(parts, nodes, 0, true) == NO_MAP
  {
  }

  lemma StepKeeps(parts: seq<PartitionSpec>, nodes: seq<string>, n: nat)
    requires |nodes| == |parts| && 0 < n <= |parts|
    ensures var m, o := MapAfter(parts, nodes, n - 1, true), MapAfter(parts, nodes, n, true);
            && (!Laws.MountedAt(parts[n - 1], "/") ==> o.root == m.root && o.rootFilesystem == m.rootFilesystem)
            && (!Laws.MountedAt(parts[n - 1], "/home") ==> o.home == m.home)
            && (!Laws.IsEsp(parts[n - 1]) ==> o.esp == m.esp)
            && o.boot == m.boot
  {
    hide AddCanonical, AddAuxiliary, Laws.IsEsp;
    var m := MapAfter(parts, nodes, n - 1, true);
    Laws.AddKeepsFields(m, parts[n - 1], nodes[n - 1], true);
    BootStays(m, parts[n - 1], nodes[n - 1]);
  }

  lemma BootStays(m: PartitionMap, part: PartitionSpec, node: string)
    ensures AddAuxiliary(AddCanonical(m, part, node), part, node).boot == m.boot
  {
  }

  lemma {:induction false} NoneClaims(parts: seq<PartitionSpec>, nodes: seq<string>, n: nat)
    requires |nodes| == |parts| && n <= |parts|
    ensures (forall i :: 0 <= i < n ==> !Laws.MountedAt(parts[i], "/")) ==>
              MapAfter(parts, nodes, n, true).root == "" && MapAfter(parts, nodes, n, true).rootFilesystem == ""
    ensures (forall i :: 0 <= i < n ==> !Laws.MountedAt(parts[i], "/home")) ==>
              MapAfter(parts, nodes, n, true).home == ""
    ensures (forall i :: 0 <= i < n ==> !Laws.IsEsp(parts[i])) ==> MapAfter(parts, nodes, n, true).esp == ""
    ensures MapAfter(parts, nodes, n, true).boot == ""
  {
    hide MapAfter, Laws.IsEsp, Laws.MountedAt;
    if n > 0 {
      NoneClaims(parts, nodes, n - 1);
      StepKeeps(parts, nodes, n);
    } else {
      NothingClaimed(parts, nodes);
    }
  }

  lemma RootNames(parts: seq<PartitionSpec>)
    ensures FromRoot(parts, RootSubvolumeNames(parts))
  {
    var r := RootIndex(parts, 0);
    forall i | 0 <= i < |parts| && parts[i].mountPoint == Some("/") &&
               (forall j :: 0 <= j < i ==> parts[j].mountPoint != Some("/"))
      ensures i == r
    {
    }
  }

  lemma Listed<T>(parts: seq<PartitionSpec>, claims: PartitionSpec -> bool, of: int -> T, list: seq<T>)
    requires list == Map(of, Laws.IndicesWhere(parts, claims, |parts|))
    ensures FromAll(parts, claims, of, list)
  {
    hide Laws.IndicesWhere;
    Laws.IndicesWhereExact(parts, claims, |parts|);
  }

  lemma {:induction false} SamePlaces(parts: seq<PartitionSpec>, n: nat)
    requires n <= |parts|
    ensures Laws.IndicesWhere(parts, Auxiliary, n) == Laws.IndicesWhere(parts, IsExtra, n)
  {
    if n > 0 { SamePlaces(parts, n - 1); }
  }

  lemma ListedFields(parts: seq<PartitionSpec>, nodes: seq<string>)
    requires |nodes| == |parts|
    ensures var m := MapAfter(parts, nodes, |parts|, true);
            && FromAll(parts, Laws.IsSwap, i => Laws.NodeAt(nodes, i), m.swapPartitions)
            && FromAll(parts, IsExtra, i => Laws.MountAt(parts, nodes, i), m.extraMounts)
  {
    hide MapAfter, FromAll, Laws.IndicesWhere, IsExtra;
    var n := |parts|;
    Laws.SwapFollowsLayout(parts, nodes, n);
    Laws.ExtraMountsFollowLayout(parts, nodes, n);
    SamePlaces(parts, n);
    Listed(parts, Laws.IsSwap, i => Laws.NodeAt(nodes, i), MapAfter(parts, nodes, n, true).swapPartitions);
    Listed(parts, IsExtra, i => Laws.MountAt(parts, nodes, i), MapAfter(parts, nodes, n, true).extraMounts);
  }

  lemma LastField(parts: seq<PartitionSpec>, claims: PartitionSpec -> bool, of: seq<string>, value: string)
    requires |of| == |parts|
    requires (forall i :: 0 <= i < |parts| ==> !claims(parts[i])) ==> value == ""
    requires forall i :: 0 <= i < |parts| && claims(parts[i]) && (forall j :: i < j < |parts| ==> !claims(parts[j])) ==>
               value == of[i]
    ensures FromLast(parts, claims, of, value)
  {
    if i :| 0 <= i < |parts| && claims(parts[i]) {
      var k := LastClaim(parts, claims, i);
      assert value == of[k];
    }
  }

  lemma RootDescribed(parts: seq<PartitionSpec>, nodes: seq<string>)
    requires |nodes| == |parts|
    ensures var m := MapAfter(parts, nodes, |parts|, true);
            && FromLast(parts, MountedAt("/"), nodes, m.root)
            && FromLast(parts, MountedAt("/"), Map((p: PartitionSpec) => p.filesystem, parts), m.rootFilesystem)
  {
    hide MapAfter, FromLast;
    var n := |parts|;
    var m := MapAfter(parts, nodes, n, true);
    NoneClaims(parts, nodes, n);
    forall i | 0 <= i < n && Laws.MountedAt(parts[i], "/") && (forall j :: i < j < n ==> !Laws.MountedAt(parts[j], "/"))
      ensures m.root == nodes[i] && m.rootFilesystem == parts[i].filesystem
    {
      Laws.FieldsFollowLayout(parts, nodes, n, true, i);
    }
    LastField(parts, MountedAt("/"), nodes, m.root);
    LastField(parts, MountedAt("/"), Map((p: PartitionSpec) => p.filesystem, parts), m.rootFilesystem);
  }

  lemma HomeDescribed(parts: seq<PartitionSpec>, nodes: seq<string>)
    requires |nodes| == |parts|
    ensures FromLast(parts, MountedAt("/home"), nodes, MapAfter(parts, nodes, |parts|, true).home)
  {
    hide MapAfter, FromLast;
    var n := |parts|;
    var m := MapAfter(parts, nodes, n, true);
    NoneClaims(parts, nodes, n);
    forall i | 0 <= i < n && Laws.MountedAt(parts[i], "/home") &&
               (forall j :: i < j < n ==> !Laws.MountedAt(parts[j], "/home"))
      ensures m.home == nodes[i]
    {
      Laws.FieldsFollowLayout(parts, nodes, n, true, i);
    }
    LastField(parts, MountedAt("/home"), nodes, m.home);
  }

  lemma EspDescribed(parts: seq<PartitionSpec>, nodes: seq<string>)
    requires |nodes| == |parts|
    ensures FromLast(parts, Laws.IsEsp, nodes, MapAfter(parts, nodes, |parts|, true).esp)
  {
    hide MapAfter, FromLast, Laws.IsEsp;
    var n := |parts|;
    var m := MapAfter(parts, nodes, n, true);
    NoneClaims(parts, nodes, n);
    forall i | 0 <= i < n && Laws.IsEsp(parts[i]) && (forall j :: i < j < n ==> !Laws.IsEsp(parts[j]))
      ensures m.esp == nodes[i]
    {
      Laws.FieldsFollowLayout(parts, nodes, n, true, i);
    }
    LastField(parts, Laws.IsEsp, nodes, m.esp);
  }

  /** The report names, for each partition that claims a place in it, the node or array its file system is on. */
  lemma ReportDescribes(layout: DiskLayout, a: Assignments)
    requires S.RolesAssigned(layout, a)
    ensures exists nodes ::
              && |nodes| == |layout.partitions|
              && (forall i :: 0 <= i < |nodes| ==> nodes[i] == Outcome.HomeNode(layout, a, i))
              && Describes(ResolvedMap(layout, a), layout.partitions, nodes)
  {
    hide EffectiveNodes, Outcome.HomeNode, FromLast, FromAll, FromRoot, MapAfter, RootSubvolumeNames, S.RolesAssigned;
    var parts, nodes := layout.partitions, EffectiveNodes(layout, a);
    Outcome.EffectiveLength(layout, a);
    Outcome.NodesDistinct(layout, a);
    RootNames(parts);
    RootDescribed(parts, nodes);
    HomeDescribed(parts, nodes);
    EspDescribed(parts, nodes);
    NoneClaims(parts, nodes, |parts|);
    ListedFields(parts, nodes);
  }
}
