/** The installed system's root: its configuration directories and the rescan's state, changed in place. */
module TargetRoot {
  import opened Sorting
  import opened Wrappers
  import opened Dicts
  import opened HardwareFiles
  import Laws = ReconcileLaws

  type Manifest = PerCategory<seq<string>>

  const NO_FILES: Manifest := PerCategory([], [], [])

  /**
   * From `d0` to `d1` the operations `ops` were performed, each at the cost of one unit of the budget;
   * unless `ok`, the budget ran out on the way.
   */
  ghost predicate Progress(d0: Dirs, d1: Dirs, ops: seq<Op>, b0: nat, b1: nat, ok: bool) {
    if ok then |ops| <= b0 && b1 == b0 - |ops| && d1 == ApplyAll(d0, ops)
    else b0 < |ops| && b1 == 0 && d1 == ApplyAll(d0, ops[..b0])
  }

  lemma ProgressThen(d0: Dirs, d1: Dirs, d2: Dirs, p: seq<Op>, q: seq<Op>, b0: nat, b1: nat, b2: nat, ok: bool)
    requires Progress(d0, d1, p, b0, b1, true) && Progress(d1, d2, q, b1, b2, ok)
    ensures Progress(d0, d2, p + q, b0, b2, ok)
  {
    if ok {
      ApplyAllConcat(d0, p, q);
    } else {
      ApplyAllConcat(d0, p, q[..b1]);
      assert (p + q)[..b0] == p + q[..b1];
    }
  }

  lemma ProgressStopped(d0: Dirs, d1: Dirs, p: seq<Op>, q: seq<Op>, b0: nat, b1: nat)
    requires Progress(d0, d1, p, b0, b1, false)
    ensures Progress(d0, d1, p + q, b0, b1, false)
  {
    assert (p + q)[..b0] == p[..b0];
  }

  function OpNames(ops: seq<Op>): seq<string> {
    Map((op: Op) => op.name, ops)
  }

  lemma OpNamesConcat(p: seq<Op>, q: seq<Op>)
    ensures OpNames(p + q) == OpNames(p) + OpNames(q)
  {
  }

  /** The names of the managed files of a directory. */
  function ManagedNames(tagging: Tagging, dirs: Dirs, c: Category): set<string> {
    set n | n in dirs.Get(c).Keys && Managed(tagging, dirs.Get(c)[n])
  }

  /** The manifest of everything managed. */
  function ManifestOf(tagging: Tagging, dirs: Dirs): Manifest {
    PerCategory(
      SortedNames(ManagedNames(tagging, dirs, Modprobe)),
      SortedNames(ManagedNames(tagging, dirs, Udev)),
      SortedNames(ManagedNames(tagging, dirs, Sysctl)))
  }

  // ---- The orphan loop ----

  lemma OrphansSnoc(tagging: Tagging, dirs: Dirs, desired: Desired, c: Category, names: seq<string>, i: nat)
    requires i < |names|
    ensures OrphanOps(tagging, dirs, desired, c, names[..i + 1]) ==
            OrphanOps(tagging, dirs, desired, c, names[..i]) + OrphanOp(tagging, dirs, desired, c, names[i])
  {
    assert names[..i + 1][..i] == names[..i];
  }

  lemma WritesSnoc(tagging: Tagging, dirs: Dirs, desired: Desired, c: Category, names: seq<string>, i: nat)
    requires i < |names|
    ensures WriteOps(tagging, dirs, desired, c, names[..i + 1]) ==
            WriteOps(tagging, dirs, desired, c, names[..i]) + WriteOp(tagging, dirs, desired, c, names[i])
  {
    assert names[..i + 1][..i] == names[..i];
  }

  /** An entry not reached yet is as it was. */
  lemma OrphanNotReached(tagging: Tagging, dirs: Dirs, desired: Desired, c: Category, names: seq<string>, i: nat)
    requires i < |names| && Distinct(names)
    ensures At(ApplyAll(dirs, OrphanOps(tagging, dirs, desired, c, names[..i])), c, names[i]) == At(dirs, c, names[i])
  {
    OrphanOpsExact(tagging, dirs, desired, c, names[..i]);
    ApplyAllUntouched(dirs, OrphanOps(tagging, dirs, desired, c, names[..i]), c, names[i]);
  }

  lemma WriteNotReached(tagging: Tagging, dirs: Dirs, desired: Desired, c: Category, names: seq<string>, i: nat)
    requires i < |names| && Distinct(names)
    ensures At(ApplyAll(dirs, WriteOps(tagging, dirs, desired, c, names[..i])), c, names[i]) == At(dirs, c, names[i])
  {
    WriteOpsExact(tagging, dirs, desired, c, names[..i]);
    ApplyAllUntouched(dirs, WriteOps(tagging, dirs, desired, c, names[..i]), c, names[i]);
  }

  lemma OrphanOpAgrees(tagging: Tagging, a: Dirs, b: Dirs, desired: Desired, c: Category, n: string)
    requires At(a, c, n) == At(b, c, n)
    ensures OrphanOp(tagging, a, desired, c, n) == OrphanOp(tagging, b, desired, c, n)
    ensures WriteOp(tagging, a, desired, c, n) == WriteOp(tagging, b, desired, c, n)
  {
  }

  /** One more name of the orphan loop is done, or the run was stopped at it. */
  lemma OrphanStep(tagging: Tagging, d0: Dirs, d1: Dirs, d2: Dirs, desired: Desired, c: Category, names: seq<string>,
                   i: nat,
                   b0: nat, b1: nat, b2: nat, ok: bool)
    requires i < |names| && Distinct(names)
    requires Progress(d0, d1, OrphanOps(tagging, d0, desired, c, names[..i]), b0, b1, true)
    requires Progress(d1, d2, OrphanOp(tagging, d1, desired, c, names[i]), b1, b2, ok)
    ensures Progress(d0, d2, OrphanOps(tagging, d0, desired, c, names[..i + 1]), b0, b2, ok)
    ensures !ok ==> Progress(d0, d2, OrphanOps(tagging, d0, desired, c, names), b0, b2, false)
    ensures OpNames(OrphanOps(tagging, d0, desired, c, names[..i + 1])) ==
            OpNames(OrphanOps(tagging, d0, desired, c, names[..i]))
            + OpNames(OrphanOp(tagging, d1, desired, c, names[i]))
  {
    var done := OrphanOps(tagging, d0, desired, c, names[..i]);
    OrphansSnoc(tagging, d0, desired, c, names, i);
    OrphanNotReached(tagging, d0, desired, c, names, i);
    OrphanOpAgrees(tagging, d0, d1, desired, c, names[i]);
    ProgressThen(d0, d1, d2, done, OrphanOp(tagging, d1, desired, c, names[i]), b0, b1, b2, ok);
    OpNamesConcat(done, OrphanOp(tagging, d1, desired, c, names[i]));
    if !ok { OrphansStop(tagging, d0, d2, desired, c, names, i + 1, b0, b2); }
  }

  /** One more desired file is done, or the run was stopped at it. */
  lemma WriteStep(tagging: Tagging, d0: Dirs, d1: Dirs, d2: Dirs, desired: Desired, c: Category, names: seq<string>,
                  i: nat,
                  b0: nat, b1: nat, b2: nat, ok: bool)
    requires i < |names| && Distinct(names)
    requires Progress(d0, d1, WriteOps(tagging, d0, desired, c, names[..i]), b0, b1, true)
    requires Progress(d1, d2, WriteOp(tagging, d1, desired, c, names[i]), b1, b2, ok)
    ensures Progress(d0, d2, WriteOps(tagging, d0, desired, c, names[..i + 1]), b0, b2, ok)
    ensures !ok ==> Progress(d0, d2, WriteOps(tagging, d0, desired, c, names), b0, b2, false)
    ensures OpNames(WriteOps(tagging, d0, desired, c, names[..i + 1])) ==
            OpNames(WriteOps(tagging, d0, desired, c, names[..i])) + OpNames(WriteOp(tagging, d1, desired, c, names[i]))
  {
    var done := WriteOps(tagging, d0, desired, c, names[..i]);
    WritesSnoc(tagging, d0, desired, c, names, i);
    WriteNotReached(tagging, d0, desired, c, names, i);
    OrphanOpAgrees(tagging, d0, d1, desired, c, names[i]);
    ProgressThen(d0, d1, d2, done, WriteOp(tagging, d1, desired, c, names[i]), b0, b1, b2, ok);
    OpNamesConcat(done, WriteOp(tagging, d1, desired, c, names[i]));
    if !ok { WritesStop(tagging, d0, d2, desired, c, names, i + 1, b0, b2); }
  }

  /** What is owed depends only on the entries of that category at the desired names. */
  lemma {:induction false} WriteOpsAgree(tagging: Tagging, a: Dirs, b: Dirs, desired: Desired, c: Category,
                                         names: seq<string>)
    requires forall n :: n in names ==> At(a, c, n) == At(b, c, n)
    ensures WriteOps(tagging, a, desired, c, names) == WriteOps(tagging, b, desired, c, names)
  {
    if names != [] { WriteOpsAgree(tagging, a, b, desired, c, names[..|names| - 1]); }
  }

  lemma {:induction false} OrphanOpsAgree(tagging: Tagging, a: Dirs, b: Dirs, desired: Desired, c: Category,
                                          names: seq<string>)
    requires a.Get(c) == b.Get(c)
    ensures OrphanOps(tagging, a, desired, c, names) == OrphanOps(tagging, b, desired, c, names)
  {
    if names != [] { OrphanOpsAgree(tagging, a, b, desired, c, names[..|names| - 1]); }
  }

  /** Removing orphans does not change what must be written. */
  lemma WritesAfterOrphans(tagging: Tagging, dirs: Dirs, desired: Desired, c: Category)
    requires ValidDesired(desired)
    ensures Writes(tagging, ApplyAll(dirs, Orphans(tagging, dirs, desired, c)), desired, c) ==
            Writes(tagging, dirs, desired, c)
  {
    var ops := Orphans(tagging, dirs, desired, c);
    OrphanOpsExact(tagging, dirs, desired, c, SortedNames(dirs.Get(c).Keys));
    forall n | n in desired.Get(c).keys ensures At(ApplyAll(dirs, ops), c, n) == At(dirs, c, n) {
      assert desired.Get(c).Valid();
      ApplyAllUntouched(dirs, ops, c, n);
    }
    WriteOpsAgree(tagging, ApplyAll(dirs, ops), dirs, desired, c, desired.Get(c).keys);
  }

  lemma SameCategory(a: Dirs, b: Dirs, c: Category)
    requires forall n :: At(a, c, n) == At(b, c, n)
    ensures a.Get(c) == b.Get(c)
  {
    forall n ensures n in a.Get(c) <==> n in b.Get(c) { assert At(a, c, n) == At(b, c, n); }
    forall n | n in a.Get(c) ensures a.Get(c)[n] == b.Get(c)[n] { assert At(a, c, n) == At(b, c, n); }
  }

  /** The names an operation list removes or writes, category by category. */
  ghost predicate Reports(tagging: Tagging, added: Manifest, removed: Manifest, dirs: Dirs, desired: Desired,
                          c: Category) {
    && removed.Get(c) == OpNames(Orphans(tagging, dirs, desired, c))
    && added.Get(c) == OpNames(Writes(tagging, dirs, desired, c))
  }

  lemma DeployStep(tagging: Tagging, d0: Dirs, d1: Dirs, d2: Dirs, desired: Desired, c: Category, names: seq<string>,
                   i: nat,
                   b0: nat, b1: nat, b2: nat)
    requires i < |names| && names[i] in desired.Get(c).entries
    requires Progress(d0, d1, Laws.DeployFiles(tagging, desired, c, names[..i]), b0, b1, true)
    requires Progress(d1, d2, [Write(c, names[i], TagOf(tagging, desired.Get(c).entries[names[i]]))], b1, b2, true)
    ensures Progress(d0, d2, Laws.DeployFiles(tagging, desired, c, names[..i + 1]), b0, b2, true)
  {
    assert names[..i + 1][..i] == names[..i];
    var op := Write(c, names[i], TagOf(tagging, desired.Get(c).entries[names[i]]));
    ProgressThen(d0, d1, d2, Laws.DeployFiles(tagging, desired, c, names[..i]), [op], b0, b1, b2, true);
  }

  /**
   * From `d0` to `d1` the first `k` operations were performed; the next one met a directory, or the process was
   * stopped.
   */
  ghost predicate Halted(d0: Dirs, d1: Dirs, ops: seq<Op>, k: nat, budget: nat) {
    k < |ops| && d1 == ApplyAll(d0, ops[..k]) && (budget == 0 || At(d1, ops[k].cat, ops[k].name) == Some(Directory))
  }

  ghost predicate HaltedIn(d0: Dirs, d1: Dirs, ops: seq<Op>, budget: nat) {
    exists k: nat :: Halted(d0, d1, ops, k, budget)
  }

  lemma HaltedBefore(d0: Dirs, d1: Dirs, p: seq<Op>, q: seq<Op>, budget: nat)
    requires HaltedIn(d0, d1, p, budget)
    ensures HaltedIn(d0, d1, p + q, budget)
  {
    var k: nat :| Halted(d0, d1, p, k, budget);
    assert (p + q)[..k] == p[..k] && (p + q)[k] == p[k];
    assert Halted(d0, d1, p + q, k, budget);
  }

  lemma HaltedAfter(d0: Dirs, d1: Dirs, d2: Dirs, p: seq<Op>, q: seq<Op>, b0: nat, b1: nat, b2: nat)
    requires Progress(d0, d1, p, b0, b1, true) && HaltedIn(d1, d2, q, b2)
    ensures HaltedIn(d0, d2, p + q, b2)
  {
    var k: nat :| Halted(d1, d2, q, k, b2);
    ApplyAllConcat(d0, p, q[..k]);
    assert (p + q)[..|p| + k] == p + q[..k] && (p + q)[|p| + k] == q[k];
    assert Halted(d0, d2, p + q, |p| + k, b2);
  }

  lemma {:induction false} DeployFilesPrefix(tagging: Tagging, desired: Desired, c: Category, names: seq<string>,
                                             i: nat)
    requires i <= |names|
    ensures Laws.DeployFiles(tagging, desired, c, names[..i]) <= Laws.DeployFiles(tagging, desired, c, names)
  {
    if i < |names| {
      var n := |names| - 1;
      DeployFilesPrefix(tagging, desired, c, names[..n], i);
      assert names[..n][..i] == names[..i];
    } else {
      assert names[..i] == names;
    }
  }

  /** The deployment of a category halts at its `i`-th file. */
  lemma DeployHalts(tagging: Tagging, d0: Dirs, d1: Dirs, desired: Desired, c: Category, names: seq<string>, i: nat,
                    b0: nat, b1: nat)
    requires i < |names| && names[i] in desired.Get(c).entries
    requires Progress(d0, d1, Laws.DeployFiles(tagging, desired, c, names[..i]), b0, b1, true)
    requires b1 == 0 || At(d1, c, names[i]) == Some(Directory)
    ensures HaltedIn(d0, d1, Laws.DeployFiles(tagging, desired, c, names), b1)
  {
    var p, ops := Laws.DeployFiles(tagging, desired, c, names[..i]), Laws.DeployFiles(tagging, desired, c, names);
    var op := Write(c, names[i], TagOf(tagging, desired.Get(c).entries[names[i]]));
    assert names[..i + 1][..i] == names[..i];
    assert Laws.DeployFiles(tagging, desired, c, names[..i + 1]) == p + [op];
    DeployFilesPrefix(tagging, desired, c, names, i + 1);
    assert ops[..|p|] == p && ops[|p|] == op;
    assert Halted(d0, d1, ops, |p|, b1);
  }

  /** The three parts of a reconcile, each of one category. */
  lemma CategoryPieces(tagging: Tagging, dirs: Dirs, desired: Desired) returns (p: seq<Op>, q: seq<Op>, s: seq<Op>)
    requires ValidDesired(desired)
    ensures p == CategoryOps(tagging, dirs, desired, Modprobe)
    ensures q == CategoryOps(tagging, dirs, desired, Udev)
    ensures s == CategoryOps(tagging, dirs, desired, Sysctl)
    ensures AllOps(tagging, dirs, desired) == p + q + s
    ensures forall op :: op in p ==> op.cat == Modprobe
    ensures forall op :: op in q ==> op.cat == Udev
  {
    p, q, s := CategoryOps(tagging, dirs, desired, Modprobe), CategoryOps(tagging, dirs, desired, Udev),
      CategoryOps(tagging, dirs, desired, Sysctl);
    CategoryOpsExact(tagging, dirs, desired, Modprobe);
    CategoryOpsExact(tagging, dirs, desired, Udev);
  }

  class Root {
    const tagging: Tagging
    var dirs: Dirs
    var manifest: Manifest
    var fingerprint: string

    /** How many more changes are made before the process is stopped. */
    var budget: nat

    constructor (tagging: Tagging, dirs: Dirs, manifest: Manifest, fingerprint: string, budget: nat)
      ensures this.tagging == tagging && this.dirs == dirs && this.manifest == manifest
              && this.fingerprint == fingerprint && this.budget == budget
    {
      this.tagging, this.dirs, this.manifest, this.fingerprint, this.budget := tagging, dirs, manifest, fingerprint,
        budget;
    }

    method Perform(op: Op) returns (ok: bool)
      modifies `dirs, `budget
      ensures Progress(old(dirs), dirs, [op], old(budget), budget, ok)
    {
      ok := budget > 0;
      if ok {
        dirs := Apply(dirs, op);
        budget := budget - 1;
      }
      assert [op][..0] == [];
    }

    method RemoveIfOrphan(c: Category, desired: Desired, name: string) returns (ok: bool, removed: seq<string>)
      modifies `dirs, `budget
      ensures Progress(old(dirs), dirs, OrphanOp(tagging, old(dirs), desired, c, name), old(budget), budget, ok)
      ensures removed == OpNames(OrphanOp(tagging, old(dirs), desired, c, name))
    {
      ok, removed := true, [];
      if IsManaged(tagging, At(dirs, c, name)) {
        if name !in desired.Get(c).entries {
          ok := Perform(Unlink(c, name));
          removed := [name];
        }
      }
    }

    /** Step 1 of a reconcile: managed files that are not desired go. */
    method RemoveOrphans(c: Category, desired: Desired) returns (ok: bool, removed: seq<string>)
      modifies `dirs, `budget
      ensures Progress(old(dirs), dirs, Orphans(tagging, old(dirs), desired, c), old(budget), budget, ok)
      ensures ok ==> removed == OpNames(Orphans(tagging, old(dirs), desired, c))
    {
      hide OrphanOp, Managed, ApplyAll;
      var names := SortedNames(dirs.Get(c).Keys);
      ok, removed := true, [];
      NothingOwed(dirs, budget);
      for i := 0 to |names|
        invariant Progress(old(dirs), dirs, OrphanOps(tagging, old(dirs), desired, c, names[..i]), old(budget), budget,
                           true)
        invariant removed == OpNames(OrphanOps(tagging, old(dirs), desired, c, names[..i]))
      {
        ghost var before, budgetBefore := dirs, budget;
        var gone;
        ok, gone := RemoveIfOrphan(c, desired, names[i]);
        OrphanStep(tagging, old(dirs), before, dirs, desired, c, names, i, old(budget), budgetBefore, budget, ok);
        if !ok { return; }
        removed := removed + gone;
      }
      assert names[..|names|] == names;
      ok := true;
    }

    method WriteIfNeeded(c: Category, desired: Desired, name: string) returns (ok: bool, added: seq<string>)
      requires name in desired.Get(c).entries
      modifies `dirs, `budget
      ensures Progress(old(dirs), dirs, WriteOp(tagging, old(dirs), desired, c, name), old(budget), budget, ok)
      ensures added == OpNames(WriteOp(tagging, old(dirs), desired, c, name))
    {
      hide Newlines, Apply;
      var content := TagOf(tagging, desired.Get(c).entries[name]);
      var existing := At(dirs, c, name);
      if IsManaged(tagging, existing) && Newlines(existing.value.content) == content { return true, []; }
      if !IsManaged(tagging, existing) && existing.Some? { return true, []; }
      ok := Perform(Write(c, name, content));
      added := [name];
    }

    /** Step 2 of a reconcile: missing and outdated files are written; what is not ours is left alone. */
    method WriteDesired(c: Category, desired: Desired) returns (ok: bool, added: seq<string>)
      requires ValidDesired(desired)
      modifies `dirs, `budget
      ensures Progress(old(dirs), dirs, Writes(tagging, old(dirs), desired, c), old(budget), budget, ok)
      ensures ok ==> added == OpNames(Writes(tagging, old(dirs), desired, c))
    {
      var names := desired.Get(c).keys;
      assert desired.Get(c).Valid();
      ok, added := true, [];
      for i := 0 to |names|
        invariant Progress(old(dirs), dirs, WriteOps(tagging, old(dirs), desired, c, names[..i]), old(budget), budget,
                           true)
        invariant added == OpNames(WriteOps(tagging, old(dirs), desired, c, names[..i]))
      {
        ghost var before, budgetBefore := dirs, budget;
        assert names[i] in names;
        var news;
        ok, news := WriteIfNeeded(c, desired, names[i]);
        WriteStep(tagging, old(dirs), before, dirs, desired, c, names, i, old(budget), budgetBefore, budget, ok);
        if !ok { return; }
        added := added + news;
      }
      assert names[..|names|] == names;
      ok := true;
    }

    method ReconcileCategory(c: Category, desired: Desired) returns (ok: bool, added: seq<string>, removed: seq<string>)
      requires ValidDesired(desired)
      modifies `dirs, `budget
      ensures Progress(old(dirs), dirs, CategoryOps(tagging, old(dirs), desired, c), old(budget), budget, ok)
      ensures ok ==>
              removed == OpNames(Orphans(tagging, old(dirs), desired, c))
                && added == OpNames(Writes(tagging, old(dirs), desired, c))
    {
      added := [];
      ok, removed := RemoveOrphans(c, desired);
      ghost var orphans, writes := Orphans(tagging, old(dirs), desired, c), Writes(tagging, old(dirs), desired, c);
      if !ok {
        ProgressStopped(old(dirs), dirs, orphans, writes, old(budget), budget);
        return;
      }
      WritesAfterOrphans(tagging, old(dirs), desired, c);
      ghost var middle, budgetMiddle := dirs, budget;
      ok, added := WriteDesired(c, desired);
      ProgressThen(old(dirs), middle, dirs, orphans, writes, old(budget), budgetMiddle, budget, ok);
    }

    /** `reconcile_hardware_files`. */
    method Reconcile(desired: Desired) returns (ok: bool, added: Manifest, removed: Manifest)
      requires ValidDesired(desired)
      modifies `dirs, `budget
      ensures Progress(old(dirs), dirs, AllOps(tagging, old(dirs), desired), old(budget), budget, ok)
      ensures ok ==> forall c :: Reports(tagging, added, removed, old(dirs), desired, c)
    {
      hide CategoryOps, OpNames, Orphans, Writes;
      added, removed := NO_FILES, NO_FILES;
      ghost var p, q, s := CategoryPieces(tagging, dirs, desired);
      var news, gone;
      ok, news, gone := ReconcileCategory(Modprobe, desired);
      added, removed := added.(modprobe := news), removed.(modprobe := gone);
      if !ok {
        ProgressStopped(old(dirs), dirs, p, q, old(budget), budget);
        ProgressStopped(old(dirs), dirs, p + q, s, old(budget), budget);
        return;
      }
      ghost var d1, b1 := dirs, budget;
      SameReports(tagging, old(dirs), p, desired, Udev);
      ok, news, gone := ReconcileCategory(Udev, desired);
      added, removed := added.(udev := news), removed.(udev := gone);
      ProgressThen(old(dirs), d1, dirs, p, q, old(budget), b1, budget, ok);
      if !ok {
        ProgressStopped(old(dirs), dirs, p + q, s, old(budget), budget);
        return;
      }
      ghost var d2, b2 := dirs, budget;
      SameReports(tagging, old(dirs), p + q, desired, Sysctl);
      ok, news, gone := ReconcileCategory(Sysctl, desired);
      added, removed := added.(sysctl := news), removed.(sysctl := gone);
      ProgressThen(old(dirs), d2, dirs, p + q, s, old(budget), b2, budget, ok);
    }

    method DeployCategory(c: Category, desired: Desired) returns (ok: bool, written: seq<string>)
      requires ValidDesired(desired)
      modifies `dirs, `budget
      ensures ok ==>
              Progress(old(dirs), dirs, Laws.DeployFiles(tagging, desired, c, desired.Get(c).keys), old(budget),
                       budget, true)
      ensures ok ==> written == desired.Get(c).keys
      ensures !ok ==> HaltedIn(old(dirs), dirs, Laws.DeployFiles(tagging, desired, c, desired.Get(c).keys), budget)
    {
      hide Laws.DeployFiles, HaltedIn;
      var names := desired.Get(c).keys;
      assert desired.Get(c).Valid();
      ok, written := true, [];
      NothingDeployed(tagging, desired, c, dirs, budget);
      assert names[..0] == [];
      for i := 0 to |names|
        invariant Progress(old(dirs), dirs, Laws.DeployFiles(tagging, desired, c, names[..i]), old(budget), budget,
                           true)
        invariant written == names[..i]
      {
        assert names[i] in names;
        ghost var before, budgetBefore := dirs, budget;
        if At(dirs, c, names[i]) == Some(Directory) || budget == 0 {
          DeployHalts(tagging, old(dirs), dirs, desired, c, names, i, old(budget), budget);
        }
        if At(dirs, c, names[i]) == Some(Directory) { return false, written; }
        ok := Perform(Write(c, names[i], TagOf(tagging, desired.Get(c).entries[names[i]])));
        if !ok {
          assert dirs == before;
          return;
        }
        DeployStep(tagging, old(dirs), before, dirs, desired, c, names, i, old(budget), budgetBefore, budget);
        written := written + [names[i]];
      }
      assert names[..|names|] == names;
      ok := true;
    }

    /**
     * `deploy_hardware_files`: it raises at a directory that bears a desired name. If it raises or is stopped, the
     * files before that place have been written, and no other.
     */
    method Deploy(desired: Desired) returns (ok: bool, written: Manifest)
      requires ValidDesired(desired)
      modifies `dirs, `budget
      ensures ok ==> dirs == Laws.Deployed(tagging, old(dirs), desired)
      ensures ok ==> forall c :: written.Get(c) == desired.Get(c).keys
      ensures !ok ==> HaltedIn(old(dirs), dirs, Laws.DeployOps(tagging, desired), budget)
    {
      hide Laws.DeployFiles, HaltedIn;
      written := NO_FILES;
      ghost var d0, b0 := dirs, budget;
      ghost var p := Laws.DeployFiles(tagging, desired, Modprobe, desired.modprobe.keys);
      ghost var q := Laws.DeployFiles(tagging, desired, Udev, desired.udev.keys);
      ghost var s := Laws.DeployFiles(tagging, desired, Sysctl, desired.sysctl.keys);
      var names;
      ok, names := DeployCategory(Modprobe, desired);
      if !ok {
        HaltedBefore(d0, dirs, p, q, budget);
        HaltedBefore(d0, dirs, p + q, s, budget);
        return;
      }
      written := written.(modprobe := names);
      ghost var d1, b1 := dirs, budget;
      ok, names := DeployCategory(Udev, desired);
      if !ok {
        HaltedAfter(d0, d1, dirs, p, q, b0, b1, budget);
        HaltedBefore(d0, dirs, p + q, s, budget);
        return;
      }
      written := written.(udev := names);
      ProgressThen(d0, d1, dirs, p, q, b0, b1, budget, true);
      ghost var d2, b2 := dirs, budget;
      ok, names := DeployCategory(Sysctl, desired);
      if !ok {
        HaltedAfter(d0, d2, dirs, p + q, s, b0, b2, budget);
        return;
      }
      written := written.(sysctl := names);
      ProgressThen(d0, d2, dirs, p + q, s, b0, b2, budget, true);
    }
  }

  lemma NothingOwed(dirs: Dirs, budget: nat)
    ensures Progress(dirs, dirs, [], budget, budget, true)
  {
  }

  lemma NothingDeployed(tagging: Tagging, desired: Desired, c: Category, dirs: Dirs, budget: nat)
    ensures Progress(dirs, dirs, Laws.DeployFiles(tagging, desired, c, []), budget, budget, true)
  {
  }

  lemma OrphansStop(tagging: Tagging, d0: Dirs, d1: Dirs, desired: Desired, c: Category, names: seq<string>, i: nat,
                    b0: nat, b1: nat)
    requires i <= |names| && Progress(d0, d1, OrphanOps(tagging, d0, desired, c, names[..i]), b0, b1, false)
    ensures Progress(d0, d1, OrphanOps(tagging, d0, desired, c, names), b0, b1, false)
    decreases |names| - i
  {
    if i < |names| {
      OrphansSnoc(tagging, d0, desired, c, names, i);
      ProgressStopped(d0, d1, OrphanOps(tagging, d0, desired, c, names[..i]),
                      OrphanOp(tagging, d0, desired, c, names[i]), b0, b1);
      OrphansStop(tagging, d0, d1, desired, c, names, i + 1, b0, b1);
    } else {
      assert names[..i] == names;
    }
  }

  lemma WritesStop(tagging: Tagging, d0: Dirs, d1: Dirs, desired: Desired, c: Category, names: seq<string>, i: nat,
                   b0: nat, b1: nat)
    requires i <= |names| && Progress(d0, d1, WriteOps(tagging, d0, desired, c, names[..i]), b0, b1, false)
    ensures Progress(d0, d1, WriteOps(tagging, d0, desired, c, names), b0, b1, false)
    decreases |names| - i
  {
    if i < |names| {
      WritesSnoc(tagging, d0, desired, c, names, i);
      ProgressStopped(d0, d1, WriteOps(tagging, d0, desired, c, names[..i]),
                      WriteOp(tagging, d0, desired, c, names[i]), b0, b1);
      WritesStop(tagging, d0, d1, desired, c, names, i + 1, b0, b1);
    } else {
      assert names[..i] == names;
    }
  }

  lemma SameReports(tagging: Tagging, dirs: Dirs, ops: seq<Op>, desired: Desired, c: Category)
    requires forall op :: op in ops ==> op.cat != c
    ensures Orphans(tagging, ApplyAll(dirs, ops), desired, c) == Orphans(tagging, dirs, desired, c)
    ensures Writes(tagging, ApplyAll(dirs, ops), desired, c) == Writes(tagging, dirs, desired, c)
    ensures CategoryOps(tagging, ApplyAll(dirs, ops), desired, c) == CategoryOps(tagging, dirs, desired, c)
  {
    var after := ApplyAll(dirs, ops);
    forall n ensures At(after, c, n) == At(dirs, c, n) { ApplyAllUntouched(dirs, ops, c, n); }
    SameCategory(after, dirs, c);
    OrphanOpsAgree(tagging, after, dirs, desired, c, SortedNames(dirs.Get(c).Keys));
    WriteOpsAgree(tagging, after, dirs, desired, c, desired.Get(c).keys);
  }
}
