/** The boot-time rescan: a fingerprint decides whether the reconcile loop may be skipped. */
module HardwareRescan {
  import opened Text
  import opened Sorting
  import opened Wrappers
  import opened HardwareFiles
  import opened HardwareMatching
  import opened TargetRoot
  import Laws = ReconcileLaws

  /** What does not change from boot to boot. */
  datatype Install = Install(tagging: Tagging, glob: Glob, catalog: Catalog, hash: Hash)

  ghost predicate ValidInstall(env: Install) {
    ValidCatalog(env.catalog) && GoodHash(env.hash)
  }

  /** The persistent state under the target root. */
  datatype System = System(dirs: Dirs, manifest: Manifest, fingerprint: string)

  /** A boot: the hardware detected, the options, what chwd reports after it ran, and the changes made before a stop. */
  datatype Boot = Boot(hw: Hardware, force: bool, dryRun: bool, skipChwd: bool, chwdAfter: Option<string>, budget: nat)

  lemma SourcesAreValid(env: Install, hw: Hardware)
    requires ValidInstall(env)
    ensures forall s :: s in SourcesFor(env.glob, env.catalog, hw) ==> ValidSource(s)
  {
    hide SourcesFor, GoodHash, ValidSource;
    SelectedAreValid(env.glob, env.catalog, hw);
  }

  /** The files this hardware calls for. */
  function DesiredFor(env: Install, hw: Hardware): Desired
    requires ValidInstall(env)
  {
    SourcesAreValid(env, hw);
    ResolvedFiles(SourcesFor(env.glob, env.catalog, hw))
  }

  lemma DesiredIsValid(env: Install, hw: Hardware)
    requires ValidInstall(env)
    ensures ValidDesired(DesiredFor(env, hw))
  {
    SourcesAreValid(env, hw);
    LastSourceWins(SourcesFor(env.glob, env.catalog, hw), Modprobe, "");
  }

  /** The hardware as fingerprinted at the end of a run: chwd may have changed the driver profile. */
  function AfterChwd(b: Boot): Hardware {
    if b.skipChwd || b.chwdAfter.None? then b.hw else b.hw.(chwd := b.chwdAfter.value)
  }

  predicate TakesFastPath(env: Install, fingerprint: string, b: Boot) {
    !b.force && fingerprint != "" && fingerprint == env.hash(PayloadOf(b.hw))
  }

  predicate Reconciles(env: Install, fingerprint: string, b: Boot) {
    !TakesFastPath(env, fingerprint, b) && !b.dryRun
  }

  /** The changes a run that reconciles makes: its file operations, the manifest, the fingerprint. */
  function ChangesOf(env: Install, st: System, b: Boot): nat
    requires ValidInstall(env)
  {
    |AllOps(env.tagging, st.dirs, DesiredFor(env, b.hw))| + 2
  }

  /** `run_rescan` on the persistent state. */
  function AfterBoot(env: Install, st: System, b: Boot): System
    requires ValidInstall(env)
  {
    if !Reconciles(env, st.fingerprint, b) then st
    else
      var desired := DesiredFor(env, b.hw);
      var ops := AllOps(env.tagging, st.dirs, desired);
      var dirs := Reconciled(env.tagging, st.dirs, desired);
      if b.budget < |ops| then st.(dirs := ApplyAll(st.dirs, ops[..b.budget]))
      else if b.budget == |ops| then st.(dirs := dirs)
      else if b.budget == |ops| + 1 then st.(dirs := dirs, manifest := ManifestOf(env.tagging, dirs))
      else System(dirs, ManifestOf(env.tagging, dirs), env.hash(PayloadOf(AfterChwd(b))))
  }

  // ---- What a run promises ----

  /** After a full run: what is foreign stays, and every other place holds the file called for, if there is one. */
  ghost predicate LeftAs(tagging: Tagging, before: Option<Entry>, after: Option<Entry>, wanted: Option<Owned>) {
    if before.Some? && !(before.value.File? && tagging.owner(before.value.content).Some?) then after == before
    else if wanted.None? then after == None
    else
      && after.Some? && after.value.File?
      && (|| after.value.content == TagOf(tagging, wanted.value)
          || (after == before && Newlines(after.value.content) == TagOf(tagging, wanted.value)))
  }

  /** What a full run for this hardware leaves, and what it records: our files, and the hash of `recorded`. */
  ghost predicate FullRun(env: Install, before: System, after: System, hw: Hardware, recorded: Hardware)
    requires ValidInstall(env)
  {
    && (forall c, n ::
          LeftAs(env.tagging, At(before.dirs, c, n), At(after.dirs, c, n), DesiredFor(env, hw).Get(c).Get(n)))
    && (forall c, n :: n in after.manifest.Get(c) <==> IsManaged(env.tagging, At(after.dirs, c, n)))
    && after.fingerprint == env.hash(PayloadOf(recorded))
  }

  /** Enough changes for a full run before the process is stopped. */
  predicate Enough(env: Install, dirs: Dirs, hw: Hardware, budget: nat)
    requires ValidInstall(env)
  {
    budget >= |AllOps(env.tagging, dirs, DesiredFor(env, hw))| + 2
  }

  lemma LeavesEveryPlace(tagging: Tagging, dirs: Dirs, desired: Desired, c: Category, n: string)
    requires ValidDesired(desired)
    ensures LeftAs(tagging, At(dirs, c, n), At(Reconciled(tagging, dirs, desired), c, n), desired.Get(c).Get(n))
  {
    hide Reconciled, Newlines;
    Laws.ReconciledSettles(tagging, dirs, desired, c, n);
  }

  lemma ManifestNames(tagging: Tagging, dirs: Dirs, c: Category, n: string)
    ensures n in ManifestOf(tagging, dirs).Get(c) <==> IsManaged(tagging, At(dirs, c, n))
  {
    assert n in ManagedNames(tagging, dirs, c) <==> IsManaged(tagging, At(dirs, c, n));
  }

  lemma FullRunDone(env: Install, st: System, b: Boot)
    requires ValidInstall(env) && Reconciles(env, st.fingerprint, b) && Enough(env, st.dirs, b.hw, b.budget)
    ensures FullRun(env, st, AfterBoot(env, st, b), b.hw, AfterChwd(b))
  {
    hide DesiredFor, ManifestOf, AllOps, PayloadOf, LeftAs;
    var desired := DesiredFor(env, b.hw);
    DesiredIsValid(env, b.hw);
    var after := AfterBoot(env, st, b);
    assert after.dirs == Reconciled(env.tagging, st.dirs, desired);
    forall c, n
      ensures LeftAs(env.tagging, At(st.dirs, c, n), At(after.dirs, c, n), desired.Get(c).Get(n))
      ensures n in after.manifest.Get(c) <==> IsManaged(env.tagging, At(after.dirs, c, n))
    {
      hide Reconciled;
      LeavesEveryPlace(env.tagging, st.dirs, desired, c, n);
      ManifestNames(env.tagging, after.dirs, c, n);
    }
  }

  /** Forced, or with no recorded fingerprint or another one, and not a dry run: the files are reconciled in full. */
  predicate MustReconcile(env: Install, fingerprint: string, hw: Hardware, force: bool, dryRun: bool) {
    !dryRun && (force || fingerprint == "" || fingerprint != env.hash(PayloadOf(hw)))
  }

  /** A boot either makes a full run, if it must and is not stopped, or may change nothing. */
  lemma BootDoesItsWork(env: Install, st: System, b: Boot)
    requires ValidInstall(env)
    ensures MustReconcile(env, st.fingerprint, b.hw, b.force, b.dryRun) && Enough(env, st.dirs, b.hw, b.budget) ==>
              FullRun(env, st, AfterBoot(env, st, b), b.hw, AfterChwd(b))
    ensures !MustReconcile(env, st.fingerprint, b.hw, b.force, b.dryRun) ==> AfterBoot(env, st, b) == st
  {
    hide FullRun, DesiredFor, AllOps, PayloadOf;
    if MustReconcile(env, st.fingerprint, b.hw, b.force, b.dryRun) && Enough(env, st.dirs, b.hw, b.budget) {
      FullRunDone(env, st, b);
    }
  }

  const EXIT_OK := 0
  const EXIT_DRYRUN_DIFF := 10
  const EXIT_ERROR := 1

  /** A dry run compares the names in the manifest with the names that are desired. */
  ghost predicate NamesDiffer(manifest: Manifest, desired: Desired, c: Category) {
    exists n :: (n in desired.Get(c).entries) != (n in manifest.Get(c))
  }

  // ---- The run itself ----

  method CompareNames(manifest: Manifest, desired: Desired) returns (differ: bool)
    ensures differ <==> exists c :: NamesDiffer(manifest, desired, c)
  {
    differ := false;
    for i := 0 to 3
      invariant differ <==> exists j :: 0 <= j < i && NamesDiffer(manifest, desired, CATEGORIES[j])
    {
      var c := CATEGORIES[i];
      var existing := set n | n in manifest.Get(c);
      var toAdd := desired.Get(c).entries.Keys - existing;
      var toRemove := existing - desired.Get(c).entries.Keys;
      if n :| (n in desired.Get(c).entries) != (n in manifest.Get(c)) { assert n in toAdd + toRemove; }
      if n :| n in toAdd + toRemove { assert (n in desired.Get(c).entries) != (n in manifest.Get(c)); }
      if toAdd != {} || toRemove != {} { differ := true; }
    }
    forall c | NamesDiffer(manifest, desired, c) ensures differ {
      assert c == CATEGORIES[if c == Modprobe then 0 else if c == Udev then 1 else 2];
    }
  }

  lemma NamesAgree(manifest: Manifest, desired: Desired)
    ensures (exists c :: NamesDiffer(manifest, desired, c)) <==>
            !forall c, n :: n in desired.Get(c).entries <==> n in manifest.Get(c)
  {
    if c, n :| (n in desired.Get(c).entries) != (n in manifest.Get(c)) { assert NamesDiffer(manifest, desired, c); }
  }

  /** Discovering, matching and resolving: the files for the detected hardware. */
  method ResolveConfig(env: Install, hw: Hardware) returns (desired: Desired)
    requires ValidInstall(env)
    ensures desired == DesiredFor(env, hw)
  {
    var matched := Filter(env.catalog.quirks, (q: Quirk) => q.Matches(hw.pci, hw.dmi.chassisType));
    var machine := SuggestMachine(env.glob, env.catalog.machines, hw.dmi);
    var quirks := ResolveHardware(machine, matched, env.catalog.quirks);
    SourcesAreValid(env, hw);
    desired := ResolveFiles(ConfigSources(machine, quirks));
  }

  function StateOf(root: Root): System
    reads root
  {
    System(root.dirs, root.manifest, root.fingerprint)
  }

  /** Writing the manifest, then the fingerprint: two changes, each of which may be the last. */
  method Persist(root: Root, fingerprint: string) returns (ok: bool)
    modifies root
    ensures root.dirs == old(root.dirs)
    ensures root.manifest == if old(root.budget) >= 1 then ManifestOf(root.tagging, root.dirs) else old(root.manifest)
    ensures root.fingerprint == if old(root.budget) >= 2 then fingerprint else old(root.fingerprint)
    ensures ok <==> old(root.budget) >= 2
  {
    if root.budget == 0 { return false; }
    root.manifest := ManifestOf(root.tagging, root.dirs);
    root.budget := root.budget - 1;
    if root.budget == 0 { return false; }
    root.fingerprint := fingerprint;
    root.budget := root.budget - 1;
    ok := true;
  }

  /** `run_rescan`: the exit code, and the state it leaves. */
  method RunRescan(env: Install, root: Root, hw: Hardware, force: bool, dryRun: bool, skipChwd: bool,
                   chwdAfter: Option<string>)
    returns (code: int)
    requires ValidInstall(env) && root.tagging == env.tagging
    modifies root
    ensures var b := Boot(hw, force, dryRun, skipChwd, chwdAfter, old(root.budget));
            && StateOf(root) == AfterBoot(env, old(StateOf(root)), b)
            && (code == EXIT_DRYRUN_DIFF <==>
                  && dryRun && !TakesFastPath(env, old(root.fingerprint), b)
                  && exists c :: NamesDiffer(old(root.manifest), DesiredFor(env, hw), c))
            && (code == EXIT_ERROR <==>
                  && Reconciles(env, old(root.fingerprint), b)
                  && old(root.budget) < ChangesOf(env, old(StateOf(root)), b))
    ensures code in [EXIT_OK, EXIT_ERROR, EXIT_DRYRUN_DIFF]
    ensures dryRun || (!force && old(root.fingerprint) != "" && old(root.fingerprint) == env.hash(PayloadOf(hw))) ==>
              StateOf(root) == old(StateOf(root))
    ensures !dryRun && (force || old(root.fingerprint) == "" || old(root.fingerprint) != env.hash(PayloadOf(hw)))
            && Enough(env, old(root.dirs), hw, old(root.budget)) ==>
              && code == 0
              && FullRun(env, old(StateOf(root)), StateOf(root), hw,
                         hw.(chwd := if skipChwd then hw.chwd else chwdAfter.GetOr(hw.chwd)))
    ensures dryRun ==>
              code == if (!force && old(root.fingerprint) != "" && old(root.fingerprint) == env.hash(PayloadOf(hw)))
                         || forall c, n :: n in DesiredFor(env, hw).Get(c).entries <==> n in old(root.manifest).Get(c)
                      then 0 else 10
  {
    hide DesiredFor, AllOps, ManifestOf, SortedNames, PayloadOf, FullRun;
    BootDoesItsWork(env, StateOf(root), Boot(hw, force, dryRun, skipChwd, chwdAfter, root.budget));
    var current := env.hash(PayloadOf(hw));
    var saved := root.fingerprint;
    if !force && saved != "" && saved == current { return EXIT_OK; }
    var desired := ResolveConfig(env, hw);
    if dryRun {
      var differ := CompareNames(root.manifest, desired);
      NamesAgree(root.manifest, desired);
      return if differ then EXIT_DRYRUN_DIFF else EXIT_OK;
    }
    DesiredIsValid(env, hw);
    var ok, added, removed := root.Reconcile(desired);
    if !ok { return EXIT_ERROR; }
    var chwd := hw.chwd;
    if !skipChwd {
      if chwdAfter.Some? { chwd := chwdAfter.value; }
    }
    ok := Persist(root, env.hash(PayloadOf(hw.(chwd := chwd))));
    code := if ok then EXIT_OK else EXIT_ERROR;
  }

  // ---- Settled directories ----

  /** A reconcile for this hardware would change nothing. */
  ghost predicate Settled(env: Install, dirs: Dirs, hw: Hardware)
    requires ValidInstall(env)
  {
    Reconciled(env.tagging, dirs, DesiredFor(env, hw)) == dirs
  }

  /** A recorded fingerprint stands only for hardware that the directories are settled for. */
  ghost predicate Trustworthy(env: Install, st: System)
    requires ValidInstall(env)
  {
    st.fingerprint != "" ==> forall hw :: env.hash(PayloadOf(hw)) == st.fingerprint ==> Settled(env, st.dirs, hw)
  }

  lemma SameFingerprintSameFiles(env: Install, a: Hardware, b: Hardware)
    requires ValidInstall(env) && env.hash(PayloadOf(a)) == env.hash(PayloadOf(b))
    ensures DesiredFor(env, a) == DesiredFor(env, b)
  {
    FingerprintCoversMatching(env.glob, env.catalog, env.hash, a, b);
  }

  lemma ChwdChangesNoFiles(env: Install, b: Boot)
    requires ValidInstall(env)
    ensures DesiredFor(env, AfterChwd(b)) == DesiredFor(env, b.hw)
  {
    var a := AfterChwd(b);
    assert a.pci == b.hw.pci && a.dmi == b.hw.dmi;
    assert SourcesFor(env.glob, env.catalog, a) == SourcesFor(env.glob, env.catalog, b.hw);
  }

  predicate Completes(env: Install, st: System, b: Boot)
    requires ValidInstall(env)
  {
    Reconciles(env, st.fingerprint, b) ==> b.budget >= ChangesOf(env, st, b)
  }

  lemma CompleteBootIsTrustworthy(env: Install, st: System, b: Boot)
    requires ValidInstall(env) && Trustworthy(env, st) && Completes(env, st, b)
    ensures Trustworthy(env, AfterBoot(env, st, b))
  {
    if Reconciles(env, st.fingerprint, b) {
      var after := AfterBoot(env, st, b);
      var desired := DesiredFor(env, b.hw);
      assert after.dirs == Reconciled(env.tagging, st.dirs, desired);
      assert after.fingerprint == env.hash(PayloadOf(AfterChwd(b)));
      ChwdChangesNoFiles(env, b);
      DesiredIsValid(env, b.hw);
      Laws.RepeatChangesNothing(env.tagging, st.dirs, desired);
      forall hw | env.hash(PayloadOf(hw)) == after.fingerprint ensures Settled(env, after.dirs, hw) {
        SameFingerprintSameFiles(env, hw, AfterChwd(b));
      }
    }
  }

  // ---- Changes made by others ----

  /** Some source of the catalog has a file of this name. */
  predicate CatalogName(catalog: Catalog, c: Category, n: string) {
    (exists i :: 0 <= i < |catalog.quirks| && n in catalog.quirks[i].source.files.Get(c).entries)
    || (exists i :: 0 <= i < |catalog.machines| && n in catalog.machines[i].source.files.Get(c).entries)
  }

  /** Others change only files that are neither ours nor of a name that the catalog uses. */
  ghost predicate OutsideEdit(env: Install, before: Dirs, after: Dirs) {
    forall c, n :: At(before, c, n) != At(after, c, n) ==>
      !CatalogName(env.catalog, c, n) && !IsManaged(env.tagging, At(before, c, n))
        && !IsManaged(env.tagging, At(after, c, n))
  }

  lemma {:induction false} LastSourceIsThere(sources: seq<Source>, c: Category, n: string)
    ensures var s := LastSource(sources, c, n); s.Some? ==> s.value in sources && n in s.value.files.Get(c).entries
  {
    if sources != [] { LastSourceIsThere(sources[..|sources| - 1], c, n); }
  }

  lemma DesiredNamesAreInCatalog(env: Install, hw: Hardware, c: Category, n: string)
    requires ValidInstall(env) && n in DesiredFor(env, hw).Get(c).entries
    ensures CatalogName(env.catalog, c, n)
  {
    var sources := SourcesFor(env.glob, env.catalog, hw);
    SourcesAreValid(env, hw);
    LastSourceWins(sources, c, n);
    LastSourceIsThere(sources, c, n);
    SourcesAreInCatalog(env.glob, env.catalog, hw);
    var s := LastSource(sources, c, n).value;
    assert InCatalog(env.catalog, s);
  }

  lemma EditKeepsSettled(env: Install, before: Dirs, after: Dirs, hw: Hardware)
    requires ValidInstall(env) && OutsideEdit(env, before, after) && Settled(env, before, hw)
    ensures Settled(env, after, hw)
  {
    var desired := DesiredFor(env, hw);
    DesiredIsValid(env, hw);
    forall c, n ensures At(Reconciled(env.tagging, after, desired), c, n) == At(after, c, n) {
      EditKeepsPlace(env, before, after, hw, c, n);
    }
    SameDirs(Reconciled(env.tagging, after, desired), after);
  }

  lemma EditKeepsPlace(env: Install, before: Dirs, after: Dirs, hw: Hardware, c: Category, n: string)
    requires ValidInstall(env) && OutsideEdit(env, before, after) && Settled(env, before, hw)
    ensures At(Reconciled(env.tagging, after, DesiredFor(env, hw)), c, n) == At(after, c, n)
  {
    hide DesiredFor;
    var desired := DesiredFor(env, hw);
    DesiredIsValid(env, hw);
    Laws.ReconciledAt(env.tagging, before, desired, c, n);
    Laws.ReconciledAt(env.tagging, after, desired, c, n);
    if At(before, c, n) != At(after, c, n) && n in desired.Get(c).entries {
      DesiredNamesAreInCatalog(env, hw, c, n);
    }
  }

  // ---- Runs of the system ----

  datatype Event = Booted(boot: Boot) | Edited(dirs: Dirs)

  function Step(env: Install, st: System, e: Event): System
    requires ValidInstall(env)
  {
    match e
    case Booted(b) => AfterBoot(env, st, b)
    case Edited(dirs) => st.(dirs := dirs)
  }

  /** Runs that reconcile are not interrupted, and others keep their hands off our files. */
  ghost predicate Allowed(env: Install, st: System, e: Event)
    requires ValidInstall(env)
  {
    match e
    case Booted(b) => Completes(env, st, b)
    case Edited(dirs) => OutsideEdit(env, st.dirs, dirs)
  }

  function After(env: Install, st: System, events: seq<Event>): System
    requires ValidInstall(env)
  {
    if events == [] then st
    else Step(env, After(env, st, events[..|events| - 1]), events[|events| - 1])
  }

  ghost predicate AllAllowed(env: Install, st: System, events: seq<Event>)
    requires ValidInstall(env)
  {
    forall i :: 0 <= i < |events| ==> Allowed(env, After(env, st, events[..i]), events[i])
  }

  lemma {:induction false} AlwaysTrustworthy(env: Install, st: System, events: seq<Event>)
    requires ValidInstall(env) && Trustworthy(env, st) && AllAllowed(env, st, events)
    ensures Trustworthy(env, After(env, st, events))
  {
    if events != [] {
      var n := |events| - 1;
      forall i | 0 <= i < n ensures Allowed(env, After(env, st, events[..n][..i]), events[..n][i]) {
        assert events[..n][..i] == events[..i];
      }
      AlwaysTrustworthy(env, st, events[..n]);
      var before := After(env, st, events[..n]);
      assert Allowed(env, before, events[n]);
      match events[n]
      case Booted(b) => CompleteBootIsTrustworthy(env, before, b);
      case Edited(dirs) =>
        if before.fingerprint != "" {
          forall hw | env.hash(PayloadOf(hw)) == before.fingerprint ensures Settled(env, dirs, hw) {
            EditKeepsSettled(env, before.dirs, dirs, hw);
          }
        }
    }
  }

  /**
   * From a system without a fingerprint, over every sequence of boots with any hardware, options and driver
   * profiles, a boot that takes the fast path finds the files as a full reconcile would leave them.
   */
  lemma FastPathIsSound(env: Install, st: System, events: seq<Event>, b: Boot)
    requires ValidInstall(env) && st.fingerprint == "" && AllAllowed(env, st, events)
    requires TakesFastPath(env, After(env, st, events).fingerprint, b)
    ensures var dirs := After(env, st, events).dirs; Reconciled(env.tagging, dirs, DesiredFor(env, b.hw)) == dirs
    ensures AfterBoot(env, After(env, st, events), b) == After(env, st, events)
  {
    AlwaysTrustworthy(env, st, events);
    assert Settled(env, After(env, st, events).dirs, b.hw);
  }

  // ---- Interrupted runs ----

  /** Every file the catalog can call for reads back as written and is recognised. */
  ghost predicate CleanInstall(env: Install)
    requires ValidInstall(env)
  {
    forall hw :: Laws.CleanConfig(env.tagging, DesiredFor(env, hw))
  }

  /** The boots of which none gets as far as a new fingerprint. */
  ghost predicate NoneCompletes(env: Install, st: System, boots: seq<Boot>)
    requires ValidInstall(env)
  {
    forall i :: 0 <= i < |boots| ==>
      var before := AfterBoots(env, st, boots[..i]);
      Reconciles(env, before.fingerprint, boots[i]) ==> boots[i].budget < ChangesOf(env, before, boots[i])
  }

  function AfterBoots(env: Install, st: System, boots: seq<Boot>): System
    requires ValidInstall(env)
  {
    if boots == [] then st
    else AfterBoot(env, AfterBoots(env, st, boots[..|boots| - 1]), boots[|boots| - 1])
  }

  /** The part runs behind a series of boots. */
  function PartRuns(env: Install, st: System, boots: seq<Boot>): seq<Laws.Run>
    requires ValidInstall(env)
  {
    if boots == [] then []
    else
      var n := |boots| - 1;
      PartRuns(env, st, boots[..n]) + PartRun(env, AfterBoots(env, st, boots[..n]), boots[n])
  }

  ghost predicate ValidRuns(env: Install, runs: seq<Laws.Run>)
    requires ValidInstall(env)
  {
    && (forall r :: r in runs ==> ValidDesired(r.desired))
    && (CleanInstall(env) ==> forall r :: r in runs ==> Laws.CleanConfig(env.tagging, r.desired))
  }

  lemma {:induction false} InterruptedRuns(env: Install, st: System, boots: seq<Boot>)
    requires ValidInstall(env) && NoneCompletes(env, st, boots)
    ensures AfterBoots(env, st, boots).dirs == Laws.AfterRuns(env.tagging, st.dirs, PartRuns(env, st, boots))
    ensures AfterBoots(env, st, boots).fingerprint == st.fingerprint
    ensures ValidRuns(env, PartRuns(env, st, boots))
  {
    hide DesiredFor, AllOps, AfterBoot, Reconciles, ChangesOf, Laws.AfterRun;
    hide Laws.CleanConfig, ValidInstall, PartRun, CleanInstall;
    if boots != [] {
      var n := |boots| - 1;
      assert NoneCompletes(env, st, boots[..n]) by {
        forall i | 0 <= i < n ensures boots[..n][..i] == boots[..i] && boots[..n][i] == boots[i] {}
      }
      var before := AfterBoots(env, st, boots[..n]);
      InterruptedRuns(env, st, boots[..n]);
      OneInterrupted(env, before, boots[n]);
      PartRunIsValid(env, before, boots[n]);
      AfterRunsConcat(env.tagging, st.dirs, PartRuns(env, st, boots[..n]), PartRun(env, before, boots[n]));
    }
  }

  /** The part run behind one boot that stops before recording a fingerprint, if it starts one. */
  function PartRun(env: Install, st: System, b: Boot): seq<Laws.Run>
    requires ValidInstall(env)
  {
    if Reconciles(env, st.fingerprint, b) then [Laws.Run(DesiredFor(env, b.hw), b.budget)] else []
  }

  lemma PartRunIsValid(env: Install, st: System, b: Boot)
    requires ValidInstall(env)
    ensures ValidRuns(env, PartRun(env, st, b))
  {
    hide DesiredFor, Laws.CleanConfig, Reconciles;
    DesiredIsValid(env, b.hw);
  }

  lemma OneInterrupted(env: Install, st: System, b: Boot)
    requires ValidInstall(env)
    requires Reconciles(env, st.fingerprint, b) ==> b.budget < ChangesOf(env, st, b)
    ensures AfterBoot(env, st, b).dirs == Laws.AfterRuns(env.tagging, st.dirs, PartRun(env, st, b))
    ensures AfterBoot(env, st, b).fingerprint == st.fingerprint
  {
    hide DesiredFor, AllOps, ValidInstall, Reconciles, ManifestOf;
    if Reconciles(env, st.fingerprint, b) {
      var run := Laws.Run(DesiredFor(env, b.hw), b.budget);
      var ops := AllOps(env.tagging, st.dirs, run.desired);
      if b.budget == |ops| { assert ops[..b.budget] == ops; }
      OneRun(env.tagging, st.dirs, run);
    }
  }

  lemma OneRun(tagging: Tagging, dirs: Dirs, run: Laws.Run)
    ensures Laws.AfterRuns(tagging, dirs, [run]) == Laws.AfterRun(tagging, dirs, run)
  {
    hide Laws.AfterRun;
    assert [run][..0] == [];
  }

  lemma {:induction false} AfterRunsConcat(tagging: Tagging, dirs: Dirs, p: seq<Laws.Run>, q: seq<Laws.Run>)
    ensures Laws.AfterRuns(tagging, dirs, p + q) == Laws.AfterRuns(tagging, Laws.AfterRuns(tagging, dirs, p), q)
  {
    if q == [] {
      assert p + q == p;
    } else {
      hide Laws.AfterRun;
      assert (p + q)[..|p + q| - 1] == p + q[..|q| - 1] && (p + q)[|p + q| - 1] == q[|q| - 1];
      AfterRunsConcat(tagging, dirs, p, q[..|q| - 1]);
    }
  }

  /** What the last of these boots to reach this place brought there, if one did. */
  function LastBrought(env: Install, st: System, boots: seq<Boot>, c: Category, n: string): Option<Option<Owned>>
    requires ValidInstall(env)
  {
    var last :- Laws.LastReach(env.tagging, st.dirs, PartRuns(env, st, boots), c, n);
    Some(last.Get(c).Get(n))
  }

  /**
   * After a run that recorded a fingerprint and then only interrupted ones, the fast path is right exactly when,
   * at each place that those reached, what was brought there last is what the recording run's hardware calls
   * for: the same text, also up to carriage returns; or no file where none is called for; or a file that is not
   * recognised any more.
   */
  lemma FastPathAfterInterruptionExactly(env: Install, st: System, boots: seq<Boot>, b: Boot)
    requires ValidInstall(env) && Trustworthy(env, st) && NoneCompletes(env, st, boots)
    requires TakesFastPath(env, AfterBoots(env, st, boots).fingerprint, b)
    ensures Settled(env, AfterBoots(env, st, boots).dirs, b.hw) <==>
            forall c, n :: var brought := LastBrought(env, st, boots, c, n);
                           brought.Some? ==> Laws.Rests(env.tagging, brought.value, DesiredFor(env, b.hw).Get(c).Get(n))
  {
    hide DesiredFor, Laws.LastReach, Laws.Rests, Reconciled, AfterBoots, PartRuns;
    InterruptedRuns(env, st, boots);
    DesiredIsValid(env, b.hw);
    assert Settled(env, st.dirs, b.hw);
    Laws.SettledAfterRunsExactly(env.tagging, st.dirs, PartRuns(env, st, boots), DesiredFor(env, b.hw));
  }

  /**
   * On clean files, the fast path is right only if the interrupted runs have left the files as the recording run
   * did.
   */
  lemma SettledMeansUnchanged(env: Install, st: System, boots: seq<Boot>, b: Boot)
    requires ValidInstall(env) && CleanInstall(env) && Laws.CleanDirs(env.tagging, st.dirs)
    requires Trustworthy(env, st) && NoneCompletes(env, st, boots)
    requires TakesFastPath(env, AfterBoots(env, st, boots).fingerprint, b)
    ensures Settled(env, AfterBoots(env, st, boots).dirs, b.hw) <==> AfterBoots(env, st, boots).dirs == st.dirs
  {
    hide DesiredFor, Reconciled, AfterBoots, PartRuns, Laws.CleanConfig;
    InterruptedRuns(env, st, boots);
    DesiredIsValid(env, b.hw);
    Laws.HistoryIndependent(env.tagging, st.dirs, PartRuns(env, st, boots), DesiredFor(env, b.hw));
    assert Settled(env, st.dirs, b.hw);
  }

  /**
   * A single interrupted run in between: the fast path is right exactly when that run was stopped before its
   * first change, or had no file to change.
   */
  lemma FastPathAfterStoppedBootExactly(env: Install, st: System, stopped: Boot, b: Boot)
    requires ValidInstall(env) && CleanInstall(env) && Laws.CleanDirs(env.tagging, st.dirs) && Trustworthy(env, st)
    requires Reconciles(env, st.fingerprint, stopped) && stopped.budget < ChangesOf(env, st, stopped)
    requires TakesFastPath(env, AfterBoot(env, st, stopped).fingerprint, b)
    ensures Settled(env, AfterBoot(env, st, stopped).dirs, b.hw) <==>
            stopped.budget == 0 || AllOps(env.tagging, st.dirs, DesiredFor(env, stopped.hw)) == []
  {
    hide DesiredFor, Reconciled, AllOps, Laws.CleanConfig, AfterBoot;
    var boots := [stopped];
    assert boots[..0] == [] && AfterBoots(env, st, boots) == AfterBoot(env, st, stopped);
    SettledMeansUnchanged(env, st, boots, b);
    OneInterrupted(env, st, stopped);
    var run := Laws.Run(DesiredFor(env, stopped.hw), stopped.budget);
    OneRun(env.tagging, st.dirs, run);
    Laws.PrefixChanges(env.tagging, st.dirs, run);
  }

  /**
   * Only a new run that gets to its end puts things right: then the files are settled whatever was interrupted.
   * They are those of a run that had come first exactly when the interrupted ones left nothing that stays.
   */
  lemma CompleteRunRepairsExactly(env: Install, st: System, boots: seq<Boot>, b: Boot)
    requires ValidInstall(env) && NoneCompletes(env, st, boots)
    requires var before := AfterBoots(env, st, boots);
             Reconciles(env, before.fingerprint, b) && b.budget >= ChangesOf(env, before, b)
    ensures var after := AfterBoot(env, AfterBoots(env, st, boots), b);
            && Trustworthy(env, after)
            && (after.dirs == Reconciled(env.tagging, st.dirs, DesiredFor(env, b.hw)) <==>
                forall c, n ::
                  Laws.Replaced(env.tagging, st.dirs, PartRuns(env, st, boots), DesiredFor(env, b.hw), c, n))
  {
    hide DesiredFor, AllOps, Reconciled, AfterBoots, PartRuns, Laws.Replaced, ManifestOf, PayloadOf;
    InterruptedRuns(env, st, boots);
    var before := AfterBoots(env, st, boots);
    DesiredIsValid(env, b.hw);
    Laws.RunsAreForgottenExactly(env.tagging, st.dirs, PartRuns(env, st, boots), DesiredFor(env, b.hw));
    CompleteBootIsTrustworthy(env, before.(fingerprint := ""), b.(force := true));
  }

  /** On clean files nothing stays. */
  lemma CompleteRunRepairs(env: Install, st: System, boots: seq<Boot>, b: Boot)
    requires ValidInstall(env) && CleanInstall(env) && Laws.CleanDirs(env.tagging, st.dirs)
    requires NoneCompletes(env, st, boots)
    requires var before := AfterBoots(env, st, boots);
             Reconciles(env, before.fingerprint, b) && b.budget >= ChangesOf(env, before, b)
    ensures var after := AfterBoot(env, AfterBoots(env, st, boots), b);
            && Trustworthy(env, after)
            && after.dirs == Reconciled(env.tagging, st.dirs, DesiredFor(env, b.hw))
  {
    hide DesiredFor, AllOps, Reconciled, AfterBoots, PartRuns, Laws.CleanConfig, ManifestOf, PayloadOf;
    InterruptedRuns(env, st, boots);
    DesiredIsValid(env, b.hw);
    CompleteRunRepairsExactly(env, st, boots, b);
    Laws.HistoryIndependent(env.tagging, st.dirs, PartRuns(env, st, boots), DesiredFor(env, b.hw));
  }

  // ---- Dry runs ----

  /**
   * A run for `desired` leaves a file here that counts as ours: nothing foreign is in the way, and what it
   * writes, or finds already written, is recognised.
   */
  predicate LeavesManaged(tagging: Tagging, dirs: Dirs, desired: Desired, c: Category, n: string)
    requires n in desired.Get(c).entries
  {
    var current, o := At(dirs, c, n), desired.Get(c).entries[n];
    if current.None? then Recognisable(tagging, o)
    else
      && Managed(tagging, current.value)
      && (Recognisable(tagging, o) || Newlines(current.value.content) == TagOf(tagging, o))
  }

  lemma ManagedAfter(tagging: Tagging, dirs: Dirs, desired: Desired, c: Category, n: string)
    requires ValidDesired(desired)
    ensures IsManaged(tagging, At(Reconciled(tagging, dirs, desired), c, n)) <==>
            n in desired.Get(c).entries && LeavesManaged(tagging, dirs, desired, c, n)
  {
    hide Reconciled, Newlines;
    Laws.ReconciledSettles(tagging, dirs, desired, c, n);
  }

  /**
   * After a complete run, a dry run for the same files reports no difference exactly when that run left each of
   * them managed.
   */
  lemma DryRunAgreesExactly(tagging: Tagging, dirs: Dirs, desired: Desired)
    requires ValidDesired(desired)
    ensures (forall c :: !NamesDiffer(ManifestOf(tagging, Reconciled(tagging, dirs, desired)), desired, c)) <==>
            forall c, n :: n in desired.Get(c).entries ==> LeavesManaged(tagging, dirs, desired, c, n)
  {
    hide ManifestOf, Reconciled, LeavesManaged, IsManaged;
    var after := Reconciled(tagging, dirs, desired);
    forall c, n
      ensures (n in desired.Get(c).entries) != (n in ManifestOf(tagging, after).Get(c)) <==>
              n in desired.Get(c).entries && !LeavesManaged(tagging, dirs, desired, c, n)
    {
      ManifestNames(tagging, after, c, n);
      ManagedAfter(tagging, dirs, desired, c, n);
    }
    forall c | NamesDiffer(ManifestOf(tagging, after), desired, c)
      ensures exists n :: n in desired.Get(c).entries && !LeavesManaged(tagging, dirs, desired, c, n)
    {
      var n :| (n in desired.Get(c).entries) != (n in ManifestOf(tagging, after).Get(c));
    }
    forall c, n | n in desired.Get(c).entries && !LeavesManaged(tagging, dirs, desired, c, n)
      ensures NamesDiffer(ManifestOf(tagging, after), desired, c)
    {
      assert (n in desired.Get(c).entries) != (n in ManifestOf(tagging, after).Get(c));
    }
  }
}
