/** Reconciling reaches one canonical state, from wherever earlier runs left the directories. */
module ReconcileLaws {
  import opened Wrappers
  import opened HardwareFiles

  // ---- The canonical state ----

  /** Foreign entries stay; every other place holds the tagged desired file, if there is one. */
  function Canonical(tagging: Tagging, dirs: Dirs, desired: Desired, c: Category, n: string): Option<Entry> {
    var current := At(dirs, c, n);
    if current.Some? && !IsManaged(tagging, current) then current
    else if n in desired.Get(c).entries then Some(File(TagOf(tagging, desired.Get(c).entries[n])))
    else None
  }

  ghost predicate IsCanonical(tagging: Tagging, out: Dirs, dirs: Dirs, desired: Desired) {
    forall c, n :: At(out, c, n) == Canonical(tagging, dirs, desired, c, n)
  }

  /** A managed file that differs from the one desired only in its carriage returns. */
  predicate CarriageVariant(tagging: Tagging, dirs: Dirs, desired: Desired, c: Category, n: string) {
    var current := At(dirs, c, n);
    && n in desired.Get(c).entries && IsManaged(tagging, current)
    && current.value.content != TagOf(tagging, desired.Get(c).entries[n])
    && Newlines(current.value.content) == TagOf(tagging, desired.Get(c).entries[n])
  }

  lemma UniqueOp(tagging: Tagging, dirs: Dirs, desired: Desired, a: Op, b: Op)
    requires Due(tagging, dirs, desired, a) && Due(tagging, dirs, desired, b) && Touches(b, a.cat, a.name)
    ensures a == b
  {
  }

  lemma ReconciledBy(tagging: Tagging, dirs: Dirs, desired: Desired, op: Op)
    requires ValidDesired(desired) && Due(tagging, dirs, desired, op)
    ensures At(Reconciled(tagging, dirs, desired), op.cat, op.name) == Effect(op)
  {
    OpsExact(tagging, dirs, desired);
    forall o | o in AllOps(tagging, dirs, desired) && Touches(o, op.cat, op.name) ensures o == op {
      UniqueOp(tagging, dirs, desired, op, o);
    }
    ApplyAllTouched(dirs, AllOps(tagging, dirs, desired), op.cat, op.name, op);
  }

  lemma ReconciledElsewhere(tagging: Tagging, dirs: Dirs, desired: Desired, c: Category, n: string)
    requires ValidDesired(desired)
    requires forall op :: Touches(op, c, n) ==> !Due(tagging, dirs, desired, op)
    ensures At(Reconciled(tagging, dirs, desired), c, n) == At(dirs, c, n)
  {
    OpsExact(tagging, dirs, desired);
    ApplyAllUntouched(dirs, AllOps(tagging, dirs, desired), c, n);
  }

  /** What a reconcile leaves at one place. */
  lemma ReconciledAt(tagging: Tagging, dirs: Dirs, desired: Desired, c: Category, n: string)
    requires ValidDesired(desired)
    ensures At(Reconciled(tagging, dirs, desired), c, n) ==
            if CarriageVariant(tagging, dirs, desired, c, n) then At(dirs, c, n)
            else Canonical(tagging, dirs, desired, c, n)
  {
    var current := At(dirs, c, n);
    if n in desired.Get(c).entries {
      var write := Write(c, n, TagOf(tagging, desired.Get(c).entries[n]));
      if Due(tagging, dirs, desired, write) {
        ReconciledBy(tagging, dirs, desired, write);
      } else {
        ReconciledElsewhere(tagging, dirs, desired, c, n);
      }
    } else if IsManaged(tagging, current) {
      ReconciledBy(tagging, dirs, desired, Unlink(c, n));
    } else {
      ReconciledElsewhere(tagging, dirs, desired, c, n);
    }
  }

  /** A reconcile reaches the canonical state exactly when no managed file is a carriage-return variant. */
  lemma ReconcileIsCanonicalExactly(tagging: Tagging, dirs: Dirs, desired: Desired)
    requires ValidDesired(desired)
    ensures IsCanonical(tagging, Reconciled(tagging, dirs, desired), dirs, desired) <==>
            forall c, n :: !CarriageVariant(tagging, dirs, desired, c, n)
  {
    forall c, n ensures At(Reconciled(tagging, dirs, desired), c, n) ==
            if CarriageVariant(tagging, dirs, desired, c, n) then At(dirs, c, n)
            else Canonical(tagging, dirs, desired, c, n)
    {
      ReconciledAt(tagging, dirs, desired, c, n);
    }
    forall c, n | CarriageVariant(tagging, dirs, desired, c, n)
      ensures At(dirs, c, n) != Canonical(tagging, dirs, desired, c, n)
    {
    }
  }

  // ---- Foreign entries ----

  ghost predicate Foreign(tagging: Tagging, e: Option<Entry>) {
    e.Some? && !Managed(tagging, e.value)
  }

  /** Neither state has a foreign entry that the other lacks or holds differently. */
  ghost predicate SameForeign(tagging: Tagging, a: Dirs, b: Dirs) {
    forall c, n :: (Foreign(tagging, At(a, c, n)) || Foreign(tagging, At(b, c, n))) ==> At(a, c, n) == At(b, c, n)
  }

  lemma {:induction false} ForeignUntouched(tagging: Tagging, dirs: Dirs, ops: seq<Op>, desired: Desired, c: Category,
                                            n: string)
    requires forall op :: op in ops ==> Due(tagging, dirs, desired, op)
    requires Foreign(tagging, At(dirs, c, n))
    ensures At(ApplyAll(dirs, ops), c, n) == At(dirs, c, n)
  {
    forall op | op in ops ensures !Touches(op, c, n) {
      assert Due(tagging, dirs, desired, op);
    }
    ApplyAllUntouched(dirs, ops, c, n);
  }

  /** Wherever a reconcile is stopped, every foreign file and directory is as it was. */
  lemma EveryStepSparesForeign(tagging: Tagging, dirs: Dirs, desired: Desired, k: nat, c: Category, n: string)
    requires ValidDesired(desired) && k <= |AllOps(tagging, dirs, desired)|
    requires Foreign(tagging, At(dirs, c, n))
    ensures At(ApplyAll(dirs, AllOps(tagging, dirs, desired)[..k]), c, n) == At(dirs, c, n)
  {
    OpsExact(tagging, dirs, desired);
    ForeignUntouched(tagging, dirs, AllOps(tagging, dirs, desired)[..k], desired, c, n);
  }

  // ---- History independence ----

  /** A configuration whose files read back as written and are recognised as managed afterwards. */
  ghost predicate CleanConfig(tagging: Tagging, desired: Desired) {
    && ValidDesired(desired)
    && forall c, n :: n in desired.Get(c).entries ==>
         Recognisable(tagging, desired.Get(c).entries[n]) && '\r' !in TagOf(tagging, desired.Get(c).entries[n])
  }

  /** Directories whose managed files hold no carriage return. */
  ghost predicate CleanDirs(tagging: Tagging, dirs: Dirs) {
    forall c, n :: IsManaged(tagging, At(dirs, c, n)) ==> '\r' !in At(dirs, c, n).value.content
  }

  lemma CleanHasNoVariant(tagging: Tagging, dirs: Dirs, desired: Desired, c: Category, n: string)
    requires CleanDirs(tagging, dirs)
    ensures !CarriageVariant(tagging, dirs, desired, c, n)
  {
    if IsManaged(tagging, At(dirs, c, n)) { NewlinesFixes(At(dirs, c, n).value.content); }
  }

  /** What any number of the operations of a reconcile leaves: the place as it was, or the effect of one of them. */
  lemma {:induction false} PartlyAt(tagging: Tagging, dirs: Dirs, ops: seq<Op>, desired: Desired, c: Category,
                                    n: string)
    requires forall op :: op in ops ==> Due(tagging, dirs, desired, op)
    ensures At(ApplyAll(dirs, ops), c, n) == At(dirs, c, n) ||
            exists op :: op in ops && Touches(op, c, n) && At(ApplyAll(dirs, ops), c, n) == Effect(op)
  {
    if op :| op in ops && Touches(op, c, n) {
      forall o | o in ops && Touches(o, c, n) ensures o == op { UniqueOp(tagging, dirs, desired, op, o); }
      ApplyAllTouched(dirs, ops, c, n, op);
    } else {
      ApplyAllUntouched(dirs, ops, c, n);
    }
  }

  lemma EffectIsClean(tagging: Tagging, dirs: Dirs, desired: Desired, op: Op)
    requires CleanConfig(tagging, desired) && Due(tagging, dirs, desired, op)
    ensures !Foreign(tagging, At(dirs, op.cat, op.name)) && !Foreign(tagging, Effect(op))
    ensures IsManaged(tagging, Effect(op)) ==> '\r' !in Effect(op).value.content
  {
    if op.Write? {
      var o := desired.Get(op.cat).entries[op.name];
    }
  }

  lemma PartialRunIsClean(tagging: Tagging, dirs: Dirs, desired: Desired, ops: seq<Op>)
    requires CleanDirs(tagging, dirs) && CleanConfig(tagging, desired)
    requires forall op :: op in ops ==> Due(tagging, dirs, desired, op)
    ensures CleanDirs(tagging, ApplyAll(dirs, ops)) && SameForeign(tagging, dirs, ApplyAll(dirs, ops))
  {
    var after := ApplyAll(dirs, ops);
    forall c, n ensures IsManaged(tagging, At(after, c, n)) ==> '\r' !in At(after, c, n).value.content
    {
      PartlyAt(tagging, dirs, ops, desired, c, n);
      if At(after, c, n) != At(dirs, c, n) {
        var op :| op in ops && Touches(op, c, n) && At(after, c, n) == Effect(op);
        EffectIsClean(tagging, dirs, desired, op);
      }
    }
    forall c, n | Foreign(tagging, At(dirs, c, n)) || Foreign(tagging, At(after, c, n))
      ensures At(dirs, c, n) == At(after, c, n)
    {
      PartlyAt(tagging, dirs, ops, desired, c, n);
      if At(after, c, n) != At(dirs, c, n) {
        var op :| op in ops && Touches(op, c, n) && At(after, c, n) == Effect(op);
        EffectIsClean(tagging, dirs, desired, op);
      }
    }
  }

  /** A reconcile for some configuration, stopped after a number of file operations. */
  datatype Run = Run(desired: Desired, stop: nat)

  /** The operations of the run that are performed before it is stopped. */
  function Performed(tagging: Tagging, dirs: Dirs, run: Run): (ops: seq<Op>)
    ensures ops <= AllOps(tagging, dirs, run.desired)
  {
    var ops := AllOps(tagging, dirs, run.desired);
    if run.stop <= |ops| then ops[..run.stop] else ops
  }

  function AfterRun(tagging: Tagging, dirs: Dirs, run: Run): Dirs {
    ApplyAll(dirs, Performed(tagging, dirs, run))
  }

  function AfterRuns(tagging: Tagging, dirs: Dirs, runs: seq<Run>): Dirs {
    if runs == [] then dirs else AfterRun(tagging, AfterRuns(tagging, dirs, runs[..|runs| - 1]), runs[|runs| - 1])
  }

  lemma PerformedAreDue(tagging: Tagging, dirs: Dirs, run: Run)
    requires ValidDesired(run.desired)
    ensures forall op :: op in Performed(tagging, dirs, run) ==> Due(tagging, dirs, run.desired, op)
  {
    OpsExact(tagging, dirs, run.desired);
    assert forall op :: op in Performed(tagging, dirs, run) ==> op in AllOps(tagging, dirs, run.desired);
  }

  lemma AfterRunIsClean(tagging: Tagging, dirs: Dirs, run: Run)
    requires CleanDirs(tagging, dirs) && CleanConfig(tagging, run.desired)
    ensures CleanDirs(tagging, AfterRun(tagging, dirs, run)) && SameForeign(tagging, dirs, AfterRun(tagging, dirs, run))
  {
    PerformedAreDue(tagging, dirs, run);
    PartialRunIsClean(tagging, dirs, run.desired, Performed(tagging, dirs, run));
  }

  lemma {:induction false} AfterRunsIsClean(tagging: Tagging, dirs: Dirs, runs: seq<Run>)
    requires CleanDirs(tagging, dirs) && forall r :: r in runs ==> CleanConfig(tagging, r.desired)
    ensures CleanDirs(tagging, AfterRuns(tagging, dirs, runs))
            && SameForeign(tagging, dirs, AfterRuns(tagging, dirs, runs))
  {
    if runs != [] {
      var n := |runs| - 1;
      var before := AfterRuns(tagging, dirs, runs[..n]);
      AfterRunsIsClean(tagging, dirs, runs[..n]);
      AfterRunIsClean(tagging, before, runs[n]);
      SameForeignTransitive(tagging, dirs, before, AfterRuns(tagging, dirs, runs));
    }
  }

  lemma SameForeignTransitive(tagging: Tagging, a: Dirs, b: Dirs, d: Dirs)
    requires SameForeign(tagging, a, b) && SameForeign(tagging, b, d)
    ensures SameForeign(tagging, a, d)
  {
    forall c, n | Foreign(tagging, At(a, c, n)) || Foreign(tagging, At(d, c, n)) ensures At(a, c, n) == At(d, c, n) {
      assert Foreign(tagging, At(a, c, n)) ==> At(a, c, n) == At(b, c, n);
      assert Foreign(tagging, At(d, c, n)) ==> At(b, c, n) == At(d, c, n);
    }
  }

  /** The outcome depends on the foreign entries alone. */
  lemma ReconcileSeesForeignOnly(tagging: Tagging, a: Dirs, b: Dirs, desired: Desired)
    requires ValidDesired(desired) && CleanDirs(tagging, a) && CleanDirs(tagging, b) && SameForeign(tagging, a, b)
    ensures Reconciled(tagging, a, desired) == Reconciled(tagging, b, desired)
  {
    forall c, n ensures At(Reconciled(tagging, a, desired), c, n) == At(Reconciled(tagging, b, desired), c, n) {
      CleanHasNoVariant(tagging, a, desired, c, n);
      CleanHasNoVariant(tagging, b, desired, c, n);
      ReconciledAt(tagging, a, desired, c, n);
      ReconciledAt(tagging, b, desired, c, n);
      assert Foreign(tagging, At(a, c, n)) || Foreign(tagging, At(b, c, n)) ==> At(a, c, n) == At(b, c, n);
    }
    SameDirs(Reconciled(tagging, a, desired), Reconciled(tagging, b, desired));
  }

  /** Whatever was reconciled before, wholly or in part, a full reconcile ends as if it had been the first. */
  lemma HistoryIndependent(tagging: Tagging, dirs: Dirs, runs: seq<Run>, desired: Desired)
    requires CleanDirs(tagging, dirs) && ValidDesired(desired)
    requires forall r :: r in runs ==> CleanConfig(tagging, r.desired)
    ensures Reconciled(tagging, AfterRuns(tagging, dirs, runs), desired) == Reconciled(tagging, dirs, desired)
    ensures IsCanonical(tagging, Reconciled(tagging, dirs, desired), dirs, desired)
    ensures SameForeign(tagging, dirs, AfterRuns(tagging, dirs, runs))
  {
    AfterRunsIsClean(tagging, dirs, runs);
    ReconcileSeesForeignOnly(tagging, AfterRuns(tagging, dirs, runs), dirs, desired);
    forall c, n { CleanHasNoVariant(tagging, dirs, desired, c, n); }
    ReconcileIsCanonicalExactly(tagging, dirs, desired);
  }

  /** A file that a run brought, and that a later run does not replace by the one it wants instead, or by none. */
  predicate Stays(tagging: Tagging, brought: Option<Owned>, wanted: Option<Owned>) {
    brought.Some? &&
    if wanted.None? then !Recognisable(tagging, brought.value)
    else
      && TagOf(tagging, brought.value) != TagOf(tagging, wanted.value)
      && (|| !Recognisable(tagging, brought.value)
          || Newlines(TagOf(tagging, brought.value)) == TagOf(tagging, wanted.value))
  }

  /**
   * What a run for `first` leaves at this place survives a run for `second`, and is not what that run alone would
   * leave.
   */
  predicate Lingers(tagging: Tagging, dirs: Dirs, first: Desired, second: Desired, c: Category, n: string) {
    && (At(dirs, c, n).None? || IsManaged(tagging, At(dirs, c, n)))
    && Stays(tagging, first.Get(c).Get(n), second.Get(c).Get(n))
  }

  lemma LingersAt(tagging: Tagging, dirs: Dirs, first: Desired, second: Desired, c: Category, n: string)
    requires ValidDesired(first) && ValidDesired(second) && CleanDirs(tagging, dirs)
    ensures At(Reconciled(tagging, Reconciled(tagging, dirs, first), second), c, n) ==
            At(Reconciled(tagging, dirs, second), c, n)
            <==> !Lingers(tagging, dirs, first, second, c, n)
  {
    hide Reconciled, Newlines;
    CleanHasNoVariant(tagging, dirs, first, c, n);
    CleanHasNoVariant(tagging, dirs, second, c, n);
    ReconciledAt(tagging, dirs, first, c, n);
    ReconciledAt(tagging, dirs, second, c, n);
    ReconciledAt(tagging, Reconciled(tagging, dirs, first), second, c, n);
  }

  /**
   * Without any condition on the configurations: an earlier run is forgotten exactly when none of its files
   * lingers.
   */
  lemma EarlierRunIsForgottenExactly(tagging: Tagging, dirs: Dirs, first: Desired, second: Desired)
    requires ValidDesired(first) && ValidDesired(second) && CleanDirs(tagging, dirs)
    ensures Reconciled(tagging, Reconciled(tagging, dirs, first), second) == Reconciled(tagging, dirs, second)
            <==> forall c, n :: !Lingers(tagging, dirs, first, second, c, n)
  {
    hide Reconciled, Lingers;
    var via, direct := Reconciled(tagging, Reconciled(tagging, dirs, first), second), Reconciled(tagging, dirs, second);
    forall c, n ensures At(via, c, n) == At(direct, c, n) <==> !Lingers(tagging, dirs, first, second, c, n) {
      LingersAt(tagging, dirs, first, second, c, n);
    }
    if forall c, n :: !Lingers(tagging, dirs, first, second, c, n) { SameDirs(via, direct); }
  }

  // ---- Place by place ----

  /** What a reconcile leaves at a place that holds `e` and should hold `wanted`. */
  function Settles(tagging: Tagging, e: Option<Entry>, wanted: Option<Owned>): Option<Entry> {
    if e.Some? && !Managed(tagging, e.value) then e
    else if wanted.None? then None
    else if e.Some? && Newlines(e.value.content) == TagOf(tagging, wanted.value) then e
    else Some(File(TagOf(tagging, wanted.value)))
  }

  lemma ReconciledSettles(tagging: Tagging, dirs: Dirs, desired: Desired, c: Category, n: string)
    requires ValidDesired(desired)
    ensures At(Reconciled(tagging, dirs, desired), c, n) == Settles(tagging, At(dirs, c, n), desired.Get(c).Get(n))
  {
    hide Reconciled, Newlines;
    ReconciledAt(tagging, dirs, desired, c, n);
  }

  /** The entry at a place that a run for this configuration has seen to. */
  function Brought(tagging: Tagging, file: Option<Owned>): Option<Entry> {
    if file.None? then None else Some(File(TagOf(tagging, file.value)))
  }

  predicate Reaches(ops: seq<Op>, c: Category, n: string) {
    exists op :: op in ops && Touches(op, c, n)
  }

  /** The configuration of the last run that changed this place before it was stopped. */
  function LastReach(tagging: Tagging, dirs: Dirs, runs: seq<Run>, c: Category, n: string): Option<Desired> {
    if runs == [] then None
    else
      var k := |runs| - 1;
      if Reaches(Performed(tagging, AfterRuns(tagging, dirs, runs[..k]), runs[k]), c, n) then Some(runs[k].desired)
      else LastReach(tagging, dirs, runs[..k], c, n)
  }

  lemma DueBrings(tagging: Tagging, dirs: Dirs, desired: Desired, op: Op)
    requires Due(tagging, dirs, desired, op)
    ensures Effect(op) == Brought(tagging, desired.Get(op.cat).Get(op.name))
            && !Foreign(tagging, At(dirs, op.cat, op.name))
  {
    hide Newlines;
  }

  lemma OneRunAt(tagging: Tagging, dirs: Dirs, run: Run, c: Category, n: string)
    requires ValidDesired(run.desired)
    ensures At(AfterRun(tagging, dirs, run), c, n) ==
            if Reaches(Performed(tagging, dirs, run), c, n) then Brought(tagging, run.desired.Get(c).Get(n))
            else At(dirs, c, n)
    ensures Reaches(Performed(tagging, dirs, run), c, n) ==> !Foreign(tagging, At(dirs, c, n))
  {
    hide Performed, Due, ApplyAll, Effect;
    var ops := Performed(tagging, dirs, run);
    PerformedAreDue(tagging, dirs, run);
    if op :| op in ops && Touches(op, c, n) {
      forall o | o in ops && Touches(o, c, n) ensures o == op { UniqueOp(tagging, dirs, run.desired, op, o); }
      ApplyAllTouched(dirs, ops, c, n, op);
      DueBrings(tagging, dirs, run.desired, op);
    } else {
      ApplyAllUntouched(dirs, ops, c, n);
    }
  }

  /** Each place holds what the last run that changed it wanted there, or what was there before all runs. */
  lemma {:induction false} AfterRunsAt(tagging: Tagging, dirs: Dirs, runs: seq<Run>, c: Category, n: string)
    requires forall r :: r in runs ==> ValidDesired(r.desired)
    ensures var last := LastReach(tagging, dirs, runs, c, n);
            && At(AfterRuns(tagging, dirs, runs), c, n) ==
               (if last.Some? then Brought(tagging, last.value.Get(c).Get(n)) else At(dirs, c, n))
            && (last.Some? ==> !Foreign(tagging, At(dirs, c, n)))
  {
    hide Performed, AfterRun, Reaches;
    if runs != [] {
      var k := |runs| - 1;
      assert runs[k] in runs;
      AfterRunsAt(tagging, dirs, runs[..k], c, n);
      OneRunAt(tagging, AfterRuns(tagging, dirs, runs[..k]), runs[k], c, n);
    }
  }

  /** A full reconcile treats what the last run to reach this place brought as it would treat what was there before. */
  ghost predicate Replaced(tagging: Tagging, dirs: Dirs, runs: seq<Run>, desired: Desired, c: Category, n: string) {
    var last, wanted := LastReach(tagging, dirs, runs, c, n), desired.Get(c).Get(n);
    last.Some? ==>
      Settles(tagging, Brought(tagging, last.value.Get(c).Get(n)), wanted) == Settles(tagging, At(dirs, c, n), wanted)
  }

  lemma ReplacedAt(tagging: Tagging, dirs: Dirs, runs: seq<Run>, desired: Desired, c: Category, n: string)
    requires ValidDesired(desired) && forall r :: r in runs ==> ValidDesired(r.desired)
    ensures At(Reconciled(tagging, AfterRuns(tagging, dirs, runs), desired), c, n) ==
            At(Reconciled(tagging, dirs, desired), c, n)
            <==> Replaced(tagging, dirs, runs, desired, c, n)
  {
    hide Reconciled, Settles, AfterRuns, LastReach;
    AfterRunsAt(tagging, dirs, runs, c, n);
    ReconciledSettles(tagging, dirs, desired, c, n);
    ReconciledSettles(tagging, AfterRuns(tagging, dirs, runs), desired, c, n);
  }

  /**
   * Any series of runs, each for any configuration and stopped anywhere, is forgotten by a full reconcile
   * exactly when at each place it treats what the last run to reach the place brought as it would have treated
   * what was there before.
   */
  lemma RunsAreForgottenExactly(tagging: Tagging, dirs: Dirs, runs: seq<Run>, desired: Desired)
    requires ValidDesired(desired) && forall r :: r in runs ==> ValidDesired(r.desired)
    ensures Reconciled(tagging, AfterRuns(tagging, dirs, runs), desired) == Reconciled(tagging, dirs, desired)
            <==> forall c, n :: Replaced(tagging, dirs, runs, desired, c, n)
  {
    hide Reconciled, Replaced, AfterRuns;
    var via, direct := Reconciled(tagging, AfterRuns(tagging, dirs, runs), desired), Reconciled(tagging, dirs, desired);
    forall c, n ensures At(via, c, n) == At(direct, c, n) <==> Replaced(tagging, dirs, runs, desired, c, n) {
      ReplacedAt(tagging, dirs, runs, desired, c, n);
    }
    if forall c, n :: Replaced(tagging, dirs, runs, desired, c, n) { SameDirs(via, direct); }
  }

  /** On directories without carriage returns, that means: nothing that a run brought last stays. */
  lemma ReplacedMeansNoneStays(tagging: Tagging, dirs: Dirs, runs: seq<Run>, desired: Desired, c: Category, n: string)
    requires CleanDirs(tagging, dirs) && ValidDesired(desired) && forall r :: r in runs ==> ValidDesired(r.desired)
    ensures Replaced(tagging, dirs, runs, desired, c, n) <==>
            var last := LastReach(tagging, dirs, runs, c, n);
            last.Some? ==> !Stays(tagging, last.value.Get(c).Get(n), desired.Get(c).Get(n))
  {
    hide AfterRuns, LastReach, Newlines;
    AfterRunsAt(tagging, dirs, runs, c, n);
    if IsManaged(tagging, At(dirs, c, n)) { NewlinesFixes(At(dirs, c, n).value.content); }
  }

  /** What a run brought is what a full reconcile would leave. */
  predicate Rests(tagging: Tagging, brought: Option<Owned>, wanted: Option<Owned>) {
    if brought.None? then wanted.None?
    else
      || !Recognisable(tagging, brought.value)
      || (wanted.Some? && TagOf(tagging, wanted.value) in
            [TagOf(tagging, brought.value), Newlines(TagOf(tagging, brought.value))])
  }

  lemma RestsExactly(tagging: Tagging, brought: Option<Owned>, wanted: Option<Owned>)
    ensures Rests(tagging, brought, wanted) <==>
            Settles(tagging, Brought(tagging, brought), wanted) == Brought(tagging, brought)
  {
  }

  lemma SettledAt(tagging: Tagging, dirs: Dirs, runs: seq<Run>, desired: Desired, c: Category, n: string)
    requires ValidDesired(desired) && forall r :: r in runs ==> ValidDesired(r.desired)
    requires Reconciled(tagging, dirs, desired) == dirs
    ensures var after := AfterRuns(tagging, dirs, runs);
            At(Reconciled(tagging, after, desired), c, n) == At(after, c, n) <==>
            var last := LastReach(tagging, dirs, runs, c, n);
            last.Some? ==> Rests(tagging, last.value.Get(c).Get(n), desired.Get(c).Get(n))
  {
    hide Reconciled, Settles, Rests, AfterRuns, LastReach;
    AfterRunsAt(tagging, dirs, runs, c, n);
    ReconciledSettles(tagging, dirs, desired, c, n);
    ReconciledSettles(tagging, AfterRuns(tagging, dirs, runs), desired, c, n);
    var last := LastReach(tagging, dirs, runs, c, n);
    if last.Some? { RestsExactly(tagging, last.value.Get(c).Get(n), desired.Get(c).Get(n)); }
  }

  /** Directories that were settled are so after a series of runs exactly when what each place received last rests. */
  lemma SettledAfterRunsExactly(tagging: Tagging, dirs: Dirs, runs: seq<Run>, desired: Desired)
    requires ValidDesired(desired) && forall r :: r in runs ==> ValidDesired(r.desired)
    requires Reconciled(tagging, dirs, desired) == dirs
    ensures var after := AfterRuns(tagging, dirs, runs);
            Reconciled(tagging, after, desired) == after <==>
            forall c, n :: var last := LastReach(tagging, dirs, runs, c, n);
                           last.Some? ==> Rests(tagging, last.value.Get(c).Get(n), desired.Get(c).Get(n))
  {
    hide Reconciled, Rests, AfterRuns, LastReach;
    var after := AfterRuns(tagging, dirs, runs);
    forall c, n { SettledAt(tagging, dirs, runs, desired, c, n); }
    if forall c, n :: At(Reconciled(tagging, after, desired), c, n) == At(after, c, n) {
      SameDirs(Reconciled(tagging, after, desired), after);
    }
  }

  lemma DueChanges(tagging: Tagging, dirs: Dirs, desired: Desired, op: Op)
    requires CleanConfig(tagging, desired) && Due(tagging, dirs, desired, op)
    ensures Effect(op) != At(dirs, op.cat, op.name)
  {
    hide Newlines;
    if op.Write? { NewlinesFixes(op.content); }
  }

  /**
   * Each operation of a run for a clean configuration matters: stopped after any of them, the run has changed
   * something.
   */
  lemma PrefixChanges(tagging: Tagging, dirs: Dirs, run: Run)
    requires CleanConfig(tagging, run.desired)
    ensures AfterRun(tagging, dirs, run) == dirs <==> Performed(tagging, dirs, run) == []
  {
    var ops := Performed(tagging, dirs, run);
    if ops != [] {
      var op := ops[0];
      PerformedAreDue(tagging, dirs, run);
      OneRunAt(tagging, dirs, run, op.cat, op.name);
      assert Due(tagging, dirs, run.desired, op) && op in ops && Touches(op, op.cat, op.name);
      DueChanges(tagging, dirs, run.desired, op);
    }
  }

  // ---- Repeating a run ----

  /** A desired file that is rewritten on every run although nothing changes. */
  predicate Restless(tagging: Tagging, dirs: Dirs, desired: Desired, c: Category, n: string) {
    && n in desired.Get(c).entries
    && Recognisable(tagging, desired.Get(c).entries[n])
    && '\r' in TagOf(tagging, desired.Get(c).entries[n])
    && (At(dirs, c, n).None? || IsManaged(tagging, At(dirs, c, n)))
  }

  lemma NoVariantOfReturns(tagging: Tagging, dirs: Dirs, desired: Desired, c: Category, n: string)
    requires n in desired.Get(c).entries && '\r' in TagOf(tagging, desired.Get(c).entries[n])
    ensures !CarriageVariant(tagging, dirs, desired, c, n)
  {
    if IsManaged(tagging, At(dirs, c, n)) { NewlinesFixes(At(dirs, c, n).value.content); }
  }

  lemma RestlessIsDue(tagging: Tagging, dirs: Dirs, desired: Desired, c: Category, n: string)
    requires ValidDesired(desired) && Restless(tagging, dirs, desired, c, n)
    ensures Due(tagging, Reconciled(tagging, dirs, desired), desired,
                Write(c, n, TagOf(tagging, desired.Get(c).entries[n])))
  {
    var o := desired.Get(c).entries[n];
    NoVariantOfReturns(tagging, dirs, desired, c, n);
    ReconciledAt(tagging, dirs, desired, c, n);
    NewlinesFixes(TagOf(tagging, o));
  }

  lemma OnlyRestlessIsDue(tagging: Tagging, dirs: Dirs, desired: Desired, op: Op)
    requires ValidDesired(desired) && Due(tagging, Reconciled(tagging, dirs, desired), desired, op)
    ensures Restless(tagging, dirs, desired, op.cat, op.name)
  {
    ReconciledAt(tagging, dirs, desired, op.cat, op.name);
    if op.Write? {
      var o := desired.Get(op.cat).entries[op.name];
      NewlinesFixes(TagOf(tagging, o));
    }
  }

  /** A second run has nothing to do exactly when no desired file is restless. */
  lemma RepeatIsIdleExactly(tagging: Tagging, dirs: Dirs, desired: Desired)
    requires ValidDesired(desired)
    ensures AllOps(tagging, Reconciled(tagging, dirs, desired), desired) == [] <==>
            forall c, n :: !Restless(tagging, dirs, desired, c, n)
  {
    var after := Reconciled(tagging, dirs, desired);
    var ops := AllOps(tagging, after, desired);
    OpsExact(tagging, after, desired);
    if ops != [] {
      assert ops[0] in ops;
      OnlyRestlessIsDue(tagging, dirs, desired, ops[0]);
    } else {
      forall c, n ensures !Restless(tagging, dirs, desired, c, n) {
        if Restless(tagging, dirs, desired, c, n) {
          RestlessIsDue(tagging, dirs, desired, c, n);
          assert false;
        }
      }
    }
  }

  /** And even a restless file is only written again as it is. */
  lemma RepeatChangesNothing(tagging: Tagging, dirs: Dirs, desired: Desired)
    requires ValidDesired(desired)
    ensures Reconciled(tagging, Reconciled(tagging, dirs, desired), desired) == Reconciled(tagging, dirs, desired)
  {
    var after := Reconciled(tagging, dirs, desired);
    forall c, n ensures At(Reconciled(tagging, after, desired), c, n) == At(after, c, n) {
      RepeatAt(tagging, dirs, desired, c, n);
    }
    SameDirs(Reconciled(tagging, after, desired), after);
  }

  lemma RepeatAt(tagging: Tagging, dirs: Dirs, desired: Desired, c: Category, n: string)
    requires ValidDesired(desired)
    ensures var after := Reconciled(tagging, dirs, desired);
            At(Reconciled(tagging, after, desired), c, n) == At(after, c, n)
  {
    var after := Reconciled(tagging, dirs, desired);
    ReconciledAt(tagging, dirs, desired, c, n);
    ReconciledAt(tagging, after, desired, c, n);
  }

  /** A file that a reconcile brought is removed once it is no longer desired exactly when its slug is recognised. */
  lemma OrphanIsRemovedExactly(tagging: Tagging, dirs: Dirs, first: Desired, second: Desired, c: Category, n: string)
    requires ValidDesired(first) && ValidDesired(second)
    requires At(dirs, c, n).None? && n in first.Get(c).entries && n !in second.Get(c).entries
    ensures At(Reconciled(tagging, Reconciled(tagging, dirs, first), second), c, n) == None <==>
            Recognisable(tagging, first.Get(c).entries[n])
  {
    var o := first.Get(c).entries[n];
    ReconciledAt(tagging, dirs, first, c, n);
    ReconciledAt(tagging, Reconciled(tagging, dirs, first), second, c, n);
  }

  // ---- Deploying, then reconciling ----

  function DeployFiles(tagging: Tagging, desired: Desired, c: Category, names: seq<string>): seq<Op> {
    if names == [] then []
    else
      var n := names[|names| - 1];
      DeployFiles(tagging, desired, c, names[..|names| - 1])
      + if n in desired.Get(c).entries then [Write(c, n, TagOf(tagging, desired.Get(c).entries[n]))] else []
  }

  /** The writes of `deploy_hardware_files`. */
  function DeployOps(tagging: Tagging, desired: Desired): seq<Op> {
    DeployFiles(tagging, desired, Modprobe, desired.modprobe.keys)
    + DeployFiles(tagging, desired, Udev, desired.udev.keys)
    + DeployFiles(tagging, desired, Sysctl, desired.sysctl.keys)
  }

  function Deployed(tagging: Tagging, dirs: Dirs, desired: Desired): Dirs {
    ApplyAll(dirs, DeployOps(tagging, desired))
  }

  predicate Deploys(tagging: Tagging, desired: Desired, op: Op) {
    op.Write? && op.name in desired.Get(op.cat).entries
      && op.content == TagOf(tagging, desired.Get(op.cat).entries[op.name])
  }

  lemma {:induction false} DeployFilesExact(tagging: Tagging, desired: Desired, c: Category, names: seq<string>)
    ensures forall op :: op in DeployFiles(tagging, desired, c, names) <==>
              op.cat == c && op.name in names && Deploys(tagging, desired, op)
  {
    if names != [] {
      var k := |names| - 1;
      DeployFilesExact(tagging, desired, c, names[..k]);
      assert forall n :: n in names <==> n in names[..k] || n == names[k];
    }
  }

  lemma DeployOpsExact(tagging: Tagging, desired: Desired)
    requires ValidDesired(desired)
    ensures forall op :: op in DeployOps(tagging, desired) <==> Deploys(tagging, desired, op)
  {
    DeployFilesExact(tagging, desired, Modprobe, desired.modprobe.keys);
    DeployFilesExact(tagging, desired, Udev, desired.udev.keys);
    DeployFilesExact(tagging, desired, Sysctl, desired.sysctl.keys);
    assert desired.Get(Modprobe).Valid() && desired.Get(Udev).Valid() && desired.Get(Sysctl).Valid();
  }

  /** Deploying overwrites, whatever was there. */
  lemma DeployedAt(tagging: Tagging, dirs: Dirs, desired: Desired, c: Category, n: string)
    requires ValidDesired(desired)
    ensures At(Deployed(tagging, dirs, desired), c, n) ==
            if n in desired.Get(c).entries then Some(File(TagOf(tagging, desired.Get(c).entries[n])))
            else At(dirs, c, n)
  {
    DeployOpsExact(tagging, desired);
    DeployedBy(tagging, dirs, DeployOps(tagging, desired), desired, c, n);
  }

  lemma DeployedBy(tagging: Tagging, dirs: Dirs, ops: seq<Op>, desired: Desired, c: Category, n: string)
    requires forall op :: op in ops <==> Deploys(tagging, desired, op)
    ensures At(ApplyAll(dirs, ops), c, n) ==
            if n in desired.Get(c).entries then Some(File(TagOf(tagging, desired.Get(c).entries[n])))
            else At(dirs, c, n)
  {
    if n in desired.Get(c).entries {
      var op := Write(c, n, TagOf(tagging, desired.Get(c).entries[n]));
      assert Deploys(tagging, desired, op);
      forall o | o in ops && Touches(o, c, n) ensures o == op { assert Deploys(tagging, desired, o); }
      ApplyAllTouched(dirs, ops, c, n, op);
    } else {
      forall o | o in ops ensures !Touches(o, c, n) { assert Deploys(tagging, desired, o); }
      ApplyAllUntouched(dirs, ops, c, n);
    }
  }

  /**
   * A reconcile right after a deployment of the same configuration changes nothing exactly when the root had no
   * orphans.
   */
  lemma DeployThenReconcileExactly(tagging: Tagging, dirs: Dirs, desired: Desired)
    requires ValidDesired(desired)
    ensures var deployed := Deployed(tagging, dirs, desired);
            Reconciled(tagging, deployed, desired) == deployed <==>
            forall c, n :: IsManaged(tagging, At(dirs, c, n)) ==> n in desired.Get(c).entries
  {
    var deployed := Deployed(tagging, dirs, desired);
    forall c, n ensures At(Reconciled(tagging, deployed, desired), c, n) == At(deployed, c, n) <==>
                        (IsManaged(tagging, At(dirs, c, n)) ==> n in desired.Get(c).entries)
    {
      DeployedAt(tagging, dirs, desired, c, n);
      ReconciledAt(tagging, deployed, desired, c, n);
    }
    if forall c, n :: IsManaged(tagging, At(dirs, c, n)) ==> n in desired.Get(c).entries {
      SameDirs(Reconciled(tagging, deployed, desired), deployed);
    }
  }

  /** And it reports nothing exactly when, besides, no recognised file is written with a carriage return. */
  lemma DeployThenIdleExactly(tagging: Tagging, dirs: Dirs, desired: Desired)
    requires ValidDesired(desired)
    ensures AllOps(tagging, Deployed(tagging, dirs, desired), desired) == [] <==>
            && (forall c, n :: IsManaged(tagging, At(dirs, c, n)) ==> n in desired.Get(c).entries)
            && (forall c, n :: n in desired.Get(c).entries && Recognisable(tagging, desired.Get(c).entries[n]) ==>
                  '\r' !in TagOf(tagging, desired.Get(c).entries[n]))
  {
    var deployed := Deployed(tagging, dirs, desired);
    var ops := AllOps(tagging, deployed, desired);
    OpsExact(tagging, deployed, desired);
    if ops != [] {
      assert ops[0] in ops;
      if ops[0].Unlink? {
        UnlinkAfterDeploy(tagging, dirs, desired, ops[0].cat, ops[0].name);
      } else {
        WriteAfterDeploy(tagging, dirs, desired, ops[0].cat, ops[0].name);
      }
    } else {
      forall c, n | IsManaged(tagging, At(dirs, c, n)) ensures n in desired.Get(c).entries {
        UnlinkAfterDeploy(tagging, dirs, desired, c, n);
      }
      forall c, n | n in desired.Get(c).entries && Recognisable(tagging, desired.Get(c).entries[n])
        ensures '\r' !in TagOf(tagging, desired.Get(c).entries[n])
      {
        WriteAfterDeploy(tagging, dirs, desired, c, n);
      }
    }
  }

  lemma UnlinkAfterDeploy(tagging: Tagging, dirs: Dirs, desired: Desired, c: Category, n: string)
    requires ValidDesired(desired)
    ensures Due(tagging, Deployed(tagging, dirs, desired), desired, Unlink(c, n)) <==>
            IsManaged(tagging, At(dirs, c, n)) && n !in desired.Get(c).entries
  {
    DeployedAt(tagging, dirs, desired, c, n);
  }

  lemma WriteAfterDeploy(tagging: Tagging, dirs: Dirs, desired: Desired, c: Category, n: string)
    requires ValidDesired(desired) && n in desired.Get(c).entries
    ensures var o := desired.Get(c).entries[n];
            Due(tagging, Deployed(tagging, dirs, desired), desired, Write(c, n, TagOf(tagging, o))) <==>
              Recognisable(tagging, o) && '\r' in TagOf(tagging, o)
  {
    hide Deployed, Newlines;
    DeployedAt(tagging, dirs, desired, c, n);
    var o := desired.Get(c).entries[n];
    NewlinesFixes(TagOf(tagging, o));
  }
}
