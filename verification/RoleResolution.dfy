/** The greedy claiming of disks, role by role, and why its answer is the only one. */
module GreedyClaims {
  import opened Wrappers
  import opened Dicts
  import opened Sorting
  import opened Disk

  /** A role about to be resolved: the disks its descriptor accepts (if it parses), and how many it takes. */
  datatype Slot = Slot(role: string, matched: Option<seq<BlockDevice>>, count: int)
  {
    function Accepts(): seq<BlockDevice> {
      matched.GetOr([])
    }
  }

  /** One reason per role that could not be resolved. */
  datatype RoleError =
    | InvalidDescriptor(role: string)
    | OnlyClaimed(role: string, matched: seq<BlockDevice>)
    | NoMatch(role: string)
    | TooFew(role: string, matched: seq<BlockDevice>)
    | TooMany(role: string, matched: seq<BlockDevice>)

  /** The locals of `resolve_disk_roles` between two roles. */
  datatype Progress = Progress(assignments: Dict<seq<BlockDevice>>, claimed: set<string>, errors: seq<RoleError>)

  function Paths(s: seq<BlockDevice>): set<string> {
    set d | d in s :: d.path
  }

  function Unclaimed(matched: seq<BlockDevice>, claimed: set<string>): seq<BlockDevice> {
    Filter(matched, (d: BlockDevice) => d.path !in claimed)
  }

  lemma UnclaimedExact(matched: seq<BlockDevice>, claimed: set<string>)
    ensures forall d :: d in Unclaimed(matched, claimed) <==> d in matched && d.path !in claimed
  {
    FilterExact(matched, (d: BlockDevice) => d.path !in claimed);
  }

  /** The effect of one role. */
  function ResolveRole(p: Progress, slot: Slot): Progress {
    if slot.matched.None? then p.(errors := p.errors + [InvalidDescriptor(slot.role)])
    else
      var unclaimed := Unclaimed(slot.Accepts(), p.claimed);
      if unclaimed == [] then
        var reason := if slot.Accepts() != [] then OnlyClaimed(slot.role, slot.Accepts()) else NoMatch(slot.role);
        p.(errors := p.errors + [reason])
      else if |unclaimed| < slot.count then p.(errors := p.errors + [TooFew(slot.role, unclaimed)])
      else if |unclaimed| > slot.count then p.(errors := p.errors + [TooMany(slot.role, unclaimed)])
      else Progress(p.assignments.Put(slot.role, unclaimed), p.claimed + Paths(unclaimed), p.errors)
  }

  /** The state after the first `n` roles. */
  function After(slots: seq<Slot>, n: nat): Progress
    requires n <= |slots|
  {
    if n == 0 then Progress(Empty(), {}, []) else ResolveRole(After(slots, n - 1), slots[n - 1])
  }

  // ---- Runs without errors ----

  /** The paths some of the first `n` roles accepts. */
  function Claimed(slots: seq<Slot>, n: nat): set<string>
    requires n <= |slots|
  {
    if n == 0 then {} else Claimed(slots, n - 1) + Paths(slots[n - 1].Accepts())
  }

  /** The disks that the `i`-th role accepts and no earlier one does. */
  function Left(slots: seq<Slot>, i: nat): seq<BlockDevice>
    requires i < |slots|
  {
    Unclaimed(slots[i].Accepts(), Claimed(slots, i))
  }

  function Assigned(slots: seq<Slot>, n: nat): Dict<seq<BlockDevice>>
    requires n <= |slots|
  {
    if n == 0 then Empty() else Assigned(slots, n - 1).Put(slots[n - 1].role, Left(slots, n - 1))
  }

  /** The `i`-th role has a descriptor that parses and is left exactly the disks it takes. */
  predicate RoleFits(slots: seq<Slot>, i: nat)
    requires i < |slots|
  {
    slots[i].matched.Some? && |Left(slots, i)| == slots[i].count
  }

  ghost predicate Fits(slots: seq<Slot>, n: nat)
    requires n <= |slots|
  {
    forall i :: 0 <= i < n ==> RoleFits(slots, i)
  }

  ghost predicate DistinctRoles(slots: seq<Slot>) {
    forall i, j :: 0 <= i < j < |slots| ==> slots[i].role != slots[j].role
  }

  /** Every role takes at least one disk. */
  ghost predicate PositiveCounts(slots: seq<Slot>) {
    forall i :: 0 <= i < |slots| ==> slots[i].count > 0
  }

  lemma StepFits(p: Progress, slot: Slot)
    requires slot.count > 0
    ensures ResolveRole(p, slot).errors == [] <==>
            p.errors == [] && slot.matched.Some? && |Unclaimed(slot.Accepts(), p.claimed)| == slot.count
    ensures ResolveRole(p, slot).errors == [] ==>
            ResolveRole(p, slot) == Progress(p.assignments.Put(slot.role, Unclaimed(slot.Accepts(), p.claimed)),
                                             p.claimed + Paths(Unclaimed(slot.Accepts(), p.claimed)), [])
  {
  }

  /** Claiming what is left claims, in effect, all that the role accepts. */
  lemma ClaimingLeft(claimed: set<string>, accepts: seq<BlockDevice>)
    ensures claimed + Paths(Unclaimed(accepts, claimed)) == claimed + Paths(accepts)
  {
    UnclaimedExact(accepts, claimed);
    forall d | d in accepts ensures d.path in claimed + Paths(Unclaimed(accepts, claimed)) {
      if d.path !in claimed { assert d in Unclaimed(accepts, claimed); }
    }
  }

  lemma StepClaims(p: Progress, slot: Slot)
    requires slot.count > 0 && ResolveRole(p, slot).errors == []
    ensures ResolveRole(p, slot) == Progress(p.assignments.Put(slot.role, Unclaimed(slot.Accepts(), p.claimed)),
                                             p.claimed + Paths(slot.Accepts()), [])
  {
    StepFits(p, slot);
    ClaimingLeft(p.claimed, slot.Accepts());
  }

  /** The loop reports no error exactly when every role fits; it then ends with what was left to each. */
  lemma {:induction false} RunFits(slots: seq<Slot>, n: nat)
    requires PositiveCounts(slots) && n <= |slots|
    ensures After(slots, n).errors == [] <==> Fits(slots, n)
    ensures Fits(slots, n) ==> After(slots, n) == Progress(Assigned(slots, n), Claimed(slots, n), [])
  {
    hide Unclaimed, Paths, ResolveRole, Slot.Accepts;
    if n > 0 {
      RunFits(slots, n - 1);
      StepFits(After(slots, n - 1), slots[n - 1]);
      assert Fits(slots, n) <==> Fits(slots, n - 1) && RoleFits(slots, n - 1);
      if After(slots, n).errors == [] { StepClaims(After(slots, n - 1), slots[n - 1]); }
    }
  }

  lemma {:induction false} AssignedKeys(slots: seq<Slot>, n: nat)
    requires DistinctRoles(slots) && n <= |slots|
    ensures Assigned(slots, n).Valid() && |Assigned(slots, n).keys| == n
    ensures forall j :: 0 <= j < n ==> Assigned(slots, n).keys[j] == slots[j].role
  {
    hide Left;
    if n > 0 {
      AssignedKeys(slots, n - 1);
      var before := Assigned(slots, n - 1);
      assert forall j :: 0 <= j < n - 1 ==> before.keys[j] != slots[n - 1].role;
      assert slots[n - 1].role !in before.keys;
    }
  }

  /** A role keeps the disks that were left for it. */
  lemma {:induction false} AssignedStays(slots: seq<Slot>, j: nat, n: nat)
    requires DistinctRoles(slots) && j < n <= |slots|
    ensures Assigned(slots, n).Get(slots[j].role) == Some(Left(slots, j))
  {
    if j < n - 1 {
      AssignedStays(slots, j, n - 1);
      assert slots[j].role != slots[n - 1].role;
    }
  }

  // ---- Choosing disjoint sets ----

  /** The union of the first `n` sets. */
  function Before<T>(ms: seq<set<T>>, n: nat): set<T>
    requires n <= |ms|
  {
    if n == 0 then {} else Before(ms, n - 1) + ms[n - 1]
  }

  lemma {:induction false} InBefore<T>(ms: seq<set<T>>, n: nat, i: nat, x: T)
    requires i < n <= |ms| && x in ms[i]
    ensures x in Before(ms, n)
  {
    if i < n - 1 { InBefore(ms, n - 1, i, x); }
  }

  lemma {:induction false} SubsetSize<T>(a: set<T>, b: set<T>)
    requires a <= b
    ensures |a| <= |b|
    ensures |a| == |b| ==> a == b
  {
    if x :| x in a {
      SubsetSize(a - {x}, b - {x});
      assert a == (a - {x}) + {x} && b == (b - {x}) + {x};
    } else {
      assert |b| == 0 ==> b == {};
    }
  }

  /** Disjoint subsets `b[i]` of the `ms[i]`. */
  ghost predicate DisjointChoice<T>(ms: seq<set<T>>, b: seq<set<T>>) {
    && |b| == |ms|
    && (forall i :: 0 <= i < |ms| ==> b[i] <= ms[i])
    && (forall i, j :: 0 <= i < j < |ms| ==> b[i] !! b[j])
  }

  lemma TakesTheRest<T>(before: set<T>, m: set<T>, c: set<T>)
    requires c <= m && c !! before && |c| == |m - before|
    ensures c == m - before && before + c == before + m
  {
    SubsetSize(c, m - before);
  }

  lemma {:induction false} DisjointFromBefore<T>(b: seq<set<T>>, n: nat, k: nat)
    requires n <= k < |b| && forall i :: 0 <= i < k ==> b[i] !! b[k]
    ensures Before(b, n) !! b[k]
  {
    if n > 0 { DisjointFromBefore(b, n - 1, k); }
  }

  /** What the earlier sets leave over of the `i`-th. */
  function Leftover<T>(ms: seq<set<T>>, i: nat): set<T>
    requires i < |ms|
  {
    ms[i] - Before(ms, i)
  }

  /** A disjoint choice that is as large everywhere as what the earlier sets leave over is exactly that. */
  lemma {:induction false} OnlyChoice<T>(ms: seq<set<T>>, b: seq<set<T>>, n: nat)
    requires DisjointChoice(ms, b) && n <= |ms|
    requires forall i {:trigger Leftover(ms, i)} :: 0 <= i < n ==> |b[i]| == |Leftover(ms, i)|
    ensures forall i {:trigger Leftover(ms, i)} :: 0 <= i < n ==> b[i] == Leftover(ms, i)
    ensures Before(b, n) == Before(ms, n)
  {
    if n > 0 {
      OnlyChoice(ms, b, n - 1);
      DisjointFromBefore(b, n - 1, n - 1);
      assert |b[n - 1]| == |Leftover(ms, n - 1)|;
      TakesTheRest(Before(ms, n - 1), ms[n - 1], b[n - 1]);
    }
  }

  lemma LeftoversAreDisjoint<T>(ms: seq<set<T>>, b: seq<set<T>>)
    requires |b| == |ms| && forall i {:trigger b[i]} :: 0 <= i < |ms| ==> b[i] == Leftover(ms, i)
    ensures DisjointChoice(ms, b)
  {
    forall i, j | 0 <= i < j < |ms| ensures b[i] !! b[j] {
      forall x | x in b[i] ensures x !in b[j] { InBefore(ms, j, i, x); }
    }
  }

  // ---- From lists of disks to sets ----

  function Devices(s: seq<BlockDevice>): set<BlockDevice> {
    set d | d in s
  }

  lemma {:induction false} SetOfDistinct(s: seq<BlockDevice>)
    requires Distinct(s)
    ensures |Devices(s)| == |s|
  {
    if s != [] {
      SetOfDistinct(s[1..]);
      assert forall i :: 0 <= i < |s[1..]| ==> s[1..][i] != s[0];
      assert Devices(s) == {s[0]} + Devices(s[1..]);
    }
  }

  lemma {:induction false} DistinctFilter<T(!new)>(s: seq<T>, p: T -> bool)
    requires Distinct(s)
    ensures Distinct(Filter(s, p))
  {
    if s != [] {
      DistinctFilter(s[1..], p);
      assert forall i :: 0 <= i < |s[1..]| ==> s[1..][i] != s[0];
      assert s[0] !in s[1..];
      FilterExact(s[1..], p);
    }
  }

  /** Acceptable disks are listed once, and told apart by their paths. */
  ghost predicate KnownDisks(slots: seq<Slot>, byPath: map<string, BlockDevice>) {
    && (forall i :: 0 <= i < |slots| ==> Distinct(slots[i].Accepts()))
    && (forall i, d :: 0 <= i < |slots| && d in slots[i].Accepts() ==> d.path in byPath && byPath[d.path] == d)
  }

  function AcceptedSets(slots: seq<Slot>): (ms: seq<set<BlockDevice>>)
    ensures |ms| == |slots|
    ensures forall i :: 0 <= i < |slots| ==> ms[i] == Devices(slots[i].Accepts())
  {
    seq(|slots|, i requires 0 <= i < |slots| => Devices(slots[i].Accepts()))
  }

  lemma {:induction false} ClaimedDisk(slots: seq<Slot>, byPath: map<string, BlockDevice>, n: nat, d: BlockDevice)
    requires KnownDisks(slots, byPath) && n <= |slots|
    requires d.path in byPath && byPath[d.path] == d
    ensures d.path in Claimed(slots, n) <==> d in Before(AcceptedSets(slots), n)
  {
    if n > 0 {
      ClaimedDisk(slots, byPath, n - 1, d);
      var accepts := slots[n - 1].Accepts();
      assert d.path in Paths(accepts) <==> d in accepts;
    }
  }

  lemma LeftIsLeftover(slots: seq<Slot>, byPath: map<string, BlockDevice>, i: nat)
    requires KnownDisks(slots, byPath) && i < |slots|
    ensures Devices(Left(slots, i)) == Leftover(AcceptedSets(slots), i)
    ensures |Devices(Left(slots, i))| == |Left(slots, i)|
  {
    var accepts := slots[i].Accepts();
    UnclaimedExact(accepts, Claimed(slots, i));
    forall d | d in accepts ensures d.path in Claimed(slots, i) <==> d in Before(AcceptedSets(slots), i) {
      ClaimedDisk(slots, byPath, i, d);
    }
    DistinctFilter(accepts, (d: BlockDevice) => d.path !in Claimed(slots, i));
    SetOfDistinct(Left(slots, i));
  }

  /** Disjoint sets of acceptable disks of the required sizes, one set per role. */
  ghost predicate IsAssignment(slots: seq<Slot>, b: seq<set<BlockDevice>>) {
    && DisjointChoice(AcceptedSets(slots), b)
    && forall i :: 0 <= i < |slots| ==> |b[i]| == slots[i].count
  }

  function GreedyAnswer(slots: seq<Slot>): (b: seq<set<BlockDevice>>)
    ensures |b| == |slots|
    ensures forall i :: 0 <= i < |slots| ==> b[i] == Devices(Left(slots, i))
  {
    seq(|slots|, i requires 0 <= i < |slots| => Devices(Left(slots, i)))
  }

  /** When claiming succeeds, what it finds is an assignment and there is no other. */
  lemma GreedyIsUnique(slots: seq<Slot>, byPath: map<string, BlockDevice>, b: seq<set<BlockDevice>>)
    requires KnownDisks(slots, byPath) && Fits(slots, |slots|)
    ensures IsAssignment(slots, b) <==> b == GreedyAnswer(slots)
  {
    var ms, a := AcceptedSets(slots), GreedyAnswer(slots);
    forall i | 0 <= i < |slots| ensures a[i] == Leftover(ms, i) && |a[i]| == slots[i].count {
      LeftIsLeftover(slots, byPath, i);
      assert RoleFits(slots, i);
    }
    LeftoversAreDisjoint(ms, a);
    if IsAssignment(slots, b) { OnlyChoice(ms, b, |ms|); }
  }
}

/** `resolve_disk_roles`. */
module RoleResolution {
  import opened Text
  import opened Sorting
  import opened Wrappers
  import opened Dicts
  import opened Disk
  import opened DiskDescriptor
  import opened DiskLayout
  import opened GreedyClaims

  datatype ResolvedDiskRoles = ResolvedDiskRoles(assignments: Dict<seq<BlockDevice>>, roles: Dict<DiskRole>)

  /** A layout, and the overrides of the machine profile and of the auto-install configuration. */
  datatype Request = Request(layout: DiskLayout, machine: seq<DiskRole>, auto: seq<DiskRole>)
  {
    function Effective(): Dict<DiskRole> {
      MergeRoleOverrides(layout, machine, auto)
    }

    /** Role names in the order they are resolved. */
    function Names(): seq<string> {
      Sort(Effective().keys, StrLe)
    }

    function Criteria(role: string): Option<DiskCriteria> {
      var spec :- Effective().Get(role);
      ParseDescriptor(spec.descriptor)
    }

    function SlotOf(glob: Glob, disks: seq<BlockDevice>, role: string): Slot {
      var c := Criteria(role);
      Slot(role,
           if c.None? then None else Some(MatchSpec(glob, c.value, disks)),
           RequiredForRole(layout.partitions, role).GetOr(1))
    }

    function Slots(glob: Glob, disks: seq<BlockDevice>): (slots: seq<Slot>)
      ensures |slots| == |Names()|
      ensures forall i :: 0 <= i < |slots| ==> slots[i] == SlotOf(glob, disks, Names()[i])
    {
      var names := Names();
      seq(|names|, i requires 0 <= i < |names| => SlotOf(glob, disks, names[i]))
    }
  }

  function Resolve(glob: Glob, req: Request, disks: seq<BlockDevice>): Result<ResolvedDiskRoles, seq<RoleError>> {
    var slots := req.Slots(glob, disks);
    var p := After(slots, |slots|);
    if p.errors != [] then Err(p.errors) else Ok(ResolvedDiskRoles(p.assignments, req.Effective()))
  }

  /** `resolve_disk_roles`: the loop over the sorted role names. */
  method ResolveDiskRoles(glob: Glob, req: Request, disks: seq<BlockDevice>)
    returns (r: Result<ResolvedDiskRoles, seq<RoleError>>)
    ensures r == Resolve(glob, req, disks)
  {
    hide Request.Criteria, Request.Effective, Request.Names, Request.Slots, MatchSpec;
    hide RequiredForRole, Unclaimed, Paths;
    var names := req.Names();
    ghost var slots := req.Slots(glob, disks);
    var assignments: Dict<seq<BlockDevice>> := Empty();
    var claimed: set<string> := {};
    var errors: seq<RoleError> := [];
    for i := 0 to |names|
      invariant Progress(assignments, claimed, errors) == After(slots, i)
    {
      var role := names[i];
      var criteria := req.Criteria(role);
      if criteria.None? {
        errors := errors + [InvalidDescriptor(role)];
        continue;
      }
      var matched := MatchDisks(glob, criteria.value, disks);
      var unclaimed := Unclaimed(matched, claimed);
      if unclaimed == [] {
        errors := errors + [if matched != [] then OnlyClaimed(role, matched) else NoMatch(role)];
        continue;
      }
      var required := ComputeRequiredForRole(req.layout.partitions, role);
      if required.Some? {
        if |unclaimed| < required.value {
          errors := errors + [TooFew(role, unclaimed)];
          continue;
        }
        if |unclaimed| > required.value {
          errors := errors + [TooMany(role, unclaimed)];
          continue;
        }
      } else if |unclaimed| > 1 {
        errors := errors + [TooMany(role, unclaimed)];
        continue;
      }
      var chosen := unclaimed[..required.GetOr(1)];
      assert chosen == unclaimed;
      assignments := assignments.Put(role, chosen);
      claimed := claimed + Paths(chosen);
    }
    if errors != [] { r := Err(errors); } else { r := Ok(ResolvedDiskRoles(assignments, req.Effective())); }
  }
}
