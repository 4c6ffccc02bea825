/** What a successful resolution promises, and what it does not depend on. */
module ResolutionLaws {
  import opened Text
  import opened Sorting
  import opened Wrappers
  import opened Dicts
  import opened Disk
  import opened DiskDescriptor
  import opened DiskLayout
  import opened GreedyClaims
  import opened RoleResolution
  import opened DescriptorLaws

  ghost predicate DistinctPaths(disks: seq<BlockDevice>) {
    forall i, j :: 0 <= i < j < |disks| ==> disks[i].path != disks[j].path
  }

  // ---- Names and disks of a request ----

  lemma NamesFacts(req: Request)
    ensures Distinct(req.Names())
    ensures forall r :: r in req.Names() <==> r in req.Effective().entries
  {
    var keys := req.Effective().keys;
    DistinctPermutes(keys, req.Names());
    SameElements(keys, req.Names());
  }

  lemma MatchDistinct(glob: Glob, c: DiskCriteria, disks: seq<BlockDevice>)
    requires DistinctPaths(disks)
    ensures Distinct(MatchSpec(glob, c, disks))
  {
    var selected := d => Selected(glob, c, d);
    DistinctFilter(disks, selected);
    DistinctPermutes(Filter(disks, selected), MatchSpec(glob, c, disks));
  }

  function ByPath(disks: seq<BlockDevice>): map<string, BlockDevice> {
    if disks == [] then map[] else ByPath(disks[1..])[disks[0].path := disks[0]]
  }

  lemma {:induction false} ByPathExact(disks: seq<BlockDevice>)
    requires DistinctPaths(disks)
    ensures forall d :: d in disks ==> d.path in ByPath(disks) && ByPath(disks)[d.path] == d
    ensures forall p :: p in ByPath(disks) ==> exists d :: d in disks && d.path == p
  {
    if disks != [] {
      var rest := disks[1..];
      forall i, j | 0 <= i < j < |rest|
        ensures rest[i].path != rest[j].path
      {
        assert rest[i] == disks[i + 1] && rest[j] == disks[j + 1];
      }
      ByPathExact(rest);
      forall d | d in rest ensures d.path != disks[0].path {
        var i :| 0 <= i < |rest| && rest[i] == d;
        assert disks[i + 1] == d;
      }
      assert forall d :: d in disks <==> d == disks[0] || d in rest;
    }
  }

  lemma SlotsFacts(glob: Glob, req: Request, disks: seq<BlockDevice>)
    requires DistinctPaths(disks)
    ensures var slots := req.Slots(glob, disks);
            DistinctRoles(slots) && PositiveCounts(slots) && KnownDisks(slots, ByPath(disks))
  {
    var slots := req.Slots(glob, disks);
    NamesFacts(req);
    ByPathExact(disks);
    forall i | 0 <= i < |slots|
      ensures Distinct(slots[i].Accepts())
      ensures forall d :: d in slots[i].Accepts() ==> d in disks
    {
      var c := req.Criteria(req.Names()[i]);
      if c.Some? { MatchDistinct(glob, c.value, disks); }
    }
  }

  // ---- Success ----

  /** The disks accepted by the `i`-th role, in name order, and by no role before it. */
  function OwnDisks(glob: Glob, req: Request, disks: seq<BlockDevice>, i: nat): set<BlockDevice>
    requires i < |req.Names()|
  {
    Leftover(AcceptedSets(req.Slots(glob, disks)), i)
  }

  /**
   * Resolution succeeds exactly when every descriptor parses and every role accepts, beyond what the
   * roles before it accept, exactly as many disks as it takes.
   */
  lemma ResolvesExactly(glob: Glob, req: Request, disks: seq<BlockDevice>)
    requires DistinctPaths(disks)
    ensures Resolve(glob, req, disks).Ok? <==>
            forall i :: 0 <= i < |req.Names()| ==>
              && req.Criteria(req.Names()[i]).Some?
              && |OwnDisks(glob, req, disks, i)| == RequiredForRole(req.layout.partitions, req.Names()[i]).GetOr(1)
  {
    var slots := req.Slots(glob, disks);
    SlotsFacts(glob, req, disks);
    RunFits(slots, |slots|);
    forall i | 0 <= i < |slots|
      ensures RoleFits(slots, i) <==>
              && req.Criteria(req.Names()[i]).Some?
              && |OwnDisks(glob, req, disks, i)| == RequiredForRole(req.layout.partitions, req.Names()[i]).GetOr(1)
    {
      LeftIsLeftover(slots, ByPath(disks), i);
    }
  }

  /** The result lists exactly the roles, in name order, and gives each the disks left for it. */
  lemma ResolvedShape(glob: Glob, req: Request, disks: seq<BlockDevice>)
    requires DistinctPaths(disks) && Resolve(glob, req, disks).Ok?
    ensures var a := Resolve(glob, req, disks).value.assignments;
            && a.Valid() && a.keys == req.Names()
            && Fits(req.Slots(glob, disks), |req.Names()|)
            && forall i :: 0 <= i < |req.Names()| ==> a.entries[req.Names()[i]] == Left(req.Slots(glob, disks), i)
  {
    hide Left, RoleFits, Assigned, Claimed, MatchSpec;
    var slots := req.Slots(glob, disks);
    SlotsFacts(glob, req, disks);
    RunFits(slots, |slots|);
    AssignedKeys(slots, |slots|);
    forall i | 0 <= i < |slots|
      ensures Resolve(glob, req, disks).value.assignments.entries[req.Names()[i]] == Left(slots, i)
    {
      AssignedStays(slots, i, |slots|);
    }
  }

  /** The chosen disks as sets, role by role in name order. */
  function Chosen(req: Request, resolved: ResolvedDiskRoles): seq<set<BlockDevice>> {
    seq(|req.Names()|, i requires 0 <= i < |req.Names()| => Devices(resolved.assignments.Get(req.Names()[i]).GetOr([])))
  }

  lemma ChosenIsGreedy(glob: Glob, req: Request, disks: seq<BlockDevice>)
    requires DistinctPaths(disks) && Resolve(glob, req, disks).Ok?
    ensures Chosen(req, Resolve(glob, req, disks).value) == GreedyAnswer(req.Slots(glob, disks))
  {
    hide Resolve, Left, Fits, Devices;
    ResolvedShape(glob, req, disks);
  }

  /** A successful resolution leaves no choice: its answer is an assignment, and the only one. */
  lemma ResolutionIsUnique(glob: Glob, req: Request, disks: seq<BlockDevice>, b: seq<set<BlockDevice>>)
    requires DistinctPaths(disks) && Resolve(glob, req, disks).Ok?
    ensures IsAssignment(req.Slots(glob, disks), b) <==> b == Chosen(req, Resolve(glob, req, disks).value)
  {
    hide KnownDisks, IsAssignment, Chosen, Fits, Resolve, ByPath;
    ResolvedShape(glob, req, disks);
    SlotsFacts(glob, req, disks);
    GreedyIsUnique(req.Slots(glob, disks), ByPath(disks), b);
    ChosenIsGreedy(glob, req, disks);
  }

  // ---- An answer that is missed ----

  /** A validated layout with a role that any disk will do for, and one for the first disk. */
  const TWO_ROLES := DiskLayout(
    [ PartitionSpec("*", "ext4", Some("/"), "root", "", [], "root", "", "", ""),
      PartitionSpec("*", "ext4", Some("/bulk"), "bulk", "", [], "bulk", "", "", "")],
    [DiskRole("bulk", Descriptor.Text("")), DiskRole("root", Descriptor.Text("/dev/sda"))])

  lemma TwoRolesAreValid()
    ensures ValidLayout(TWO_ROLES)
  {
    var parts := TWO_ROLES.partitions;
    assert MountPoints(parts) == ["/", "/bulk"] by {
      assert parts[1..][1..] == [] && MountPoints(parts[1..]) == ["/bulk"];
    }
    assert RoleNames(TWO_ROLES) == ["bulk", "root"];
    assert "bulk"[0] != "root"[0] && |"/"| != |"/bulk"|;
    forall e ensures !Fault(TWO_ROLES, e) {}
  }

  lemma DevicePathParses(s: string)
    requires Word(s) && StartsWith(s, "/dev/")
    ensures ParseString(s) == Some(NO_CRITERIA.(explicitDevice := Some(s)))
  {
    hide Split, IsSpace, Strip, StartsWith;
    StripsNothing(s);
  }

  lemma EmptyTextParses()
    ensures ParseString("") == Some(NO_CRITERIA)
  {
    hide Split, StartsWith;
  }

  lemma FirstDiskIsPath()
    ensures Word("/dev/sda") && StartsWith("/dev/sda", "/dev/")
  {
    assert "/dev/sda"[..5] == "/dev/";
  }

  lemma PutFirst(d: Dict<DiskRole>, x: DiskRole, rest: seq<DiskRole>)
    ensures PutRoles(d, [x] + rest) == PutRoles(d.Put(x.name, x), rest)
    ensures PutRoles(d, []) == d
  {
    hide Dict.Put;
    assert ([x] + rest)[1..] == rest;
  }

  lemma PutPair<V>(k: string, v: V, l: string, w: V)
    requires k != l
    ensures Empty<V>().Put(k, v).Put(l, w) == Dict([k, l], map[k := v, l := w])
  {
    var one := Empty<V>().Put(k, v);
    assert one.keys == [k] && l !in one.entries;
    assert [k] + [l] == [k, l];
  }

  lemma TwoRolesPut(x: DiskRole, y: DiskRole)
    requires x.name != y.name
    ensures PutRoles(Empty(), [x, y]) == Dict([x.name, y.name], map[x.name := x, y.name := y])
    ensures PutRoles(PutRoles(Empty(), [x, y]), []) == PutRoles(Empty(), [x, y])
  {
    hide PutRoles, Dict.Put;
    var none: Dict<DiskRole> := Empty();
    assert [x] + [y] == [x, y] && [y] + [] == [y];
    PutFirst(none, x, [y]);
    PutFirst(none.Put(x.name, x), y, []);
    PutFirst(none.Put(x.name, x).Put(y.name, y), y, []);
    PutFirst(PutRoles(none, [x, y]), x, []);
    PutPair(x.name, x, y.name, y);
  }

  lemma SortedPair(x: string, y: string)
    requires StrLe(x, y)
    ensures Sort([x, y], StrLe) == [x, y]
  {
    assert [x, y][1..] == [y] && [y][1..] == [];
  }

  lemma TwoRolesRequest(layout: DiskLayout, x: DiskRole, y: DiskRole)
    requires layout.disks == [x, y] && x.name != y.name && StrLe(x.name, y.name)
    ensures var req := Request(layout, [], []);
            && req.Names() == [x.name, y.name]
            && req.Criteria(x.name) == ParseDescriptor(x.descriptor)
            && req.Criteria(y.name) == ParseDescriptor(y.descriptor)
  {
    hide PutRoles, ParseDescriptor, Sort, StrLe;
    TwoRolesPut(x, y);
    SortedPair(x.name, y.name);
  }

  lemma {:induction false} NoArraysNoCounts(parts: seq<PartitionSpec>, role: string)
    requires forall i :: 0 <= i < |parts| ==> !parts[i].IsMultidisk()
    ensures RequiredForRole(parts, role) == None
  {
    if parts != [] { NoArraysNoCounts(parts[..|parts| - 1], role); }
  }

  /** Without criteria every fixed disk will do; a device path selects that device. */
  lemma FixedDisksSelected(glob: Glob, d: BlockDevice, e: BlockDevice)
    requires d.path == "/dev/sda" && e.path != d.path && !d.removable && !e.removable
    ensures Devices(MatchSpec(glob, NO_CRITERIA, [d, e])) == {d, e}
    ensures Devices(MatchSpec(glob, NO_CRITERIA.(explicitDevice := Some("/dev/sda")), [d, e])) == {d}
  {
    hide MatchSpec, Matches;
    var c := NO_CRITERIA.(explicitDevice := Some("/dev/sda"));
    forall x: BlockDevice | !x.removable
      ensures Selected(glob, NO_CRITERIA, x) && (Selected(glob, c, x) <==> x.path == "/dev/sda")
    {
      FixedDiskMatches(glob, x);
    }
  }

  lemma FixedDiskMatches(glob: Glob, x: BlockDevice)
    ensures Matches(glob, NO_CRITERIA, x)
    ensures Matches(glob, NO_CRITERIA.(explicitDevice := Some("/dev/sda")), x) <==> x.path == "/dev/sda"
  {
  }

  /** The first role takes any disk, the second only `d`; each takes one. */
  lemma TakesAnyThenOne(glob: Glob, req: Request, d: BlockDevice, e: BlockDevice, p: string, q: string)
    requires d.path != e.path && req.Names() == [p, q]
    requires req.Criteria(p).Some? && Devices(MatchSpec(glob, req.Criteria(p).value, [d, e])) == {d, e}
    requires req.Criteria(q).Some? && Devices(MatchSpec(glob, req.Criteria(q).value, [d, e])) == {d}
    requires RequiredForRole(req.layout.partitions, p) == None && RequiredForRole(req.layout.partitions, q) == None
    ensures IsAssignment(req.Slots(glob, [d, e]), [{e}, {d}]) && Resolve(glob, req, [d, e]).Err?
  {
    hide MatchSpec, Request.Criteria, Request.Names, RequiredForRole, Resolve, Leftover, KnownDisks;
    var disks := [d, e];
    var slots := req.Slots(glob, disks);
    assert slots[0] == req.SlotOf(glob, disks, p) && slots[1] == req.SlotOf(glob, disks, q);
    var ms := AcceptedSets(slots);
    assert ms[0] == {d, e} && ms[1] == {d};
    ResolvesExactly(glob, req, disks);
    LeftoverOfFirst(ms);
    assert OwnDisks(glob, req, disks, 0) == {d, e} && |{d, e}| == 2;
  }

  /**
   * The converse fails: for this layout and any two fixed disks, one of them `/dev/sda`, a disjoint assignment
   * exists, and the resolver rejects the request.
   */
  lemma GreedyCanMissAnAnswer(glob: Glob, d: BlockDevice, e: BlockDevice)
    requires d.path == "/dev/sda" && e.path != d.path && !d.removable && !e.removable
    ensures var req := Request(TWO_ROLES, [], []);
            && ValidLayout(req.layout)
            && IsAssignment(req.Slots(glob, [d, e]), [{e}, {d}])
            && Resolve(glob, req, [d, e]).Err?
  {
    hide MatchSpec, ParseString, Resolve, Request.Names, Request.Criteria, Request.Slots, Word, StartsWith;
    TwoRolesAreValid();
    EmptyTextParses();
    FirstDiskIsPath();
    DevicePathParses("/dev/sda");
    FixedDisksSelected(glob, d, e);
    assert "bulk"[0] < "root"[0] && StrLe("bulk", "root");
    TwoRolesRequest(TWO_ROLES, TWO_ROLES.disks[0], TWO_ROLES.disks[1]);
    NoArraysNoCounts(TWO_ROLES.partitions, "bulk");
    NoArraysNoCounts(TWO_ROLES.partitions, "root");
    TakesAnyThenOne(glob, Request(TWO_ROLES, [], []), d, e, "bulk", "root");
  }

  lemma LeftoverOfFirst<T>(ms: seq<set<T>>)
    requires ms != []
    ensures Leftover(ms, 0) == ms[0]
  {
  }

  // ---- Enumeration order ----

  lemma DiskLeIsTotal()
    ensures TotalPreorder(DiskLe)
  {
    forall x, y ensures DiskLe(x, y) || DiskLe(y, x) { StrLeTotal(x.serial, y.serial); StrLeTotal(x.path, y.path); }
    forall x, y, z | DiskLe(x, y) && DiskLe(y, z) ensures DiskLe(x, z) { DiskLeTransitive(x, y, z); }
  }

  lemma {:induction false} FilterCounts<T>(s: seq<T>, p: T -> bool, x: T)
    ensures multiset(Filter(s, p))[x] == if p(x) then multiset(s)[x] else 0
  {
    if s != [] {
      FilterCounts(s[1..], p, x);
      assert s == [s[0]] + s[1..];
    }
  }

  /** A match lists each selected disk as often as the candidates do, and no other, by serial and then by path. */
  lemma MatchSpecExact(glob: Glob, c: DiskCriteria, candidates: seq<BlockDevice>, d: BlockDevice)
    ensures SortedBy(MatchSpec(glob, c, candidates), DiskLe)
    ensures multiset(MatchSpec(glob, c, candidates))[d] == if Selected(glob, c, d) then multiset(candidates)[d] else 0
  {
    hide Selected, DiskLe;
    var selected := d => Selected(glob, c, d);
    DiskLeIsTotal();
    SortSorted(Filter(candidates, selected), DiskLe);
    FilterCounts(candidates, selected, d);
  }

  lemma DiskOrder(disks: seq<BlockDevice>)
    requires DistinctPaths(disks)
    ensures TotalPreorder(DiskLe) && Antisymmetric(DiskLe, disks)
  {
    DiskLeIsTotal();
    ByPathExact(disks);
    forall x, y | x in disks && y in disks && DiskLe(x, y) && DiskLe(y, x) ensures x == y {
      if x.serial != y.serial { StrLeAntisymmetric(x.serial, y.serial); } else { StrLeAntisymmetric(x.path, y.path); }
    }
  }

  lemma DiskLeTransitive(x: BlockDevice, y: BlockDevice, z: BlockDevice)
    requires DiskLe(x, y) && DiskLe(y, z)
    ensures DiskLe(x, z)
  {
    if x.serial == y.serial == z.serial {
      StrLeTransitive(x.path, y.path, z.path);
    } else if x.serial != y.serial && y.serial != z.serial {
      StrLeTransitive(x.serial, y.serial, z.serial);
      if x.serial == z.serial { StrLeAntisymmetric(x.serial, y.serial); }
    }
  }

  lemma FilterAround<T>(u: seq<T>, x: T, v: seq<T>, p: T -> bool)
    ensures multiset(Filter(u + [x] + v, p)) == multiset(Filter([x], p)) + multiset(Filter(u + v, p))
  {
    FilterConcat(u, v, p);
    FilterConcat(u + [x], v, p);
    FilterConcat(u, [x], p);
  }

  lemma {:induction false} FilterPermutes<T>(a: seq<T>, b: seq<T>, p: T -> bool)
    requires multiset(a) == multiset(b)
    ensures multiset(Filter(a, p)) == multiset(Filter(b, p))
    decreases |a|
  {
    SameElements(a, b);
    if a != [] {
      var i := FindHead(a, b);
      FilterPermutes(a[1..], b[..i] + b[i + 1..], p);
      FilterAround(b[..i], a[0], b[i + 1..], p);
      FilterAround([], a[0], a[1..], p);
      assert a == [] + [a[0]] + a[1..] && [] + a[1..] == a[1..];
    }
  }

  lemma MatchIgnoresEnumeration(glob: Glob, c: DiskCriteria, a: seq<BlockDevice>, b: seq<BlockDevice>)
    requires DistinctPaths(a) && multiset(a) == multiset(b)
    ensures MatchSpec(glob, c, a) == MatchSpec(glob, c, b)
  {
    var selected := d => Selected(glob, c, d);
    FilterPermutes(a, b, selected);
    DiskOrder(a);
    FilterExact(a, selected);
    SortPermutation(Filter(a, selected), Filter(b, selected), DiskLe);
  }

  /** Detecting the same disks in another order gives the same result, down to the order within each role. */
  lemma ResolutionIgnoresEnumeration(glob: Glob, req: Request, a: seq<BlockDevice>, b: seq<BlockDevice>)
    requires DistinctPaths(a) && multiset(a) == multiset(b)
    ensures Resolve(glob, req, a) == Resolve(glob, req, b)
  {
    var s, t := req.Slots(glob, a), req.Slots(glob, b);
    forall i | 0 <= i < |s| ensures s[i] == t[i] {
      var c := req.Criteria(req.Names()[i]);
      if c.Some? { MatchIgnoresEnumeration(glob, c.value, a, b); }
    }
    assert s == t;
  }

  // ---- Kernel names ----

  /** `f` changes nothing about these disks but the names the kernel gave them, and keeps the paths distinct. */
  ghost predicate Renames(f: BlockDevice -> BlockDevice, disks: seq<BlockDevice>) {
    && (forall d :: d in disks ==> f(d) == d.(name := f(d).name, path := f(d).path))
    && DistinctPaths(disks) && DistinctPaths(Map(f, disks))
  }

  ghost predicate DistinctSerials(disks: seq<BlockDevice>) {
    forall i, j :: 0 <= i < j < |disks| ==> disks[i].serial != disks[j].serial
  }

  /** What is left of a disk when the kernel has given it no name. */
  function Nameless(d: BlockDevice): BlockDevice {
    d.(name := "", path := "")
  }

  /** The kernel's names for this disk make no difference to the token. */
  predicate NameBlind(glob: Glob, w: string, d: BlockDevice) {
    MatchesFreeToken(glob, w, SearchCorpus(d)) <==> MatchesFreeToken(glob, w, SearchCorpus(Nameless(d)))
  }

  /** The criteria name no device, and their tokens are blind to its kernel names. */
  ghost predicate NameFree(glob: Glob, c: DiskCriteria, d: BlockDevice) {
    c.explicitDevice.None? && forall w :: w in c.freeTokens ==> NameBlind(glob, w, d)
  }

  ghost predicate MentionsNoNames(glob: Glob, req: Request, f: BlockDevice -> BlockDevice, disks: seq<BlockDevice>) {
    forall r, d :: r in req.Names() && req.Criteria(r).Some? && d in disks ==>
      NameFree(glob, req.Criteria(r).value, d) && NameFree(glob, req.Criteria(r).value, f(d))
  }

  /** A plain word that occurs in neither kernel name is blind to them. */
  lemma PlainWordIsNameBlind(glob: Glob, w: string, d: BlockDevice)
    requires PlainWord(w) && !Contains(Normalise(d.path), Lower(w)) && !Contains(Normalise(d.name), Lower(w))
    ensures NameBlind(glob, w, d)
  {
    FreeTokenMatchesOneAttribute(glob, w, d);
    FreeTokenMatchesOneAttribute(glob, w, Nameless(d));
    AttributesButNames(d);
    hide MatchesFreeToken, SearchCorpus, Contains, Attributes;
    if a :| a in Attributes(Nameless(d)) && Contains(Normalise(a), Lower(w)) { WordNotInEmpty(a, Lower(w)); }
  }

  lemma AttributesButNames(d: BlockDevice)
    ensures forall a :: a in Attributes(d) && a != d.path && a != d.name ==> a in Attributes(Nameless(d))
    ensures forall a :: a in Attributes(Nameless(d)) && a != "" ==> a in Attributes(d)
  {
  }

  lemma SelectionIgnoresNames(glob: Glob, c: DiskCriteria, d: BlockDevice, e: BlockDevice)
    requires Nameless(e) == Nameless(d) && NameFree(glob, c, d) && NameFree(glob, c, e)
    requires Selected(glob, c, d)
    ensures Selected(glob, c, e)
  {
    hide MatchesFreeToken, SearchCorpus, VendorAccepts;
    if !c.IsEmpty() {
      forall w | w in c.freeTokens ensures MatchesFreeToken(glob, w, SearchCorpus(e)) {
        assert NameBlind(glob, w, d) && NameBlind(glob, w, e);
      }
      VendorsIgnoreNames(c, d, e);
    }
  }

  lemma VendorsIgnoreNames(c: DiskCriteria, d: BlockDevice, e: BlockDevice)
    requires Nameless(e) == Nameless(d)
    ensures VendorAccepts(c, d) <==> VendorAccepts(c, e)
  {
    assert VendorCorpus(d) == VendorCorpus(e);
    hide VendorCorpus;
  }

  lemma {:induction false} FilterMap<A, B>(f: A -> B, s: seq<A>, p: A -> bool, q: B -> bool)
    requires forall x :: x in s ==> (q(f(x)) <==> p(x))
    ensures Filter(Map(f, s), q) == Map(f, Filter(s, p))
  {
    if s != [] {
      FilterMap(f, s[1..], p, q);
      assert Map(f, s)[1..] == Map(f, s[1..]);
      assert s[0] in s;
    }
  }

  lemma CarriesFilter(f: BlockDevice -> BlockDevice, disks: seq<BlockDevice>, s: seq<BlockDevice>)
    requires Renames(f, disks) && DistinctSerials(disks) && forall d :: d in s ==> d in disks
    ensures Carries(f, s, DiskLe, DiskLe)
  {
    forall i, j | 0 <= i < |s| && 0 <= j < |s| ensures DiskLe(f(s[i]), f(s[j])) <==> DiskLe(s[i], s[j]) {
      assert s[i] in disks && s[j] in disks;
      var a :| 0 <= a < |disks| && disks[a] == s[i];
      var b :| 0 <= b < |disks| && disks[b] == s[j];
      if a == b {
        StrLeTotal(s[i].path, s[i].path);
        StrLeTotal(f(s[i]).path, f(s[i]).path);
      }
    }
  }

  lemma MatchRenamed(glob: Glob, c: DiskCriteria, f: BlockDevice -> BlockDevice, disks: seq<BlockDevice>)
    requires Renames(f, disks) && DistinctSerials(disks)
    requires forall d :: d in disks ==> NameFree(glob, c, d) && NameFree(glob, c, f(d))
    ensures MatchSpec(glob, c, Map(f, disks)) == Map(f, MatchSpec(glob, c, disks))
  {
    var selected := d => Selected(glob, c, d);
    forall d | d in disks ensures selected(f(d)) <==> selected(d) {
      if selected(d) { SelectionIgnoresNames(glob, c, d, f(d)); }
      if selected(f(d)) { SelectionIgnoresNames(glob, c, f(d), d); }
    }
    FilterMap(f, disks, selected, selected);
    FilterExact(disks, selected);
    CarriesFilter(f, disks, Filter(disks, selected));
    SortMap(f, Filter(disks, selected), DiskLe, DiskLe);
  }

  /** The `i`-th role accepts in `t` the renamed disks that it accepts in `s`. */
  ghost predicate RenamedSlot(s: seq<Slot>, t: seq<Slot>, f: BlockDevice -> BlockDevice, disks: seq<BlockDevice>,
                              i: int)
    requires 0 <= i < |s| == |t|
  {
    t[i].Accepts() == Map(f, s[i].Accepts()) && forall e :: e in s[i].Accepts() ==> e in disks
  }

  /** Claims made by renamed disks are the renamed claims. */
  lemma {:induction false} ClaimedRenamed(s: seq<Slot>, t: seq<Slot>, f: BlockDevice -> BlockDevice,
                                          disks: seq<BlockDevice>, n: nat, d: BlockDevice)
    requires Renames(f, disks) && d in disks && n <= |s| == |t|
    requires forall i :: 0 <= i < n ==> RenamedSlot(s, t, f, disks, i)
    ensures f(d).path in Claimed(t, n) <==> d.path in Claimed(s, n)
  {
    hide Paths, Renames, Slot.Accepts;
    if n > 0 {
      ClaimedRenamed(s, t, f, disks, n - 1, d);
      assert RenamedSlot(s, t, f, disks, n - 1);
      PathsRenamed(s[n - 1].Accepts(), f, disks, d);
    }
  }

  /** Renamed disks share a path exactly when the disks do. */
  lemma RenamedPaths(f: BlockDevice -> BlockDevice, disks: seq<BlockDevice>, d: BlockDevice, e: BlockDevice)
    requires Renames(f, disks) && d in disks && e in disks
    ensures f(d).path == f(e).path <==> d.path == e.path
  {
    var i :| 0 <= i < |disks| && disks[i] == d;
    var j :| 0 <= j < |disks| && disks[j] == e;
    assert Map(f, disks)[i] == f(d) && Map(f, disks)[j] == f(e);
  }

  lemma PathsRenamed(accepts: seq<BlockDevice>, f: BlockDevice -> BlockDevice, disks: seq<BlockDevice>, d: BlockDevice)
    requires Renames(f, disks) && d in disks && forall e :: e in accepts ==> e in disks
    ensures f(d).path in Paths(Map(f, accepts)) <==> d.path in Paths(accepts)
  {
    hide Renames;
    forall e | e in accepts ensures f(d).path == f(e).path <==> d.path == e.path { RenamedPaths(f, disks, d, e); }
    if e :| e in accepts && e.path == d.path {
      var k :| 0 <= k < |accepts| && accepts[k] == e;
      assert Map(f, accepts)[k] == f(e);
    }
    if f(d).path in Paths(Map(f, accepts)) {
      var k :| 0 <= k < |accepts| && f(accepts[k]).path == f(d).path;
      assert accepts[k] in accepts;
    }
  }

  lemma LeftRenamed(s: seq<Slot>, t: seq<Slot>, f: BlockDevice -> BlockDevice, disks: seq<BlockDevice>, n: nat)
    requires Renames(f, disks) && n < |s| == |t|
    requires forall i :: 0 <= i <= n ==> RenamedSlot(s, t, f, disks, i)
    ensures Left(t, n) == Map(f, Left(s, n))
  {
    assert RenamedSlot(s, t, f, disks, n);
    var p := (d: BlockDevice) => d.path !in Claimed(s, n);
    var q := (d: BlockDevice) => d.path !in Claimed(t, n);
    forall d | d in s[n].Accepts() ensures q(f(d)) <==> p(d) { ClaimedRenamed(s, t, f, disks, n, d); }
    FilterMap(f, s[n].Accepts(), p, q);
  }

  lemma SlotsRenamed(glob: Glob, req: Request, f: BlockDevice -> BlockDevice, disks: seq<BlockDevice>, i: nat)
    requires Renames(f, disks) && DistinctSerials(disks) && MentionsNoNames(glob, req, f, disks) && i < |req.Names()|
    ensures var s, t := req.Slots(glob, disks), req.Slots(glob, Map(f, disks));
            RenamedSlot(s, t, f, disks, i) && t[i].matched.Some? == s[i].matched.Some? && t[i].count == s[i].count
  {
    var c := req.Criteria(req.Names()[i]);
    if c.Some? {
      MatchRenamed(glob, c.value, f, disks);
    } else {
      assert Map(f, []) == [];
    }
  }

  lemma FitRenamed(glob: Glob, req: Request, f: BlockDevice -> BlockDevice, disks: seq<BlockDevice>, i: nat)
    requires Renames(f, disks) && DistinctSerials(disks) && MentionsNoNames(glob, req, f, disks) && i < |req.Names()|
    ensures var s, t := req.Slots(glob, disks), req.Slots(glob, Map(f, disks));
            Left(t, i) == Map(f, Left(s, i)) && (RoleFits(t, i) <==> RoleFits(s, i))
  {
    forall j | 0 <= j <= i ensures RenamedSlot(req.Slots(glob, disks), req.Slots(glob, Map(f, disks)), f, disks, j) {
      SlotsRenamed(glob, req, f, disks, j);
    }
    SlotsRenamed(glob, req, f, disks, i);
    LeftRenamed(req.Slots(glob, disks), req.Slots(glob, Map(f, disks)), f, disks, i);
  }

  /**
   * Renaming the devices of disks with distinct serials changes nothing but the names: the same
   * roles resolve, and each gets the same disks in the same positions.
   */
  lemma ResolutionIgnoresNames(glob: Glob, req: Request, f: BlockDevice -> BlockDevice, disks: seq<BlockDevice>)
    requires Renames(f, disks) && DistinctSerials(disks) && MentionsNoNames(glob, req, f, disks)
    ensures Resolve(glob, req, Map(f, disks)).Ok? <==> Resolve(glob, req, disks).Ok?
    ensures Resolve(glob, req, disks).Ok? ==>
              var a, b := Resolve(glob, req, disks).value.assignments,
                Resolve(glob, req, Map(f, disks)).value.assignments;
              && b.keys == a.keys == req.Names()
              && forall i :: 0 <= i < |a.keys| ==> a.keys[i] in a.entries && a.keys[i] in b.entries &&
                                                   b.entries[a.keys[i]] == Map(f, a.entries[a.keys[i]])
  {
    hide Left, RoleFits, Assigned, Claimed, MatchSpec, DistinctSerials, MentionsNoNames;
    var s, t := req.Slots(glob, disks), req.Slots(glob, Map(f, disks));
    SlotsFacts(glob, req, disks);
    SlotsFacts(glob, req, Map(f, disks));
    RunFits(s, |s|);
    RunFits(t, |t|);
    forall i | 0 <= i < |s| ensures Left(t, i) == Map(f, Left(s, i)) && (RoleFits(t, i) <==> RoleFits(s, i)) {
      FitRenamed(glob, req, f, disks, i);
    }
    if Resolve(glob, req, disks).Ok? {
      ResolvedShape(glob, req, disks);
      ResolvedShape(glob, req, Map(f, disks));
    }
  }
}
