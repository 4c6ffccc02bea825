/** Validating and ordering a selection of modules, and merging what they bring. */
module ModuleResolution {
  import opened Sorting
  import opened Wrappers
  import opened Dicts
  import opened Deduplication

  // ---- Categories ----

  datatype Category = Base | Networking | Desktop | DevToolchain | Topic | Service

  /** The position of a category in the execution order. */
  function Rank(c: Category): nat {
    match c
    case Base => 0
    case Networking => 1
    case Desktop => 2
    case DevToolchain => 3
    case Topic => 4
    case Service => 5
  }

  /** The categories of which a module of this category needs one each. */
  function Needs(c: Category): (r: seq<Category>)
    ensures forall d :: d in r ==> Rank(d) < Rank(c)
  {
    match c
    case Base => []
    case Networking => [Base]
    case Desktop => [Networking]
    case Topic => [Desktop]
    case Service => [Base, Networking]
    case DevToolchain => [Base]
  }

  // ---- Modules ----

  datatype Phases = Phases(pacstrap: seq<string>, overrides: seq<string>, firstboot: seq<string>)

  datatype Module = Module(
    slug: string,
    category: Category,
    install: Phases,
    services: seq<string>,
    hasRole: bool,
    needs: seq<string>,
    conflicts: seq<string>)

  datatype ModuleError =
    | Unknown(slug: string)
    | MissingModule(slug: string, needed: string)
    | Conflict(slug: string, other: string)
    | MissingCategory(slug: string, category: Category)
    | SeveralDesktops

  /** `{m.slug: m for m in available}`. */
  function BySlug(available: seq<Module>): (r: map<string, Module>)
    ensures forall k :: k in r ==> r[k].slug == k && r[k] in available
    ensures forall m :: m in available ==> m.slug in r
  {
    if available == [] then map[]
    else
      var n := |available| - 1;
      assert available == available[..n] + [available[n]];
      BySlug(available[..n])[available[n].slug := available[n]]
  }

  predicate Known(slugs: seq<string>, catalog: map<string, Module>) {
    forall i :: 0 <= i < |slugs| ==> slugs[i] in catalog
  }

  function Selected(slugs: seq<string>, catalog: map<string, Module>): (r: seq<Module>)
    requires Known(slugs, catalog)
    ensures |r| == |slugs| && forall i :: 0 <= i < |slugs| ==> r[i] == catalog[slugs[i]]
  {
    seq(|slugs|, i requires 0 <= i < |slugs| => catalog[slugs[i]])
  }

  /** What is wrong with a selection of known modules. */
  ghost predicate NoneOf(selected: seq<Module>, c: Category) {
    forall o :: o in selected ==> o.category != c
  }

  ghost predicate Fault(selected: seq<Module>, slugs: seq<string>, e: ModuleError) {
    match e
    case Unknown(_) => false
    case MissingModule(s, n) => exists m :: m in selected && m.slug == s && n in m.needs && n !in slugs
    case Conflict(s, o) => exists m :: m in selected && m.slug == s && o in m.conflicts && o in slugs
    case MissingCategory(s, c) =>
      exists m :: m in selected && m.slug == s && c in Needs(m.category) && NoneOf(selected, c)
    case SeveralDesktops =>
      exists i, j :: 0 <= i < j < |selected| && selected[i].category == selected[j].category == Desktop
  }

  ghost predicate Acceptable(slugs: seq<string>, available: seq<Module>) {
    var catalog := BySlug(available);
    Known(slugs, catalog) && forall e :: !Fault(Selected(slugs, catalog), slugs, e)
  }

  /** Category order, then slug. */
  predicate ModuleLe(a: Module, b: Module) {
    Rank(a.category) < Rank(b.category) || (Rank(a.category) == Rank(b.category) && StrLe(a.slug, b.slug))
  }

  // ---- The checks ----

  method SelectModules(slugs: seq<string>, catalog: map<string, Module>) returns (r: Result<seq<Module>, ModuleError>)
    ensures r.Ok? <==> Known(slugs, catalog)
    ensures r.Ok? ==> r.value == Selected(slugs, catalog)
    ensures r.Err? ==> exists s :: s in slugs && s !in catalog && r.error == Unknown(s)
  {
    var selected := [];
    for i := 0 to |slugs|
      invariant forall j :: 0 <= j < i ==> slugs[j] in catalog
      invariant |selected| == i && forall j :: 0 <= j < i ==> selected[j] == catalog[slugs[j]]
    {
      if slugs[i] !in catalog { return Err(Unknown(slugs[i])); }
      selected := selected + [catalog[slugs[i]]];
    }
    r := Ok(selected);
    assert selected == Selected(slugs, catalog);
  }

  method CheckNeeds(selected: seq<Module>, slugs: seq<string>) returns (error: Option<ModuleError>)
    ensures error.Some? ==> Fault(selected, slugs, error.value)
    ensures error.None? ==> forall e: ModuleError :: e.MissingModule? ==> !Fault(selected, slugs, e)
  {
    for i := 0 to |selected|
      invariant forall m, n :: m in selected[..i] && n in m.needs ==> n in slugs
    {
      var m := selected[i];
      for k := 0 to |m.needs|
        invariant forall n :: n in m.needs[..k] ==> n in slugs
      {
        if m.needs[k] !in slugs { return Some(MissingModule(m.slug, m.needs[k])); }
        assert m.needs[..k + 1] == m.needs[..k] + [m.needs[k]];
      }
      assert m.needs[..|m.needs|] == m.needs && selected[..i + 1] == selected[..i] + [m];
    }
    assert selected[..|selected|] == selected;
    error := None;
  }

  method CheckConflicts(selected: seq<Module>, slugs: seq<string>) returns (error: Option<ModuleError>)
    ensures error.Some? ==> Fault(selected, slugs, error.value)
    ensures error.None? ==> forall e: ModuleError :: e.Conflict? ==> !Fault(selected, slugs, e)
  {
    for i := 0 to |selected|
      invariant forall m, n :: m in selected[..i] && n in m.conflicts ==> n !in slugs
    {
      var m := selected[i];
      for k := 0 to |m.conflicts|
        invariant forall n :: n in m.conflicts[..k] ==> n !in slugs
      {
        if m.conflicts[k] in slugs { return Some(Conflict(m.slug, m.conflicts[k])); }
        assert m.conflicts[..k + 1] == m.conflicts[..k] + [m.conflicts[k]];
      }
      assert m.conflicts[..|m.conflicts|] == m.conflicts && selected[..i + 1] == selected[..i] + [m];
    }
    assert selected[..|selected|] == selected;
    error := None;
  }

  method CheckCategories(selected: seq<Module>, slugs: seq<string>) returns (error: Option<ModuleError>)
    ensures error.Some? ==> Fault(selected, slugs, error.value)
    ensures error.None? ==> forall e: ModuleError :: e.MissingCategory? ==> !Fault(selected, slugs, e)
  {
    var categories := set m | m in selected :: m.category;
    for i := 0 to |selected|
      invariant forall m, c :: m in selected[..i] && c in Needs(m.category) ==> c in categories
    {
      var m := selected[i];
      var needed := Needs(m.category);
      for k := 0 to |needed|
        invariant forall c :: c in needed[..k] ==> c in categories
      {
        if needed[k] !in categories {
          assert forall o :: o in selected ==> o.category in categories;
          return Some(MissingCategory(m.slug, needed[k]));
        }
        assert needed[..k + 1] == needed[..k] + [needed[k]];
      }
      assert needed[..|needed|] == needed && selected[..i + 1] == selected[..i] + [m];
    }
    assert selected[..|selected|] == selected;
    forall m, c | m in selected && c in Needs(m.category) ensures exists o :: o in selected && o.category == c {
      assert c in categories;
    }
    error := None;
  }

  method CheckDesktops(selected: seq<Module>, slugs: seq<string>) returns (error: Option<ModuleError>)
    ensures error.Some? <==> Fault(selected, slugs, SeveralDesktops)
    ensures error.Some? ==> error.value == SeveralDesktops
  {
    var first := -1;
    for i := 0 to |selected|
      invariant first == -1 ==> forall j :: 0 <= j < i ==> selected[j].category != Desktop
      invariant first != -1 ==> 0 <= first < i && selected[first].category == Desktop
      invariant forall j :: 0 <= j < i && j != first ==> selected[j].category != Desktop
    {
      if selected[i].category == Desktop {
        if first != -1 {
          assert selected[first].category == Desktop && selected[i].category == Desktop;
          return Some(SeveralDesktops);
        }
        first := i;
      }
    }
    error := None;
  }

  /** `resolve_modules`. */
  method ResolveModules(slugs: seq<string>, available: seq<Module>) returns (r: Result<seq<Module>, ModuleError>)
    ensures r.Ok? <==> Acceptable(slugs, available)
    ensures r.Ok? ==> r.value == Sort(Selected(slugs, BySlug(available)), ModuleLe)
    ensures r.Err? ==>
              || (r.error.Unknown? && r.error.slug in slugs && r.error.slug !in BySlug(available))
              || (Known(slugs, BySlug(available)) && Fault(Selected(slugs, BySlug(available)), slugs, r.error))
  {
    var catalog := BySlug(available);
    var chosen := SelectModules(slugs, catalog);
    if chosen.Err? { return Err(chosen.error); }
    var selected := chosen.value;
    var error := CheckNeeds(selected, slugs);
    if error.Some? { return Err(error.value); }
    error := CheckConflicts(selected, slugs);
    if error.Some? { return Err(error.value); }
    error := CheckCategories(selected, slugs);
    if error.Some? { return Err(error.value); }
    error := CheckDesktops(selected, slugs);
    if error.Some? { return Err(error.value); }
    r := Ok(Sort(selected, ModuleLe));
  }

  /** The accepted order, if the selection is accepted. */
  ghost function Resolved(slugs: seq<string>, available: seq<Module>): Option<seq<Module>> {
    if Acceptable(slugs, available) then Some(Sort(Selected(slugs, BySlug(available)), ModuleLe)) else None
  }

  // ---- The selection order does not matter ----

  lemma ModuleLeIsTotalPreorder()
    ensures TotalPreorder(ModuleLe)
  {
    StrLeIsTotalOrder();
  }

  lemma SelectedIsMap(slugs: seq<string>, catalog: map<string, Module>, lookup: string -> Module)
    requires Known(slugs, catalog) && forall s :: s in catalog ==> lookup(s) == catalog[s]
    ensures Selected(slugs, catalog) == Map(lookup, slugs)
  {
  }

  lemma SelectedPermutes(a: seq<string>, b: seq<string>, catalog: map<string, Module>, default: Module)
    requires multiset(a) == multiset(b) && Known(a, catalog)
    ensures Known(b, catalog) && multiset(Selected(a, catalog)) == multiset(Selected(b, catalog))
  {
    SameElements(a, b);
    assert Known(b, catalog) by {
      forall i | 0 <= i < |b| ensures b[i] in catalog { assert b[i] in a; }
    }
    var lookup := (s: string) => if s in catalog then catalog[s] else default;
    SelectedIsMap(a, catalog, lookup);
    SelectedIsMap(b, catalog, lookup);
    MapPermutation(lookup, a, b);
  }

  /** Modules chosen from a catalog are told apart by the order. */
  lemma SlugsSeparate(slugs: seq<string>, available: seq<Module>)
    requires Known(slugs, BySlug(available))
    ensures Antisymmetric(ModuleLe, Selected(slugs, BySlug(available)))
  {
    StrLeSeparates();
    var selected := Selected(slugs, BySlug(available));
    forall x, y | x in selected && y in selected && ModuleLe(x, y) && ModuleLe(y, x) ensures x == y {
      assert x.slug == y.slug;
    }
  }

  lemma AnotherDesktop(b: seq<Module>, k: nat, m: Module)
    requires k < |b| && b[k].category == Desktop && m.category == Desktop && m in b[..k] + b[k + 1..]
    ensures exists i, j :: 0 <= i < j < |b| && b[i].category == Desktop && b[j].category == Desktop
  {
    if m in b[..k] {
      var i :| 0 <= i < k && b[..k][i] == m;
      assert b[i].category == Desktop && b[k].category == Desktop;
    } else {
      var i :| 0 <= i < |b[k + 1..]| && b[k + 1..][i] == m;
      assert b[k].category == Desktop && b[k + 1 + i].category == Desktop;
    }
  }

  lemma OtherDesktops(b: seq<Module>, k: nat)
    requires k < |b|
    requires var rest := b[..k] + b[k + 1..];
             exists i, j :: 0 <= i < j < |rest| && rest[i].category == Desktop && rest[j].category == Desktop
    ensures exists i, j :: 0 <= i < j < |b| && b[i].category == Desktop && b[j].category == Desktop
  {
    var rest := b[..k] + b[k + 1..];
    var m, n :| 0 <= m < n < |rest| && rest[m].category == Desktop && rest[n].category == Desktop;
    var m', n' := if m < k then m else m + 1, if n < k then n else n + 1;
    assert b[m'] == rest[m] && b[n'] == rest[n];
  }

  lemma {:induction false} DesktopsPermute(a: seq<Module>, b: seq<Module>)
    requires multiset(a) == multiset(b)
    requires exists i, j :: 0 <= i < j < |a| && a[i].category == Desktop && a[j].category == Desktop
    ensures exists i, j :: 0 <= i < j < |b| && b[i].category == Desktop && b[j].category == Desktop
    decreases |a|
  {
    SameElements(a, b);
    var k := FindHead(a, b);
    var rest := b[..k] + b[k + 1..];
    if a[0].category == Desktop {
      var j :| 0 < j < |a| && a[j].category == Desktop;
      assert a[1..][j - 1] == a[j];
      SameElements(a[1..], rest);
      assert a[j] in rest;
      AnotherDesktop(b, k, a[j]);
    } else {
      var i, j :| 0 <= i < j < |a| && a[i].category == Desktop && a[j].category == Desktop;
      assert a[1..][i - 1] == a[i] && a[1..][j - 1] == a[j];
      DesktopsPermute(a[1..], rest);
      OtherDesktops(b, k);
    }
  }

  lemma FaultPermutes(p: seq<Module>, q: seq<Module>, a: seq<string>, b: seq<string>, e: ModuleError)
    requires multiset(p) == multiset(q) && multiset(a) == multiset(b) && Fault(p, a, e)
    ensures Fault(q, b, e)
  {
    SameElements(p, q);
    SameElements(a, b);
    if e.SeveralDesktops? { DesktopsPermute(p, q); }
  }

  lemma AcceptablePermutes(a: seq<string>, b: seq<string>, available: seq<Module>)
    requires multiset(a) == multiset(b) && Acceptable(a, available)
    ensures Acceptable(b, available)
  {
    if a == [] {
      SameElements(a, b);
    } else {
      var catalog := BySlug(available);
      SelectedPermutes(a, b, catalog, catalog[a[0]]);
      forall e ensures !Fault(Selected(b, catalog), b, e) {
        if Fault(Selected(b, catalog), b, e) { FaultPermutes(Selected(b, catalog), Selected(a, catalog), b, a, e); }
      }
    }
  }

  /** Selections that differ only in order are both rejected, or accepted in one and the same order. */
  lemma SelectionOrderIsIrrelevant(a: seq<string>, b: seq<string>, available: seq<Module>)
    requires multiset(a) == multiset(b)
    ensures Resolved(a, available) == Resolved(b, available)
  {
    if Acceptable(a, available) {
      AcceptablePermutes(a, b, available);
      if a == [] {
        SameElements(a, b);
      } else {
        var catalog := BySlug(available);
        SelectedPermutes(a, b, catalog, catalog[a[0]]);
        SlugsSeparate(a, available);
        ModuleLeIsTotalPreorder();
        SortPermutation(Selected(a, catalog), Selected(b, catalog), ModuleLe);
      }
    } else if Acceptable(b, available) {
      AcceptablePermutes(b, a, available);
    }
  }

  // ---- What an accepted selection satisfies ----

  lemma ResolvedMembers(slugs: seq<string>, available: seq<Module>)
    requires Acceptable(slugs, available)
    ensures var mods := Resolved(slugs, available).value;
            && |mods| == |slugs| && SortedBy(mods, ModuleLe)
            && (forall m :: m in mods <==> m in Selected(slugs, BySlug(available)))
            && multiset(mods) == multiset(Selected(slugs, BySlug(available)))
  {
    var selected := Selected(slugs, BySlug(available));
    ModuleLeIsTotalPreorder();
    SortSorted(selected, ModuleLe);
    SameElements(Sort(selected, ModuleLe), selected);
  }

  lemma SlugSelected(slugs: seq<string>, available: seq<Module>, s: string)
    requires Acceptable(slugs, available)
    ensures s in slugs <==> exists m :: m in Resolved(slugs, available).value && m.slug == s
  {
    ResolvedMembers(slugs, available);
    var selected := Selected(slugs, BySlug(available));
    if s in slugs {
      var i :| 0 <= i < |slugs| && slugs[i] == s;
      assert selected[i] in selected && selected[i].slug == s;
    }
    if m :| m in selected && m.slug == s {
      var i :| 0 <= i < |selected| && selected[i] == m;
      assert slugs[i] == s;
    }
  }

  /** The result is exactly the selection, and what one of its modules requires is in it. */
  lemma AcceptedIsClosed(slugs: seq<string>, available: seq<Module>)
    requires Acceptable(slugs, available)
    ensures var mods := Resolved(slugs, available).value;
            && (forall s :: s in slugs <==> exists m :: m in mods && m.slug == s)
            && (forall m, n :: m in mods && n in m.needs ==> exists o :: o in mods && o.slug == n)
  {
    hide Sort;
    var mods := Resolved(slugs, available).value;
    ResolvedMembers(slugs, available);
    forall s ensures s in slugs <==> exists m :: m in mods && m.slug == s { SlugSelected(slugs, available, s); }
    forall m, n | m in mods && n in m.needs ensures exists o :: o in mods && o.slug == n {
      SlugSelected(slugs, available, n);
      assert !Fault(Selected(slugs, BySlug(available)), slugs, MissingModule(m.slug, n));
    }
  }

  /** No module of the result conflicts with another, or with itself; and at most one is a desktop. */
  lemma AcceptedIsConflictFree(slugs: seq<string>, available: seq<Module>)
    requires Acceptable(slugs, available)
    ensures var mods := Resolved(slugs, available).value;
            && (forall m, o :: m in mods && o in mods ==> o.slug !in m.conflicts)
            && (forall i, j :: 0 <= i < j < |mods| ==> !(mods[i].category == Desktop && mods[j].category == Desktop))
  {
    hide Sort;
    var mods := Resolved(slugs, available).value;
    var selected := Selected(slugs, BySlug(available));
    ResolvedMembers(slugs, available);
    forall m, o | m in mods && o in mods ensures o.slug !in m.conflicts {
      SlugSelected(slugs, available, o.slug);
      assert !Fault(selected, slugs, Conflict(m.slug, o.slug));
    }
    assert !Fault(selected, slugs, SeveralDesktops);
    forall i, j | 0 <= i < j < |mods| ensures !(mods[i].category == Desktop && mods[j].category == Desktop) {
      if mods[i].category == Desktop && mods[j].category == Desktop { DesktopsPermute(mods, selected); }
    }
  }

  /** `c` needs `d`, directly or through other categories. */
  ghost predicate Reaches(c: Category, d: Category)
    decreases Rank(c)
  {
    d in Needs(c) || exists e :: e in Needs(c) && Reaches(e, d)
  }

  /** Every category but the base one goes back to it. */
  lemma EverythingReachesBase(c: Category)
    ensures c != Base <==> Reaches(c, Base)
  {
    assert Base in Needs(Networking) && Networking in Needs(Desktop) && Desktop in Needs(Topic);
    assert Reaches(Networking, Base);
    assert Reaches(Desktop, Base);
    assert Reaches(Topic, Base);
  }

  lemma {:induction false} ReachesIsLower(c: Category, d: Category)
    requires Reaches(c, d)
    ensures Rank(d) < Rank(c)
    decreases Rank(c)
  {
    if d !in Needs(c) {
      var e :| e in Needs(c) && Reaches(e, d);
      ReachesIsLower(e, d);
    }
  }

  lemma LowerIsBefore(mods: seq<Module>, i: nat, j: nat)
    requires SortedBy(mods, ModuleLe) && i < |mods| && j < |mods| && Rank(mods[j].category) < Rank(mods[i].category)
    ensures j < i
  {
  }

  lemma {:induction false} SomeOfNeededCategory(slugs: seq<string>, available: seq<Module>, m: Module, d: Category)
    requires Acceptable(slugs, available) && m in Selected(slugs, BySlug(available)) && Reaches(m.category, d)
    ensures exists o :: o in Selected(slugs, BySlug(available)) && o.category == d
    decreases Rank(m.category)
  {
    var selected := Selected(slugs, BySlug(available));
    var e := d;
    if d !in Needs(m.category) { e :| e in Needs(m.category) && Reaches(e, d); }
    assert !Fault(selected, slugs, MissingCategory(m.slug, e));
    var o :| o in selected && o.category == e;
    if e != d { SomeOfNeededCategory(slugs, available, o, d); }
  }

  /** Before a module stands one of every category it needs, down to the base; and none of those stands after it. */
  lemma NeededCategoriesComeFirst(slugs: seq<string>, available: seq<Module>, i: nat, d: Category)
    requires Acceptable(slugs, available) && i < |Resolved(slugs, available).value|
    requires Reaches(Resolved(slugs, available).value[i].category, d)
    ensures var mods := Resolved(slugs, available).value;
            && (exists j :: 0 <= j < i && mods[j].category == d)
            && (forall j :: 0 <= j < |mods| && mods[j].category == d ==> j < i)
  {
    var mods := Resolved(slugs, available).value;
    ResolvedMembers(slugs, available);
    ReachesIsLower(mods[i].category, d);
    assert mods[i] in mods;
    SomeOfNeededCategory(slugs, available, mods[i], d);
    var o :| o in Selected(slugs, BySlug(available)) && o.category == d;
    assert o in mods;
    var k :| 0 <= k < |mods| && mods[k] == o;
    LowerIsBefore(mods, i, k);
    forall j | 0 <= j < |mods| && mods[j].category == d ensures j < i { LowerIsBefore(mods, i, j); }
  }

  // ---- Merging ----

  function AllPacstrap(mods: seq<Module>): seq<string> {
    if mods == [] then [] else AllPacstrap(mods[..|mods| - 1]) + mods[|mods| - 1].install.pacstrap
  }

  function AllOverrides(mods: seq<Module>): seq<string> {
    if mods == [] then [] else AllOverrides(mods[..|mods| - 1]) + mods[|mods| - 1].install.overrides
  }

  function AllFirstboot(mods: seq<Module>): seq<string> {
    if mods == [] then [] else AllFirstboot(mods[..|mods| - 1]) + mods[|mods| - 1].install.firstboot
  }

  function AllServices(mods: seq<Module>): seq<string> {
    if mods == [] then [] else AllServices(mods[..|mods| - 1]) + mods[|mods| - 1].services
  }

  /** `merged_install`. */
  method MergedInstall(mods: seq<Module>) returns (r: Phases)
    ensures r == Phases(Dedup(AllPacstrap(mods)), Dedup(AllOverrides(mods)), Dedup(AllFirstboot(mods)))
  {
    var pacstrap, overrides, firstboot := [], [], [];
    for i := 0 to |mods|
      invariant pacstrap == AllPacstrap(mods[..i]) && overrides == AllOverrides(mods[..i])
      invariant firstboot == AllFirstboot(mods[..i])
    {
      assert mods[..i + 1][..i] == mods[..i];
      pacstrap := pacstrap + mods[i].install.pacstrap;
      overrides := overrides + mods[i].install.overrides;
      firstboot := firstboot + mods[i].install.firstboot;
    }
    assert mods[..|mods|] == mods;
    var p := Deduplicate(pacstrap);
    var o := Deduplicate(overrides);
    var f := Deduplicate(firstboot);
    r := Phases(p, o, f);
  }

  /** `merged_services`. */
  method MergedServices(mods: seq<Module>) returns (r: seq<string>)
    ensures r == Dedup(AllServices(mods))
  {
    var services := [];
    for i := 0 to |mods|
      invariant services == AllServices(mods[..i])
    {
      assert mods[..i + 1][..i] == mods[..i];
      services := services + mods[i].services;
    }
    assert mods[..|mods|] == mods;
    r := Deduplicate(services);
  }

  /** `ansible_roles`. */
  function AnsibleRoles(mods: seq<Module>): seq<string> {
    Map((m: Module) => m.slug, Filter(mods, (m: Module) => m.hasRole))
  }

  /** So merged packages, services and roles do not depend on the order in which modules were selected. */
  lemma MergeIgnoresSelectionOrder(a: seq<string>, b: seq<string>, available: seq<Module>)
    requires multiset(a) == multiset(b) && Acceptable(a, available)
    ensures Acceptable(b, available)
    ensures var m, n := Resolved(a, available).value, Resolved(b, available).value;
            && Dedup(AllPacstrap(m)) == Dedup(AllPacstrap(n)) && Dedup(AllOverrides(m)) == Dedup(AllOverrides(n))
            && Dedup(AllFirstboot(m)) == Dedup(AllFirstboot(n)) && Dedup(AllServices(m)) == Dedup(AllServices(n))
            && AnsibleRoles(m) == AnsibleRoles(n)
  {
    hide AllPacstrap, AllOverrides, AllFirstboot, AllServices, AnsibleRoles, Dedup;
    AcceptablePermutes(a, b, available);
    SelectionOrderIsIrrelevant(a, b, available);
  }

  lemma {:induction false} AllPhasesExact(mods: seq<Module>, p: string)
    ensures p in AllPacstrap(mods) <==> exists m :: m in mods && p in m.install.pacstrap
    ensures p in AllOverrides(mods) <==> exists m :: m in mods && p in m.install.overrides
    ensures p in AllFirstboot(mods) <==> exists m :: m in mods && p in m.install.firstboot
    ensures p in AllServices(mods) <==> exists m :: m in mods && p in m.services
  {
    if mods != [] {
      var n := |mods| - 1;
      AllPhasesExact(mods[..n], p);
      assert mods == mods[..n] + [mods[n]];
    }
  }

  /** The merged packages of each phase, and the merged services, are those of the selected modules, once each. */
  lemma MergedExact(mods: seq<Module>, p: string)
    ensures p in Dedup(AllPacstrap(mods)) <==> exists m :: m in mods && p in m.install.pacstrap
    ensures p in Dedup(AllOverrides(mods)) <==> exists m :: m in mods && p in m.install.overrides
    ensures p in Dedup(AllFirstboot(mods)) <==> exists m :: m in mods && p in m.install.firstboot
    ensures p in Dedup(AllServices(mods)) <==> exists m :: m in mods && p in m.services
    ensures Distinct(Dedup(AllPacstrap(mods))) && Distinct(Dedup(AllOverrides(mods)))
    ensures Distinct(Dedup(AllFirstboot(mods))) && Distinct(Dedup(AllServices(mods)))
  {
    hide AllPacstrap, AllOverrides, AllFirstboot, AllServices, Dedup;
    AllPhasesExact(mods, p);
    DedupExact(AllPacstrap(mods));
    DedupExact(AllOverrides(mods));
    DedupExact(AllFirstboot(mods));
    DedupExact(AllServices(mods));
  }
}
