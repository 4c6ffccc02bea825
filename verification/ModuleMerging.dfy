/** The order in which the merged packages, services and roles of the modules stand. */
module ModuleMerging {
  import opened Sorting
  import opened Wrappers
  import opened Dicts
  import opened Deduplication
  import opened ModuleResolution

  // ---- Merged lists ----

  /** The lists that the modules bring, one after the other. */
  function Gather(mods: seq<Module>, of: Module -> seq<string>): seq<string> {
    if mods == [] then [] else Gather(mods[..|mods| - 1], of) + of(mods[|mods| - 1])
  }

  lemma {:induction false} AllAreGathered(mods: seq<Module>)
    ensures AllPacstrap(mods) == Gather(mods, (m: Module) => m.install.pacstrap)
    ensures AllOverrides(mods) == Gather(mods, (m: Module) => m.install.overrides)
    ensures AllFirstboot(mods) == Gather(mods, (m: Module) => m.install.firstboot)
    ensures AllServices(mods) == Gather(mods, (m: Module) => m.services)
  {
    if mods != [] { AllAreGathered(mods[..|mods| - 1]); }
  }

  /** The module at `i` is the first that brings `p`. */
  ghost predicate FirstBringer(mods: seq<Module>, of: Module -> seq<string>, p: string, i: nat) {
    i < |mods| && p in of(mods[i]) && forall j :: 0 <= j < i ==> p !in of(mods[j])
  }

  /** `p` comes from an earlier module than `q`, or stands before it in the list of the same one. */
  ghost predicate BroughtBefore(mods: seq<Module>, of: Module -> seq<string>, p: string, q: string) {
    exists i: nat, j: nat :: FirstBringer(mods, of, p, i) && FirstBringer(mods, of, q, j) &&
                             (i < j || (i == j && FirstIndex(of(mods[i]), p) < FirstIndex(of(mods[i]), q)))
  }

  lemma {:induction false} NotGathered(mods: seq<Module>, of: Module -> seq<string>, p: string)
    requires forall j :: 0 <= j < |mods| ==> p !in of(mods[j])
    ensures p !in Gather(mods, of)
  {
    if mods != [] { NotGathered(mods[..|mods| - 1], of, p); }
  }

  lemma IndexInConcat(s: seq<string>, t: seq<string>, p: string)
    requires p in s + t
    ensures FirstIndex(s + t, p) == if p in s then FirstIndex(s, p) else |s| + FirstIndex(t, p)
  {
    var u, i := s + t, FirstIndex(s + t, p);
    if p in s {
      assert u[FirstIndex(s, p)] == p;
    } else {
      var k := |s| + FirstIndex(t, p);
      assert u[k] == p;
      assert forall x :: 0 <= x < |t| ==> t[x] == u[|s| + x];
    }
  }

  lemma {:induction false} GatheredAt(mods: seq<Module>, of: Module -> seq<string>, p: string, i: nat)
    requires FirstBringer(mods, of, p, i)
    ensures p in Gather(mods, of)
    ensures FirstIndex(Gather(mods, of), p) == |Gather(mods[..i], of)| + FirstIndex(of(mods[i]), p)
    ensures FirstIndex(of(mods[i]), p) < |of(mods[i])|
  {
    var n := |mods| - 1;
    if i == n {
      NotGathered(mods[..n], of, p);
    } else {
      GatheredAt(mods[..n], of, p, i);
      assert mods[..n][..i] == mods[..i];
    }
    IndexInConcat(Gather(mods[..n], of), of(mods[n]), p);
  }

  lemma {:induction false} GatherGrows(mods: seq<Module>, of: Module -> seq<string>, i: nat, j: nat)
    requires i < j <= |mods|
    ensures |Gather(mods[..i], of)| + |of(mods[i])| <= |Gather(mods[..j], of)|
  {
    assert mods[..j][..j - 1] == mods[..j - 1];
    if i < j - 1 {
      GatherGrows(mods, of, i, j - 1);
    }
  }

  /** In the merged list, what the earlier modules bring comes first, and each module's own order is kept. */
  lemma MergedInModuleOrder(mods: seq<Module>, of: Module -> seq<string>, a: nat, b: nat)
    requires a < |Dedup(Gather(mods, of))| && b < |Dedup(Gather(mods, of))|
    requires BroughtBefore(mods, of, Dedup(Gather(mods, of))[a], Dedup(Gather(mods, of))[b])
    ensures a < b
  {
    hide Gather, Dedup;
    var all, merged := Gather(mods, of), Dedup(Gather(mods, of));
    var p, q := merged[a], merged[b];
    var i: nat, j: nat :| FirstBringer(mods, of, p, i) && FirstBringer(mods, of, q, j) &&
      (i < j || (i == j && FirstIndex(of(mods[i]), p) < FirstIndex(of(mods[i]), q)));
    GatheredAt(mods, of, p, i);
    GatheredAt(mods, of, q, j);
    if i < j { GatherGrows(mods, of, i, j); }
    DedupExact(all);
    assert FirstIndex(all, p) < FirstIndex(all, q);
  }

  // ---- Roles ----

  /** How many of the modules have a role. */
  function RolesIn(mods: seq<Module>): nat {
    if mods == [] then 0 else RolesIn(mods[..|mods| - 1]) + if mods[|mods| - 1].hasRole then 1 else 0
  }

  lemma RolesSnoc(mods: seq<Module>, m: Module)
    ensures AnsibleRoles(mods + [m]) == AnsibleRoles(mods) + if m.hasRole then [m.slug] else []
  {
    var p, slug := (m: Module) => m.hasRole, (m: Module) => m.slug;
    FilterConcat(mods, [m], p);
    assert [m][1..] == [];
    MapConcat(slug, Filter(mods, p), Filter([m], p));
  }

  /** The roles are the slugs of the modules that have one, in the order of the modules. */
  lemma {:induction false} RolesExact(mods: seq<Module>)
    ensures |AnsibleRoles(mods)| == RolesIn(mods)
    ensures forall i :: 0 <= i < |mods| && mods[i].hasRole ==>
              RolesIn(mods[..i]) < RolesIn(mods) && AnsibleRoles(mods)[RolesIn(mods[..i])] == mods[i].slug
  {
    hide AnsibleRoles;
    if mods == [] {
      NoRoles();
    } else {
      var n := |mods| - 1;
      assert mods == mods[..n] + [mods[n]];
      RolesExact(mods[..n]);
      RolesSnoc(mods[..n], mods[n]);
      assert forall i :: 0 <= i < n ==> mods[..n][..i] == mods[..i];
    }
  }

  lemma NoRoles()
    ensures AnsibleRoles([]) == []
  {
  }
}
