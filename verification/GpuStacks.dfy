/** The installer's resolution of GPU stacks, and the module list of a template. */
module GpuStacks {
  import opened Text
  import opened Sorting
  import opened Wrappers
  import opened Dicts
  import opened Deduplication

  datatype GpuStack = GpuStack(name: string, modules: seq<string>, packages: seq<string>, variant: string)

  type StackDefs = map<string, GpuStack>

  datatype GpuResolution = GpuResolution(
    stacks: seq<GpuStack>,
    extraModules: seq<string>,
    extraPackages: seq<string>,
    excluded: seq<string>)

  // ---- The environment override ----

  function CommasToSpaces(s: string): string {
    seq(|s|, i requires 0 <= i < |s| => if s[i] == ',' then ' ' else s[i])
  }

  /** The stacks in force: those of `ARCHES_GPU` if it is set, else the template's. */
  function EffectiveStacks(env: string, default: seq<string>): seq<string> {
    if Strip(env) == "" then default else Dedup(Split(CommasToSpaces(Strip(env))))
  }

  /** `_env_override`. */
  method EnvOverride(env: string, default: seq<string>) returns (parts: seq<string>)
    ensures parts == EffectiveStacks(env, default)
  {
    var raw := Strip(env);
    if raw == "" { return default; }
    var chunks := Split(CommasToSpaces(raw));
    parts := [];
    assert chunks[..0] == [];
    for i := 0 to |chunks|
      invariant parts == Dedup(chunks[..i])
    {
      AddNewSnoc([], chunks[..i], chunks[i]);
      assert chunks[..i + 1] == chunks[..i] + [chunks[i]];
      SplitChunk(CommasToSpaces(raw), i);
      if chunks[i] != "" && chunks[i] !in parts {
        parts := parts + [chunks[i]];
      }
    }
    assert chunks[..|chunks|] == chunks;
  }

  lemma SplitStep(s: string, r: string, n: nat)
    requires r == LStrip(s, IsSpace) && r != "" && n == Until(r, IsSpace)
    ensures n > 0 && |r[n..]| < |s| && Split(s) == [r[..n]] + Split(r[n..])
  {
    hide IsSpace;
    assert !IsSpace(r[0]);
  }

  lemma SplitBlank(s: string)
    ensures LStrip(s, IsSpace) == "" ==> Split(s) == []
  {
    hide IsSpace;
  }

  /** No chunk of a split is empty. */
  lemma {:induction false} SplitChunk(s: string, i: nat)
    requires i < |Split(s)|
    ensures Split(s)[i] != ""
    decreases |s|
  {
    hide Split, IsSpace;
    var r := LStrip(s, IsSpace);
    SplitBlank(s);
    if r != "" {
      var n := Until(r, IsSpace);
      SplitStep(s, r, n);
      if i > 0 {
        assert Split(s)[i] == Split(r[n..])[i - 1];
        SplitChunk(r[n..], i - 1);
      }
    }
  }

  // ---- Arbitration ----

  /** The module that provides a llama.cpp variant; unknown variants have none. */
  function VariantModule(variant: string): string {
    if variant == "vulkan" then "llama-cpp"
    else if variant == "hip" then "llama-cpp-hip"
    else if variant == "cuda" then "llama-cpp-cuda"
    else ""
  }

  function Variants(stacks: seq<GpuStack>): seq<string> {
    if stacks == [] then []
    else
      var n := |stacks| - 1;
      Variants(stacks[..n]) + if stacks[n].variant != "" then [stacks[n].variant] else []
  }

  /** Vulkan wins; otherwise the variant declared first. */
  function Winner(variants: seq<string>): string
    requires variants != []
  {
    if "vulkan" in variants then "vulkan" else variants[0]
  }

  function Losers(variants: seq<string>, winner: string): seq<string> {
    if variants == [] then []
    else
      var n := |variants| - 1;
      Losers(variants[..n], winner)
      + if variants[n] != winner && VariantModule(variants[n]) != "" then [VariantModule(variants[n])] else []
  }

  /** The modules that arbitration excludes. */
  function Excluded(stacks: seq<GpuStack>): seq<string> {
    var variants := Variants(stacks);
    if variants == [] then [] else Dedup(Losers(variants, Winner(variants)))
  }

  method CollectVariants(stacks: seq<GpuStack>) returns (variants: seq<string>)
    ensures variants == Variants(stacks)
  {
    variants := [];
    for i := 0 to |stacks|
      invariant variants == Variants(stacks[..i])
    {
      assert stacks[..i + 1][..i] == stacks[..i];
      if stacks[i].variant != "" { variants := variants + [stacks[i].variant]; }
    }
    assert stacks[..|stacks|] == stacks;
  }

  lemma LosersSnoc(variants: seq<string>, v: string, winner: string)
    ensures Losers(variants + [v], winner) ==
            Losers(variants, winner) + if v != winner && VariantModule(v) != "" then [VariantModule(v)] else []
  {
    assert (variants + [v])[..|variants|] == variants;
  }

  /** The exclusion loop over the stacks, when some stack has a variant. */
  method ExcludeLosers(stacks: seq<GpuStack>, winner: string) returns (exclude: seq<string>)
    requires winner != ""
    ensures exclude == Dedup(Losers(Variants(stacks), winner))
  {
    exclude := [];
    for i := 0 to |stacks|
      invariant exclude == Dedup(Losers(Variants(stacks[..i]), winner))
    {
      assert stacks[..i + 1][..i] == stacks[..i];
      var s := stacks[i];
      assert Variants(stacks[..i]) + [] == Variants(stacks[..i]);
      if s.variant == "" { continue; }
      ghost var before := Losers(Variants(stacks[..i]), winner);
      LosersSnoc(Variants(stacks[..i]), s.variant, winner);
      assert before + [] == before;
      if s.variant == winner { continue; }
      var losing := VariantModule(s.variant);
      AddNewSnoc([], before, losing);
      if losing != "" && losing !in exclude { exclude := exclude + [losing]; }
    }
    assert stacks[..|stacks|] == stacks;
  }

  lemma {:induction false} VariantsAreNamed(stacks: seq<GpuStack>)
    ensures "" !in Variants(stacks)
    ensures forall v :: v in Variants(stacks) <==> v != "" && exists s :: s in stacks && s.variant == v
  {
    if stacks != [] {
      var n := |stacks| - 1;
      VariantsAreNamed(stacks[..n]);
      assert stacks == stacks[..n] + [stacks[n]];
    }
  }

  /** `_arbitrate_llama_cpp`: the winning module and the excluded ones. */
  method ArbitrateLlamaCpp(stacks: seq<GpuStack>) returns (winning: string, exclude: seq<string>)
    ensures exclude == Excluded(stacks)
    ensures winning == if Variants(stacks) == [] then "" else VariantModule(Winner(Variants(stacks)))
  {
    var variants := CollectVariants(stacks);
    if variants == [] { return "", []; }
    var winner := if "vulkan" in variants then "vulkan" else variants[0];
    VariantsAreNamed(stacks);
    assert winner in variants;
    exclude := ExcludeLosers(stacks, winner);
    winning := VariantModule(winner);
  }

  lemma {:induction false} LosersExact(variants: seq<string>, winner: string, m: string)
    ensures m in Losers(variants, winner) <==>
            m != "" && exists v :: v in variants && v != winner && VariantModule(v) == m
  {
    if variants != [] {
      var n := |variants| - 1;
      LosersExact(variants[..n], winner, m);
      assert variants == variants[..n] + [variants[n]];
    }
  }

  /** Exactly the modules of the losing variants are excluded, and so never the winner's. */
  lemma ExcludedExact(stacks: seq<GpuStack>, m: string)
    ensures Variants(stacks) != [] ==>
              (m in Excluded(stacks) <==>
               && m != ""
               && exists s :: s in stacks && s.variant !in ["", Winner(Variants(stacks))] &&
                              VariantModule(s.variant) == m)
    ensures Variants(stacks) == [] ==> Excluded(stacks) == []
    ensures Variants(stacks) != [] ==> VariantModule(Winner(Variants(stacks))) !in Excluded(stacks)
  {
    hide VariantModule;
    var variants := Variants(stacks);
    if variants != [] {
      VariantsAreNamed(stacks);
      var winner := Winner(variants);
      LosersExact(variants, winner, m);
      LosersExact(variants, winner, VariantModule(winner));
      DedupExact(Losers(variants, winner));
      forall v | v != winner && VariantModule(v) == VariantModule(winner)
        ensures VariantModule(v) == ""
      {
        SameVariantModule(v, winner);
      }
    }
  }

  lemma SameVariantModule(v: string, w: string)
    requires v != w && VariantModule(v) == VariantModule(w)
    ensures VariantModule(v) == ""
  {
  }

  // ---- Resolving the stacks ----

  predicate AllKnown(names: seq<string>, defs: StackDefs) {
    forall i :: 0 <= i < |names| ==> names[i] in defs
  }

  function Chosen(names: seq<string>, defs: StackDefs): (r: seq<GpuStack>)
    requires AllKnown(names, defs)
    ensures |r| == |names| && forall i :: 0 <= i < |names| ==> r[i] == defs[names[i]]
  {
    seq(|names|, i requires 0 <= i < |names| => defs[names[i]])
  }

  function StackModules(stacks: seq<GpuStack>): seq<string> {
    if stacks == [] then [] else StackModules(stacks[..|stacks| - 1]) + stacks[|stacks| - 1].modules
  }

  function StackPackages(stacks: seq<GpuStack>): seq<string> {
    if stacks == [] then [] else StackPackages(stacks[..|stacks| - 1]) + stacks[|stacks| - 1].packages
  }

  function Without(s: seq<string>, drop: seq<string>): seq<string> {
    Filter(s, x => x !in drop)
  }

  /** The resolution of these stacks; `None` when one of them is unknown. */
  function Resolution(names: seq<string>, defs: StackDefs): Option<GpuResolution> {
    if !AllKnown(names, defs) then None
    else
      var stacks := Chosen(names, defs);
      Some(GpuResolution(
        stacks, Without(Dedup(StackModules(stacks)), Excluded(stacks)), Dedup(StackPackages(stacks)), Excluded(stacks)))
  }

  method LookUpStacks(names: seq<string>, defs: StackDefs) returns (r: Result<seq<GpuStack>, string>)
    ensures r.Ok? <==> AllKnown(names, defs)
    ensures r.Ok? ==> r.value == Chosen(names, defs)
    ensures r.Err? ==> r.error in names && r.error !in defs
  {
    var chosen := [];
    for i := 0 to |names|
      invariant |chosen| == i && forall j :: 0 <= j < i ==> names[j] in defs && chosen[j] == defs[names[j]]
    {
      if names[i] !in defs { return Err(names[i]); }
      chosen := chosen + [defs[names[i]]];
    }
    r := Ok(chosen);
    assert chosen == Chosen(names, defs);
  }

  /** The elements of `more` appended to `items` one by one unless already there. */
  method AppendNew(items: seq<string>, more: seq<string>) returns (r: seq<string>)
    ensures r == AddNew(items, more)
  {
    r := items;
    assert more[..0] == [];
    for i := 0 to |more|
      invariant r == AddNew(items, more[..i])
    {
      AddNewSnoc(items, more[..i], more[i]);
      assert more[..i + 1] == more[..i] + [more[i]];
      if more[i] !in r { r := r + [more[i]]; }
    }
    assert more[..|more|] == more;
  }

  lemma {:induction false} AddNewConcat(items: seq<string>, p: seq<string>, q: seq<string>)
    ensures AddNew(items, p + q) == AddNew(AddNew(items, p), q)
    decreases |p|
  {
    if p == [] {
      assert p + q == q;
    } else {
      assert (p + q)[0] == p[0] && (p + q)[1..] == p[1..] + q;
      AddNewConcat(if p[0] in items then items else items + [p[0]], p[1..], q);
    }
  }

  method MergeStacks(stacks: seq<GpuStack>) returns (modules: seq<string>, packages: seq<string>)
    ensures modules == Dedup(StackModules(stacks)) && packages == Dedup(StackPackages(stacks))
  {
    modules, packages := [], [];
    for i := 0 to |stacks|
      invariant modules == Dedup(StackModules(stacks[..i])) && packages == Dedup(StackPackages(stacks[..i]))
    {
      assert stacks[..i + 1][..i] == stacks[..i];
      AddNewConcat([], StackModules(stacks[..i]), stacks[i].modules);
      AddNewConcat([], StackPackages(stacks[..i]), stacks[i].packages);
      modules := AppendNew(modules, stacks[i].modules);
      packages := AppendNew(packages, stacks[i].packages);
    }
    assert stacks[..|stacks|] == stacks;
  }

  /** `resolve_gpu_stacks`. */
  method ResolveGpuStacks(env: string, templateStacks: seq<string>, defs: StackDefs)
    returns (r: Result<GpuResolution, string>)
    ensures r.Ok? <==> Resolution(EffectiveStacks(env, templateStacks), defs).Some?
    ensures r.Ok? ==> r.value == Resolution(EffectiveStacks(env, templateStacks), defs).value
    ensures r.Err? ==> r.error in EffectiveStacks(env, templateStacks) && r.error !in defs
  {
    var requested := EnvOverride(env, templateStacks);
    if requested == [] {
      assert Chosen(requested, defs) == [];
      return Ok(GpuResolution([], [], [], []));
    }
    var chosen := LookUpStacks(requested, defs);
    if chosen.Err? { return Err(chosen.error); }
    var modules, packages := MergeStacks(chosen.value);
    var _, excluded := ArbitrateLlamaCpp(chosen.value);
    r := Ok(GpuResolution(chosen.value, Without(modules, excluded), packages, excluded));
  }

  // ---- The template's modules ----

  datatype Template = Template(includes: seq<string>, stacks: seq<string>)

  /** The template's own modules that survive arbitration, then the stacks' modules. */
  function EffectiveSlugs(t: Template, gpu: GpuResolution): seq<string> {
    AddNew(Dedup(Without(t.includes, gpu.excluded)), gpu.extraModules)
  }

  lemma WithoutSnoc(s: seq<string>, x: string, drop: seq<string>)
    ensures Without(s + [x], drop) == Without(s, drop) + if x in drop then [] else [x]
  {
    FilterConcat(s, [x], y => y !in drop);
    assert [x][1..] == [];
  }

  lemma KeepStep(s: seq<string>, i: nat, drop: seq<string>)
    requires i < |s|
    ensures Dedup(Without(s[..i + 1], drop)) ==
            var before := Dedup(Without(s[..i], drop));
            if s[i] in drop || s[i] in before then before else before + [s[i]]
  {
    var kept := Without(s[..i], drop);
    assert s[..i + 1] == s[..i] + [s[i]];
    WithoutSnoc(s[..i], s[i], drop);
    AddNewSnoc([], kept, s[i]);
    hide Without, Dedup;
    assert kept + [] == kept;
  }

  method KeepModules(s: seq<string>, drop: seq<string>) returns (kept: seq<string>)
    ensures kept == Dedup(Without(s, drop))
  {
    kept := [];
    assert s[..0] == [];
    for i := 0 to |s|
      invariant kept == Dedup(Without(s[..i], drop))
    {
      KeepStep(s, i, drop);
      if s[i] in drop { continue; }
      if s[i] !in kept { kept := kept + [s[i]]; }
    }
    assert s[..|s|] == s;
  }

  /** Step 2 of `resolve_and_merge_modules`. */
  method MergeSlugs(t: Template, gpu: GpuResolution) returns (slugs: seq<string>)
    ensures slugs == EffectiveSlugs(t, gpu)
  {
    slugs := KeepModules(t.includes, gpu.excluded);
    slugs := AppendNew(slugs, gpu.extraModules);
  }

  lemma WithoutExact(s: seq<string>, drop: seq<string>)
    ensures forall x :: x in Without(s, drop) <==> x in s && x !in drop
  {
    FilterExact(s, x => x !in drop);
  }

  /** The effective modules: those the template or a stack names, less the losing variants; each once. */
  lemma EffectiveSlugsExact(t: Template, names: seq<string>, defs: StackDefs)
    requires AllKnown(names, defs)
    ensures var gpu := Resolution(names, defs).value;
            && (forall m :: m in EffectiveSlugs(t, gpu) <==>
                  (m in t.includes || m in StackModules(Chosen(names, defs))) && m !in Excluded(Chosen(names, defs)))
            && Distinct(EffectiveSlugs(t, gpu))
  {
    hide Without, Excluded, StackModules;
    var gpu := Resolution(names, defs).value;
    var stacks := Chosen(names, defs);
    WithoutExact(t.includes, gpu.excluded);
    WithoutExact(Dedup(StackModules(stacks)), gpu.excluded);
    DedupExact(Without(t.includes, gpu.excluded));
    DedupExact(StackModules(stacks));
    AddNewFacts(Dedup(Without(t.includes, gpu.excluded)), gpu.extraModules);
  }
}
