/** The build side of GPU-stack resolution, written a second time, and its agreement with the installer. */
module IsoConfig {
  import opened Text
  import opened Sorting
  import opened Wrappers
  import opened Deduplication
  import opened GpuStacks

  // ---- The script's own arbitration ----

  /** The variants that the named stacks declare; an unknown name counts as an empty table. */
  function NamedVariants(names: seq<string>, defs: StackDefs): seq<string> {
    if names == [] then []
    else
      var n := |names| - 1;
      var v := if names[n] in defs then defs[names[n]].variant else "";
      NamedVariants(names[..n], defs) + if v != "" then [v] else []
  }

  /** What `_arbitrate_llama_cpp_modules` returns. */
  function NamedExclusions(names: seq<string>, defs: StackDefs): seq<string> {
    var variants := NamedVariants(names, defs);
    if variants == [] then [] else Dedup(Losers(variants, Winner(variants)))
  }

  method CollectPairs(names: seq<string>, defs: StackDefs) returns (pairs: seq<(string, string)>)
    ensures Map((p: (string, string)) => p.1, pairs) == NamedVariants(names, defs)
  {
    pairs := [];
    for i := 0 to |names|
      invariant Map((p: (string, string)) => p.1, pairs) == NamedVariants(names[..i], defs)
    {
      assert names[..i + 1][..i] == names[..i];
      var v := if names[i] in defs then defs[names[i]].variant else "";
      if v != "" {
        MapConcat((p: (string, string)) => p.1, pairs, [(names[i], v)]);
        pairs := pairs + [(names[i], v)];
      }
    }
    assert names[..|names|] == names;
  }

  method ExcludeLosingPairs(pairs: seq<(string, string)>, winner: string) returns (exclude: seq<string>)
    ensures exclude == Dedup(Losers(Map((p: (string, string)) => p.1, pairs), winner))
  {
    exclude := [];
    ghost var variants := Map((p: (string, string)) => p.1, pairs);
    for i := 0 to |pairs|
      invariant exclude == Dedup(Losers(variants[..i], winner))
    {
      var v := pairs[i].1;
      ghost var before := Losers(variants[..i], winner);
      assert variants[..i + 1] == variants[..i] + [v];
      LosersSnoc(variants[..i], v, winner);
      assert before + [] == before;
      if v == winner { continue; }
      var m := VariantModule(v);
      AddNewSnoc([], before, m);
      if m != "" && m !in exclude { exclude := exclude + [m]; }
    }
    assert variants[..|pairs|] == variants;
  }

  /** `_arbitrate_llama_cpp_modules`. */
  method ArbitrateModules(names: seq<string>, defs: StackDefs) returns (exclude: seq<string>)
    ensures exclude == NamedExclusions(names, defs)
  {
    var pairs := CollectPairs(names, defs);
    if pairs == [] { return []; }
    var only := seq(|pairs|, i requires 0 <= i < |pairs| => pairs[i].1);
    assert only == NamedVariants(names, defs);
    var winner := if "vulkan" in only then "vulkan" else only[0];
    exclude := ExcludeLosingPairs(pairs, winner);
  }

  lemma {:induction false} VariantsAgree(names: seq<string>, defs: StackDefs)
    requires AllKnown(names, defs)
    ensures NamedVariants(names, defs) == Variants(Chosen(names, defs))
  {
    if names != [] {
      var n := |names| - 1;
      VariantsAgree(names[..n], defs);
      assert Chosen(names, defs)[..n] == Chosen(names[..n], defs);
    }
  }

  /** Both arbitrations exclude the same modules, in the same order. */
  lemma ArbitrationsAgree(names: seq<string>, defs: StackDefs)
    requires AllKnown(names, defs)
    ensures NamedExclusions(names, defs) == Excluded(Chosen(names, defs))
  {
    VariantsAgree(names, defs);
  }

  // ---- Collecting the modules to build ----

  /** The modules of the stacks that are known. */
  function NamedModules(names: seq<string>, defs: StackDefs): set<string> {
    set m, i | 0 <= i < |names| && names[i] in defs && m in defs[names[i]].modules :: m
  }

  function Elements(s: seq<string>): set<string> {
    set x | x in s
  }

  /** Everything the templates name, before exclusions. */
  function AllSlugs(templates: seq<Template>, env: string, defs: StackDefs): set<string> {
    if templates == [] then {}
    else
      var t := templates[|templates| - 1];
      AllSlugs(templates[..|templates| - 1], env, defs) + Elements(t.includes)
      + NamedModules(EffectiveStacks(env, t.stacks), defs)
  }

  function AllExclusions(templates: seq<Template>, env: string, defs: StackDefs): set<string> {
    if templates == [] then {}
    else
      var t := templates[|templates| - 1];
      AllExclusions(templates[..|templates| - 1], env, defs)
      + Elements(NamedExclusions(EffectiveStacks(env, t.stacks), defs))
  }

  function BuildSlugs(templates: seq<Template>, env: string, defs: StackDefs): set<string> {
    AllSlugs(templates, env, defs) - AllExclusions(templates, env, defs)
  }

  lemma NamedModulesSnoc(names: seq<string>, i: nat, defs: StackDefs)
    requires i < |names|
    ensures NamedModules(names[..i + 1], defs) ==
            NamedModules(names[..i], defs) + if names[i] in defs then Elements(defs[names[i]].modules) else {}
  {
    var a, b := NamedModules(names[..i + 1], defs), NamedModules(names[..i], defs);
    forall m ensures m in a <==> m in b || (names[i] in defs && m in defs[names[i]].modules) {
      if m in a {
        var k :| 0 <= k < i + 1 && names[..i + 1][k] in defs && m in defs[names[..i + 1][k]].modules;
        assert k < i ==> names[..i][k] == names[k];
      }
      if m in b {
        var k :| 0 <= k < i && names[..i][k] in defs && m in defs[names[..i][k]].modules;
        assert names[..i + 1][k] == names[k];
      }
      if names[i] in defs && m in defs[names[i]].modules { assert names[..i + 1][i] == names[i]; }
    }
  }

  method CollectModules(names: seq<string>, defs: StackDefs, start: set<string>) returns (slugs: set<string>)
    ensures slugs == start + NamedModules(names, defs)
  {
    slugs := start;
    for i := 0 to |names|
      invariant slugs == start + NamedModules(names[..i], defs)
    {
      NamedModulesSnoc(names, i, defs);
      if names[i] !in defs { continue; }
      slugs := slugs + set m | m in defs[names[i]].modules;
    }
    assert names[..|names|] == names;
  }

  /** `cmd_build_modules`, up to the step that adds the llama.cpp master script. */
  method CollectBuildSlugs(templates: seq<Template>, env: string, defs: StackDefs) returns (slugs: set<string>)
    ensures slugs == BuildSlugs(templates, env, defs)
  {
    hide NamedExclusions, NamedModules, EffectiveStacks;
    slugs := {};
    var excluded: set<string> := {};
    for i := 0 to |templates|
      invariant slugs == AllSlugs(templates[..i], env, defs)
      invariant excluded == AllExclusions(templates[..i], env, defs)
    {
      assert templates[..i + 1][..i] == templates[..i];
      var t := templates[i];
      var effective := EnvOverride(env, t.stacks);
      slugs := slugs + set m | m in t.includes;
      slugs := CollectModules(effective, defs, slugs);
      var losing := ArbitrateModules(effective, defs);
      excluded := excluded + set m | m in losing;
    }
    assert templates[..|templates|] == templates;
    slugs := slugs - excluded;
  }

  // ---- Agreement with the installer ----

  /** What the installer resolves for a template. */
  function InstallerSlugs(t: Template, env: string, defs: StackDefs): Option<seq<string>> {
    var gpu := Resolution(EffectiveStacks(env, t.stacks), defs);
    if gpu.None? then None else Some(EffectiveSlugs(t, gpu.value))
  }

  /** What a template names, and what arbitration excludes from it. */
  predicate Names(t: Template, env: string, defs: StackDefs, m: string) {
    m in t.includes || m in NamedModules(EffectiveStacks(env, t.stacks), defs)
  }

  predicate Excludes(t: Template, env: string, defs: StackDefs, m: string) {
    m in NamedExclusions(EffectiveStacks(env, t.stacks), defs)
  }

  lemma {:induction false} AllSlugsExact(templates: seq<Template>, env: string, defs: StackDefs, m: string)
    ensures m in AllSlugs(templates, env, defs) <==> exists t :: t in templates && Names(t, env, defs, m)
    ensures m in AllExclusions(templates, env, defs) <==> exists t :: t in templates && Excludes(t, env, defs, m)
  {
    hide NamedModules, NamedExclusions, EffectiveStacks;
    if templates != [] {
      var n := |templates| - 1;
      AllSlugsExact(templates[..n], env, defs, m);
      assert forall t :: t in templates <==> t in templates[..n] || t == templates[n];
      assert m in AllSlugs(templates, env, defs) <==>
             m in AllSlugs(templates[..n], env, defs) || Names(templates[n], env, defs, m);
      assert m in AllExclusions(templates, env, defs) <==>
             m in AllExclusions(templates[..n], env, defs) || Excludes(templates[n], env, defs, m);
    }
  }

  lemma {:induction false} StackModulesAgree(names: seq<string>, defs: StackDefs, m: string)
    requires AllKnown(names, defs)
    ensures m in StackModules(Chosen(names, defs)) <==> m in NamedModules(names, defs)
  {
    if names != [] {
      var n := |names| - 1;
      StackModulesAgree(names[..n], defs, m);
      assert Chosen(names, defs)[..n] == Chosen(names[..n], defs);
      NamedModulesSnoc(names, n, defs);
      assert names[..n + 1] == names;
    }
  }

  /** The installer keeps what the template names and its own arbitration does not exclude. */
  lemma InstallerKeeps(t: Template, env: string, defs: StackDefs, m: string)
    requires AllKnown(EffectiveStacks(env, t.stacks), defs)
    ensures InstallerSlugs(t, env, defs).Some?
    ensures m in InstallerSlugs(t, env, defs).value <==> Names(t, env, defs, m) && !Excludes(t, env, defs, m)
  {
    hide NamedModules, NamedExclusions, EffectiveStacks, EffectiveSlugs;
    var names := EffectiveStacks(env, t.stacks);
    EffectiveSlugsExact(t, names, defs);
    ArbitrationsAgree(names, defs);
    StackModulesAgree(names, defs, m);
  }

  /**
   * For a single template with known stacks, the build collects exactly the modules that the installer will
   * install.
   */
  lemma OneTemplateAgrees(t: Template, env: string, defs: StackDefs, m: string)
    requires AllKnown(EffectiveStacks(env, t.stacks), defs)
    ensures m in BuildSlugs([t], env, defs) <==> m in InstallerSlugs(t, env, defs).value
  {
    hide Names, Excludes, EffectiveStacks, AllSlugs, AllExclusions, InstallerSlugs;
    AllSlugsExact([t], env, defs, m);
    InstallerKeeps(t, env, defs, m);
  }

  /** No template names a module that it keeps and another one excludes. */
  ghost predicate NoCrossExclusion(templates: seq<Template>, env: string, defs: StackDefs) {
    forall t, u, m :: t in templates && u in templates && Names(t, env, defs, m) && !Excludes(t, env, defs, m) ==>
      !Excludes(u, env, defs, m)
  }

  ghost predicate InstalledBySome(templates: seq<Template>, env: string, defs: StackDefs, m: string) {
    exists t :: t in templates && InstallerSlugs(t, env, defs).Some? && m in InstallerSlugs(t, env, defs).value
  }

  lemma InstalledExact(templates: seq<Template>, env: string, defs: StackDefs, m: string)
    requires forall t :: t in templates ==> AllKnown(EffectiveStacks(env, t.stacks), defs)
    ensures InstalledBySome(templates, env, defs, m) <==>
            exists t :: t in templates && Names(t, env, defs, m) && !Excludes(t, env, defs, m)
  {
    hide Names, Excludes, EffectiveStacks, InstallerSlugs;
    forall t | t in templates
      ensures InstallerSlugs(t, env, defs).Some?
      ensures m in InstallerSlugs(t, env, defs).value <==> Names(t, env, defs, m) && !Excludes(t, env, defs, m)
    {
      InstallerKeeps(t, env, defs, m);
    }
  }

  /**
   * For several templates, build and installation agree exactly when no template's losing variant is kept by
   * another.
   */
  lemma TemplatesAgreeExactly(templates: seq<Template>, env: string, defs: StackDefs)
    requires forall t :: t in templates ==> AllKnown(EffectiveStacks(env, t.stacks), defs)
    ensures (forall m :: m in BuildSlugs(templates, env, defs) <==> InstalledBySome(templates, env, defs, m)) <==>
            NoCrossExclusion(templates, env, defs)
  {
    hide Names, Excludes, EffectiveStacks, InstallerSlugs, AllSlugs, AllExclusions, InstalledBySome;
    forall m
      ensures m in BuildSlugs(templates, env, defs) <==>
              (exists t :: t in templates && Names(t, env, defs, m))
                && !(exists u :: u in templates && Excludes(u, env, defs, m))
      ensures InstalledBySome(templates, env, defs, m) <==>
              exists t :: t in templates && Names(t, env, defs, m) && !Excludes(t, env, defs, m)
    {
      AllSlugsExact(templates, env, defs, m);
      InstalledExact(templates, env, defs, m);
    }
    AgreementLogic(templates, env, defs);
  }

  lemma AgreementLogic(templates: seq<Template>, env: string, defs: StackDefs)
    requires forall m ::
               (m in BuildSlugs(templates, env, defs) <==>
                (exists t :: t in templates && Names(t, env, defs, m))
                  && !(exists u :: u in templates && Excludes(u, env, defs, m)))
    requires forall m ::
               (InstalledBySome(templates, env, defs, m) <==>
                exists t :: t in templates && Names(t, env, defs, m) && !Excludes(t, env, defs, m))
    ensures (forall m :: m in BuildSlugs(templates, env, defs) <==> InstalledBySome(templates, env, defs, m)) <==>
            NoCrossExclusion(templates, env, defs)
  {
    hide Names, Excludes, BuildSlugs, InstalledBySome;
    if forall m :: m in BuildSlugs(templates, env, defs) <==> InstalledBySome(templates, env, defs, m) {
      forall t, u, m | t in templates && u in templates && Names(t, env, defs, m) && !Excludes(t, env, defs, m)
        ensures !Excludes(u, env, defs, m)
      {
        assert InstalledBySome(templates, env, defs, m);
      }
    }
    if NoCrossExclusion(templates, env, defs) {
      forall m ensures m in BuildSlugs(templates, env, defs) <==> InstalledBySome(templates, env, defs, m) {}
    }
  }

  /** With `ARCHES_GPU` set, all templates have the same stacks, and so build and installation always agree. */
  lemma OverriddenTemplatesAgree(templates: seq<Template>, env: string, defs: StackDefs)
    requires Strip(env) != ""
    requires forall t :: t in templates ==> AllKnown(EffectiveStacks(env, t.stacks), defs)
    ensures forall m :: m in BuildSlugs(templates, env, defs) <==> InstalledBySome(templates, env, defs, m)
  {
    hide NamedModules, NamedExclusions;
    forall t, u | t in templates && u in templates
      ensures EffectiveStacks(env, t.stacks) == EffectiveStacks(env, u.stacks)
    {
    }
    assert NoCrossExclusion(templates, env, defs);
    TemplatesAgreeExactly(templates, env, defs);
  }

  /** Two templates, one for HIP alone and one for Vulkan and HIP: the build drops the module the first one installs. */
  lemma TemplatesCanDisagree()
    ensures exists templates: seq<Template>, defs: StackDefs, m ::
              && (forall t :: t in templates ==> AllKnown(EffectiveStacks("", t.stacks), defs))
              && InstalledBySome(templates, "", defs, m) && m !in BuildSlugs(templates, "", defs)
  {
    hide Names, Excludes, EffectiveStacks, BuildSlugs, InstalledBySome;
    var defs: StackDefs := map["v" := GpuStack("v", [], [], "vulkan"), "h" := GpuStack("h", [], [], "hip")];
    var hip, both := Template(["llama-cpp-hip"], ["h"]), Template([], ["v", "h"]);
    HipExclusions(defs, hip, both);
    CrossExclusion([hip, both], "", defs, hip, both, "llama-cpp-hip");
  }

  /** A module that one template keeps and another excludes is installed, but not built. */
  lemma CrossExclusion(templates: seq<Template>, env: string, defs: StackDefs, t: Template, u: Template, m: string)
    requires t in templates && u in templates
    requires forall x :: x in templates ==> AllKnown(EffectiveStacks(env, x.stacks), defs)
    requires Names(t, env, defs, m) && !Excludes(t, env, defs, m) && Excludes(u, env, defs, m)
    ensures InstalledBySome(templates, env, defs, m) && m !in BuildSlugs(templates, env, defs)
  {
    hide Names, Excludes, EffectiveStacks, InstalledBySome;
    AllSlugsExact(templates, env, defs, m);
    InstalledExact(templates, env, defs, m);
  }

  lemma StripEmpty()
    ensures Strip("") == ""
  {
  }

  lemma HipExclusions(defs: StackDefs, hip: Template, both: Template)
    requires "v" in defs && "h" in defs && defs["v"].variant == "vulkan" && defs["h"].variant == "hip"
    requires hip == Template(["llama-cpp-hip"], ["h"]) && both == Template([], ["v", "h"])
    ensures EffectiveStacks("", hip.stacks) == ["h"] && EffectiveStacks("", both.stacks) == ["v", "h"]
    ensures Names(hip, "", defs, "llama-cpp-hip")
    ensures !Excludes(hip, "", defs, "llama-cpp-hip") && Excludes(both, "", defs, "llama-cpp-hip")
  {
    StripEmpty();
    HipAlone(defs);
    HipWithVulkan(defs);
  }

  lemma HipAlone(defs: StackDefs)
    requires "h" in defs && defs["h"].variant == "hip"
    ensures NamedExclusions(["h"], defs) == []
  {
    assert ["h"][..0] == [] && ["hip"][..0] == [];
    assert NamedVariants(["h"], defs) == ["hip"];
    assert Losers(["hip"], "hip") == [];
  }

  lemma HipWithVulkan(defs: StackDefs)
    requires "v" in defs && "h" in defs && defs["v"].variant == "vulkan" && defs["h"].variant == "hip"
    ensures "llama-cpp-hip" in NamedExclusions(["v", "h"], defs)
  {
    hide Losers;
    var names := ["v", "h"];
    assert names[..1] == ["v"] && ["v"][..0] == [];
    assert NamedVariants(["v"], defs) == ["vulkan"];
    assert NamedVariants(names, defs) == ["vulkan", "hip"];
    LosersExact(["vulkan", "hip"], "vulkan", "llama-cpp-hip");
    assert "hip" in ["vulkan", "hip"] && VariantModule("hip") == "llama-cpp-hip";
    DedupExact(Losers(["vulkan", "hip"], "vulkan"));
  }
}
