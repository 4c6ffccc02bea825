/** Which llama.cpp module wins and which ones are excluded, in terms of the stacks alone. */
module StackArbitration {
  import opened Text
  import opened Sorting
  import opened Wrappers
  import opened Dicts
  import opened Deduplication
  import opened GpuStacks
  import IsoConfig
  import Words = DescriptorLaws

  /** The modules of the variants. */
  predicate Provides(variant: string, m: string) {
    || (variant == "vulkan" && m == "llama-cpp")
    || (variant == "hip" && m == "llama-cpp-hip")
    || (variant == "cuda" && m == "llama-cpp-cuda")
  }

  /** The stack at `i` declares the variant that wins: Vulkan, or where nobody has it the first one declared. */
  ghost predicate Wins(stacks: seq<GpuStack>, i: nat) {
    && i < |stacks| && stacks[i].variant != ""
    && (stacks[i].variant == "vulkan" || (
          && (forall j :: 0 <= j < |stacks| ==> stacks[j].variant != "vulkan")
          && forall j :: 0 <= j < i ==> stacks[j].variant == ""))
  }

  /** Some stack's variant loses against another, and the module is the loser's. */
  ghost predicate Loses(stacks: seq<GpuStack>, m: string) {
    exists w: nat, l: nat :: Wins(stacks, w) && l < |stacks| && stacks[l].variant != stacks[w].variant &&
                             Provides(stacks[l].variant, m)
  }

  lemma ProvidesExactly(variant: string, m: string)
    ensures Provides(variant, m) <==> m != "" && VariantModule(variant) == m
  {
  }

  lemma {:induction false} FirstDeclared(stacks: seq<GpuStack>, i: nat)
    requires i < |stacks| && stacks[i].variant != "" && forall j :: 0 <= j < i ==> stacks[j].variant == ""
    ensures Variants(stacks) != [] && Variants(stacks)[0] == stacks[i].variant
  {
    var n := |stacks| - 1;
    if i < n {
      FirstDeclared(stacks[..n], i);
    } else {
      NoneDeclared(stacks[..n]);
    }
  }

  lemma {:induction false} NoneDeclared(stacks: seq<GpuStack>)
    requires forall j :: 0 <= j < |stacks| ==> stacks[j].variant == ""
    ensures Variants(stacks) == []
  {
    if stacks != [] { NoneDeclared(stacks[..|stacks| - 1]); }
  }

  lemma WinnerExact(stacks: seq<GpuStack>, i: nat)
    requires Wins(stacks, i)
    ensures Variants(stacks) != [] && Winner(Variants(stacks)) == stacks[i].variant
  {
    hide Variants;
    VariantsAreNamed(stacks);
    assert stacks[i] in stacks && stacks[i].variant in Variants(stacks);
    if stacks[i].variant != "vulkan" { FirstDeclared(stacks, i); }
  }

  lemma {:induction false} FirstWithVariant(stacks: seq<GpuStack>, i: nat) returns (k: nat)
    requires i < |stacks| && stacks[i].variant != ""
    ensures k < |stacks| && stacks[k].variant != "" && forall j :: 0 <= j < k ==> stacks[j].variant == ""
    decreases i
  {
    if j :| 0 <= j < i && stacks[j].variant != "" {
      k := FirstWithVariant(stacks, j);
    } else {
      k := i;
    }
  }

  /** If some stack declares a variant, one wins. */
  lemma SomeoneWins(stacks: seq<GpuStack>, i: nat) returns (w: nat)
    requires i < |stacks| && stacks[i].variant != ""
    ensures Wins(stacks, w)
  {
    if j :| 0 <= j < |stacks| && stacks[j].variant == "vulkan" {
      w := j;
    } else {
      w := FirstWithVariant(stacks, i);
    }
  }

  /** The installer excludes exactly the modules that lose. */
  lemma LosersAreExcluded(stacks: seq<GpuStack>, m: string)
    ensures m in Excluded(stacks) <==> Loses(stacks, m)
  {
    hide Variants, Excluded, Winner, VariantModule, Provides;
    VariantsAreNamed(stacks);
    ExcludedExact(stacks, m);
    forall v { ProvidesExactly(v, m); }
    if m in Excluded(stacks) {
      var s :| s in stacks && s.variant !in ["", Winner(Variants(stacks))] && VariantModule(s.variant) == m;
      var l :| 0 <= l < |stacks| && stacks[l] == s;
      var w := SomeoneWins(stacks, l);
      WinnerExact(stacks, w);
    }
    if Loses(stacks, m) {
      var w: nat, l: nat :| Wins(stacks, w) && l < |stacks| &&
                            stacks[l].variant != stacks[w].variant && Provides(stacks[l].variant, m);
      WinnerExact(stacks, w);
      assert stacks[l] in stacks;
      EmptyProvidesNothing(stacks[l].variant, m);
    }
  }

  lemma EmptyProvidesNothing(variant: string, m: string)
    requires Provides(variant, m)
    ensures variant != ""
  {
  }

  /** The winner's module is the one of `ArbitrateLlamaCpp`, and it never loses. */
  lemma WinnersModule(stacks: seq<GpuStack>, w: nat, m: string)
    requires Wins(stacks, w) && Provides(stacks[w].variant, m)
    ensures Variants(stacks) != [] && VariantModule(Winner(Variants(stacks))) == m && !Loses(stacks, m)
  {
    WinnerExact(stacks, w);
    ProvidesExactly(stacks[w].variant, m);
    LosersAreExcluded(stacks, m);
    ExcludedExact(stacks, m);
  }

  /** What the installer installs for a template: what it or one of its stacks names, less the losers. */
  lemma InstallsExactly(t: Template, names: seq<string>, defs: StackDefs, m: string)
    requires AllKnown(names, defs)
    ensures m in EffectiveSlugs(t, Resolution(names, defs).value) <==>
            && (m in t.includes || exists name :: name in names && m in defs[name].modules)
            && !Loses(Chosen(names, defs), m)
    ensures Distinct(EffectiveSlugs(t, Resolution(names, defs).value))
    ensures m in Resolution(names, defs).value.extraPackages <==>
            exists name :: name in names && m in defs[name].packages
  {
    hide EffectiveSlugs, Excluded, Loses;
    var stacks := Chosen(names, defs);
    EffectiveSlugsExact(t, names, defs);
    LosersAreExcluded(stacks, m);
    StackMembers(stacks, m);
    DedupExact(StackPackages(stacks));
    ChosenMembers(names, defs, m);
  }

  lemma {:induction false} StackMembers(stacks: seq<GpuStack>, m: string)
    ensures m in StackModules(stacks) <==> exists s :: s in stacks && m in s.modules
    ensures m in StackPackages(stacks) <==> exists s :: s in stacks && m in s.packages
  {
    if stacks != [] {
      var n := |stacks| - 1;
      StackMembers(stacks[..n], m);
      assert stacks == stacks[..n] + [stacks[n]];
    }
  }

  lemma ChosenMembers(names: seq<string>, defs: StackDefs, m: string)
    requires AllKnown(names, defs)
    ensures (exists s :: s in Chosen(names, defs) && m in s.modules) <==>
            exists name :: name in names && m in defs[name].modules
    ensures (exists s :: s in Chosen(names, defs) && m in s.packages) <==>
            exists name :: name in names && m in defs[name].packages
  {
    var stacks := Chosen(names, defs);
    hide Chosen;
    forall name | name in names ensures defs[name] in stacks {
      var i :| 0 <= i < |names| && names[i] == name;
      assert stacks[i] == defs[name];
    }
    forall s | s in stacks ensures exists name :: name in names && defs[name] == s {
      var i :| 0 <= i < |stacks| && stacks[i] == s;
      assert names[i] in names;
    }
  }

  // ---- The build side ----

  /** The stacks of these names, where an unknown one counts as an empty table. */
  function Named(names: seq<string>, defs: StackDefs): (r: seq<GpuStack>)
    ensures |r| == |names|
  {
    seq(|names|, i requires 0 <= i < |names| =>
      if names[i] in defs then defs[names[i]] else GpuStack(names[i], [], [], ""))
  }

  lemma {:induction false} NamedVariantsAgree(names: seq<string>, defs: StackDefs)
    ensures IsoConfig.NamedVariants(names, defs) == Variants(Named(names, defs))
  {
    if names != [] {
      var n := |names| - 1;
      NamedVariantsAgree(names[..n], defs);
      assert Named(names, defs)[..n] == Named(names[..n], defs);
    }
  }

  /** The build script excludes exactly the modules that lose among the stacks it knows. */
  lemma BuildExcludesExactly(names: seq<string>, defs: StackDefs, m: string)
    ensures m in IsoConfig.NamedExclusions(names, defs) <==> Loses(Named(names, defs), m)
  {
    NamedVariantsAgree(names, defs);
    LosersAreExcluded(Named(names, defs), m);
  }

  // ---- The environment variable ----

  predicate StackWord(w: string) {
    Words.Word(w) && ',' !in w
  }

  predicate Separator(sep: string) {
    sep != "" && forall i :: 0 <= i < |sep| ==> sep[i] == ',' || IsSpace(sep[i])
  }

  predicate Blank(s: string) {
    forall i :: 0 <= i < |s| ==> IsSpace(s[i])
  }

  lemma {:induction false} SplitAfterBlank(blank: string, t: string)
    requires Blank(blank)
    ensures LStrip(blank + t, IsSpace) == LStrip(t, IsSpace)
  {
    hide IsSpace;
    if blank == "" {
      assert blank + t == t;
    } else {
      assert (blank + t)[1..] == blank[1..] + t;
      SplitAfterBlank(blank[1..], t);
    }
  }

  lemma SplitOfLStrip(s: string, t: string)
    requires LStrip(s, IsSpace) == LStrip(t, IsSpace)
    ensures Split(s) == Split(t)
  {
    hide LStrip, Until, IsSpace;
  }

  lemma JoinCons(sep: string, w: string, rest: seq<string>)
    ensures Join(sep, [w] + rest) == if rest == [] then w else w + (sep + Join(sep, rest))
  {
    assert ([w] + rest)[1..] == rest;
  }

  /** Words joined by white space split into the same words. */
  lemma {:induction false} JoinedWordsSplit(sep: string, ws: seq<string>)
    requires sep != "" && Blank(sep) && forall w :: w in ws ==> Words.Word(w)
    ensures Split(Join(sep, ws)) == ws
  {
    hide Split, IsSpace, Join;
    if ws == [] {
      SplitNothing(sep);
    } else {
      var w, rest := ws[0], ws[1..];
      assert ws == [w] + rest;
      JoinCons(sep, w, rest);
      if rest == [] {
        Words.SplitOne(w);
      } else {
        var t := Join(sep, rest);
        assert IsSpace(sep[0]) && (sep + t)[0] == sep[0];
        Words.SplitWord(w, sep + t);
        SplitAfterBlank(sep, t);
        SplitOfLStrip(sep + t, t);
        JoinedWordsSplit(sep, rest);
      }
    }
  }

  lemma SplitNothing(sep: string)
    ensures Split(Join(sep, [])) == []
  {
  }

  lemma CommasToSpacesConcat(s: string, t: string)
    ensures CommasToSpaces(s + t) == CommasToSpaces(s) + CommasToSpaces(t)
  {
  }

  lemma CommasToSpacesKeeps(w: string)
    requires ',' !in w
    ensures CommasToSpaces(w) == w
  {
  }

  lemma {:induction false} CommasInJoin(sep: string, ws: seq<string>)
    requires forall w :: w in ws ==> ',' !in w
    ensures CommasToSpaces(Join(sep, ws)) == Join(CommasToSpaces(sep), ws)
  {
    hide CommasToSpaces, Join;
    if ws == [] {
      CommasToSpacesKeeps("");
      NothingJoined();
    } else {
      var w, rest := ws[0], ws[1..];
      assert ws == [w] + rest;
      JoinCons(sep, w, rest);
      JoinCons(CommasToSpaces(sep), w, rest);
      CommasToSpacesKeeps(w);
      CommasToSpacesConcat(w, sep + Join(sep, rest));
      CommasToSpacesConcat(sep, Join(sep, rest));
      CommasInJoin(sep, rest);
    }
  }

  lemma NothingJoined()
    ensures forall s: string :: Join(s, []) == ""
  {
  }

  lemma {:induction false} JoinEnds(sep: string, ws: seq<string>)
    requires ws != [] && forall w :: w in ws ==> Words.Word(w)
    ensures var s := Join(sep, ws); s != "" && !IsSpace(s[0]) && !IsSpace(s[|s| - 1])
  {
    hide Join, IsSpace;
    var w, rest := ws[0], ws[1..];
    assert ws == [w] + rest && w in ws;
    JoinCons(sep, w, rest);
    if rest != [] {
      JoinEnds(sep, rest);
      var t := Join(sep, rest);
      var s := w + (sep + t);
      assert s[0] == w[0] && s[|s| - 1] == t[|t| - 1];
    }
  }

  lemma StripKeeps(s: string)
    requires s != "" && !IsSpace(s[0]) && !IsSpace(s[|s| - 1])
    ensures Strip(s) == s
  {
    Words.LStripKeeps(s);
  }

  /** `ARCHES_GPU` lists the stacks: words apart by commas or white space, of which the first of each name counts. */
  lemma OverrideReads(sep: string, ws: seq<string>, default: seq<string>)
    requires ws != [] && Separator(sep) && forall w :: w in ws ==> StackWord(w)
    ensures EffectiveStacks(Join(sep, ws), default) == Dedup(ws)
  {
    hide Strip, Split, Join, CommasToSpaces, IsSpace;
    JoinEnds(sep, ws);
    StripKeeps(Join(sep, ws));
    CommasInJoin(sep, ws);
    SeparatorBlank(sep);
    JoinedWordsSplit(CommasToSpaces(sep), ws);
  }

  lemma SeparatorBlank(sep: string)
    requires Separator(sep)
    ensures CommasToSpaces(sep) != "" && Blank(CommasToSpaces(sep))
  {
  }

  /** Blank, it leaves the template's own. */
  lemma BlankOverride(env: string, default: seq<string>)
    requires Blank(env)
    ensures EffectiveStacks(env, default) == default
  {
    SplitAfterBlank(env, "");
    assert env + "" == env;
  }
}
