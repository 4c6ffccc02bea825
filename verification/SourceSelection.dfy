/** Which quirks and which machine profile the hardware selects from the catalog, and in which order they apply. */
module SourceSelection {
  import opened Text
  import opened Sorting
  import opened Wrappers
  import opened Dicts
  import opened HardwareFiles
  import opened HardwareMatching
  import Texts = DeployedTexts

  // ---- What is asked of the hardware ----

  /** The device is of this vendor: so its id reads before the colon. */
  predicate OfVendor(id: string, vendor: string) {
    |vendor| < |id| && id[|vendor|] == ':' && forall i :: 0 <= i < |vendor| ==> LowerChar(id[i]) == LowerChar(vendor[i])
  }

  /** The quirk states something, and all that it states is so. */
  ghost predicate QuirkFits(q: Quirk, hw: Hardware) {
    && !(q.pciIds == [] && q.pciVendor == "" && q.chassisTypes == [])
    && (q.pciIds == [] || exists id :: id in q.pciIds && Lower(id) in hw.pci)
    && (q.pciVendor == "" || exists id :: id in hw.pci && OfVendor(id, q.pciVendor))
    && (q.chassisTypes == [] || hw.dmi.chassisType in q.chassisTypes)
  }

  /** The profile names a vendor or a product, and the system has what it names. */
  ghost predicate SpecificFits(glob: Glob, m: Machine, dmi: Dmi) {
    && [m.sysVendor, m.sysVendorPattern, m.productName, m.productNamePattern] != ["", "", "", ""]
    && m.sysVendor in ["", dmi.sysVendor] && m.productName in ["", dmi.productName]
    && (m.sysVendorPattern == "" || glob(dmi.sysVendor, m.sysVendorPattern))
    && (m.productNamePattern == "" || glob(dmi.productName, m.productNamePattern))
    && (m.chassisTypes == [] || dmi.chassisType in m.chassisTypes)
  }

  /** The profile names chassis types only, this one among them. */
  ghost predicate GenericFits(m: Machine, dmi: Dmi) {
    && [m.sysVendor, m.sysVendorPattern, m.productName, m.productNamePattern] == ["", "", "", ""]
    && dmi.chassisType in m.chassisTypes
  }

  /** The profile at `k` is the first specific one that fits or, if none does, the first generic one. */
  ghost predicate Suits(glob: Glob, machines: seq<Machine>, dmi: Dmi, k: nat) {
    k < |machines| &&
    if SpecificFits(glob, machines[k], dmi) then forall j :: 0 <= j < k ==> !SpecificFits(glob, machines[j], dmi)
    else
      && GenericFits(machines[k], dmi) && (forall j :: 0 <= j < k ==> !GenericFits(machines[j], dmi))
      && forall j :: 0 <= j < |machines| ==> !SpecificFits(glob, machines[j], dmi)
  }

  ghost predicate NoneSuits(glob: Glob, machines: seq<Machine>, dmi: Dmi) {
    forall j :: 0 <= j < |machines| ==> !SpecificFits(glob, machines[j], dmi) && !GenericFits(machines[j], dmi)
  }

  lemma LowerColon(c: char)
    ensures LowerChar(c) == ':' <==> c == ':'
  {
  }

  lemma VendorPrefix(id: string, vendor: string)
    ensures StartsWith(Lower(id), Lower(vendor) + ":") <==> OfVendor(id, vendor)
  {
    var low, prefix, n := Lower(id), Lower(vendor) + ":", |vendor|;
    hide LowerChar;
    assert |low| == |id| && |prefix| == n + 1 && prefix[n] == ':';
    if n < |id| {
      LowerColon(id[n]);
      assert low[n] == LowerChar(id[n]);
      assert forall i :: 0 <= i < n ==> low[i] == LowerChar(id[i]) && prefix[i] == LowerChar(vendor[i]);
      if OfVendor(id, vendor) {
        assert low[..n + 1] == prefix;
      }
      if StartsWith(low, prefix) {
        assert forall i :: 0 <= i < n + 1 ==> low[..n + 1][i] == low[i];
      }
    }
  }

  lemma QuirkMatchesExactly(q: Quirk, hw: Hardware)
    ensures q.Matches(hw.pci, hw.dmi.chassisType) <==> QuirkFits(q, hw)
  {
    hide StartsWith, Lower, OfVendor;
    forall id { VendorPrefix(id, q.pciVendor); }
    if q.HasDevice(hw.pci) {
      var i :| 0 <= i < |q.pciIds| && Lower(q.pciIds[i]) in hw.pci;
      assert q.pciIds[i] in q.pciIds;
    }
  }

  lemma MachineMatchesExactly(glob: Glob, m: Machine, dmi: Dmi)
    ensures m.MatchesDmi(glob, dmi) && !m.IsGeneric() <==> SpecificFits(glob, m, dmi)
    ensures m.MatchesDmi(glob, dmi) && m.IsGeneric() <==> GenericFits(m, dmi)
  {
    var fields := [m.sysVendor, m.sysVendorPattern, m.productName, m.productNamePattern];
    assert fields == ["", "", "", ""] <==> m.IsGeneric() by {
      if fields == ["", "", "", ""] {
        assert fields[0] == "" && fields[1] == "" && fields[2] == "" && fields[3] == "";
      }
    }
  }

  lemma {:induction false} FirstMachineIndex(machines: seq<Machine>, p: Machine -> bool) returns (k: nat)
    requires FirstMachine(machines, p).Some?
    ensures k < |machines| && FirstMachine(machines, p) == Some(machines[k])
    ensures p(machines[k]) && forall j :: 0 <= j < k ==> !p(machines[j])
  {
    if p(machines[0]) {
      k := 0;
    } else {
      k := FirstMachineIndex(machines[1..], p);
      k := k + 1;
    }
  }

  /** The profile is the one that suits, if any does. */
  ghost predicate MachineFor(glob: Glob, machines: seq<Machine>, dmi: Dmi, machine: Option<Machine>) {
    if machine.None? then NoneSuits(glob, machines, dmi)
    else exists k: nat :: Suits(glob, machines, dmi, k) && machines[k] == machine.value
  }

  lemma SuggestedExact(glob: Glob, machines: seq<Machine>, dmi: Dmi)
    ensures MachineFor(glob, machines, dmi, SuggestedMachine(glob, machines, dmi))
  {
    hide SpecificFits, GenericFits, Machine.MatchesDmi, Machine.IsGeneric;
    var specific := (m: Machine) => m.MatchesDmi(glob, dmi) && !m.IsGeneric();
    var generic := (m: Machine) => m.MatchesDmi(glob, dmi) && m.IsGeneric();
    forall m { MachineMatchesExactly(glob, m, dmi); }
    if FirstMachine(machines, specific).Some? {
      var k := FirstMachineIndex(machines, specific);
      assert Suits(glob, machines, dmi, k);
    } else {
      assert forall j :: 0 <= j < |machines| ==> machines[j] in machines && !specific(machines[j]);
      if FirstMachine(machines, generic).Some? {
        var k := FirstMachineIndex(machines, generic);
        assert Suits(glob, machines, dmi, k);
      } else {
        assert forall j :: 0 <= j < |machines| ==> machines[j] in machines && !generic(machines[j]);
      }
    }
  }

  // ---- The quirks in order ----

  ghost predicate DistinctSlugs(quirks: seq<Quirk>) {
    forall i, j :: 0 <= i < j < |quirks| ==> quirks[i].source.slug != quirks[j].source.slug
  }

  predicate FirstAt(s: seq<string>, x: string, i: nat) {
    i < |s| && s[i] == x && x !in s[..i]
  }

  /** The first place of `x` is before the first place of `y`. */
  ghost predicate Precedes(s: seq<string>, x: string, y: string) {
    forall i: nat, j: nat :: FirstAt(s, x, i) && FirstAt(s, y, j) ==> i < j
  }

  /** The dictionary holds these quirks under their slugs, in this order. */
  ghost predicate Holds(d: Dict<Quirk>, quirks: seq<Quirk>) {
    && |d.keys| == |quirks|
    && forall i :: 0 <= i < |quirks| ==>
         d.keys[i] == quirks[i].source.slug && d.keys[i] in d.entries && d.entries[d.keys[i]] == quirks[i]
  }

  lemma HoldsSnoc(d: Dict<Quirk>, quirks: seq<Quirk>, q: Quirk)
    requires Holds(d, quirks) && q.source.slug !in d.entries
    ensures Holds(d.Put(q.source.slug, q), quirks + [q])
  {
  }

  lemma LastPut(quirks: seq<Quirk>, n: nat)
    requires |quirks| == n + 1
    ensures PutQuirks(Empty(), quirks) == PutQuirks(Empty(), quirks[..n]).Put(quirks[n].source.slug, quirks[n])
  {
  }

  lemma NothingPut()
    ensures PutQuirks(Empty(), []) == Empty()
  {
  }

  lemma NewSlug(quirks: seq<Quirk>, n: nat)
    requires DistinctSlugs(quirks) && |quirks| == n + 1
    ensures DistinctSlugs(quirks[..n]) && quirks[n].source.slug !in PutQuirks(Empty(), quirks[..n]).entries
  {
    hide PutQuirks;
  }

  lemma {:induction false} QuirksUnderSlugs(quirks: seq<Quirk>)
    requires DistinctSlugs(quirks)
    ensures Holds(PutQuirks(Empty(), quirks), quirks)
  {
    hide Holds, PutQuirks, DistinctSlugs;
    if quirks == [] {
      NothingPut();
      NothingHeld();
    } else {
      var n := |quirks| - 1;
      NewSlug(quirks, n);
      QuirksUnderSlugs(quirks[..n]);
      assert quirks == quirks[..n] + [quirks[n]];
      HoldsSnoc(PutQuirks(Empty(), quirks[..n]), quirks[..n], quirks[n]);
      LastPut(quirks, n);
    }
  }

  lemma NothingHeld()
    ensures Holds(Empty(), [])
  {
  }

  /** What is included comes after what was there, in the order of the includes. */
  ghost predicate AddedInOrder(d: Dict<Quirk>, r: Dict<Quirk>, includes: seq<string>) {
    && |d.keys| <= |r.keys| && r.keys[..|d.keys|] == d.keys
    && (forall i :: |d.keys| <= i < |r.keys| ==> r.keys[i] in includes)
    && (forall i, j :: |d.keys| <= i < j < |r.keys| ==> Precedes(includes, r.keys[i], r.keys[j]))
  }

  lemma PrecedesKeeps(s: seq<string>, t: string, x: string, y: string)
    requires x in s && y in s && Precedes(s, x, y)
    ensures Precedes(s + [t], x, y)
  {
    forall i: nat, j: nat | FirstAt(s + [t], x, i) && FirstAt(s + [t], y, j) ensures i < j {
      FirstInside(s, t, x, i);
      FirstInside(s, t, y, j);
    }
  }

  lemma FirstInside(s: seq<string>, t: string, x: string, i: nat)
    requires x in s && FirstAt(s + [t], x, i)
    ensures FirstAt(s, x, i)
  {
    assert (s + [t])[..|s|] == s;
    assert i < |s| ==> (s + [t])[..i] == s[..i];
  }

  lemma PrecedesLast(s: seq<string>, t: string, x: string)
    requires x in s && t !in s
    ensures Precedes(s + [t], x, t)
  {
    forall i: nat, j: nat | FirstAt(s + [t], x, i) && FirstAt(s + [t], t, j) ensures i < j {
      FirstInside(s, t, x, i);
    }
  }

  lemma {:induction false} IncludesInOrder(d: Dict<Quirk>, lookup: Dict<Quirk>, includes: seq<string>)
    requires d.Valid()
    ensures AddedInOrder(d, PutIncludes(d, lookup, includes), includes)
  {
    if includes != [] {
      var n := |includes| - 1;
      var shorter, t := includes[..n], includes[n];
      assert includes == shorter + [t];
      IncludesInOrder(d, lookup, shorter);
      var before := PutIncludes(d, lookup, shorter);
      var r := PutIncludes(d, lookup, includes);
      var k := |d.keys|;
      forall i, j | k <= i < j < |before.keys| ensures Precedes(includes, before.keys[i], before.keys[j]) {
        PrecedesKeeps(shorter, t, before.keys[i], before.keys[j]);
      }
      if r != before {
        assert r.keys == before.keys + [t];
        assert t !in shorter;
        forall i | k <= i < |before.keys| ensures Precedes(includes, before.keys[i], t) {
          PrecedesLast(shorter, t, before.keys[i]);
        }
      }
    }
  }

  lemma {:induction false} QuirksOfAt(d: Dict<Quirk>, n: nat)
    requires d.Valid() && n <= |d.keys|
    ensures |QuirksOf(d, n)| == n
    ensures forall i :: 0 <= i < n ==> d.keys[i] in d.entries && QuirksOf(d, n)[i] == d.entries[d.keys[i]]
  {
    assert forall i :: 0 <= i < n ==> d.keys[i] in d.keys;
    if n > 0 { QuirksOfAt(d, n - 1); }
  }

  /** `a` stands before `b`. */
  ghost predicate Before(quirks: seq<Quirk>, a: Quirk, b: Quirk) {
    exists i, j :: 0 <= i < j < |quirks| && quirks[i] == a && quirks[j] == b
  }

  lemma BeforeLater(x: Quirk, rest: seq<Quirk>, a: Quirk, b: Quirk)
    requires Before(rest, a, b)
    ensures Before([x] + rest, a, b)
  {
    var i, j :| 0 <= i < j < |rest| && rest[i] == a && rest[j] == b;
    var s := [x] + rest;
    assert s[i + 1] == a && s[j + 1] == b;
  }

  lemma BeforeFirst(x: Quirk, rest: seq<Quirk>, b: Quirk)
    requires b in rest
    ensures Before([x] + rest, x, b)
  {
    var j :| 0 <= j < |rest| && rest[j] == b;
    var s := [x] + rest;
    assert s[0] == x && s[j + 1] == b;
  }

  ghost predicate InOrderOf(quirks: seq<Quirk>, f: seq<Quirk>) {
    forall i, j :: 0 <= i < j < |f| ==> Before(quirks, f[i], f[j])
  }

  lemma InOrderCons(x: Quirk, rest: seq<Quirk>, g: seq<Quirk>)
    requires InOrderOf(rest, g) && forall q :: q in g ==> q in rest
    ensures InOrderOf([x] + rest, g) && InOrderOf([x] + rest, [x] + g)
  {
    hide Before;
    forall i, j | 0 <= i < j < |g| ensures Before([x] + rest, g[i], g[j]) { BeforeLater(x, rest, g[i], g[j]); }
    forall j | 0 <= j < |g| ensures Before([x] + rest, x, g[j]) { BeforeFirst(x, rest, g[j]); }
    var f := [x] + g;
    assert forall i :: 1 <= i < |f| ==> f[i] == g[i - 1];
  }

  lemma {:induction false} FilterInOrder(quirks: seq<Quirk>, p: Quirk -> bool)
    ensures InOrderOf(quirks, Filter(quirks, p))
  {
    hide InOrderOf;
    if quirks == [] {
      assert InOrderOf([], []) by { NothingInOrder(); }
    } else {
      var rest := quirks[1..];
      assert quirks == [quirks[0]] + rest;
      FilterInOrder(rest, p);
      FilterExact(rest, p);
      FilterStep(quirks, p);
      assert [] + Filter(rest, p) == Filter(rest, p);
      InOrderCons(quirks[0], rest, Filter(rest, p));
    }
  }

  lemma NothingInOrder()
    ensures InOrderOf([], [])
  {
  }

  lemma BeforeDiffer(quirks: seq<Quirk>, a: Quirk, b: Quirk)
    requires DistinctSlugs(quirks) && Before(quirks, a, b)
    ensures a.source.slug != b.source.slug
  {
  }

  function Includes(machine: Option<Machine>): seq<string> {
    if machine.Some? then machine.value.quirkIncludes else []
  }

  /** The quirks that fit, in the catalog's order, and then those that only the machine includes, in its order. */
  ghost predicate QuirksFor(catalog: Catalog, hw: Hardware, machine: Option<Machine>, qs: seq<Quirk>) {
    && DistinctSlugs(qs)
    && (forall q :: q in qs <==> q in catalog.quirks && (QuirkFits(q, hw) || q.source.slug in Includes(machine)))
    && (forall i, j :: 0 <= i < j < |qs| && QuirkFits(qs[j], hw) ==>
          QuirkFits(qs[i], hw) && Before(catalog.quirks, qs[i], qs[j]))
    && (forall i, j :: 0 <= i < j < |qs| && !QuirkFits(qs[i], hw) ==>
          Precedes(Includes(machine), qs[i].source.slug, qs[j].source.slug))
  }

  predicate SlugOf(quirks: seq<Quirk>, k: string) {
    exists q :: q in quirks && q.source.slug == k
  }

  /** The dictionary of the resolved configuration, made of the quirks that fit and of those that are included. */
  ghost predicate Combines(d: Dict<Quirk>, matched: seq<Quirk>, all: seq<Quirk>, includes: seq<string>) {
    && d.Valid()
    && (forall k :: k in d.entries <==> SlugOf(matched, k) || (k in includes && SlugOf(all, k)))
    && (forall k :: k in d.entries ==> d.entries[k] in all && d.entries[k].source.slug == k)
    && |matched| <= |d.keys|
    && (forall i :: 0 <= i < |matched| ==> d.keys[i] == matched[i].source.slug)
    && (forall i, j :: |matched| <= i < j < |d.keys| ==> Precedes(includes, d.keys[i], d.keys[j]))
  }

  ghost predicate Keyed(d: Dict<Quirk>, quirks: seq<Quirk>) {
    forall k :: k in d.entries ==> d.entries[k] in quirks && d.entries[k].source.slug == k
  }

  lemma {:induction false} SlugsKeyed(quirks: seq<Quirk>)
    ensures Keyed(PutQuirks(Empty(), quirks), quirks)
  {
    hide PutQuirks;
    if quirks == [] {
      NothingPut();
    } else {
      var n := |quirks| - 1;
      SlugsKeyed(quirks[..n]);
      LastPut(quirks, n);
    }
  }

  lemma MatchedCombine(matched: seq<Quirk>, all: seq<Quirk>)
    requires DistinctSlugs(matched) && forall q :: q in matched ==> q in all
    ensures Combines(PutQuirks(Empty(), matched), matched, all, [])
    ensures |PutQuirks(Empty(), matched).keys| == |matched|
  {
    hide DistinctSlugs, Precedes, PutQuirks;
    SlugsKeyed(matched);
    QuirksUnderSlugs(matched);
    assert Empty<Quirk>().entries == map[];
  }

  lemma KeysKept(before: seq<string>, after: seq<string>)
    requires |before| <= |after| && after[..|before|] == before
    ensures forall i :: 0 <= i < |before| ==> after[i] == before[i]
  {
  }

  lemma IncludesCombine(d: Dict<Quirk>, lookup: Dict<Quirk>, matched: seq<Quirk>, all: seq<Quirk>,
                        includes: seq<string>)
    requires Combines(d, matched, all, []) && |d.keys| == |matched|
    requires Keyed(lookup, all)
    requires forall k :: k in lookup.entries <==> SlugOf(all, k)
    ensures Combines(PutIncludes(d, lookup, includes), matched, all, includes)
  {
    hide PutIncludes, Precedes, SlugOf, FirstAt;
    IncludesInOrder(d, lookup, includes);
    var r := PutIncludes(d, lookup, includes);
    assert forall k :: k in d.entries <==> SlugOf(matched, k);
    KeysKept(d.keys, r.keys);
  }

  lemma NothingToInclude(d: Dict<Quirk>, matched: seq<Quirk>, includes: seq<string>)
    requires Combines(d, matched, [], []) && |d.keys| == |matched|
    ensures Combines(d, matched, [], includes)
  {
    hide Precedes;
  }

  lemma SlugsHeld(all: seq<Quirk>)
    ensures forall k :: k in PutQuirks(Empty(), all).entries <==> SlugOf(all, k)
  {
    hide PutQuirks;
  }

  lemma MapCombines(machine: Option<Machine>, matched: seq<Quirk>, all: seq<Quirk>)
    requires DistinctSlugs(matched) && forall q :: q in matched ==> q in all
    ensures Combines(QuirkMap(machine, matched, all), matched, all, Includes(machine))
  {
    hide Combines, PutQuirks, DistinctSlugs, PutIncludes;
    MatchedCombine(matched, all);
    if machine.Some? {
      SlugsKeyed(all);
      SlugsHeld(all);
      if all == [] {
        NothingToInclude(PutQuirks(Empty(), matched), matched, Includes(machine));
      } else {
        var includes := machine.value.quirkIncludes;
        IncludesCombine(PutQuirks(Empty(), matched), PutQuirks(Empty(), all), matched, all, includes);
      }
    }
  }

  lemma SameSlug(quirks: seq<Quirk>, a: Quirk, b: Quirk)
    requires DistinctSlugs(quirks) && a in quirks && b in quirks && a.source.slug == b.source.slug
    ensures a == b
  {
  }

  lemma {:induction false} FilterKeepsSlugs(quirks: seq<Quirk>, p: Quirk -> bool)
    requires DistinctSlugs(quirks)
    ensures DistinctSlugs(Filter(quirks, p))
  {
    FilterInOrder(quirks, p);
    var f := Filter(quirks, p);
    forall i, j | 0 <= i < j < |f| ensures f[i].source.slug != f[j].source.slug { BeforeDiffer(quirks, f[i], f[j]); }
  }

  lemma CombinedElements(d: Dict<Quirk>, matched: seq<Quirk>, all: seq<Quirk>, includes: seq<string>, q: Quirk)
    requires Combines(d, matched, all, includes) && DistinctSlugs(all) && forall x :: x in matched ==> x in all
    ensures q in QuirksOf(d, |d.keys|) <==> q in all && (q in matched || q.source.slug in includes)
  {
    var qs := QuirksOf(d, |d.keys|);
    QuirksOfAt(d, |d.keys|);
    hide DistinctSlugs, QuirksOf, Precedes;
    if q in qs {
      var i :| 0 <= i < |qs| && qs[i] == q;
      var k := d.keys[i];
      if m :| m in matched && m.source.slug == k { SameSlug(all, m, q); }
    }
    if q in all && (q in matched || q.source.slug in includes) {
      var k := q.source.slug;
      assert SlugOf(matched, k) || SlugOf(all, k);
      SameSlug(all, q, d.entries[k]);
      assert k in d.keys;
      var i :| 0 <= i < |d.keys| && d.keys[i] == k;
      assert qs[i] == q;
    }
  }

  lemma CombinedOrder(d: Dict<Quirk>, matched: seq<Quirk>, all: seq<Quirk>, includes: seq<string>)
    requires Combines(d, matched, all, includes) && DistinctSlugs(all) && forall x :: x in matched ==> x in all
    ensures var qs := QuirksOf(d, |d.keys|);
            && DistinctSlugs(qs) && |matched| <= |qs| && qs[..|matched|] == matched
            && forall i, j :: |matched| <= i < j < |qs| ==> Precedes(includes, qs[i].source.slug, qs[j].source.slug)
  {
    var qs := QuirksOf(d, |d.keys|);
    QuirksOfAt(d, |d.keys|);
    hide QuirksOf, Precedes;
    forall i | 0 <= i < |matched| ensures qs[i] == matched[i] {
      assert matched[i] in matched;
      SameSlug(all, qs[i], matched[i]);
    }
  }

  lemma FitsComeFirst(qs: seq<Quirk>, matched: seq<Quirk>, hw: Hardware)
    requires DistinctSlugs(qs) && |matched| <= |qs| && qs[..|matched|] == matched
    requires forall q :: q in qs ==> (q in matched <==> QuirkFits(q, hw))
    ensures forall i :: 0 <= i < |qs| ==> (QuirkFits(qs[i], hw) <==> i < |matched|)
    ensures forall i :: 0 <= i < |matched| ==> qs[i] == matched[i]
  {
    hide QuirkFits;
    assert forall i :: 0 <= i < |matched| ==> qs[i] == matched[i];
    forall i | 0 <= i < |qs| ensures QuirkFits(qs[i], hw) <==> i < |matched| {
      assert qs[i] in qs;
      if qs[i] in matched {
        var j :| 0 <= j < |matched| && matched[j] == qs[i];
        assert qs[j] == qs[i];
      }
    }
  }

  lemma OrderedPrefix(qs: seq<Quirk>, matched: seq<Quirk>, catalog: Catalog, hw: Hardware, machine: Option<Machine>)
    requires DistinctSlugs(qs) && |matched| <= |qs| && qs[..|matched|] == matched
    requires forall q :: q in qs ==> (q in matched <==> QuirkFits(q, hw))
    requires InOrderOf(catalog.quirks, matched)
    requires forall q :: q in qs <==> q in catalog.quirks && (QuirkFits(q, hw) || q.source.slug in Includes(machine))
    requires forall i, j :: |matched| <= i < j < |qs| ==>
               Precedes(Includes(machine), qs[i].source.slug, qs[j].source.slug)
    ensures QuirksFor(catalog, hw, machine, qs)
  {
    hide QuirkFits, Precedes, Before, DistinctSlugs, Includes;
    FitsComeFirst(qs, matched, hw);
    forall i, j | 0 <= i < j < |qs| && QuirkFits(qs[j], hw)
      ensures QuirkFits(qs[i], hw) && Before(catalog.quirks, qs[i], qs[j])
    {
      assert qs[i] == matched[i] && qs[j] == matched[j];
    }
  }

  lemma SelectedQuirks(catalog: Catalog, hw: Hardware, machine: Option<Machine>, p: Quirk -> bool)
    requires DistinctSlugs(catalog.quirks)
    requires forall q :: p(q) <==> QuirkFits(q, hw)
    ensures var d := QuirkMap(machine, Filter(catalog.quirks, p), catalog.quirks);
            QuirksFor(catalog, hw, machine, QuirksOf(d, |d.keys|))
  {
    hide QuirkFits, QuirkMap, QuirksOf, Precedes, InOrderOf, DistinctSlugs, Combines, QuirksFor, Filter;
    var all, matched := catalog.quirks, Filter(catalog.quirks, p);
    var d := QuirkMap(machine, matched, all);
    var qs := QuirksOf(d, |d.keys|);
    FilterExact(all, p);
    FilterKeepsSlugs(all, p);
    FilterInOrder(all, p);
    MapCombines(machine, matched, all);
    CombinedOrder(d, matched, all, Includes(machine));
    forall q ensures q in qs <==> q in all && (q in matched || q.source.slug in Includes(machine)) {
      CombinedElements(d, matched, all, Includes(machine), q);
    }
    OrderedPrefix(qs, matched, catalog, hw, machine);
  }

  /** The hardware selects exactly these quirks, in this order, and then the profile that suits it. */
  lemma SourcesExact(glob: Glob, catalog: Catalog, hw: Hardware) returns (machine: Option<Machine>, qs: seq<Quirk>)
    requires DistinctSlugs(catalog.quirks)
    ensures MachineFor(glob, catalog.machines, hw.dmi, machine) && QuirksFor(catalog, hw, machine, qs)
    ensures SourcesFor(glob, catalog, hw) ==
            Map((q: Quirk) => q.source, qs) + if machine.Some? then [machine.value.source] else []
  {
    hide QuirksFor, MachineFor, QuirkMap, QuirksOf, Quirk.Matches, QuirkFits, DistinctSlugs;
    var p := (q: Quirk) => q.Matches(hw.pci, hw.dmi.chassisType);
    machine := SuggestedMachine(glob, catalog.machines, hw.dmi);
    var d := QuirkMap(machine, Filter(catalog.quirks, p), catalog.quirks);
    qs := QuirksOf(d, |d.keys|);
    SuggestedExact(glob, catalog.machines, hw.dmi);
    forall q ensures p(q) <==> QuirkFits(q, hw) { QuirkMatchesExactly(q, hw); }
    SelectedQuirks(catalog, hw, machine, p);
    assert SourcesFor(glob, catalog, hw) == ConfigSources(machine, qs);
  }

  lemma SuitsOnce(glob: Glob, machines: seq<Machine>, dmi: Dmi, k: nat, l: nat)
    requires Suits(glob, machines, dmi, k) && Suits(glob, machines, dmi, l)
    ensures k == l
  {
    hide SpecificFits, GenericFits;
  }

  lemma TheMachine(glob: Glob, machines: seq<Machine>, dmi: Dmi, machine: Option<Machine>, k: nat)
    requires Suits(glob, machines, dmi, k) && MachineFor(glob, machines, dmi, machine)
    ensures k < |machines| && machine == Some(machines[k])
  {
    hide SpecificFits, GenericFits;
    var l: nat :| Suits(glob, machines, dmi, l) && machines[l] == machine.value;
    SuitsOnce(glob, machines, dmi, k, l);
  }

  /** A file of the profile that suits is the profile's, whatever the quirks have under that name. */
  lemma MachineFileWins(glob: Glob, catalog: Catalog, hw: Hardware, k: nat, c: Category, n: string)
    requires ValidCatalog(catalog) && DistinctSlugs(catalog.quirks) && Suits(glob, catalog.machines, hw.dmi, k)
    requires n in catalog.machines[k].source.files.Get(c).entries
    ensures forall s :: s in SourcesFor(glob, catalog, hw) ==> ValidSource(s)
    ensures var o := ResolvedFiles(SourcesFor(glob, catalog, hw)).Get(c).Get(n);
            && o.Some? && o.value.slug == catalog.machines[k].source.slug
            && Texts.EndsOnce(Texts.GivenText(catalog.machines[k].source, c, n), o.value.content)
  {
    hide Suits, MachineFor, QuirksFor, SourcesFor, ResolvedFiles, ValidSource, ValidCatalog, DistinctSlugs;
    hide Texts.GivenText, Texts.EndsOnce;
    var sources := SourcesFor(glob, catalog, hw);
    var machine, qs := SourcesExact(glob, catalog, hw);
    TheMachine(glob, catalog.machines, hw.dmi, machine, k);
    SelectedAreValid(glob, catalog, hw);
    var last := |sources| - 1;
    assert sources[last] == catalog.machines[k].source;
    assert Texts.LastHas(sources, c, n, last);
    Texts.DesiredTextExact(sources, c, n, last);
  }
}
