/** Which quirks and which machine profile apply to the hardware, and the fingerprint that stands for it. */
module HardwareMatching {
  import opened Text
  import opened Sorting
  import opened Wrappers
  import opened Dicts
  import opened HardwareFiles

  datatype Dmi = Dmi(sysVendor: string, productName: string, boardName: string, chassisType: int)

  datatype Quirk = Quirk(source: Source, pciIds: seq<string>, pciVendor: string, chassisTypes: seq<int>) {

    predicate HasDevice(pci: set<string>) {
      exists i :: 0 <= i < |pciIds| && Lower(pciIds[i]) in pci
    }

    predicate HasVendor(pci: set<string>) {
      exists id :: id in pci && StartsWith(Lower(id), Lower(pciVendor) + ":")
    }

    /** `Quirk.matches`: every stated condition holds, and at least one is stated. */
    predicate Matches(pci: set<string>, chassis: int) {
      && (pciIds != [] || pciVendor != "" || chassisTypes != [])
      && (pciIds != [] ==> HasDevice(pci))
      && (pciVendor != "" ==> HasVendor(pci))
      && (chassisTypes != [] ==> chassis in chassisTypes)
    }
  }

  datatype Machine = Machine(
    source: Source,
    sysVendor: string,
    sysVendorPattern: string,
    productName: string,
    productNamePattern: string,
    chassisTypes: seq<int>,
    quirkIncludes: seq<string>)
  {
    predicate IsGeneric() {
      sysVendor == "" && sysVendorPattern == "" && productName == "" && productNamePattern == ""
    }

    /** `MachineProfile.matches_dmi`. */
    predicate MatchesDmi(glob: Glob, dmi: Dmi) {
      && (sysVendor != "" ==> dmi.sysVendor == sysVendor)
      && (sysVendorPattern != "" ==> glob(dmi.sysVendor, sysVendorPattern))
      && (productName != "" ==> dmi.productName == productName)
      && (productNamePattern != "" ==> glob(dmi.productName, productNamePattern))
      && (chassisTypes != [] ==> dmi.chassisType in chassisTypes)
      && !(IsGeneric() && chassisTypes == [])
    }
  }

  datatype Catalog = Catalog(quirks: seq<Quirk>, machines: seq<Machine>)

  ghost predicate ValidCatalog(catalog: Catalog) {
    && (forall q :: q in catalog.quirks ==> ValidSource(q.source))
    && (forall m :: m in catalog.machines ==> ValidSource(m.source))
  }

  // ---- Choosing a machine profile ----

  function FirstMachine(machines: seq<Machine>, p: Machine -> bool): (r: Option<Machine>)
    ensures r.Some? ==> r.value in machines && p(r.value)
    ensures r.None? ==> forall m :: m in machines ==> !p(m)
  {
    if machines == [] then None
    else if p(machines[0]) then Some(machines[0])
    else
      assert machines == [machines[0]] + machines[1..];
      FirstMachine(machines[1..], p)
  }

  /** The first specific profile that matches, or failing that the first generic one. */
  function SuggestedMachine(glob: Glob, machines: seq<Machine>, dmi: Dmi): Option<Machine> {
    var specific := FirstMachine(machines, (m: Machine) => m.MatchesDmi(glob, dmi) && !m.IsGeneric());
    if specific.Some? then specific
    else FirstMachine(machines, (m: Machine) => m.MatchesDmi(glob, dmi) && m.IsGeneric())
  }

  lemma {:induction false} FirstIsFirstOfFilter(machines: seq<Machine>, p: Machine -> bool)
    ensures FirstMachine(machines, p) == if Filter(machines, p) == [] then None else Some(Filter(machines, p)[0])
  {
    if machines != [] && !p(machines[0]) { FirstIsFirstOfFilter(machines[1..], p); }
  }

  lemma FilterSnoc(machines: seq<Machine>, i: nat, p: Machine -> bool)
    requires i < |machines|
    ensures Filter(machines[..i + 1], p) == Filter(machines[..i], p) + if p(machines[i]) then [machines[i]] else []
  {
    assert machines[..i + 1] == machines[..i] + [machines[i]];
    FilterConcat(machines[..i], [machines[i]], p);
    assert [machines[i]][1..] == [];
  }

  /** `suggest_machine`. */
  method SuggestMachine(glob: Glob, machines: seq<Machine>, dmi: Dmi) returns (r: Option<Machine>)
    ensures r == SuggestedMachine(glob, machines, dmi)
  {
    ghost var isSpecific := (m: Machine) => m.MatchesDmi(glob, dmi) && !m.IsGeneric();
    ghost var isGeneric := (m: Machine) => m.MatchesDmi(glob, dmi) && m.IsGeneric();
    var specific, generic := [], [];
    for i := 0 to |machines|
      invariant specific == Filter(machines[..i], isSpecific)
      invariant generic == Filter(machines[..i], isGeneric)
    {
      FilterSnoc(machines, i, isSpecific);
      FilterSnoc(machines, i, isGeneric);
      if machines[i].MatchesDmi(glob, dmi) {
        if machines[i].IsGeneric() {
          generic := generic + [machines[i]];
        } else {
          specific := specific + [machines[i]];
        }
      }
    }
    assert machines[..|machines|] == machines;
    FirstIsFirstOfFilter(machines, isSpecific);
    FirstIsFirstOfFilter(machines, isGeneric);
    r := if specific != [] then Some(specific[0]) else if generic != [] then Some(generic[0]) else None;
  }

  // ---- Collecting the quirks ----

  function PutQuirks(d: Dict<Quirk>, quirks: seq<Quirk>): (r: Dict<Quirk>)
    ensures d.Valid() ==> r.Valid()
    ensures forall k :: k in r.entries <==> k in d.entries || exists q :: q in quirks && q.source.slug == k
    ensures forall k :: k in r.entries ==> r.entries[k] in quirks || (k in d.entries && r.entries[k] == d.entries[k])
  {
    if quirks == [] then d
    else
      var n := |quirks| - 1;
      assert quirks == quirks[..n] + [quirks[n]];
      PutQuirks(d, quirks[..n]).Put(quirks[n].source.slug, quirks[n])
  }

  /** Adding the quirks a machine includes by slug; unknown slugs and slugs already there are passed over. */
  function PutIncludes(d: Dict<Quirk>, lookup: Dict<Quirk>, includes: seq<string>): (r: Dict<Quirk>)
    ensures d.Valid() ==> r.Valid()
    ensures forall k :: k in r.entries <==> k in d.entries || (k in includes && k in lookup.entries)
    ensures forall k :: k in d.entries ==> k in r.entries && r.entries[k] == d.entries[k]
    ensures forall k :: k in r.entries && k !in d.entries ==> k in lookup.entries && r.entries[k] == lookup.entries[k]
  {
    if includes == [] then d
    else
      var n := |includes| - 1;
      var before := PutIncludes(d, lookup, includes[..n]);
      assert includes == includes[..n] + [includes[n]];
      if includes[n] in lookup.entries && includes[n] !in before.entries
      then before.Put(includes[n], lookup.entries[includes[n]])
      else before
  }

  function QuirkMap(machine: Option<Machine>, matched: seq<Quirk>, all: seq<Quirk>): (r: Dict<Quirk>)
    ensures r.Valid()
  {
    var found := PutQuirks(Empty(), matched);
    if machine.Some? && all != [] then PutIncludes(found, PutQuirks(Empty(), all), machine.value.quirkIncludes)
    else found
  }

  function QuirksOf(d: Dict<Quirk>, n: nat): seq<Quirk>
    requires n <= |d.keys|
  {
    if n == 0 then []
    else QuirksOf(d, n - 1) + if d.keys[n - 1] in d.entries then [d.entries[d.keys[n - 1]]] else []
  }

  /** The sources of the resolved configuration: the quirks, then the machine profile. */
  function ConfigSources(machine: Option<Machine>, quirks: seq<Quirk>): seq<Source> {
    seq(|quirks|, i requires 0 <= i < |quirks| => quirks[i].source)
    + if machine.Some? then [machine.value.source] else []
  }

  method BySlug(quirks: seq<Quirk>) returns (found: Dict<Quirk>)
    ensures found == PutQuirks(Empty(), quirks)
  {
    found := Empty();
    for i := 0 to |quirks|
      invariant found == PutQuirks(Empty(), quirks[..i])
    {
      assert quirks[..i + 1][..i] == quirks[..i];
      found := found.Put(quirks[i].source.slug, quirks[i]);
    }
    assert quirks[..|quirks|] == quirks;
  }

  method AddIncludes(start: Dict<Quirk>, lookup: Dict<Quirk>, includes: seq<string>) returns (found: Dict<Quirk>)
    ensures found == PutIncludes(start, lookup, includes)
  {
    found := start;
    for i := 0 to |includes|
      invariant found == PutIncludes(start, lookup, includes[..i])
    {
      assert includes[..i + 1][..i] == includes[..i];
      if includes[i] in lookup.entries && includes[i] !in found.entries {
        found := found.Put(includes[i], lookup.entries[includes[i]]);
      }
    }
    assert includes[..|includes|] == includes;
  }

  /** `resolve_hardware`: the quirks of the resolved configuration. */
  method ResolveHardware(machine: Option<Machine>, matched: seq<Quirk>, all: seq<Quirk>) returns (quirks: seq<Quirk>)
    ensures var d := QuirkMap(machine, matched, all); quirks == QuirksOf(d, |d.keys|)
  {
    hide PutQuirks, PutIncludes;
    var found := BySlug(matched);
    if machine.Some? && all != [] {
      var lookup := BySlug(all);
      found := AddIncludes(found, lookup, machine.value.quirkIncludes);
    }
    assert found == QuirkMap(machine, matched, all);
    quirks := [];
    for i := 0 to |found.keys|
      invariant quirks == QuirksOf(found, i)
    {
      if found.keys[i] in found.entries {
        quirks := quirks + [found.entries[found.keys[i]]];
      }
    }
  }

  /** A resolved quirk either matched or is named by the machine; each slug occurs once. */
  lemma QuirkMapExact(machine: Option<Machine>, matched: seq<Quirk>, all: seq<Quirk>)
    ensures forall k :: k in QuirkMap(machine, matched, all).keys <==>
              || (exists q :: q in matched && q.source.slug == k)
              || (machine.Some? && k in machine.value.quirkIncludes && exists q :: q in all && q.source.slug == k)
    ensures Distinct(QuirkMap(machine, matched, all).keys)
  {
  }

  lemma {:induction false} QuirksOfExact(d: Dict<Quirk>, n: nat)
    requires d.Valid() && n <= |d.keys|
    ensures forall q :: q in QuirksOf(d, n) <==> exists i :: 0 <= i < n && q == d.entries[d.keys[i]]
  {
    if n > 0 {
      QuirksOfExact(d, n - 1);
      assert d.keys[n - 1] in d.entries;
    }
  }

  // ---- From hardware to files ----

  /** What one boot detects. */
  datatype Hardware = Hardware(pci: set<string>, dmi: Dmi, chwd: string)

  /** The sources that apply to this hardware. */
  function SourcesFor(glob: Glob, catalog: Catalog, hw: Hardware): seq<Source> {
    var matched := Filter(catalog.quirks, (q: Quirk) => q.Matches(hw.pci, hw.dmi.chassisType));
    var machine := SuggestedMachine(glob, catalog.machines, hw.dmi);
    var d := QuirkMap(machine, matched, catalog.quirks);
    ConfigSources(machine, QuirksOf(d, |d.keys|))
  }

  predicate InCatalog(catalog: Catalog, s: Source) {
    (exists i :: 0 <= i < |catalog.quirks| && catalog.quirks[i].source == s)
    || (exists i :: 0 <= i < |catalog.machines| && catalog.machines[i].source == s)
  }

  lemma QuirkMapFromCatalog(machine: Option<Machine>, matched: seq<Quirk>, all: seq<Quirk>)
    requires forall q :: q in matched ==> q in all
    ensures var d := QuirkMap(machine, matched, all); forall k :: k in d.entries ==> d.entries[k] in all
  {
  }

  /** Everything deployed comes from the catalog. */
  lemma SourcesAreInCatalog(glob: Glob, catalog: Catalog, hw: Hardware)
    ensures forall s :: s in SourcesFor(glob, catalog, hw) ==> InCatalog(catalog, s)
  {
    hide Quirk.Matches, QuirkMap;
    var p := (q: Quirk) => q.Matches(hw.pci, hw.dmi.chassisType);
    var matched := Filter(catalog.quirks, p);
    FilterExact(catalog.quirks, p);
    var machine := SuggestedMachine(glob, catalog.machines, hw.dmi);
    QuirkMapFromCatalog(machine, matched, catalog.quirks);
    var d := QuirkMap(machine, matched, catalog.quirks);
    QuirksOfExact(d, |d.keys|);
    var quirks := QuirksOf(d, |d.keys|);
    var sources := SourcesFor(glob, catalog, hw);
    assert sources == ConfigSources(machine, quirks);
    forall s | s in sources ensures InCatalog(catalog, s) {
      var i :| 0 <= i < |sources| && sources[i] == s;
      if i < |quirks| {
        assert quirks[i] in quirks;
        var j :| 0 <= j < |d.keys| && quirks[i] == d.entries[d.keys[j]];
        assert d.keys[j] in d.entries && quirks[i] in catalog.quirks;
      } else {
        assert machine.value in catalog.machines && machine.value.source == s;
      }
    }
  }

  /** So it is valid when the catalog is. */
  lemma SelectedAreValid(glob: Glob, catalog: Catalog, hw: Hardware)
    requires ValidCatalog(catalog)
    ensures forall s :: s in SourcesFor(glob, catalog, hw) ==> ValidSource(s)
  {
    hide SourcesFor, ValidSource;
    SourcesAreInCatalog(glob, catalog, hw);
    forall s | s in SourcesFor(glob, catalog, hw) ensures ValidSource(s) {
      if i :| 0 <= i < |catalog.quirks| && catalog.quirks[i].source == s {
        assert catalog.quirks[i] in catalog.quirks;
      } else {
        var j :| 0 <= j < |catalog.machines| && catalog.machines[j].source == s;
        assert catalog.machines[j] in catalog.machines;
      }
    }
  }

  // ---- The fingerprint ----

  /** What is hashed: the PCI ids in order, the DMI fields that matching reads, and the driver profile. */
  datatype Payload = Payload(pci: seq<string>, sysVendor: string, productName: string, chassisType: int, chwd: string)

  /** SHA-256 of the canonical JSON text, in hexadecimal. */
  type Hash = Payload -> string

  ghost predicate GoodHash(hash: Hash) {
    && (forall p, q :: hash(p) == hash(q) ==> p == q)
    && (forall p :: hash(p) != "")
  }

  function PayloadOf(hw: Hardware): Payload {
    Payload(SortedNames(hw.pci), hw.dmi.sysVendor, hw.dmi.productName, hw.dmi.chassisType, hw.chwd)
  }

  /** The payload is all of the PCI ids, the driver profile and three of the DMI fields, and nothing else. */
  lemma PayloadsEqualExactly(a: Hardware, b: Hardware)
    ensures PayloadOf(a) == PayloadOf(b) <==>
            && a.pci == b.pci && a.chwd == b.chwd
            && a.dmi.sysVendor == b.dmi.sysVendor && a.dmi.productName == b.dmi.productName
            && a.dmi.chassisType == b.dmi.chassisType
  {
    if PayloadOf(a) == PayloadOf(b) {
      assert forall x :: x in a.pci <==> x in SortedNames(a.pci);
      assert forall x :: x in b.pci <==> x in SortedNames(b.pci);
    }
  }

  lemma SuggestionReads(glob: Glob, machines: seq<Machine>, a: Dmi, b: Dmi)
    requires a.sysVendor == b.sysVendor && a.productName == b.productName && a.chassisType == b.chassisType
    ensures SuggestedMachine(glob, machines, a) == SuggestedMachine(glob, machines, b)
  {
    FirstAgrees(machines, (m: Machine) => m.MatchesDmi(glob, a) && !m.IsGeneric(),
                (m: Machine) => m.MatchesDmi(glob, b) && !m.IsGeneric());
    FirstAgrees(machines, (m: Machine) => m.MatchesDmi(glob, a) && m.IsGeneric(),
                (m: Machine) => m.MatchesDmi(glob, b) && m.IsGeneric());
  }

  lemma {:induction false} FirstAgrees(machines: seq<Machine>, p: Machine -> bool, q: Machine -> bool)
    requires forall m :: p(m) == q(m)
    ensures FirstMachine(machines, p) == FirstMachine(machines, q)
  {
    if machines != [] && !p(machines[0]) { FirstAgrees(machines[1..], p, q); }
  }

  /** Everything that quirk and machine matching reads is covered by the fingerprint. */
  lemma FingerprintCoversMatching(glob: Glob, catalog: Catalog, hash: Hash, a: Hardware, b: Hardware)
    requires GoodHash(hash) && hash(PayloadOf(a)) == hash(PayloadOf(b))
    ensures SourcesFor(glob, catalog, a) == SourcesFor(glob, catalog, b)
    ensures a.pci == b.pci && a.chwd == b.chwd
  {
    PayloadsEqualExactly(a, b);
    SuggestionReads(glob, catalog.machines, a.dmi, b.dmi);
    FilterAgrees(catalog.quirks,
                 (q: Quirk) => q.Matches(a.pci, a.dmi.chassisType),
                 (q: Quirk) => q.Matches(b.pci, b.dmi.chassisType));
  }
}
