/** A run that is stopped half-way, and then the old hardware again: the fast path is taken on the wrong files. */
module StaleFastPath {
  import opened Text
  import opened Wrappers
  import opened Dicts
  import opened Sorting
  import opened OwnershipTags
  import opened HardwareFiles
  import opened HardwareMatching
  import opened TargetRoot
  import opened HardwareRescan
  import Laws = ReconcileLaws

  /** A catalog with a single quirk. */
  function OneQuirk(glob: Glob, hash: Hash, quirk: Quirk): Install {
    Install(HEADER, glob, Catalog([quirk], []), hash)
  }

  lemma OneQuirkMap(quirk: Quirk)
    ensures QuirkMap(None, [quirk], [quirk]) == Dict([quirk.source.slug], map[quirk.source.slug := quirk])
    ensures QuirkMap(None, [], [quirk]) == Empty()
  {
    assert [quirk][..|[quirk]| - 1] == [];
    var d := PutQuirks(Empty(), [quirk]);
    assert d == PutQuirks(Empty(), []).Put(quirk.source.slug, quirk);
    assert d.keys == [quirk.source.slug];
  }

  lemma FilterOne(quirk: Quirk, p: Quirk -> bool)
    ensures Filter([quirk], p) == if p(quirk) then [quirk] else []
  {
    assert [quirk][1..] == [];
  }

  lemma QuirksOfOne(slug: string, quirk: Quirk)
    ensures QuirksOf(Dict([slug], map[slug := quirk]), 1) == [quirk]
  {
    assert QuirksOf(Dict([slug], map[slug := quirk]), 0) == [];
  }

  lemma OneQuirkSources(glob: Glob, hash: Hash, quirk: Quirk, hw: Hardware)
    ensures SourcesFor(glob, OneQuirk(glob, hash, quirk).catalog, hw) ==
            if quirk.Matches(hw.pci, hw.dmi.chassisType) then [quirk.source] else []
  {
    FilterOne(quirk, (q: Quirk) => q.Matches(hw.pci, hw.dmi.chassisType));
    OneQuirkMap(quirk);
    QuirksOfOne(quirk.source.slug, quirk);
  }

  /** The files of a single source, and of none. */
  lemma FilesOfOne(source: Source, c: Category, n: string)
    requires ValidSource(source)
    ensures ResolvedFiles([source]).Get(c).Get(n) ==
            if n in source.files.Get(c).entries then Some(OwnedFile(source, c, n)) else None
    ensures ResolvedFiles([]).Get(c).Get(n) == None
  {
    LastSourceWins([source], c, n);
    assert [source][..|[source]| - 1] == [];
    assert LastSource([source], c, n) == if n in source.files.Get(c).entries then Some(source) else None;
  }

  /** The hardware the quirk is for brings file `f` of category `c`, and nothing else; other hardware brings nothing. */
  ghost predicate BringsOne(env: Install, c: Category, f: string, slug: string, quirky: Hardware, plain: Hardware)
    requires ValidInstall(env)
  {
    && (forall d, n :: n in DesiredFor(env, quirky).Get(d).entries <==> d == c && n == f)
    && (f in DesiredFor(env, quirky).Get(c).entries ==> DesiredFor(env, quirky).Get(c).entries[f].slug == slug)
    && (forall d, n :: n !in DesiredFor(env, plain).Get(d).entries)
  }

  lemma OneQuirkFile(glob: Glob, hash: Hash, quirk: Quirk, hw: Hardware, d: Category, n: string)
    requires ValidInstall(OneQuirk(glob, hash, quirk)) && ValidSource(quirk.source)
    ensures DesiredFor(OneQuirk(glob, hash, quirk), hw).Get(d).Get(n) ==
            if quirk.Matches(hw.pci, hw.dmi.chassisType) && n in quirk.source.files.Get(d).entries
            then Some(OwnedFile(quirk.source, d, n)) else None
  {
    hide Quirk.Matches, ResolvedFiles, OwnedFile, SourcesFor;
    OneQuirkSources(glob, hash, quirk, hw);
    FilesOfOne(quirk.source, d, n);
  }

  lemma OneQuirkBringsOne(glob: Glob, hash: Hash, quirk: Quirk, c: Category, f: string, quirky: Hardware,
                          plain: Hardware)
    requires GoodHash(hash) && ValidSource(quirk.source)
    requires forall d, n :: n in quirk.source.files.Get(d).entries <==> d == c && n == f
    requires quirk.Matches(quirky.pci, quirky.dmi.chassisType) && !quirk.Matches(plain.pci, plain.dmi.chassisType)
    ensures ValidInstall(OneQuirk(glob, hash, quirk))
    ensures BringsOne(OneQuirk(glob, hash, quirk), c, f, quirk.source.slug, quirky, plain)
  {
    hide Quirk.Matches, DesiredFor;
    var env := OneQuirk(glob, hash, quirk);
    forall d, n ensures n in DesiredFor(env, quirky).Get(d).entries <==> d == c && n == f {
      OneQuirkFile(glob, hash, quirk, quirky, d, n);
    }
    forall d, n ensures n !in DesiredFor(env, plain).Get(d).entries {
      OneQuirkFile(glob, hash, quirk, plain, d, n);
    }
    OneQuirkFile(glob, hash, quirk, quirky, c, f);
  }

  /** Files with this slug are recognised, whatever they contain. */
  ghost predicate Marks(tagging: Tagging, slug: string) {
    forall content :: Recognisable(tagging, Owned(slug, content))
  }

  /** From an empty root, a complete run for the quirky hardware leaves just the one managed file. */
  lemma AfterFirstRun(env: Install, c: Category, f: string, slug: string, quirky: Hardware, plain: Hardware, dirs: Dirs)
    requires ValidInstall(env) && BringsOne(env, c, f, slug, quirky, plain) && Marks(env.tagging, slug)
    requires dirs == PerCategory(map[], map[], map[])
    ensures var after := Reconciled(env.tagging, dirs, DesiredFor(env, quirky));
            forall d, n :: IsManaged(env.tagging, At(after, d, n)) <==> d == c && n == f
  {
    hide DesiredFor, Reconciled, Newlines;
    var desired := DesiredFor(env, quirky);
    DesiredIsValid(env, quirky);
    forall d, n ensures IsManaged(env.tagging, At(Reconciled(env.tagging, dirs, desired), d, n)) <==> d == c && n == f {
      Laws.ReconciledAt(env.tagging, dirs, desired, d, n);
    }
  }

  /** The first operation of the run for the plain hardware removes that file. */
  lemma FirstOperation(env: Install, c: Category, f: string, slug: string, quirky: Hardware, plain: Hardware,
                       dirs: Dirs)
    requires ValidInstall(env) && BringsOne(env, c, f, slug, quirky, plain)
    requires forall d, n :: IsManaged(env.tagging, At(dirs, d, n)) <==> d == c && n == f
    ensures var ops := AllOps(env.tagging, dirs, DesiredFor(env, plain));
            ops != [] && At(ApplyAll(dirs, ops[..1]), c, f) == None
  {
    hide DesiredFor, AllOps, Newlines;
    var desired := DesiredFor(env, plain);
    DesiredIsValid(env, plain);
    var ops := AllOps(env.tagging, dirs, desired);
    OpsExact(env.tagging, dirs, desired);
    assert Due(env.tagging, dirs, desired, Unlink(c, f));
    assert Due(env.tagging, dirs, desired, ops[0]) by { assert ops[0] in ops; }
    assert ops[0] == Unlink(c, f);
    assert ops[..1] == [ops[0]] && [ops[0]][..0] == [];
    ApplyAt(dirs, ops[0], c, f);
  }

  lemma MissingFileIsNotSettled(env: Install, c: Category, f: string, slug: string, quirky: Hardware, plain: Hardware,
                                dirs: Dirs)
    requires ValidInstall(env) && BringsOne(env, c, f, slug, quirky, plain) && At(dirs, c, f) == None
    ensures !Settled(env, dirs, quirky)
  {
    hide DesiredFor;
    var desired := DesiredFor(env, quirky);
    DesiredIsValid(env, quirky);
    Laws.ReconciledAt(env.tagging, dirs, desired, c, f);
  }

  /** The boots: the quirky hardware to the end, the plain hardware stopped after one change, the quirky one again. */
  lemma ThreeBoots(env: Install, c: Category, f: string, slug: string, quirky: Hardware, plain: Hardware, enough: nat)
    requires ValidInstall(env) && BringsOne(env, c, f, slug, quirky, plain) && Marks(env.tagging, slug)
    requires PayloadOf(quirky) != PayloadOf(plain)
    requires enough == |AllOps(env.tagging, PerCategory(map[], map[], map[]), DesiredFor(env, quirky))| + 2
    ensures var start := System(PerCategory(map[], map[], map[]), NO_FILES, "");
            var first := AfterBoot(env, start, Boot(quirky, false, false, true, None, enough));
            var second := AfterBoot(env, first, Boot(plain, false, false, true, None, 1));
            && TakesFastPath(env, second.fingerprint, Boot(quirky, false, false, true, None, enough))
            && !Settled(env, second.dirs, quirky)
  {
    hide DesiredFor, PayloadOf, AllOps, ManifestOf;
    var none: Dirs := PerCategory(map[], map[], map[]);
    var start := System(none, NO_FILES, "");
    var first := AfterBoot(env, start, Boot(quirky, false, false, true, None, enough));
    AfterFirstRun(env, c, f, slug, quirky, plain, none);
    FirstOperation(env, c, f, slug, quirky, plain, first.dirs);
    var ops := AllOps(env.tagging, first.dirs, DesiredFor(env, plain));
    var second := AfterBoot(env, first, Boot(plain, false, false, true, None, 1));
    assert |ops| == 1 ==> ops[..1] == ops;
    assert At(second.dirs, c, f) == None;
    MissingFileIsNotSettled(env, c, f, slug, quirky, plain, second.dirs);
  }

  const ONE_SOURCE := Source("q", PerCategory(Dict(["f"], map["f" := "x"]), Empty(), Empty()), None)
  const DEVICE_QUIRK := Quirk(ONE_SOURCE, ["a"], "", [])
  const WITH_DEVICE := Hardware({"a"}, Dmi("", "", "", 0), "")
  const WITHOUT_DEVICE := Hardware({}, Dmi("", "", "", 0), "")

  lemma OneLetter(s: string)
    requires |s| == 1 && s[0] == 'q'
    ensures Recognised(s)
  {
    PrefixIsGood();
    assert |MANAGED_HEADER_PREFIX| + |s| <= HEADER_READ;
    FirstLineOf(s, "");
    assert !IsSpace(s[0]);
    hide IsSpace;
    assert LStrip(s, IsSpace) == s && RStrip(s, IsSpace) == s;
  }

  lemma SlugIsRecognised()
    ensures Recognised("q")
  {
    OneLetter("q");
  }

  /** A system, and three boots of it, after which the fast path is taken on files that do not fit the hardware. */
  lemma InterruptionFoolsTheFastPath(glob: Glob, hash: Hash)
    requires GoodHash(hash)
    ensures exists env, st, stopped, again ::
              && ValidInstall(env) && Trustworthy(env, st)
              && TakesFastPath(env, AfterBoot(env, st, stopped).fingerprint, again)
              && !Settled(env, AfterBoot(env, st, stopped).dirs, again.hw)
  {
    assert Lower("a") == "a";
    assert DEVICE_QUIRK.Matches(WITH_DEVICE.pci, 0) by { assert Lower(DEVICE_QUIRK.pciIds[0]) in WITH_DEVICE.pci; }
    OneQuirkBringsOne(glob, hash, DEVICE_QUIRK, Modprobe, "f", WITH_DEVICE, WITHOUT_DEVICE);
    SlugIsRecognised();
    forall content ensures Recognisable(HEADER, Owned("q", content)) { HeaderRecognisesExactly(Owned("q", content)); }
    Witness(OneQuirk(glob, hash, DEVICE_QUIRK));
  }

  lemma Witness(env: Install)
    requires ValidInstall(env) && BringsOne(env, Modprobe, "f", "q", WITH_DEVICE, WITHOUT_DEVICE)
    requires Marks(env.tagging, "q")
    ensures exists env, st, stopped, again ::
              && ValidInstall(env) && Trustworthy(env, st)
              && TakesFastPath(env, AfterBoot(env, st, stopped).fingerprint, again)
              && !Settled(env, AfterBoot(env, st, stopped).dirs, again.hw)
  {
    hide DesiredFor, AllOps, ManifestOf;
    var none: Dirs := PerCategory(map[], map[], map[]);
    var start := System(none, NO_FILES, "");
    var enough := |AllOps(env.tagging, none, DesiredFor(env, WITH_DEVICE))| + 2;
    var again := Boot(WITH_DEVICE, false, false, true, None, enough);
    assert "a" in SortedNames(WITH_DEVICE.pci) && "a" !in SortedNames(WITHOUT_DEVICE.pci);
    ThreeBoots(env, Modprobe, "f", "q", WITH_DEVICE, WITHOUT_DEVICE, enough);
    CompleteBootIsTrustworthy(env, start, again);
    var st, stopped := AfterBoot(env, start, again), Boot(WITHOUT_DEVICE, false, false, true, None, 1);
    assert TakesFastPath(env, AfterBoot(env, st, stopped).fingerprint, again);
  }
}
