/** Which disks a descriptor selects, in terms of its words and of what is known about the disk. */
module DescriptorMeaning {
  import opened Text
  import opened Sorting
  import opened Wrappers
  import opened Disk
  import opened DiskDescriptor
  import opened DescriptorLaws

  // ---- What the words ask for ----

  /** The transport word at `i` is the last one. */
  ghost predicate LastTransport(ts: seq<Token>, i: nat) {
    i < |ts| && ts[i].Transport? && forall j :: i < j < |ts| ==> !ts[j].Transport?
  }

  /** A word for spinning disks. */
  predicate AsksSpinning(ts: seq<Token>) {
    Technology(true) in ts
  }

  ghost predicate NvmeFirst(ts: seq<Token>, i: nat) {
    i < |ts| && ts[i].Transport? && ts[i].nvme && forall j :: 0 <= j < i ==> !ts[j].Technology?
  }

  /** A word for solid-state disks, or `nvme` with no such word before it. */
  ghost predicate AsksSolid(ts: seq<Token>) {
    Technology(false) in ts || exists i: nat :: NvmeFirst(ts, i)
  }

  /** Ten per cent either way of `bytes`, rounded down. */
  predicate AboutSize(bytes: nat, d: BlockDevice) {
    d.sizeBytes > 0 && 9 * bytes < 10 * d.sizeBytes + 10 && 10 * d.sizeBytes <= 11 * bytes
  }

  predicate AsksVendor(ts: seq<Token>, name: string) {
    exists t :: t in ts && t.Vendor? && name in t.substrings
  }

  predicate HasText(attributes: seq<string>, text: string) {
    exists a :: a in attributes && Contains(Normalise(a), text)
  }

  /** The vendor's name occurs in the vendor, the model or a by-id link; one of two words may span two of them. */
  predicate VendorOccurs(name: string, d: BlockDevice) {
    if ' ' in name then Contains(VendorCorpus(d), name) else HasText([d.vendor, d.model] + d.byIdLinks, name)
  }

  /** The word occurs in one of the disk's attributes; a pattern is compared with all of them, joined. */
  predicate WordOccurs(glob: Glob, w: string, d: BlockDevice) {
    if HasGlob(w) then glob(SearchCorpus(d), "*" + Normalise(w) + "*") || glob(SearchCorpus(d), Normalise(w))
    else HasText([d.model, d.vendor, d.serial, d.wwn, d.path, d.name] + d.byIdLinks, Lower(w))
  }

  /** What a text descriptor with these words demands of a disk. */
  ghost predicate TextAccepts(glob: Glob, ts: seq<Token>, d: BlockDevice) {
    && !d.removable
    && (forall i: nat :: LastTransport(ts, i) ==> Normalise(d.transport) == ts[i].canonical)
    && (AsksSpinning(ts) ==> d.rotational && d.transport != "nvme")
    && (AsksSolid(ts) ==> !d.rotational || d.transport == "nvme")
    && (forall t :: t in ts && t.Size? ==> AboutSize(t.bytes, d))
    && ((exists name :: AsksVendor(ts, name)) ==> exists name :: AsksVendor(ts, name) && VendorOccurs(name, d))
    && (forall t :: t in ts && t.Free? ==> WordOccurs(glob, t.text, d))
  }

  // ---- The criteria that the words leave ----

  ghost predicate ReadsTransport(c: DiskCriteria, ts: seq<Token>) {
    && (c.transport.None? <==> forall t :: t in ts ==> !t.Transport?)
    && (forall i: nat :: LastTransport(ts, i) ==> c.transport == Some(ts[i].canonical))
  }

  ghost predicate ReadsTechnology(c: DiskCriteria, ts: seq<Token>) {
    && (c.rotational == Some(true) <==> AsksSpinning(ts))
    && (c.rotational == Some(false) <==> AsksSolid(ts))
  }

  ghost predicate ReadsNames(c: DiskCriteria, ts: seq<Token>) {
    && (forall x :: x in c.vendorSubstrings <==> AsksVendor(ts, x))
    && (forall x :: x in c.freeTokens <==> Free(x) in ts)
  }

  /** The criteria after these words, field by field. */
  ghost predicate Reads(c: DiskCriteria, ts: seq<Token>) {
    && c.removable.None? && c.explicitDevice.None?
    && ReadsTransport(c, ts) && ReadsTechnology(c, ts) && ReadsNames(c, ts)
  }

  lemma InSnoc(ts: seq<Token>, t: Token)
    ensures forall x :: x in ts + [t] <==> x in ts || x == t
  {
  }

  lemma TransportSnoc(ts: seq<Token>, t: Token, i: nat)
    ensures LastTransport(ts + [t], i) <==> if t.Transport? then i == |ts| else LastTransport(ts, i)
  {
    var s := ts + [t];
    assert s[|ts|] == t;
    assert forall j :: 0 <= j < |ts| ==> s[j] == ts[j];
  }

  lemma SolidSnoc(ts: seq<Token>, t: Token)
    ensures AsksSolid(ts + [t]) <==>
            || AsksSolid(ts) || t == Technology(false)
            || (t.Transport? && t.nvme && forall x :: x in ts ==> !x.Technology?)
  {
    var s := ts + [t];
    InSnoc(ts, t);
    assert forall j :: 0 <= j < |ts| ==> s[j] == ts[j];
    if i: nat :| NvmeFirst(ts, i) { assert NvmeFirst(s, i); }
    if i: nat :| NvmeFirst(s, i) {
      if i < |ts| { assert NvmeFirst(ts, i); }
    }
    if t.Transport? && t.nvme && forall x :: x in ts ==> !x.Technology? { assert NvmeFirst(s, |ts|); }
  }

  lemma VendorSnoc(ts: seq<Token>, t: Token, name: string)
    ensures AsksVendor(ts + [t], name) <==> AsksVendor(ts, name) || (t.Vendor? && name in t.substrings)
  {
    InSnoc(ts, t);
  }

  lemma TransportRead(c: DiskCriteria, ts: seq<Token>, t: Token)
    requires ReadsTransport(c, ts) && AddToken(c, t).Some?
    ensures ReadsTransport(AddToken(c, t).value, ts + [t])
  {
    hide LastTransport, Narrow;
    InSnoc(ts, t);
    NarrowKeeps(c, t);
    forall i: nat { TransportSnoc(ts, t, i); }
    if t.Transport? {
      assert (ts + [t])[|ts|] == t;
    } else {
      forall i: nat | LastTransport(ts, i) ensures i < |ts| && (ts + [t])[i] == ts[i] { LastIsInside(ts, i); }
    }
  }

  lemma LastIsInside(ts: seq<Token>, i: nat)
    requires LastTransport(ts, i)
    ensures i < |ts|
  {
  }

  lemma TechnologyRead(c: DiskCriteria, ts: seq<Token>, t: Token)
    requires ReadsTechnology(c, ts) && AddToken(c, t).Some?
    ensures ReadsTechnology(AddToken(c, t).value, ts + [t])
  {
    hide AsksSolid, Narrow;
    InSnoc(ts, t);
    NarrowKeeps(c, t);
    SolidSnoc(ts, t);
    TechnologyKnown(c, ts);
    if t.Technology? {
      assert t == Technology(t.rotational);
    } else {
      assert t != Technology(true) && t != Technology(false);
      assert Technology(true) in ts + [t] <==> Technology(true) in ts;
      assert c.rotational in [None, Some(true), Some(false)] by { SomeFlag(c.rotational); }
      if t.Transport? && t.nvme {
        if c.rotational == Some(true) {
          assert exists x :: x in ts && x.Technology?;
        } else if c.rotational == None {
          assert AddToken(c, t).value.rotational == Some(false);
        }
      } else {
        assert AddToken(c, t).value.rotational == c.rotational;
      }
    }
  }

  lemma SomeFlag(flag: Option<bool>)
    ensures flag in [None, Some(true), Some(false)]
  {
    if flag.Some? && flag.value { assert flag == Some(true); }
    if flag.Some? && !flag.value { assert flag == Some(false); }
  }

  /** A technology word has been read only if the flag is set. */
  lemma TechnologyKnown(c: DiskCriteria, ts: seq<Token>)
    requires ReadsTechnology(c, ts)
    ensures c.rotational.None? ==> forall x :: x in ts ==> !x.Technology?
    ensures c.rotational == Some(true) ==> exists x :: x in ts && x.Technology?
  {
    assert Technology(false) in ts ==> AsksSolid(ts);
    assert forall x: Token :: x.Technology? ==> x == Technology(true) || x == Technology(false);
  }

  lemma NamesRead(c: DiskCriteria, ts: seq<Token>, t: Token)
    requires ReadsNames(c, ts) && AddToken(c, t).Some?
    ensures ReadsNames(AddToken(c, t).value, ts + [t])
  {
    hide AsksVendor, Narrow;
    InSnoc(ts, t);
    NarrowKeeps(c, t);
    forall name { VendorSnoc(ts, t, name); }
  }

  lemma ReadsSnoc(c: DiskCriteria, ts: seq<Token>, t: Token)
    requires Reads(c, ts) && AddToken(c, t).Some?
    ensures Reads(AddToken(c, t).value, ts + [t])
  {
    hide ReadsTransport, ReadsTechnology, ReadsNames, Narrow;
    NarrowKeeps(c, t);
    TransportRead(c, ts, t);
    TechnologyRead(c, ts, t);
    NamesRead(c, ts, t);
  }

  lemma NarrowKeeps(c: DiskCriteria, t: Token)
    ensures t.Size? ==> var d := Narrow(c, t.bytes); d == c.(sizeMin := d.sizeMin, sizeMax := d.sizeMax)
  {
  }

  lemma {:induction false} CriteriaRead(ts: seq<Token>)
    requires AddTokens(NO_CRITERIA, ts).Some?
    ensures Reads(AddTokens(NO_CRITERIA, ts).value, ts)
    decreases |ts|
  {
    hide Reads, AddToken;
    if ts == [] {
      NothingRead();
    } else {
      var n := |ts| - 1;
      assert ts == ts[..n] + [ts[n]];
      AddTokensConcat(NO_CRITERIA, ts[..n], [ts[n]]);
      var before := AddTokens(NO_CRITERIA, ts[..n]).value;
      ReadFirstStep(before, ts[n], []);
      assert [ts[n]] + [] == [ts[n]];
      CriteriaRead(ts[..n]);
      ReadsSnoc(before, ts[..n], ts[n]);
    }
  }

  lemma NothingRead()
    ensures AddTokens(NO_CRITERIA, []) == Some(NO_CRITERIA) && Reads(NO_CRITERIA, [])
  {
  }

  // ---- Sizes ----

  ghost predicate AboutAll(ts: seq<Token>, d: BlockDevice) {
    forall t :: t in ts && t.Size? ==> AboutSize(t.bytes, d)
  }

  /** The bounds after these words admit exactly the disks that are about every size. */
  ghost predicate SizesRead(c: DiskCriteria, ts: seq<Token>) {
    && Bounded(c)
    && (c.sizeMin.Some? <==> exists t :: t in ts && t.Size?)
    && forall d :: SizeAccepts(c, d) <==> AboutAll(ts, d)
  }

  lemma WindowIsAbout(n: nat, d: BlockDevice)
    ensures AboutSize(n, d) <==> d.sizeBytes > 0 && SizeWindow(n).0 <= d.sizeBytes <= SizeWindow(n).1
  {
  }

  lemma NarrowAccepts(c: DiskCriteria, n: nat, d: BlockDevice)
    requires Bounded(c) && n > 0
    ensures SizeAccepts(Narrow(c, n), d) <==> SizeAccepts(c, d) && AboutSize(n, d)
    ensures Bounded(Narrow(c, n)) && Narrow(c, n).sizeMin.Some?
  {
    NarrowBounded(c, n);
    WindowIsAbout(n, d);
  }

  lemma AboutSnoc(ts: seq<Token>, t: Token, d: BlockDevice)
    ensures AboutAll(ts + [t], d) <==> AboutAll(ts, d) && (t.Size? ==> AboutSize(t.bytes, d))
  {
    hide AboutSize;
    InSnoc(ts, t);
  }

  lemma SizesSnoc(c: DiskCriteria, ts: seq<Token>, t: Token)
    requires SizesRead(c, ts) && AddToken(c, t).Some? && (t.Size? ==> t.bytes > 0)
    ensures SizesRead(AddToken(c, t).value, ts + [t])
  {
    hide AboutSize, Narrow, AboutAll, Bounded, SizeAccepts;
    InSnoc(ts, t);
    var next := AddToken(c, t).value;
    forall d ensures SizeAccepts(next, d) <==> AboutAll(ts + [t], d) {
      AboutSnoc(ts, t, d);
      SizeStep(c, t, d);
    }
    SizeStepBounds(c, t);
  }

  lemma SizeStep(c: DiskCriteria, t: Token, d: BlockDevice)
    requires Bounded(c) && AddToken(c, t).Some? && (t.Size? ==> t.bytes > 0)
    ensures SizeAccepts(AddToken(c, t).value, d) <==> SizeAccepts(c, d) && (t.Size? ==> AboutSize(t.bytes, d))
  {
    hide AboutSize, Narrow;
    if t.Size? { NarrowAccepts(c, t.bytes, d); }
  }

  lemma SizeStepBounds(c: DiskCriteria, t: Token)
    requires Bounded(c) && AddToken(c, t).Some? && (t.Size? ==> t.bytes > 0)
    ensures Bounded(AddToken(c, t).value)
    ensures AddToken(c, t).value.sizeMin.Some? <==> c.sizeMin.Some? || t.Size?
  {
    if t.Size? { NarrowBounded(c, t.bytes); }
  }

  lemma {:induction false} SizesAreRead(ts: seq<Token>)
    requires SizesPositive(ts) && AddTokens(NO_CRITERIA, ts).Some?
    ensures SizesRead(AddTokens(NO_CRITERIA, ts).value, ts)
    decreases |ts|
  {
    hide SizesRead, AddToken;
    if ts == [] {
      NoSizesRead();
    } else {
      var n := |ts| - 1;
      assert ts == ts[..n] + [ts[n]] && ts[n] in ts;
      AddTokensConcat(NO_CRITERIA, ts[..n], [ts[n]]);
      var before := AddTokens(NO_CRITERIA, ts[..n]).value;
      ReadFirstStep(before, ts[n], []);
      assert [ts[n]] + [] == [ts[n]];
      SizesAreRead(ts[..n]);
      SizesSnoc(before, ts[..n], ts[n]);
    }
  }

  lemma NoSizesRead()
    ensures AddTokens(NO_CRITERIA, []) == Some(NO_CRITERIA) && SizesRead(NO_CRITERIA, [])
  {
  }

  // ---- Words in attributes ----

  lemma HasTextInMap(attributes: seq<string>, text: string)
    ensures HasText(attributes, text) <==> exists p :: p in Map(Normalise, attributes) && Contains(p, text)
  {
    hide Contains, Normalise;
    MapElements(Normalise, attributes);
  }

  /** A name without a space occurs in the joined vendor text exactly if it does in one of its parts. */
  lemma VendorInOne(name: string, d: BlockDevice)
    requires name != "" && ' ' !in name
    ensures Contains(VendorCorpus(d), name) <==> VendorOccurs(name, d)
  {
    hide Contains, Normalise, Join;
    var v, m, links := Normalise(d.vendor), Normalise(d.model), Join(" ", Map(Normalise, d.byIdLinks));
    WordInJoin(Map(Normalise, d.byIdLinks), name);
    HasTextInMap(d.byIdLinks, name);
    SpaceJoined(v, m, name);
    SpaceJoined(v + " " + m, links, name);
    var all := [d.vendor, d.model] + d.byIdLinks;
    assert forall a :: a in all <==> a == d.vendor || a == d.model || a in d.byIdLinks;
  }

  lemma SpaceJoined(a: string, b: string, w: string)
    requires ' ' !in w
    ensures Contains(a + " " + b, w) <==> Contains(a, w) || Contains(b, w)
  {
    hide Contains;
    if Contains(a + " " + b, w) { WordInOne(a, b, w); }
    if Contains(a, w) || Contains(b, w) { WordInJoined(a, b, w); }
  }

  lemma NamesAreTexts(word: string)
    ensures VendorOf(word).Some? ==> forall name :: name in VendorOf(word).value ==> name != ""
  {
    if VendorOf(word).Some? {
      assert word == "" ==> VendorOf(word).None?;
    }
  }

  lemma VendorNames(t: Token, word: string, name: string)
    requires t == Classify(word) && t.Vendor? && name in t.substrings
    ensures name != ""
  {
    hide ParseSizeBytes, Lower, VendorOf, TransportOf, TechnologyOf;
    NamesAreTexts(Lower(word));
  }

  lemma WordGlob(w: string)
    requires Word(w)
    ensures HasGlob(Normalise(w)) <==> HasGlob(w)
    ensures Normalise(w) == Lower(w)
  {
    hide Strip;
    var l := Lower(w);
    forall i | 0 <= i < |l| ensures !IsSpace(l[i]) && (l[i] in ['*', '?', '['] <==> w[i] in ['*', '?', '[']) {
      LoweredChar(w[i]);
    }
    StripsNothing(l);
    GlobCharacters(w);
    GlobCharacters(l);
  }

  lemma GlobCharacters(s: string)
    ensures HasGlob(s) <==> exists i :: 0 <= i < |s| && s[i] in ['*', '?', '[']
  {
  }

  lemma WordOccursExactly(glob: Glob, w: string, d: BlockDevice)
    requires Word(w)
    ensures MatchesFreeToken(glob, w, SearchCorpus(d)) <==> WordOccurs(glob, w, d)
  {
    hide SearchCorpus, Contains, Normalise, HasGlob, Lower;
    WordGlob(w);
    if !HasGlob(w) {
      FreeTokenMatchesOneAttribute(glob, w, d);
      assert Attributes(d) == [d.model, d.vendor, d.serial, d.wwn, d.path, d.name] + d.byIdLinks;
    }
  }

  // ---- Words of a text ----

  lemma FirstIsWord(r: string)
    requires r != "" && !IsSpace(r[0])
    ensures Word(r[..Until(r, IsSpace)]) && Until(r, IsSpace) > 0
  {
    var n := Until(r, IsSpace);
    hide Until, IsSpace;
    assert forall i :: 0 <= i < n ==> r[..n][i] == r[i];
  }

  lemma SplitFirst(s: string) returns (r: string)
    ensures r == LStrip(s, IsSpace) && |r| <= |s|
    ensures Split(s) == if r == "" then [] else [r[..Until(r, IsSpace)]] + Split(r[Until(r, IsSpace)..])
    ensures r == "" || !IsSpace(r[0])
  {
    r := LStrip(s, IsSpace);
    hide LStrip, Until, IsSpace;
  }

  lemma {:induction false} SplitGivesWords(s: string)
    ensures forall w :: w in Split(s) ==> Word(w)
    decreases |s|
  {
    hide Split, Word, IsSpace, LStrip;
    var r := SplitFirst(s);
    if r != "" {
      FirstIsWord(r);
      SplitGivesWords(r[Until(r, IsSpace)..]);
    }
  }

  lemma TokensOfWords(raw: string, t: Token)
    requires t in Tokens(raw)
    ensures exists w :: Word(w) && t == Classify(w)
  {
    hide Classify, Split, Word;
    SplitGivesWords(raw);
    MapElements(Classify, Split(raw));
  }

  lemma FreeIsWord(raw: string, w: string)
    requires Free(w) in Tokens(raw)
    ensures Word(w)
  {
    hide Split, ParseSizeBytes, TransportOf, TechnologyOf, VendorOf, Word;
    TokensOfWords(raw, Free(w));
  }

  lemma VendorNameIsText(raw: string, name: string)
    requires AsksVendor(Tokens(raw), name)
    ensures name != ""
  {
    hide Split, Classify, Word;
    var t :| t in Tokens(raw) && t.Vendor? && name in t.substrings;
    TokensOfWords(raw, t);
    var w :| Word(w) && t == Classify(w);
    VendorNames(t, w, name);
  }

  lemma VendorsAgree(raw: string, c: DiskCriteria, d: BlockDevice)
    requires Reads(c, Tokens(raw))
    ensures VendorAccepts(c, d) <==>
            ((exists name :: AsksVendor(Tokens(raw), name)) ==>
               exists name :: AsksVendor(Tokens(raw), name) && VendorOccurs(name, d))
  {
    hide AsksVendor, VendorCorpus, Contains, HasText, Tokens;
    forall name | AsksVendor(Tokens(raw), name) ensures Contains(VendorCorpus(d), name) <==> VendorOccurs(name, d) {
      VendorNameIsText(raw, name);
      if ' ' !in name { VendorInOne(name, d); }
    }
    if c.vendorSubstrings != [] { assert c.vendorSubstrings[0] in c.vendorSubstrings; }
  }

  lemma FreeWordsAgree(glob: Glob, raw: string, c: DiskCriteria, d: BlockDevice)
    requires Reads(c, Tokens(raw))
    ensures FreeTokensAccept(glob, c, d) <==> forall t :: t in Tokens(raw) && t.Free? ==> WordOccurs(glob, t.text, d)
  {
    hide Tokens, MatchesFreeToken, WordOccurs, SearchCorpus;
    forall w | w in c.freeTokens ensures MatchesFreeToken(glob, w, SearchCorpus(d)) <==> WordOccurs(glob, w, d) {
      FreeIsWord(raw, w);
      WordOccursExactly(glob, w, d);
    }
    forall t | t in Tokens(raw) && t.Free? ensures t.text in c.freeTokens { assert t == Free(t.text); }
  }

  lemma TransportAgrees(ts: seq<Token>, c: DiskCriteria, d: BlockDevice)
    requires Reads(c, ts)
    ensures (c.transport.Some? ==> Normalise(d.transport) == c.transport.value) <==>
            forall i: nat :: LastTransport(ts, i) ==> Normalise(d.transport) == ts[i].canonical
  {
    hide Normalise;
    if c.transport.Some? {
      var t :| t in ts && t.Transport?;
      var i :| 0 <= i < |ts| && ts[i] == t;
      var k := LastTransportFrom(ts, i);
    }
  }

  lemma {:induction false} LastTransportFrom(ts: seq<Token>, i: nat) returns (k: nat)
    requires i < |ts| && ts[i].Transport?
    ensures LastTransport(ts, k)
    decreases |ts| - i
  {
    if j :| i < j < |ts| && ts[j].Transport? {
      k := LastTransportFrom(ts, j);
    } else {
      k := i;
    }
  }

  lemma FreeInCriteria(c: DiskCriteria, ts: seq<Token>)
    requires ReadsNames(c, ts)
    ensures forall t :: t in ts && t.Free? ==> t.text in c.freeTokens
  {
    forall t | t in ts && t.Free? ensures t.text in c.freeTokens { assert t == Free(t.text); }
  }

  /** Nothing asked for is nothing demanded. */
  lemma EmptyAsksNothing(raw: string, c: DiskCriteria)
    requires Reads(c, Tokens(raw)) && SizesRead(c, Tokens(raw)) && c.IsEmpty()
    ensures !AsksSpinning(Tokens(raw)) && !AsksSolid(Tokens(raw))
    ensures forall t :: t in Tokens(raw) ==> !t.Size? && !t.Transport? && !t.Free?
  {
    hide Tokens, AsksSolid;
    FreeInCriteria(c, Tokens(raw));
  }

  /**
   * A text descriptor that parses and names no device selects a disk exactly if the disk meets each of its words:
   * the last transport, the technology, every size within ten per cent, one of the vendors, and every other word.
   */
  lemma TextSelectsExactly(glob: Glob, s: string, d: BlockDevice)
    requires ParseString(s).Some? && !StartsWith(Strip(s), "/dev/") && SizesPositive(Tokens(Strip(s)))
    ensures Selected(glob, ParseString(s).value, d) <==> TextAccepts(glob, Tokens(Strip(s)), d)
  {
    var raw := Strip(s);
    TextIsTokens(s);
    var c := ParseString(s).value;
    hide ParseString, Strip, Tokens, AddTokens;
    CriteriaRead(Tokens(raw));
    SizesAreRead(Tokens(raw));
    CriteriaSelect(glob, raw, c, d);
  }

  lemma TextIsTokens(s: string)
    requires !StartsWith(Strip(s), "/dev/")
    ensures ParseString(s) == AddTokens(NO_CRITERIA, Tokens(Strip(s)))
  {
    hide StartsWith;
    var raw := Strip(s);
    if raw == "" { assert Split(raw) == [] && Tokens(raw) == []; }
  }

  lemma TechnologyAgrees(ts: seq<Token>, c: DiskCriteria, d: BlockDevice)
    requires ReadsTechnology(c, ts)
    ensures (c.rotational.Some? ==> d.IsSsd() == !c.rotational.value) <==>
            && (AsksSpinning(ts) ==> d.rotational && d.transport != "nvme")
            && (AsksSolid(ts) ==> !d.rotational || d.transport == "nvme")
  {
    hide AsksSpinning, AsksSolid;
  }

  lemma CriteriaSelect(glob: Glob, raw: string, c: DiskCriteria, d: BlockDevice)
    requires Reads(c, Tokens(raw)) && SizesRead(c, Tokens(raw))
    ensures Selected(glob, c, d) <==> TextAccepts(glob, Tokens(raw), d)
  {
    hide Tokens, VendorAccepts, FreeTokensAccept, SizeAccepts, Normalise, LastTransport, AsksSolid, AsksVendor;
    hide VendorOccurs, AboutSize, AsksSpinning, WordOccurs, BlockDevice.IsSsd;
    VendorsAgree(raw, c, d);
    FreeWordsAgree(glob, raw, c, d);
    TransportAgrees(Tokens(raw), c, d);
    TechnologyAgrees(Tokens(raw), c, d);
    assert SizeAccepts(c, d) <==> AboutAll(Tokens(raw), d);
    hide Reads, ReadsTransport, ReadsTechnology, ReadsNames;
    if c.IsEmpty() { EmptyAsksNothing(raw, c); }
  }

  // ---- Size words ----

  /** The decimal units of size words. */
  const UNITS: map<char, nat> := map[
    'k' := 1_000, 'm' := 1_000_000, 'g' := 1_000_000_000, 't' := 1_000_000_000_000, 'p' := 1_000_000_000_000_000]

  predicate UnitSuffix(s: string) {
    s == "" || s == "i" || s == "b" || s == "ib"
  }

  lemma DigitsOfAppended(s: string, c: char)
    requires Digits(s + [c])
    ensures Digits(s) && DigitsValue(s + [c]) == 10 * DigitsValue(s) + (c as int - '0' as int)
  {
    var t := s + [c];
    assert t[..|t| - 1] == s && t[|t| - 1] == c;
    assert forall i :: 0 <= i < |s| ==> s[i] == t[i];
  }

  lemma DecimalUnfolds(n: nat)
    ensures n < 10 ==> Decimal(n) == "" + [Digit(n)]
    ensures n >= 10 ==> Decimal(n) == Decimal(n / 10) + [Digit(n % 10)]
  {
  }

  lemma {:induction false} DecimalValue(n: nat)
    ensures Digits(Decimal(n)) && DigitsValue(Decimal(n)) == n
  {
    hide Decimal, DigitsValue;
    DecimalUnfolds(n);
    var s := Decimal(n);
    assert forall i :: 0 <= i < |s| ==> s[i] in s;
    if n < 10 {
      DigitsOfAppended("", Digit(n));
      NoDigits();
    } else {
      DecimalValue(n / 10);
      DigitsOfAppended(Decimal(n / 10), Digit(n % 10));
    }
  }

  lemma NoDigits()
    ensures DigitsValue("") == 0
  {
  }

  lemma DigitsJoined(x: string, y: string)
    requires Digits(x) && Digits(y)
    ensures Digits(x + y)
  {
    assert forall i :: 0 <= i < |x + y| ==> (x + y)[i] == if i < |x| then x[i] else y[i - |x|];
  }

  lemma {:induction false} ValueOfJoined(x: string, y: string)
    requires Digits(x) && Digits(y)
    ensures Digits(x + y) && DigitsValue(x + y) == DigitsValue(x) * Pow10(|y|) + DigitsValue(y)
  {
    hide DigitsValue, IsDigit, Pow10;
    DigitsJoined(x, y);
    NoDigits();
    NoPower();
    if y == "" {
      assert x + y == x;
    } else {
      var m := |y| - 1;
      var z, c := y[..m], y[m];
      assert y == z + [c] && x + y == (x + z) + [c];
      ValueOfJoined(x, z);
      DigitsOfAppended(x + z, c);
      DigitsOfAppended(z, c);
      PowerOfNext(m);
      Distribute(DigitsValue(x), Pow10(m), DigitsValue(z), c as int - '0' as int);
    }
  }

  lemma NoPower()
    ensures Pow10(0) == 1
  {
  }

  lemma PowerOfNext(n: nat)
    ensures Pow10(n + 1) == 10 * Pow10(n)
  {
  }

  lemma Distribute(a: nat, p: nat, b: nat, d: int)
    ensures 10 * (a * p + b) + d == a * (10 * p) + (10 * b + d)
  {
  }

  lemma UnitOf(u: char, suffix: string)
    requires u in UNITS && UnitSuffix(suffix)
    ensures SizeUnit([u] + suffix) == Some(UNITS[u])
  {
    var s := [u] + suffix;
    LStripKeeps(s);
    assert s[1..] == suffix && s[0] == u;
    Powers();
    hide Pow10, LStrip;
  }

  lemma Powers()
    ensures Pow10(0) == 1 && Pow10(3) == 1_000 && Pow10(6) == 1_000_000 && Pow10(9) == 1_000_000_000
    ensures Pow10(12) == 1_000_000_000_000 && Pow10(15) == 1_000_000_000_000_000
  {
    assert Pow10(2) == 100;
    assert Pow10(4) == 10_000 && Pow10(5) == 100_000;
    assert Pow10(7) == 10_000_000 && Pow10(8) == 100_000_000;
    assert Pow10(10) == 10_000_000_000 && Pow10(11) == 100_000_000_000;
    assert Pow10(13) == 10_000_000_000_000 && Pow10(14) == 100_000_000_000_000;
  }

  lemma LeadingDigitsOf(digits: string, rest: string)
    requires Digits(digits) && (rest == "" || !IsDigit(rest[0]))
    ensures LeadingDigits(digits + rest) == digits && (digits + rest)[|digits|..] == rest
  {
    assert forall c :: c in digits ==> IsDigit(c);
    DigitRun(digits, rest);
    assert (digits + rest)[..|digits|] == digits;
  }

  lemma UnitIsNoDigit(u: char)
    requires u in UNITS
    ensures !IsDigit(u) && u != '.'
  {
  }

  /** A whole number and a unit mean so many bytes. */
  lemma WholeSize(n: nat, u: char, suffix: string)
    requires u in UNITS && UnitSuffix(suffix)
    ensures ParseSizeBytes(Decimal(n) + ([u] + suffix)) == Some(n * UNITS[u])
  {
    hide SizeUnit, LeadingDigits, Decimal, Pow10, UNITS, UnitSuffix, IsDigit, DigitsValue;
    var rest := [u] + suffix;
    DecimalValue(n);
    UnitIsNoDigit(u);
    LeadingDigitsOf(Decimal(n), rest);
    UnitOf(u, suffix);
    NoPower();
    assert rest[..1] == [u];
    assert !StartsWith(rest, ".");
  }

  lemma FractionParses(whole: string, fraction: string, tail: string)
    requires Digits(whole) && whole != "" && Digits(fraction) && fraction != ""
    requires tail != "" && !IsDigit(tail[0]) && SizeUnit(tail).Some?
    ensures Digits(whole + fraction)
    ensures ParseSizeBytes(whole + ("." + (fraction + tail))) ==
            Some(ScaledSize(whole + fraction, |fraction|, SizeUnit(tail).value))
  {
    hide SizeUnit, LeadingDigits, DigitsValue, ScaledSize;
    var rest := "." + (fraction + tail);
    LeadingDigitsOf(whole, rest);
    LeadingDigitsOf(fraction, tail);
    DigitsJoined(whole, fraction);
    assert rest[..1] == ".";
    assert rest[1..] == fraction + tail;
    assert rest[1 + |fraction|..] == (fraction + tail)[|fraction|..];
  }

  /** So does a decimal fraction, rounded down. */
  lemma FractionSize(n: nat, fraction: string, u: char, suffix: string)
    requires u in UNITS && UnitSuffix(suffix) && Digits(fraction) && fraction != ""
    ensures ParseSizeBytes(Decimal(n) + ("." + (fraction + ([u] + suffix)))) ==
            Some((n * Pow10(|fraction|) + DigitsValue(fraction)) * UNITS[u] / Pow10(|fraction|))
  {
    hide SizeUnit, ParseSizeBytes, Decimal, Pow10, UNITS, UnitSuffix, IsDigit, DigitsValue, Digits;
    DecimalValue(n);
    UnitIsNoDigit(u);
    UnitOf(u, suffix);
    FractionParses(Decimal(n), fraction, [u] + suffix);
    ValueOfJoined(Decimal(n), fraction);
  }

  // ---- Devices and tables ----

  lemma TransportIsNoVendor(token: string)
    requires TransportOf(token).Some?
    ensures VendorOf(token).None? && token != "" && !IsDigit(token[0])
  {
  }

  lemma TechnologyIsNoVendor(token: string)
    requires TechnologyOf(token).Some?
    ensures TransportOf(token).None? && VendorOf(token).None? && token != "" && !IsDigit(token[0])
  {
  }

  lemma VendorIsNoSize(token: string)
    requires VendorOf(token).Some?
    ensures token != "" && !IsDigit(token[0])
  {
  }

  /** A word has at most one reading, so the order in which they are tried does not matter. */
  lemma ReadingsAreDisjoint(token: string)
    ensures TransportOf(token).Some? ==> TechnologyOf(token).None? && VendorOf(token).None?
    ensures TechnologyOf(token).Some? ==> VendorOf(token).None?
    ensures ParseSizeBytes(token).Some? ==>
              TransportOf(token).None? && TechnologyOf(token).None? && VendorOf(token).None?
  {
    hide SizeUnit, ScaledSize, TransportOf, TechnologyOf, VendorOf;
    if TransportOf(token).Some? { TransportIsNoVendor(token); }
    if TechnologyOf(token).Some? { TechnologyIsNoVendor(token); }
    if VendorOf(token).Some? { VendorIsNoSize(token); }
    if ParseSizeBytes(token).Some? { SizeStartsWithDigit(token); }
  }

  lemma SizeStartsWithDigit(token: string)
    requires ParseSizeBytes(token).Some?
    ensures token != "" && IsDigit(token[0])
  {
    hide SizeUnit, ScaledSize;
  }

  lemma TechnologyWords(token: string)
    ensures TechnologyOf(token) == Some(true) <==> token in ["hdd", "spinning"]
    ensures TechnologyOf(token) == Some(false) <==> token == "ssd"
  {
  }

  lemma TransportWords(token: string)
    ensures TransportOf(token).Some? <==> token in ["nvme", "sata", "sas", "usb", "virtio", "scsi"]
    ensures TransportOf(token).Some? ==> TransportOf(token) == Some(if token == "scsi" then "sata" else token)
  {
  }

  /** The words for technologies, transports and sizes are these, in capitals or not. */
  lemma WordsRead(w: string)
    ensures Classify(w) == Technology(true) <==> Lower(w) in ["hdd", "spinning"]
    ensures Classify(w) == Technology(false) <==> Lower(w) == "ssd"
    ensures Classify(w).Transport? <==> Lower(w) in ["nvme", "sata", "sas", "usb", "virtio", "scsi"]
    ensures Classify(w).Transport? ==>
              && Classify(w).canonical == (if Lower(w) == "scsi" then "sata" else Lower(w))
              && (Classify(w).nvme <==> Lower(w) == "nvme")
    ensures Classify(w).Size? <==> ParseSizeBytes(Lower(w)).Some?
    ensures Classify(w).Size? ==> ParseSizeBytes(Lower(w)) == Some(Classify(w).bytes)
  {
    hide TransportOf, TechnologyOf, VendorOf, ParseSizeBytes;
    TechnologyWords(Lower(w));
    TransportWords(Lower(w));
    ReadingsAreDisjoint(Lower(w));
    SomeFlag(TechnologyOf(Lower(w)));
  }

  /** A device path selects the disk of that path, unless it is removable. */
  lemma DeviceSelectsExactly(glob: Glob, s: string, d: BlockDevice)
    requires StartsWith(Strip(s), "/dev/")
    ensures ParseString(s).Some?
    ensures Selected(glob, ParseString(s).value, d) <==> d.path == Strip(s) && !d.removable
  {
    hide Strip, Matches;
    assert Strip(s) != "";
    ExplicitMatches(glob, ParseString(s).value, d);
  }

  lemma ExplicitMatches(glob: Glob, c: DiskCriteria, d: BlockDevice)
    requires c.explicitDevice.Some?
    ensures Matches(glob, c, d) <==> d.path == c.explicitDevice.value
  {
    hide SizeAccepts, VendorAccepts, FreeTokensAccept;
  }

  predicate Holds(size: string, bytes: nat) {
    ParseSizeBytes(Normalise(size)) == Some(bytes)
  }

  /** The bounds of a table: each is the explicit one, or else ten per cent off the size. */
  ghost predicate SizeBetween(t: DescriptorTable, d: BlockDevice) {
    && d.sizeBytes > 0
    && (forall n: nat :: t.sizeMin.Some? && Holds(t.sizeMin.value, n) ==> n <= d.sizeBytes)
    && (forall n: nat :: t.sizeMax.Some? && Holds(t.sizeMax.value, n) ==> d.sizeBytes <= n)
    && (forall n: nat :: t.sizeMin.None? && t.size.Some? && Holds(t.size.value, n) ==> 9 * n < 10 * d.sizeBytes + 10)
    && (forall n: nat :: t.sizeMax.None? && t.size.Some? && Holds(t.size.value, n) ==> 10 * d.sizeBytes <= 11 * n)
  }

  predicate NamesSize(t: DescriptorTable) {
    t.size.Some? || t.sizeMin.Some? || t.sizeMax.Some?
  }

  /** Apart from an upper bound on the size, the table says nothing. */
  predicate SaysNothing(t: DescriptorTable) {
    && t.size.None? && t.sizeMin.None? && t.transport.None? && t.rotational.None? && t.removable.None?
    && t.vendor.None? && t.modelPattern.None?
  }

  /** What a table demands of a disk. */
  ghost predicate TableAccepts(glob: Glob, t: DescriptorTable, d: BlockDevice) {
    && (NamesSize(t) ==> SizeBetween(t, d))
    && (t.transport.Some? ==>
          Normalise(d.transport) ==
          if Normalise(t.transport.value) == "scsi" then "sata" else Normalise(t.transport.value))
    && (t.rotational == Some(true) ==> d.rotational && d.transport != "nvme")
    && (t.rotational == Some(false) ==> !d.rotational || d.transport == "nvme")
    && (t.vendor.Some? ==>
          exists name :: name in VendorOf(Normalise(t.vendor.value)).GetOr([Normalise(t.vendor.value)]) &&
                         Contains(VendorCorpus(d), name))
    && (t.modelPattern.Some? ==> MatchesFreeToken(glob, Strip(t.modelPattern.value), SearchCorpus(d)))
  }

  lemma TransportWord(token: string)
    ensures TransportOf(token).GetOr(token) == if token == "scsi" then "sata" else token
  {
  }

  lemma WindowMeans(n: nat, bytes: int)
    ensures SizeWindow(n).0 <= bytes <==> 9 * n < 10 * bytes + 10
    ensures bytes <= SizeWindow(n).1 <==> 10 * bytes <= 11 * n
  {
  }

  lemma TableSizes(t: DescriptorTable, c: DiskCriteria, d: BlockDevice)
    requires t.device.None? && ParseTable(t) == Some(c)
    ensures SizeAccepts(c, d) <==> (NamesSize(t) ==> SizeBetween(t, d))
  {
    hide ParseSizeBytes, Normalise, Strip, VendorOf, TransportOf, ParseString, SizeWindow;
    if t.size.Some? {
      var n := ParseSizeBytes(Normalise(t.size.value)).value;
      WindowMeans(n, d.sizeBytes);
      assert Holds(t.size.value, n);
    }
    if t.sizeMin.Some? { assert Holds(t.sizeMin.value, ParseSizeBytes(Normalise(t.sizeMin.value)).value); }
    if t.sizeMax.Some? { assert Holds(t.sizeMax.value, ParseSizeBytes(Normalise(t.sizeMax.value)).value); }
  }

  lemma TableRest(glob: Glob, t: DescriptorTable, c: DiskCriteria, d: BlockDevice)
    requires t.device.None? && ParseTable(t) == Some(c)
    ensures c.removable == t.removable && c.rotational == t.rotational && c.explicitDevice.None?
    ensures c.transport == if t.transport.None? then None else
                             Some(TransportOf(Normalise(t.transport.value)).GetOr(Normalise(t.transport.value)))
    ensures VendorAccepts(c, d) <==> (t.vendor.Some? ==>
              exists name :: name in VendorOf(Normalise(t.vendor.value)).GetOr([Normalise(t.vendor.value)]) &&
                             Contains(VendorCorpus(d), name))
    ensures FreeTokensAccept(glob, c, d) <==>
            (t.modelPattern.Some? ==> MatchesFreeToken(glob, Strip(t.modelPattern.value), SearchCorpus(d)))
    ensures c.sizeMin.Some? <==> t.sizeMin.Some? || t.size.Some?
    ensures c.vendorSubstrings == [] <==> t.vendor.None?
    ensures c.freeTokens == [] <==> t.modelPattern.None?
  {
    hide ParseSizeBytes, Normalise, Strip, TransportOf, ParseString, MatchesFreeToken, SearchCorpus, VendorCorpus;
    hide Contains;
  }

  lemma SaysNothingIsEmpty(t: DescriptorTable, c: DiskCriteria)
    requires c.removable == t.removable && c.rotational == t.rotational && c.explicitDevice.None?
    requires c.transport.None? <==> t.transport.None?
    requires c.sizeMin.Some? <==> t.sizeMin.Some? || t.size.Some?
    requires c.vendorSubstrings == [] <==> t.vendor.None?
    requires c.freeTokens == [] <==> t.modelPattern.None?
    ensures c.IsEmpty() <==> SaysNothing(t)
  {
  }

  lemma CriteriaSelectExactly(glob: Glob, c: DiskCriteria, d: BlockDevice)
    requires c.explicitDevice.None?
    ensures Selected(glob, c, d) <==>
            && d.removable == c.removable.GetOr(false)
            && (c.IsEmpty() || (
                 && SizeAccepts(c, d)
                 && (c.transport.Some? ==> Normalise(d.transport) == c.transport.value)
                 && (c.rotational == Some(true) ==> d.rotational && d.transport != "nvme")
                 && (c.rotational == Some(false) ==> !d.rotational || d.transport == "nvme")
                 && VendorAccepts(c, d)
                 && FreeTokensAccept(glob, c, d)))
  {
    hide SizeAccepts, VendorAccepts, FreeTokensAccept, Normalise;
    SomeFlag(c.rotational);
    SomeFlag(c.removable);
  }

  /**
   * A table without a device selects a disk exactly if the disk meets each entry, and is fixed unless the table speaks
   * of removability. A table with an upper bound and nothing else selects every fixed disk.
   */
  lemma TableSelectsExactly(glob: Glob, t: DescriptorTable, d: BlockDevice)
    requires t.device.None? && ParseTable(t).Some?
    ensures Selected(glob, ParseTable(t).value, d) <==>
            d.removable == t.removable.GetOr(false) && (SaysNothing(t) || TableAccepts(glob, t, d))
  {
    hide ParseTable, SizeAccepts, SizeBetween, VendorAccepts, FreeTokensAccept, Normalise, VendorOf, VendorCorpus;
    hide MatchesFreeToken, SearchCorpus, TransportOf, Contains, Strip, Selected, BlockDevice.IsSsd;
    hide DiskCriteria.IsEmpty;
    var c := ParseTable(t).value;
    TableSizes(t, c, d);
    TableRest(glob, t, c, d);
    if t.transport.Some? { TransportWord(Normalise(t.transport.value)); }
    CriteriaSelectExactly(glob, c, d);
    SaysNothingIsEmpty(t, c);
  }

  /** The upper bound alone is not looked at: one byte suffices for no disk, and yet selects each fixed one. */
  lemma UpperBoundAloneIsIgnored(glob: Glob, s: string, d: BlockDevice)
    requires ParseSizeBytes(Normalise(s)).Some?
    ensures var t := DescriptorTable(None, None, Some(s), None, None, None, None, None, None);
            ParseTable(t).Some? && (Selected(glob, ParseTable(t).value, d) <==> !d.removable)
  {
    hide ParseSizeBytes, Normalise;
  }

  /**
   * With a device path in the table, only the path counts, and whether removability is spoken of; with any other text
   * there, the table means what that text means, and its other entries count for nothing.
   */
  lemma TableWithDevice(glob: Glob, t: DescriptorTable, d: BlockDevice)
    requires t.device.Some? && ParseTable(t).Some?
    ensures StartsWith(Strip(t.device.value), "/dev/") ==>
              (Selected(glob, ParseTable(t).value, d) <==>
               d.path == Strip(t.device.value) && (d.removable ==> t.removable.Some?))
    ensures !StartsWith(Strip(t.device.value), "/dev/") ==> ParseTable(t) == ParseString(Strip(t.device.value))
  {
    hide Strip, ParseString, ParseSizeBytes, Normalise, Matches, StartsWith, VendorOf, TransportOf;
    if StartsWith(Strip(t.device.value), "/dev/") {
      var c := ParseTable(t).value;
      assert c.explicitDevice == Some(Strip(t.device.value)) && c.removable == t.removable;
      ExplicitMatches(glob, c, d);
    }
  }
}
