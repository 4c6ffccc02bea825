/** What a descriptor means does not depend on how its tokens are arranged, and more tokens never match more disks. */
module DescriptorLaws {
  import opened Text
  import opened Sorting
  import opened Wrappers
  import opened Disk
  import opened DiskDescriptor

  predicate SizesPositive(ts: seq<Token>) {
    forall t :: t in ts ==> (t.Size? ==> t.bytes > 0)
  }

  /** The order of these two tokens does not matter. */
  predicate Commute(t: Token, u: Token) {
    && (t.Transport? && u.Transport? ==> t.canonical == u.canonical)
    && (t.Size? && u.Size? ==> (t.bytes == 0 <==> u.bytes == 0))
    && !(t.Transport? && t.nvme && u == Technology(true))
    && !(u.Transport? && u.nvme && t == Technology(true))
  }

  predicate Contradictory(ts: seq<Token>) {
    Technology(false) in ts && Technology(true) in ts
  }

  /**
   * One transport at most, no zero size beside a positive one, and `nvme` does not meet a spinning
   * token - or the tokens contradict each other anyway.
   */
  predicate OrderFree(ts: seq<Token>) {
    Contradictory(ts) || forall t, u :: t in ts && u in ts ==> Commute(t, u)
  }

  /** Criteria that differ only in the arrangement of their vendor and free-token lists. */
  ghost predicate Same(a: DiskCriteria, b: DiskCriteria) {
    && a.sizeMin == b.sizeMin && a.sizeMax == b.sizeMax && a.transport == b.transport
    && a.rotational == b.rotational && a.removable == b.removable && a.explicitDevice == b.explicitDevice
    && (forall x :: x in a.vendorSubstrings <==> x in b.vendorSubstrings)
    && (forall x :: x in a.freeTokens <==> x in b.freeTokens)
  }

  ghost predicate SameParse(a: Option<DiskCriteria>, b: Option<DiskCriteria>) {
    a.Some? == b.Some? && (a.Some? ==> Same(a.value, b.value))
  }

  /** What the size bounds look like while tokens with positive sizes are read. */
  predicate Bounded(c: DiskCriteria) {
    && c.sizeMin.Some? == c.sizeMax.Some?
    && (c.sizeMin.Some? ==> c.sizeMin.value >= 0 && c.sizeMax.value > 0)
  }

  lemma NarrowBounded(c: DiskCriteria, n: nat)
    requires Bounded(c) && n > 0
    ensures Bounded(Narrow(c, n))
    ensures c.sizeMin.Some? ==>
              Narrow(c, n) == c.(sizeMin := Some(Max(c.sizeMin.value, SizeWindow(n).0)),
                                 sizeMax := Some(Min(c.sizeMax.value, SizeWindow(n).1)))
  {
    assert SizeWindow(n).0 >= 0 && SizeWindow(n).1 > 0;
  }

  lemma ReadFirstStep(c: DiskCriteria, x: Token, rest: seq<Token>)
    ensures AddTokens(c, [x] + rest) ==
            if AddToken(c, x).None? then None else AddTokens(AddToken(c, x).value, rest)
  {
    assert ([x] + rest)[1..] == rest;
  }

  function AddTwo(c: DiskCriteria, t: Token, u: Token): Option<DiskCriteria> {
    var c' :- AddToken(c, t);
    AddToken(c', u)
  }

  lemma AddTwoTokens(c: DiskCriteria, t: Token, u: Token)
    ensures AddTokens(c, [t, u]) == AddTwo(c, t, u)
  {
    assert [t] + [u] == [t, u] && [u] + [] == [u];
    ReadFirstStep(c, t, [u]);
    if AddToken(c, t).Some? { ReadFirstStep(AddToken(c, t).value, u, []); }
  }

  lemma SizesCommute(c: DiskCriteria, m: nat, n: nat)
    requires Bounded(c) && m > 0 && n > 0
    ensures Narrow(Narrow(c, m), n) == Narrow(Narrow(c, n), m)
  {
    NarrowBounded(c, m);
    NarrowBounded(c, n);
    NarrowBounded(Narrow(c, m), n);
    NarrowBounded(Narrow(c, n), m);
  }

  /** The size tokens to come either are all zero, or meet bounds left by positive sizes. */
  predicate Ready(c: DiskCriteria, ts: seq<Token>) {
    (forall t :: t in ts && t.Size? ==> t.bytes == 0) || (SizesPositive(ts) && Bounded(c))
  }

  /** Two tokens of which neither is a size. */
  lemma WordsCommute(c: DiskCriteria, t: Token, u: Token)
    requires Commute(t, u) && !t.Size? && !u.Size?
    ensures SameParse(AddTwo(c, t, u), AddTwo(c, u, t))
  {
  }

  /** A size does not touch what other tokens do. */
  lemma SizeCommutes(c: DiskCriteria, t: Token, u: Token)
    requires t.Size? && !u.Size?
    ensures AddTwo(c, t, u) == AddTwo(c, u, t)
  {
    hide SizeWindow;
  }

  lemma SameParseReflexive(a: Option<DiskCriteria>)
    ensures SameParse(a, a)
  {
  }

  lemma StepCommutes(c: DiskCriteria, t: Token, u: Token)
    requires Commute(t, u)
    requires t.Size? && u.Size? && t.bytes > 0 ==> Bounded(c)
    ensures SameParse(AddTokens(c, [t, u]), AddTokens(c, [u, t]))
  {
    hide AddTokens, SameParse;
    AddTwoTokens(c, t, u);
    AddTwoTokens(c, u, t);
    SameParseReflexive(AddTwo(c, t, u));
    if t.Size? && u.Size? {
      if t.bytes > 0 { SizesCommute(c, t.bytes, u.bytes); }
    } else if t.Size? {
      SizeCommutes(c, t, u);
    } else if u.Size? {
      SizeCommutes(c, u, t);
    } else {
      WordsCommute(c, t, u);
    }
  }

  lemma StepSame(a: DiskCriteria, b: DiskCriteria, t: Token)
    requires Same(a, b)
    ensures SameParse(AddToken(a, t), AddToken(b, t))
  {
  }

  lemma StepBounded(c: DiskCriteria, t: Token)
    requires Bounded(c) && (t.Size? ==> t.bytes > 0) && AddToken(c, t).Some?
    ensures Bounded(AddToken(c, t).value)
  {
    if t.Size? { NarrowBounded(c, t.bytes); }
  }

  lemma {:induction false} AddTokensSame(a: Option<DiskCriteria>, b: Option<DiskCriteria>, ts: seq<Token>)
    requires SameParse(a, b)
    ensures a.Some? ==> SameParse(AddTokens(a.value, ts), AddTokens(b.value, ts))
    decreases |ts|
  {
    if a.Some? && ts != [] {
      StepSame(a.value, b.value, ts[0]);
      AddTokensSame(AddToken(a.value, ts[0]), AddToken(b.value, ts[0]), ts[1..]);
    }
  }

  /** A token that commutes with those before it can be read first. */
  lemma {:induction false} ReadFirst(c: DiskCriteria, u: seq<Token>, x: Token, v: seq<Token>)
    requires Ready(c, u + [x] + v)
    requires forall t :: t in u ==> Commute(t, x)
    ensures SameParse(AddTokens(c, u + [x] + v), AddTokens(c, [x] + (u + v)))
    decreases |u|
  {
    if u == [] {
      assert u + [x] + v == [x] + (u + v);
    } else {
      var y, u' := u[0], u[1..];
      assert u + [x] + v == [y] + (u' + [x] + v);
      assert [x] + (u + v) == [x, y] + (u' + v);
      assert [y] + ([x] + (u' + v)) == [y, x] + (u' + v);
      assert y in u + [x] + v && x in u + [x] + v;
      var first := AddToken(c, y);
      if first.Some? {
        if Bounded(c) && SizesPositive(u + [x] + v) { StepBounded(c, y); }
        ReadFirst(first.value, u', x, v);
      }
      AddTokensConcat(c, [y], u' + [x] + v);
      AddTokensConcat(c, [y], [x] + (u' + v));
      StepCommutes(c, y, x);
      AddTokensConcat(c, [y, x], u' + v);
      AddTokensConcat(c, [x, y], u' + v);
      AddTokensSame(AddTokens(c, [y, x]), AddTokens(c, [x, y]), u' + v);
      assert [y][1..] == [];
    }
  }

  lemma {:induction false} CommutingTokensPermute(c: DiskCriteria, p: seq<Token>, q: seq<Token>)
    requires multiset(p) == multiset(q) && Ready(c, p)
    requires forall t, u :: t in p && u in p ==> Commute(t, u)
    ensures SameParse(AddTokens(c, p), AddTokens(c, q))
    decreases |p|
  {
    SameElements(p, q);
    if p != [] {
      var x := p[0];
      var i := FindHead(p, q);
      var u, v := q[..i], q[i + 1..];
      ReadFirst(c, u, x, v);
      var first := AddToken(c, x);
      if first.Some? {
        if Bounded(c) && SizesPositive(p) { StepBounded(c, x); }
        CommutingTokensPermute(first.value, p[1..], u + v);
      }
      assert ([x] + (u + v))[1..] == u + v;
    }
  }

  /** Once set, the rotational flag stays, and every technology token read agrees with it. */
  lemma {:induction false} FinalRotational(c: DiskCriteria, ts: seq<Token>)
    requires AddTokens(c, ts).Some?
    ensures c.rotational.Some? ==> AddTokens(c, ts).value.rotational == c.rotational
    ensures forall r :: Technology(r) in ts ==> AddTokens(c, ts).value.rotational == Some(r)
    decreases |ts|
  {
    if ts != [] {
      FinalRotational(AddToken(c, ts[0]).value, ts[1..]);
      assert forall t :: t in ts ==> t == ts[0] || t in ts[1..];
    }
  }

  /** Tokens that all ask for the rotational flag `r`, if for any, never fail. */
  lemma {:induction false} Agreeing(c: DiskCriteria, ts: seq<Token>, r: bool)
    requires forall t :: t in ts ==> t != Technology(!r)
    requires c.rotational == Some(r)
             || (c.rotational.None? && (r ==> forall t :: t in ts ==> !(t.Transport? && t.nvme)))
    ensures AddTokens(c, ts).Some?
    decreases |ts|
  {
    if ts != [] {
      assert ts[0] in ts && forall t :: t in ts[1..] ==> t in ts;
      var c' := AddToken(c, ts[0]).value;
      Agreeing(c', ts[1..], r);
    }
  }

  ghost predicate OrderIndependent(ts: seq<Token>) {
    forall q :: multiset(q) == multiset(ts) ==> SameParse(AddTokens(NO_CRITERIA, q), AddTokens(NO_CRITERIA, ts))
  }

  lemma MoveToFront(ts: seq<Token>, x: Token) returns (rest: seq<Token>)
    requires x in ts
    ensures multiset([x] + rest) == multiset(ts)
    ensures forall t :: t in [x] + rest <==> t in ts
    ensures forall t :: t in ts && t != x ==> t in rest
  {
    var i :| 0 <= i < |ts| && ts[i] == x;
    RemoveAt(ts, i);
    rest := ts[..i] + ts[i + 1..];
    SameElements([x] + rest, ts);
  }

  lemma SpinningNvmeDepends(ts: seq<Token>, x: Token, y: Token)
    requires x in ts && y in ts && x.Transport? && x.nvme && y == Technology(true) && !Contradictory(ts)
    ensures !OrderIndependent(ts)
  {
    var afterX := MoveToFront(ts, x);
    ReadFirstStep(NO_CRITERIA, x, afterX);
    if AddTokens(NO_CRITERIA, [x] + afterX).Some? { FinalRotational(AddToken(NO_CRITERIA, x).value, afterX); }
    var afterY := MoveToFront(ts, y);
    ReadFirstStep(NO_CRITERIA, y, afterY);
    assert forall t :: t in afterY ==> t in [y] + afterY;
    Agreeing(AddToken(NO_CRITERIA, y).value, afterY, true);
  }

  /** Nothing in the list makes the parse fail, whatever the order. */
  predicate Parses(ts: seq<Token>) {
    && !Contradictory(ts)
    && forall t, u :: t in ts && u in ts && t == Technology(true) ==> !(u.Transport? && u.nvme)
  }

  lemma ReadLast(ts: seq<Token>, x: Token) returns (before: DiskCriteria, q: seq<Token>)
    requires x in ts && Parses(ts)
    ensures multiset(q) == multiset(ts)
    ensures NonNegative(before) && (x.Size? && (exists y :: y in ts && y.Size? && y != x) ==> before.sizeMin.Some?)
    ensures AddTokens(NO_CRITERIA, q).Some? && AddTokens(NO_CRITERIA, q) == AddToken(before, x)
  {
    var rest := MoveToFront(ts, x);
    q := rest + [x];
    assert multiset(q) == multiset([x] + rest);
    SameElements(q, ts);
    Agreeing(NO_CRITERIA, q, Technology(true) in ts);
    AddTokensConcat(NO_CRITERIA, rest, [x]);
    before := AddTokens(NO_CRITERIA, rest).value;
    ReadFirstStep(before, x, []);
    assert [x] + [] == [x];
    SizesLeaveBounds(NO_CRITERIA, rest);
  }

  predicate NonNegative(c: DiskCriteria) {
    c.sizeMin.Some? == c.sizeMax.Some? && (c.sizeMin.Some? ==> c.sizeMin.value >= 0 && c.sizeMax.value >= 0)
  }

  lemma {:induction false} SizesLeaveBounds(c: DiskCriteria, ts: seq<Token>)
    requires NonNegative(c) && AddTokens(c, ts).Some?
    ensures NonNegative(AddTokens(c, ts).value)
    ensures c.sizeMin.Some? || (exists t :: t in ts && t.Size?) ==> AddTokens(c, ts).value.sizeMin.Some?
    decreases |ts|
  {
    if ts != [] {
      SizesLeaveBounds(AddToken(c, ts[0]).value, ts[1..]);
      assert forall t :: t in ts ==> t == ts[0] || t in ts[1..];
    }
  }

  /** `c.size_max or 10**18`: a zero size is forgotten by the next positive one, but not the other way round. */
  lemma ZeroSizeDepends(ts: seq<Token>, x: Token, y: Token)
    requires x in ts && y in ts && x.Size? && y.Size? && x.bytes == 0 && y.bytes > 0 && Parses(ts)
    ensures !OrderIndependent(ts)
  {
    var b, p := ReadLast(ts, x);
    var b', q := ReadLast(ts, y);
    assert SizeWindow(x.bytes).1 == 0 && SizeWindow(y.bytes).1 > 0;
    assert AddToken(b, x).value.sizeMax == Some(0);
    assert AddToken(b', y).value.sizeMax.value > 0;
  }

  lemma TwoTransportsDepend(ts: seq<Token>, x: Token, y: Token)
    requires x in ts && y in ts && x.Transport? && y.Transport? && x.canonical != y.canonical && Parses(ts)
    ensures !OrderIndependent(ts)
  {
    var _, p := ReadLast(ts, x);
    var _, q := ReadLast(ts, y);
  }

  /** The parse is independent of the token order exactly for the order-free token lists. */
  lemma OrderIndependentExactly(ts: seq<Token>)
    ensures OrderIndependent(ts) <==> OrderFree(ts)
  {
    if Contradictory(ts) {
      forall q | multiset(q) == multiset(ts) ensures AddTokens(NO_CRITERIA, q).None? {
        SameElements(q, ts);
        if AddTokens(NO_CRITERIA, q).Some? { FinalRotational(NO_CRITERIA, q); }
      }
    } else if OrderFree(ts) {
      forall q | multiset(q) == multiset(ts)
        ensures SameParse(AddTokens(NO_CRITERIA, q), AddTokens(NO_CRITERIA, ts))
      {
        CommutingTokensPermute(NO_CRITERIA, ts, q);
      }
    } else if x, y :| x in ts && y in ts && x.Transport? && x.nvme && y == Technology(true) {
      SpinningNvmeDepends(ts, x, y);
    } else {
      var x, y :| x in ts && y in ts && !Commute(x, y);
      if x.Transport? {
        TwoTransportsDepend(ts, x, y);
      } else if x.bytes == 0 {
        ZeroSizeDepends(ts, x, y);
      } else {
        ZeroSizeDepends(ts, y, x);
      }
    }
  }

  /** A word as `split` finds it. */
  predicate Word(s: string) {
    s != "" && forall i :: 0 <= i < |s| ==> !IsSpace(s[i])
  }

  lemma SplitAfterSpace(t: string)
    requires Word(t)
    ensures Split(" " + t) == Split(t)
  {
    var s := " " + t;
    assert IsSpace(s[0]) && s[1..] == t;
    LStripKeeps(t);
    assert LStrip(s, IsSpace) == LStrip(t, IsSpace);
    hide LStrip, Until, IsSpace;
  }

  /** The first word is cut off at the space after it. */
  lemma SplitWord(s: string, rest: string)
    requires Word(s) && (rest == "" || IsSpace(rest[0]))
    ensures Split(s + rest) == [s] + Split(rest)
  {
    var r := s + rest;
    LStripKeeps(r);
    assert Until(r, IsSpace) == |s| by {
      assert rest != "" ==> r[|s|] == rest[0];
    }
    assert r[..|s|] == s && r[|s|..] == rest;
  }

  lemma SplitOne(t: string)
    requires Word(t)
    ensures Split(t) == [t]
  {
    SplitWord(t, "");
    assert Split("") == [] && t + "" == t;
  }

  lemma SplitTwo(s: string, t: string)
    requires Word(s) && Word(t)
    ensures Split(s + (" " + t)) == [s, t]
  {
    assert IsSpace((" " + t)[0]);
    hide Split, Word, IsSpace;
    SplitWord(s, " " + t);
    SplitAfterSpace(t);
    SplitOne(t);
  }

  lemma TwoWords(s: string, t: string)
    requires Word(s) && Word(t) && s[0] != '/'
    ensures ParseString(s + (" " + t)) == AddTokens(NO_CRITERIA, [Classify(s), Classify(t)])
  {
    hide Classify, AddTokens, Split, IsSpace;
    var raw := s + (" " + t);
    LStripKeeps(raw);
    assert raw[|raw| - 1] == t[|t| - 1];
    assert Strip(raw) == raw;
    assert !StartsWith(raw, "/dev/") by { assert |raw| >= 5 ==> raw[..5][0] == s[0]; }
    SplitTwo(s, t);
    assert Tokens(raw) == [Classify(s), Classify(t)];
  }

  lemma NvmeIsTransport()
    ensures Word("nvme") && Classify("nvme") == Transport("nvme", true)
  {
    assert Lower("nvme") == "nvme" && LeadingDigits("nvme") == "";
  }

  lemma HddIsTechnology()
    ensures Word("hdd") && Classify("hdd") == Technology(true)
  {
    assert Lower("hdd") == "hdd" && LeadingDigits("hdd") == "";
  }

  lemma SpinningTwice()
    ensures AddTokens(NO_CRITERIA, [Transport("nvme", true), Technology(true)]) == None
    ensures AddTokens(NO_CRITERIA, [Technology(true), Transport("nvme", true)]) ==
            Some(NO_CRITERIA.(transport := Some("nvme"), rotational := Some(true)))
  {
    AddTwoTokens(NO_CRITERIA, Transport("nvme", true), Technology(true));
    AddTwoTokens(NO_CRITERIA, Technology(true), Transport("nvme", true));
  }

  /** `nvme hdd` is rejected and `hdd nvme` is not. */
  lemma SpinningNvmeIsRejectedOnce()
    ensures ParseString("nvme hdd") == None
    ensures ParseString("hdd nvme") == Some(NO_CRITERIA.(transport := Some("nvme"), rotational := Some(true)))
  {
    hide Classify, AddTokens, ParseString, Word;
    NvmeIsTransport();
    HddIsTechnology();
    TwoWords("nvme", "hdd");
    TwoWords("hdd", "nvme");
    assert "nvme" + (" " + "hdd") == "nvme hdd" && "hdd" + (" " + "nvme") == "hdd nvme";
    SpinningTwice();
  }

  lemma SameElementsEmpty(s: seq<string>, t: seq<string>)
    requires forall x :: x in s <==> x in t
    ensures s == [] <==> t == []
  {
    assert s != [] ==> s[0] in s;
    assert t != [] ==> t[0] in t;
  }

  lemma SameAccepts(glob: Glob, a: DiskCriteria, b: DiskCriteria, d: BlockDevice)
    requires Same(a, b)
    ensures VendorAccepts(a, d) <==> VendorAccepts(b, d)
    ensures FreeTokensAccept(glob, a, d) <==> FreeTokensAccept(glob, b, d)
    ensures SizeAccepts(a, d) <==> SizeAccepts(b, d)
  {
    hide MatchesFreeToken, VendorCorpus, SearchCorpus;
    SameElementsEmpty(a.vendorSubstrings, b.vendorSubstrings);
    SameElementsEmpty(a.freeTokens, b.freeTokens);
  }

  lemma SameSelects(glob: Glob, a: DiskCriteria, b: DiskCriteria, d: BlockDevice)
    requires Same(a, b)
    ensures Selected(glob, a, d) <==> Selected(glob, b, d)
  {
    hide VendorAccepts, FreeTokensAccept, SizeAccepts;
    SameElementsEmpty(a.vendorSubstrings, b.vendorSubstrings);
    SameElementsEmpty(a.freeTokens, b.freeTokens);
    SameAccepts(glob, a, b, d);
  }

  // ---- From token lists to strings ----

  lemma {:induction false} LStripKeeps(s: string)
    requires s != "" && !IsSpace(s[0])
    ensures LStrip(s, IsSpace) == s
  {
  }

  lemma DevicePathIsFirstWord(raw: string)
    requires StartsWith(raw, "/dev/")
    ensures Split(raw) != [] && StartsWith(Split(raw)[0], "/dev/")
  {
    assert forall i :: 0 <= i < 5 ==> raw[i] == raw[..5][i];
    LStripKeeps(raw);
    var n := Until(raw, IsSpace);
    assert n >= 5;
    assert raw[..n][..5] == raw[..5];
  }

  lemma ParseIsTokens(s: string)
    requires forall w :: w in Split(Strip(s)) ==> !StartsWith(w, "/dev/")
    ensures ParseString(s) == AddTokens(NO_CRITERIA, Tokens(Strip(s)))
  {
    var raw := Strip(s);
    if StartsWith(raw, "/dev/") { DevicePathIsFirstWord(raw); }
    if raw == "" { assert Split(raw) == [] && Tokens(raw) == []; }
  }

  lemma SameMatches(glob: Glob, a: DiskCriteria, b: DiskCriteria, ds: seq<BlockDevice>)
    requires Same(a, b)
    ensures MatchSpec(glob, a, ds) == MatchSpec(glob, b, ds)
  {
    hide Selected;
    forall d ensures Selected(glob, a, d) <==> Selected(glob, b, d) { SameSelects(glob, a, b, d); }
    FilterAgrees(ds, d => Selected(glob, a, d), d => Selected(glob, b, d));
  }

  /** Rearranging the words of an order-free descriptor never changes which disks it selects. */
  lemma RearrangedDescriptorSelects(glob: Glob, s: string, t: string)
    requires multiset(Split(Strip(s))) == multiset(Split(Strip(t)))
    requires forall w :: w in Split(Strip(s)) ==> !StartsWith(w, "/dev/")
    requires OrderFree(Tokens(Strip(s)))
    ensures ParseString(s).Some? == ParseString(t).Some?
    ensures ParseString(s).Some? ==>
              forall ds :: MatchSpec(glob, ParseString(s).value, ds) == MatchSpec(glob, ParseString(t).value, ds)
  {
    hide MatchSpec, Classify, Split, Strip, AddTokens;
    var ws, wt := Split(Strip(s)), Split(Strip(t));
    SameElements(ws, wt);
    ParseIsTokens(s);
    ParseIsTokens(t);
    MapPermutation(Classify, ws, wt);
    OrderIndependentExactly(Tokens(Strip(s)));
    if ParseString(s).Some? {
      var a, b := ParseString(s).value, ParseString(t).value;
      forall ds ensures MatchSpec(glob, a, ds) == MatchSpec(glob, b, ds) { SameMatches(glob, a, b, ds); }
    }
  }

  // ---- More tokens, fewer disks ----

  /** `a` asks for everything `b` asks for. */
  ghost predicate Tighter(a: DiskCriteria, b: DiskCriteria) {
    && Bounded(a) && Bounded(b)
    && (b.sizeMin.Some? ==> a.sizeMin.Some? && a.sizeMin.value >= b.sizeMin.value && a.sizeMax.value <= b.sizeMax.value)
    && a.transport == b.transport
    && (b.rotational.Some? ==> a.rotational == b.rotational)
    && a.removable == b.removable
    && a.explicitDevice == b.explicitDevice
    && a.vendorSubstrings == b.vendorSubstrings
    && (forall x :: x in b.freeTokens ==> x in a.freeTokens)
  }

  lemma StepTighter(a: DiskCriteria, b: DiskCriteria, t: Token)
    requires Tighter(a, b) && SizesPositive([t])
    requires AddToken(a, t).Some? && AddToken(b, t).Some?
    requires t.Transport? && t.nvme ==> a.rotational != Some(true)
    ensures Tighter(AddToken(a, t).value, AddToken(b, t).value)
  {
    assert t in [t];
    assert a.rotational.Some? && t.Transport? && t.nvme ==> !a.rotational.value;
    if t.Size? {
      NarrowBounded(a, t.bytes);
      NarrowBounded(b, t.bytes);
    }
  }

  lemma {:induction false} AddTokensTighter(a: DiskCriteria, b: DiskCriteria, ts: seq<Token>)
    requires Tighter(a, b) && SizesPositive(ts)
    requires AddTokens(a, ts).Some? && AddTokens(b, ts).Some?
    requires forall t :: t in ts && t.Transport? && t.nvme ==> a.rotational != Some(true) && Technology(true) !in ts
    ensures Tighter(AddTokens(a, ts).value, AddTokens(b, ts).value)
    decreases |ts|
  {
    if ts != [] {
      assert ts[0] in ts && SizesPositive([ts[0]]);
      StepTighter(a, b, ts[0]);
      AddTokensTighter(AddToken(a, ts[0]).value, AddToken(b, ts[0]).value, ts[1..]);
    }
  }

  lemma TighterSelects(glob: Glob, a: DiskCriteria, b: DiskCriteria, d: BlockDevice)
    requires Tighter(a, b) && b.explicitDevice.None? && Selected(glob, a, d)
    ensures Selected(glob, b, d)
  {
    if !b.IsEmpty() {
      assert b.freeTokens != [] ==> b.freeTokens[0] in a.freeTokens;
      assert !a.IsEmpty();
      assert VendorAccepts(a, d) && VendorAccepts(b, d);
    }
  }

  lemma {:induction false} NoExplicitDevice(c: DiskCriteria, ts: seq<Token>)
    requires AddTokens(c, ts).Some?
    ensures AddTokens(c, ts).value.explicitDevice == c.explicitDevice
    decreases |ts|
  {
    if ts != [] { NoExplicitDevice(AddToken(c, ts[0]).value, ts[1..]); }
  }

  lemma {:induction false} StaysBounded(c: DiskCriteria, ts: seq<Token>)
    requires Bounded(c) && SizesPositive(ts) && AddTokens(c, ts).Some?
    ensures Bounded(AddTokens(c, ts).value)
    decreases |ts|
  {
    if ts != [] {
      assert ts[0] in ts;
      StepBounded(c, ts[0]);
      StaysBounded(AddToken(c, ts[0]).value, ts[1..]);
    }
  }

  /** A size, technology or free token put anywhere into a descriptor never lets another disk in. */
  lemma AddingTokenShrinks(glob: Glob, u: seq<Token>, t: Token, v: seq<Token>, d: BlockDevice)
    requires t.Size? || t.Technology? || t.Free?
    requires SizesPositive(u + [t] + v)
    requires forall x :: x in u + [t] + v && x.Transport? && x.nvme ==> Technology(true) !in u + [t] + v
    requires AddTokens(NO_CRITERIA, u + [t] + v).Some? && AddTokens(NO_CRITERIA, u + v).Some?
    requires Selected(glob, AddTokens(NO_CRITERIA, u + [t] + v).value, d)
    ensures Selected(glob, AddTokens(NO_CRITERIA, u + v).value, d)
  {
    assert forall x :: x in u || x == t || x in v ==> x in u + [t] + v;
    AddTokensConcat(NO_CRITERIA, u, v);
    AddTokensConcat(NO_CRITERIA, u + [t], v);
    AddTokensConcat(NO_CRITERIA, u, [t]);
    assert [t][1..] == [];
    var b := AddTokens(NO_CRITERIA, u).value;
    var a := AddToken(b, t).value;
    StaysBounded(NO_CRITERIA, u);
    if t.Size? { NarrowBounded(b, t.bytes); }
    assert Tighter(a, b);
    if a.rotational == Some(true) { RotationalOrigin(NO_CRITERIA, u + [t]); }
    AddTokensTighter(a, b, v);
    NoExplicitDevice(NO_CRITERIA, u + v);
    TighterSelects(glob, AddTokens(a, v).value, AddTokens(b, v).value, d);
  }

  lemma {:induction false} RotationalOrigin(c: DiskCriteria, ts: seq<Token>)
    requires AddTokens(c, ts).Some? && AddTokens(c, ts).value.rotational == Some(true)
    ensures c.rotational == Some(true) || Technology(true) in ts
    decreases |ts|
  {
    if ts != [] { RotationalOrigin(AddToken(c, ts[0]).value, ts[1..]); }
  }

  // ---- Free tokens and the joined corpus ----

  /** A word without spaces that occurs in two texts joined by a space occurs in one of them. */
  lemma WordInOne(a: string, b: string, w: string)
    requires ' ' !in w && Contains(a + " " + b, w)
    ensures Contains(a, w) || Contains(b, w)
  {
    var s := a + " " + b;
    var i :| 0 <= i <= |s| && StartsWith(s[i..], w);
    forall j | i <= j < i + |w| ensures s[j] != s[|a|] {
      assert s[j] == s[i..][..|w|][j - i] == w[j - i] && w[j - i] in w;
    }
    assert s[|a|] == ' ';
    if i <= |a| {
      assert i + |w| <= |a|;
      assert a[i..][..|w|] == s[i..][..|w|];
      assert StartsWith(a[i..], w);
    } else {
      assert b[i - |a| - 1..] == s[i..];
    }
  }

  lemma WordInJoined(a: string, b: string, w: string)
    requires Contains(a, w) || Contains(b, w)
    ensures Contains(a + " " + b, w)
  {
    var s := a + " " + b;
    if Contains(a, w) {
      var i :| 0 <= i <= |a| && StartsWith(a[i..], w);
      assert s[i..] == a[i..] + " " + b;
      assert StartsWith(s[i..], w);
    } else {
      var i :| 0 <= i <= |b| && StartsWith(b[i..], w);
      assert s[i + |a| + 1..] == b[i..];
    }
  }

  lemma {:induction false} WordInJoin(parts: seq<string>, w: string)
    requires w != "" && ' ' !in w
    ensures Contains(Join(" ", parts), w) <==> exists p :: p in parts && Contains(p, w)
  {
    if |parts| == 0 {
    } else if |parts| == 1 {
      assert parts[0] in parts;
    } else {
      var rest := Join(" ", parts[1..]);
      assert Join(" ", parts) == parts[0] + " " + rest;
      WordInJoin(parts[1..], w);
      if Contains(Join(" ", parts), w) {
        WordInOne(parts[0], rest, w);
        assert parts[0] in parts;
      }
      if p :| p in parts && Contains(p, w) {
        assert p == parts[0] || p in parts[1..];
        WordInJoined(parts[0], rest, w);
      }
    }
  }

  lemma {:induction false} NonEmptyParts(parts: seq<string>)
    ensures forall p :: p in NonEmpty(parts) <==> p in parts && p != ""
  {
    if parts != [] {
      NonEmptyParts(parts[1..]);
      assert forall p :: p in parts <==> p == parts[0] || p in parts[1..];
    }
  }

  /** A word a user may type as a plain free token. */
  predicate PlainWord(w: string) {
    w != "" && !HasGlob(w) && forall i :: 0 <= i < |w| ==> !IsSpace(w[i])
  }

  lemma StripsNothing(l: string)
    requires l != "" && forall i :: 0 <= i < |l| ==> !IsSpace(l[i])
    ensures Strip(l) == l && ' ' !in l
  {
    assert IsSpace(' ');
    hide IsSpace;
    LStripKeeps(l);
    assert RStrip(l, IsSpace) == l;
  }

  lemma LoweredChar(c: char)
    ensures IsSpace(LowerChar(c)) <==> IsSpace(c)
    ensures LowerChar(c) in ['*', '?', '['] ==> LowerChar(c) == c
  {
  }

  lemma PlainWordNormalises(w: string)
    requires PlainWord(w)
    ensures Normalise(w) == Lower(w) && !HasGlob(Lower(w)) && ' ' !in Lower(w)
  {
    var l := Lower(w);
    forall i | 0 <= i < |l| ensures !IsSpace(l[i]) && (l[i] in ['*', '?', '['] ==> w[i] == l[i]) { LoweredChar(w[i]); }
    StripsNothing(l);
  }

  lemma MapElements<A(!new), B>(f: A -> B, s: seq<A>)
    ensures forall b :: b in Map(f, s) <==> exists a :: a in s && f(a) == b
  {
    forall b | b in Map(f, s) ensures exists a :: a in s && f(a) == b {
      var i :| 0 <= i < |s| && Map(f, s)[i] == b;
      assert s[i] in s;
    }
    forall a | a in s ensures f(a) in Map(f, s) {
      var i :| 0 <= i < |s| && s[i] == a;
      assert Map(f, s)[i] == f(a);
    }
  }

  lemma WordNotInEmpty(a: string, w: string)
    requires w != "" && Contains(Normalise(a), w)
    ensures a != ""
  {
  }

  /** Joining the attributes creates no false match: the token is a substring of one normalised attribute. */
  lemma FreeTokenMatchesOneAttribute(glob: Glob, w: string, d: BlockDevice)
    requires PlainWord(w)
    ensures MatchesFreeToken(glob, w, SearchCorpus(d)) <==>
            exists a :: a in Attributes(d) && Contains(Normalise(a), Lower(w))
  {
    PlainWordNormalises(w);
    var word, attributes := Lower(w), Attributes(d);
    WordInJoin(Map(Normalise, NonEmpty(attributes)), word);
    MapElements(Normalise, NonEmpty(attributes));
    NonEmptyParts(attributes);
    if a :| a in attributes && Contains(Normalise(a), word) {
      WordNotInEmpty(a, word);
      assert Normalise(a) in Map(Normalise, NonEmpty(attributes));
    }
  }
}
