/** The management header that marks the configuration files the rescan owns. */
module OwnershipTags {
  import opened Text
  import opened Wrappers

  const MANAGED_HEADER_PREFIX := "# arches-hardware-rescan: managed quirk="

  /** How much of a file is read to find its header. */
  const HEADER_READ := 256

  predicate IsNewline(c: char) {
    c == '\n'
  }

  predicate NoNewline(s: string) {
    '\n' !in s
  }

  /** Python's `s[n:]`. */
  function Drop(s: string, n: nat): string {
    if n <= |s| then s[n..] else ""
  }

  function TrimNewlines(s: string): string {
    StripBoth(s, IsNewline)
  }

  /** The part of `s` before the first newline, and the part after it. */
  function FirstLine(s: string): (r: string)
    ensures |r| <= |s| && r == s[..|r|] && NoNewline(r)
    ensures |r| < |s| ==> s[|r|] == '\n'
  {
    if s == "" || s[0] == '\n' then "" else [s[0]] + FirstLine(s[1..])
  }

  function AfterFirstLine(s: string): string {
    var line := FirstLine(s);
    if |line| == |s| then "" else s[|line| + 1..]
  }

  /** A file's text without a header, and without newlines at either end. */
  function Body(prefix: string, content: string): string {
    TrimNewlines(if StartsWith(content, prefix) then AfterFirstLine(content) else content)
  }

  function TagWith(prefix: string, slug: string, content: string): string {
    prefix + slug + "\n" + (Body(prefix, content) + "\n")
  }

  /** The part of a file that is read. */
  function Head(text: string): string {
    if |text| <= HEADER_READ then text else text[..HEADER_READ]
  }

  function Named(owner: string): Option<string> {
    if owner == "" then None else Some(owner)
  }

  function OwnerIn(prefix: string, first: string): Option<string> {
    if !StartsWith(first, prefix) then None else Named(Strip(Drop(FirstLine(first), |prefix|)))
  }

  function OwnerWith(prefix: string, text: string): Option<string> {
    OwnerIn(prefix, Head(text))
  }

  /** `_tag_content`. */
  function Tag(slug: string, content: string): string {
    TagWith(MANAGED_HEADER_PREFIX, slug, content)
  }

  /** `is_managed_file` on the text of a file. */
  function Owner(text: string): Option<string> {
    OwnerWith(MANAGED_HEADER_PREFIX, text)
  }

  ghost predicate GoodPrefix(prefix: string) {
    NoNewline(prefix) && |prefix| < HEADER_READ
  }

  lemma PrefixIsGood()
    ensures GoodPrefix(MANAGED_HEADER_PREFIX)
  {
  }

  // ---- Reading the owner back ----

  /** A slug that survives being written into a header and read back. */
  predicate CleanSlug(slug: string) {
    slug != "" && NoNewline(slug) && Strip(slug) == slug && |MANAGED_HEADER_PREFIX| + |slug| <= HEADER_READ
  }

  lemma {:induction false} FirstLineOf(s: string, t: string)
    requires NoNewline(s)
    ensures FirstLine(s + "\n" + t) == s && FirstLine(s) == s
  {
    if s == "" {
      assert s + "\n" + t == "\n" + t;
    } else {
      assert (s + "\n" + t)[1..] == s[1..] + "\n" + t;
      FirstLineOf(s[1..], t);
    }
  }

  lemma StripShortens(s: string)
    ensures |Strip(s)| <= |s|
  {
  }

  /** What is left of the slug in the part of the header that is read. */
  function ReadSlug(prefix: string, slug: string): (r: string)
    requires |prefix| <= HEADER_READ
    ensures |r| <= |slug|
  {
    FirstLine(if |prefix| + |slug| <= HEADER_READ then slug else slug[..HEADER_READ - |prefix|])
  }

  lemma {:induction false} FirstLinePrefixed(p: string, s: string)
    requires NoNewline(p)
    ensures FirstLine(p + s) == p + FirstLine(s)
  {
    if p == "" {
      assert p + s == s;
    } else {
      assert (p + s)[1..] == p[1..] + s;
      FirstLinePrefixed(p[1..], s);
    }
  }

  lemma {:induction false} FirstLineStable(s: string, t: string)
    requires !NoNewline(s)
    ensures FirstLine(s + t) == FirstLine(s)
  {
    if s[0] != '\n' {
      assert (s + t)[1..] == s[1..] + t;
      FirstLineStable(s[1..], t);
    }
  }

  /** The part of a tagged file that is read: the header line, cut short if it is too long. */
  lemma ReadPart(prefix: string, slug: string, rest: string) returns (seen: string, more: string)
    requires |prefix| < HEADER_READ
    ensures Head(prefix + slug + "\n" + rest) == prefix + (seen + more)
    ensures ReadSlug(prefix, slug) == FirstLine(seen)
    ensures more == "" || more[0] == '\n'
  {
    if |prefix| + |slug| <= HEADER_READ {
      seen := slug;
      var tail := "\n" + rest;
      more := if |prefix| + |slug| + |tail| <= HEADER_READ then tail else tail[..HEADER_READ - |prefix| - |slug|];
      assert prefix + slug + "\n" + rest == prefix + (slug + tail);
    } else {
      seen, more := slug[..HEADER_READ - |prefix|], "";
      assert (prefix + slug + "\n" + rest)[..HEADER_READ] == prefix + seen;
      assert seen + more == seen;
    }
  }

  lemma FirstLineBefore(seen: string, more: string)
    requires more == "" || more[0] == '\n'
    ensures FirstLine(seen + more) == FirstLine(seen)
  {
    if more == "" {
      assert seen + more == seen;
    } else if NoNewline(seen) {
      assert seen + more == seen + "\n" + more[1..];
      FirstLineOf(seen, more[1..]);
    } else {
      FirstLineStable(seen, more);
    }
  }

  lemma OwnerOfRead(prefix: string, first: string, line: string)
    requires FirstLine(first) == prefix + line
    ensures OwnerIn(prefix, first) == Named(Strip(line))
  {
    assert first[..|prefix|] == (prefix + line)[..|prefix|] == prefix;
    assert Drop(prefix + line, |prefix|) == line;
  }

  /** Whatever follows the header, the owner read back is what is left of the slug. */
  lemma OwnerOfHeader(prefix: string, slug: string, rest: string)
    requires GoodPrefix(prefix)
    ensures OwnerWith(prefix, prefix + slug + "\n" + rest) == Named(Strip(ReadSlug(prefix, slug)))
  {
    var seen, more := ReadPart(prefix, slug, rest);
    FirstLinePrefixed(prefix, seen + more);
    FirstLineBefore(seen, more);
    OwnerOfRead(prefix, Head(prefix + slug + "\n" + rest), FirstLine(seen));
  }

  lemma TagShape(prefix: string, slug: string, content: string) returns (rest: string)
    ensures TagWith(prefix, slug, content) == prefix + slug + "\n" + rest
  {
    rest := Body(prefix, content) + "\n";
  }

  lemma OwnerOfTagged(prefix: string, slug: string, content: string)
    requires GoodPrefix(prefix)
    ensures OwnerWith(prefix, TagWith(prefix, slug, content)) == Named(Strip(ReadSlug(prefix, slug)))
  {
    var rest := TagShape(prefix, slug, content);
    OwnerOfHeader(prefix, slug, rest);
  }

  /** The tagged file's owner reads back as the slug exactly for the clean slugs. */
  lemma OwnerReadsBack(slug: string, content: string)
    ensures Owner(Tag(slug, content)) == Some(slug) <==> CleanSlug(slug)
  {
    PrefixIsGood();
    OwnerReadsBackWith(MANAGED_HEADER_PREFIX, slug, content);
  }

  lemma OwnerReadsBackWith(prefix: string, slug: string, content: string)
    requires GoodPrefix(prefix)
    ensures OwnerWith(prefix, TagWith(prefix, slug, content)) == Some(slug) <==>
            slug != "" && NoNewline(slug) && Strip(slug) == slug && |prefix| + |slug| <= HEADER_READ
  {
    OwnerOfTagged(prefix, slug, content);
    ReadSlugWhole(prefix, slug);
    StripShortens(ReadSlug(prefix, slug));
  }

  lemma ReadSlugWhole(prefix: string, slug: string)
    requires |prefix| < HEADER_READ
    ensures NoNewline(slug) && |prefix| + |slug| <= HEADER_READ ==> ReadSlug(prefix, slug) == slug
    ensures !(NoNewline(slug) && |prefix| + |slug| <= HEADER_READ) ==> |ReadSlug(prefix, slug)| < |slug|
  {
    if NoNewline(slug) { FirstLineOf(slug, ""); }
  }

  /** A slug that leaves some trace of itself in the header, so that the file counts as managed. */
  predicate Recognised(slug: string) {
    Strip(ReadSlug(MANAGED_HEADER_PREFIX, slug)) != ""
  }

  lemma TaggedIsManaged(slug: string, content: string)
    ensures Owner(Tag(slug, content)).Some? <==> Recognised(slug)
  {
    PrefixIsGood();
    OwnerOfTagged(MANAGED_HEADER_PREFIX, slug, content);
  }

  /** The characters of the slug that are read: those on its first line, within the bytes read. */
  lemma ReadSlugReaches(prefix: string, slug: string, i: nat)
    requires |prefix| <= HEADER_READ && i < |slug| && slug[i] != '\n'
    ensures i < |ReadSlug(prefix, slug)| <==> |prefix| + i < HEADER_READ && NoNewline(slug[..i])
    ensures i < |ReadSlug(prefix, slug)| ==> ReadSlug(prefix, slug)[i] == slug[i]
  {
    var seen := if |prefix| + |slug| <= HEADER_READ then slug else slug[..HEADER_READ - |prefix|];
    var r := FirstLine(seen);
    if i < |r| {
      assert slug[..i] == r[..i];
    } else if i < |seen| {
      assert seen[|r|] == '\n' && |r| < i;
      assert slug[..i][|r|] == '\n';
    }
  }

  lemma StripLeavesNothing(s: string)
    ensures Strip(s) == "" <==> forall i :: 0 <= i < |s| ==> IsSpace(s[i])
  {
    hide IsSpace;
    var l := LStrip(s, IsSpace);
    if l != "" {
      assert l[0] == s[|s| - |l|];
      assert RStrip(l, IsSpace) != "";
    }
  }

  /** This character of the slug is no blank, on the first line and within the bytes read. */
  predicate Traced(slug: string, i: int)
    requires 0 <= i < |slug|
  {
    !IsSpace(slug[i]) && |MANAGED_HEADER_PREFIX| + i < HEADER_READ && NoNewline(slug[..i])
  }

  lemma TracedInRead(slug: string, i: nat)
    requires i < |slug| && |MANAGED_HEADER_PREFIX| <= HEADER_READ
    ensures var r := ReadSlug(MANAGED_HEADER_PREFIX, slug); Traced(slug, i) <==> i < |r| && !IsSpace(r[i])
  {
    hide ReadSlug;
    ReadSlugIsPrefix(MANAGED_HEADER_PREFIX, slug);
    assert IsSpace('\n');
    if slug[i] != '\n' { ReadSlugReaches(MANAGED_HEADER_PREFIX, slug, i); }
  }

  lemma ReadSlugIsPrefix(prefix: string, slug: string)
    requires |prefix| <= HEADER_READ
    ensures var r := ReadSlug(prefix, slug); r == slug[..|r|]
  {
  }

  /** A slug leaves a trace exactly if one of its characters is traced. */
  lemma RecognisedExactly(slug: string)
    ensures Recognised(slug) <==> exists i :: 0 <= i < |slug| && Traced(slug, i)
  {
    hide ReadSlug, Strip;
    PrefixIsGood();
    var prefix := MANAGED_HEADER_PREFIX;
    var r := ReadSlug(prefix, slug);
    StripLeavesNothing(r);
    assert IsSpace('\n');
    forall i | 0 <= i < |slug| ensures Traced(slug, i) <==> i < |r| && !IsSpace(r[i]) {
      TracedInRead(slug, i);
    }
  }

  /** So an empty slug and a blank one are not recognised. */
  lemma EmptySlugIsNotRecognised()
    ensures !Recognised("") && !Recognised(" ")
  {
    hide Recognised, NoNewline;
    assert IsSpace(' ');
    RecognisedExactly("");
    RecognisedExactly(" ");
  }

  // ---- Any file ----

  lemma OwnerNeedsPrefix(prefix: string, text: string)
    requires GoodPrefix(prefix) && !StartsWith(text, prefix)
    ensures OwnerWith(prefix, text).None?
  {
    if |text| > HEADER_READ { assert text[..HEADER_READ][..|prefix|] == text[..|prefix|]; }
  }

  lemma OwnerAfterPrefix(prefix: string, rest: string)
    requires GoodPrefix(prefix)
    ensures OwnerWith(prefix, prefix + rest) == Named(Strip(ReadSlug(prefix, rest)))
  {
    var seen := if |prefix| + |rest| <= HEADER_READ then rest else rest[..HEADER_READ - |prefix|];
    assert Head(prefix + rest) == prefix + seen;
    FirstLinePrefixed(prefix, seen);
    OwnerOfRead(prefix, Head(prefix + rest), FirstLine(seen));
  }

  /**
   * A file counts as managed exactly if it starts with the header's prefix, and a character after it, on the same line
   * and within the bytes read, is no blank. Every other file is foreign.
   */
  lemma ManagedExactly(text: string)
    ensures Owner(text).Some? <==>
            && StartsWith(text, MANAGED_HEADER_PREFIX)
            && exists i :: 0 <= i < |text| - |MANAGED_HEADER_PREFIX| && Traced(text[|MANAGED_HEADER_PREFIX|..], i)
  {
    hide Strip, ReadSlug, Traced, NoNewline, OwnerWith;
    PrefixIsGood();
    var n := |MANAGED_HEADER_PREFIX|;
    if StartsWith(text, MANAGED_HEADER_PREFIX) {
      var rest := text[n..];
      assert text == MANAGED_HEADER_PREFIX + rest;
      OwnerAfterPrefix(MANAGED_HEADER_PREFIX, rest);
      RecognisedExactly(rest);
    } else {
      OwnerNeedsPrefix(MANAGED_HEADER_PREFIX, text);
    }
  }

  // ---- Tagging twice ----

  predicate AllNewlines(s: string) {
    forall i :: 0 <= i < |s| ==> s[i] == '\n'
  }

  lemma {:induction false} LStripPrefix(v: string, b: string)
    requires AllNewlines(v)
    ensures LStrip(v + b, IsNewline) == LStrip(b, IsNewline)
  {
    if v == "" {
      assert v + b == b;
    } else {
      assert (v + b)[1..] == v[1..] + b;
      LStripPrefix(v[1..], b);
    }
  }

  lemma {:induction false} RStripSuffix(b: string, v: string)
    requires AllNewlines(v)
    ensures RStrip(b + v, IsNewline) == RStrip(b, IsNewline)
  {
    if v == "" {
      assert b + v == b;
    } else {
      assert (b + v)[..|b + v| - 1] == b + v[..|v| - 1];
      RStripSuffix(b, v[..|v| - 1]);
    }
  }

  /** Text without newlines at its ends. */
  predicate Trimmed(b: string) {
    b == "" || (b[0] != '\n' && b[|b| - 1] != '\n')
  }

  lemma TrimTrims(s: string)
    ensures Trimmed(TrimNewlines(s))
  {
    var l := LStrip(s, IsNewline);
    var r := RStrip(l, IsNewline);
    if r != "" { assert r[0] == l[0]; }
  }

  lemma StripStays(s: string)
    ensures s == "" || s[0] != '\n' ==> LStrip(s, IsNewline) == s
    ensures s == "" || s[|s| - 1] != '\n' ==> RStrip(s, IsNewline) == s
  {
  }

  lemma TrimAround(v: string, b: string, w: string)
    requires AllNewlines(v) && AllNewlines(w) && Trimmed(b)
    ensures TrimNewlines(v + b + w) == b
  {
    hide LStrip, RStrip, AllNewlines;
    assert v + b + w == v + (b + w);
    LStripPrefix(v, b + w);
    StripStays(b);
    if b == "" {
      assert b + w == w + "";
      LStripPrefix(w, "");
    } else {
      StripStays(b + w);
      RStripSuffix(b, w);
    }
  }

  /** Trimming keeps whatever lies between two characters that are no newlines. */
  lemma TrimCovers(s: string, i: nat, k: nat)
    requires i <= k < |s| && s[i] != '\n' && s[k] != '\n'
    ensures |TrimNewlines(s)| >= k - i + 1
  {
    var l := LStrip(s, IsNewline);
    var cut := |s| - |l|;
    assert cut <= i;
    assert l[k - cut] == s[k];
    assert |RStrip(l, IsNewline)| > k - cut;
  }

  /** More text in front, with a character other than a newline, is more text after trimming. */
  lemma TrimKeeps(v: string, x: string)
    requires !AllNewlines(v)
    ensures |TrimNewlines(v + "\n" + x)| > |TrimNewlines(x)|
  {
    hide TrimNewlines;
    var s := v + "\n" + x;
    var i :| 0 <= i < |v| && v[i] != '\n';
    assert s[i] == v[i];
    var t := TrimNewlines(x);
    if t == "" {
      TrimCovers(s, i, i);
    } else {
      var last := LastOfTrim(x);
      assert s[|v| + 1 + last] == x[last];
      TrimCovers(s, i, |v| + 1 + last);
    }
  }

  lemma LastOfTrim(x: string) returns (last: nat)
    requires TrimNewlines(x) != ""
    ensures last < |x| && x[last] != '\n' && |TrimNewlines(x)| <= last + 1
  {
    var t, l := TrimNewlines(x), LStrip(x, IsNewline);
    last := |x| - |l| + |t| - 1;
    TrimTrims(x);
    LocateTrim(x);
    assert x[last] == t[|t| - 1];
  }

  lemma LocateTrim(x: string)
    ensures var lx := LStrip(x, IsNewline); var t := TrimNewlines(x);
            |t| <= |lx| <= |x| && t == x[|x| - |lx|..][..|t|]
  {
  }

  /** A slug whose newlines, if any, are all at its end. */
  predicate OneLine(slug: string) {
    NoNewline(RStrip(slug, IsNewline))
  }

  lemma OneLineEnds(slug: string)
    requires OneLine(slug)
    ensures AllNewlines(AfterFirstLine(slug))
  {
    var r := RStrip(slug, IsNewline);
    assert forall i :: 0 <= i < |r| ==> slug[i] == r[i] && r[i] != '\n';
    assert |r| <= |FirstLine(slug)|;
  }

  lemma EndsOneLine(slug: string)
    requires AllNewlines(AfterFirstLine(slug))
    ensures OneLine(slug)
  {
    var r := RStrip(slug, IsNewline);
    var line := FirstLine(slug);
    forall k | |line| < k < |slug| ensures slug[k] == '\n' {
      assert AfterFirstLine(slug)[k - |line| - 1] == slug[k];
    }
    assert |r| <= |line|;
    assert r == line[..|r|];
  }

  /** Tagging twice is tagging with the last slug, exactly when the first slug is one line. */
  lemma RetagReplacesExactly(first: string, last: string, content: string)
    ensures Tag(last, Tag(first, content)) == Tag(last, content) <==> OneLine(first)
  {
    PrefixIsGood();
    RetagWith(MANAGED_HEADER_PREFIX, first, last, content);
  }

  lemma RetagWith(prefix: string, first: string, last: string, content: string)
    requires GoodPrefix(prefix)
    ensures TagWith(prefix, last, TagWith(prefix, first, content)) == TagWith(prefix, last, content) <==> OneLine(first)
  {
    BodyOfTagged(prefix, first, content);
    if OneLine(first) { OneLineEnds(first); }
    if AllNewlines(AfterFirstLine(first)) { EndsOneLine(first); }
    SameEnds(prefix + last + "\n", Body(prefix, TagWith(prefix, first, content)), Body(prefix, content));
  }

  lemma SameEnds(h: string, a: string, b: string)
    ensures h + (a + "\n") == h + (b + "\n") <==> a == b
  {
    assert a == (h + (a + "\n"))[|h|..|h + (a + "\n")| - 1];
    assert b == (h + (b + "\n"))[|h|..|h + (b + "\n")| - 1];
  }

  lemma AfterPrefixed(p: string, s: string)
    requires NoNewline(p)
    ensures AfterFirstLine(p + s) == AfterFirstLine(s)
  {
    FirstLinePrefixed(p, s);
    hide FirstLine;
    assert (p + s)[|p| + |FirstLine(s)|..] == s[|FirstLine(s)|..];
  }

  lemma AfterJoined(first: string, tail: string)
    requires tail != "" && tail[0] == '\n'
    ensures AfterFirstLine(first + tail) == if NoNewline(first) then tail[1..] else AfterFirstLine(first) + tail
  {
    hide FirstLine;
    FirstLineBefore(first, tail);
    var line := FirstLine(first);
    if NoNewline(first) {
      FirstLineOf(first, "");
      assert (first + tail)[|first| + 1..] == tail[1..];
    } else {
      assert |line| < |first|;
      assert (first + tail)[|line| + 1..] == first[|line| + 1..] + tail;
    }
  }

  /** What follows the first line of a tagged file. */
  lemma AfterTag(prefix: string, first: string, body: string)
    requires NoNewline(prefix)
    ensures AfterFirstLine(prefix + first + "\n" + (body + "\n")) ==
            if NoNewline(first) then body + "\n" else AfterFirstLine(first) + "\n" + (body + "\n")
  {
    var tail := "\n" + (body + "\n");
    AfterPrefixed(prefix, first + tail);
    AfterJoined(first, tail);
    Regroup(prefix, first, body);
    assert AfterFirstLine(first) + tail == AfterFirstLine(first) + "\n" + (body + "\n");
  }

  lemma Regroup(prefix: string, first: string, body: string)
    ensures prefix + first + "\n" + (body + "\n") == prefix + (first + ("\n" + (body + "\n")))
  {
  }

  lemma StartsTagged(prefix: string, first: string, body: string)
    ensures StartsWith(prefix + first + "\n" + (body + "\n"), prefix)
  {
    assert (prefix + first + "\n" + (body + "\n"))[..|prefix|] == prefix;
  }

  lemma BodyOfTagged(prefix: string, first: string, content: string)
    requires NoNewline(prefix)
    ensures Body(prefix, TagWith(prefix, first, content)) == Body(prefix, content) <==>
            AllNewlines(AfterFirstLine(first))
  {
    var body := Body(prefix, content);
    TrimTrims(if StartsWith(content, prefix) then AfterFirstLine(content) else content);
    AfterTag(prefix, first, body);
    StartsTagged(prefix, first, body);
    assert Body(prefix, TagWith(prefix, first, content)) ==
           TrimNewlines(AfterFirstLine(prefix + first + "\n" + (body + "\n")));
    TrimBodies(first, body);
  }

  lemma TrimBodies(first: string, body: string)
    requires Trimmed(body)
    ensures TrimNewlines(if NoNewline(first) then body + "\n" else AfterFirstLine(first) + "\n" + (body + "\n")) == body
            <==> AllNewlines(AfterFirstLine(first))
  {
    hide TrimNewlines;
    var after := AfterFirstLine(first);
    assert body + "\n" == "" + body + "\n";
    TrimAround("", body, "\n");
    if NoNewline(first) {
      FirstLineOf(first, "");
    } else if AllNewlines(after) {
      assert after + "\n" + (body + "\n") == (after + "\n") + body + "\n";
      TrimAround(after + "\n", body, "\n");
    } else {
      TrimKeeps(after, body + "\n");
    }
  }
}
