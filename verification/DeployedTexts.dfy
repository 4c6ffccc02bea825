/** What a deployed configuration file reads: the header line, then the text that its quirk or machine profile gives. */
module DeployedTexts {
  import opened Text
  import opened Wrappers
  import opened Dicts
  import opened OwnershipTags
  import opened HardwareFiles
  import Laws = ReconcileLaws

  // ---- The text of a file ----

  /** The value names a file of the companion directory: one short line without an equals sign. */
  predicate NamesCompanion(value: string, companions: Option<map<string, string>>) {
    companions.Some? && value in companions.value && '\n' !in value && '=' !in value && |value| < 256
  }

  /** `text` is `raw` with exactly one newline at its end, however many there were. */
  ghost predicate EndsOnce(raw: string, text: string) {
    exists core :: IsCoreBefore(raw, core) && text == core + "\n"
  }

  /** `raw` is `core` and newlines after it, of which `core` has none at its end. */
  predicate IsCoreBefore(raw: string, core: string) {
    && |core| <= |raw| && raw[..|core|] == core && (core == "" || core[|core| - 1] != '\n')
    && forall i :: |core| <= i < |raw| ==> raw[i] == '\n'
  }

  /** What a source gives for one of its files: the companion's text, newlines translated, or the value itself. */
  function GivenText(source: Source, c: Category, n: string): string
    requires n in source.files.Get(c).entries
  {
    var value := source.files.Get(c).entries[n];
    if NamesCompanion(value, source.companions) then Newlines(source.companions.value[value]) else value
  }

  lemma OwnedEndsOnce(source: Source, c: Category, n: string)
    requires n in source.files.Get(c).entries
    ensures EndsOnce(GivenText(source, c, n), OwnedFile(source, c, n).content)
    ensures OwnedFile(source, c, n).slug == source.slug
  {
    var raw := GivenText(source, c, n);
    assert IsCoreBefore(raw, RStrip(raw, IsNewline));
  }

  /** The source at `k` is the last that has the file. */
  ghost predicate LastHas(sources: seq<Source>, c: Category, n: string, k: nat) {
    && k < |sources| && n in sources[k].files.Get(c).entries
    && forall j :: k < j < |sources| ==> n !in sources[j].files.Get(c).entries
  }

  lemma {:induction false} LastHasIsLast(sources: seq<Source>, c: Category, n: string, k: nat)
    requires LastHas(sources, c, n, k)
    ensures LastSource(sources, c, n) == Some(sources[k])
  {
    if k < |sources| - 1 { LastHasIsLast(sources[..|sources| - 1], c, n, k); }
  }

  /** The desired text of a file is what the last source that has it gives, ending in one newline. */
  lemma DesiredTextExact(sources: seq<Source>, c: Category, n: string, k: nat)
    requires (forall s :: s in sources ==> ValidSource(s)) && LastHas(sources, c, n, k)
    ensures var o := ResolvedFiles(sources).Get(c).Get(n);
            o.Some? && o.value.slug == sources[k].slug && EndsOnce(GivenText(sources[k], c, n), o.value.content)
  {
    LastSourceWins(sources, c, n);
    LastHasIsLast(sources, c, n, k);
    OwnedEndsOnce(sources[k], c, n);
  }

  /** Universal newlines: a carriage return, with the line feed after it if there is one, becomes a line feed. */
  lemma {:induction false} NewlinesTranslate(line: string, rest: string)
    requires '\r' !in line
    ensures Newlines(line) == line
    ensures Newlines(line + ("\r\n" + rest)) == line + ("\n" + Newlines(rest))
    ensures rest == "" || rest[0] != '\n' ==> Newlines(line + ("\r" + rest)) == line + ("\n" + Newlines(rest))
  {
    if line == "" {
      var crlf, cr := "\r\n" + rest, "\r" + rest;
      assert crlf[2..] == rest && cr[1..] == rest;
      assert "" + crlf == crlf && "" + cr == cr;
      assert "" + ("\n" + Newlines(rest)) == "\n" + Newlines(rest);
    } else {
      TranslateFirst(line, "\r\n" + rest);
      TranslateFirst(line, "\r" + rest);
      TranslateFirst(line, "");
      NewlinesTranslate(line[1..], rest);
      assert line == [line[0]] + line[1..];
      assert [line[0]] + (line[1..] + ("\n" + Newlines(rest))) == line + ("\n" + Newlines(rest));
      assert line + "" == line && line[1..] + "" == line[1..];
    }
  }

  lemma TranslateFirst(line: string, tail: string)
    requires line != "" && line[0] != '\r'
    ensures Newlines(line + tail) == [line[0]] + Newlines(line[1..] + tail)
  {
    assert (line + tail)[1..] == line[1..] + tail && (line + tail)[0] == line[0];
  }

  // ---- The file ----

  /** The text without newlines at its ends; a header line that it starts with does not count. */
  ghost predicate IsBody(text: string, body: string) {
    && Trimmed(body)
    && exists line, u, v :: text == line + u + body + v && AllNewlines(u) && AllNewlines(v) && NoNewline(line)
         && if StartsWith(text, "# arches-hardware-rescan: managed quirk=") then body != "" ==> u != "" else line == ""
  }

  /** A deployed file: the header line with the slug, and the body of its text. */
  ghost predicate ReadsAs(file: string, slug: string, text: string) {
    exists body ::
      IsBody(text, body) && file == "# arches-hardware-rescan: managed quirk=" + slug + "\n" + (body + "\n")
  }

  lemma Ends(s: string) returns (u: string, l: string)
    ensures l == LStrip(s, IsNewline) && s == u + l && AllNewlines(u)
  {
    hide LStrip;
    l := LStrip(s, IsNewline);
    u := s[..|s| - |l|];
    assert s[|s| - |l|..] == l;
    assert forall i :: 0 <= i < |u| ==> u[i] == s[i] && IsNewline(s[i]);
  }

  lemma Tails(l: string) returns (v: string)
    ensures l == RStrip(l, IsNewline) + v && AllNewlines(v)
  {
    var t := RStrip(l, IsNewline);
    hide RStrip;
    v := l[|t|..];
    assert l == l[..|t|] + v;
    forall i | 0 <= i < |v| ensures v[i] == '\n' {
      var k := |t| + i;
      assert IsNewline(l[k]) && v[i] == l[k];
    }
  }

  lemma Around(s: string) returns (u: string, v: string)
    ensures s == u + TrimNewlines(s) + v && AllNewlines(u) && AllNewlines(v)
  {
    hide LStrip, RStrip, AllNewlines;
    var l;
    u, l := Ends(s);
    v := Tails(l);
    assert u + (TrimNewlines(s) + v) == u + TrimNewlines(s) + v;
  }

  lemma BodyIsBody(text: string)
    ensures IsBody(text, Body(MANAGED_HEADER_PREFIX, text))
  {
    hide TrimNewlines, FirstLine;
    var prefix := MANAGED_HEADER_PREFIX;
    if StartsWith(text, prefix) {
      var line, rest := FirstLine(text), AfterFirstLine(text);
      var u, v := Around(rest);
      TrimTrims(rest);
      SplitHeader(text, line, rest, u, TrimNewlines(rest), v);
    } else {
      var u, v := Around(text);
      TrimTrims(text);
      assert text == "" + u + TrimNewlines(text) + v;
    }
  }

  lemma SplitHeader(text: string, line: string, rest: string, u: string, body: string, v: string)
    requires line == FirstLine(text) && rest == AfterFirstLine(text) && rest == u + body + v && Trimmed(body)
    requires AllNewlines(u) && AllNewlines(v) && StartsWith(text, MANAGED_HEADER_PREFIX)
    ensures IsBody(text, body)
  {
    hide FirstLine;
    if |line| == |text| {
      assert text == line + "" + body + v;
    } else {
      assert text == line + ("\n" + rest);
      assert text == line + ("\n" + u) + body + v;
      assert AllNewlines("\n" + u);
    }
  }

  lemma TaggedReads(slug: string, text: string)
    ensures ReadsAs(Tag(slug, text), slug, text)
  {
    hide Body, IsBody;
    BodyIsBody(text);
  }

  /**
   * After a deployment, and after a reconcile where nothing was in its place, a file reads as its header line and
   * the text that the last source that has it gives.
   */
  lemma DeployedFileReads(dirs: Dirs, sources: seq<Source>, c: Category, n: string, k: nat)
    requires (forall s :: s in sources ==> ValidSource(s)) && LastHas(sources, c, n, k)
    ensures exists file, text ::
              && EndsOnce(GivenText(sources[k], c, n), text) && ReadsAs(file, sources[k].slug, text)
              && At(Laws.Deployed(HEADER, dirs, ResolvedFiles(sources)), c, n) == Some(File(file))
              && (At(dirs, c, n).None? ==>
                  At(Reconciled(HEADER, dirs, ResolvedFiles(sources)), c, n) == Some(File(file)))
  {
    hide EndsOnce, ReadsAs, Reconciled, Laws.Deployed, ResolvedFiles, Tag, GivenText;
    var desired := ResolvedFiles(sources);
    LastSourceWins(sources, c, n);
    DesiredTextExact(sources, c, n, k);
    var o := desired.Get(c).entries[n];
    Laws.DeployedAt(HEADER, dirs, desired, c, n);
    Laws.ReconciledAt(HEADER, dirs, desired, c, n);
    TaggedReads(o.slug, o.content);
    assert TagOf(HEADER, o) == Tag(o.slug, o.content);
  }
}
