/** Which live disk answers to a recorded one, and what the report says of it, whatever identifiers the disks share. */
module RolesDrift {
  import opened Sorting
  import opened Wrappers
  import opened Dicts
  import opened Disk
  import opened LayoutPrograms
  import opened RolesState

  // ---- The disk that answers ----

  ghost predicate LastAt(candidates: seq<BlockDevice>, p: BlockDevice -> bool, k: nat) {
    k < |candidates| && p(candidates[k]) && forall j :: k < j < |candidates| ==> !p(candidates[j])
  }

  predicate HasSerial(c: BlockDevice, rec: RecordedDisk) {
    rec.serial != "" && c.serial == rec.serial
  }

  predicate HasWwn(c: BlockDevice, rec: RecordedDisk) {
    rec.wwn != "" && c.wwn == rec.wwn
  }

  /** The link at `i` is the first one that some live disk has. */
  ghost predicate FirstKnownLink(links: seq<string>, candidates: seq<BlockDevice>, i: nat) {
    && i < |links| && (exists c :: c in candidates && links[i] in c.byIdLinks)
    && forall c, j :: c in candidates && 0 <= j < i ==> links[j] !in c.byIdLinks
  }

  /**
   * The last disk with the recorded serial; if there is none, the last with the World-Wide Name; and if there is none
   * of those either, the last with the first by-id link that any disk has.
   */
  ghost predicate Answers(rec: RecordedDisk, candidates: seq<BlockDevice>, k: nat) {
    if exists c :: c in candidates && HasSerial(c, rec) then
      LastAt(candidates, (c: BlockDevice) => HasSerial(c, rec), k)
    else if exists c :: c in candidates && HasWwn(c, rec) then
      LastAt(candidates, (c: BlockDevice) => HasWwn(c, rec), k)
    else
      exists i: nat :: FirstKnownLink(rec.byIdLinks, candidates, i) &&
                       LastAt(candidates, (c: BlockDevice) => rec.byIdLinks[i] in c.byIdLinks, k)
  }

  lemma {:induction false} LastWithIndex(candidates: seq<BlockDevice>, p: BlockDevice -> bool) returns (k: nat)
    requires LastWith(candidates, p).Some?
    ensures LastAt(candidates, p, k) && LastWith(candidates, p) == Some(candidates[k])
  {
    var n := |candidates| - 1;
    if p(candidates[n]) {
      k := n;
    } else {
      k := LastWithIndex(candidates[..n], p);
    }
  }

  lemma {:induction false} SameLastWith(candidates: seq<BlockDevice>, p: BlockDevice -> bool, q: BlockDevice -> bool)
    requires forall c :: p(c) == q(c)
    ensures LastWith(candidates, p) == LastWith(candidates, q)
  {
    if candidates != [] { SameLastWith(candidates[..|candidates| - 1], p, q); }
  }

  lemma SerialFirst(rec: RecordedDisk, candidates: seq<BlockDevice>)
    ensures WithSerial(candidates, rec.serial) == LastWith(candidates, (c: BlockDevice) => HasSerial(c, rec))
    ensures WithWwn(candidates, rec.wwn) == LastWith(candidates, (c: BlockDevice) => HasWwn(c, rec))
  {
    var s, t := (c: BlockDevice) => HasSerial(c, rec), (c: BlockDevice) => HasWwn(c, rec);
    if rec.serial != "" {
      SameLastWith(candidates, (c: BlockDevice) => c.serial == rec.serial, s);
    } else if LastWith(candidates, s).Some? {
      assert false;
    }
    if rec.wwn != "" {
      SameLastWith(candidates, (c: BlockDevice) => c.wwn == rec.wwn, t);
    } else if LastWith(candidates, t).Some? {
      assert false;
    }
  }

  lemma {:induction false} FirstLinkIndex(links: seq<string>, candidates: seq<BlockDevice>) returns (i: nat)
    requires FirstLink(links, candidates).Some?
    ensures FirstKnownLink(links, candidates, i) && FirstLink(links, candidates) == WithLink(candidates, links[i])
  {
    if WithLink(candidates, links[0]).Some? {
      i := 0;
    } else {
      var j := FirstLinkIndex(links[1..], candidates);
      i := j + 1;
      assert forall c :: c in candidates ==> links[0] !in c.byIdLinks;
      forall c, k | c in candidates && 0 <= k < i ensures links[k] !in c.byIdLinks {
        assert k > 0 ==> links[k] == links[1..][k - 1];
      }
    }
  }

  /** The live disk that is found is the one that answers. */
  lemma LiveAnswers(rec: RecordedDisk, candidates: seq<BlockDevice>) returns (k: nat)
    requires Live(rec, candidates).Some?
    ensures Answers(rec, candidates, k) && Live(rec, candidates) == Some(candidates[k])
  {
    hide HasSerial, HasWwn, LastWith, FirstLink, WithSerial, WithWwn;
    SerialFirst(rec, candidates);
    var s, t := (c: BlockDevice) => HasSerial(c, rec), (c: BlockDevice) => HasWwn(c, rec);
    if LastWith(candidates, s).Some? {
      k := LastWithIndex(candidates, s);
    } else if LastWith(candidates, t).Some? {
      k := LastWithIndex(candidates, t);
    } else {
      var i := FirstLinkIndex(rec.byIdLinks, candidates);
      k := LastWithIndex(candidates, (c: BlockDevice) => rec.byIdLinks[i] in c.byIdLinks);
    }
  }

  lemma OneAnswers(rec: RecordedDisk, candidates: seq<BlockDevice>, k: nat, l: nat)
    requires Answers(rec, candidates, k) && Answers(rec, candidates, l)
    ensures k == l
  {
    hide HasSerial, HasWwn;
  }

  // ---- The report ----

  /** How a lost disk is listed. */
  predicate ListedAs(d: BlockDevice, id: string) {
    || (d.serial != "" && id == d.serial)
    || (d.serial == "" && d.wwn != "" && id == d.wwn)
    || (d.serial == "" && d.wwn == "" && id == "(unknown)")
  }

  /** The report lists the lost disks of a role by serial, else by World-Wide Name, else as unknown. */
  lemma MissingListsExactly(report: Report, a: Assignments, candidates: seq<BlockDevice>, role: string, id: string)
    requires a.Valid() && ValidReport(report, a, candidates) && role in a.entries
    ensures role in report.missing.entries && id in report.missing.entries[role] <==>
            exists d :: d in a.entries[role] && Gone(Record(d), candidates) && ListedAs(d, id)
  {
    hide Gone, ValidReport;
    MissingMeansGone(report, a, candidates, role);
    forall d: BlockDevice ensures ListedAs(d, id) <==> id == StableId(Record(d)) {}
  }

  /** The disk that answers has another path than the one recorded. */
  ghost predicate DriftedTo(d: BlockDevice, candidates: seq<BlockDevice>, pair: (string, string)) {
    exists k: nat :: k < |candidates| && Answers(Record(d), candidates, k) &&
                     d.path != "" && d.path != candidates[k].path && pair == (d.path, candidates[k].path)
  }

  lemma RelocationDrifts(d: BlockDevice, candidates: seq<BlockDevice>, pair: (string, string))
    ensures pair in Relocation(Record(d), Live(Record(d), candidates)) <==> DriftedTo(d, candidates, pair)
  {
    hide Live, Answers;
    var rec := Record(d);
    if Live(rec, candidates).Some? {
      var k := LiveAnswers(rec, candidates);
      AnswersInside(rec, candidates, k);
      if DriftedTo(d, candidates, pair) {
        var l: nat :| l < |candidates| && Answers(rec, candidates, l) && pair == (d.path, candidates[l].path) &&
                      d.path != "" && d.path != candidates[l].path;
        OneAnswers(rec, candidates, k, l);
      }
    } else {
      LiveFinds(rec, candidates);
      forall k: nat | k < |candidates| ensures !Answers(rec, candidates, k) { GoneAnswersNot(rec, candidates, k); }
    }
  }

  lemma AnswersInside(rec: RecordedDisk, candidates: seq<BlockDevice>, k: nat)
    requires Answers(rec, candidates, k)
    ensures k < |candidates| && SameDisk(rec, candidates[k])
  {
    if exists c :: c in candidates && HasSerial(c, rec) {
    } else if exists c :: c in candidates && HasWwn(c, rec) {
    } else {
      var i: nat :| FirstKnownLink(rec.byIdLinks, candidates, i) &&
                    LastAt(candidates, (c: BlockDevice) => rec.byIdLinks[i] in c.byIdLinks, k);
      assert rec.byIdLinks[i] in candidates[k].byIdLinks;
    }
  }

  lemma GoneAnswersNot(rec: RecordedDisk, candidates: seq<BlockDevice>, k: nat)
    requires Gone(rec, candidates) && k < |candidates|
    ensures !Answers(rec, candidates, k)
  {
    hide Answers, SameDisk;
    assert candidates[k] in candidates;
    if Answers(rec, candidates, k) { AnswersInside(rec, candidates, k); }
  }

  lemma {:induction false} RelocationsDrift(devices: seq<BlockDevice>, candidates: seq<BlockDevice>,
                                            pair: (string, string))
    ensures pair in Relocations(Map(Record, devices), candidates) <==>
            exists d :: d in devices && DriftedTo(d, candidates, pair)
  {
    hide DriftedTo, Live, Relocation;
    if devices != [] {
      var n := |devices| - 1;
      assert devices == devices[..n] + [devices[n]];
      assert Map(Record, devices)[..n] == Map(Record, devices[..n]);
      RelocationsDrift(devices[..n], candidates, pair);
      RelocationDrifts(devices[n], candidates, pair);
    }
  }

  /** The report lists exactly the recorded path and the present path of the disk that answers, where they differ. */
  lemma RelocatedExactly(report: Report, a: Assignments, candidates: seq<BlockDevice>, role: string,
                         pair: (string, string))
    requires a.Valid() && ValidReport(report, a, candidates) && role in a.entries
    ensures role in report.relocated.entries && pair in report.relocated.entries[role] <==>
            exists d :: d in a.entries[role] && DriftedTo(d, candidates, pair)
  {
    hide MissingIds, Relocations, DriftedTo;
    var recs := Map(Record, a.entries[role]);
    assert ToState(a).entries[role] == recs;
    assert report.relocated.Get(role) == NonEmpty(Relocations(recs, candidates));
    RelocationsDrift(a.entries[role], candidates, pair);
  }
}
