/** The recorded disk roles, and their validation against the disks found on a later boot. */
module RolesState {
  import opened Wrappers
  import opened Dicts
  import opened Sorting
  import opened Disk
  import opened LayoutPrograms

  /** What is recorded of a disk: its stable identifiers, and its path at install time. */
  datatype RecordedDisk = RecordedDisk(serial: string, wwn: string, byIdLinks: seq<string>, pathAtInstall: string)

  type State = Dict<seq<RecordedDisk>>

  function Record(d: BlockDevice): RecordedDisk {
    RecordedDisk(d.serial, d.wwn, d.byIdLinks, d.path)
  }

  /** The devices part of `to_state_dict`. */
  function ToState(a: Assignments): State {
    Dict(a.keys, map r | r in a.entries :: Map(Record, a.entries[r]))
  }

  datatype Report = Report(missing: Dict<seq<string>>, relocated: Dict<seq<(string, string)>>, ok: seq<string>)

  // ---- The lookup tables ----

  datatype Tables = Tables(
    bySerial: map<string, BlockDevice>,
    byWwn: map<string, BlockDevice>,
    byId: map<string, BlockDevice>)

  /** The last candidate of which `p` holds. */
  function LastWith(candidates: seq<BlockDevice>, p: BlockDevice -> bool): (r: Option<BlockDevice>)
    ensures r.Some? ==> r.value in candidates && p(r.value)
    ensures r.None? ==> forall c :: c in candidates ==> !p(c)
  {
    if candidates == [] then None
    else
      var n := |candidates| - 1;
      assert candidates == candidates[..n] + [candidates[n]];
      if p(candidates[n]) then Some(candidates[n]) else LastWith(candidates[..n], p)
  }

  function Entry(m: map<string, BlockDevice>, k: string): Option<BlockDevice> {
    if k in m then Some(m[k]) else None
  }

  function WithSerial(candidates: seq<BlockDevice>, serial: string): Option<BlockDevice> {
    if serial == "" then None else LastWith(candidates, (c: BlockDevice) => c.serial == serial)
  }

  function WithWwn(candidates: seq<BlockDevice>, wwn: string): Option<BlockDevice> {
    if wwn == "" then None else LastWith(candidates, (c: BlockDevice) => c.wwn == wwn)
  }

  function WithLink(candidates: seq<BlockDevice>, link: string): Option<BlockDevice> {
    LastWith(candidates, (c: BlockDevice) => link in c.byIdLinks)
  }

  ghost predicate TablesOf(t: Tables, candidates: seq<BlockDevice>) {
    && (forall s :: Entry(t.bySerial, s) == WithSerial(candidates, s))
    && (forall s :: Entry(t.byWwn, s) == WithWwn(candidates, s))
    && (forall s :: Entry(t.byId, s) == WithLink(candidates, s))
  }

  lemma LastWithSnoc(candidates: seq<BlockDevice>, c: BlockDevice, p: BlockDevice -> bool)
    ensures LastWith(candidates + [c], p) == if p(c) then Some(c) else LastWith(candidates, p)
  {
    assert (candidates + [c])[..|candidates|] == candidates;
  }

  method AddLinks(byId: map<string, BlockDevice>, c: BlockDevice) returns (m: map<string, BlockDevice>)
    ensures forall s :: Entry(m, s) == if s in c.byIdLinks then Some(c) else Entry(byId, s)
  {
    m := byId;
    for i := 0 to |c.byIdLinks|
      invariant forall s :: Entry(m, s) == if s in c.byIdLinks[..i] then Some(c) else Entry(byId, s)
    {
      assert c.byIdLinks[..i + 1] == c.byIdLinks[..i] + [c.byIdLinks[i]];
      m := m[c.byIdLinks[i] := c];
    }
    assert c.byIdLinks[..|c.byIdLinks|] == c.byIdLinks;
  }

  method BuildTables(candidates: seq<BlockDevice>) returns (t: Tables)
    ensures TablesOf(t, candidates)
  {
    t := Tables(map[], map[], map[]);
    for i := 0 to |candidates|
      invariant TablesOf(t, candidates[..i])
    {
      var c := candidates[i];
      var links := AddLinks(t.byId, c);
      TablesGrow(t, candidates[..i], c, links);
      assert candidates[..i + 1] == candidates[..i] + [c];
      t := Tables(
        if c.serial != "" then t.bySerial[c.serial := c] else t.bySerial,
        if c.wwn != "" then t.byWwn[c.wwn := c] else t.byWwn,
        links);
    }
    assert candidates[..|candidates|] == candidates;
  }

  lemma TablesGrow(t: Tables, before: seq<BlockDevice>, c: BlockDevice, links: map<string, BlockDevice>)
    requires TablesOf(t, before)
    requires forall s :: Entry(links, s) == if s in c.byIdLinks then Some(c) else Entry(t.byId, s)
    ensures TablesOf(Tables(if c.serial != "" then t.bySerial[c.serial := c] else t.bySerial,
                            if c.wwn != "" then t.byWwn[c.wwn := c] else t.byWwn,
                            links), before + [c])
  {
    forall s
      ensures WithSerial(before + [c], s) == if s != "" && c.serial == s then Some(c) else WithSerial(before, s)
      ensures WithWwn(before + [c], s) == if s != "" && c.wwn == s then Some(c) else WithWwn(before, s)
      ensures WithLink(before + [c], s) == if s in c.byIdLinks then Some(c) else WithLink(before, s)
    {
      LastWithSnoc(before, c, (d: BlockDevice) => d.serial == s);
      LastWithSnoc(before, c, (d: BlockDevice) => d.wwn == s);
      LastWithSnoc(before, c, (d: BlockDevice) => s in d.byIdLinks);
    }
  }

  // ---- The live disk behind a record ----

  function FirstLink(links: seq<string>, candidates: seq<BlockDevice>): Option<BlockDevice> {
    if links == [] then None
    else
      var found := WithLink(candidates, links[0]);
      if found.Some? then found else FirstLink(links[1..], candidates)
  }

  /** Serial first, then World-Wide Name, then the first by-id link that is known. */
  function Live(rec: RecordedDisk, candidates: seq<BlockDevice>): Option<BlockDevice> {
    var serial := WithSerial(candidates, rec.serial);
    var wwn := WithWwn(candidates, rec.wwn);
    if serial.Some? then serial else if wwn.Some? then wwn else FirstLink(rec.byIdLinks, candidates)
  }

  method FindLive(rec: RecordedDisk, t: Tables, ghost candidates: seq<BlockDevice>) returns (live: Option<BlockDevice>)
    requires TablesOf(t, candidates)
    ensures live == Live(rec, candidates)
  {
    assert Entry(t.bySerial, rec.serial) == WithSerial(candidates, rec.serial);
    assert Entry(t.byWwn, rec.wwn) == WithWwn(candidates, rec.wwn);
    if rec.serial != "" && rec.serial in t.bySerial { return Some(t.bySerial[rec.serial]); }
    if rec.wwn != "" && rec.wwn in t.byWwn { return Some(t.byWwn[rec.wwn]); }
    live := FindByLink(rec.byIdLinks, t, candidates);
  }

  method FindByLink(links: seq<string>, t: Tables, ghost candidates: seq<BlockDevice>)
    returns (live: Option<BlockDevice>)
    requires TablesOf(t, candidates)
    ensures live == FirstLink(links, candidates)
  {
    for i := 0 to |links|
      invariant FirstLink(links, candidates) == FirstLink(links[i..], candidates)
    {
      assert links[i..][0] == links[i] && links[i..][1..] == links[i + 1..];
      assert Entry(t.byId, links[i]) == WithLink(candidates, links[i]);
      if links[i] in t.byId { return Some(t.byId[links[i]]); }
    }
    live := None;
  }

  // ---- The report ----

  function StableId(rec: RecordedDisk): string {
    if rec.serial != "" then rec.serial else if rec.wwn != "" then rec.wwn else "(unknown)"
  }

  function MissingIds(devices: seq<RecordedDisk>, candidates: seq<BlockDevice>): seq<string> {
    if devices == [] then []
    else
      var n := |devices| - 1;
      MissingIds(devices[..n], candidates) + if Live(devices[n], candidates).None? then [StableId(devices[n])] else []
  }

  function Relocation(rec: RecordedDisk, live: Option<BlockDevice>): seq<(string, string)> {
    if live.None? || rec.pathAtInstall == "" || rec.pathAtInstall == live.value.path then []
    else [(rec.pathAtInstall, live.value.path)]
  }

  function Relocations(devices: seq<RecordedDisk>, candidates: seq<BlockDevice>): seq<(string, string)> {
    if devices == [] then []
    else
      var n := |devices| - 1;
      Relocations(devices[..n], candidates) + Relocation(devices[n], Live(devices[n], candidates))
  }

  function NonEmpty<T>(s: seq<T>): Option<seq<T>> {
    if s == [] then None else Some(s)
  }

  /** The report on the recorded roles in `done`. */
  ghost predicate ReportsOn(report: Report, state: State, candidates: seq<BlockDevice>, done: seq<string>) {
    && (forall r :: report.missing.Get(r) ==
          if r in done && r in state.entries then NonEmpty(MissingIds(state.entries[r], candidates)) else None)
    && (forall r :: report.relocated.Get(r) ==
          if r in done && r in state.entries then NonEmpty(Relocations(state.entries[r], candidates)) else None)
    && (forall r :: r in report.ok <==>
          (&& r in done && r in state.entries && state.entries[r] != []
           && MissingIds(state.entries[r], candidates) == [] && Relocations(state.entries[r], candidates) == []))
  }

  method CheckRole(devices: seq<RecordedDisk>, t: Tables, ghost candidates: seq<BlockDevice>)
    returns (missing: seq<string>, relocated: seq<(string, string)>)
    requires TablesOf(t, candidates)
    ensures missing == MissingIds(devices, candidates) && relocated == Relocations(devices, candidates)
  {
    hide Live;
    missing, relocated := [], [];
    for i := 0 to |devices|
      invariant missing == MissingIds(devices[..i], candidates) && relocated == Relocations(devices[..i], candidates)
    {
      assert devices[..i + 1][..i] == devices[..i];
      var rec := devices[i];
      var live := FindLive(rec, t, candidates);
      if live.None? {
        missing := missing + [StableId(rec)];
      } else if rec.pathAtInstall != "" && rec.pathAtInstall != live.value.path {
        relocated := relocated + [(rec.pathAtInstall, live.value.path)];
      }
    }
    assert devices[..|devices|] == devices;
  }

  lemma ReportGrows(report: Report, state: State, candidates: seq<BlockDevice>, done: seq<string>, role: string,
                    missing: seq<string>, relocated: seq<(string, string)>)
    requires ReportsOn(report, state, candidates, done) && role !in done && role in state.entries
    requires missing == MissingIds(state.entries[role], candidates)
    requires relocated == Relocations(state.entries[role], candidates)
    ensures ReportsOn(
      Report(if missing != [] then report.missing.Put(role, missing) else report.missing,
             if relocated != [] then report.relocated.Put(role, relocated) else report.relocated,
             if state.entries[role] != [] && missing == [] && relocated == [] then report.ok + [role] else report.ok),
      state, candidates, done + [role])
  {
    hide MissingIds, Relocations;
  }

  lemma NothingReported(state: State, candidates: seq<BlockDevice>)
    ensures ReportsOn(Report(Empty(), Empty(), []), state, candidates, [])
    ensures MissingIds([], candidates) == [] && Relocations([], candidates) == []
  {
  }

  /** `validate_disk_roles` on the recorded state. */
  method ValidateDiskRoles(state: State, candidates: seq<BlockDevice>) returns (report: Report)
    requires state.Valid()
    ensures ReportsOn(report, state, candidates, state.keys)
  {
    hide TablesOf, ReportsOn, MissingIds, Relocations;
    var t := BuildTables(candidates);
    report := Report(Empty(), Empty(), []);
    NothingReported(state, candidates);
    assert state.keys[..0] == [];
    for i := 0 to |state.keys|
      invariant ReportsOn(report, state, candidates, state.keys[..i])
    {
      var role := state.keys[i];
      assert role in state.keys && role !in state.keys[..i];
      assert state.keys[..i + 1] == state.keys[..i] + [role];
      var missing, relocated := [], [];
      if state.entries[role] != [] {
        missing, relocated := CheckRole(state.entries[role], t, candidates);
      }
      ReportGrows(report, state, candidates, state.keys[..i], role, missing, relocated);
      if missing != [] { report := report.(missing := report.missing.Put(role, missing)); }
      if relocated != [] { report := report.(relocated := report.relocated.Put(role, relocated)); }
      if state.entries[role] != [] && missing == [] && relocated == [] { report := report.(ok := report.ok + [role]); }
    }
    assert state.keys[..|state.keys|] == state.keys;
  }

  // ---- What the report means ----

  /** They share a serial, a World-Wide Name or a by-id link. */
  predicate SameDisk(rec: RecordedDisk, c: BlockDevice) {
    || (rec.serial != "" && c.serial == rec.serial)
    || (rec.wwn != "" && c.wwn == rec.wwn)
    || (exists i :: 0 <= i < |rec.byIdLinks| && rec.byIdLinks[i] in c.byIdLinks)
  }

  /** No live disk answers to the record. */
  ghost predicate Gone(rec: RecordedDisk, candidates: seq<BlockDevice>) {
    forall c :: c in candidates ==> !SameDisk(rec, c)
  }

  /** The stable identifiers are unique: at most one live disk answers to the record. */
  ghost predicate Unambiguous(rec: RecordedDisk, candidates: seq<BlockDevice>) {
    forall c, d :: c in candidates && d in candidates && SameDisk(rec, c) && SameDisk(rec, d) ==> c == d
  }

  lemma {:induction false} FirstLinkFinds(links: seq<string>, candidates: seq<BlockDevice>)
    ensures var f := FirstLink(links, candidates);
            && (f.Some? ==> f.value in candidates && exists i :: 0 <= i < |links| && links[i] in f.value.byIdLinks)
            && (f.None? ==> forall c, i :: c in candidates && 0 <= i < |links| ==> links[i] !in c.byIdLinks)
  {
    if links != [] {
      FirstLinkFinds(links[1..], candidates);
      var f := FirstLink(links, candidates);
      if WithLink(candidates, links[0]).Some? {
        assert links[0] in f.value.byIdLinks;
      } else {
        if f.Some? {
          var i :| 0 <= i < |links[1..]| && links[1..][i] in f.value.byIdLinks;
          assert links[i + 1] in f.value.byIdLinks;
        } else {
          forall c, i | c in candidates && 0 <= i < |links| ensures links[i] !in c.byIdLinks {
            if i > 0 { assert links[i] == links[1..][i - 1]; }
          }
        }
      }
    }
  }

  lemma LiveFinds(rec: RecordedDisk, candidates: seq<BlockDevice>)
    ensures var live := Live(rec, candidates);
            && (live.Some? ==> live.value in candidates && SameDisk(rec, live.value))
            && (live.None? <==> Gone(rec, candidates))
  {
    FirstLinkFinds(rec.byIdLinks, candidates);
  }

  lemma {:induction false} MissingExact(devices: seq<RecordedDisk>, candidates: seq<BlockDevice>)
    ensures forall id :: id in MissingIds(devices, candidates) <==>
              exists rec :: rec in devices && Gone(rec, candidates) && id == StableId(rec)
  {
    hide Gone, Live;
    if devices != [] {
      var n := |devices| - 1;
      MissingExact(devices[..n], candidates);
      LiveFinds(devices[n], candidates);
      assert forall rec :: rec in devices <==> rec in devices[..n] || rec == devices[n];
    }
  }

  /** `c` is the live disk behind a record whose path is not the one recorded. */
  predicate Moved(rec: RecordedDisk, c: BlockDevice) {
    SameDisk(rec, c) && rec.pathAtInstall != "" && rec.pathAtInstall != c.path
  }

  ghost predicate MovedTo(rec: RecordedDisk, candidates: seq<BlockDevice>, pair: (string, string)) {
    exists c :: c in candidates && Moved(rec, c) && pair == (rec.pathAtInstall, c.path)
  }

  lemma RelocationExact(rec: RecordedDisk, candidates: seq<BlockDevice>, pair: (string, string))
    requires Unambiguous(rec, candidates)
    ensures pair in Relocation(rec, Live(rec, candidates)) <==> MovedTo(rec, candidates, pair)
  {
    LiveFinds(rec, candidates);
    if MovedTo(rec, candidates, pair) {
      var c :| c in candidates && Moved(rec, c) && pair == (rec.pathAtInstall, c.path);
      assert Live(rec, candidates) == Some(c);
    }
  }

  lemma {:induction false} RelocationsExact(devices: seq<RecordedDisk>, candidates: seq<BlockDevice>,
                                            pair: (string, string))
    requires forall rec :: rec in devices ==> Unambiguous(rec, candidates)
    ensures pair in Relocations(devices, candidates) <==> exists rec :: rec in devices && MovedTo(rec, candidates, pair)
  {
    hide Unambiguous, MovedTo, Live;
    if devices != [] {
      var n := |devices| - 1;
      assert forall rec :: rec in devices <==> rec in devices[..n] || rec == devices[n];
      RelocationsExact(devices[..n], candidates, pair);
      RelocationExact(devices[n], candidates, pair);
    }
  }

  // ---- Persist, then validate ----

  /** The report on the state recorded for `a`. */
  ghost predicate ValidReport(report: Report, a: Assignments, candidates: seq<BlockDevice>) {
    ReportsOn(report, ToState(a), candidates, a.keys)
  }

  ghost predicate AnyGone(devices: seq<BlockDevice>, candidates: seq<BlockDevice>) {
    exists d :: d in devices && Gone(Record(d), candidates)
  }

  ghost predicate AnyMoved(devices: seq<BlockDevice>, candidates: seq<BlockDevice>, pair: (string, string)) {
    exists d :: d in devices && MovedTo(Record(d), candidates, pair)
  }

  lemma RecordedDevices(devices: seq<BlockDevice>)
    ensures forall rec :: rec in Map(Record, devices) <==> exists d :: d in devices && rec == Record(d)
  {
    var recs := Map(Record, devices);
    forall rec | rec in recs ensures exists d :: d in devices && rec == Record(d) {
      var i :| 0 <= i < |recs| && recs[i] == rec;
      assert devices[i] in devices && rec == Record(devices[i]);
    }
    forall d | d in devices ensures Record(d) in recs {
      var i :| 0 <= i < |devices| && devices[i] == d;
      assert recs[i] == Record(d);
    }
  }

  /** A role is missing exactly when one of its disks is gone, and then lists the identifiers of those that are. */
  lemma MissingMeansGone(report: Report, a: Assignments, candidates: seq<BlockDevice>, role: string)
    requires a.Valid() && ValidReport(report, a, candidates) && role in a.entries
    ensures role in report.missing.entries <==> AnyGone(a.entries[role], candidates)
    ensures role in report.missing.entries ==>
              forall id :: id in report.missing.entries[role] <==>
                exists d :: d in a.entries[role] && Gone(Record(d), candidates) && id == StableId(Record(d))
  {
    hide MissingIds, Relocations, Gone;
    var devices := a.entries[role];
    var recs := Map(Record, devices);
    RecordedDevices(devices);
    MissingExact(recs, candidates);
    var ids := MissingIds(recs, candidates);
    assert ToState(a).entries[role] == recs;
    assert report.missing.Get(role) == NonEmpty(ids);
    forall id
      ensures id in ids <==> exists d :: d in devices && Gone(Record(d), candidates) && id == StableId(Record(d))
    {
      if id in ids {
        var rec :| rec in recs && Gone(rec, candidates) && id == StableId(rec);
        var d :| d in devices && rec == Record(d);
      }
    }
    if ids != [] {
      assert ids[0] in ids;
    } else {
      forall d | d in devices ensures !Gone(Record(d), candidates) {
        assert StableId(Record(d)) !in ids;
      }
    }
  }

  /** With unique identifiers, `relocated` holds exactly the old and new paths of the surviving disks that moved. */
  lemma RelocatedMeansMoved(report: Report, a: Assignments, candidates: seq<BlockDevice>, role: string)
    requires a.Valid() && ValidReport(report, a, candidates) && role in a.entries
    requires forall d :: d in a.entries[role] ==> Unambiguous(Record(d), candidates)
    ensures forall pair :: role in report.relocated.entries && pair in report.relocated.entries[role] <==>
              AnyMoved(a.entries[role], candidates, pair)
    ensures role in report.relocated.entries ==> report.relocated.entries[role] != []
  {
    hide MissingIds, Relocations, Unambiguous, MovedTo;
    var devices := a.entries[role];
    var recs := Map(Record, devices);
    RecordedDevices(devices);
    assert ToState(a).entries[role] == recs;
    assert report.relocated.Get(role) == NonEmpty(Relocations(recs, candidates));
    forall pair ensures pair in Relocations(recs, candidates) <==> AnyMoved(devices, candidates, pair) {
      RelocationsExact(recs, candidates, pair);
      if AnyMoved(devices, candidates, pair) {
        var d :| d in devices && MovedTo(Record(d), candidates, pair);
        assert Record(d) in recs;
      }
    }
  }

  /** The roles reported as fine are the remaining recorded roles that have a disk. */
  lemma OkIsTheRest(report: Report, a: Assignments, candidates: seq<BlockDevice>, role: string)
    requires a.Valid() && ValidReport(report, a, candidates)
    ensures role in report.ok <==>
            && role in a.entries && a.entries[role] != []
            && role !in report.missing.entries && role !in report.relocated.entries
    ensures role in report.missing.entries || role in report.relocated.entries ==> role in a.entries
  {
    hide MissingIds, Relocations;
    if role in a.entries {
      assert ToState(a).entries[role] == Map(Record, a.entries[role]);
    }
    assert report.missing.Get(role).Some? <==> role in report.missing.entries;
    assert report.relocated.Get(role).Some? <==> role in report.relocated.entries;
  }

  /** With unique identifiers, a role is fine exactly when it has disks, none of them is gone and none has moved. */
  lemma OkMeansInPlace(report: Report, a: Assignments, candidates: seq<BlockDevice>, role: string)
    requires a.Valid() && ValidReport(report, a, candidates) && role in a.entries
    requires forall d :: d in a.entries[role] ==> Unambiguous(Record(d), candidates)
    ensures role in report.ok <==>
            && a.entries[role] != [] && !AnyGone(a.entries[role], candidates)
            && forall pair :: !AnyMoved(a.entries[role], candidates, pair)
  {
    hide ValidReport, AnyGone, AnyMoved, Unambiguous, Gone;
    OkIsTheRest(report, a, candidates, role);
    MissingMeansGone(report, a, candidates, role);
    RelocatedMeansMoved(report, a, candidates, role);
    if role in report.relocated.entries {
      assert report.relocated.entries[role][0] in report.relocated.entries[role];
    }
  }

  // ---- Disks without an identifier ----

  predicate HasStableId(d: BlockDevice) {
    d.serial != "" || d.wwn != "" || d.byIdLinks != []
  }

  /**
   * Right after the installation, with all disks in place, a role is fine exactly when each of its disks can be
   * identified.
   */
  lemma FreshInstallIsOkExactly(report: Report, a: Assignments, candidates: seq<BlockDevice>, role: string)
    requires a.Valid() && ValidReport(report, a, candidates) && role in a.entries && a.entries[role] != []
    requires forall d :: d in a.entries[role] ==> d in candidates && Unambiguous(Record(d), candidates)
    ensures role in report.ok <==> forall d :: d in a.entries[role] ==> HasStableId(d)
    ensures role !in report.ok ==> role in report.missing.entries
  {
    hide Unambiguous, ValidReport;
    OkIsTheRest(report, a, candidates, role);
    MissingMeansGone(report, a, candidates, role);
    RelocatedMeansMoved(report, a, candidates, role);
    forall d | d in a.entries[role] ensures Gone(Record(d), candidates) <==> !HasStableId(d) {
      IdentifiedOrGone(d, candidates);
    }
    forall pair ensures !AnyMoved(a.entries[role], candidates, pair) {
      if AnyMoved(a.entries[role], candidates, pair) {
        var d :| d in a.entries[role] && MovedTo(Record(d), candidates, pair);
        NotMoved(d, candidates, pair);
      }
    }
    if role in report.relocated.entries {
      assert report.relocated.entries[role][0] in report.relocated.entries[role];
    }
  }

  lemma IdentifiedOrGone(d: BlockDevice, candidates: seq<BlockDevice>)
    requires d in candidates
    ensures Gone(Record(d), candidates) <==> !HasStableId(d)
  {
    if HasStableId(d) {
      if d.byIdLinks != [] { assert Record(d).byIdLinks[0] in d.byIdLinks; }
      assert SameDisk(Record(d), d);
    }
  }

  lemma NotMoved(d: BlockDevice, candidates: seq<BlockDevice>, pair: (string, string))
    requires d in candidates && Unambiguous(Record(d), candidates)
    ensures !MovedTo(Record(d), candidates, pair)
  {
    if HasStableId(d) {
      if d.byIdLinks != [] { assert Record(d).byIdLinks[0] in d.byIdLinks; }
      assert SameDisk(Record(d), d);
    }
  }
}
