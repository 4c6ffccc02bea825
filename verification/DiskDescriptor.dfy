/** Block devices as the detector reports them. */
module Disk {

  datatype BlockDevice = BlockDevice(
    name: string,
    path: string,
    model: string,
    removable: bool,
    sizeBytes: int,
    vendor: string,
    serial: string,
    wwn: string,
    transport: string,
    rotational: bool,
    byIdLinks: seq<string>)
  {
    predicate IsSsd() {
      !rotational || transport == "nvme"
    }
  }
}

/** Disk descriptors: their parser, and the match they denote. */
module DiskDescriptor {
  import opened Text
  import opened Sorting
  import opened Wrappers
  import opened Disk

  function TransportOf(token: string): Option<string> {
    if token in ["nvme", "sata", "sas", "usb", "virtio"] then Some(token)
    else if token == "scsi" then Some("sata")
    else None
  }

  /** Storage technology tokens and their rotational flag. */
  function TechnologyOf(token: string): Option<bool> {
    if token == "ssd" then Some(false)
    else if token in ["hdd", "spinning"] then Some(true)
    else None
  }

  function VendorOf(token: string): Option<seq<string>> {
    if token in ["wd", "wdc", "western"] then Some(["wdc", "western digital"])
    else if token in ["samsung", "sammy"] then Some(["samsung"])
    else if token == "crucial" then Some(["crucial", "micron"])
    else if token == "toshiba" then Some(["toshiba", "kioxia"])
    else if token == "kioxia" then Some(["kioxia", "toshiba"])
    else if token == "hgst" then Some(["hgst", "hitachi"])
    else if token == "hitachi" then Some(["hitachi", "hgst"])
    else if token == "silicon" then Some(["silicon power", "silicon motion"])
    else if token == "qemu" then Some(["qemu", "virtio"])
    else if token in ["seagate", "kingston", "sandisk", "intel", "micron", "sabrent", "corsair", "adata", "gigabyte",
                      "phison", "patriot", "hp", "lenovo", "dell"] then Some([token])
    else None
  }

  const SIZE_CAP: int := 1_000_000_000_000_000_000

  datatype DiskCriteria = DiskCriteria(
    sizeMin: Option<int>,
    sizeMax: Option<int>,
    transport: Option<string>,
    rotational: Option<bool>,
    removable: Option<bool>,
    vendorSubstrings: seq<string>,
    freeTokens: seq<string>,
    explicitDevice: Option<string>)
  {
    /** As in the source, `sizeMax` is not looked at. */
    predicate IsEmpty() {
      && sizeMin.None? && transport.None? && rotational.None? && removable.None?
      && vendorSubstrings == [] && freeTokens == [] && explicitDevice.None?
    }
  }

  const NO_CRITERIA := DiskCriteria(None, None, None, None, None, [], [], None)

  /** The structured form of a descriptor: one optional entry per recognised key. */
  datatype DescriptorTable = DescriptorTable(
    size: Option<string>,
    sizeMin: Option<string>,
    sizeMax: Option<string>,
    transport: Option<string>,
    rotational: Option<bool>,
    removable: Option<bool>,
    vendor: Option<string>,
    modelPattern: Option<string>,
    device: Option<string>)

  datatype Descriptor = Text(text: string) | Table(table: DescriptorTable)

  // ---- Sizes ----

  predicate Digits(s: string) {
    forall i :: 0 <= i < |s| ==> IsDigit(s[i])
  }

  function DigitsValue(s: string): nat
    requires Digits(s)
  {
    if s == "" then 0 else 10 * DigitsValue(s[..|s| - 1]) + (s[|s| - 1] as int - '0' as int)
  }

  /** The digits at the start of `s`. */
  function LeadingDigits(s: string): (r: string)
    ensures |r| <= |s| && r == s[..|r|] && Digits(r)
  {
    s[..Until(s, c => !IsDigit(c))]
  }

  function Pow10(n: nat): (p: nat)
    ensures p > 0
  {
    if n == 0 then 1 else 10 * Pow10(n - 1)
  }

  function UnitBytes(u: char): Option<nat> {
    if u == 'k' then Some(Pow10(3))
    else if u == 'm' then Some(Pow10(6))
    else if u == 'g' then Some(Pow10(9))
    else if u == 't' then Some(Pow10(12))
    else if u == 'p' then Some(Pow10(15))
    else None
  }

  /** What may follow the number: spaces, a unit, an optional `i`, an optional `b`. The result is the unit. */
  function SizeUnit(s: string): Option<nat> {
    var u := LStrip(s, IsSpace);
    if u == "" || u[1..] !in ["", "i", "b", "ib"] then None else UnitBytes(u[0])
  }

  function Product(a: nat, b: nat): nat {
    a * b
  }

  function Quotient(a: nat, b: nat): nat
    requires b > 0
  {
    a / b
  }

  /** `digits` with the last `scale` of them behind the decimal point, times `unit`, truncated. */
  function ScaledSize(digits: string, scale: nat, unit: nat): nat
    requires Digits(digits)
  {
    Quotient(Product(DigitsValue(digits), unit), Pow10(scale))
  }

  /** `_parse_size_bytes` on a lower-case token, in exact arithmetic; `None` when it is not a size. */
  function ParseSizeBytes(token: string): Option<nat> {
    var whole := LeadingDigits(token);
    var rest := token[|whole|..];
    if whole == "" then None
    else if StartsWith(rest, ".") then
      var fraction := LeadingDigits(rest[1..]);
      if fraction == "" then None
      else
        var unit :- SizeUnit(rest[1 + |fraction|..]);
        Some(ScaledSize(whole + fraction, |fraction|, unit))
    else
      var unit :- SizeUnit(rest);
      Some(ScaledSize(whole, 0, unit))
  }

  /** `_size_window`: ten per cent either way, truncated. */
  function SizeWindow(center: nat): (int, int) {
    (center * 9 / 10, center * 11 / 10)
  }

  // ---- Parsing ----

  function Max(a: int, b: int): int { if a >= b then a else b }

  function Min(a: int, b: int): int { if a <= b then a else b }

  function Narrow(c: DiskCriteria, size: nat): DiskCriteria {
    var (lo, hi) := SizeWindow(size);
    if c.sizeMin.None? && c.sizeMax.None? then
      c.(sizeMin := Some(lo), sizeMax := Some(hi))
    else
      // `c.size_max or 10**18`: a zero bound counts as absent
      var oldMax := if c.sizeMax.None? || c.sizeMax.value == 0 then SIZE_CAP else c.sizeMax.value;
      c.(sizeMin := Some(Max(c.sizeMin.GetOr(0), lo)), sizeMax := Some(Min(oldMax, hi)))
  }

  /** What a token of the string form is; the first reading that applies wins. */
  datatype Token =
    | Size(bytes: nat)
    | Transport(canonical: string, nvme: bool)
    | Technology(rotational: bool)
    | Vendor(substrings: seq<string>)
    | Free(text: string)

  function Classify(token: string): Token {
    var lower := Lower(token);
    var size := ParseSizeBytes(lower);
    var transport := TransportOf(lower);
    var technology := TechnologyOf(lower);
    var vendor := VendorOf(lower);
    if size.Some? then Size(size.value)
    else if transport.Some? then Transport(transport.value, lower == "nvme")
    else if technology.Some? then Technology(technology.value)
    else if vendor.Some? then Vendor(vendor.value)
    else Free(token)
  }

  /** The effect of one token; `None` is a descriptor error. */
  function AddToken(c: DiskCriteria, token: Token): Option<DiskCriteria> {
    match token
    case Size(bytes) => Some(Narrow(c, bytes))
    case Transport(canonical, nvme) =>
      Some(c.(transport := Some(canonical),
              rotational := if nvme && c.rotational.None? then Some(false) else c.rotational))
    case Technology(r) =>
      if c.rotational.Some? && c.rotational.value != r then None else Some(c.(rotational := Some(r)))
    case Vendor(subs) => Some(c.(vendorSubstrings := c.vendorSubstrings + subs))
    case Free(text) => Some(c.(freeTokens := c.freeTokens + [text]))
  }

  function AddTokens(c: DiskCriteria, tokens: seq<Token>): Option<DiskCriteria>
    decreases |tokens|
  {
    if tokens == [] then Some(c)
    else
      var c' :- AddToken(c, tokens[0]);
      AddTokens(c', tokens[1..])
  }

  function Tokens(s: string): seq<Token> {
    Map(Classify, Split(s))
  }

  function ParseString(s: string): Option<DiskCriteria> {
    var raw := Strip(s);
    if raw == "" then Some(NO_CRITERIA)
    else if StartsWith(raw, "/dev/") then Some(NO_CRITERIA.(explicitDevice := Some(raw)))
    else AddTokens(NO_CRITERIA, Tokens(raw))
  }

  lemma {:induction false} AddTokensConcat(c: DiskCriteria, u: seq<Token>, v: seq<Token>)
    ensures AddTokens(c, u + v) ==
            var r := AddTokens(c, u); if r.None? then None else AddTokens(r.value, v)
    decreases |u|
  {
    if u == [] {
      assert u + v == v;
    } else {
      assert (u + v)[1..] == u[1..] + v;
      var r := AddToken(c, u[0]);
      if r.Some? { AddTokensConcat(r.value, u[1..], v); }
    }
  }

  lemma AddPrefix(c: DiskCriteria, tokens: seq<Token>, i: nat)
    requires i < |tokens| && AddTokens(c, tokens[..i]).Some?
    ensures AddTokens(c, tokens[..i + 1]) == AddToken(AddTokens(c, tokens[..i]).value, tokens[i])
    ensures AddTokens(c, tokens[..i + 1]).None? ==> AddTokens(c, tokens).None?
  {
    AddTokensConcat(c, tokens[..i], [tokens[i]]);
    assert tokens[..i] + [tokens[i]] == tokens[..i + 1];
    assert [tokens[i]][1..] == [];
    AddTokensConcat(c, tokens[..i + 1], tokens[i + 1..]);
    assert tokens == tokens[..i + 1] + tokens[i + 1..];
  }

  /** `_parse_string_descriptor`: the token loop, stopping at the first contradiction. */
  method ParseStringDescriptor(s: string) returns (r: Option<DiskCriteria>)
    ensures r == ParseString(s)
  {
    hide Classify, AddToken, StartsWith, Strip, Split;
    var raw := Strip(s);
    var c := NO_CRITERIA;
    if raw == "" { return Some(c); }
    if StartsWith(raw, "/dev/") { return Some(c.(explicitDevice := Some(raw))); }
    var words := Split(raw);
    ghost var tokens := Tokens(raw);
    for i := 0 to |words|
      invariant AddTokens(NO_CRITERIA, tokens[..i]) == Some(c)
    {
      AddPrefix(NO_CRITERIA, tokens, i);
      var next := AddToken(c, Classify(words[i]));
      if next.None? { return None; }
      c := next.value;
    }
    assert tokens[..|tokens|] == tokens;
    r := Some(c);
  }

  function Normalise(s: string): string {
    Strip(Lower(s))
  }

  function OptionalSize(s: Option<string>): Option<Option<nat>> {
    if s.None? then Some(None)
    else
      var n :- ParseSizeBytes(Normalise(s.value));
      Some(Some(n))
  }

  /** `_parse_dict_descriptor`. */
  function ParseTable(d: DescriptorTable): Option<DiskCriteria> {
    var size :- OptionalSize(d.size);
    var lo :- OptionalSize(d.sizeMin);
    var hi :- OptionalSize(d.sizeMax);
    var c := DiskCriteria(
      if lo.Some? then Some(lo.value) else if size.Some? then Some(SizeWindow(size.value).0) else None,
      if hi.Some? then Some(hi.value) else if size.Some? then Some(SizeWindow(size.value).1) else None,
      if d.transport.None? then None
      else
        var t := Normalise(d.transport.value);
        Some(TransportOf(t).GetOr(t)),
      d.rotational,
      d.removable,
      if d.vendor.None? then []
      else
        var v := Normalise(d.vendor.value);
        VendorOf(v).GetOr([v]),
      if d.modelPattern.None? then [] else [Strip(d.modelPattern.value)],
      None);
    if d.device.None? then Some(c)
    else
      var path := Strip(d.device.value);
      if StartsWith(path, "/dev/") then Some(c.(explicitDevice := Some(path))) else ParseString(path)
  }

  /** `parse_descriptor`; `None` stands for `DescriptorError`. */
  function ParseDescriptor(d: Descriptor): Option<DiskCriteria> {
    match d
    case Text(s) => ParseString(s)
    case Table(t) => ParseTable(t)
  }

  // ---- Matching ----

  function Attributes(d: BlockDevice): seq<string> {
    [d.model, d.vendor, d.serial, d.wwn, d.path, d.name] + d.byIdLinks
  }

  function NonEmpty(parts: seq<string>): seq<string> {
    if parts == [] then [] else (if parts[0] == "" then [] else [parts[0]]) + NonEmpty(parts[1..])
  }

  /** `_candidate_search_corpus`. */
  function SearchCorpus(d: BlockDevice): string {
    Join(" ", Map(Normalise, NonEmpty(Attributes(d))))
  }

  /** `_vendor_corpus`. */
  function VendorCorpus(d: BlockDevice): string {
    Normalise(d.vendor) + " " + Normalise(d.model) + " " + Join(" ", Map(Normalise, d.byIdLinks))
  }

  predicate HasGlob(s: string) {
    '*' in s || '?' in s || '[' in s
  }

  /** `_matches_free_token`. */
  predicate MatchesFreeToken(glob: Glob, token: string, corpus: string) {
    var lower := Normalise(token);
    if HasGlob(lower) then glob(corpus, "*" + lower + "*") || glob(corpus, lower)
    else Contains(corpus, lower)
  }

  predicate SizeAccepts(c: DiskCriteria, d: BlockDevice) {
    c.sizeMin.Some? || c.sizeMax.Some? ==>
      && d.sizeBytes > 0
      && (c.sizeMin.Some? ==> d.sizeBytes >= c.sizeMin.value)
      && (c.sizeMax.Some? ==> d.sizeBytes <= c.sizeMax.value)
  }

  predicate VendorAccepts(c: DiskCriteria, d: BlockDevice) {
    c.vendorSubstrings != [] ==> exists sub :: sub in c.vendorSubstrings && Contains(VendorCorpus(d), sub)
  }

  predicate FreeTokensAccept(glob: Glob, c: DiskCriteria, d: BlockDevice) {
    forall t :: t in c.freeTokens ==> MatchesFreeToken(glob, t, SearchCorpus(d))
  }

  /** `matches`. */
  predicate Matches(glob: Glob, c: DiskCriteria, d: BlockDevice) {
    if c.explicitDevice.Some? then d.path == c.explicitDevice.value
    else if c.IsEmpty() then true
    else
      && SizeAccepts(c, d)
      && (c.transport.Some? ==> Normalise(d.transport) == c.transport.value)
      && (c.rotational.Some? ==> d.IsSsd() == !c.rotational.value)
      && (c.removable.Some? ==> d.removable == c.removable.value)
      && VendorAccepts(c, d)
      && FreeTokensAccept(glob, c, d)
  }

  /** Removable disks take part only when the criteria mention removability. */
  predicate Selected(glob: Glob, c: DiskCriteria, d: BlockDevice) {
    !(c.removable.None? && d.removable) && Matches(glob, c, d)
  }

  /** The sort key `(serial, path)`. */
  predicate DiskLe(a: BlockDevice, b: BlockDevice) {
    if a.serial != b.serial then StrLe(a.serial, b.serial) else StrLe(a.path, b.path)
  }

  function MatchSpec(glob: Glob, c: DiskCriteria, candidates: seq<BlockDevice>): (r: seq<BlockDevice>)
    ensures forall d :: d in r <==> d in candidates && Selected(glob, c, d)
  {
    var out := Filter(candidates, d => Selected(glob, c, d));
    FilterExact(candidates, d => Selected(glob, c, d));
    SameElements(out, Sort(out, DiskLe));
    Sort(out, DiskLe)
  }

  /** `match_disks`: collect the matching disks, then sort them. */
  method MatchDisks(glob: Glob, c: DiskCriteria, candidates: seq<BlockDevice>) returns (out: seq<BlockDevice>)
    ensures out == MatchSpec(glob, c, candidates)
  {
    out := [];
    var selected := d => Selected(glob, c, d);
    for i := 0 to |candidates|
      invariant out == Filter(candidates[..i], selected)
    {
      assert candidates[..i + 1] == candidates[..i] + [candidates[i]];
      FilterConcat(candidates[..i], [candidates[i]], selected);
      var d := candidates[i];
      if c.removable.None? && d.removable { continue; }
      if Matches(glob, c, d) {
        out := out + [d];
      }
    }
    assert candidates[..|candidates|] == candidates;
    out := Sort(out, DiskLe);
  }
}
