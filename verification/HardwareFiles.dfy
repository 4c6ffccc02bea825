/** Deploying and reconciling the configuration files of the resolved hardware, one file operation at a time. */
module HardwareFiles {
  import opened Text
  import opened Sorting
  import opened Wrappers
  import opened Dicts
  import opened OwnershipTags

  datatype Category = Modprobe | Udev | Sysctl

  const CATEGORIES := [Modprobe, Udev, Sysctl]

  datatype PerCategory<T> = PerCategory(modprobe: T, udev: T, sysctl: T) {
    function Get(c: Category): T {
      match c
      case Modprobe => modprobe
      case Udev => udev
      case Sysctl => sysctl
    }

    function Put(c: Category, v: T): (p: PerCategory<T>)
      ensures p.Get(c) == v && forall d :: d != c ==> p.Get(d) == Get(d)
    {
      match c
      case Modprobe => this.(modprobe := v)
      case Udev => this.(udev := v)
      case Sysctl => this.(sysctl := v)
    }
  }

  // ---- What the configuration asks for ----

  /** The files a quirk or a machine profile brings, and the texts in its companion directory if it has one. */
  datatype Source = Source(slug: string, files: PerCategory<Dict<string>>, companions: Option<map<string, string>>)

  /** A file's owning slug and its text without the header. */
  datatype Owned = Owned(slug: string, content: string)

  type Desired = PerCategory<Dict<Owned>>

  ghost predicate ValidSource(s: Source) {
    forall c :: s.files.Get(c).Valid()
  }

  ghost predicate ValidDesired(desired: Desired) {
    forall c :: desired.Get(c).Valid()
  }

  /** Python's universal newlines: what `read_text` makes of the characters on disk. */
  function Newlines(s: string): string {
    if s == "" then ""
    else if s[0] == '\r' then "\n" + Newlines(if |s| > 1 && s[1] == '\n' then s[2..] else s[1..])
    else [s[0]] + Newlines(s[1..])
  }

  lemma {:induction false} NewlinesFixes(s: string)
    ensures '\r' !in Newlines(s)
    ensures Newlines(s) == s <==> '\r' !in s
  {
    if s == "" {
    } else if s[0] == '\r' {
      NewlinesFixes(if |s| > 1 && s[1] == '\n' then s[2..] else s[1..]);
      assert s[0] in s;
    } else {
      NewlinesFixes(s[1..]);
      assert s == [s[0]] + s[1..];
    }
  }

  /** `_resolve_file_content`. */
  function ResolveFileContent(value: string, companions: Option<map<string, string>>): string {
    if companions.Some? && '\n' !in value && '=' !in value && |value| < 256 && value in companions.value
    then Newlines(companions.value[value])
    else value
  }

  function OwnedFile(source: Source, c: Category, name: string): Owned
    requires name in source.files.Get(c).entries
  {
    var content := ResolveFileContent(source.files.Get(c).entries[name], source.companions);
    Owned(source.slug, RStrip(content, IsNewline) + "\n")
  }

  /** The source a file comes from: the last one that has it. */
  function LastSource(sources: seq<Source>, c: Category, name: string): Option<Source> {
    if sources == [] then None
    else
      var s := sources[|sources| - 1];
      if name in s.files.Get(c).entries then Some(s) else LastSource(sources[..|sources| - 1], c, name)
  }

  function WantedFile(sources: seq<Source>, c: Category, name: string): Option<Owned> {
    var s := LastSource(sources, c, name);
    if s.None? || name !in s.value.files.Get(c).entries then None else Some(OwnedFile(s.value, c, name))
  }

  function NothingDesired(): (d: Desired)
    ensures ValidDesired(d) && forall c :: d.Get(c) == Empty()
  {
    PerCategory(Empty(), Empty(), Empty())
  }

  function PutFiles(desired: Desired, source: Source, c: Category, n: nat): Desired
    requires ValidSource(source) && n <= |source.files.Get(c).keys|
  {
    if n == 0 then desired
    else
      var d := PutFiles(desired, source, c, n - 1);
      var name := source.files.Get(c).keys[n - 1];
      assert name in source.files.Get(c).keys;
      d.Put(c, d.Get(c).Put(name, OwnedFile(source, c, name)))
  }

  function PutSource(desired: Desired, source: Source, n: nat): Desired
    requires ValidSource(source) && n <= 3
  {
    if n == 0 then desired
    else
      var c := CATEGORIES[n - 1];
      PutFiles(PutSource(desired, source, n - 1), source, c, |source.files.Get(c).keys|)
  }

  /** `_resolved_files` on the quirks followed by the machine profile. */
  function ResolvedFiles(sources: seq<Source>): Desired
    requires forall s :: s in sources ==> ValidSource(s)
  {
    if sources == [] then NothingDesired()
    else PutSource(ResolvedFiles(sources[..|sources| - 1]), sources[|sources| - 1], 3)
  }

  /** The nested loops of `_resolved_files`. */
  method ResolveFiles(sources: seq<Source>) returns (out: Desired)
    requires forall s :: s in sources ==> ValidSource(s)
    ensures out == ResolvedFiles(sources)
  {
    out := NothingDesired();
    for i := 0 to |sources|
      invariant out == ResolvedFiles(sources[..i])
    {
      var source := sources[i];
      assert sources[..i + 1][..i] == sources[..i] && ValidSource(source);
      ghost var before := out;
      for n := 0 to 3
        invariant out == PutSource(before, source, n)
      {
        var c := CATEGORIES[n];
        var files := source.files.Get(c);
        ghost var start := out;
        for k := 0 to |files.keys|
          invariant out == PutFiles(start, source, c, k)
        {
          var name := files.keys[k];
          assert name in files.keys;
          out := out.Put(c, out.Get(c).Put(name, OwnedFile(source, c, name)));
        }
      }
    }
    assert sources[..|sources|] == sources;
  }

  lemma PutOneFile(d: Desired, c: Category, key: string, file: Owned, name: string)
    requires ValidDesired(d)
    ensures var e := d.Put(c, d.Get(c).Put(key, file));
            && ValidDesired(e) && (forall k :: k != c ==> e.Get(k) == d.Get(k))
            && e.Get(c).Get(name) == if name == key then Some(file) else d.Get(c).Get(name)
  {
  }

  lemma PutFilesNone(desired: Desired, source: Source, c: Category)
    requires ValidSource(source)
    ensures PutFiles(desired, source, c, 0) == desired
  {
  }

  lemma PutFilesStep(desired: Desired, source: Source, c: Category, n: nat)
    requires ValidSource(source) && 0 < n <= |source.files.Get(c).keys|
    ensures var d, key := PutFiles(desired, source, c, n - 1), source.files.Get(c).keys[n - 1];
            && key in source.files.Get(c).entries
            && PutFiles(desired, source, c, n) == d.Put(c, d.Get(c).Put(key, OwnedFile(source, c, key)))
  {
    hide OwnedFile;
    assert source.files.Get(c).keys[n - 1] in source.files.Get(c).keys;
  }

  lemma {:induction false} PutFilesAt(desired: Desired, source: Source, c: Category, n: nat, name: string)
    requires ValidDesired(desired) && ValidSource(source) && n <= |source.files.Get(c).keys|
    ensures ValidDesired(PutFiles(desired, source, c, n))
    ensures forall d :: d != c ==> PutFiles(desired, source, c, n).Get(d) == desired.Get(d)
    ensures PutFiles(desired, source, c, n).Get(c).Get(name) ==
            if name in source.files.Get(c).keys[..n] then Some(OwnedFile(source, c, name)) else desired.Get(c).Get(name)
  {
    hide OwnedFile, PutFiles, Dict.Put, Dict.Get, PerCategory.Put;
    hide PerCategory.Get, ValidDesired, ValidSource, Dict.Valid;
    if n == 0 {
      PutFilesNone(desired, source, c);
    } else {
      PutFilesAt(desired, source, c, n - 1, name);
      PutFilesStep(desired, source, c, n);
      var key := source.files.Get(c).keys[n - 1];
      PutOneFile(PutFiles(desired, source, c, n - 1), c, key, OwnedFile(source, c, key), name);
      assert source.files.Get(c).keys[..n] == source.files.Get(c).keys[..n - 1] + [key];
    }
  }

  lemma PutSourceAt(desired: Desired, source: Source, c: Category, name: string)
    requires ValidDesired(desired) && ValidSource(source)
    ensures ValidDesired(PutSource(desired, source, 3))
    ensures PutSource(desired, source, 3).Get(c).Get(name) ==
            if name in source.files.Get(c).entries then Some(OwnedFile(source, c, name)) else desired.Get(c).Get(name)
  {
    hide PutFiles, OwnedFile, ValidDesired, Dict.Get;
    var d0 := PutSource(desired, source, 0);
    var d1 := PutSource(desired, source, 1);
    var d2 := PutSource(desired, source, 2);
    PutAllFilesAt(d0, source, Modprobe, name);
    PutAllFilesAt(d1, source, Udev, name);
    PutAllFilesAt(d2, source, Sysctl, name);
  }

  lemma PutAllFilesAt(desired: Desired, source: Source, c: Category, name: string)
    requires ValidDesired(desired) && ValidSource(source)
    ensures var d := PutFiles(desired, source, c, |source.files.Get(c).keys|);
            && ValidDesired(d) && (forall e :: e != c ==> d.Get(e) == desired.Get(e))
            && d.Get(c).Get(name) ==
               if name in source.files.Get(c).entries then Some(OwnedFile(source, c, name))
               else desired.Get(c).Get(name)
  {
    var keys := source.files.Get(c).keys;
    PutFilesAt(desired, source, c, |keys|, name);
    assert keys[..|keys|] == keys;
  }

  /** Every file comes from the last source that has it, the machine profile being last of all. */
  lemma {:induction false} LastSourceWins(sources: seq<Source>, c: Category, name: string)
    requires forall s :: s in sources ==> ValidSource(s)
    ensures ValidDesired(ResolvedFiles(sources))
    ensures ResolvedFiles(sources).Get(c).Get(name) == WantedFile(sources, c, name)
  {
    if sources != [] {
      var n := |sources| - 1;
      LastSourceWins(sources[..n], c, name);
      PutSourceAt(ResolvedFiles(sources[..n]), sources[n], c, name);
    }
  }

  // ---- Directories and file operations ----

  datatype Entry = File(content: string) | Directory

  type Dirs = PerCategory<map<string, Entry>>

  datatype Op = Unlink(cat: Category, name: string) | Write(cat: Category, name: string, content: string)

  function At(dirs: Dirs, c: Category, name: string): Option<Entry> {
    if name in dirs.Get(c) then Some(dirs.Get(c)[name]) else None
  }

  lemma SameDirs(a: Dirs, b: Dirs)
    requires forall c, n :: At(a, c, n) == At(b, c, n)
    ensures a == b
  {
    forall c ensures a.Get(c) == b.Get(c) {
      forall n ensures n in a.Get(c) <==> n in b.Get(c) { assert At(a, c, n) == At(b, c, n); }
      forall n | n in a.Get(c) ensures a.Get(c)[n] == b.Get(c)[n] { assert At(a, c, n) == At(b, c, n); }
    }
    assert a.Get(Modprobe) == b.Get(Modprobe) && a.Get(Udev) == b.Get(Udev) && a.Get(Sysctl) == b.Get(Sysctl);
  }

  /** How a file is marked as ours, and how the mark is read back. */
  datatype Tagging = Tagging(tag: (string, string) -> string, owner: string -> Option<string>)

  /** The management header of this installer. */
  const HEADER := Tagging(Tag, Owner)

  /** A file that counts as ours once it is written. */
  predicate Recognisable(tagging: Tagging, o: Owned) {
    tagging.owner(TagOf(tagging, o)).Some?
  }

  /** With the management header, that is so exactly if the slug leaves a trace in the bytes that are read. */
  lemma HeaderRecognisesExactly(o: Owned)
    ensures Recognisable(HEADER, o) <==> Recognised(o.slug)
  {
    TaggedIsManaged(o.slug, o.content);
  }

  predicate Managed(tagging: Tagging, e: Entry) {
    e.File? && tagging.owner(e.content).Some?
  }

  predicate IsManaged(tagging: Tagging, e: Option<Entry>) {
    e.Some? && Managed(tagging, e.value)
  }

  function TagOf(tagging: Tagging, o: Owned): string {
    tagging.tag(o.slug, o.content)
  }

  function Apply(dirs: Dirs, op: Op): Dirs {
    match op
    case Unlink(c, n) => dirs.Put(c, dirs.Get(c) - {n})
    case Write(c, n, t) => dirs.Put(c, dirs.Get(c)[n := File(t)])
  }

  function ApplyAll(dirs: Dirs, ops: seq<Op>): Dirs {
    if ops == [] then dirs else Apply(ApplyAll(dirs, ops[..|ops| - 1]), ops[|ops| - 1])
  }

  /** What an operation leaves at its own place. */
  function Effect(op: Op): Option<Entry> {
    match op
    case Unlink(_, _) => None
    case Write(_, _, t) => Some(File(t))
  }

  predicate Touches(op: Op, c: Category, n: string) {
    op.cat == c && op.name == n
  }

  lemma ApplyAt(dirs: Dirs, op: Op, c: Category, n: string)
    ensures At(Apply(dirs, op), c, n) == if Touches(op, c, n) then Effect(op) else At(dirs, c, n)
  {
  }

  lemma {:induction false} ApplyAllConcat(dirs: Dirs, p: seq<Op>, q: seq<Op>)
    ensures ApplyAll(dirs, p + q) == ApplyAll(ApplyAll(dirs, p), q)
  {
    if q == [] {
      assert p + q == p;
    } else {
      var n := |q| - 1;
      assert (p + q)[..|p + q| - 1] == p + q[..n];
      ApplyAllConcat(dirs, p, q[..n]);
    }
  }

  lemma {:induction false} ApplyAllUntouched(dirs: Dirs, ops: seq<Op>, c: Category, n: string)
    requires forall op :: op in ops ==> !Touches(op, c, n)
    ensures At(ApplyAll(dirs, ops), c, n) == At(dirs, c, n)
  {
    if ops != [] {
      var k := |ops| - 1;
      ApplyAllUntouched(dirs, ops[..k], c, n);
      assert !Touches(ops[k], c, n);
      ApplyAt(ApplyAll(dirs, ops[..k]), ops[k], c, n);
    }
  }

  lemma {:induction false} ApplyAllTouched(dirs: Dirs, ops: seq<Op>, c: Category, n: string, op: Op)
    requires op in ops && Touches(op, c, n)
    requires forall o :: o in ops && Touches(o, c, n) ==> o == op
    ensures At(ApplyAll(dirs, ops), c, n) == Effect(op)
  {
    var k := |ops| - 1;
    ApplyAt(ApplyAll(dirs, ops[..k]), ops[k], c, n);
    if !Touches(ops[k], c, n) {
      assert op in ops[..k];
      ApplyAllTouched(dirs, ops[..k], c, n, op);
    }
  }

  // ---- The operations of a reconcile ----

  ghost predicate IsLeast(m: string, s: set<string>) {
    m in s && forall x :: x in s ==> StrLe(m, x)
  }

  lemma {:induction false} LeastExists(s: set<string>)
    requires s != {}
    ensures exists m :: IsLeast(m, s)
  {
    StrLeIsTotalOrder();
    var m :| m in s;
    if s == {m} {
      assert IsLeast(m, s);
    } else {
      LeastExists(s - {m});
      var k :| IsLeast(k, s - {m});
      assert IsLeast(if StrLe(k, m) then k else m, s) by {
        forall x | x in s ensures StrLe(if StrLe(k, m) then k else m, x) {
          if x != m { assert StrLe(k, x); }
        }
      }
    }
  }

  /** `sorted(names)`. */
  function SortedNames(s: set<string>): (r: seq<string>)
    ensures Distinct(r)
    ensures forall x :: x in r <==> x in s
  {
    if s == {} then []
    else
      LeastExists(s);
      StrLeSeparates();
      assert exists m :: m in s && forall x :: x in s ==> StrLe(m, x) by {
        var k :| IsLeast(k, s);
      }
      var m :| m in s && forall x :: x in s ==> StrLe(m, x);
      [m] + SortedNames(s - {m})
  }

  function OrphanOp(tagging: Tagging, dirs: Dirs, desired: Desired, c: Category, n: string): seq<Op> {
    if IsManaged(tagging, At(dirs, c, n)) && n !in desired.Get(c).entries then [Unlink(c, n)] else []
  }

  function OrphanOps(tagging: Tagging, dirs: Dirs, desired: Desired, c: Category, names: seq<string>): seq<Op> {
    if names == [] then []
    else
      var n := |names| - 1;
      OrphanOps(tagging, dirs, desired, c, names[..n]) + OrphanOp(tagging, dirs, desired, c, names[n])
  }

  function WriteOp(tagging: Tagging, dirs: Dirs, desired: Desired, c: Category, n: string): seq<Op> {
    if n !in desired.Get(c).entries then []
    else
      var tag := TagOf(tagging, desired.Get(c).entries[n]);
      var current := At(dirs, c, n);
      if IsManaged(tagging, current) && Newlines(current.value.content) == tag then []
      else if current.Some? && !IsManaged(tagging, current) then []
      else [Write(c, n, tag)]
  }

  function WriteOps(tagging: Tagging, dirs: Dirs, desired: Desired, c: Category, names: seq<string>): seq<Op> {
    if names == [] then []
    else
      var n := |names| - 1;
      WriteOps(tagging, dirs, desired, c, names[..n]) + WriteOp(tagging, dirs, desired, c, names[n])
  }

  function Orphans(tagging: Tagging, dirs: Dirs, desired: Desired, c: Category): seq<Op> {
    OrphanOps(tagging, dirs, desired, c, SortedNames(dirs.Get(c).Keys))
  }

  function Writes(tagging: Tagging, dirs: Dirs, desired: Desired, c: Category): seq<Op> {
    WriteOps(tagging, dirs, desired, c, desired.Get(c).keys)
  }

  function CategoryOps(tagging: Tagging, dirs: Dirs, desired: Desired, c: Category): seq<Op> {
    Orphans(tagging, dirs, desired, c) + Writes(tagging, dirs, desired, c)
  }

  /** The file operations of a full reconcile, in order. */
  function AllOps(tagging: Tagging, dirs: Dirs, desired: Desired): seq<Op> {
    CategoryOps(tagging, dirs, desired, Modprobe) + CategoryOps(tagging, dirs, desired, Udev)
    + CategoryOps(tagging, dirs, desired, Sysctl)
  }

  /** What a full reconcile leaves. */
  function Reconciled(tagging: Tagging, dirs: Dirs, desired: Desired): Dirs {
    ApplyAll(dirs, AllOps(tagging, dirs, desired))
  }

  /** The operations a reconcile owes: orphans go, missing and outdated files are written, foreign files stay. */
  predicate Due(tagging: Tagging, dirs: Dirs, desired: Desired, op: Op) {
    var current := At(dirs, op.cat, op.name);
    var entries := desired.Get(op.cat).entries;
    match op
    case Unlink(c, n) => IsManaged(tagging, current) && n !in entries
    case Write(c, n, t) =>
      && n in entries && t == TagOf(tagging, entries[n])
      && (current.None? || (IsManaged(tagging, current) && Newlines(current.value.content) != t))
  }

  lemma {:induction false} OrphanOpsExact(tagging: Tagging, dirs: Dirs, desired: Desired, c: Category,
                                          names: seq<string>)
    ensures forall op :: op in OrphanOps(tagging, dirs, desired, c, names) <==>
              op.Unlink? && op.cat == c && op.name in names && Due(tagging, dirs, desired, op)
  {
    if names != [] {
      var k := |names| - 1;
      OrphanOpsExact(tagging, dirs, desired, c, names[..k]);
      assert forall n :: n in names <==> n in names[..k] || n == names[k];
    }
  }

  lemma {:induction false} WriteOpsExact(tagging: Tagging, dirs: Dirs, desired: Desired, c: Category,
                                         names: seq<string>)
    ensures forall op :: op in WriteOps(tagging, dirs, desired, c, names) <==>
              op.Write? && op.cat == c && op.name in names && Due(tagging, dirs, desired, op)
  {
    if names != [] {
      var k := |names| - 1;
      WriteOpsExact(tagging, dirs, desired, c, names[..k]);
      assert forall n :: n in names <==> n in names[..k] || n == names[k];
    }
  }

  lemma CategoryOpsExact(tagging: Tagging, dirs: Dirs, desired: Desired, c: Category)
    requires ValidDesired(desired)
    ensures forall op :: op in CategoryOps(tagging, dirs, desired, c) <==>
              op.cat == c && Due(tagging, dirs, desired, op)
  {
    OrphanOpsExact(tagging, dirs, desired, c, SortedNames(dirs.Get(c).Keys));
    WriteOpsExact(tagging, dirs, desired, c, desired.Get(c).keys);
    assert desired.Get(c).Valid();
  }

  lemma OpsExact(tagging: Tagging, dirs: Dirs, desired: Desired)
    requires ValidDesired(desired)
    ensures forall op :: op in AllOps(tagging, dirs, desired) <==> Due(tagging, dirs, desired, op)
  {
    CategoryOpsExact(tagging, dirs, desired, Modprobe);
    CategoryOpsExact(tagging, dirs, desired, Udev);
    CategoryOpsExact(tagging, dirs, desired, Sysctl);
  }
}
