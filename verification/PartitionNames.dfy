/** Partition device paths: how they are built, and the two places that take them apart. */
module PartitionNames {
  import opened Text
  import opened Wrappers

  /** Devices whose partitions are separated by a `p`. */
  predicate UsesP(device: string) {
    Contains(device, "nvme") || Contains(device, "mmcblk")
  }

  /** `_part_name`. */
  function PartName(device: string, num: nat): string {
    if UsesP(device) then device + "p" + Decimal(num) else device + Decimal(num)
  }

  /** Whole-disk names: they contain `nvme` or `mmcblk`, or they do not end in a digit. */
  predicate WholeDisk(d: string) {
    d != "" && (UsesP(d) || !IsDigit(d[|d| - 1]))
  }

  predicate AllDigits(s: string) {
    s != "" && forall c :: c in s ==> IsDigit(c)
  }

  predicate PThenDigits(s: string) {
    s != "" && s[0] == 'p' && AllDigits(s[1..])
  }

  /** Where the shortest match of `(.+?)` ends, when the rest of the name has to satisfy `rest`. */
  function ShortestSplit(s: string, from: nat, rest: string -> bool): (r: Option<nat>)
    ensures r.Some? ==> from <= r.value < |s| && rest(s[r.value..])
    decreases |s| - from
  {
    if from >= |s| then None
    else if rest(s[from..]) then Some(from)
    else ShortestSplit(s, from + 1, rest)
  }

  /** `_device_from_partition`. */
  function DeviceFromPartition(partition: string): string {
    var m := ShortestSplit(partition, 1, PThenDigits);
    if m.Some? && UsesP(partition) then partition[..m.value]
    else
      var m2 := ShortestSplit(partition, 1, AllDigits);
      if m2.Some? then partition[..m2.value] else partition
  }

  /** The inline parser of `mirror_esp`: the disk, and the partition number as text. */
  function MirrorParse(esp: string): (string, string) {
    var stripped := RStrip(esp, IsDigit);
    var disk := if stripped != "" && stripped[|stripped| - 1] == 'p' then stripped[..|stripped| - 1] else stripped;
    var num := esp[|disk|..];
    (disk, if StartsWith(num, "p") then num[1..] else num)
  }

  // ---- Proofs ----

  lemma ContainsInPrefix(s: string, t: string, sub: string)
    requires Contains(s, sub)
    ensures Contains(s + t, sub)
  {
    var i :| 0 <= i <= |s| && StartsWith(s[i..], sub);
    assert (s + t)[i..] == s[i..] + t;
    assert StartsWith((s + t)[i..], sub);
  }

  lemma DigitsAfter(s: string, t: string)
    requires forall c :: c in t ==> IsDigit(c)
    ensures forall k :: |s| <= k < |s + t| ==> IsDigit((s + t)[k])
  {
    forall k | |s| <= k < |s + t| ensures IsDigit((s + t)[k]) {
      assert (s + t)[k] == t[k - |s|] && t[k - |s|] in t;
    }
  }

  /** Appending digits cannot complete a word that has none. */
  lemma DigitsAddNoWord(s: string, t: string, sub: string)
    requires sub != "" && forall c :: c in sub ==> !IsDigit(c)
    requires forall c :: c in t ==> IsDigit(c)
    requires Contains(s + t, sub)
    ensures Contains(s, sub)
  {
    var i :| 0 <= i <= |s + t| && StartsWith((s + t)[i..], sub);
    var last := i + |sub| - 1;
    assert (s + t)[last] == sub[|sub| - 1] && sub[|sub| - 1] in sub;
    DigitsAfter(s, t);
    assert (s + t)[i..][..|sub|] == s[i..][..|sub|];
    assert StartsWith(s[i..], sub);
  }

  lemma UsesPIgnoresDigits(d: string, t: string)
    requires forall c :: c in t ==> IsDigit(c)
    ensures UsesP(d + t) <==> UsesP(d)
  {
    if Contains(d, "nvme") { ContainsInPrefix(d, t, "nvme"); }
    if Contains(d, "mmcblk") { ContainsInPrefix(d, t, "mmcblk"); }
    if Contains(d + t, "nvme") { DigitsAddNoWord(d, t, "nvme"); }
    if Contains(d + t, "mmcblk") { DigitsAddNoWord(d, t, "mmcblk"); }
  }

  lemma {:induction false} SplitsAt(s: string, from: nat, k: nat, rest: string -> bool)
    requires from <= k < |s| && rest(s[k..])
    requires forall i :: from <= i < k ==> !rest(s[i..])
    ensures ShortestSplit(s, from, rest) == Some(k)
    decreases k - from
  {
    if from < k { SplitsAt(s, from + 1, k, rest); }
  }

  lemma DigitsAtEnd(x: string, t: string)
    requires x == "" || !IsDigit(x[|x| - 1])
    requires forall c :: c in t ==> IsDigit(c)
    ensures RStrip(x + t, IsDigit) == x
  {
    var r := RStrip(x + t, IsDigit);
    DigitsAfter(x, t);
    assert |r| <= |x|;
    assert x != "" ==> !IsDigit((x + t)[|x| - 1]);
    assert r == (x + t)[..|x|];
  }

  /** `_device_from_partition` undoes `_part_name` on every whole disk and number. */
  lemma DeviceOfPartName(d: string, n: nat)
    requires WholeDisk(d)
    ensures DeviceFromPartition(PartName(d, n)) == d
  {
    var digits := Decimal(n);
    var p := PartName(d, n);
    UsesPIgnoresDigits(if UsesP(d) then d + "p" else d, digits);
    if UsesP(d) {
      if Contains(d, "nvme") { ContainsInPrefix(d, "p", "nvme"); } else { ContainsInPrefix(d, "p", "mmcblk"); }
      assert p[|d|] == 'p' && p[|d|..][1..] == digits;
      forall i | 1 <= i < |d| ensures !PThenDigits(p[i..]) {
        assert p[i..][1..][|d| - i - 1] == 'p' && p[i..][1..][|d| - i - 1] in p[i..][1..];
      }
      SplitsAt(p, 1, |d|, PThenDigits);
    } else {
      assert p[|d|..] == digits;
      forall i | 1 <= i < |d| ensures !AllDigits(p[i..]) {
        assert p[i..][|d| - 1 - i] == d[|d| - 1];
      }
      SplitsAt(p, 1, |d|, AllDigits);
    }
  }

  /** Distinct (whole disk, number) pairs get distinct partition paths. */
  lemma PartNameInjective(d: string, m: nat, e: string, n: nat)
    requires WholeDisk(d) && WholeDisk(e) && PartName(d, m) == PartName(e, n)
    ensures d == e && m == n
  {
    DeviceOfPartName(d, m);
    DeviceOfPartName(e, n);
    var k := if UsesP(d) then |d| + 1 else |d|;
    assert PartName(d, m)[k..] == Decimal(m) && PartName(e, n)[k..] == Decimal(n);
    DecimalInjective(m, n);
  }

  /** `mirror_esp` recovers disk and number exactly for disks that use the `p` separator or do not end in `p`. */
  lemma MirrorParseExact(d: string, n: nat)
    requires WholeDisk(d)
    ensures MirrorParse(PartName(d, n)) == (d, Decimal(n)) <==> UsesP(d) || d[|d| - 1] != 'p'
  {
    hide UsesP;
    var digits := Decimal(n);
    var p := PartName(d, n);
    if UsesP(d) {
      DigitsAtEnd(d + "p", digits);
      assert (d + "p")[..|d + "p"| - 1] == d;
      assert p[|d|..] == "p" + digits;
    } else {
      DigitsAtEnd(d, digits);
      assert p[|d|..] == digits;
    }
  }

  /** The 16th SCSI disk: the boot entry of its ESP would name another disk. */
  lemma MirrorParseLosesSdp()
    ensures PartName("/dev/sdp", 1) == "/dev/sdp1"
    ensures MirrorParse("/dev/sdp1") == ("/dev/sd", "1")
  {
    var d := "/dev/sdp";
    assert !UsesP(d) by {
      forall i | 0 <= i <= |d| ensures !StartsWith(d[i..], "nvme") && !StartsWith(d[i..], "mmcblk") {
        assert i < |d| ==> d[i..][0] == d[i] && d[i] != 'n' && d[i] != 'm';
      }
    }
    assert Decimal(1) == "1";
    assert d + Decimal(1) == "/dev/sdp1";
    DigitsAtEnd(d, "1");
    assert "/dev/sdp1" == d + "1";
    assert d[..7] == "/dev/sd";
    assert "/dev/sdp1"[7..] == "p1";
  }
}
