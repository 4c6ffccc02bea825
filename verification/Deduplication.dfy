/** Lists without repetitions, in the order of first occurrence. */
module Deduplication {
  import opened Dicts

  /** `items` followed by those of `more` that are not there yet. */
  function AddNew(items: seq<string>, more: seq<string>): seq<string>
    decreases |more|
  {
    if more == [] then items
    else AddNew(if more[0] in items then items else items + [more[0]], more[1..])
  }

  lemma {:induction false} AddNewFacts(items: seq<string>, more: seq<string>)
    requires Distinct(items)
    ensures Distinct(AddNew(items, more))
    ensures forall p :: p in AddNew(items, more) <==> p in items || p in more
    decreases |more|
  {
    if more != [] {
      AddNewFacts(if more[0] in items then items else items + [more[0]], more[1..]);
      assert forall p :: p in more <==> p == more[0] || p in more[1..];
    }
  }

  lemma AddNewSnoc(items: seq<string>, more: seq<string>, x: string)
    ensures AddNew(items, more + [x]) ==
            var before := AddNew(items, more); if x in before then before else before + [x]
    decreases |more|
  {
    if more == [] {
      assert [x][1..] == [] && more + [x] == [x];
    } else {
      assert (more + [x])[1..] == more[1..] + [x];
      AddNewSnoc(if more[0] in items then items else items + [more[0]], more[1..], x);
    }
  }

  /** The elements of `s`, each at its first occurrence. */
  function Dedup(s: seq<string>): seq<string> {
    AddNew([], s)
  }

  /** `_dedup`: the loop with a `seen` set. */
  method Deduplicate(s: seq<string>) returns (r: seq<string>)
    ensures r == Dedup(s)
  {
    r := [];
    var seen: set<string> := {};
    assert s[..0] == [];
    for i := 0 to |s|
      invariant r == Dedup(s[..i])
      invariant forall x :: x in seen <==> x in r
    {
      AddNewSnoc([], s[..i], s[i]);
      assert s[..i + 1] == s[..i] + [s[i]];
      if s[i] !in seen {
        seen := seen + {s[i]};
        r := r + [s[i]];
      }
    }
    assert s[..|s|] == s;
  }

  /** The first place of `x` in `s`, or the length of `s`. */
  function FirstIndex(s: seq<string>, x: string): (i: nat)
    ensures i <= |s|
    ensures forall j :: 0 <= j < i ==> s[j] != x
    ensures i < |s| ==> s[i] == x
  {
    if s == [] || s[0] == x then 0 else 1 + FirstIndex(s[1..], x)
  }

  /** Deduplicating keeps exactly the elements, once each, in the order of their first occurrences. */
  lemma DedupExact(s: seq<string>)
    ensures Distinct(Dedup(s))
    ensures forall x :: x in Dedup(s) <==> x in s
    ensures forall i, j :: 0 <= i < j < |Dedup(s)| ==> FirstIndex(s, Dedup(s)[i]) < FirstIndex(s, Dedup(s)[j])
  {
    AddNewFacts([], s);
    DedupOrdered(s);
  }

  lemma {:induction false} DedupOrdered(s: seq<string>)
    ensures forall i, j :: 0 <= i < j < |Dedup(s)| ==> FirstIndex(s, Dedup(s)[i]) < FirstIndex(s, Dedup(s)[j])
  {
    if s != [] {
      var n := |s| - 1;
      DedupOrdered(s[..n]);
      assert s == s[..n] + [s[n]];
      AddNewSnoc([], s[..n], s[n]);
      AddNewFacts([], s[..n]);
      forall x | x in s[..n] ensures FirstIndex(s, x) == FirstIndex(s[..n], x) < n { FirstIndexPrefix(s, n, x); }
      var before := Dedup(s[..n]);
      forall i | 0 <= i < |before| ensures FirstIndex(s, before[i]) == FirstIndex(s[..n], before[i]) < n {
        assert before[i] in before;
      }
      if s[n] !in before {
        assert FirstIndex(s, s[n]) >= n by { NotBefore(s, n, s[n]); }
      }
    }
  }

  lemma FirstIndexPrefix(s: seq<string>, n: nat, x: string)
    requires n <= |s| && x in s[..n]
    ensures FirstIndex(s, x) == FirstIndex(s[..n], x) < n
  {
    var i := FirstIndex(s[..n], x);
    assert i < n;
    assert s[i] == x;
    var k := FirstIndex(s, x);
    assert k <= i;
    assert k < n ==> s[..n][k] == x;
  }

  lemma NotBefore(s: seq<string>, n: nat, x: string)
    requires n <= |s| && x !in s[..n]
    ensures FirstIndex(s, x) >= n
  {
    assert forall j :: 0 <= j < n ==> s[j] == s[..n][j] && s[..n][j] != x;
  }
}
