/** Sorting and compacting a slice of addresses inside its own array. */
module UniqueSorted {
  import opened GraphTheory
  import opened Artifact
  import opened ArtifactEncoding

  ghost predicate Strict(s: seq<Address>) {
    forall i, j | 0 <= i < j < |s| :: s[i] < s[j]
  }

  lemma RestOfStrict(s: seq<Address>)
    requires Strict(s) && s != []
    ensures SetOf(s) - {s[0]} == SetOf(s[1..])
  {
    assert s == [s[0]] + s[1..];
    forall x | x in s[1..] ensures x != s[0] {
      var i :| 0 <= i < |s[1..]| && s[1..][i] == x;
      assert s[i + 1] == x;
    }
  }

  lemma FirstOfStrict(s: seq<Address>)
    requires Strict(s) && s != []
    ensures var all := SetOf(s); s[0] in all && Ascending(all) == [s[0]] + Ascending(all - {s[0]})
  {
    var all := SetOf(s);
    assert s[0] in all;
    LeastExists(all);
    var m :| Least(all, m) && Ascending(all) == [m] + Ascending(all - {m});
    var i :| 0 <= i < |s| && s[i] == m;
    assert m <= s[0];
  }

  /** Sets have one ascending sequence. */
  lemma {:induction false} StrictIsAscending(s: seq<Address>)
    requires Strict(s)
    ensures Ascending(SetOf(s)) == s
  {
    if s == [] {
    } else {
      hide SetOf, Ascending;
      FirstOfStrict(s);
      RestOfStrict(s);
      StrictIsAscending(s[1..]);
    }
  }

  /** The first `i` elements are in order, and none of them is above any of the others. */
  ghost predicate Placed(s: seq<Address>, i: nat)
    requires i <= |s|
  {
    forall j, k | 0 <= j < i && j < k < |s| :: s[j] <= s[k]
  }

  function Swapped(s: seq<Address>, i: nat, j: nat): (r: seq<Address>)
    requires i < |s| && j < |s|
    ensures |r| == |s|
  {
    var t := s[i := s[j]];
    t[j := s[i]]
  }

  lemma SwapPlaces(s: seq<Address>, i: nat, least: nat)
    requires i <= least < |s| && Placed(s, i) && forall k | i <= k < |s| :: s[least] <= s[k]
    ensures Placed(Swapped(s, i, least), i + 1)
  {
  }

  lemma SwapKeeps(s: seq<Address>, i: nat, j: nat)
    requires i < |s| && j < |s|
    ensures multiset(Swapped(s, i, j)) == multiset(s)
  {
    var t := s[i := s[j]];
    assert multiset(t) == multiset(s) - multiset{s[i]} + multiset{s[j]};
    assert multiset(t[j := s[i]]) == multiset(t) - multiset{t[j]} + multiset{s[i]};
  }

  method LeastFrom(values: array<Address>, i: nat) returns (least: nat)
    requires i < values.Length
    ensures i <= least < values.Length && forall k | i <= k < values.Length :: values[least] <= values[k]
  {
    least := i;
    for k := i + 1 to values.Length
      invariant i <= least < values.Length
      invariant forall j | i <= j < k :: values[least] <= values[j]
    {
      if values[k] < values[least] {
        least := k;
      }
    }
  }

  /** The array in ascending order; nothing is added or lost. */
  method Sort(values: array<Address>)
    modifies values
    ensures Placed(values[..], values.Length) && multiset(values[..]) == multiset(old(values[..]))
  {
    hide Placed;
    assert Placed(values[..], 0) by {
      NothingPlaced(values[..]);
    }
    for i := 0 to values.Length
      invariant multiset(values[..]) == multiset(old(values[..]))
      invariant Placed(values[..], i)
    {
      ghost var before := values[..];
      var least := LeastFrom(values, i);
      values[i], values[least] := values[least], values[i];
      assert values[..] == Swapped(before, i, least);
      SwapPlaces(before, i, least);
      SwapKeeps(before, i, least);
    }
  }

  lemma NothingPlaced(s: seq<Address>)
    ensures Placed(s, 0)
  {
  }

  lemma SameElements(a: seq<Address>, b: seq<Address>)
    requires multiset(a) == multiset(b)
    ensures SetOf(a) == SetOf(b)
  {
    forall x ensures x in a <==> x in b {
      assert x in multiset(a) <==> x in a;
      assert x in multiset(b) <==> x in b;
    }
  }

  /** `kept` is what compaction keeps of the first `i` elements. */
  ghost predicate Compacted(kept: seq<Address>, sorted: seq<Address>, i: nat)
    requires i <= |sorted|
  {
    && |kept| <= i && Strict(kept) && SetOf(kept) == SetOf(sorted[..i])
    && (i > 0 ==> |kept| > 0 && kept[|kept| - 1] == sorted[i - 1])
  }

  lemma CompactNext(kept: seq<Address>, sorted: seq<Address>, i: nat)
    requires Placed(sorted, |sorted|) && i < |sorted| && Compacted(kept, sorted, i)
    ensures Compacted(if kept == [] || kept[|kept| - 1] != sorted[i] then kept + [sorted[i]] else kept, sorted, i + 1)
  {
    var before, x := sorted[..i], sorted[i];
    assert sorted[..i + 1] == before + [x];
    assert SetOf(before + [x]) == SetOf(before) + {x};
    if kept == [] || kept[|kept| - 1] != x {
      assert SetOf(kept + [x]) == SetOf(kept) + {x};
      assert i > 0 ==> sorted[i - 1] <= x;
    } else {
      assert x in kept;
    }
  }

  lemma CompactAll(kept: seq<Address>, sorted: seq<Address>)
    requires Compacted(kept, sorted, |sorted|)
    ensures kept == Ascending(SetOf(sorted))
  {
    assert sorted[..|sorted|] == sorted;
    StrictIsAscending(kept);
  }

  /**
   * Sorts the slice and drops repeats by moving values towards the front of the same array. The kept part
   * is the ascending sequence of the elements there were.
   */
  method UniqueSorted(values: array<Address>) returns (length: nat)
    modifies values
    ensures length <= values.Length && values[..length] == Ascending(SetOf(old(values[..])))
  {
    hide Placed, Ascending;
    Sort(values);
    ghost var sorted := values[..];
    SameElements(sorted, old(values[..]));
    length := 0;
    for i := 0 to values.Length
      invariant length <= i && values[i..] == sorted[i..]
      invariant Compacted(values[..length], sorted, i)
    {
      hide Compacted;
      var value := values[i];
      ghost var kept := values[..length];
      assert value == values[i..][0] == sorted[i];
      CompactNext(kept, sorted, i);
      if length == 0 || values[length - 1] != value {
        values[length] := value;
        length := length + 1;
        assert values[..length] == kept + [value];
      }
      assert values[i + 1..] == sorted[i..][1..];
    }
    CompactAll(values[..length], sorted);
  }
}
