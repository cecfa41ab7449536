/**
  Reordering a sequence by a permutation of its indices keeps its multiset
  of elements. This is what lets a histogram built in the tile-by-tile
  order of the source's loops agree with one built in buffer order.
 */
module Permutation {

  /** `p` lists every index below |p| exactly once. */
  ghost predicate IsPermutation(p: seq<nat>) {
    && (forall k :: 0 <= k < |p| ==> p[k] < |p|)
    && (forall k, l :: 0 <= k < l < |p| ==> p[k] != p[l])
    && (forall j: nat :: j < |p| ==> j in p)
  }

  /** The elements of `s` in the order the indices `p` visit them. */
  function Gather<T>(s: seq<T>, p: seq<nat>): (r: seq<T>)
    requires forall k :: 0 <= k < |p| ==> p[k] < |s|
    ensures |r| == |p|
  {
    seq(|p|, k requires 0 <= k < |p| => s[p[k]])
  }

  /** Removing the entry that names the last index leaves a permutation of the rest. */
  lemma {:induction false} DropLast(p: seq<nat>, j: nat)
    requires IsPermutation(p)
    requires j < |p| && p[j] == |p| - 1
    ensures IsPermutation(p[..j] + p[j + 1..])
  {
    var q := p[..j] + p[j + 1..];
    assert |q| == |p| - 1;
    forall k | 0 <= k < |q|
      ensures q[k] == (if k < j then p[k] else p[k + 1])
    {
    }
    forall k | 0 <= k < |q|
      ensures q[k] < |q|
    {
      var k' := if k < j then k else k + 1;
      assert q[k] == p[k'] && k' != j;
    }
    forall k, l | 0 <= k < l < |q|
      ensures q[k] != q[l]
    {
      var k' := if k < j then k else k + 1;
      var l' := if l < j then l else l + 1;
      assert q[k] == p[k'] && q[l] == p[l'] && k' < l';
    }
    forall i: nat | i < |q|
      ensures i in q
    {
      assert i in p;
      var k :| 0 <= k < |p| && p[k] == i;
      assert k != j;
      if k < j {
        assert q[k] == i;
      } else {
        assert q[k - 1] == i;
      }
    }
  }

  /** Gathering through `p` is gathering through `p` without its entry `j`, with the
      last element put back at position `j`. */
  lemma GatherSplit<T>(s: seq<T>, p: seq<nat>, j: nat)
    requires |s| > 0
    requires forall k :: 0 <= k < |p| ==> p[k] < |s|
    requires j < |p| && p[j] == |s| - 1
    requires forall k :: 0 <= k < |p| && k != j ==> p[k] < |s| - 1
    ensures
      var g := Gather(s[..|s| - 1], p[..j] + p[j + 1..]);
      Gather(s, p) == g[..j] + [s[|s| - 1]] + g[j..]
  {
    var n := |s| - 1;
    var q := p[..j] + p[j + 1..];
    var g := Gather(s[..n], q);
    var whole := g[..j] + [s[n]] + g[j..];
    forall k | 0 <= k < |p|
      ensures Gather(s, p)[k] == whole[k]
    {
      if k < j {
        assert q[k] == p[k];
      } else if k > j {
        assert q[k - 1] == p[k];
      }
    }
  }

  /** In a permutation every entry other than the one naming the last index is below it. */
  lemma OthersBelowLast(p: seq<nat>, j: nat)
    requires IsPermutation(p)
    requires j < |p| && p[j] == |p| - 1
    ensures forall k :: 0 <= k < |p| && k != j ==> p[k] < |p| - 1
  {
    forall k | 0 <= k < |p| && k != j
      ensures p[k] < |p| - 1
    {
      if k < j {
        assert p[k] != p[j];
      } else {
        assert p[j] != p[k];
      }
    }
  }

  /** Inserting an element anywhere adds it to the multiset. */
  lemma SpliceMultiset<T>(g: seq<T>, j: nat, x: T)
    requires j <= |g|
    ensures multiset(g[..j] + [x] + g[j..]) == multiset(g) + multiset{x}
  {
    assert g == g[..j] + g[j..];
  }

  /** Gathering a sequence through a permutation of its indices preserves its multiset. */
  lemma {:induction false} GatherPermutation<T>(s: seq<T>, p: seq<nat>)
    requires |p| == |s|
    requires IsPermutation(p)
    ensures multiset(Gather(s, p)) == multiset(s)
  {
    if |s| > 0 {
      var n := |s| - 1;
      assert n in p;
      var j :| 0 <= j < |p| && p[j] == n;
      var q := p[..j] + p[j + 1..];
      DropLast(p, j);
      OthersBelowLast(p, j);
      GatherPermutation(s[..n], q);
      GatherSplit(s, p, j);
      SpliceMultiset(Gather(s[..n], q), j, s[n]);
      assert s == s[..n] + [s[n]];
    }
  }
}
