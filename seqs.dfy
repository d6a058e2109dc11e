/** Sequence utilities shared by the table model: filtering that keeps order,
    first-appearance de-duplication, and distinctness. */
module Seqs {

  /** No element occurs twice. */
  predicate Distinct<T(==)>(s: seq<T>) {
    forall i, j :: 0 <= i < j < |s| ==> s[i] != s[j]
  }

  /** The elements of `s` that satisfy `p`, in their original order
      (a boolean-mask selection). Defined from the back so that a loop that
      scans left to right and appends keeps `Filter(s[..i], p)`. */
  function Filter<T>(s: seq<T>, p: T -> bool): (r: seq<T>)
    ensures |r| <= |s|
    ensures forall x :: x in r ==> x in s && p(x)
  {
    if s == [] then []
    else Filter(s[..|s| - 1], p) + (if p(s[|s| - 1]) then [s[|s| - 1]] else [])
  }

  /** The positions of `s` whose element satisfies `p`, in increasing order. */
  function Kept<T>(s: seq<T>, p: T -> bool): seq<nat> {
    if s == [] then []
    else Kept(s[..|s| - 1], p) + (if p(s[|s| - 1]) then [|s| - 1] else [])
  }

  predicate StrictlyIncreasing(ix: seq<nat>) {
    forall a, b :: 0 <= a < b < |ix| ==> ix[a] < ix[b]
  }

  /** The kept positions are as many as the kept elements, in range and increasing. */
  lemma {:induction false} KeptBounds<T>(s: seq<T>, p: T -> bool)
    ensures |Kept(s, p)| == |Filter(s, p)|
    ensures forall k :: 0 <= k < |Kept(s, p)| ==> Kept(s, p)[k] < |s|
    ensures StrictlyIncreasing(Kept(s, p))
  {
    if s != [] {
      KeptBounds(s[..|s| - 1], p);
    }
  }

  /** The k-th kept element is the element at the k-th kept position. */
  lemma {:induction false} FilterAtKept<T>(s: seq<T>, p: T -> bool)
    ensures forall k :: 0 <= k < |Kept(s, p)| ==> Kept(s, p)[k] < |s| && k < |Filter(s, p)| && Filter(s, p)[k] == s[Kept(s, p)[k]]
  {
    KeptBounds(s, p);
    if s != [] {
      var init := s[..|s| - 1];
      FilterAtKept(init, p);
      KeptBounds(init, p);
      forall i | 0 <= i < |init| ensures init[i] == s[i] {}
    }
  }

  /** A position is kept exactly when its element satisfies `p`. */
  lemma {:induction false} KeptIff<T>(s: seq<T>, p: T -> bool)
    ensures forall i :: 0 <= i < |s| ==> (p(s[i]) <==> i in Kept(s, p))
  {
    if s != [] {
      var init := s[..|s| - 1];
      KeptIff(init, p);
      KeptBounds(init, p);
      forall i | 0 <= i < |init| ensures init[i] == s[i] {}
    }
  }

  /** `Filter` selects exactly the positions where `p` holds, in order:
      its k-th element is the element at the k-th such position. */
  lemma FilterIsSelection<T>(s: seq<T>, p: T -> bool)
    ensures |Kept(s, p)| == |Filter(s, p)|
    ensures StrictlyIncreasing(Kept(s, p))
    ensures forall k :: 0 <= k < |Kept(s, p)| ==> Kept(s, p)[k] < |s| && Filter(s, p)[k] == s[Kept(s, p)[k]]
    ensures forall i :: 0 <= i < |s| ==> (p(s[i]) <==> i in Kept(s, p))
  {
    KeptBounds(s, p);
    FilterAtKept(s, p);
    KeptIff(s, p);
  }

  /** Every element that satisfies `p` survives the filter. */
  lemma FilterKeeps<T>(s: seq<T>, p: T -> bool, x: T)
    requires x in s && p(x)
    ensures x in Filter(s, p)
  {
    FilterIsSelection(s, p);
    var i :| 0 <= i < |s| && s[i] == x;
    var k :| 0 <= k < |Kept(s, p)| && Kept(s, p)[k] == i;
  }

  /** A filter that rejects nothing returns its input unchanged. */
  lemma {:induction false} FilterAll<T>(s: seq<T>, p: T -> bool)
    requires forall i :: 0 <= i < |s| ==> p(s[i])
    ensures Filter(s, p) == s
  {
    if s != [] {
      var init := s[..|s| - 1];
      assert forall i :: 0 <= i < |init| ==> init[i] == s[i];
      FilterAll(init, p);
      assert s == init + [s[|s| - 1]];
    }
  }

  /** Filtering distributes over concatenation. */
  lemma {:induction false} FilterAppend<T>(a: seq<T>, b: seq<T>, p: T -> bool)
    ensures Filter(a + b, p) == Filter(a, p) + Filter(b, p)
  {
    if b != [] {
      var b' := b[..|b| - 1];
      assert (a + b)[..|a + b| - 1] == a + b';
      FilterAppend(a, b', p);
    } else {
      assert a + b == a;
    }
  }

  /** Filtering by `p` and then by `q` is filtering once by their conjunction. */
  lemma {:induction false} FilterFilter<T>(s: seq<T>, p: T -> bool, q: T -> bool, both: T -> bool)
    requires forall x :: both(x) == (p(x) && q(x))
    ensures Filter(Filter(s, p), q) == Filter(s, both)
  {
    if s != [] {
      var init, last := s[..|s| - 1], s[|s| - 1];
      FilterFilter(init, p, q, both);
      var tail := if p(last) then [last] else [];
      FilterAppend(Filter(init, p), tail, q);
      if p(last) {
        assert [last][..0] == [];
      }
    }
  }

  /** First-appearance de-duplication (pandas `Series.unique`). */
  function Unique<T(==)>(s: seq<T>): (r: seq<T>)
    ensures forall i :: 0 <= i < |r| ==> r[i] in s
    ensures forall i :: 0 <= i < |s| ==> s[i] in r
  {
    if s == [] then []
    else
      var u := Unique(s[..|s| - 1]);
      assert forall i :: 0 <= i < |s| - 1 ==> s[i] == s[..|s| - 1][i];
      if s[|s| - 1] in u then u else u + [s[|s| - 1]]
  }

  /** The position of the first occurrence of `x` in `s`. */
  function FirstIndex<T(==)>(s: seq<T>, x: T): (i: nat)
    requires x in s
    ensures i < |s| && s[i] == x && x !in s[..i]
  {
    if s[0] == x then 0
    else
      assert x in s[1..];
      var j := FirstIndex(s[1..], x);
      assert s[..j + 1] == [s[0]] + s[1..][..j];
      j + 1
  }

  /** Concatenation regroups freely. */
  lemma ConcatAssoc<T>(x: seq<T>, y: seq<T>, z: seq<T>)
    ensures (x + y) + z == x + (y + z)
  {
  }

  /** An occurrence with none before it is the first. */
  lemma FirstIndexAt<T>(s: seq<T>, x: T, i: nat)
    requires i < |s| && s[i] == x && x !in s[..i]
    ensures x in s && FirstIndex(s, x) == i
  {
    var j := FirstIndex(s, x);
    forall k | 0 <= k < i ensures s[k] != x {
      assert s[..i][k] == s[k];
    }
    forall k | 0 <= k < j ensures s[k] != x {
      assert s[..j][k] == s[k];
    }
  }

  lemma FirstIndexOfPrefix<T>(s: seq<T>, n: nat, x: T)
    requires n <= |s| && x in s[..n]
    ensures x in s && FirstIndex(s, x) == FirstIndex(s[..n], x)
  {
    var i := FirstIndex(s[..n], x);
    var j := FirstIndex(s, x);
    assert s[..n][..i] == s[..i];
    forall k | 0 <= k < i ensures s[k] != x { assert s[..i][k] == s[k]; }
    forall k | 0 <= k < j ensures s[k] != x { assert s[..j][k] == s[k]; }
  }

  /** `Unique` lists every value exactly once, in order of first appearance. */
  lemma {:induction false} UniqueFirstAppearance<T>(s: seq<T>)
    ensures Distinct(Unique(s))
    ensures forall a, b :: 0 <= a < b < |Unique(s)| ==> FirstIndex(s, Unique(s)[a]) < FirstIndex(s, Unique(s)[b])
  {
    if s != [] {
      var init := s[..|s| - 1];
      var last := s[|s| - 1];
      UniqueFirstAppearance(init);
      var u := Unique(init);
      forall a | 0 <= a < |u| ensures FirstIndex(s, u[a]) == FirstIndex(init, u[a]) {
        FirstIndexOfPrefix(s, |s| - 1, u[a]);
      }
      if last !in u {
        assert last !in init;
        var j := FirstIndex(s, last);
        forall k | 0 <= k < |s| - 1 ensures s[k] != last { assert init[k] == s[k]; }
        assert j == |s| - 1;
      }
    }
  }

  /** Two duplicate-free sequences with no common element concatenate to a
      duplicate-free sequence. */
  lemma DistinctConcat<T>(a: seq<T>, b: seq<T>)
    requires Distinct(a) && Distinct(b)
    requires forall i, j :: 0 <= i < |a| && 0 <= j < |b| ==> a[i] != b[j]
    ensures Distinct(a + b)
  {
    forall i, j | 0 <= i < j < |a + b| ensures (a + b)[i] != (a + b)[j] {
      if j < |a| {
        assert (a + b)[i] == a[i] && (a + b)[j] == a[j];
      } else if i < |a| {
        assert (a + b)[i] == a[i] && (a + b)[j] == b[j - |a|];
      } else {
        assert (a + b)[i] == b[i - |a|] && (a + b)[j] == b[j - |a|];
      }
    }
  }
}
