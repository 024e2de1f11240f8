/**
  * The sort of the AC arguments that follow the pivot: a stable insertion sort
  * driven by the extended comparison.
  */
module Sorting {
  import opened Terms
  import opened Orders

  /** Every member of s may be compared with x, in both orders. */
  predicate CompatibleWith(s: seq<Node>, x: Node) {
    forall y :: y in s ==> Compatible(y, x) && Compatible(x, y)
  }

  /**
    * Insert x into s from the right: x moves left past every element that it
    * compares below (the `<` that `cmp_to_key` derives from the extended
    * comparison), and stops at the first that it does not.
    */
  function InsertExt(x: Node, s: seq<Node>): (r: seq<Node>)
    requires CompatibleWith(s, x)
    ensures multiset(r) == multiset(s) + multiset{x}
    decreases |s|
  {
    if s == [] then [x]
    else
      var init, last := s[..|s| - 1], s[|s| - 1];
      assert s == init + [last];
      if CompExtended(x, last) == -1 then InsertExt(x, init) + [last]
      else s + [x]
  }

  /** The extended-order sort: each element in turn is inserted into the sorted prefix. */
  function SortExt(ts: seq<Node>): (r: seq<Node>)
    requires PairwiseCompatible(ts)
    ensures multiset(r) == multiset(ts)
    decreases |ts|
  {
    if ts == [] then []
    else
      var init, last := ts[..|ts| - 1], ts[|ts| - 1];
      assert ts == init + [last];
      var sorted := SortExt(init);
      assert forall y :: y in sorted ==> y in multiset(init);
      InsertExt(last, sorted)
  }

  /** No neighbouring pair in which the left element compares above the right one. */
  predicate Ascending(s: seq<Node>)
    requires PairwiseCompatible(s)
  {
    forall i :: 0 <= i < |s| - 1 ==> CompExtended(s[i], s[i + 1]) != 1
  }

  /**
    * On two elements the sort makes the one comparison Timsort makes, b < a,
    * and swaps the pair exactly when it holds (a strictly descending run).
    */
  lemma {:induction false} SortExtPair(a: Node, b: Node)
    requires PairwiseCompatible([a, b])
    ensures CompExtended(b, a) == -1 ==> SortExt([a, b]) == [b, a]
    ensures CompExtended(b, a) != -1 ==> SortExt([a, b]) == [a, b]
  {
    assert [a, b][..1] == [a];
    assert SortExt([a]) == [a] by {
      assert [a][..0] == [];
    }
  }

  /** The last element after an insertion is the inserted one or the old last one. */
  lemma {:induction false} InsertExtLast(x: Node, s: seq<Node>)
    requires CompatibleWith(s, x)
    ensures var r := InsertExt(x, s); r[|r| - 1] == x || (s != [] && r[|r| - 1] == s[|s| - 1])
    decreases |s|
  {
    if s != [] && CompExtended(x, s[|s| - 1]) != -1 {
    }
  }

  /** Insertion adds x and keeps every member. */
  lemma InsertExtMembers(x: Node, s: seq<Node>)
    requires CompatibleWith(s, x)
    ensures forall y :: y in InsertExt(x, s) <==> y in s || y == x
  {
    var r := InsertExt(x, s);
    assert forall y :: y in r <==> y in multiset(r);
    assert forall y :: y in s <==> y in multiset(s);
  }

  /** Sorting keeps exactly the members of its input. */
  lemma SortExtMembers(ts: seq<Node>)
    requires PairwiseCompatible(ts)
    ensures forall y :: y in SortExt(ts) <==> y in ts
    ensures PairwiseCompatible(SortExt(ts))
  {
    var r := SortExt(ts);
    assert forall y :: y in r <==> y in multiset(r);
    assert forall y :: y in ts <==> y in multiset(ts);
  }

  lemma InsertExtCompatible(x: Node, s: seq<Node>)
    requires CompatibleWith(s, x) && PairwiseCompatible(s)
    ensures PairwiseCompatible(InsertExt(x, s))
  {
    InsertExtMembers(x, s);
    CompatibleReflexive(x);
  }

  lemma AscendingSnoc(s: seq<Node>, y: Node)
    requires PairwiseCompatible(s) && PairwiseCompatible(s + [y])
    requires Ascending(s)
    requires s != [] ==> CompExtended(s[|s| - 1], y) != 1
    ensures Ascending(s + [y])
  {
    var r := s + [y];
    forall i | 0 <= i < |r| - 1 ensures CompExtended(r[i], r[i + 1]) != 1 {
      if i < |s| - 1 {
        assert r[i] == s[i] && r[i + 1] == s[i + 1];
      }
    }
  }

  /** Insertion keeps a list ascending, because the extended comparison is asymmetric. */
  lemma {:induction false} InsertExtAscending(x: Node, s: seq<Node>)
    requires CompatibleWith(s, x) && PairwiseCompatible(s)
    requires VarsAreLeaves(x) && forall y :: y in s ==> VarsAreLeaves(y)
    requires Ascending(s)
    ensures PairwiseCompatible(InsertExt(x, s)) && Ascending(InsertExt(x, s))
    decreases |s|
  {
    InsertExtCompatible(x, s);
    if s != [] {
      var init, last := s[..|s| - 1], s[|s| - 1];
      AscendingInit(x, s);
      if CompExtended(x, last) == -1 {
        InsertExtAscending(x, init);
        InsertBeforeLast(x, s);
      } else {
        assert CompExtended(last, x) != 1 by {
          if CompExtended(last, x) == 1 {
            CompExtendedAsymmetric(last, x);
          }
        }
        AscendingSnoc(s, x);
      }
    }
  }

  /** The preconditions of the insertion lemma carry over to the list without its last element. */
  lemma AscendingInit(x: Node, s: seq<Node>)
    requires s != [] && CompatibleWith(s, x) && PairwiseCompatible(s)
    requires forall y :: y in s ==> VarsAreLeaves(y)
    requires Ascending(s)
    ensures var init := s[..|s| - 1];
      && s == init + [s[|s| - 1]]
      && CompatibleWith(init, x) && PairwiseCompatible(init)
      && (forall y :: y in init ==> VarsAreLeaves(y))
      && Ascending(init)
  {
    var init := s[..|s| - 1];
    assert s == init + [s[|s| - 1]];
    assert forall y :: y in init ==> y in s;
  }

  /** When x moves past the last element, that element still follows something not above it. */
  lemma InsertBeforeLast(x: Node, s: seq<Node>)
    requires s != [] && CompatibleWith(s, x) && PairwiseCompatible(s)
    requires Ascending(s)
    requires CompExtended(x, s[|s| - 1]) == -1
    requires CompatibleWith(s[..|s| - 1], x)
    requires PairwiseCompatible(InsertExt(x, s[..|s| - 1])) && Ascending(InsertExt(x, s[..|s| - 1]))
    ensures PairwiseCompatible(InsertExt(x, s)) && Ascending(InsertExt(x, s))
  {
    var init, last := s[..|s| - 1], s[|s| - 1];
    InsertExtCompatible(x, s);
    var r0 := InsertExt(x, init);
    assert InsertExt(x, s) == r0 + [last];
    InsertExtLast(x, init);
    InsertExtMembers(x, init);
    if r0[|r0| - 1] != x {
      assert CompExtended(s[|s| - 2], s[|s| - 1]) != 1;
    }
    AscendingSnoc(r0, last);
  }

  /** The sorted list has no neighbouring pair out of order. */
  lemma {:induction false} SortExtAscending(ts: seq<Node>)
    requires PairwiseCompatible(ts) && forall y :: y in ts ==> VarsAreLeaves(y)
    ensures PairwiseCompatible(SortExt(ts)) && Ascending(SortExt(ts))
    decreases |ts|
  {
    SortExtMembers(ts);
    if ts != [] {
      var init, last := ts[..|ts| - 1], ts[|ts| - 1];
      assert ts == init + [last];
      assert forall y :: y in init ==> y in ts;
      SortExtAscending(init);
      SortExtMembers(init);
      InsertExtAscending(last, SortExt(init));
    }
  }

  lemma CompatibleWithPrefix(s: seq<Node>, x: Node, j: nat)
    requires CompatibleWith(s, x) && j <= |s|
    ensures CompatibleWith(s[..j], x)
  {
    assert forall y :: y in s[..j] ==> y in s;
  }

  /** Every member of the sorted prefix may be compared with the next element. */
  lemma SortedPrefixCompatible(ts: seq<Node>, i: nat)
    requires PairwiseCompatible(ts) && i < |ts|
    ensures PairwiseCompatible(ts[..i]) && PairwiseCompatible(ts[..i + 1])
    ensures CompatibleWith(SortExt(ts[..i]), ts[i])
  {
    assert forall y :: y in ts[..i] ==> y in ts;
    assert forall y :: y in ts[..i + 1] ==> y in ts;
    SortExtMembers(ts[..i]);
  }

  /** What one more step of the leftward scan does to the insertion. */
  lemma InsertExtPrefix(x: Node, s: seq<Node>, j: nat)
    requires CompatibleWith(s, x) && 0 < j <= |s|
    ensures CompatibleWith(s[..j - 1], x)
    ensures CompExtended(x, s[j - 1]) == -1 ==> InsertExt(x, s[..j]) == InsertExt(x, s[..j - 1]) + [s[j - 1]]
    ensures CompExtended(x, s[j - 1]) != -1 ==> InsertExt(x, s[..j]) == s[..j] + [x]
  {
    CompatibleWithPrefix(s, x, j);
    CompatibleWithPrefix(s, x, j - 1);
    assert s[..j][..j - 1] == s[..j - 1];
  }

  /** The scan moves x past s[j - 1]: the split point moves one place left. */
  lemma InsertScanStep(x: Node, s: seq<Node>, j: nat)
    requires CompatibleWith(s, x) && 0 < j <= |s|
    requires CompExtended(x, s[j - 1]) == -1
    ensures CompatibleWith(s[..j], x) && CompatibleWith(s[..j - 1], x)
    ensures InsertExt(x, s[..j]) + s[j..] == InsertExt(x, s[..j - 1]) + s[j - 1..]
  {
    CompatibleWithPrefix(s, x, j);
    InsertExtPrefix(x, s, j);
    assert s[j - 1..] == [s[j - 1]] + s[j..];
  }

  /** The scan stops at j: x goes between s[..j] and s[j..]. */
  lemma InsertScanStop(x: Node, s: seq<Node>, j: nat)
    requires CompatibleWith(s, x) && j <= |s|
    requires j > 0 ==> CompExtended(x, s[j - 1]) != -1
    ensures CompatibleWith(s[..j], x)
    ensures InsertExt(x, s[..j]) + s[j..] == s[..j] + [x] + s[j..]
  {
    CompatibleWithPrefix(s, x, j);
    if j > 0 {
      InsertExtPrefix(x, s, j);
    }
  }

  /** One insertion step: scan leftwards from the end for the place of x. */
  method Insert(x: Node, s: seq<Node>) returns (r: seq<Node>)
    requires CompatibleWith(s, x)
    ensures r == InsertExt(x, s)
  {
    var j := |s|;
    assert s[..j] == s && s[j..] == [];
    while j > 0 && CompExtended(x, s[j - 1]) == -1
      invariant 0 <= j <= |s|
      invariant CompatibleWith(s[..j], x)
      invariant InsertExt(x, s) == InsertExt(x, s[..j]) + s[j..]
    {
      InsertScanStep(x, s, j);
      j := j - 1;
    }
    InsertScanStop(x, s, j);
    r := s[..j] + [x] + s[j..];
  }

  /** Sorting one more element inserts it into the sorted prefix. */
  lemma SortExtStep(ts: seq<Node>, i: nat)
    requires PairwiseCompatible(ts) && i < |ts|
    ensures PairwiseCompatible(ts[..i]) && PairwiseCompatible(ts[..i + 1])
    ensures CompatibleWith(SortExt(ts[..i]), ts[i])
    ensures SortExt(ts[..i + 1]) == InsertExt(ts[i], SortExt(ts[..i]))
  {
    SortedPrefixCompatible(ts, i);
    assert ts[..i + 1][..i] == ts[..i];
  }

  /** sorted(terms, key=cmp_to_key(comp_extended)), written out as an insertion sort. */
  method SortExtended(ts: seq<Node>) returns (r: seq<Node>)
    requires PairwiseCompatible(ts)
    ensures r == SortExt(ts)
  {
    r := [];
    for i := 0 to |ts|
      invariant PairwiseCompatible(ts[..i]) && r == SortExt(ts[..i])
    {
      SortExtStep(ts, i);
      r := Insert(ts[i], r);
    }
    assert ts[..|ts|] == ts;
  }
}
