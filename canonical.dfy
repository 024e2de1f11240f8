/**
  * Commutativity: the canonical order of the (flattened, normalised)
  * arguments of an AC application. A precedence-minimal pivot below the
  * first argument is moved to the front and the rest is sorted by the
  * extended comparison; without such a pivot the first argument keeps its
  * place and the rest is ordered the same way, recursively.
  */
module CanonicalOrder {
  import opened Terms
  import opened Orders
  import opened Sorting

  datatype Option<T> = None | Some(value: T)

  /** The list without its k-th element. */
  function RemoveAt(ts: seq<Node>, k: nat): (r: seq<Node>)
    requires k < |ts|
    ensures |r| == |ts| - 1
  {
    ts[..k] + ts[k + 1..]
  }

  /** Removing an element takes one occurrence of it out of the multiset. */
  lemma RemoveAtMultiset(ts: seq<Node>, k: nat)
    requires k < |ts|
    ensures multiset(RemoveAt(ts, k)) + multiset{ts[k]} == multiset(ts)
  {
    assert ts == ts[..k] + [ts[k]] + ts[k + 1..];
  }

  /**
    * Position k qualifies as pivot: its element is below the first element
    * in the precedence order and above none of the elements.
    */
  predicate IsPivot(ts: seq<Node>, k: nat)
    requires PairwiseCompatible(ts) && k < |ts|
  {
    && CompTerm(ts[k], ts[0]) < 0
    && forall j {:trigger CompTerm(ts[k], ts[j])} :: 0 <= j < |ts| ==> CompTerm(ts[k], ts[j]) <= 0
  }

  /** The first qualifying pivot at or after position i, in list order. */
  function PivotFrom(ts: seq<Node>, i: nat): (r: Option<nat>)
    requires PairwiseCompatible(ts) && i <= |ts|
    ensures r.Some? ==> i <= r.value < |ts| && IsPivot(ts, r.value)
    ensures r.Some? ==> forall j :: i <= j < r.value ==> !IsPivot(ts, j)
    ensures r.None? ==> forall j :: i <= j < |ts| ==> !IsPivot(ts, j)
    decreases |ts| - i
  {
    if i == |ts| then None
    else if IsPivot(ts, i) then Some(i)
    else PivotFrom(ts, i + 1)
  }

  lemma SublistCompatible(ts: seq<Node>, k: nat)
    requires PairwiseCompatible(ts) && k < |ts|
    ensures PairwiseCompatible(ts[1..]) && PairwiseCompatible(RemoveAt(ts, k))
  {
    assert forall y :: y in ts[1..] ==> y in ts;
    RemoveAtMembers(ts, k);
  }

  /**
    * csort, as a function: the canonical order of a list of AC arguments.
    * It is a permutation of its input.
    */
  function Canonical(ts: seq<Node>): (r: seq<Node>)
    requires PairwiseCompatible(ts)
    ensures multiset(r) == multiset(ts)
    decreases |ts|
  {
    if ts == [] then []
    else
      SublistCompatible(ts, 0);
      var p := PivotFrom(ts, 0);
      if !IsVar(ts[0]) && p.Some? then
        SublistCompatible(ts, p.value);
        RemoveAtMultiset(ts, p.value);
        [ts[p.value]] + SortExt(RemoveAt(ts, p.value))
      else
        assert ts == [ts[0]] + ts[1..];
        [ts[0]] + Canonical(ts[1..])
  }

  /** The canonical list has the length of its input; the empty list stays empty. */
  lemma CanonicalLength(ts: seq<Node>)
    requires PairwiseCompatible(ts)
    ensures |Canonical(ts)| == |ts|
    ensures ts == [] <==> Canonical(ts) == []
  {
    assert |multiset(Canonical(ts))| == |multiset(ts)|;
  }

  /**
    * The first part of the pivot rule: the canonical list starts with the
    * original first argument when that is the variable or when no pivot
    * qualifies, and the rest is then the canonical order of the tail.
    */
  lemma CanonicalKeepsHead(ts: seq<Node>)
    requires PairwiseCompatible(ts) && ts != []
    requires IsVar(ts[0]) || forall k :: 0 <= k < |ts| ==> !IsPivot(ts, k)
    ensures PairwiseCompatible(ts[1..])
    ensures Canonical(ts) == [ts[0]] + Canonical(ts[1..])
  {
    SublistCompatible(ts, 0);
    var p := PivotFrom(ts, 0);
    if !IsVar(ts[0]) {
      assert p.None?;
    }
  }

  /**
    * The second part of the pivot rule: when the first argument is not the
    * variable and some pivot qualifies, the canonical list starts with the
    * first qualifying pivot, followed by the remaining arguments in ascending
    * extended order.
    */
  lemma CanonicalPivotFirst(ts: seq<Node>, k: nat)
    requires PairwiseCompatible(ts) && k < |ts|
    requires forall y :: y in ts ==> VarsAreLeaves(y)
    requires !IsVar(ts[0]) && IsPivot(ts, k) && forall j :: 0 <= j < k ==> !IsPivot(ts, j)
    ensures var r := Canonical(ts);
      && r != [] && r[0] == ts[k]
      && multiset(r[1..]) == multiset(RemoveAt(ts, k))
      && PairwiseCompatible(r[1..]) && Ascending(r[1..])
  {
    CanonicalWithPivot(ts, k);
    var rest := RemoveAt(ts, k);
    RemoveAtMultiset(ts, k);
    RemoveAtMembers(ts, k);
    SortExtAscending(rest);
    var r := Canonical(ts);
    assert r[1..] == SortExt(rest);
  }

  /** The remaining arguments are arguments of the original list. */
  lemma RemoveAtMembers(ts: seq<Node>, k: nat)
    requires k < |ts|
    ensures forall y :: y in RemoveAt(ts, k) ==> y in ts
  {
    assert forall y :: y in ts[..k] ==> y in ts;
    assert forall y :: y in ts[k + 1..] ==> y in ts;
  }

  /** A head that differs from the original first argument is precedence-minimal and below it. */
  lemma CanonicalHeadIsMinimal(ts: seq<Node>)
    requires PairwiseCompatible(ts) && ts != []
    ensures var r := Canonical(ts);
      && r != [] && r[0] in ts
      && (r[0] != ts[0] ==>
            CompTerm(r[0], ts[0]) == -1 && forall y :: y in ts ==> CompTerm(r[0], y) <= 0)
  {
    var r := Canonical(ts);
    CanonicalLength(ts);
    assert r[0] in multiset(r);
    var p := PivotFrom(ts, 0);
    if !IsVar(ts[0]) && p.Some? {
      var k := p.value;
      assert IsPivot(ts, k);
      forall y | y in ts ensures CompTerm(r[0], y) <= 0 {
        var j :| 0 <= j < |ts| && ts[j] == y;
      }
    }
  }

  // ---------------------------------------------------------------------
  // The procedure itself
  // ---------------------------------------------------------------------

  /** csort_prime: drop the pivot from the list and sort what remains. */
  method CSortPrime(terms: seq<Node>, k: nat) returns (r: seq<Node>)
    requires PairwiseCompatible(terms) && k < |terms|
    ensures r == SortExt(RemoveAt(terms, k))
  {
    SublistCompatible(terms, k);
    var rest := terms[..k] + terms[k + 1..];
    r := SortExtended(rest);
  }

  /** csort: search for a pivot in list order; without one keep the head and recurse on the tail. */
  method CSort(terms: seq<Node>) returns (r: seq<Node>)
    requires PairwiseCompatible(terms)
    ensures r == Canonical(terms)
    decreases |terms|
  {
    if |terms| == 0 {
      return [];
    }
    var first := terms[0];
    if !IsVar(first) {
      var k := 0;
      while k < |terms|
        invariant 0 <= k <= |terms|
        invariant forall m :: 0 <= m < k ==> !IsPivot(terms, m)
      {
        var kterm := terms[k];
        if CompTerm(kterm, first) < 0 {
          var foundMinimal := true;
          var j := 0;
          while j < |terms|
            invariant 0 <= j <= |terms|
            invariant forall m :: 0 <= m < j ==> CompTerm(kterm, terms[m]) <= 0
          {
            if CompTerm(kterm, terms[j]) > 0 {
              foundMinimal := false;
              break;
            }
            j := j + 1;
          }
          assert foundMinimal <==> IsPivot(terms, k);
          if foundMinimal {
            var p := PivotFrom(terms, 0);
            assert p == Some(k);
            var rest := CSortPrime(terms, k);
            return [kterm] + rest;
          }
        }
        k := k + 1;
      }
      assert PivotFrom(terms, 0).None?;
    }
    SublistCompatible(terms, 0);
    var rest := CSort(terms[1..]);
    r := [first] + rest;
  }

  /** A single leaf is its own canonical list. */
  lemma CanonicalLeaf(s: Symbol)
    ensures PairwiseCompatible([Leaf(s)]) && Canonical([Leaf(s)]) == [Leaf(s)]
  {
    assert PairwiseCompatible([Leaf(s)]);
    assert [Leaf(s)][1..] == [];
  }

  /** Two leaves may be compared when their names agree exactly when their weights do. */
  lemma TwoLeavesCompatible(s: Symbol, t: Symbol)
    requires SameSymbol(s, t) <==> s.weight == t.weight
    ensures PairwiseCompatible([Leaf(s), Leaf(t)])
  {
    forall a, b | a in [Leaf(s), Leaf(t)] && b in [Leaf(s), Leaf(t)]
      ensures Compatible(a, b)
    {
    }
  }

  /** x before a: the variable at the head keeps its place. */
  lemma CanonicalVariableFirst()
    ensures var a := Leaf(Symbol("a", 1));
      PairwiseCompatible([Leaf(X), a]) && Canonical([Leaf(X), a]) == [Leaf(X), a]
  {
    var a := Leaf(Symbol("a", 1));
    CanonicalLeaf(Symbol("a", 1));
    TwoLeavesCompatible(X, Symbol("a", 1));
    assert [Leaf(X), a][1..] == [a];
  }

  /** a before x: the variable is never smaller than the constant, so no pivot moves. */
  lemma CanonicalConstantFirst()
    ensures var a := Leaf(Symbol("a", 1));
      PairwiseCompatible([a, Leaf(X)]) && Canonical([a, Leaf(X)]) == [a, Leaf(X)]
  {
    var a := Leaf(Symbol("a", 1));
    CanonicalLeaf(X);
    TwoLeavesCompatible(Symbol("a", 1), X);
    assert [a, Leaf(X)][1..] == [Leaf(X)];
    assert !IsPivot([a, Leaf(X)], 0) && !IsPivot([a, Leaf(X)], 1);
    assert PivotFrom([a, Leaf(X)], 0).None?;
  }

  /** With the variable first the order stays; with a constant first the variable is no pivot. */
  lemma CanonicalTwoLeaves()
    ensures var a := Leaf(Symbol("a", 1));
      && PairwiseCompatible([Leaf(X), a]) && PairwiseCompatible([a, Leaf(X)])
      && Canonical([Leaf(X), a]) == [Leaf(X), a]
      && Canonical([a, Leaf(X)]) == [a, Leaf(X)]
  {
    CanonicalVariableFirst();
    CanonicalConstantFirst();
  }

  /** h(s, s, s), over the symbol h of weight 1. */
  function HOf(s: Symbol): Node {
    Apply(Symbol("h", 1), [Leaf(s), Leaf(s), Leaf(s)])
  }

  /** The constant b, h(c, c, c) and h(a, a, a), over the ordering b > a > c > h. */
  predicate Example(b: Node, hc: Node, ha: Node) {
    && b == Leaf(Symbol("b", 4))
    && hc == HOf(Symbol("c", 2))
    && ha == HOf(Symbol("a", 3))
  }

  /** What the examples use of the three arguments: how the two orders compare them. */
  predicate ExampleFacts(b: Node, hc: Node, ha: Node) {
    && PairwiseCompatible([b, hc, ha])
    && !IsVar(b) && !IsVar(hc)
    && CompTerm(b, b) == 0 && CompTerm(hc, hc) == 0 && CompTerm(ha, ha) == 0
    && CompTerm(hc, b) == -1 && CompTerm(ha, b) == -1 && CompTerm(b, hc) == 1
    && CompTerm(hc, ha) == -1 && CompTerm(ha, hc) == 1
    && CompExtended(b, ha) == -1 && CompExtended(ha, b) == 1
  }

  /** The precedence order puts h(c, c, c) below b and below h(a, a, a), and h(a, a, a) below b. */
  lemma PrecedenceExample(b: Node, hc: Node, ha: Node)
    requires Example(b, hc, ha)
    ensures ExampleFacts(b, hc, ha)
  {
    ExampleCompatible(b, hc, ha);
    ExampleHeads(b, hc, ha);
    ExampleMetrics(b, hc, ha);
    NodeEqReflexive(b);
    NodeEqReflexive(hc);
    NodeEqReflexive(ha);
    CompTermAntisymmetric(hc, b);
  }

  lemma ExampleCompatible(b: Node, hc: Node, ha: Node)
    requires Example(b, hc, ha)
    ensures PairwiseCompatible([b, hc, ha])
  {
    assert Compatible(hc, ha) && Compatible(ha, hc);
    forall y, z | y in [b, hc, ha] && z in [b, hc, ha] ensures Compatible(y, z) {
      CompatibleReflexive(y);
    }
  }

  /** h(c, c, c) and h(a, a, a) share their head and are told apart by their first arguments. */
  lemma ExampleHeads(b: Node, hc: Node, ha: Node)
    requires Example(b, hc, ha)
    ensures Compatible(hc, ha) && CompTerm(hc, ha) == -1 && CompTerm(ha, hc) == 1
  {
    assert Compatible(hc, ha);
    assert !NodeEq(hc, ha) by {
      assert !NodeEq(hc.children[0], ha.children[0]);
    }
    assert TermChildren(hc.children, ha.children) == -1;
    CompTermAntisymmetric(hc, ha);
  }

  /** b weighs 6 and h(a, a, a) weighs 18, neither with a variable, so b is the lighter. */
  lemma ExampleMetrics(b: Node, hc: Node, ha: Node)
    requires Example(b, hc, ha)
    ensures Compatible(b, ha) && CompExtended(b, ha) == -1
    ensures Compatible(ha, b) && CompExtended(ha, b) == 1
  {
    assert Weight(b) == 6 && Vars(b) == 0;
    var kids := ha.children;
    assert forall i :: 0 <= i < 3 ==> Weight(kids[i]) == 5 && Vars(kids[i]) == 0;
    assert kids[..2][..1] == kids[..1] && kids[..1][..0] == [];
    assert kids[..1][0] == kids[0] && kids[..2][1] == kids[1];
    assert WeightList(kids[..1]) == 5 && VarsList(kids[..1]) == 0;
    assert WeightList(kids[..2]) == 10 && VarsList(kids[..2]) == 0;
    assert WeightList(kids) == 15 && VarsList(kids) == 0;
    assert Weight(ha) == 18 && Vars(ha) == 0;
  }

  /**
    * csort is not idempotent: the arguments b, h(c, c, c), h(a, a, a) come
    * out as h(c, c, c), b, h(a, a, a), and sorting that again moves
    * h(a, a, a) in front of b.
    */
  lemma CanonicalNotIdempotent(b: Node, hc: Node, ha: Node)
    requires Example(b, hc, ha)
    ensures PairwiseCompatible([b, hc, ha]) && PairwiseCompatible([hc, b, ha])
    ensures Canonical([b, hc, ha]) == [hc, b, ha]
    ensures Canonical([hc, b, ha]) == [hc, ha, b]
  {
    PrecedenceExample(b, hc, ha);
    PivotFirstExample(b, hc, ha);
    NoPivotExample(b, hc, ha);
  }

  /** First pass: h(c, c, c) is the pivot, and b, h(a, a, a) are already in extended order. */
  lemma PivotFirstExample(b: Node, hc: Node, ha: Node)
    requires ExampleFacts(b, hc, ha)
    ensures PairwiseCompatible([b, hc, ha])
    ensures Canonical([b, hc, ha]) == [hc, b, ha]
  {
    FirstPivot(b, hc, ha);
    ConstantThenHeavy(b, hc, ha);
    MiddlePivot(b, hc, ha);
  }

  /** A pivot in the middle of three arguments, with the other two already sorted. */
  lemma MiddlePivot(p: Node, q: Node, r: Node)
    requires PairwiseCompatible([p, q, r]) && !IsVar(p)
    requires !IsPivot([p, q, r], 0) && IsPivot([p, q, r], 1)
    requires PairwiseCompatible([p, r]) && SortExt([p, r]) == [p, r]
    ensures Canonical([p, q, r]) == [q, p, r]
  {
    CanonicalWithPivot([p, q, r], 1);
    ThreeElements(p, q, r);
  }

  lemma ThreeElements(p: Node, q: Node, r: Node)
    ensures RemoveAt([p, q, r], 1) == [p, r]
    ensures [q] + [p, r] == [q, p, r]
  {
    var ts := [p, q, r];
    assert ts[..1] == [p] && ts[2..] == [r];
    assert [p] + [r] == [p, r];
    var u := [q] + [p, r];
    assert |u| == 3 && u[0] == q && u[1] == p && u[2] == r;
  }

  lemma ConstantThenHeavy(b: Node, hc: Node, ha: Node)
    requires ExampleFacts(b, hc, ha)
    ensures PairwiseCompatible([b, ha]) && SortExt([b, ha]) == [b, ha]
  {
    assert forall y :: y in [b, ha] ==> y in [b, hc, ha];
    SortExtPair(b, ha);
  }

  lemma FirstPivot(b: Node, hc: Node, ha: Node)
    requires ExampleFacts(b, hc, ha)
    ensures !IsPivot([b, hc, ha], 0) && IsPivot([b, hc, ha], 1)
  {
  }

  /** The pivot rule as an equation. */
  lemma CanonicalWithPivot(ts: seq<Node>, k: nat)
    requires PairwiseCompatible(ts) && k < |ts|
    requires !IsVar(ts[0]) && IsPivot(ts, k) && forall j :: 0 <= j < k ==> !IsPivot(ts, j)
    ensures PairwiseCompatible(RemoveAt(ts, k))
    ensures Canonical(ts) == [ts[k]] + SortExt(RemoveAt(ts, k))
  {
    SublistCompatible(ts, k);
    var p := PivotFrom(ts, 0);
    assert p.Some?;
    assert !(p.value < k) && !(k < p.value);
  }

  /** Second pass: nothing is below h(c, c, c), which keeps its place, and b, h(a, a, a) get reordered. */
  lemma NoPivotExample(b: Node, hc: Node, ha: Node)
    requires ExampleFacts(b, hc, ha)
    ensures PairwiseCompatible([hc, b, ha])
    ensures Canonical([hc, b, ha]) == [hc, ha, b]
  {
    var second := [hc, b, ha];
    NoPivots(b, hc, ha);
    CanonicalKeepsHead(second);
    assert second[1..] == [b, ha];
    PivotBeforeConstant(b, hc, ha);
    assert [hc] + [ha, b] == [hc, ha, b];
  }

  lemma NoPivots(b: Node, hc: Node, ha: Node)
    requires ExampleFacts(b, hc, ha)
    ensures PairwiseCompatible([hc, b, ha])
    ensures forall k :: 0 <= k < 3 ==> !IsPivot([hc, b, ha], k)
  {
    var second := [hc, b, ha];
    assert forall y :: y in second ==> y in [b, hc, ha];
    assert !IsPivot(second, 0) && !IsPivot(second, 1) && !IsPivot(second, 2);
  }

  lemma PivotBeforeConstant(b: Node, hc: Node, ha: Node)
    requires ExampleFacts(b, hc, ha)
    ensures PairwiseCompatible([b, ha])
    ensures Canonical([b, ha]) == [ha, b]
  {
    HeavyPivot(b, hc, ha);
    CanonicalWithPivot([b, ha], 1);
    assert RemoveAt([b, ha], 1) == [b];
    assert SortExt([b]) == [b] by {
      assert [b][..0] == [];
    }
  }

  lemma HeavyPivot(b: Node, hc: Node, ha: Node)
    requires ExampleFacts(b, hc, ha)
    ensures PairwiseCompatible([b, ha]) && !IsVar(b)
    ensures IsPivot([b, ha], 1) && !IsPivot([b, ha], 0)
  {
    assert forall y :: y in [b, ha] ==> y in [b, hc, ha];
  }

  /** g(a), c and x, over the ordering g > a > c. */
  predicate SwapExample(ga: Node, c: Node, v: Node) {
    && ga == Apply(Symbol("g", 3), [Leaf(Symbol("a", 2))])
    && c == Leaf(Symbol("c", 1))
    && v == Leaf(X)
  }

  /**
    * With g > a > c, the arguments g(a), c, x: c is the pivot, and the rest
    * g(a), x is a descending pair, since x compares below g(a) (weight sums
    * 1 and 9). The sort swaps it, so the result is c, x, g(a).
    */
  lemma CanonicalSwapsDescendingPair(ga: Node, c: Node, v: Node)
    requires SwapExample(ga, c, v)
    ensures PairwiseCompatible([ga, c, v]) && Canonical([ga, c, v]) == [c, v, ga]
  {
    SwapExampleCompatible(ga, c, v);
    SwapExamplePivot(ga, c, v);
    CanonicalWithPivot([ga, c, v], 1);
    ThreeElements(ga, c, v);
    SwapExampleMetrics(ga, c, v);
    SortExtPair(ga, v);
    assert [c] + [v, ga] == [c, v, ga];
  }

  lemma SwapExampleCompatible(ga: Node, c: Node, v: Node)
    requires SwapExample(ga, c, v)
    ensures PairwiseCompatible([ga, c, v]) && PairwiseCompatible([ga, v])
  {
    forall y, z | y in [ga, c, v] && z in [ga, c, v] ensures Compatible(y, z) {
      CompatibleReflexive(y);
    }
    assert forall y :: y in [ga, v] ==> y in [ga, c, v];
  }

  /** c is below g(a) in precedence and incomparable with x and itself. */
  lemma SwapExamplePivot(ga: Node, c: Node, v: Node)
    requires SwapExample(ga, c, v) && PairwiseCompatible([ga, c, v])
    ensures !IsVar(ga) && IsPivot([ga, c, v], 1) && !IsPivot([ga, c, v], 0)
  {
    NodeEqReflexive(ga);
    NodeEqReflexive(c);
    assert CompTerm(ga, ga) == 0 && CompTerm(c, c) == 0;
    assert CompTerm(c, ga) == -1 && CompTerm(c, v) == 0;
  }

  /** x has one variable and weight sum 1, g(a) none and 9: x compares below g(a). */
  lemma SwapExampleMetrics(ga: Node, c: Node, v: Node)
    requires SwapExample(ga, c, v)
    ensures Compatible(v, ga) && CompExtended(v, ga) == -1
  {
    assert Weight(ga.children[0]) == 4;
    assert WeightList(ga.children) == 4 by {
      assert ga.children[..0] == [];
    }
    assert Weight(ga) == 9;
  }
}
