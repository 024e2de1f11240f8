/**
  * The AC normaliser. Below an ordinary function symbol each child is
  * normalised and argument lists coming back from AC children are spliced
  * into the child sequence, while the display sequence keeps one entry per
  * original child. An application of the AC symbol becomes the canonical
  * order of its flattened, normalised arguments. Leaves stay as they are.
  */
module Normalize {
  import opened Terms
  import opened Orders
  import opened Flattening
  import opened Sorting
  import opened CanonicalOrder

  /**
    * The normaliser is defined on a tree when the canonical ordering can
    * compare the normalised arguments of every AC application in it.
    */
  predicate Normalizable(t: Node)
    decreases Size(t), 0
  {
    if IsAC(t) then
      var args := ACArgs(t.children);
      AllNormalizable(args) && PairwiseCompatible(NormArgs(args))
    else
      AllNormalizable(t.children)
  }

  predicate AllNormalizable(ts: seq<Node>)
    decreases SizeList(ts), 1
  {
    SizeListElements(ts);
    forall i :: 0 <= i < |ts| ==> Normalizable(ts[i])
  }

  /** norm: a single tree for every node but an AC application, which gives its argument list. */
  function Norm(t: Node): (r: Normal)
    requires Normalizable(t)
    ensures r.Tree? <==> !IsAC(t)
    ensures r.Tree? ==> !IsAC(r.node) && r.node.sym == t.sym
    ensures r.Args? ==> |r.list| >= |t.children| && multiset(r.list) == multiset(NormArgs(ACArgs(t.children)))
    decreases Size(t), 2
  {
    if IsFunc(t) && !IsAC(t) then
      var prime := NormList(t.children);
      var shown := seq(|t.children|, i requires 0 <= i < |t.children| =>
                     if IsAC(t.children[i]) then Apply(F, prime[i].list) else prime[i].node);
      Tree(Node(t.sym, Splice(prime), shown))
    else if IsAC(t) then
      var args := NormArgs(ACArgs(t.children));
      assert |multiset(Canonical(args))| == |multiset(args)|;
      Args(Canonical(args))
    else
      Tree(t)
  }

  /** The children normalised one by one. */
  function NormList(ts: seq<Node>): (r: seq<Normal>)
    requires AllNormalizable(ts)
    ensures |r| == |ts|
    decreases SizeList(ts), 3
  {
    SizeListElements(ts);
    seq(|ts|, i requires 0 <= i < |ts| => Norm(ts[i]))
  }

  /** The flattened arguments of an AC application normalised one by one; each is a single tree. */
  function NormArgs(args: seq<Node>): (r: seq<Node>)
    requires forall i :: 0 <= i < |args| ==> !IsAC(args[i])
    requires AllNormalizable(args)
    ensures |r| == |args|
    decreases SizeList(args), 3
  {
    SizeListElements(args);
    seq(|args|, i requires 0 <= i < |args| => Norm(args[i]).node)
  }

  // ---------------------------------------------------------------------
  // What the normal form looks like
  // ---------------------------------------------------------------------

  /** No application of the AC symbol anywhere in the tree. */
  predicate FreeOfAC(t: Node) {
    !IsAC(t) && forall i :: 0 <= i < |t.children| ==> FreeOfAC(t.children[i])
  }

  /** Normalisation removes every AC application from the operational trees. */
  lemma {:induction false} NormFreeOfAC(t: Node)
    requires Normalizable(t)
    ensures Norm(t).Tree? ==> FreeOfAC(Norm(t).node)
    ensures Norm(t).Args? ==> forall y :: y in Norm(t).list ==> FreeOfAC(y)
    decreases Size(t)
  {
    SizeListElements(t.children);
    if IsFunc(t) && !IsAC(t) {
      var prime := NormList(t.children);
      var n := Norm(t).node;
      forall i | 0 <= i < |n.children| ensures FreeOfAC(n.children[i]) {
        var y := n.children[i];
        SpliceMember(prime, y);
        var j :| 0 <= j < |prime| && y in Items(prime[j]);
        NormFreeOfAC(t.children[j]);
      }
    } else if IsAC(t) {
      var args := ACArgs(t.children);
      var nargs := NormArgs(args);
      SizeListElements(args);
      forall y | y in Norm(t).list ensures FreeOfAC(y) {
        assert y in multiset(nargs);
        var i :| 0 <= i < |nargs| && nargs[i] == y;
        NormFreeOfAC(args[i]);
      }
    }
  }

  /** Display entries that dissolve into the items they stand for dissolve into the spliced list. */
  lemma {:induction false} DissolvesToSplice(ds: seq<Node>, items: seq<Normal>)
    requires |ds| == |items|
    requires forall i :: 0 <= i < |ds| ==> Lift(ds[i]) == Items(items[i])
    ensures ACArgs(ds) == Splice(items)
    decreases |ds|
  {
    if ds != [] {
      var k := |ds| - 1;
      DissolvesToSplice(ds[..k], items[..k]);
      assert ds == ds[..k] + [ds[k]];
      ACArgsAppend(ds[..k], [ds[k]]);
      assert [ds[k]][1..] == [];
    }
  }

  /**
    * Below an ordinary symbol the display sequence keeps one entry per
    * original child, and dissolving its AC groups gives back exactly the new
    * operational child sequence.
    */
  lemma NormDisplayFolds(t: Node)
    requires Normalizable(t) && IsFunc(t) && !IsAC(t)
    ensures var n := Norm(t).node;
      |n.display| == |t.children| && ACArgs(n.display) == n.children
  {
    var n := Norm(t).node;
    var prime := NormList(t.children);
    forall i | 0 <= i < |n.display| ensures Lift(n.display[i]) == Items(prime[i]) {
      DisplayEntry(t, i);
    }
    DissolvesToSplice(n.display, prime);
  }

  /** One display entry dissolves into what normalising its child gave. */
  lemma DisplayEntry(t: Node, i: nat)
    requires Normalizable(t) && IsFunc(t) && !IsAC(t) && i < |t.children|
    ensures Lift(Norm(t).node.display[i]) == Items(NormList(t.children)[i])
  {
    var c := t.children[i];
    assert Normalizable(c);
    var d := Norm(t).node.display[i];
    assert NormList(t.children)[i] == Norm(c);
    if IsAC(c) {
      NormFreeOfAC(c);
      var l := Norm(c).list;
      assert d == Apply(F, l);
      forall k | 0 <= k < |l| ensures !IsAC(l[k]) {
        assert l[k] in l;
      }
      ACArgsOfFlat(l);
    } else {
      assert d == Norm(c).node;
      assert [d][1..] == [];
    }
  }

  // ---------------------------------------------------------------------
  // Associativity and commutativity
  // ---------------------------------------------------------------------

  /** An AC application is normalised through its flattened arguments alone. */
  lemma NormThroughACArgs(s: Node, t: Node)
    requires IsAC(s) && IsAC(t) && ACArgs(s.children) == ACArgs(t.children)
    ensures Normalizable(s) <==> Normalizable(t)
    ensures Normalizable(s) ==> Norm(s) == Norm(t)
  {
  }

  /** f(f(a, b), c), f(a, f(b, c)) and f(a, b, c) have the same normal form. */
  lemma NormAssociative(a: Node, b: Node, c: Node)
    requires Normalizable(Apply(F, [a, b, c]))
    ensures Normalizable(Apply(F, [Apply(F, [a, b]), c]))
    ensures Normalizable(Apply(F, [a, Apply(F, [b, c])]))
    ensures Norm(Apply(F, [Apply(F, [a, b]), c])) == Norm(Apply(F, [a, b, c]))
    ensures Norm(Apply(F, [a, Apply(F, [b, c])])) == Norm(Apply(F, [a, b, c]))
  {
    ACArgsAssociative(a, b, c);
    NormThroughACArgs(Apply(F, [Apply(F, [a, b]), c]), Apply(F, [a, b, c]));
    NormThroughACArgs(Apply(F, [a, Apply(F, [b, c])]), Apply(F, [a, b, c]));
  }

  /** Sub-lists of flat, normalisable argument lists are flat and normalisable. */
  predicate FlatNormalizable(xs: seq<Node>) {
    (forall i :: 0 <= i < |xs| ==> !IsAC(xs[i])) && AllNormalizable(xs)
  }

  lemma FlatNormalizableParts(xs: seq<Node>, ys: seq<Node>)
    ensures FlatNormalizable(xs + ys) <==> FlatNormalizable(xs) && FlatNormalizable(ys)
  {
    if FlatNormalizable(xs) && FlatNormalizable(ys) {
      forall i | 0 <= i < |xs + ys| ensures !IsAC((xs + ys)[i]) && Normalizable((xs + ys)[i]) {
        if i >= |xs| {
          assert (xs + ys)[i] == ys[i - |xs|];
        }
      }
    }
    if FlatNormalizable(xs + ys) {
      forall i | 0 <= i < |ys| ensures !IsAC(ys[i]) && Normalizable(ys[i]) {
        assert (xs + ys)[i + |xs|] == ys[i];
      }
      forall i | 0 <= i < |xs| ensures !IsAC(xs[i]) && Normalizable(xs[i]) {
        assert (xs + ys)[i] == xs[i];
      }
    }
  }

  lemma NormArgsAppend(xs: seq<Node>, ys: seq<Node>)
    requires FlatNormalizable(xs) && FlatNormalizable(ys)
    ensures FlatNormalizable(xs + ys) && NormArgs(xs + ys) == NormArgs(xs) + NormArgs(ys)
  {
    FlatNormalizableParts(xs, ys);
  }

  /** Removing the same element from two permutations of each other leaves permutations. */
  lemma RemoveMatching(xs: seq<Node>, ys: seq<Node>, j: nat)
    requires xs != [] && j < |ys| && ys[j] == xs[0] && multiset(xs) == multiset(ys)
    ensures multiset(xs[1..]) == multiset(ys[..j] + ys[j + 1..])
  {
    assert ys == ys[..j] + [ys[j]] + ys[j + 1..];
    assert xs == [xs[0]] + xs[1..];
    assert multiset(ys) == multiset(ys[..j]) + multiset{ys[j]} + multiset(ys[j + 1..]);
    assert multiset(xs) == multiset{xs[0]} + multiset(xs[1..]);
    assert multiset(ys[..j] + ys[j + 1..]) == multiset(ys[..j]) + multiset(ys[j + 1..]);
    assert multiset(xs[1..]) == multiset(xs) - multiset{xs[0]};
    assert multiset(ys[..j] + ys[j + 1..]) == multiset(ys) - multiset{ys[j]};
  }

  /** Normalising argument lists that agree up to order gives normal forms that agree up to order. */
  lemma {:induction false} NormArgsPermutation(xs: seq<Node>, ys: seq<Node>)
    requires FlatNormalizable(xs) && FlatNormalizable(ys)
    requires multiset(xs) == multiset(ys)
    ensures multiset(NormArgs(xs)) == multiset(NormArgs(ys))
    decreases |xs|
  {
    if xs != [] {
      var x := xs[0];
      assert x in multiset(ys);
      var j :| 0 <= j < |ys| && ys[j] == x;
      var left, right := ys[..j], ys[j + 1..];
      assert ys == left + ([x] + right);
      assert xs == [x] + xs[1..];
      FlatNormalizableParts([x], xs[1..]);
      FlatNormalizableParts(left, [x] + right);
      FlatNormalizableParts([x], right);
      RemoveMatching(xs, ys, j);
      NormArgsAppend(left, right);
      NormArgsPermutation(xs[1..], left + right);
      NormArgsAppend([x], xs[1..]);
      NormArgsAppend([x], right);
      NormArgsAppend(left, [x] + right);
    }
  }

  /**
    * Two AC applications whose flattened arguments agree up to order have
    * normal forms holding the same arguments, though possibly in another order.
    */
  lemma NormPermutedArguments(s: Node, t: Node)
    requires IsAC(s) && IsAC(t) && Normalizable(s) && Normalizable(t)
    requires multiset(ACArgs(s.children)) == multiset(ACArgs(t.children))
    ensures multiset(Norm(s).list) == multiset(Norm(t).list)
  {
    assert FlatNormalizable(ACArgs(s.children)) && FlatNormalizable(ACArgs(t.children));
    NormArgsPermutation(ACArgs(s.children), ACArgs(t.children));
  }

  /** A leaf is normalisable and normalises to itself. */
  lemma NormLeaf(t: Node)
    requires !IsFunc(t)
    ensures Normalizable(t) && Norm(t) == Tree(t)
  {
  }

  /** A flat list of leaves is normalised to itself. */
  lemma NormArgsLeaves(ts: seq<Node>)
    requires forall i :: 0 <= i < |ts| ==> !IsFunc(ts[i])
    ensures FlatNormalizable(ts) && NormArgs(ts) == ts
  {
    forall i | 0 <= i < |ts| ensures Normalizable(ts[i]) && Norm(ts[i]) == Tree(ts[i]) {
      NormLeaf(ts[i]);
    }
  }

  /** The order of the arguments can survive normalisation: f(x, a) and f(a, x) stay apart. */
  lemma NormKeepsSomeOrders()
    ensures var a := Leaf(Symbol("a", 1));
      && Normalizable(Apply(F, [Leaf(X), a])) && Normalizable(Apply(F, [a, Leaf(X)]))
      && Norm(Apply(F, [Leaf(X), a])) == Args([Leaf(X), a])
      && Norm(Apply(F, [a, Leaf(X)])) == Args([a, Leaf(X)])
  {
    var a := Leaf(Symbol("a", 1));
    ACArgsOfFlat([Leaf(X), a]);
    ACArgsOfFlat([a, Leaf(X)]);
    NormArgsLeaves([Leaf(X), a]);
    NormArgsLeaves([a, Leaf(X)]);
    CanonicalTwoLeaves();
  }

  // ---------------------------------------------------------------------
  // Trees that are already normal
  // ---------------------------------------------------------------------

  /** A freshly built tree without AC applications: every display sequence is the child sequence. */
  predicate Plain(t: Node) {
    && !IsAC(t) && t.display == t.children
    && forall i :: 0 <= i < |t.children| ==> Plain(t.children[i])
  }

  /** Normalisation leaves a plain tree as it is. */
  lemma {:induction false} NormPlain(t: Node)
    requires Plain(t)
    ensures Normalizable(t) && Norm(t) == Tree(t)
    decreases Size(t)
  {
    SizeListElements(t.children);
    forall i | 0 <= i < |t.children| ensures Normalizable(t.children[i]) && Norm(t.children[i]) == Tree(t.children[i]) {
      NormPlain(t.children[i]);
    }
    if IsFunc(t) {
      var prime := NormList(t.children);
      SpliceTrees(prime, t.children);
      var n := Norm(t).node;
      assert n.children == Splice(prime) == t.children;
      assert n.display == t.display;
      assert n == t;
    } else {
      assert t.children == [] && t.display == [];
    }
  }

  /** Normalising the arguments of an AC application over plain, flat arguments changes none of them. */
  lemma NormArgsPlain(ts: seq<Node>)
    requires forall i :: 0 <= i < |ts| ==> Plain(ts[i])
    ensures FlatNormalizable(ts) && ACArgs(ts) == ts && NormArgs(ts) == ts
  {
    forall i | 0 <= i < |ts| ensures Normalizable(ts[i]) && Norm(ts[i]) == Tree(ts[i]) {
      NormPlain(ts[i]);
    }
    ACArgsOfFlat(ts);
  }

  /** An AC application over plain arguments normalises to the canonical order of those arguments. */
  lemma NormOverPlain(ts: seq<Node>)
    requires ts != [] && PairwiseCompatible(ts)
    requires forall i :: 0 <= i < |ts| ==> Plain(ts[i])
    ensures Normalizable(Apply(F, ts)) && Norm(Apply(F, ts)) == Args(Canonical(ts))
  {
    NormArgsPlain(ts);
  }

  /**
    * Normalisation is not idempotent: with b > a > c > h, f(b, h(c, c, c), h(a, a, a))
    * normalises to the arguments h(c, c, c), b, h(a, a, a), and normalising
    * f applied to those gives h(c, c, c), h(a, a, a), b.
    */
  lemma NormNotIdempotent(b: Node, hc: Node, ha: Node)
    requires Example(b, hc, ha)
    ensures Normalizable(Apply(F, [b, hc, ha]))
    ensures Norm(Apply(F, [b, hc, ha])) == Args([hc, b, ha])
    ensures Normalizable(Apply(F, Norm(Apply(F, [b, hc, ha])).list))
    ensures Norm(Apply(F, Norm(Apply(F, [b, hc, ha])).list)) == Args([hc, ha, b])
  {
    ExamplePlain(b, hc, ha);
    CanonicalNotIdempotent(b, hc, ha);
    NotIdempotentSteps(b, hc, ha);
  }

  lemma NotIdempotentSteps(b: Node, hc: Node, ha: Node)
    requires Plain(b) && Plain(hc) && Plain(ha)
    requires PairwiseCompatible([b, hc, ha]) && PairwiseCompatible([hc, b, ha])
    requires Canonical([b, hc, ha]) == [hc, b, ha]
    requires Canonical([hc, b, ha]) == [hc, ha, b]
    ensures Normalizable(Apply(F, [b, hc, ha]))
    ensures Norm(Apply(F, [b, hc, ha])) == Args([hc, b, ha])
    ensures Normalizable(Apply(F, [hc, b, ha]))
    ensures Norm(Apply(F, [hc, b, ha])) == Args([hc, ha, b])
  {
    PlainThree(b, hc, ha);
    PlainThree(hc, b, ha);
    NormOverPlain([b, hc, ha]);
    NormOverPlain([hc, b, ha]);
  }

  lemma PlainThree(p: Node, q: Node, r: Node)
    requires Plain(p) && Plain(q) && Plain(r)
    ensures forall i :: 0 <= i < |[p, q, r]| ==> Plain([p, q, r][i])
  {
  }

  lemma ExamplePlain(b: Node, hc: Node, ha: Node)
    requires Example(b, hc, ha)
    ensures Plain(b) && Plain(hc) && Plain(ha)
  {
  }

  /** f(g(x), g(f(a, b))) over the ordering g > a > b. */
  predicate SplicedExample(t: Node, gx: Node, gf: Node) {
    && gx == Apply(Symbol("g", 3), [Leaf(X)])
    && gf == Apply(Symbol("g", 3), [Apply(F, [Leaf(Symbol("a", 2)), Leaf(Symbol("b", 1))])])
    && t == Apply(F, [gx, gf])
  }

  /**
    * Outside the modelled domain: normalising g(f(a, b)) splices two
    * arguments into g, so the two normalised g nodes have one and two
    * children and the comparisons may not pair their children up.
    */
  lemma {:induction false} NormExcludesSplicedArity(t: Node, gx: Node, gf: Node)
    requires SplicedExample(t, gx, gf)
    ensures !Normalizable(t)
  {
    ACArgsOfFlat([gx, gf]);
    if AllNormalizable([gx, gf]) {
      assert Normalizable(gx) && Normalizable(gf);
      NormOneChild(gx);
      NormTwoChildren(gf);
      var n := NormArgs([gx, gf]);
      assert n[0] == Norm(gx).node && n[1] == Norm(gf).node;
      assert !Compatible(n[0], n[1]);
    }
  }

  /** g(x) normalises to itself: one child. */
  lemma {:induction false} NormOneChild(gx: Node)
    requires gx == Apply(Symbol("g", 3), [Leaf(X)]) && Normalizable(gx)
    ensures Norm(gx).Tree? && Norm(gx).node.sym.name == "g" && |Norm(gx).node.children| == 1
  {
    SpliceSingle(Norm(gx.children[0]));
  }

  /** g(f(a, b)) normalises to a g node with the two spliced arguments. */
  lemma {:induction false} NormTwoChildren(gf: Node)
    requires gf == Apply(Symbol("g", 3), [Apply(F, [Leaf(Symbol("a", 2)), Leaf(Symbol("b", 1))])])
    requires Normalizable(gf)
    ensures Norm(gf).Tree? && Norm(gf).node.sym.name == "g" && |Norm(gf).node.children| == 2
  {
    var fab := gf.children[0];
    assert Normalizable(fab);
    NormPairArgs(fab);
    SpliceSingle(Norm(fab));
  }

  /** f(a, b) normalises to an argument list of two trees. */
  lemma {:induction false} NormPairArgs(fab: Node)
    requires fab == Apply(F, [Leaf(Symbol("a", 2)), Leaf(Symbol("b", 1))])
    requires Normalizable(fab)
    ensures Norm(fab).Args? && |Norm(fab).list| == 2
  {
    ACArgsOfFlat(fab.children);
    var r := Norm(fab);
    assert |multiset(r.list)| == |multiset(NormArgs(fab.children))|;
  }
}
