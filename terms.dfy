/**
  * Symbols and term trees, the data model of the AC normaliser.
  *
  * A symbol carries a name and a weight. The weight classifies it: a negative
  * weight marks the variable `x`, weight 0 marks the AC symbol `f`, and a
  * positive weight is the precedence of an ordinary symbol. A node has an
  * operational child sequence and a separate display sequence that is only
  * used for printing.
  */
module Terms {

  datatype Symbol = Symbol(name: string, weight: int)

  /** The two reserved symbols that every symbol table starts with. */
  const F: Symbol := Symbol("f", 0)
  const X: Symbol := Symbol("x", -1)

  /** Symbol equality looks at the name only. */
  predicate SameSymbol(s: Symbol, t: Symbol) {
    s.name == t.name
  }

  datatype Node = Node(sym: Symbol, children: seq<Node>, display: seq<Node>)

  /** A node built without children; its display sequence is its (empty) child sequence. */
  function Leaf(s: Symbol): Node {
    Node(s, [], [])
  }

  /** A node whose display sequence is its child sequence, as every freshly built node is. */
  function Apply(s: Symbol, children: seq<Node>): Node {
    Node(s, children, children)
  }

  predicate IsVar(t: Node) {
    t.sym.weight < 0
  }

  predicate IsFunc(t: Node) {
    |t.children| > 0
  }

  predicate IsAC(t: Node) {
    IsFunc(t) && t.sym.weight == 0
  }

  /** Number of nodes of a tree (children only; the display sequence is not counted). */
  function Size(t: Node): nat {
    1 + SizeList(t.children)
  }

  function SizeList(ts: seq<Node>): nat {
    if ts == [] then 0 else Size(ts[0]) + SizeList(ts[1..])
  }

  lemma {:induction false} SizeListAppend(xs: seq<Node>, ys: seq<Node>)
    ensures SizeList(xs + ys) == SizeList(xs) + SizeList(ys)
  {
    if xs == [] {
      assert xs + ys == ys;
    } else {
      assert (xs + ys)[1..] == xs[1..] + ys;
      SizeListAppend(xs[1..], ys);
    }
  }

  lemma {:induction false} SizeListElement(ts: seq<Node>, i: nat)
    requires i < |ts|
    ensures Size(ts[i]) <= SizeList(ts)
  {
    if i > 0 {
      SizeListElement(ts[1..], i - 1);
    }
  }

  /** Every element of a list is no larger than the list. */
  lemma SizeListElements(ts: seq<Node>)
    ensures forall i :: 0 <= i < |ts| ==> Size(ts[i]) <= SizeList(ts)
  {
    forall i | 0 <= i < |ts| {
      SizeListElement(ts, i);
    }
  }

  // ---------------------------------------------------------------------
  // Size metrics used by the extended ordering
  // ---------------------------------------------------------------------

  /** Number of variable nodes in the tree. */
  function Vars(t: Node): nat {
    (if IsVar(t) then 1 else 0) + VarsList(t.children)
  }

  function VarsList(ts: seq<Node>): nat {
    if ts == [] then 0 else VarsList(ts[..|ts| - 1]) + Vars(ts[|ts| - 1])
  }

  /** Sum of weight + 2 over every node of the tree. */
  function Weight(t: Node): int {
    t.sym.weight + 2 + WeightList(t.children)
  }

  function WeightList(ts: seq<Node>): int {
    if ts == [] then 0 else WeightList(ts[..|ts| - 1]) + Weight(ts[|ts| - 1])
  }

  /** Every symbol in the tree has weight at least -1, as in every symbol table. */
  predicate WeightsAtLeastMinusOne(t: Node) {
    t.sym.weight >= -1 && forall i :: 0 <= i < |t.children| ==> WeightsAtLeastMinusOne(t.children[i])
  }

  /** A lone variable leaf counts as one variable and weighs 1. */
  lemma VarLeafMetrics()
    ensures Vars(Leaf(X)) == 1 && Weight(Leaf(X)) == 1
  {
  }

  /** Every node contributes at least 1 to the weight sum, so the sum bounds the size. */
  lemma {:induction false} WeightBoundsSize(t: Node)
    requires WeightsAtLeastMinusOne(t)
    ensures Weight(t) >= Size(t)
    ensures Vars(t) <= Size(t)
  {
    WeightListBoundsSize(t.children);
  }

  lemma {:induction false} WeightListBoundsSize(ts: seq<Node>)
    requires forall i :: 0 <= i < |ts| ==> WeightsAtLeastMinusOne(ts[i])
    ensures WeightList(ts) >= SizeList(ts)
    ensures VarsList(ts) <= SizeList(ts)
  {
    if ts != [] {
      var init, last := ts[..|ts| - 1], ts[|ts| - 1];
      assert ts == init + [last];
      WeightListBoundsSize(init);
      WeightBoundsSize(last);
      SizeListAppend(init, [last]);
      assert SizeList([last]) == Size(last) by {
        assert [last][1..] == [];
      }
    }
  }

  /** count_vars: a loop over the children with an accumulator. */
  method CountVars(t: Node) returns (count: nat)
    ensures count == Vars(t)
  {
    count := 0;
    if t.sym.weight < 0 {
      count := count + 1;
    }
    var i := 0;
    while i < |t.children|
      invariant 0 <= i <= |t.children|
      invariant count == (if IsVar(t) then 1 else 0) + VarsList(t.children[..i])
    {
      var c := CountVars(t.children[i]);
      assert t.children[..i + 1][..i] == t.children[..i];
      count := count + c;
      i := i + 1;
    }
    assert t.children[..i] == t.children;
  }

  /** count_weight: a loop over the children with an accumulator. */
  method CountWeight(t: Node) returns (w: int)
    ensures w == Weight(t)
  {
    w := t.sym.weight + 2;
    var i := 0;
    while i < |t.children|
      invariant 0 <= i <= |t.children|
      invariant w == t.sym.weight + 2 + WeightList(t.children[..i])
    {
      var c := CountWeight(t.children[i]);
      assert t.children[..i + 1][..i] == t.children[..i];
      w := w + c;
      i := i + 1;
    }
    assert t.children[..i] == t.children;
  }

  // ---------------------------------------------------------------------
  // Structural equality
  // ---------------------------------------------------------------------

  /**
    * The comparisons index the second node's children with the first node's
    * indices, so they are only defined when nodes whose heads agree have
    * equally many children. Heads agree on their name exactly when they agree
    * on their weight, as in every symbol table.
    */
  predicate Compatible(a: Node, b: Node) {
    && (SameSymbol(a.sym, b.sym) <==> a.sym.weight == b.sym.weight)
    && (SameSymbol(a.sym, b.sym) ==>
          && |a.children| == |b.children|
          && forall i :: 0 <= i < |a.children| ==> Compatible(a.children[i], b.children[i]))
  }

  /** Any two members of the list may be compared. */
  predicate PairwiseCompatible(ts: seq<Node>) {
    forall a, b {:trigger Compatible(a, b)} :: a in ts && b in ts ==> Compatible(a, b)
  }

  lemma {:induction false} CompatibleReflexive(a: Node)
    ensures Compatible(a, a)
  {
    forall i | 0 <= i < |a.children| {
      CompatibleReflexive(a.children[i]);
    }
  }

  lemma {:induction false} CompatibleSymmetric(a: Node, b: Node)
    requires Compatible(a, b)
    ensures Compatible(b, a)
  {
    if SameSymbol(a.sym, b.sym) {
      forall i | 0 <= i < |b.children| {
        CompatibleSymmetric(a.children[i], b.children[i]);
      }
    }
  }

  /** Node equality: same symbol name and pairwise equal children; the display sequence is ignored. */
  predicate NodeEq(a: Node, b: Node)
    requires Compatible(a, b)
  {
    SameSymbol(a.sym, b.sym) &&
    forall i :: 0 <= i < |a.children| ==> NodeEq(a.children[i], b.children[i])
  }

  /** The tree of names alone: what node equality looks at. */
  datatype Shape = Shape(name: string, kids: seq<Shape>)

  function Erase(t: Node): Shape {
    Shape(t.sym.name, seq(|t.children|, i requires 0 <= i < |t.children| => Erase(t.children[i])))
  }

  /** Node equality is equality of the name trees: it ignores weights and display sequences. */
  lemma {:induction false} NodeEqIsErasedEquality(a: Node, b: Node)
    requires Compatible(a, b)
    ensures NodeEq(a, b) <==> Erase(a) == Erase(b)
  {
    if SameSymbol(a.sym, b.sym) {
      forall i | 0 <= i < |a.children| {
        NodeEqIsErasedEquality(a.children[i], b.children[i]);
      }
      if NodeEq(a, b) {
        var ka := Erase(a).kids;
        var kb := Erase(b).kids;
        forall i | 0 <= i < |ka| ensures ka[i] == kb[i] {
          assert ka[i] == Erase(a.children[i]);
          assert kb[i] == Erase(b.children[i]);
        }
      }
      if Erase(a) == Erase(b) {
        forall i | 0 <= i < |a.children|
          ensures NodeEq(a.children[i], b.children[i])
        {
          assert Erase(a).kids[i] == Erase(a.children[i]);
        }
      }
    }
  }

  lemma {:induction false} NodeEqReflexive(a: Node)
    ensures Compatible(a, a) && NodeEq(a, a)
  {
    CompatibleReflexive(a);
    NodeEqIsErasedEquality(a, a);
  }

  lemma NodeEqSymmetric(a: Node, b: Node)
    requires Compatible(a, b)
    ensures Compatible(b, a) && (NodeEq(a, b) <==> NodeEq(b, a))
  {
    CompatibleSymmetric(a, b);
    NodeEqIsErasedEquality(a, b);
    NodeEqIsErasedEquality(b, a);
  }

  /** Variable nodes carry no children: x is meant as a leaf, though the parser accepts x(...). */
  predicate VarsAreLeaves(t: Node) {
    (IsVar(t) ==> t.children == []) &&
    forall i :: 0 <= i < |t.children| ==> VarsAreLeaves(t.children[i])
  }
}
