/**
  * Printing a normal form: `display` regroups a flat argument list under the
  * AC symbol f, and `__repr__` writes a tree as text by its display sequences.
  */
module Render {
  import opened Terms
  import opened Flattening

  // ---------------------------------------------------------------------
  // display
  // ---------------------------------------------------------------------

  /**
    * Where the slices terms[:-arity] and terms[-arity:] of Python part a list
    * of length n: arity 0 reads as -0 == 0 (everything goes to the right), and
    * an arity of at least n leaves nothing on the left.
    */
  function Cut(n: nat, arity: nat): (c: nat)
    ensures c <= n
    ensures arity == 0 || arity >= n ==> c == 0
    ensures 0 < arity < n ==> n - c == arity
  {
    if arity == 0 || arity >= n then 0 else n - arity
  }

  /** One round of the display loop keeps the flattened arguments. */
  lemma {:induction false} RegroupKeepsArgs(ts: seq<Node>, c: nat)
    requires c < |ts|
    ensures ACArgs(ts[..c] + [Apply(F, ts[c..])]) == ACArgs(ts)
  {
    var left, right := ts[..c], ts[c..];
    ACArgsAppend(left, [Apply(F, right)]);
    ACArgsOfApplication(right);
    ACArgsAppend(left, right);
    assert left + right == ts;
  }

  /**
    * How many children the root of the grouping of n terms has: each round of
    * wrapping turns `arity` entries into one, so n drops by `arity - 1` until
    * the list fits into one f-node.
    */
  function RootWidth(n: nat, arity: nat): (w: nat)
    requires arity >= 2 && n >= 2
    ensures 2 <= w <= arity && w <= n
    decreases n
  {
    if n <= arity then n else RootWidth(n - (arity - 1), arity)
  }

  /**
    * The shape `display` builds: a right-nested chain of f-nodes. With no
    * effective arity (0, or at least the number of terms) one f-node holds
    * everything. Otherwise the innermost f-node holds the last `arity` terms,
    * every enclosing one holds `arity - 1` terms followed by the node inside
    * it, and the root holds the 1 to `arity - 1` terms that are left over.
    */
  function Grouped(ts: seq<Node>, arity: nat): (r: Node)
    requires |ts| >= 1 && (arity == 1 ==> |ts| == 1)
    ensures |ts| > 1 ==> r.sym == F && IsAC(r) && 2 <= |r.children|
    ensures |ts| > 1 && arity >= 2 ==> |r.children| <= arity
    decreases |ts|
  {
    if |ts| == 1 then ts[0]
    else if arity == 0 || |ts| <= arity then Apply(F, ts)
    else
      var k := RootWidth(|ts|, arity) - 1;
      Apply(F, ts[..k] + [Grouped(ts[k..], arity)])
  }

  /** The grouping keeps the flattened arguments: dissolving every f-node gives the terms back. */
  lemma {:induction false} GroupedKeepsArgs(ts: seq<Node>, arity: nat)
    requires |ts| >= 1 && (arity == 1 ==> |ts| == 1)
    ensures ACArgs([Grouped(ts, arity)]) == ACArgs(ts)
    decreases |ts|
  {
    if |ts| == 1 {
      assert ts == [ts[0]];
    } else if arity == 0 || |ts| <= arity {
      ACArgsOfApplication(ts);
    } else {
      var k := RootWidth(|ts|, arity) - 1;
      var inner := Grouped(ts[k..], arity);
      GroupedKeepsArgs(ts[k..], arity);
      ACArgsOfApplication(ts[..k] + [inner]);
      ACArgsAppend(ts[..k], [inner]);
      ACArgsAppend(ts[..k], ts[k..]);
      assert ts[..k] + ts[k..] == ts;
    }
  }

  /** A full chain of n terms, extended by j < arity more terms, has a root of j + 1 children. */
  lemma {:induction false} RootWidthShift(n: nat, arity: nat, j: nat)
    requires arity >= 2 && n >= arity && RootWidth(n, arity) == arity
    requires 1 <= j < arity
    ensures RootWidth(n + j, arity) == j + 1
    decreases n
  {
    if n > arity {
      RootWidthShift(n - (arity - 1), arity, j);
    }
  }

  /** Five terms at arity 3: the last three share the inner node, the first two sit at the root. */
  lemma GroupedFiveByThree(ts: seq<Node>)
    requires |ts| == 5
    ensures Grouped(ts, 3) == Apply(F, [ts[0], ts[1], Apply(F, ts[2..])])
  {
    assert RootWidth(5, 3) == 3;
    assert ts[..2] + [Apply(F, ts[2..])] == [ts[0], ts[1], Apply(F, ts[2..])];
  }

  /** The first round of the display loop wraps the last `arity` terms, or all of them. */
  lemma {:induction false} GroupedFirst(terms: seq<Node>, arity: nat)
    requires |terms| >= 2 && arity != 1
    ensures var c := Cut(|terms|, arity);
      && Grouped(terms[c..], arity) == Apply(F, terms[c..])
      && (c > 0 ==> c + arity <= |terms| && RootWidth(|terms| - c, arity) == arity)
  {
  }

  /**
    * One further round of the display loop: when the last element of
    * terms[..c] + [inner] is the grouping of terms[c..], the new last element
    * is the grouping of the longer suffix terms[cut..].
    */
  lemma {:induction false} GroupedStep(terms: seq<Node>, arity: nat, c: nat)
    requires 2 <= arity && 1 <= c && c + arity <= |terms|
    requires RootWidth(|terms| - c, arity) == arity
    ensures var cut := Cut(c + 1, arity);
      && cut < c
      && Grouped(terms[cut..], arity) == Apply(F, terms[cut..c] + [Grouped(terms[c..], arity)])
      && (cut == 0 || (cut + arity <= |terms| && RootWidth(|terms| - cut, arity) == arity))
  {
    var cut := Cut(c + 1, arity);
    var k := c - cut;
    assert 1 <= k < arity && (cut > 0 ==> k == arity - 1);
    RootWidthShift(|terms| - c, arity, k);
    SuffixSlices(terms, cut, c);
    GroupedSplit(terms[cut..], arity, k);
  }

  lemma SuffixSlices(terms: seq<Node>, cut: nat, c: nat)
    requires cut <= c <= |terms|
    ensures terms[cut..][c - cut..] == terms[c..] && terms[cut..][..c - cut] == terms[cut..c]
  {
  }

  /** A grouping too long for one f-node: its leading terms, then the grouping of the rest. */
  lemma {:induction false} GroupedSplit(s: seq<Node>, arity: nat, k: nat)
    requires 2 <= arity < |s| && k + 1 == RootWidth(|s|, arity)
    ensures Grouped(s, arity) == Apply(F, s[..k] + [Grouped(s[k..], arity)])
  {
  }

  /**
    * Repeatedly replace the last `arity` terms by one f-node until one term
    * is left, and hand that root back (the source prints it). An arity of 1
    * would loop forever on two or more terms, and an empty list has no root.
    */
  method Display(terms: seq<Node>, arity: nat) returns (root: Node)
    requires |terms| >= 1 && (arity == 1 ==> |terms| == 1)
    ensures ACArgs([root]) == ACArgs(terms)
    ensures |terms| == 1 ==> root == terms[0]
    ensures |terms| > 1 ==> root.sym == F && IsAC(root) && |root.children| >= 2
    ensures |terms| > 1 && arity == 0 ==> root == Apply(F, terms)
    ensures root == Grouped(terms, arity)
  {
    var ts := terms;
    ghost var done: nat := |terms|;
    while |ts| > 1
      invariant DisplayState(terms, arity, ts, done)
      decreases |ts|
    {
      var c := Cut(|ts|, arity);
      DisplayRound(terms, arity, ts, done);
      ts := ts[..c] + [Apply(F, ts[c..])];
      done := c;
    }
    root := ts[0];
    GroupedKeepsArgs(terms, arity);
  }

  /**
    * Where the display loop stands: the list is the input, or the input
    * before position `done` followed by the grouping of the rest.
    */
  ghost predicate DisplayState(terms: seq<Node>, arity: nat, ts: seq<Node>, done: nat) {
    && |terms| >= 1 && (arity == 1 ==> |terms| == 1)
    && |ts| >= 1 && done <= |terms|
    && (done == |terms| ==> ts == terms)
    && (done < |terms| ==> |terms| - done >= 2 && ts == terms[..done] + [Grouped(terms[done..], arity)])
    && (0 < done < |terms| ==> arity >= 2 && done + arity <= |terms| && RootWidth(|terms| - done, arity) == arity)
  }

  /** One round of the display loop keeps its state description. */
  lemma {:induction false} DisplayRound(terms: seq<Node>, arity: nat, ts: seq<Node>, done: nat)
    requires DisplayState(terms, arity, ts, done) && |ts| > 1
    ensures var c := Cut(|ts|, arity);
      c < |ts| && DisplayState(terms, arity, ts[..c] + [Apply(F, ts[c..])], c)
  {
    var c := Cut(|ts|, arity);
    if done < |terms| {
      GroupedStep(terms, arity, done);
      assert ts[c..] == terms[c..done] + [Grouped(terms[done..], arity)];
      assert ts[..c] == terms[..c];
    } else {
      GroupedFirst(terms, arity);
    }
  }

  /** The root of a list without AC nodes flattens back to exactly that list. */
  lemma {:induction false} DisplayOfFlat(terms: seq<Node>, root: Node)
    requires forall i :: 0 <= i < |terms| ==> !IsAC(terms[i])
    requires ACArgs([root]) == ACArgs(terms)
    ensures ACArgs([root]) == terms
  {
    ACArgsOfFlat(terms);
  }

  // ---------------------------------------------------------------------
  // __repr__
  // ---------------------------------------------------------------------

  /** The first k display entries of t, each written out and followed by a comma. */
  function Listed(t: Node, k: nat): string
    requires k <= |t.display|
    decreases t, k
  {
    if k == 0 then [] else Listed(t, k - 1) + Rendered(t.display[k - 1]) + ","
  }

  /**
    * The text of a tree: the symbol name and, for a node with children, its
    * display entries between parentheses with commas between them. The
    * closing step cuts the last character, which is the "(" itself when the
    * display sequence is empty.
    */
  function Rendered(t: Node): (r: string)
    ensures |r| >= |t.sym.name|
    ensures r[..|t.sym.name|] == t.sym.name
    ensures IsFunc(t) ==> |r| > |t.sym.name| && r[|r| - 1] == ')'
    ensures !IsFunc(t) ==> r == t.sym.name
    decreases t, |t.display| + 1
  {
    if !IsFunc(t) then t.sym.name
    else
      var open := t.sym.name + "(" + Listed(t, |t.display|);
      open[..|open| - 1] + ")"
  }

  /** A node with display entries is written as name(e1,...,en) without a trailing comma. */
  lemma {:induction false} RenderedFunc(t: Node)
    requires IsFunc(t) && t.display != []
    ensures Rendered(t) == t.sym.name + "(" + Listed(t, |t.display| - 1) + Rendered(t.display[|t.display| - 1]) + ")"
  {
    var n := |t.display|;
    var open := t.sym.name + "(" + Listed(t, n);
    assert open == t.sym.name + "(" + Listed(t, n - 1) + Rendered(t.display[n - 1]) + ",";
    assert open[..|open| - 1] == t.sym.name + "(" + Listed(t, n - 1) + Rendered(t.display[n - 1]);
  }

  /** A node with children but an empty display sequence loses its "(" and prints name). */
  lemma {:induction false} RenderedEmptyDisplay(t: Node)
    requires IsFunc(t) && t.display == []
    ensures Rendered(t) == t.sym.name + ")"
  {
    assert (t.sym.name + "(")[..|t.sym.name|] == t.sym.name;
  }

  /** __repr__: append each display entry and a comma, then replace the last character by ")". */
  method Repr(t: Node) returns (r: string)
    ensures r == Rendered(t)
    decreases t
  {
    r := t.sym.name;
    if IsFunc(t) {
      r := r + "(";
      var k := 0;
      while k < |t.display|
        invariant 0 <= k <= |t.display|
        invariant r == t.sym.name + "(" + Listed(t, k)
      {
        var child := Repr(t.display[k]);
        r := r + child + ",";
        k := k + 1;
      }
      r := r[..|r| - 1] + ")";
    }
  }

  /**
    * The tree that printing shows: every node keeps its symbol and has its
    * display entries, read the same way, as children.
    */
  function DisplayTree(t: Node): (r: Node)
    ensures r.sym == t.sym && r.display == r.children
    ensures IsFunc(t) ==> |r.children| == |t.display|
    ensures !IsFunc(t) ==> r == Leaf(t.sym)
    decreases t
  {
    if !IsFunc(t) then Leaf(t.sym)
    else Apply(t.sym, seq(|t.display|, i requires 0 <= i < |t.display| => DisplayTree(t.display[i])))
  }

  /** A freshly built tree (display equal to children everywhere) is its own display tree. */
  predicate Built(t: Node) {
    t.display == t.children && forall i :: 0 <= i < |t.children| ==> Built(t.children[i])
  }

  lemma {:induction false} DisplayTreeOfBuilt(t: Node)
    requires Built(t)
    ensures DisplayTree(t) == t
    decreases t
  {
    forall i | 0 <= i < |t.children| {
      DisplayTreeOfBuilt(t.children[i]);
    }
    if IsFunc(t) {
      assert DisplayTree(t).children == t.children;
    }
  }
}
