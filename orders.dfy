/**
  * The two comparisons on term trees: the precedence-only partial order and
  * its Knuth-Bendix-style extension. Both answer -1, 0 or 1.
  */
module Orders {
  import opened Terms

  /** Child sequences of two nodes whose heads agree. */
  predicate Aligned(xs: seq<Node>, ys: seq<Node>) {
    |xs| == |ys| && forall i :: 0 <= i < |xs| ==> Compatible(xs[i], ys[i])
  }

  // ---------------------------------------------------------------------
  // Precedence order
  // ---------------------------------------------------------------------

  /**
    * Precedence comparison. Only ordinary symbols (positive weight) are
    * compared; a variable or the AC symbol at either head makes the pair
    * incomparable (0). Equal heads are decided by the first child pair that
    * holds a variable (incomparable) or differs.
    */
  function CompTerm(a: Node, b: Node): (r: int)
    requires Compatible(a, b)
    ensures -1 <= r <= 1
    ensures NodeEq(a, b) ==> r == 0
    ensures a.sym.weight <= 0 || b.sym.weight <= 0 ==> r == 0
    ensures 0 < a.sym.weight < b.sym.weight ==> r == -1
    ensures 0 < b.sym.weight < a.sym.weight ==> r == 1
    decreases a
  {
    if NodeEq(a, b) then 0
    else if a.sym.weight > 0 && b.sym.weight > 0 then
      if a.sym.weight > b.sym.weight then 1
      else if a.sym.weight < b.sym.weight then -1
      else
        assert exists i :: 0 <= i < |a.children| && !NodeEq(a.children[i], b.children[i]);
        TermChildren(a.children, b.children)
    else 0
  }

  /**
    * The child loop of the precedence comparison. The precondition that some
    * pair differs is what keeps the loop from running off its end.
    */
  function TermChildren(xs: seq<Node>, ys: seq<Node>): (r: int)
    requires Aligned(xs, ys)
    requires exists i :: 0 <= i < |xs| && !NodeEq(xs[i], ys[i])
    ensures -1 <= r <= 1
    decreases xs
  {
    if IsVar(xs[0]) || IsVar(ys[0]) then 0
    else if !NodeEq(xs[0], ys[0]) then CompTerm(xs[0], ys[0])
    else
      assert exists i :: 0 <= i < |xs[1..]| && !NodeEq(xs[1..][i], ys[1..][i]) by {
        var i :| 0 <= i < |xs| && !NodeEq(xs[i], ys[i]);
        assert i != 0;
        assert xs[1..][i - 1] == xs[i] && ys[1..][i - 1] == ys[i];
      }
      TermChildren(xs[1..], ys[1..])
  }

  /** The first i child pairs are equal and hold no variable at their heads. */
  predicate EqualPrefix(xs: seq<Node>, ys: seq<Node>, i: nat)
    requires Aligned(xs, ys) && i <= |xs|
  {
    forall j :: 0 <= j < i ==> NodeEq(xs[j], ys[j]) && !IsVar(xs[j]) && !IsVar(ys[j])
  }

  /**
    * The precedence child loop stops at the first pair that has a variable
    * at either head (incomparable, 0) or differs (that pair decides).
    */
  lemma {:induction false} TermChildrenDecides(xs: seq<Node>, ys: seq<Node>)
    requires Aligned(xs, ys)
    requires exists i :: 0 <= i < |xs| && !NodeEq(xs[i], ys[i])
    ensures exists i :: 0 <= i < |xs| && EqualPrefix(xs, ys, i) &&
              (if IsVar(xs[i]) || IsVar(ys[i]) then TermChildren(xs, ys) == 0
               else !NodeEq(xs[i], ys[i]) && TermChildren(xs, ys) == CompTerm(xs[i], ys[i]))
    decreases xs
  {
    if IsVar(xs[0]) || IsVar(ys[0]) || !NodeEq(xs[0], ys[0]) {
      assert EqualPrefix(xs, ys, 0);
    } else {
      var k :| 0 <= k < |xs| && !NodeEq(xs[k], ys[k]);
      assert k != 0;
      assert xs[1..][k - 1] == xs[k] && ys[1..][k - 1] == ys[k];
      TermChildrenDecides(xs[1..], ys[1..]);
      var i :| 0 <= i < |xs| - 1 && EqualPrefix(xs[1..], ys[1..], i) &&
        (if IsVar(xs[1..][i]) || IsVar(ys[1..][i]) then TermChildren(xs[1..], ys[1..]) == 0
         else !NodeEq(xs[1..][i], ys[1..][i]) && TermChildren(xs[1..], ys[1..]) == CompTerm(xs[1..][i], ys[1..][i]));
      assert xs[1..][i] == xs[i + 1] && ys[1..][i] == ys[i + 1];
      assert EqualPrefix(xs, ys, i + 1) by {
        forall j | 0 <= j < i + 1 ensures NodeEq(xs[j], ys[j]) && !IsVar(xs[j]) && !IsVar(ys[j]) {
          if j > 0 {
            assert xs[1..][j - 1] == xs[j] && ys[1..][j - 1] == ys[j];
          }
        }
      }
    }
  }

  /** The precedence comparison is antisymmetric. */
  lemma {:induction false} CompTermAntisymmetric(a: Node, b: Node)
    requires Compatible(a, b)
    ensures Compatible(b, a) && CompTerm(b, a) == -CompTerm(a, b)
    decreases a
  {
    NodeEqSymmetric(a, b);
    if !NodeEq(a, b) && a.sym.weight > 0 && b.sym.weight > 0 && a.sym.weight == b.sym.weight {
      assert exists i :: 0 <= i < |a.children| && !NodeEq(a.children[i], b.children[i]);
      assert Aligned(b.children, a.children) by {
        forall i | 0 <= i < |b.children| ensures Compatible(b.children[i], a.children[i]) {
          CompatibleSymmetric(a.children[i], b.children[i]);
        }
      }
      TermChildrenAntisymmetric(a.children, b.children);
    }
  }

  lemma {:induction false} TermChildrenAntisymmetric(xs: seq<Node>, ys: seq<Node>)
    requires Aligned(xs, ys) && Aligned(ys, xs)
    requires exists i :: 0 <= i < |xs| && !NodeEq(xs[i], ys[i])
    ensures exists i :: 0 <= i < |ys| && !NodeEq(ys[i], xs[i])
    ensures TermChildren(ys, xs) == -TermChildren(xs, ys)
    decreases xs
  {
    var k :| 0 <= k < |xs| && !NodeEq(xs[k], ys[k]);
    NodeEqSymmetric(xs[k], ys[k]);
    NodeEqSymmetric(xs[0], ys[0]);
    if IsVar(xs[0]) || IsVar(ys[0]) {
    } else if !NodeEq(xs[0], ys[0]) {
      CompTermAntisymmetric(xs[0], ys[0]);
    } else {
      assert k != 0;
      assert xs[1..][k - 1] == xs[k] && ys[1..][k - 1] == ys[k];
      TermChildrenAntisymmetric(xs[1..], ys[1..]);
    }
  }

  // ---------------------------------------------------------------------
  // Knuth-Bendix-style extension
  // ---------------------------------------------------------------------

  /**
    * The extended comparison. It answers 1 only when the first term has at
    * least as many variable occurrences and a larger weight sum, or an equal
    * weight sum and a tie-break in its favour; every other unequal pair
    * answers -1.
    */
  function CompExtended(a: Node, b: Node): (r: int)
    requires Compatible(a, b)
    ensures r == -1 || r == 0 || r == 1
    ensures r == 0 <==> NodeEq(a, b)
    decreases a
  {
    if NodeEq(a, b) then 0
    else if Vars(a) >= Vars(b) && Weight(a) > Weight(b) then 1
    else if Vars(a) >= Vars(b) && Weight(a) == Weight(b) then
      if IsVar(b) && IsFunc(a) then 1
      else if IsFunc(a) && IsFunc(b) && a.sym.weight > b.sym.weight then 1
      else if IsFunc(a) && IsFunc(b) && SameSymbol(a.sym, b.sym) then ExtChildren(a.children, b.children)
      else -1
    else -1
  }

  /** The child loop of the extended comparison: the first differing pair decides. */
  function ExtChildren(xs: seq<Node>, ys: seq<Node>): (r: int)
    requires Aligned(xs, ys)
    ensures r == -1 || r == 1
    decreases xs
  {
    if xs == [] then -1
    else if !NodeEq(xs[0], ys[0]) then CompExtended(xs[0], ys[0])
    else ExtChildren(xs[1..], ys[1..])
  }

  /** The first i child pairs are equal. */
  predicate SamePrefix(xs: seq<Node>, ys: seq<Node>, i: nat)
    requires Aligned(xs, ys) && i <= |xs|
  {
    forall j :: 0 <= j < i ==> NodeEq(xs[j], ys[j])
  }

  /**
    * The extended child loop is decided by the first unequal pair; when every
    * pair is equal it falls through to -1.
    */
  lemma {:induction false} ExtChildrenDecides(xs: seq<Node>, ys: seq<Node>)
    requires Aligned(xs, ys)
    ensures SamePrefix(xs, ys, |xs|) ==> ExtChildren(xs, ys) == -1
    ensures !SamePrefix(xs, ys, |xs|) ==>
      exists i :: 0 <= i < |xs| && SamePrefix(xs, ys, i) && !NodeEq(xs[i], ys[i])
        && ExtChildren(xs, ys) == CompExtended(xs[i], ys[i])
    decreases xs
  {
    if xs == [] {
    } else if !NodeEq(xs[0], ys[0]) {
      assert SamePrefix(xs, ys, 0);
    } else {
      var xt, yt := xs[1..], ys[1..];
      ExtChildrenDecides(xt, yt);
      assert forall j :: 0 <= j < |xt| ==> xt[j] == xs[j + 1] && yt[j] == ys[j + 1];
      if SamePrefix(xt, yt, |xt|) {
        assert SamePrefix(xs, ys, |xs|) by {
          forall j | 0 <= j < |xs| ensures NodeEq(xs[j], ys[j]) {
            if j > 0 {
              assert NodeEq(xt[j - 1], yt[j - 1]);
            }
          }
        }
      } else {
        assert !SamePrefix(xs, ys, |xs|) by {
          var j :| 0 <= j < |xt| && !NodeEq(xt[j], yt[j]);
          assert !NodeEq(xs[j + 1], ys[j + 1]);
        }
        var i :| 0 <= i < |xt| && SamePrefix(xt, yt, i) && !NodeEq(xt[i], yt[i])
          && ExtChildren(xt, yt) == CompExtended(xt[i], yt[i]);
        assert SamePrefix(xs, ys, i + 1) by {
          forall j | 0 <= j < i + 1 ensures NodeEq(xs[j], ys[j]) {
            if j > 0 {
              assert NodeEq(xt[j - 1], yt[j - 1]);
            }
          }
        }
        assert !NodeEq(xs[i + 1], ys[i + 1]);
      }
    }
  }

  /**
    * The extended comparison is asymmetric on terms whose variable nodes are
    * leaves: when it puts a above b it puts b below a.
    */
  lemma {:induction false} CompExtendedAsymmetric(a: Node, b: Node)
    requires Compatible(a, b) && VarsAreLeaves(a) && VarsAreLeaves(b)
    requires CompExtended(a, b) == 1
    ensures Compatible(b, a) && CompExtended(b, a) == -1
    decreases a
  {
    NodeEqSymmetric(a, b);
    if Vars(a) >= Vars(b) && Weight(a) == Weight(b) && !(IsVar(b) && IsFunc(a))
       && !(IsFunc(a) && IsFunc(b) && a.sym.weight > b.sym.weight)
       && Vars(b) >= Vars(a)
    {
      assert IsFunc(a) && IsFunc(b) && SameSymbol(a.sym, b.sym);
      assert Aligned(b.children, a.children) by {
        forall i | 0 <= i < |b.children| ensures Compatible(b.children[i], a.children[i]) {
          CompatibleSymmetric(a.children[i], b.children[i]);
        }
      }
      ExtChildrenAsymmetric(a.children, b.children);
    }
  }

  lemma {:induction false} ExtChildrenAsymmetric(xs: seq<Node>, ys: seq<Node>)
    requires Aligned(xs, ys) && Aligned(ys, xs)
    requires forall i :: 0 <= i < |xs| ==> VarsAreLeaves(xs[i]) && VarsAreLeaves(ys[i])
    requires ExtChildren(xs, ys) == 1
    ensures ExtChildren(ys, xs) == -1
    decreases xs
  {
    NodeEqSymmetric(xs[0], ys[0]);
    if !NodeEq(xs[0], ys[0]) {
      CompExtendedAsymmetric(xs[0], ys[0]);
    } else {
      ExtChildrenAsymmetric(xs[1..], ys[1..]);
    }
  }

  /**
    * The extended comparison is not total, even with the single variable:
    * a ground term that outweighs x and x itself each compare below the other.
    */
  lemma CompExtendedNotTotal()
    ensures var a := Apply(Symbol("g", 3), [Leaf(Symbol("a", 1))]);
            var b := Leaf(X);
            && Compatible(a, b) && VarsAreLeaves(a) && VarsAreLeaves(b)
            && !NodeEq(a, b)
            && CompExtended(a, b) == -1 && CompExtended(b, a) == -1
  {
    var a := Apply(Symbol("g", 3), [Leaf(Symbol("a", 1))]);
    var b := Leaf(X);
    assert Vars(a) == 0 && Weight(a) == 8;
    assert Vars(b) == 1 && Weight(b) == 1;
  }
}
