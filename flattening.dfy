/**
  * Associativity: dissolving nested applications of the AC symbol into one
  * argument list, and the one-level list flattening the normaliser uses to
  * splice argument lists into their parent.
  */
module Flattening {
  import opened Terms

  /**
    * What the normaliser hands back for a node: a single tree, or (for an
    * application of the AC symbol) its sorted argument list.
    */
  datatype Normal = Tree(node: Node) | Args(list: seq<Node>)

  function Items(n: Normal): seq<Node> {
    match n
    case Tree(t) => [t]
    case Args(l) => l
  }

  /** Lists inside the list are spliced in place, trees are kept; the order is preserved. */
  function Splice(items: seq<Normal>): seq<Node> {
    if items == [] then [] else Splice(items[..|items| - 1]) + Items(items[|items| - 1])
  }

  lemma {:induction false} SpliceAppend(xs: seq<Normal>, ys: seq<Normal>)
    ensures Splice(xs + ys) == Splice(xs) + Splice(ys)
    decreases |ys|
  {
    if ys == [] {
      assert xs + ys == xs;
    } else {
      var init, last := ys[..|ys| - 1], ys[|ys| - 1];
      assert (xs + ys)[..|xs + ys| - 1] == xs + init;
      assert (xs + ys)[|xs + ys| - 1] == last;
      SpliceAppend(xs, init);
      calc {
        Splice(xs + ys);
        Splice(xs + init) + Items(last);
        Splice(xs) + Splice(init) + Items(last);
        Splice(xs) + (Splice(init) + Items(last));
      }
    }
  }

  /** A list of single trees splices back to the trees themselves. */
  lemma {:induction false} SpliceTrees(items: seq<Normal>, ts: seq<Node>)
    requires |items| == |ts| && forall i :: 0 <= i < |ts| ==> items[i] == Tree(ts[i])
    ensures Splice(items) == ts
  {
    if ts != [] {
      var k := |ts| - 1;
      SpliceTrees(items[..k], ts[..k]);
      assert ts == ts[..k] + [ts[k]];
    }
  }

  /** Every spliced tree comes from one of the items. */
  lemma {:induction false} SpliceMember(items: seq<Normal>, y: Node)
    requires y in Splice(items)
    ensures exists j :: 0 <= j < |items| && y in Items(items[j])
  {
    var init := items[..|items| - 1];
    if y in Splice(init) {
      SpliceMember(init, y);
      var j :| 0 <= j < |init| && y in Items(init[j]);
      assert items[j] == init[j];
    }
  }

  /** flatten: one pass that appends trees and extends with lists. */
  method Flatten(items: seq<Normal>) returns (result: seq<Node>)
    ensures result == Splice(items)
  {
    result := [];
    for i := 0 to |items|
      invariant result == Splice(items[..i])
    {
      match items[i] {
        case Tree(t) => result := result + [t];
        case Args(l) => result := result + l;
      }
      assert items[..i + 1][..i] == items[..i];
    }
    assert items[..|items|] == items;
  }

  // ---------------------------------------------------------------------
  // AC flattening
  // ---------------------------------------------------------------------

  /**
    * The arguments of an AC application with every nested AC application
    * replaced by its own (recursively flattened) arguments. Nothing AC-headed
    * remains, no argument is lost, and the result is no larger than the input.
    */
  function ACArgs(cs: seq<Node>): (r: seq<Node>)
    ensures forall i :: 0 <= i < |r| ==> !IsAC(r[i])
    ensures |r| >= |cs|
    ensures SizeList(r) <= SizeList(cs)
    decreases cs
  {
    if cs == [] then []
    else
      SizeListAppend(Lift(cs[0]), ACArgs(cs[1..]));
      Lift(cs[0]) + ACArgs(cs[1..])
  }

  /** One argument of an AC application, dissolved if it is itself an AC application. */
  function Lift(c: Node): (r: seq<Node>)
    ensures forall i :: 0 <= i < |r| ==> !IsAC(r[i])
    ensures |r| >= 1
    ensures SizeList(r) <= Size(c)
    decreases c
  {
    if IsAC(c) then ACArgs(c.children)
    else
      assert SizeList([c]) == Size(c) by { assert [c][1..] == []; }
      [c]
  }

  /** Every flattened argument is no larger than the arguments it came from. */
  lemma ACArgsElementSize(cs: seq<Node>, i: nat)
    requires i < |ACArgs(cs)|
    ensures Size(ACArgs(cs)[i]) <= SizeList(cs)
  {
    SizeListElement(ACArgs(cs), i);
  }

  /** Flattening distributes over concatenation, which is associativity of the AC symbol. */
  lemma {:induction false} ACArgsAppend(xs: seq<Node>, ys: seq<Node>)
    ensures ACArgs(xs + ys) == ACArgs(xs) + ACArgs(ys)
  {
    if xs == [] {
      assert xs + ys == ys;
    } else {
      assert (xs + ys)[0] == xs[0];
      assert (xs + ys)[1..] == xs[1..] + ys;
      ACArgsAppend(xs[1..], ys);
    }
  }

  /** A list without AC-headed elements is left as it is. */
  lemma {:induction false} ACArgsOfFlat(cs: seq<Node>)
    requires forall i :: 0 <= i < |cs| ==> !IsAC(cs[i])
    ensures ACArgs(cs) == cs
  {
    if cs != [] {
      ACArgsOfFlat(cs[1..]);
    }
  }

  /** Flattening twice is flattening once. */
  lemma ACArgsIdempotent(cs: seq<Node>)
    ensures ACArgs(ACArgs(cs)) == ACArgs(cs)
  {
    ACArgsOfFlat(ACArgs(cs));
  }

  /** A single AC application among the arguments contributes its own flattened arguments. */
  lemma ACArgsOfApplication(cs: seq<Node>)
    requires cs != []
    ensures ACArgs([Apply(F, cs)]) == ACArgs(cs)
  {
    assert [Apply(F, cs)][1..] == [];
  }

  /** f(f(a, b), c), f(a, f(b, c)) and f(a, b, c) have the same flattened arguments. */
  lemma {:induction false} ACArgsAssociative(a: Node, b: Node, c: Node)
    ensures ACArgs([Apply(F, [a, b]), c]) == ACArgs([a, Apply(F, [b, c])])
    ensures ACArgs([a, Apply(F, [b, c])]) == ACArgs([a, b, c])
  {
    ACArgsAppend([Apply(F, [a, b])], [c]);
    ACArgsOfApplication([a, b]);
    ACArgsAppend([a], [b]);
    ACArgsAppend([a], [Apply(F, [b, c])]);
    ACArgsOfApplication([b, c]);
    ACArgsAppend([b], [c]);
    ACArgsAppend([a], [b, c]);
    ACArgsAppend([a, b], [c]);
    assert [a, b] + [c] == [a, b, c] && [a] + [b, c] == [a, b, c];
    assert [a] + [b] == [a, b] && [b] + [c] == [b, c];
  }

  /** One more child handled: its lifted arguments extend the spliced list. */
  lemma FlattenACStep(children: seq<Node>, i: nat, flat: seq<Normal>, item: Normal)
    requires i < |children| && Splice(flat) == ACArgs(children[..i])
    requires Items(item) == Lift(children[i])
    ensures Splice(flat + [item]) == ACArgs(children[..i + 1])
  {
    var pre, c := children[..i], children[i];
    assert children[..i + 1] == pre + [c];
    ACArgsAppend(pre, [c]);
    ACArgsSingle(c);
    SpliceAppend(flat, [item]);
    SpliceSingle(item);
  }

  lemma SpliceSingle(item: Normal)
    ensures Splice([item]) == Items(item)
  {
    assert [item][..0] == [];
  }

  lemma ACArgsSingle(c: Node)
    ensures ACArgs([c]) == Lift(c)
  {
    assert [c][1..] == [];
  }

  /** flatten_ac: walks the children, recursing into AC applications, then flattens one level. */
  method FlattenAC(children: seq<Node>) returns (result: seq<Node>)
    ensures result == ACArgs(children)
    decreases children
  {
    var flat: seq<Normal> := [];
    for i := 0 to |children|
      invariant Splice(flat) == ACArgs(children[..i])
    {
      var child := children[i];
      if IsAC(child) {
        var sub := FlattenAC(child.children);
        FlattenACStep(children, i, flat, Args(sub));
        flat := flat + [Args(sub)];
      } else {
        FlattenACStep(children, i, flat, Tree(child));
        flat := flat + [Tree(child)];
      }
    }
    assert children[..|children|] == children;
    result := Flatten(flat);
  }
}
