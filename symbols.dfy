/**
  * The symbol table: every name the parser knows, with its weight. It starts
  * with the reserved AC symbol f and the variable x; reading an ordering
  * "g>b>a" adds each listed name with a weight that falls along the list.
  */
module Symbols {
  import opened Terms
  import opened Text

  predicate Reserved(name: string) {
    name == "f" || name == "x"
  }

  /** The names of an ordering line: the stripped line cut at every ">" (the parts are not stripped). */
  function Names(line: string): (names: seq<string>)
    ensures names != [] && Join(names, '>') == Strip(line)
  {
    JoinSplit(Strip(line), '>');
    SplitOn(Strip(line), '>')
  }

  /** Where the loop stops: the first reserved name, or the end of the list. */
  function Stop(names: seq<string>): (k: nat)
    ensures k <= |names|
    ensures forall j :: 0 <= j < k ==> !Reserved(names[j])
    ensures k < |names| ==> Reserved(names[k])
  {
    if names == [] then 0
    else if Reserved(names[0]) then 0
    else 1 + Stop(names[1..])
  }

  /** The table after the first i names have been written, each with weight |names| - index. */
  function Written(m: map<string, Symbol>, names: seq<string>, i: nat): map<string, Symbol>
    requires i <= |names|
  {
    if i == 0 then m
    else Written(m, names, i - 1)[names[i - 1] := Symbol(names[i - 1], |names| - (i - 1))]
  }

  /** The last position of a name in a list. */
  function Last(names: seq<string>, k: string): (j: nat)
    requires k in names
    ensures j < |names| && names[j] == k && k !in names[j + 1..]
  {
    var n := |names| - 1;
    if names[n] == k then
      assert names[n + 1..] == [];
      n
    else
      assert names == names[..n] + [names[n]];
      var j := Last(names[..n], k);
      assert names[j + 1..] == names[..n][j + 1..] + [names[n]];
      j
  }

  /** What Written holds: the last write of a listed name wins, every other key is untouched. */
  lemma {:induction false} WrittenEntries(m: map<string, Symbol>, names: seq<string>, i: nat, k: string)
    requires i <= |names|
    ensures k in Written(m, names, i) <==> k in m || k in names[..i]
    ensures k in names[..i] ==> Written(m, names, i)[k] == Symbol(k, |names| - Last(names[..i], k))
    ensures k !in names[..i] && k in m ==> Written(m, names, i)[k] == m[k]
  {
    if i > 0 {
      WrittenEntries(m, names, i - 1, k);
      var pre := names[..i - 1];
      assert names[..i] == pre + [names[i - 1]];
      if k in names[..i] && k != names[i - 1] {
        assert k in pre;
        assert Last(names[..i], k) == Last(pre, k) by {
          var j := Last(names[..i], k);
          assert j < i - 1;
          assert pre[j] == k;
          assert pre[j + 1..] == names[..i][j + 1..i - 1];
          LastUnique(pre, k, j);
        }
      }
    }
  }

  /** The last position is the only one with nothing equal after it. */
  lemma {:induction false} LastUnique(names: seq<string>, k: string, j: nat)
    requires j < |names| && names[j] == k && k !in names[j + 1..]
    ensures Last(names, k) == j
  {
    var l := Last(names, k);
    assert forall p :: l < p < |names| ==> names[p] != k by {
      forall p | l < p < |names| ensures names[p] != k {
        assert names[p] == names[l + 1..][p - l - 1];
      }
    }
    assert forall p :: j < p < |names| ==> names[p] != k by {
      forall p | j < p < |names| ensures names[p] != k {
        assert names[p] == names[j + 1..][p - j - 1];
      }
    }
  }

  /** Stop is the first reserved position, or the length when there is none. */
  lemma {:induction false} StopAt(names: seq<string>, i: nat)
    requires i <= |names| && forall j :: 0 <= j < i ==> !Reserved(names[j])
    requires i < |names| ==> Reserved(names[i])
    ensures Stop(names) == i
  {
    var k := Stop(names);
    assert !(k < i) && !(i < k);
  }

  /** Listed names get weights between 1 and the number of names. */
  lemma {:induction false} WrittenWeightsPositive(m: map<string, Symbol>, names: seq<string>, i: nat, k: string)
    requires i <= |names| && k in names[..i]
    ensures k in Written(m, names, i)
    ensures 1 <= Written(m, names, i)[k].weight <= |names| && Written(m, names, i)[k].name == k
  {
    WrittenEntries(m, names, i, k);
  }

  /** Without repetitions, a name further left gets the larger weight: g>b>a gives g > b > a. */
  lemma {:induction false} WrittenDecreasing(m: map<string, Symbol>, names: seq<string>, a: nat, b: nat)
    requires a < b < |names|
    requires forall p, q :: 0 <= p < q < |names| ==> names[p] != names[q]
    ensures names[a] in Written(m, names, |names|) && names[b] in Written(m, names, |names|)
    ensures Written(m, names, |names|)[names[a]].weight > Written(m, names, |names|)[names[b]].weight >= 1
  {
    assert names[..|names|] == names;
    WrittenEntries(m, names, |names|, names[a]);
    WrittenEntries(m, names, |names|, names[b]);
    LastUnique(names, names[a], a);
    LastUnique(names, names[b], b);
  }

  /** Every key names its own symbol, and f and x keep their fixed weights. */
  predicate TableOk(m: map<string, Symbol>) {
    && "f" in m && m["f"] == F
    && "x" in m && m["x"] == X
    && forall k :: k in m ==> m[k].name == k
  }

  /** Two entries agree on their name exactly when they agree on their weight. */
  predicate Consistent(m: map<string, Symbol>) {
    forall a, b :: a in m && b in m ==> (m[a].name == m[b].name <==> m[a].weight == m[b].weight)
  }

  const Initial: map<string, Symbol> := map["f" := F, "x" := X]

  /** Writing names other than f and x keeps a table well formed. */
  lemma {:induction false} WrittenOk(m: map<string, Symbol>, names: seq<string>, i: nat)
    requires TableOk(m) && i <= |names|
    requires forall j :: 0 <= j < i ==> !Reserved(names[j])
    ensures TableOk(Written(m, names, i))
  {
    if i > 0 {
      WrittenOk(m, names, i - 1);
    }
  }

  /**
    * An ordering read into the fresh table yields a consistent table: the
    * reserved symbols have weights 0 and -1, and distinct listed names have
    * distinct last positions and so distinct positive weights.
    */
  lemma {:induction false} WrittenConsistent(names: seq<string>, i: nat)
    requires i <= |names| && forall j :: 0 <= j < i ==> !Reserved(names[j])
    ensures Consistent(Written(Initial, names, i))
  {
    var w := Written(Initial, names, i);
    WrittenOk(Initial, names, i);
    forall a, b | a in w && b in w
      ensures w[a].name == w[b].name <==> w[a].weight == w[b].weight
    {
      WrittenEntries(Initial, names, i, a);
      WrittenEntries(Initial, names, i, b);
      if a != b && a in names[..i] && b in names[..i] {
        assert names[..i][Last(names[..i], a)] != names[..i][Last(names[..i], b)];
      }
    }
  }

  /**
    * Over a table read from an ordering, the node kinds follow the names:
    * only x is a variable, only f applied to arguments is an AC application,
    * and every other node carries a positive precedence.
    */
  lemma {:induction false} KindsByName(names: seq<string>, i: nat, k: string, cs: seq<Node>)
    requires i <= |names| && forall j :: 0 <= j < i ==> !Reserved(names[j])
    requires k in Written(Initial, names, i)
    ensures var t := Apply(Written(Initial, names, i)[k], cs);
      && (IsVar(t) <==> k == "x")
      && (IsAC(t) <==> k == "f" && cs != [])
      && (IsFunc(t) <==> cs != [])
      && (!Reserved(k) ==> t.sym.weight >= 1)
  {
    WrittenEntries(Initial, names, i, k);
    if k in names[..i] {
      WrittenWeightsPositive(Initial, names, i, k);
      var j :| 0 <= j < i && names[..i][j] == k;
      assert !Reserved(names[j]);
    }
  }

  class SymbolTable {
    var entries: map<string, Symbol>

    predicate Valid()
      reads this
    {
      TableOk(entries)
    }

    /** The module-level dictionary {"f": f, "x": x}. */
    constructor()
      ensures Valid() && entries == Initial
    {
      entries := Initial;
    }

    /**
      * term_ordering: write each name of the line with weight |names| - index,
      * and stop with an error at the first f or x; the names written before
      * it stay in the table.
      */
    method TermOrdering(line: string) returns (ok: bool)
      requires Valid()
      modifies this
      ensures Valid()
      ensures entries == Written(old(entries), Names(line), Stop(Names(line)))
      ensures ok <==> forall j :: 0 <= j < |Names(line)| ==> !Reserved(Names(line)[j])
    {
      ok := WriteNames(Names(line));
    }

    /** The loop of term_ordering over the names of the line. */
    method WriteNames(names: seq<string>) returns (ok: bool)
      requires Valid()
      modifies this
      ensures Valid()
      ensures entries == Written(old(entries), names, Stop(names))
      ensures ok <==> forall j :: 0 <= j < |names| ==> !Reserved(names[j])
    {
      ghost var m := entries;
      var i := 0;
      while i < |names|
        invariant 0 <= i <= |names|
        invariant forall j :: 0 <= j < i ==> !Reserved(names[j])
        invariant entries == Written(m, names, i)
      {
        if Reserved(names[i]) {
          WrittenOk(m, names, i);
          StopAt(names, i);
          return false;
        }
        entries := entries[names[i] := Symbol(names[i], |names| - i)];
        i := i + 1;
      }
      WrittenOk(m, names, i);
      StopAt(names, i);
      return true;
    }
  }
}
