/**
  * Reading a term from text: `split_args` cuts an argument list at its
  * top-level commas and `parse_term` builds the tree, looking every symbol
  * name up in the symbol table.
  */
module Parsing {
  import opened Terms
  import opened Text
  import opened Render

  datatype Result<T, E> = Ok(value: T) | Err(error: E)

  /**
    * Why parsing fails. A name before "(" that the table lacks is reported
    * by name; a missing name without "(" fails while building the message,
    * whose variable `name` is not yet bound on that path.
    */
  datatype ParseError = UnknownName(name: string) | NameUnbound

  // ---------------------------------------------------------------------
  // split_args
  // ---------------------------------------------------------------------

  /** The variables of the split_args loop: finished arguments, nesting depth, current argument. */
  datatype Scan = Scan(args: seq<string>, depth: int, current: string)

  const Start := Scan([], 0, "")

  /** One character: a comma at depth 0 closes the current argument, anything else joins it. */
  function Step(st: Scan, ch: char): Scan {
    if ch == ',' && st.depth == 0 then Scan(st.args + [Strip(st.current)], st.depth, "")
    else if ch == '(' then Scan(st.args, st.depth + 1, st.current + [ch])
    else if ch == ')' then Scan(st.args, st.depth - 1, st.current + [ch])
    else Scan(st.args, st.depth, st.current + [ch])
  }

  /** The loop state after reading s, starting from st. */
  function Run(st: Scan, s: string): Scan
    decreases |s|
  {
    if s == [] then st else Step(Run(st, s[..|s| - 1]), s[|s| - 1])
  }

  lemma {:induction false} RunAppend(st: Scan, x: string, y: string)
    ensures Run(st, x + y) == Run(Run(st, x), y)
    decreases |y|
  {
    if y == [] {
      assert x + y == x;
    } else {
      var y' := y[..|y| - 1];
      assert (x + y)[..|x + y| - 1] == x + y';
      RunAppend(st, x, y');
    }
  }

  /** Every finished argument is stripped, and no argument is longer than n. */
  predicate Tidy(st: Scan, n: nat) {
    && |st.current| <= n
    && forall i :: 0 <= i < |st.args| ==> |st.args[i]| <= n && Trimmed(st.args[i])
  }

  /** Reading one more character keeps the arguments stripped and within the text read. */
  lemma StepTidy(st: Scan, n: nat, ch: char)
    requires Tidy(st, n)
    ensures Tidy(Step(st, ch), n + 1)
  {
    var st' := Step(st, ch);
    if ch == ',' && st.depth == 0 {
      assert st'.args == st.args + [Strip(st.current)];
    } else {
      assert st'.args == st.args && |st'.current| == |st.current| + 1;
    }
  }

  lemma {:induction false} RunTidy(s: string)
    ensures Tidy(Run(Start, s), |s|)
    decreases |s|
  {
    if s != [] {
      var s' := s[..|s| - 1];
      RunTidy(s');
      StepTidy(Run(Start, s'), |s'|, s[|s| - 1]);
    }
  }

  /** The arguments split_args returns for s. */
  function ArgsOf(s: string): (r: seq<string>)
    ensures forall i :: 0 <= i < |r| ==> |r[i]| <= |s| && Trimmed(r[i])
  {
    var st := Run(Start, s);
    RunTidy(s);
    if st.current != [] then st.args + [Strip(st.current)] else st.args
  }

  /** split_args: one pass over the characters, tracking the parenthesis depth. */
  method SplitArgs(s: string) returns (args: seq<string>)
    ensures args == ArgsOf(s)
  {
    args := [];
    var depth := 0;
    var current := "";
    var i := 0;
    while i < |s|
      invariant 0 <= i <= |s|
      invariant Scan(args, depth, current) == Run(Start, s[..i])
    {
      var c := s[i];
      assert s[..i + 1][..i] == s[..i];
      if c == ',' && depth == 0 {
        args := args + [Strip(current)];
        current := "";
      } else {
        if c == '(' {
          depth := depth + 1;
        } else if c == ')' {
          depth := depth - 1;
        }
        current := current + [c];
      }
      i := i + 1;
    }
    assert s[..i] == s;
    if current != [] {
      args := args + [Strip(current)];
    }
  }

  /** Without any comma the whole text is the one argument; an empty text has none. */
  lemma {:induction false} ArgsWithoutComma(s: string)
    requires ',' !in s
    ensures Run(Start, s).args == [] && Run(Start, s).current == s
    ensures ArgsOf(s) == if s == [] then [] else [Strip(s)]
    decreases |s|
  {
    if s != [] {
      ArgsWithoutComma(s[..|s| - 1]);
      assert s[..|s| - 1] + [s[|s| - 1]] == s;
    }
  }

  // ---------------------------------------------------------------------
  // parse_term
  // ---------------------------------------------------------------------

  /** s without its last character, as the slice s[:-1] (which leaves "" alone). */
  function DropLast(s: string): (r: string)
    ensures |r| == if s == [] then 0 else |s| - 1
    ensures r == s[..|r|]
  {
    if s == [] then s else s[..|s| - 1]
  }

  /** Every node of t carries a symbol the table holds under its own key. */
  predicate FromTable(t: Node, tbl: map<string, Symbol>) {
    && t.sym in tbl.Values
    && forall i :: 0 <= i < |t.children| ==> FromTable(t.children[i], tbl)
  }

  /**
    * parse_term: strip the text; a text without "(" is a symbol name; otherwise
    * the name runs up to the first "(", the last character is dropped as the
    * closing parenthesis, and the arguments are parsed in order.
    */
  function ParseTerm(tbl: map<string, Symbol>, s: string): (r: Result<Node, ParseError>)
    ensures r.Ok? ==> Built(r.value) && FromTable(r.value, tbl)
    decreases |s|, 2, 0
  {
    var t := Strip(s);
    if '(' !in t then
      if t in tbl then Ok(Leaf(tbl[t])) else Err(NameUnbound)
    else
      var i := IndexOf(t, '(');
      var name := t[..i];
      if name !in tbl then Err(UnknownName(name))
      else ParseCall(tbl, name, DropLast(t[i + 1..]), |s|)
  }

  /** The symbol of name applied to the arguments parsed from inner, the text between the parentheses. */
  function ParseCall(tbl: map<string, Symbol>, name: string, inner: string, bound: nat): (r: Result<Node, ParseError>)
    requires name in tbl && |inner| < bound
    ensures r.Ok? ==> r.value.sym == tbl[name] && Built(r.value) && FromTable(r.value, tbl)
    decreases bound, 1, 0
  {
    match ParseAll(tbl, ArgsOf(inner), bound)
    case Err(e) => Err(e)
    case Ok(kids) => Ok(Apply(tbl[name], kids))
  }

  /** [parse_term(arg) for arg in args]: the first failure ends the list. */
  function ParseAll(tbl: map<string, Symbol>, args: seq<string>, bound: nat): (r: Result<seq<Node>, ParseError>)
    requires forall i :: 0 <= i < |args| ==> |args[i]| < bound
    ensures r.Ok? ==> |r.value| == |args|
    ensures r.Ok? ==> forall i :: 0 <= i < |r.value| ==> Built(r.value[i]) && FromTable(r.value[i], tbl)
    decreases bound, 0, |args|
  {
    if args == [] then Ok([])
    else
      match ParseTerm(tbl, args[0])
      case Err(e) => Err(e)
      case Ok(n) =>
        match ParseAll(tbl, args[1..], bound)
        case Err(e) => Err(e)
        case Ok(ns) => Ok([n] + ns)
  }

  /** A name that is missing from the table makes parsing fail, with or without arguments. */
  lemma {:induction false} ParseUnknownName(tbl: map<string, Symbol>, s: string)
    requires var t := Strip(s); ('(' !in t && t !in tbl) || ('(' in t && t[..IndexOf(t, '(')] !in tbl)
    ensures ParseTerm(tbl, s).Err?
  {
  }

  /** The text of every argument of a parsed term is parsed; one failure fails the whole. */
  lemma {:induction false} ParseAllFails(tbl: map<string, Symbol>, args: seq<string>, bound: nat, k: nat)
    requires forall i :: 0 <= i < |args| ==> |args[i]| < bound
    requires k < |args| && ParseTerm(tbl, args[k]).Err?
    ensures ParseAll(tbl, args, bound).Err?
    decreases k
  {
    if k > 0 {
      ParseAllFails(tbl, args[1..], bound, k - 1);
    }
  }

  // ---------------------------------------------------------------------
  // Printing and parsing again
  // ---------------------------------------------------------------------

  /** A name the parser reads back: not blank at either end, no parenthesis, no comma. */
  predicate CleanName(n: string) {
    && n != [] && !IsSpace(n[0]) && !IsSpace(n[|n| - 1])
    && '(' !in n && ')' !in n && ',' !in n
  }

  /**
    * Every symbol shown is a clean name the table maps to that very symbol,
    * and every node with children shows at least one display entry.
    */
  predicate Printable(t: Node, tbl: map<string, Symbol>) {
    && CleanName(t.sym.name) && t.sym.name in tbl && tbl[t.sym.name] == t.sym
    && (IsFunc(t) ==> t.display != [] && forall i :: 0 <= i < |t.display| ==> Printable(t.display[i], tbl))
  }

  /** A clean name passes the scan untouched. */
  lemma {:induction false} RunName(st: Scan, n: string)
    requires '(' !in n && ')' !in n && ',' !in n
    ensures Run(st, n) == Scan(st.args, st.depth, st.current + n)
    decreases |n|
  {
    if n != [] {
      RunName(st, n[..|n| - 1]);
      assert n[..|n| - 1] + [n[|n| - 1]] == n;
    }
  }

  lemma Assoc<T>(a: seq<T>, b: seq<T>, c: seq<T>, d: seq<T>)
    ensures a + b + c + d == a + (b + c + d)
    ensures a + (b + c) == a + b + c
  {
  }

  /** Reading a single character is one step of the loop. */
  lemma {:induction false} RunChar(st: Scan, ch: char)
    ensures Run(st, [ch]) == Step(st, ch)
  {
    assert [ch][..0] == [];
  }

  /** Reading x and then y is reading x + y. */
  lemma {:induction false} RunThrough(st: Scan, x: string, mid: Scan, y: string, end: Scan)
    requires Run(st, x) == mid && Run(mid, y) == end
    ensures Run(st, x + y) == end
  {
    RunAppend(st, x, y);
  }

  /** Inside the parentheses of a printed term every comma is nested, so a printed term is one argument. */
  lemma {:induction false} RunRendered(t: Node, tbl: map<string, Symbol>, st: Scan)
    requires Printable(t, tbl) && st.depth >= 0
    ensures Run(st, Rendered(t)) == Scan(st.args, st.depth, st.current + Rendered(t))
    decreases t, |t.display| + 1
  {
    var name := t.sym.name;
    RunName(st, name);
    if IsFunc(t) {
      var n := |t.display|;
      var listed, last := Listed(t, n - 1), Rendered(t.display[n - 1]);
      RenderedFunc(t);
      var st1 := Scan(st.args, st.depth, st.current + name);
      var st2 := Scan(st.args, st.depth + 1, st1.current + "(");
      var st3 := Scan(st.args, st.depth + 1, st2.current + listed);
      var st4 := Scan(st.args, st.depth + 1, st3.current + last);
      var st5 := Scan(st.args, st.depth, st4.current + ")");
      RunChar(st1, '(');
      RunThrough(st, name, st1, "(", st2);
      RunListed(t, tbl, n - 1, st2);
      RunThrough(st, name + "(", st2, listed, st3);
      RunRendered(t.display[n - 1], tbl, st3);
      RunThrough(st, name + "(" + listed, st3, last, st4);
      RunChar(st4, ')');
      RunThrough(st, name + "(" + listed + last, st4, ")", st5);
      Assoc(st.current, name + "(", listed, last);
      Assoc(st.current, name + "(" + listed, last, ")");
      Assoc(st.current, name, "(", listed);
      Assoc(st.current, name, "(", listed + last + ")");
    }
  }

  lemma {:induction false} RunListed(t: Node, tbl: map<string, Symbol>, k: nat, st: Scan)
    requires Printable(t, tbl) && IsFunc(t) && k <= |t.display| && st.depth >= 1
    ensures Run(st, Listed(t, k)) == Scan(st.args, st.depth, st.current + Listed(t, k))
    decreases t, k
  {
    if k > 0 {
      var listed, e := Listed(t, k - 1), Rendered(t.display[k - 1]);
      var st1 := Scan(st.args, st.depth, st.current + listed);
      var st2 := Scan(st.args, st.depth, st1.current + e);
      var st3 := Scan(st.args, st.depth, st2.current + ",");
      RunListed(t, tbl, k - 1, st);
      RunRendered(t.display[k - 1], tbl, st1);
      RunThrough(st, listed, st1, e, st2);
      RunChar(st2, ',');
      RunThrough(st, listed + e, st2, ",", st3);
      Assoc(st.current, listed, e, ",");
    }
  }

  /** The printed display entries of t, the arguments the parser should find. */
  function Texts(t: Node, k: nat): (r: seq<string>)
    requires k <= |t.display|
    ensures |r| == k && forall j :: 0 <= j < k ==> r[j] == Rendered(t.display[j])
  {
    if k == 0 then [] else Texts(t, k - 1) + [Rendered(t.display[k - 1])]
  }

  /** A printed name neither starts nor ends with whitespace. */
  lemma {:induction false} RenderedTrimmed(t: Node, tbl: map<string, Symbol>)
    requires Printable(t, tbl)
    ensures Strip(Rendered(t)) == Rendered(t)
  {
    var r := Rendered(t);
    assert r[0] == r[..|t.sym.name|][0] == t.sym.name[0];
    if !IsFunc(t) {
      assert r[|r| - 1] == t.sym.name[|t.sym.name| - 1];
    }
    StripTrimmed(r);
  }

  /** At depth 0 the commas after the printed entries close one argument each. */
  lemma {:induction false} RunTop(t: Node, tbl: map<string, Symbol>, k: nat)
    requires Printable(t, tbl) && IsFunc(t) && k <= |t.display|
    ensures Run(Start, Listed(t, k)) == Scan(Texts(t, k), 0, "")
    decreases k
  {
    if k > 0 {
      var listed, e := Listed(t, k - 1), Rendered(t.display[k - 1]);
      var st1 := Scan(Texts(t, k - 1), 0, "");
      var st2 := Scan(Texts(t, k - 1), 0, e);
      RunTop(t, tbl, k - 1);
      RunRendered(t.display[k - 1], tbl, st1);
      assert st1.current + e == e;
      assert Run(st1, e) == st2;
      RunThrough(Start, listed, st1, e, st2);
      RunChar(st2, ',');
      RenderedTrimmed(t.display[k - 1], tbl);
      RunThrough(Start, listed + e, st2, ",", Scan(Texts(t, k), 0, ""));
    }
  }

  /** split_args recovers exactly the printed display entries. */
  lemma {:induction false} ArgsOfRendered(t: Node, tbl: map<string, Symbol>)
    requires Printable(t, tbl) && IsFunc(t)
    ensures ArgsOf(Inner(t)) == Texts(t, |t.display|)
  {
    var n := |t.display|;
    var e := Rendered(t.display[n - 1]);
    assert Inner(t) == Listed(t, n - 1) + e;
    var st1 := Scan(Texts(t, n - 1), 0, "");
    var st2 := Scan(Texts(t, n - 1), 0, e);
    RunTop(t, tbl, n - 1);
    RunRendered(t.display[n - 1], tbl, st1);
    assert st1.current + e == e;
    assert Run(st1, e) == st2;
    RunThrough(Start, Listed(t, n - 1), st1, e, st2);
    RenderedTrimmed(t.display[n - 1], tbl);
    assert e != [];
    assert Texts(t, n) == st2.args + [Strip(e)];
  }

  /** Parsing the printed text of a tree gives back the tree that printing shows. */
  lemma {:induction false} ParseRendered(t: Node, tbl: map<string, Symbol>)
    requires Printable(t, tbl)
    ensures ParseTerm(tbl, Rendered(t)) == Ok(DisplayTree(t))
    decreases t, 1
  {
    if !IsFunc(t) {
      RenderedTrimmed(t, tbl);
    } else {
      var n := |t.display|;
      var bound := |Rendered(t)|;
      InnerText(t, tbl);
      ParseRenderedCall(t, tbl);
      ParseAllRendered(t, tbl, 0, bound);
      assert Texts(t, n)[0..] == Texts(t, n);
      assert DisplayTree(t).children[0..] == DisplayTree(t).children;
    }
  }

  /** The text between the outer parentheses of a printed node with display entries. */
  function Inner(t: Node): string
    requires IsFunc(t) && t.display != []
  {
    Listed(t, |t.display| - 1) + Rendered(t.display[|t.display| - 1])
  }

  /** The printed text of a node with display entries is name(inner), and inner splits into the printed entries. */
  lemma {:induction false} InnerText(t: Node, tbl: map<string, Symbol>)
    requires Printable(t, tbl) && IsFunc(t)
    ensures Rendered(t) == t.sym.name + "(" + Inner(t) + ")"
    ensures ArgsOf(Inner(t)) == Texts(t, |t.display|)
    ensures forall j :: 0 <= j < |t.display| ==> |Rendered(t.display[j])| < |Rendered(t)|
  {
    var n := |t.display|;
    RenderedFunc(t);
    ArgsOfRendered(t, tbl);
    forall j | 0 <= j < n ensures |Rendered(t.display[j])| < |Rendered(t)| {
      assert Texts(t, n)[j] == Rendered(t.display[j]);
    }
  }

  /** The printed text of a node with display entries is read as its name applied to the printed entries. */
  lemma {:induction false} ParseRenderedCall(t: Node, tbl: map<string, Symbol>)
    requires Printable(t, tbl) && IsFunc(t)
    ensures |Inner(t)| < |Rendered(t)|
    ensures ParseTerm(tbl, Rendered(t)) == ParseCall(tbl, t.sym.name, Inner(t), |Rendered(t)|)
  {
    RenderedTrimmed(t, tbl);
    InnerText(t, tbl);
    ParseApplication(tbl, t.sym.name, Inner(t), Rendered(t));
  }

  /** A text name(inner) with a known name parses to that symbol over the arguments of inner. */
  lemma {:induction false} ParseApplication(tbl: map<string, Symbol>, name: string, inner: string, s: string)
    requires s == name + "(" + inner + ")" && '(' !in name && name in tbl && Strip(s) == s
    ensures ParseTerm(tbl, s) == ParseCall(tbl, name, inner, |s|)
  {
    CallShape(name, inner, s);
    var t := Strip(s);
    var i := IndexOf(t, '(');
    assert t[..i] == name && DropLast(t[i + 1..]) == inner;
  }

  /** In name(inner) the first "(" ends the name, and dropping the last character leaves inner. */
  lemma {:induction false} CallShape(name: string, inner: string, s: string)
    requires s == name + "(" + inner + ")" && '(' !in name
    ensures '(' in s && IndexOf(s, '(') == |name|
    ensures s[..|name|] == name && DropLast(s[|name| + 1..]) == inner
  {
    assert s[|name|] == '(';
    assert s[..|name|] == name;
    assert s[|name| + 1..] == inner + ")";
  }

  lemma Uncons<T>(s: seq<T>, k: nat)
    requires k < |s|
    ensures s[k..] == [s[k]] + s[k + 1..] && s[k..][0] == s[k] && s[k..][1..] == s[k + 1..]
  {
  }

  lemma {:induction false} ParseAllRendered(t: Node, tbl: map<string, Symbol>, k: nat, bound: nat)
    requires Printable(t, tbl) && IsFunc(t) && k <= |t.display|
    requires forall j :: 0 <= j < |t.display| ==> |Rendered(t.display[j])| < bound
    ensures ParseAll(tbl, Texts(t, |t.display|)[k..], bound) == Ok(DisplayTree(t).children[k..])
    decreases t, 0, |t.display| - k
  {
    var n := |t.display|;
    var args := Texts(t, n)[k..];
    var trees := DisplayTree(t).children;
    if k < n {
      ParseRendered(t.display[k], tbl);
      ParseAllRendered(t, tbl, k + 1, bound);
      assert args[0] == Rendered(t.display[k]);
      Uncons(Texts(t, n), k);
      assert trees[k] == DisplayTree(t.display[k]);
      Uncons(trees, k);
    } else {
      assert args == [] && trees[k..] == [];
    }
  }
}
