# AC normalisation of first-order terms, modelled in Dafny

This project models `ac.py`, a small normaliser for first-order terms modulo
associativity and commutativity of one AC symbol `f` (weight 0), with one
variable `x` (weight -1). The other symbols are declared by a precedence
chain such as `g>b>a`, which gives them positive, falling weights. The model
covers every part of the normaliser:

- **Terms** (`terms.dfy`): symbols, term trees with their separate display
  sequence, the size metrics and structural equality.
- **Orders** (`orders.dfy`): the two comparisons, precedence-only and
  Knuth-Bendix-style.
- **Flattening** (`flattening.dfy`): `flatten` and `flatten_ac`.
- **Sorting** (`sorting.dfy`): the sort behind `csort_prime`.
- **CanonicalOrder** (`canonical.dfy`): the pivot rule of `csort`.
- **Normalize** (`normalize.dfy`): `norm`.
- **Render** (`render.dfy`): the `display` loop and `__repr__`.
- **Text, Parsing and Symbols** (`text.dfy`, `parsing.dfy`, `symbols.dfy`):
  the input side, `split_args`, `parse_term` and `term_ordering`.

Recursive, value-returning code is written as functions. Code that loops and
updates variables is written as methods, each proved equal to a function of
its inputs:

- `count_vars` and `count_weight`;
- `flatten` and `flatten_ac`;
- the sort, `csort` and `csort_prime`;
- `display` and `__repr__`;
- `split_args`.

The global symbol dictionary that `term_ordering` writes is a class,
`Symbols.SymbolTable`, with a map field. `parse_term` only reads the
dictionary, so it takes it as a parameter.

Where the comparisons index one node's children with another's indices, the
model states a precondition. The main one is `Terms.Compatible`: two heads
agree on their name exactly when they agree on their weight, and nodes with
the same head have equally many children, recursively. This is stronger than
`ac.py` needs, because its loops stop at the first differing pair. It excludes
some pairs that the program compares without error (see `Normalize.Norm` under
"## Left out").

The model follows the code where the code and its intended behaviour
disagree:

- **The extended order is not total.** The comment at `ac.py:89` calls it
  total with one variable, but `Orders.CompExtendedNotTotal` exhibits
  `g(a)` and `x`. Each of the two compares below the other.
- **The extended order does not refine precedence.** With `b > a > c > h`,
  precedence puts `h(a,a,a)` below `b`, while the extended order puts `b`
  below `h(a,a,a)` (`CanonicalOrder.PrecedenceExample`,
  `CanonicalOrder.ExampleMetrics`).
- **Normalisation is not idempotent, and `csort` does not ignore argument
  order.** `Normalize.NormNotIdempotent` and
  `CanonicalOrder.CanonicalNotIdempotent` show a second normalisation that
  reorders the first one's result. `Normalize.NormKeepsSomeOrders` shows
  that `f(x,a)` and `f(a,x)` keep different argument orders.
- **`display` loops while more than one term remains**, not while more than
  `arity` terms remain. Arity 0 wraps the whole list at once, because
  `terms[-0:]` is the whole list.
- **An unknown name without parentheses** does not produce the "not present"
  error. Building that error message reads the variable `name`, which is not
  yet bound on that path, so the result is the error `NameUnbound`.
- **`term_ordering` does not strip** the names around `>`. It keeps the
  entries it wrote before a reserved name, and a repeated name takes the
  weight of its last position.

## Model

| member | source | states |
|---|---|---|
| Terms.CountVars | ac.py:25-31 | the loop's count equals `Vars(t)`, the number of nodes of negative weight |
| Terms.CountWeight | ac.py:33-37 | the loop's sum equals `Weight(t)`, the sum of weight + 2 over all nodes |
| Terms.VarLeafMetrics | ac.py:25-37 | a lone `x` leaf has one variable and weight sum 1 |
| Terms.WeightBoundsSize | ac.py:25-37 | with weights at least -1, every node adds at least 1 to the weight sum, and there are no more variables than nodes |
| Terms.SameSymbol | ac.py:12-13 | `Term.__eq__`: symbols are equal when their names are; used by `Terms.NodeEq` and characterised through `Terms.NodeEqIsErasedEquality` |
| Terms.IsVar | ac.py:43-44 | negative weight; `Symbols.KindsByName` shows it holds exactly for `x` over a table read from an ordering |
| Terms.IsFunc | ac.py:46-47 | at least one child; `Symbols.KindsByName` ties it to having arguments |
| Terms.IsAC | ac.py:49-50 | a function of weight 0; `Symbols.KindsByName` shows it holds exactly for `f` with arguments |
| Terms.NodeEq | ac.py:52-59 | `TreeNode.__eq__`; characterised by `Terms.NodeEqIsErasedEquality`, `Terms.NodeEqReflexive` and `Terms.NodeEqSymmetric` |
| Terms.NodeEqIsErasedEquality | ac.py:52-59 | node equality holds exactly when the trees of names agree: weights and display sequences are ignored |
| Terms.NodeEqReflexive | ac.py:52-59 | every node equals itself |
| Terms.NodeEqSymmetric | ac.py:52-59 | on comparable nodes, equality is symmetric |
| Orders.CompTerm | ac.py:113-129 | result in {-1,0,1}; 0 for equal terms or when either head weight is <= 0; the sign of the weight difference for distinct positive head weights |
| Orders.TermChildren | ac.py:122-127 | the child loop answers in {-1,0,1} |
| Orders.TermChildrenDecides | ac.py:122-127 | some index `i` has every pair before it equal and variable-free; a variable at either head of pair `i` gives 0, otherwise pair `i` differs and its precedence comparison is the answer |
| Orders.CompTermAntisymmetric | ac.py:113-129 | swapping the arguments negates the precedence comparison |
| Orders.CompExtended | ac.py:90-110 | result in {-1,0,1}, and 0 exactly when the terms are equal |
| Orders.ExtChildren | ac.py:106-110 | the child loop answers -1 or 1 |
| Orders.ExtChildrenDecides | ac.py:106-110 | with every pair equal the answer is -1 (the fall-through); otherwise the first unequal pair's extended comparison is the answer |
| Orders.CompExtendedAsymmetric | ac.py:90-110 | when variables are leaves, `a` above `b` implies `b` below `a` |
| Orders.CompExtendedNotTotal | ac.py:89-110 | `g(a)` and `x` are unequal, yet each compares below the other |
| Flattening.SpliceAppend | ac.py:189-196 | flattening distributes over concatenation |
| Flattening.SpliceTrees | ac.py:189-196 | a list of single trees flattens to those trees |
| Flattening.SpliceMember | ac.py:189-196 | every flattened element comes from one of the items |
| Flattening.Flatten | ac.py:189-196 | the append/extend loop returns `Splice(items)`, the one-level flattening |
| Flattening.ACArgs | ac.py:180-187 | no AC application in the result, at least as many arguments, no larger in total size |
| Flattening.Lift | ac.py:182-186 | one child yields at least one argument, none of them an AC application |
| Flattening.ACArgsAppend | ac.py:180-187 | AC flattening distributes over concatenation: left-to-right order is kept |
| Flattening.ACArgsOfFlat | ac.py:180-187 | a list without AC applications is returned unchanged |
| Flattening.ACArgsIdempotent | ac.py:180-187 | flattening twice is flattening once |
| Flattening.ACArgsOfApplication | ac.py:183-184 | one nested AC application contributes exactly its own flattened arguments |
| Flattening.ACArgsAssociative | ac.py:180-187 | `f(f(a,b),c)`, `f(a,f(b,c))` and `f(a,b,c)` have the same flattened arguments |
| Flattening.FlattenAC | ac.py:180-187 | the recursive loop returns `ACArgs(children)` |
| Sorting.InsertExt | ac.py:151 | insertion adds exactly one occurrence of the new element |
| Sorting.InsertExtPrefix | ac.py:151 | the placement rule: the new element moves left past `s[j-1]` exactly when it compares below it, the only question `cmp_to_key` asks, and otherwise stays after it |
| Sorting.SortExt | ac.py:151 | the sort is a permutation of its input |
| Sorting.SortExtPair | ac.py:151 | on two elements `[a, b]` the result is `[b, a]` exactly when `b` compares below `a`, as Timsort's single comparison decides |
| Sorting.InsertExtMembers | ac.py:151 | after insertion, the members are the old members plus the new element |
| Sorting.SortExtMembers | ac.py:151 | sorting keeps exactly the members, so they stay comparable |
| Sorting.SortExtAscending | ac.py:151 | in the sorted list no element compares above its right neighbour |
| Sorting.Insert | ac.py:151 | the leftward scan returns `InsertExt(x, s)` |
| Sorting.SortExtended | ac.py:151 | the sorting loop returns `SortExt(ts)` |
| CanonicalOrder.RemoveAt | ac.py:150 | deleting position k leaves one element fewer |
| CanonicalOrder.RemoveAtMultiset | ac.py:150 | the deletion removes exactly one occurrence of `ts[k]` |
| CanonicalOrder.IsPivot | ac.py:137-144 | the test of the inner loop: below the first term in precedence and above none; `CanonicalOrder.PivotFrom` finds the first index passing it |
| CanonicalOrder.PivotFrom | ac.py:137-145 | the first qualifying pivot in list order: below the head in precedence and above no element; none before it, and none at all when the result is None |
| CanonicalOrder.Canonical | ac.py:132-146 | the canonical order is a permutation of its input |
| CanonicalOrder.CanonicalLength | ac.py:132-134 | same length; empty exactly when the input is empty |
| CanonicalOrder.CanonicalKeepsHead | ac.py:135-146 | with a variable head, or without any pivot, the head stays first and the tail is canonicalised |
| CanonicalOrder.CanonicalWithPivot | ac.py:137-145 | with a pivot, the result is that pivot followed by the sorted remainder |
| CanonicalOrder.CanonicalPivotFirst | ac.py:137-151 | with a pivot, the result starts with the first pivot; the rest is a permutation of the remaining arguments, ascending in the extended order |
| CanonicalOrder.CanonicalHeadIsMinimal | ac.py:137-145 | a new head is precedence-minimal and below the original head |
| CanonicalOrder.CSortPrime | ac.py:149-151 | deleting the pivot and sorting returns `SortExt(RemoveAt(terms, k))` |
| CanonicalOrder.CSort | ac.py:132-146 | the pivot search and recursion return `Canonical(terms)` |
| CanonicalOrder.CanonicalTwoLeaves | ac.py:132-146 | `[x, a]` and `[a, x]` are both already canonical |
| CanonicalOrder.PrecedenceExample | ac.py:113-129 | with `b > a > c > h`, precedence puts `h(c,c,c)` below `b` and `h(a,a,a)`, and `h(a,a,a)` below `b` |
| CanonicalOrder.ExampleMetrics | ac.py:90-95 | the extended order puts `b` below `h(a,a,a)`, against the precedence order |
| CanonicalOrder.CanonicalSwapsDescendingPair | ac.py:132-151 | with `g > a > c`, `[g(a), c, x]` becomes `[c, x, g(a)]`: `c` is the pivot and the rest is swapped because `x` compares below `g(a)` |
| CanonicalOrder.CanonicalNotIdempotent | ac.py:132-151 | `[b, h(c,c,c), h(a,a,a)]` canonicalises to `[h(c,c,c), b, h(a,a,a)]`, which canonicalises to `[h(c,c,c), h(a,a,a), b]` |
| Normalize.NormExcludesSplicedArity | ac.py:154-170 | `f(g(x), g(f(a,b)))` lies outside the modelled domain, because its normalised `g` nodes have one and two children |
| Normalize.Norm | ac.py:154-170 | a single tree, with its head kept, exactly for non-AC input; an AC node gives a permutation of its normalised flattened arguments |
| Normalize.NormList | ac.py:158-160 | one result per child |
| Normalize.NormArgs | ac.py:167 | one normalised tree per flattened argument |
| Normalize.NormFreeOfAC | ac.py:154-170 | no AC application remains in any operational child sequence |
| Normalize.NormDisplayFolds | ac.py:155-165 | below an ordinary symbol the display keeps one entry per child, and dissolving its AC groups gives the new child sequence |
| Normalize.NormThroughACArgs | ac.py:166-168 | AC applications with equal flattened arguments normalise alike |
| Normalize.NormAssociative | ac.py:166-168 | `f(f(a,b),c)`, `f(a,f(b,c))` and `f(a,b,c)` normalise alike |
| Normalize.NormArgsPermutation | ac.py:167 | argument lists equal up to order normalise to lists equal up to order |
| Normalize.NormPermutedArguments | ac.py:166-168 | AC applications whose flattened arguments agree up to order have normal forms with the same arguments |
| Normalize.NormLeaf | ac.py:169-170 | a leaf normalises to itself |
| Normalize.NormKeepsSomeOrders | ac.py:166-168 | `f(x,a)` and `f(a,x)` normalise to `[x,a]` and `[a,x]` |
| Normalize.NormPlain | ac.py:154-170 | a freshly built tree without AC applications normalises to itself |
| Normalize.NormOverPlain | ac.py:166-168 | an AC application over such trees normalises to the canonical order of its arguments |
| Normalize.NormNotIdempotent | ac.py:154-170 | normalising `f(b,h(c,c,c),h(a,a,a))` and then `f` over the result gives two different argument orders |
| Text.Strip | ac.py:200 | `str.strip()`: the result is no longer than the input and starts and ends with no whitespace |
| Text.StripCuts | ac.py:200 | only whitespace is cut away, at both ends |
| Text.StripTrimmed | ac.py:200 | a string with no whitespace at either end is left alone |
| Text.StripIdempotent | ac.py:200 | stripping twice is stripping once |
| Text.IndexOf | ac.py:206 | the first position of the character |
| Text.SplitOn | ac.py:233 | `str.split`: at least one part, and no part contains the separator |
| Text.JoinSplit | ac.py:233 | joining the parts with the separator gives back the string |
| Text.SplitJoin | ac.py:233 | splitting the join of separator-free parts gives back the parts |
| Render.Cut | ac.py:175-176 | where `terms[:-arity]` and `terms[-arity:]` part the list; arity 0 puts everything on the right |
| Render.RegroupKeepsArgs | ac.py:174-177 | one round of the loop keeps the flattened arguments |
| Render.Display | ac.py:173-178 | the loop builds exactly `Grouped(terms, arity)`; the root flattens back to the input terms; one term is returned as is; otherwise the root is an `f` node with at least two children; arity 0 gives `f` over the whole list |
| Render.RootWidth | ac.py:174-177 | the root of a grouping has between 2 and `arity` children, and no more than there are terms |
| Render.Grouped | ac.py:173-178 | the right-nested chain: an `f` node with between 2 and `arity` children whenever there are two or more terms |
| Render.GroupedKeepsArgs | ac.py:173-178 | dissolving the `f` nodes of the grouping gives back the flattened input |
| Render.GroupedFiveByThree | ac.py:173-178 | five terms at arity 3 group as `f(t0,t1,f(t2,t3,t4))` |
| Render.DisplayOfFlat | ac.py:173-178 | for a list without AC applications, the root's flattened arguments are exactly that list |
| Render.Rendered | ac.py:61-69 | the text starts with the symbol name; a node with children ends in `)`; a leaf is its bare name |
| Render.RenderedFunc | ac.py:61-69 | a node with display entries prints as `name(e1,...,en)` with no trailing comma |
| Render.RenderedEmptyDisplay | ac.py:61-69 | a node with children but an empty display prints as `name)` |
| Render.Repr | ac.py:61-69 | the loop returns `Rendered(t)` |
| Render.DisplayTree | ac.py:61-69 | the tree the text shows: each node keeps its symbol and has its display entries as children |
| Render.DisplayTreeOfBuilt | ac.py:20-23 | a freshly built tree is its own display tree |
| Parsing.Step | ac.py:218-226 | one pass of the `split_args` loop body: a comma at depth 0 closes the stripped argument, brackets move the depth, every other character joins the current argument; `Parsing.SplitArgs` proves the loop equal to the fold of it |
| Parsing.Run | ac.py:217-226 | the loop state after reading a string, character by character; characterised by `Parsing.RunAppend` and `Parsing.RunRendered` |
| Parsing.RunAppend | ac.py:217-226 | reading `x + y` is reading `x` and then `y` from the state it leaves |
| Parsing.ArgsOf | ac.py:213-229 | every argument is stripped and no longer than the input |
| Parsing.SplitArgs | ac.py:213-229 | the character loop returns `ArgsOf(s)` |
| Parsing.ArgsWithoutComma | ac.py:213-229 | without a comma, the text is the one argument; an empty text gives none |
| Parsing.DropLast | ac.py:209 | `rest[:-1]` drops the last character, and leaves the empty string alone |
| Parsing.ParseTerm | ac.py:199-211 | a parsed tree is freshly built, and every symbol in it comes from the table |
| Parsing.ParseCall | ac.py:206-211 | the parsed node has the named symbol at its head |
| Parsing.ParseAll | ac.py:211 | one tree per argument, each freshly built from table symbols |
| Parsing.ParseUnknownName | ac.py:201-208 | a name missing from the table makes parsing fail, with or without parentheses |
| Parsing.ParseAllFails | ac.py:211 | one failing argument fails the whole list |
| Parsing.RunRendered | ac.py:213-229 | inside the printed form of a term every comma is nested, so the scan reads it as one piece |
| Parsing.ArgsOfRendered | ac.py:213-229 | `split_args` on the printed display entries recovers exactly those entries |
| Parsing.ParseRendered | ac.py:199-229 | parsing the `__repr__` text of a printable tree gives back the tree the text shows |
| Symbols.Names | ac.py:232-233 | the names are the parts of the stripped line: joining them with `>` gives it back |
| Symbols.Stop | ac.py:234-236 | where the loop stops: no reserved name before it, and a reserved name at it unless it is the end |
| Symbols.Last | ac.py:234-238 | the last position of a name: the name sits there and not after it |
| Symbols.Written | ac.py:234-238 | the table after the first i writes; characterised by `Symbols.WrittenEntries` |
| Symbols.WrittenEntries | ac.py:234-238 | after the writes, a key is present exactly when it was before or was listed; a listed name weighs N minus its last index; other keys are unchanged |
| Symbols.WrittenWeightsPositive | ac.py:238 | every written weight lies between 1 and N |
| Symbols.WrittenDecreasing | ac.py:231-238 | without repeats, a name further left gets a strictly larger positive weight |
| Symbols.WrittenOk | ac.py:234-238 | writing non-reserved names keeps `f` and `x` with weights 0 and -1, and every key names its own symbol |
| Symbols.WrittenConsistent | ac.py:231-238 | after reading an ordering into the fresh table, two entries have the same name exactly when they have the same weight |
| Symbols.KindsByName | ac.py:43-50 | over a table read from an ordering, a node is a variable exactly when its name is `x`, an AC application exactly when it is `f` with arguments, a function exactly when it has arguments, and every other name has positive weight |
| Symbols.SymbolTable.constructor | ac.py:72-74 | the table starts as `{"f": f, "x": x}` |
| Symbols.SymbolTable.TermOrdering | ac.py:231-238 | the new table is the old one with the names before the first reserved name written; success exactly when no name is `f` or `x` |
| Symbols.SymbolTable.WriteNames | ac.py:234-238 | the write loop over a given list of names, with the same guarantee |

## Left out

- The interactive loop is not modelled (`ac.py:240-260`): reading lines,
  `readline`, `input`, `print`, the try/except around each line and the check
  that a formula starts with `f`. `display` returns its root instead of
  printing it.
- `Term.arity` is never read, so it is not modelled; neither is
  `TreeNode.add_child`, which is never called. The commented-out test data at
  `ac.py:77-86` is also left out.
- Exception messages are left out. A parse failure is a `ParseError` value,
  and a rejected ordering returns `false`.
- `Term.__eq__` against a non-`Term`, and `TreeNode.__eq__` against a
  non-`TreeNode`, cannot arise with typed values and are not modelled.
- Python's call-stack limit on deep terms is not modelled.
- Terms.Compatible: pairs of nodes with the same head name but different
  child counts are excluded by precondition from equality and both
  comparisons. On some such pairs `__eq__` raises an IndexError or answers
  asymmetrically, and `comp_term` can return `None`. On others the loops
  stop at a differing pair or a variable before running out of children,
  and the program answers normally. The model does not cover those.
- Normalize.Norm: `Normalizable` requires the normalised arguments of every
  AC application to be pairwise `Compatible`. It therefore rejects trees in
  which splicing changes the child count of an ordinary symbol between
  occurrences. An example is `f(g(x), g(f(a,b)))` with `g > a > b`: after
  splicing, the second `g` has two children and the first has one. The
  program normalises this to `f(g(x),g(f(b,a)))` without error.
  `Normalize.NormExcludesSplicedArity` proves that the model excludes it.
- Sorting.SortExt: a stable insertion sort stands in for
  `sorted(..., key=cmp_to_key(comp_extended))`. It asks the same question as
  Timsort, whether the new element compares below an earlier one, and agrees
  with Timsort on lists of up to two elements (`Sorting.SortExtPair`). On
  three or more elements Timsort's run detection and binary insertion ask
  other pairs, and because `comp_extended` is not total the two orders can
  then differ. The proved guarantee is a permutation in which no element
  compares above its right neighbour.
- Sorting.SortExtended: the method is the insertion sort above, so the same
  gap to Timsort applies.
- CanonicalOrder.CSortPrime: `del terms[k]` removes the pivot from the
  caller's list in place. The model works on values. The caller
  (`csort`, called from `norm`) does not read that list afterwards, so the
  result is the same.
- Render.Display: the empty list, where `terms[0]` raises IndexError, is
  excluded by precondition. So is arity 1 with two or more terms, where the
  loop never ends.
- Symbols.SymbolTable.TermOrdering: the global dictionary is the `entries`
  field of one `SymbolTable` object. `parse_term` takes the dictionary as a
  map parameter instead of reading a global.
