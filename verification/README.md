# dawg-set: the incremental minimal DAWG builder, in Dafny

This project models the core of `dawg-set`, a JavaScript library that stores
a set of paths (strings, or arrays of strings) in a minimal directed acyclic
word graph. Paths must be added in sorted order. The library builds the graph
incrementally, in Daciuk's style:

- the nodes of the last inserted path that have not been checked yet sit on a
  frontier stack (`_uncheckedNodes`);
- when the next path arrives, `_minimize` pops the frontier down to the
  common prefix with the previous path;
- each popped node either is replaced by an already registered node with the
  same final flag and edges, or becomes the registered node for that
  signature (`_minimizedNodes`);
- `finalize` minimises the rest and freezes the graph.

`has` follows one edge per symbol, and `count` reads the entry counter.

The model is a functional state machine:

| module (file) | what it holds |
|---|---|
| `Order` (order.dfy) | symbols and paths, the default comparator, the common-prefix count |
| `Graph` (graph.dfy) | nodes in an arena `map<nat, Node>`, the structural signature, walks and acceptance |
| `Builder` (builder.dfy) | the builder record, `Add`, `MinimizeStep`/`Minimize`, `Has`, `Count`, `Finalize`, `From` |
| `Invariant` (invariant.dfy) | the frontier and registry invariant, and the proofs that minimisation keeps it and the accepted paths |
| `Insertion` (insertion.dfy) | the proofs that growing fresh nodes keeps the invariant and the accepted paths |
| `Adding` (adding.dfy) | a successful insertion adds exactly the new path |
| `Finalizing` (finalizing.dfy) | freezing keeps the accepted paths and leaves no two reachable states with one signature |
| `Building` (building.dfy) | building from a list: succeeds exactly for sorted input, accepts exactly the non-empty inputs, counts the distinct ones |
| `Examples` (examples.dfy) | the cases the library's tests exercise, proved on concrete input |
| `KeyCollision` (keys.dfy) | the string key the library actually uses, and an input on which it merges different states |

The builder is a value. Every operation returns a new state, and a refused
insertion returns `Failure(Finalized)` or `Failure(OutOfOrder)` in place of
the thrown string. The caller keeps its old state, which matches the
original: it throws before it changes any field.

Symbols are strings. A string path is the sequence of its one-character
strings (`Order.StringPath`), and an array path is the sequence of its
elements. Symbols are compared character by character by Unicode scalar
value, which stands in for `localeCompare`. The proofs about insertion need
the path order to be lexicographic by symbol: a total order on symbols,
extended element by element, under which the common-prefix loop finds where
a greater path leaves the previous one (`Order.GreaterDiverges`).

Two decisions of the code that the model follows:

- **The empty path.** The empty path compares equal to the initial
  `previous` (`""`), so `add` returns at once (lib/dawg.js:54, 75-79). After
  any other path it is out of order. The root is therefore never final
  (`Examples.AddEmptyPath`).
- **Whole-string comparison.** Two strings are compared as whole strings
  (lib/dawg.js:26-27). `Order.StringCompareAgrees` proves that this agrees
  in sign with comparing their paths symbol by symbol.

`Count` reads the counter. What the counter means is stated by
`Builder.Add`, `Building.AddHistory`, `Building.AddAllSpec` and
`Building.FromSpec`.
`CreateEmptyNode` and `New` are used by the lemmas about them
(`Invariant.InvNew`, `Examples.EmptyBuilder`). The constructor with paths is
`AddAll(New(), paths)`, and `from` is `From`.

## Model

| member | source | states |
|---|---|---|
| Order.CompareSymbolsZero | lib/dawg.js:14-15 | comparing two symbols gives zero exactly when they are equal |
| Order.CompareSymbolsAntisymmetric | lib/dawg.js:14-15 | swapping two symbols negates their comparison |
| Order.SymbolLessTransitive | lib/dawg.js:14-15 | the strict symbol order is transitive |
| Order.ComparePathsZero | dawg.js:61-71 | the default comparator returns zero exactly for equal paths, so only a repeat of `previous` is a no-op |
| Order.ComparePathsAntisymmetric | dawg.js:61-71 | a path orders before another exactly when the other orders after it |
| Order.ComparePathsTransitive | dawg.js:61-71 | the path order is transitive, so a sorted list is ordered pairwise |
| Order.PrefixOrdersFirst | dawg.js:66-70 | a proper prefix orders strictly before every extension of it, because the length difference decides |
| Order.CommonPrefix | lib/dawg.js:81-84 | the count is a shared leading run: both paths agree below it, and where both go on they differ at it |
| Order.GreaterDiverges | lib/dawg.js:75-84 | a path ordered after `previous` goes beyond the common run, and where `previous` also goes on it carries the larger symbol there |
| Order.StringPath | lib/dawg.js:90 | for a string whose characters all lie below U+10000, the path has one symbol per character, in order; there the code-unit split of `add` and the code-point split of `has` coincide |
| Order.StringCompareAgrees | dawg.js:61-62 | comparing two whole strings agrees in sign with comparing their character paths element by element |
| Graph.EncodeInjective | lib/dawg.js:17-22 | two nodes get the same registry key exactly when their final flags and edge maps are equal |
| Graph.WalkConcat | lib/dawg.js:106-114 | reading `u + v` is reading `u` and then `v` from where `u` stopped |
| Graph.MarkFinalAccepts | lib/dawg.js:97 | setting a node's final flag adds exactly the paths that reach that node |
| Graph.DeadEndPreservesAccepts | lib/dawg.js:91-93 | linking a fresh, edgeless, non-final node over a new symbol changes no node's accepted paths |
| Graph.RedirectPreservesAccepts | lib/dawg.js:143-144 | sending an edge to a node with the same final flag and edges as its old target changes no node's accepted paths |
| Builder.MinimizeStep | lib/dawg.js:140-147 | one pop removes exactly the top frontier triple and keeps the root, counter, id supply and `previous` |
| Builder.Minimize | lib/dawg.js:138-149 | `_minimize(k)` leaves exactly `min(k, length)` frontier triples, the bottom ones untouched |
| Builder.Extend | lib/dawg.js:91-93 | one growth step pushes the triple (node, symbol, fresh id) and uses up exactly one id |
| Builder.Grow | lib/dawg.js:88-95 | growing pushes one triple per suffix symbol, carrying that symbol, on top of the untouched old frontier, and ends at the last fresh node |
| Builder.Add | lib/dawg.js:71-101 | refused after freezing and for a path before `previous`; a repeat of `previous` changes nothing; on success `previous` is the path and a new path counts one more |
| Builder.Has | lib/dawg.js:106-114 | true exactly when every edge along the path exists and the node reached is final |
| Builder.Finalize | lib/dawg.js:128-136 | the result is frozen, keeps count, root and `previous`, and drops the frontier and registry |
| Builder.FinalizeIdempotent | lib/dawg.js:128-136 | freezing twice is freezing once, and every later insertion is refused |
| Invariant.InvNew | lib/dawg.js:47-56 | a new builder satisfies the frontier and registry invariant |
| Invariant.FrontierIncreasing | lib/dawg.js:88-94 | node ids increase up the frontier, so its nodes are distinct |
| Invariant.StepInv | lib/dawg.js:139-148 | one pop keeps the invariant, whichever branch (redirect or register) it takes |
| Invariant.StepPreserves | lib/dawg.js:139-148 | one pop changes no accepted path and no registered node |
| Invariant.MinimizeInv | lib/dawg.js:138-149 | minimising to any depth keeps the invariant |
| Invariant.MinimizePreserves | lib/dawg.js:138-149 | minimising never changes the accepted paths, and never changes a registered node or its place in the registry |
| Insertion.ExtendInv | lib/dawg.js:91-94 | one growth step keeps the invariant, the accepted paths and the registered nodes |
| Insertion.GrowInv | lib/dawg.js:88-95 | growing the rest of the path keeps the invariant and makes the frontier as deep as the path, with the last new node on top |
| Insertion.GrowPreserves | lib/dawg.js:88-95 | growing changes neither the accepted paths nor any registered node |
| Adding.FrontierReached | lib/dawg.js:86-95 | reading the first `i` symbols of `previous` from the root ends at the `i`-th frontier node |
| Adding.WalkToFrontier | lib/dawg.js:86-95 | the only path from the root to the `i`-th frontier node is the first `i` symbols of `previous` |
| Adding.TopReachedOnlyByPrevious | lib/dawg.js:97-98 | between insertions the node about to be made final is reached by exactly the path being inserted |
| Adding.MarkTopInv | lib/dawg.js:97-99 | marking the last node final keeps the invariant and adds exactly the new path to the accepted set |
| Adding.AddInv | lib/dawg.js:71-101 | a path after `previous` is accepted; the accepted set becomes the old set plus that path, and no registered node changes |
| Finalizing.MinimizedMinimal | lib/dawg.js:128-149 | with the frontier empty, no two distinct reachable nodes share a final flag and an edge map |
| Finalizing.FinalizeSpec | lib/dawg.js:128-136 | freezing keeps the accepted paths and the count, and leaves the graph minimal in that sense |
| Building.AddAllOrder | dawg.js:96-106 | inserting a list succeeds exactly when the list is sorted after `previous` |
| Building.AddHistory | lib/dawg.js:71-101 | one insertion keeps the last path accepted and nothing ordered after it |
| Building.AddAllSpec | dawg.js:96-106 | inserting a sorted list adds exactly its non-empty paths and counts each new distinct one once |
| Building.Built | dawg.js:83-122 | `new Dawg(paths)` on sorted paths accepts exactly the non-empty paths and counts the distinct ones |
| Building.FromOrder | dawg.js:282-284 | `from` succeeds exactly for sorted input |
| Building.FromSpec | dawg.js:282-284 | for sorted input, `from` accepts exactly the non-empty paths, counts each distinct one once, is frozen, and is minimal |
| Examples.EmptyBuilder | tests/basic.js:6-12 | a new builder and `from([])` have count 0, and a new builder does not hold "a" |
| Examples.AddEmptyPath | lib/dawg.js:75-79 | the empty path is a no-op while `previous` is empty and out of order afterwards |
| Examples.SingleInsert | tests/basic.js:20-28 | one insertion into a new builder holds exactly that path, with count 1 |
| Examples.Refusals | lib/dawg.js:72-77 | "a" after "b" is refused as out of order, and any insertion after freezing is refused |
| Examples.ArrayPathOneSymbol | tests/basic.js:30-34 | `['abc']` is one symbol: it is held, "abc" spelled out is not, and the count is 1 |
| Examples.ArrayPathTwoSymbols | tests/basic.js:36-40 | `['ab', 'c']` is held and `['abc']` is not |
| Examples.TwoWords | tests/basic.js:101-107 | `from(['ab', 'ba'])` holds both, not "a", and counts 2 |
| Examples.SuffixShared | tests/basic.js:109-115 | `from(['abcd', 'bcd'])` holds both and counts 2, and "ab" and "b" lead to the same node |
| KeyCollision.NatToString | lib/dawg.js:20 | a child id is printed as a non-empty run of decimal digits, without a leading zero, whose decimal value is the id |
| KeyCollision.EdgeKeys | lib/dawg.js:19 | the enumerated property names are exactly the node's edge symbols, without repeats, and any two of them appear in the same relative order as in the given enumeration order |
| KeyCollision.EdgeKeysCount | lib/dawg.js:19 | with every edge listed, there is one enumerated name per edge |
| KeyCollision.NoKeysNoEdges | lib/dawg.js:19 | with every edge listed, nothing is enumerated exactly when the node has no edges |
| KeyCollision.EncodeAsWritten | lib/dawg.js:17-22 | given an enumeration order that lists every edge once, the string key starts with the final flag as "0" or "1" and is that one character exactly when the node has no edges |
| KeyCollision.EncodeAsWrittenSegments | lib/dawg.js:17-22 | the key is the flag followed by one `_symbol_id` segment per edge, each edge exactly once |
| KeyCollision.EncodeAsWrittenCollides | lib/dawg.js:17-22 | two nodes with different edges get the same string key |
| KeyCollision.MinimizeStepAsWritten | lib/dawg.js:139-147 | a pop keyed by the string either redirects the parent's edge to the registered node or registers the child; the redirect changes only that one edge of the parent in the arena, the register branch leaves the arena as it was, and in both the root, count, `previous`, next id, frozen flag and structural registry are kept and every edge stays listed in the enumeration order |
| KeyCollision.StepAgrees | lib/dawg.js:141-147 | where the string key finds the node the structural key finds, the as-written pop builds the same graph |
| KeyCollision.InsertionAsWritten | lib/dawg.js:138-148 | on the colliding input the as-written pops made while inserting leave the model's arena and frontier and hold exactly the leaf under "1" and the state reached by "p" under "0_a_2_b_2" |
| KeyCollision.AsWrittenLosesPath | lib/dawg.js:17-22 | on the colliding input the as-written freeze drops an inserted path and accepts one never inserted |
| KeyCollision.StructuralKeepsPath | lib/dawg.js:138-149 | with the structural key the same input keeps exactly the inserted paths |

## Left out

- The traversal layer (`values`, `paths`, `valuesStartingWith`, `match`, iteration) is not part of this model. Only the tests call it, and neither builder file defines it.
- test_dict.js is not modelled: it only reads a word list from a file and prints.
- `localeCompare` collation is replaced by Unicode scalar value order on symbols, which is the same as code-unit order on the basic-plane strings `Order.StringPath` accepts. Locale rules are outside what a proof can fix, and the builder's proofs need the path order to be lexicographic by symbol.
- Input sorted by locale but not character by character is not modelled. The original compares whole strings with `localeCompare` (lib/dawg.js:14-15, 26-27) but grows the graph from the common prefix (lib/dawg.js:81-92). So `from(['ab', 'Ac', 'ad'])` can pass the order check and still overwrite the root's `a` edge, losing "ab". A distinct string that `localeCompare` ranks equal to the previous one (a canonically equivalent spelling) is silently dropped by the `order === 0` return (lib/dawg.js:78-79).
- The caller's `compare` option is not modelled. `Object.assign({}, options, DEFAULT_OPTIONS)` overwrites it with the default (lib/dawg.js:48).
- Comparing a string path with an array path is not modelled: every path is a sequence of symbols. The string branch of the comparator is related to the element-wise one by `Order.StringCompareAgrees`.
- JavaScript property-name artefacts are not modelled: symbols coerced to property names, and prototype keys such as `__proto__`. Edges are a finite map.
- The Babel helpers and iterator clean-up code of dawg.js (lines 1-16 and the `try`/`finally` blocks) carry no behaviour of their own.
- The thrown messages are replaced by the `Error` datatype.
- Object identity and mutation are replaced by an arena of node ids. Nodes bypassed by minimisation stay in the arena, unreachable, where the original leaves them to the garbage collector.
- Finalizing.Minimal: states that no two reachable nodes share a final flag and an edge map, which is what the registry guarantees. It is not the stronger claim that no two reachable nodes accept the same paths. The library does not state that claim, and it does not follow from the registry alone.
- Builder.Has: is proved equal to `Accepts` of the model's arena. It is not proved against JavaScript's `undefined` result for a missing edge on a prototype key.
- KeyCollision.EncodeAsWritten: takes the order in which `Object.keys` enumerates the edges as a parameter (any repetition-free list that covers the edges). The collision is shown for symbol order, the order in which sorted insertion adds edges. JavaScript's rule that integer-like property names come first is not modelled.
- Order.StringPath: models only strings whose characters lie below U+10000. In the original, `add` splits a string by UTF-16 code unit (lib/dawg.js:82-83, 90) while `has` iterates it by code point (lib/dawg.js:108), so a string holding a supplementary character such as U+1F600 is inserted as two surrogate symbols and then never found. Dafny characters are Unicode scalar values and cannot hold lone surrogates, so neither that split nor that mismatch is modelled.

## Findings

| source | as written | input that shows it | evidently intended | confidence | as-written member | corrected member |
|---|---|---|---|---|---|---|
| lib/dawg.js:17-22 | the registry key joins the final flag and `_symbol_id` segments into one string, so symbols containing `_` and digits can make two different nodes share a key, and `_minimize` then merges them | `from([['p','a'], ['p','b'], ['q','a_2_b']])`: the node reached by "p" has edges `{a: 2, b: 2}` and the node reached by "q" has `{a_2_b: 2}`; both get "0_a_2_b_2", so `has(['q','a_2_b'])` is false and `has(['q','a'])` is true | two nodes share a key only when they have the same final flag and the same edges | high (not executed) | KeyCollision.AsWrittenLosesPath, KeyCollision.InsertionAsWritten | Graph.EncodeInjective, KeyCollision.StructuralKeepsPath |
