# Regular-expression recogniser of Toy-Compiler, in Dafny

`RE_parser.c` is a recursive-descent parser with backtracking for a small regular-expression
language: `#` (the empty expression), symbols (`_`, ASCII digits and letters), grouping with
parentheses, alternation `+` and the star `*`. The ambiguous grammar
`RE ::= # | symbol | RE + RE | RE RE | RE * | ( RE )` is rewritten without left recursion as

    RE  ::= # RE' | symbol RE' | ( RE ) RE' | ( RE ) | # | symbol
    RE' ::= + RE RE' | + RE | * RE' | RE RE' | RE | *

and each nonterminal is a C function that creates a node, tries the alternatives in that order,
keeps the first one that succeeds and, after a partial match, removes the children that match
had attached before trying the next alternative. The parse tree is built from nodes with a
16-byte content buffer and four child slots.

The model has five modules:

- `ParseTree` (`tree.dfy`): the `Tree` value a node stands for, and the class `Node`. A node's
  four slots are a real `array<Node?>`. Its ghost fields `kids`, `Model` and `Repr` tie the
  heap structure to a `Tree`, and `Valid()` requires the occupied slots to form a prefix. The
  node operations `node_init`, `node_add_child`, `node_free_last_childs`, `node_free_childs`
  and `node_free` are methods of `Node`.
- `Grammar` (`grammar.dfy`): the reference semantics as pure functions. `Scan` covers one
  terminal. Each alternative is a function of its own. `ParseRE` and `ParsePrime` are ordered
  choices among those alternatives, and `Accepts` is the driver.
- `Parser` (`parser.dfy`): the imperative recogniser on `Node`s. It mirrors the C functions
  alternative by alternative, including the rollback counts 1, 2 and 3. Every method is proved
  to leave exactly the tree the reference function predicts, and to leave the node as it found
  it on failure.
- `Derivation` (`derivation.dfy`): the rewritten grammar as predicates on trees. It proves that
  every tree `ParseRE`/`ParsePrime` returns is a derivation in that grammar whose leaves spell
  exactly the characters consumed, and that every node fits in a `Node`.
- `Acceptance` (`acceptance.dfy`): what `parse` promises about whole inputs, and worked
  inputs: `""`, `"a)"` and `"(a"` are rejected; `"a+b"` and `"(a)*"` are accepted.

## Model

| member | source | states |
|---|---|---|
| ParseTree.Node.constructor | RE_parser.c:31-42 | `node_new` + `node_init`: a valid node with the given content (shorter than 16) and all four slots empty |
| ParseTree.Node.AddChild | RE_parser.c:44-54 | the child goes into the lowest empty slot: kids, tree and footprint grow by exactly that child; with all four slots full, nothing changes; the other slots never change |
| ParseTree.Node.FreeLastChildren | RE_parser.c:70-83 | the children become a prefix of the old ones of length `Survivors(count, n)`: max(count - n, 0) for n >= 1; for n == 0 the node empties only if all four slots were full; for n < 0 it always empties; the tree is truncated to match and the node stays valid |
| ParseTree.Node.ReleaseSlot | RE_parser.c:74-79 | emptying the top occupied slot drops exactly the last child and keeps the node valid |
| ParseTree.Node.FreeChildren | RE_parser.c:85-92 | every slot ends up empty and the node is a valid leaf with its content |
| ParseTree.Node.Free | RE_parser.c:56-67 | the whole subtree is cleared and the node is a valid leaf |
| Grammar.Scan | RE_parser.c:112-229 | a terminal matches iff the next character is in its class and is not the end of input; on a match it yields a single leaf spelling that character and advances by one |
| Grammar.ParseRE | RE_parser.c:300-372 | on success the match ends strictly after its start and within the input, and the node is labelled "RE" |
| Grammar.ParsePrime | RE_parser.c:234-297 | on success the match ends strictly after its start and within the input, and the node is labelled "RE'" |
| Grammar.TerminalThenPrime | RE_parser.c:311-327 | the alternatives `# RE'`, `symbol RE'` (and `* RE'`, lines 269-276) consume at least one character and stay within the input |
| Grammar.GroupThenPrime | RE_parser.c:329-346 | `( RE ) RE'` consumes at least one character and stays within the input |
| Grammar.Group | RE_parser.c:348-360 | `( RE )` consumes at least one character, stays within the input and contributes three children |
| Grammar.PlusThenREThenPrime | RE_parser.c:246-258 | `+ RE RE'` consumes at least one character and stays within the input |
| Grammar.PlusThenRE | RE_parser.c:260-267 | `+ RE` consumes at least one character, stays within the input and contributes two children |
| Grammar.REThenPrime | RE_parser.c:278-285 | `RE RE'` consumes at least one character and stays within the input |
| Parser.MatchTerminal | RE_parser.c:112-229 | a terminal succeeds exactly when `Scan` does, then attaches one leaf and returns the next index; on failure the node is unchanged and the index stays at the start |
| Parser.RE | RE_parser.c:300-372 | succeeds exactly when `ParseRE` does, with its end index; attaches exactly the tree `ParseRE` gives, as the one new last child; on failure the caller's node is unchanged |
| Parser.REAlternatives | RE_parser.c:311-368 | the six alternatives tried in order on the fresh "RE" node build exactly `ParseRE`'s tree; on failure the node is back to empty |
| Parser.REPrime | RE_parser.c:234-297 | succeeds exactly when `ParsePrime` does, with its end index; attaches exactly its tree as the one new last child; on failure the caller's node is unchanged |
| Parser.PrimeAlternatives | RE_parser.c:246-293 | the six alternatives tried in order on the fresh "RE'" node build exactly `ParsePrime`'s tree; on failure the node is back to empty |
| Parser.MatchTerminalThenPrime | RE_parser.c:311-327 | `t RE'` succeeds exactly when its reference does and attaches its two children; when RE' fails the leaf is removed again and the node is empty (also `* RE'`, lines 269-276) |
| Parser.MatchGroupThenPrime | RE_parser.c:329-346 | `( RE ) RE'` succeeds exactly when its reference does and attaches its four children; on failure 3, 2 or 1 children are removed and the node is empty |
| Parser.MatchGroup | RE_parser.c:348-360 | `( RE )` succeeds exactly when its reference does and attaches its three children; on failure 2 or 1 children are removed and the node is empty |
| Parser.MatchPlusThenREThenPrime | RE_parser.c:246-258 | `+ RE RE'` succeeds exactly when its reference does; on failure 2 or 1 children are removed and the node is empty |
| Parser.MatchPlusThenRE | RE_parser.c:260-267 | `+ RE` succeeds exactly when its reference does; on failure the plus leaf is removed and the node is empty |
| Parser.MatchREThenPrime | RE_parser.c:278-285 | `RE RE'` succeeds exactly when its reference does; on failure the RE child is removed and the node is empty |
| Parser.Parse | RE_parser.c:374-383 | the result is true iff `Accepts`; Root holds exactly `ParseRE`'s tree from index 0, even when the input is rejected after a proper prefix |
| Derivation.ParseRESound | RE_parser.c:300-372 | every RE match is a derivation of RE in the rewritten grammar of lines 8-10, spells s[pos..end) and fits the node layout (at most 4 children, content shorter than 16) |
| Derivation.ParsePrimeSound | RE_parser.c:234-297 | every RE' match is a derivation of RE' in the rewritten grammar of lines 8-10, spells s[pos..end) and fits the node layout |
| Derivation.AtomThenPrimeSound | RE_parser.c:311-327 | `# RE'` and `symbol RE'` build sound RE trees |
| Derivation.GroupThenPrimeSound | RE_parser.c:329-346 | `( RE ) RE'` builds a sound RE tree |
| Derivation.GroupSound | RE_parser.c:348-360 | `( RE )` builds a sound RE tree |
| Derivation.Parenthesised | RE_parser.c:348-360 | a sound RE between a '(' and a ')' of the input is a sound RE spanning both parentheses |
| Derivation.AtomSound | RE_parser.c:362-368 | `#` and `symbol` alone build sound RE trees |
| Derivation.PlusThenREThenPrimeSound | RE_parser.c:246-258 | `+ RE RE'` builds a sound RE' tree |
| Derivation.PlusThenRESound | RE_parser.c:260-267 | `+ RE` builds a sound RE' tree |
| Derivation.StarThenPrimeSound | RE_parser.c:269-276 | `* RE'` builds a sound RE' tree |
| Derivation.REThenPrimeSound | RE_parser.c:278-285 | `RE RE'` builds a sound RE' tree |
| Derivation.REAloneSound | RE_parser.c:287-289 | `RE` alone builds a sound RE' tree |
| Derivation.StarSound | RE_parser.c:291-293 | `*` alone builds a sound RE' tree |
| Grammar.Accepts | RE_parser.c:374-383 | `parse` accepts only when RE matches from index 0 and the input ends at the match's end; so the empty input is never accepted, and an RE match of the whole input always is |
| Derivation.DerivesRE | RE_parser.c:9 | the rewritten RE rule as a predicate on trees; every RE node it admits has between 1 and 4 children, so it fits a node's slots |
| Derivation.DerivesPrime | RE_parser.c:10 | the rewritten RE' rule as a predicate on trees; every RE' node it admits has between 1 and 3 children |
| Acceptance.AcceptsWhole | RE_parser.c:374-383 | on a C string (no NUL inside), parse accepts iff RE matches from 0 exactly up to the end of the input |
| Acceptance.AcceptedTree | RE_parser.c:374-383 | for an accepted input, Root has one child, a derivation of RE whose leaves spell the whole input, and the tree fits the node layout |
| Acceptance.EmptyRejected | RE_parser.c:374-383 | the empty input is rejected |
| Acceptance.UnmatchedCloseRejected | RE_parser.c:366-368 | on "a)" RE matches only "a" (one leaf, end 1), so the input is rejected |
| Acceptance.UnclosedRejected | RE_parser.c:329-360 | on "(a" no alternative of RE matches, so the input is rejected |
| Acceptance.AlternationAccepted | RE_parser.c:260-267 | "a+b" is accepted, as a symbol followed by RE' -> + RE |
| Acceptance.GroupStarAccepted | RE_parser.c:329-346 | "(a)*" is accepted, as a group followed by RE' -> * |
| Grammar.REStart | RE_parser.c:311-368 | an RE match starts with '#', a symbol character or '(' |
| Grammar.PrimeStart | RE_parser.c:246-293 | an RE' match starts with '+', '*' or a character that starts an RE |

## Left out

- `main` and `tree_print` are I/O. Storage allocation and release (`malloc`, `free`) is not modelled. Emptying a slot stands for releasing what it held.
- The prototypes in `RE_parser.h` that `RE_parser.c` never defines are not part of this model.
- ParseTree.Node.constructor: requires content shorter than 16 characters, where the source's `strcpy` would overflow. Every content the parser uses is at most 4 characters.
- Parser.RE, Parser.REPrime and Parser.MatchTerminal: require the caller's node to have a free slot. With all four slots full, the source would drop the new node and its failure path would remove an unrelated child. Each call site is proved to meet this requirement, so the overflow never happens.
- Parser.RE, Parser.REPrime: the new node is attached to the caller's node after its alternatives ran, not before. Nothing reads the caller's node in between, so the resulting tree is the same.
- Parser.MatchGroupThenPrime, Parser.MatchPlusThenREThenPrime: the source repeats the steps of `( RE )` and `+ RE` inline. The model calls the shared method instead, with the same calls, order and rollback counts.
- ParseTree.Node.FreeLastChildren: detaches the removed children but does not recursively empty their slots the way `node_free` does. The source releases that storage right away, so nothing can observe it afterwards.
- ParseTree.Node.Free, ParseTree.Node.FreeChildren: state the emptied node and that it stays valid, not the state of the released descendants.
- Parser.RE, Parser.REPrime and the alternative methods: the source leaves the out-index untouched when a matcher fails. Every call that receives it is the last step of its alternative, and the terminals write it only when they match. No caller reads the out-index after a failure, so the model's `end` has no meaning on failure. Only `Parser.MatchTerminal` pins it, to the start index.
- Parser.Parse: returns a fresh Root node instead of initialising storage the caller passed in.
- Indices are unbounded naturals. The source's `int` indices would overflow only for inputs of more than 2^31 characters.
- The input is a Dafny string. A NUL character inside it ends the input as far as every terminal is concerned, just as it ends the C string. `Acceptance.AcceptsWhole` assumes a string without NUL.
