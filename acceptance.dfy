/** What `parse` promises about whole inputs: acceptance means RE consumed every character,
    an accepted input comes with a derivation in the grammar that spells it, and a few inputs
    worked through. */
module Acceptance {
  import opened ParseTree
  import opened Grammar
  import opened Derivation
  import Parser

  /** A C string holds no NUL before its terminator. */
  predicate NoNul(s: string)
  {
    forall i :: 0 <= i < |s| ==> s[i] != '\0'
  }

  /** On a C string, parse accepts exactly when RE matches from index 0 up to the end. */
  lemma AcceptsWhole(s: string)
    requires NoNul(s)
    ensures Accepts(s) <==> ParseRE(s, 0).Some? && ParseRE(s, 0).value.end == |s|
  {
  }

  /** The tree parse leaves under Root for an accepted input has one child, a derivation of
      RE in the grammar whose leaves spell the whole input, and it fits the node layout. */
  lemma AcceptedTree(s: string)
    requires NoNul(s) && Accepts(s)
    ensures var root := Parser.Appended(Tree("Root", []), ParseRE(s, 0));
      |root.children| == 1 && DerivesRE(root.children[0]) &&
      Yield(root.children[0]) == s && Fits(root)
  {
    AcceptsWhole(s);
    ParseRESound(s, 0);
    var t := ParseRE(s, 0).value.tree;
    assert s[0..|s|] == s;
    assert Fits(Tree("Root", [t]));
  }

  /** The empty input is rejected: every alternative of RE starts with a character. */
  lemma EmptyRejected()
    ensures !Accepts("")
  {
  }

  /** "a)": RE matches the symbol only, so the input is rejected at ')', while the RE subtree
      of "a" stays under Root. */
  lemma UnmatchedCloseRejected()
    ensures ParseRE("a)", 0) == Some(Match(Tree("RE", [Leaf("a")]), 1))
    ensures !Accepts("a)")
  {
  }

  /** "(a": the group never closes and no other alternative starts with '('. */
  lemma UnclosedRejected()
    ensures ParseRE("(a", 0) == None
    ensures !Accepts("(a")
  {
  }

  /** "a+b" is accepted as a symbol followed by RE' -> + RE. */
  lemma AlternationAccepted()
    ensures ParseRE("a+b", 0) ==
      Some(Match(Tree("RE", [Leaf("a"), Tree("RE'", [Leaf("+"), Tree("RE", [Leaf("b")])])]), 3))
    ensures Accepts("a+b")
  {
  }

  /** "(a)*" is accepted as a group followed by RE' -> *. */
  lemma GroupStarAccepted()
    ensures ParseRE("(a)*", 0) ==
      Some(Match(Tree("RE", [Leaf("("), Tree("RE", [Leaf("a")]), Leaf(")"), Tree("RE'", [Leaf("*")])]), 4))
    ensures Accepts("(a)*")
  {
    var s := "(a)*";
    assert ParseRE(s, 2) == None;
    assert ParsePrime(s, 2) == None;
    assert ParseRE(s, 1) == Some(Match(Tree("RE", [Leaf("a")]), 2));
    var group := [Leaf("("), Tree("RE", [Leaf("a")]), Leaf(")")];
    assert Group(s, 0) == Some(Span(group, 3));
    assert ParsePrime(s, 4) == None;
    assert ParseRE(s, 3) == None;
    assert TerminalThenPrime(StarMark, s, 3) == None;
    assert ParsePrime(s, 3) == Some(Match(Tree("RE'", [Leaf("*")]), 4));
    assert GroupThenPrime(s, 0) == Some(Span(group + [Tree("RE'", [Leaf("*")])], 4));
    assert TerminalThenPrime(EpsilonMark, s, 0) == None && TerminalThenPrime(SymbolChar, s, 0) == None;
    assert group + [Tree("RE'", [Leaf("*")])] ==
      [Leaf("("), Tree("RE", [Leaf("a")]), Leaf(")"), Tree("RE'", [Leaf("*")])];
  }
}
