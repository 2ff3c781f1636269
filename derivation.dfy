/** The grammar of RE_parser.c with left recursion removed, as predicates on trees, and the
    proof that every tree the ordered-choice parser returns is a derivation in it whose
    leaves spell exactly the characters consumed. */
module Derivation {
  import opened ParseTree
  import opened Grammar

  predicate IsSymbolLeaf(t: Tree)
  {
    t.children == [] && |t.content| == 1 && IsSymbolChar(t.content[0])
  }

  /** A leaf that starts RE: the empty marker or a symbol. */
  predicate IsAtomLeaf(t: Tree)
  {
    t == Leaf("#") || IsSymbolLeaf(t)
  }

  /** RE ::= # | # RE' | symbol | symbol RE' | ( RE ) | ( RE ) RE' */
  predicate DerivesRE(t: Tree)
    ensures DerivesRE(t) ==> 1 <= |t.children| <= MaxChilds
    decreases t, 0
  {
    var k := t.children;
    t.content == "RE" &&
    ((|k| == 1 && IsAtomLeaf(k[0])) ||
     (|k| == 2 && IsAtomLeaf(k[0]) && DerivesPrime(k[1])) ||
     (|k| == 3 && k[0] == Leaf("(") && DerivesRE(k[1]) && k[2] == Leaf(")")) ||
     (|k| == 4 && k[0] == Leaf("(") && DerivesRE(k[1]) && k[2] == Leaf(")") && DerivesPrime(k[3])))
  }

  /** RE' ::= + RE | + RE RE' | RE | RE RE' | * | * RE' */
  predicate DerivesPrime(t: Tree)
    ensures DerivesPrime(t) ==> 1 <= |t.children| < MaxChilds
    decreases t, 1
  {
    var k := t.children;
    t.content == "RE'" &&
    ((|k| == 2 && k[0] == Leaf("+") && DerivesRE(k[1])) ||
     (|k| == 3 && k[0] == Leaf("+") && DerivesRE(k[1]) && DerivesPrime(k[2])) ||
     (|k| == 1 && DerivesRE(k[0])) ||
     (|k| == 2 && DerivesRE(k[0]) && DerivesPrime(k[1])) ||
     (|k| == 1 && k[0] == Leaf("*")) ||
     (|k| == 2 && k[0] == Leaf("*") && DerivesPrime(k[1])))
  }

  /** What a successful match promises: a derivation of the right nonterminal, whose leaves
      spell s[pos..end), and whose every node fits a Node (at most 4 children, short label). */
  predicate SoundRE(s: string, pos: nat, r: Option<Match>)
    requires pos <= |s|
  {
    r.Some? ==>
      r.value.end <= |s| && pos <= r.value.end &&
      DerivesRE(r.value.tree) && Yield(r.value.tree) == s[pos..r.value.end] && Fits(r.value.tree)
  }

  predicate SoundPrime(s: string, pos: nat, r: Option<Match>)
    requires pos <= |s|
  {
    r.Some? ==>
      r.value.end <= |s| && pos <= r.value.end &&
      DerivesPrime(r.value.tree) && Yield(r.value.tree) == s[pos..r.value.end] && Fits(r.value.tree)
  }

  lemma Yield1(content: string, a: Tree)
    ensures Yield(Tree(content, [a])) == Yield(a)
  {
    assert [a][1..] == [];
    assert YieldAll([a]) == Yield(a) + YieldAll([]);
  }

  lemma Yield2(content: string, a: Tree, b: Tree)
    ensures Yield(Tree(content, [a, b])) == Yield(a) + Yield(b)
  {
    assert [a, b][1..] == [b];
    assert [b][1..] == [];
    assert YieldAll([b]) == Yield(b) + YieldAll([]);
    assert YieldAll([a, b]) == Yield(a) + YieldAll([b]);
  }

  lemma Yield3(content: string, a: Tree, b: Tree, c: Tree)
    ensures Yield(Tree(content, [a, b, c])) == Yield(a) + Yield(b) + Yield(c)
  {
    assert [a, b, c][1..] == [b, c];
    assert [b, c][1..] == [c];
    assert [c][1..] == [];
    assert YieldAll([c]) == Yield(c) + YieldAll([]);
    assert YieldAll([b, c]) == Yield(b) + YieldAll([c]);
    assert YieldAll([a, b, c]) == Yield(a) + YieldAll([b, c]);
  }

  lemma Yield4(content: string, a: Tree, b: Tree, c: Tree, d: Tree)
    ensures Yield(Tree(content, [a, b, c, d])) == Yield(a) + Yield(b) + Yield(c) + Yield(d)
  {
    assert [a, b, c, d][1..] == [b, c, d];
    assert [b, c, d][1..] == [c, d];
    assert [c, d][1..] == [d];
    assert [d][1..] == [];
    assert YieldAll([d]) == Yield(d) + YieldAll([]);
    assert YieldAll([c, d]) == Yield(c) + YieldAll([d]);
    assert YieldAll([b, c, d]) == Yield(b) + YieldAll([c, d]);
    assert YieldAll([a, b, c, d]) == Yield(a) + YieldAll([b, c, d]);
  }

  lemma Slices(s: string, i: nat, j: nat, k: nat)
    requires i <= j <= k <= |s|
    ensures s[i..k] == s[i..j] + s[j..k]
  {
  }

  // Each alternative of RE and RE' is sound, by mutual induction with the nonterminals.

  /** RE -> # RE' and RE -> symbol RE' */
  lemma {:induction false} AtomThenPrimeSound(t: Terminal, s: string, pos: nat)
    requires pos <= |s| && (t == EpsilonMark || t == SymbolChar)
    ensures SoundRE(s, pos, Labelled("RE", TerminalThenPrime(t, s, pos)))
    decreases |s| - pos, 0
  {
    if TerminalThenPrime(t, s, pos).Some? {
      var rest := ParsePrime(s, pos + 1).value;
      ParsePrimeSound(s, pos + 1);
      Yield2("RE", Leaf([s[pos]]), rest.tree);
      Slices(s, pos, pos + 1, rest.end);
    }
  }

  /** A parenthesised sound RE is a sound RE. */
  lemma Parenthesised(s: string, pos: nat, inner: Match)
    requires pos < |s| && s[pos] == '('
    requires SoundRE(s, pos + 1, Some(inner)) && inner.end < |s| && s[inner.end] == ')'
    ensures SoundRE(s, pos, Some(Match(Tree("RE", [Leaf("("), inner.tree, Leaf(")")]), inner.end + 1)))
  {
    Yield3("RE", Leaf("("), inner.tree, Leaf(")"));
    assert Fits(Leaf("(")) && Fits(Leaf(")"));
    Slices(s, pos, pos + 1, inner.end + 1);
    Slices(s, pos + 1, inner.end, inner.end + 1);
  }

  /** RE -> ( RE ) */
  lemma {:induction false} GroupSound(s: string, pos: nat)
    requires pos <= |s|
    ensures SoundRE(s, pos, Labelled("RE", Group(s, pos)))
    decreases |s| - pos, 0
  {
    if Group(s, pos).Some? {
      var inner := ParseRE(s, pos + 1).value;
      assert Group(s, pos).value == Span([Leaf("("), inner.tree, Leaf(")")], inner.end + 1);
      ParseRESound(s, pos + 1);
      Parenthesised(s, pos, inner);
    }
  }

  /** RE -> ( RE ) RE' */
  lemma {:induction false} GroupThenPrimeSound(s: string, pos: nat)
    requires pos <= |s|
    ensures SoundRE(s, pos, Labelled("RE", GroupThenPrime(s, pos)))
    decreases |s| - pos, 1
  {
    if GroupThenPrime(s, pos).Some? {
      var g := Group(s, pos).value;
      var inner := ParseRE(s, pos + 1).value;
      var rest := ParsePrime(s, g.end).value;
      assert g == Span([Leaf("("), inner.tree, Leaf(")")], inner.end + 1);
      assert GroupThenPrime(s, pos).value.trees == [Leaf("("), inner.tree, Leaf(")"), rest.tree];
      GroupSound(s, pos);
      ParsePrimeSound(s, g.end);
      Yield3("RE", Leaf("("), inner.tree, Leaf(")"));
      Yield4("RE", Leaf("("), inner.tree, Leaf(")"), rest.tree);
      Slices(s, pos, g.end, rest.end);
    }
  }

  /** RE -> # and RE -> symbol */
  lemma AtomSound(t: Terminal, s: string, pos: nat)
    requires pos <= |s| && (t == EpsilonMark || t == SymbolChar)
    ensures SoundRE(s, pos, Labelled("RE", Single(Scan(t, s, pos))))
  {
    if Scan(t, s, pos).Some? {
      Yield1("RE", Leaf([s[pos]]));
      assert Fits(Leaf([s[pos]]));
    }
  }

  /** RE' -> + RE */
  lemma {:induction false} PlusThenRESound(s: string, pos: nat)
    requires pos <= |s|
    ensures SoundPrime(s, pos, Labelled("RE'", PlusThenRE(s, pos)))
    decreases |s| - pos, 0
  {
    if PlusThenRE(s, pos).Some? {
      var re := ParseRE(s, pos + 1).value;
      ParseRESound(s, pos + 1);
      Yield2("RE'", Leaf("+"), re.tree);
      assert Fits(Leaf("+"));
      Slices(s, pos, pos + 1, re.end);
    }
  }

  /** RE' -> + RE RE' */
  lemma {:induction false} PlusThenREThenPrimeSound(s: string, pos: nat)
    requires pos <= |s|
    ensures SoundPrime(s, pos, Labelled("RE'", PlusThenREThenPrime(s, pos)))
    decreases |s| - pos, 3
  {
    if PlusThenREThenPrime(s, pos).Some? {
      var a := PlusThenRE(s, pos).value;
      var re := ParseRE(s, pos + 1).value;
      var rest := ParsePrime(s, a.end).value;
      assert a == Span([Leaf("+"), re.tree], re.end);
      assert PlusThenREThenPrime(s, pos).value.trees == [Leaf("+"), re.tree, rest.tree];
      ParseRESound(s, pos + 1);
      ParsePrimeSound(s, a.end);
      Yield3("RE'", Leaf("+"), re.tree, rest.tree);
      assert Fits(Leaf("+"));
      Slices(s, pos, pos + 1, rest.end);
      Slices(s, pos + 1, re.end, rest.end);
    }
  }

  /** RE' -> * RE' */
  lemma {:induction false} StarThenPrimeSound(s: string, pos: nat)
    requires pos <= |s|
    ensures SoundPrime(s, pos, Labelled("RE'", TerminalThenPrime(StarMark, s, pos)))
    decreases |s| - pos, 0
  {
    if TerminalThenPrime(StarMark, s, pos).Some? {
      var rest := ParsePrime(s, pos + 1).value;
      ParsePrimeSound(s, pos + 1);
      Yield2("RE'", Leaf("*"), rest.tree);
      Slices(s, pos, pos + 1, rest.end);
    }
  }

  /** RE' -> RE RE' */
  lemma {:induction false} REThenPrimeSound(s: string, pos: nat)
    requires pos <= |s|
    ensures SoundPrime(s, pos, Labelled("RE'", REThenPrime(s, pos)))
    decreases |s| - pos, 3
  {
    if REThenPrime(s, pos).Some? {
      var re := ParseRE(s, pos).value;
      var rest := ParsePrime(s, re.end).value;
      ParseRESound(s, pos);
      ParsePrimeSound(s, re.end);
      Yield2("RE'", re.tree, rest.tree);
      Slices(s, pos, re.end, rest.end);
    }
  }

  /** RE' -> RE */
  lemma {:induction false} REAloneSound(s: string, pos: nat)
    requires pos <= |s|
    ensures SoundPrime(s, pos, Labelled("RE'", Single(ParseRE(s, pos))))
    decreases |s| - pos, 3
  {
    if ParseRE(s, pos).Some? {
      ParseRESound(s, pos);
      Yield1("RE'", ParseRE(s, pos).value.tree);
    }
  }

  /** RE' -> * */
  lemma StarSound(s: string, pos: nat)
    requires pos <= |s|
    ensures SoundPrime(s, pos, Labelled("RE'", Single(Scan(StarMark, s, pos))))
  {
    if Scan(StarMark, s, pos).Some? {
      Yield1("RE'", Leaf("*"));
    }
  }

  /** Every result of RE is sound: whichever alternative wins, it is one of the sound ones. */
  lemma {:induction false} ParseRESound(s: string, pos: nat)
    requires pos <= |s|
    ensures SoundRE(s, pos, ParseRE(s, pos))
    decreases |s| - pos, 2
  {
    AtomThenPrimeSound(EpsilonMark, s, pos);
    AtomThenPrimeSound(SymbolChar, s, pos);
    GroupThenPrimeSound(s, pos);
    GroupSound(s, pos);
    AtomSound(EpsilonMark, s, pos);
    AtomSound(SymbolChar, s, pos);
  }

  /** Every result of RE' is sound. */
  lemma {:induction false} ParsePrimeSound(s: string, pos: nat)
    requires pos <= |s|
    ensures SoundPrime(s, pos, ParsePrime(s, pos))
    decreases |s| - pos, 4
  {
    PlusThenREThenPrimeSound(s, pos);
    PlusThenRESound(s, pos);
    StarThenPrimeSound(s, pos);
    REThenPrimeSound(s, pos);
    REAloneSound(s, pos);
    StarSound(s, pos);
  }
}
