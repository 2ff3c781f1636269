/** The backtracking recogniser of RE_parser.c over a shared parse tree. Every matcher takes
    the input, a start index and the node it attaches to; on success it has attached what it
    matched and reports the next index, on failure the node is as it was. Each method is
    proved to agree with the ordered-choice reference of module Grammar. */
module Parser {
  import opened ParseTree
  import opened Grammar

  /** The tree a node stands for after a nonterminal or terminal returned r: the match's tree
      appended as the last child on success, unchanged on failure. */
  function Appended(before: Tree, r: Option<Match>): Tree
  {
    if r.Some? then Tree(before.content, before.children + [r.value.tree]) else before
  }

  /** The tree a node stands for after one alternative returned r: the alternative's children
      appended on success, unchanged on failure. */
  function Extended(before: Tree, r: Option<Span>): Tree
  {
    if r.Some? then Tree(before.content, before.children + r.value.trees) else before
  }

  /** The six terminal matchers epsilon, symbol, lpar, rpar, star and plus, which differ only
      in the character class they test and the content of the leaf they create. */
  method MatchTerminal(t: Terminal, s: string, pos: nat, p: Node) returns (ok: bool, next: nat)
    requires pos <= |s| && p.Valid() && |p.kids| < MaxChilds
    modifies p, p.childs
    ensures p.Valid() && fresh(p.Repr - old(p.Repr))
    ensures ok == Scan(t, s, pos).Some?
    ensures ok ==> next == pos + 1
    ensures !ok ==> next == pos
    ensures p.Model == Appended(old(p.Model), Scan(t, s, pos))
    ensures |p.kids| == old(|p.kids|) + (if ok then 1 else 0)
  {
    var c := At(s, pos);
    if Recognizes(t, c) {
      next := pos + 1;
      var leaf := new Node(LeafContent(t, c));
      p.AddChild(leaf);
      ok := true;
    } else {
      ok, next := false, pos;
    }
  }

  /** RE: build a fresh "RE" node from the first alternative that matches, attach it to p, and
      detach it again when none does. The alternatives run on the fresh node only, so p is
      untouched until the attachment. */
  method RE(s: string, pos: nat, p: Node) returns (ok: bool, end: nat)
    requires pos <= |s| && p.Valid() && |p.kids| < MaxChilds
    modifies p, p.childs
    ensures p.Valid() && fresh(p.Repr - old(p.Repr))
    ensures ok == ParseRE(s, pos).Some?
    ensures ok ==> end == ParseRE(s, pos).value.end
    ensures p.Model == Appended(old(p.Model), ParseRE(s, pos))
    ensures |p.kids| == old(|p.kids|) + (if ok then 1 else 0)
    decreases |s| - pos, 3
  {
    var q := new Node("RE");
    ok, end := REAlternatives(s, pos, q);
    p.AddChild(q);
    if !ok {
      p.FreeLastChildren(1);
    }
  }

  /** RE_prime: the same for a fresh "RE'" node. */
  method REPrime(s: string, pos: nat, p: Node) returns (ok: bool, end: nat)
    requires pos <= |s| && p.Valid() && |p.kids| < MaxChilds
    modifies p, p.childs
    ensures p.Valid() && fresh(p.Repr - old(p.Repr))
    ensures ok == ParsePrime(s, pos).Some?
    ensures ok ==> end == ParsePrime(s, pos).value.end
    ensures p.Model == Appended(old(p.Model), ParsePrime(s, pos))
    ensures |p.kids| == old(|p.kids|) + (if ok then 1 else 0)
    decreases |s| - pos, 6
  {
    var q := new Node("RE'");
    ok, end := PrimeAlternatives(s, pos, q);
    p.AddChild(q);
    if !ok {
      p.FreeLastChildren(1);
    }
  }

  /** The body of RE on its fresh node q: the alternatives in the source's order, each
      starting from the empty node its failed predecessors left behind. */
  method REAlternatives(s: string, pos: nat, q: Node) returns (ok: bool, end: nat)
    requires pos <= |s| && q.Valid() && q.content == "RE" && q.kids == []
    modifies q, q.childs
    ensures q.Valid() && fresh(q.Repr - old(q.Repr))
    ensures ok == ParseRE(s, pos).Some?
    ensures ok ==> end == ParseRE(s, pos).value.end && q.Model == ParseRE(s, pos).value.tree
    ensures !ok ==> q.Model == old(q.Model)
    decreases |s| - pos, 2
  {
    ok, end := MatchTerminalThenPrime(EpsilonMark, s, pos, q);
    if ok { return; }
    ok, end := MatchTerminalThenPrime(SymbolChar, s, pos, q);
    if ok { return; }
    ok, end := MatchGroupThenPrime(s, pos, q);
    if ok { return; }
    ok, end := MatchGroup(s, pos, q);
    if ok { return; }
    ok, end := MatchTerminal(EpsilonMark, s, pos, q);
    if ok { return; }
    ok, end := MatchTerminal(SymbolChar, s, pos, q);
  }

  /** The body of RE_prime on its fresh node q: the alternatives in the source's order, each
      starting from the empty node its failed predecessors left behind. */
  method PrimeAlternatives(s: string, pos: nat, q: Node) returns (ok: bool, end: nat)
    requires pos <= |s| && q.Valid() && q.content == "RE'" && q.kids == []
    modifies q, q.childs
    ensures q.Valid() && fresh(q.Repr - old(q.Repr))
    ensures ok == ParsePrime(s, pos).Some?
    ensures ok ==> end == ParsePrime(s, pos).value.end && q.Model == ParsePrime(s, pos).value.tree
    ensures !ok ==> q.Model == old(q.Model)
    decreases |s| - pos, 5
  {
    ok, end := MatchPlusThenREThenPrime(s, pos, q);
    if ok { return; }
    ok, end := MatchPlusThenRE(s, pos, q);
    if ok { return; }
    ok, end := MatchTerminalThenPrime(StarMark, s, pos, q);
    if ok { return; }
    ok, end := MatchREThenPrime(s, pos, q);
    if ok { return; }
    ok, end := RE(s, pos, q);
    if ok { return; }
    ok, end := MatchTerminal(StarMark, s, pos, q);
  }

  /** The alternatives # RE', symbol RE' and * RE': the terminal, then RE'; when RE' fails the
      terminal's leaf is released again. */
  method MatchTerminalThenPrime(t: Terminal, s: string, pos: nat, q: Node) returns (ok: bool, end: nat)
    requires pos <= |s| && q.Valid() && q.kids == []
    modifies q, q.childs
    ensures q.Valid() && fresh(q.Repr - old(q.Repr))
    ensures ok == TerminalThenPrime(t, s, pos).Some?
    ensures ok ==> end == TerminalThenPrime(t, s, pos).value.end
    ensures q.Model == Extended(old(q.Model), TerminalThenPrime(t, s, pos))
    ensures ok || q.kids == []
    decreases |s| - pos, 0
  {
    var ok1, i1 := MatchTerminal(t, s, pos, q);
    if ok1 {
      ok, end := REPrime(s, i1, q);
      if !ok {
        q.FreeLastChildren(1);
      }
    } else {
      ok, end := false, pos;
    }
  }

  /** The alternative ( RE ) RE': the steps of ( RE ), then RE'; when RE' fails the three
      children of the group are released again (when the group itself fails it has already
      released its 2 or 1 children). */
  method MatchGroupThenPrime(s: string, pos: nat, q: Node) returns (ok: bool, end: nat)
    requires pos <= |s| && q.Valid() && q.kids == []
    modifies q, q.childs
    ensures q.Valid() && fresh(q.Repr - old(q.Repr))
    ensures ok == GroupThenPrime(s, pos).Some?
    ensures ok ==> end == GroupThenPrime(s, pos).value.end
    ensures q.Model == Extended(old(q.Model), GroupThenPrime(s, pos))
    ensures ok || q.kids == []
    decreases |s| - pos, 1
  {
    var ok1, i1 := MatchGroup(s, pos, q);
    if ok1 {
      ok, end := REPrime(s, i1, q);
      if !ok {
        q.FreeLastChildren(3);
      }
    } else {
      ok, end := false, pos;
    }
  }

  /** The alternative ( RE ), undoing 2 or 1 children depending on where it fails. */
  method MatchGroup(s: string, pos: nat, q: Node) returns (ok: bool, end: nat)
    requires pos <= |s| && q.Valid() && q.kids == []
    modifies q, q.childs
    ensures q.Valid() && fresh(q.Repr - old(q.Repr))
    ensures ok == Group(s, pos).Some?
    ensures ok ==> end == Group(s, pos).value.end
    ensures q.Model == Extended(old(q.Model), Group(s, pos))
    ensures ok || q.kids == []
    decreases |s| - pos, 0
  {
    ok, end := false, pos;
    var ok1, i1 := MatchTerminal(LeftParen, s, pos, q);
    if ok1 {
      var ok2, i2 := RE(s, i1, q);
      if ok2 {
        ok, end := MatchTerminal(RightParen, s, i2, q);
        if !ok {
          q.FreeLastChildren(2);
        }
      } else {
        q.FreeLastChildren(1);
      }
    }
  }

  /** The alternative + RE RE': the steps of + RE, then RE'; when RE' fails the plus leaf and
      the RE child are released again. */
  method MatchPlusThenREThenPrime(s: string, pos: nat, q: Node) returns (ok: bool, end: nat)
    requires pos <= |s| && q.Valid() && q.kids == []
    modifies q, q.childs
    ensures q.Valid() && fresh(q.Repr - old(q.Repr))
    ensures ok == PlusThenREThenPrime(s, pos).Some?
    ensures ok ==> end == PlusThenREThenPrime(s, pos).value.end
    ensures q.Model == Extended(old(q.Model), PlusThenREThenPrime(s, pos))
    ensures ok || q.kids == []
    decreases |s| - pos, 4
  {
    var ok1, i1 := MatchPlusThenRE(s, pos, q);
    if ok1 {
      ok, end := REPrime(s, i1, q);
      if !ok {
        q.FreeLastChildren(2);
      }
    } else {
      ok, end := false, pos;
    }
  }

  /** The alternative + RE, undoing the plus leaf when RE fails. */
  method MatchPlusThenRE(s: string, pos: nat, q: Node) returns (ok: bool, end: nat)
    requires pos <= |s| && q.Valid() && q.kids == []
    modifies q, q.childs
    ensures q.Valid() && fresh(q.Repr - old(q.Repr))
    ensures ok == PlusThenRE(s, pos).Some?
    ensures ok ==> end == PlusThenRE(s, pos).value.end
    ensures q.Model == Extended(old(q.Model), PlusThenRE(s, pos))
    ensures ok || q.kids == []
    decreases |s| - pos, 0
  {
    var ok1, i1 := MatchTerminal(PlusMark, s, pos, q);
    if ok1 {
      ok, end := RE(s, i1, q);
      if !ok {
        q.FreeLastChildren(1);
      }
    } else {
      ok, end := false, pos;
    }
  }

  /** The alternative RE RE', undoing the RE child when RE' fails. */
  method MatchREThenPrime(s: string, pos: nat, q: Node) returns (ok: bool, end: nat)
    requires pos <= |s| && q.Valid() && q.kids == []
    modifies q, q.childs
    ensures q.Valid() && fresh(q.Repr - old(q.Repr))
    ensures ok == REThenPrime(s, pos).Some?
    ensures ok ==> end == REThenPrime(s, pos).value.end
    ensures q.Model == Extended(old(q.Model), REThenPrime(s, pos))
    ensures ok || q.kids == []
    decreases |s| - pos, 4
  {
    var ok1, i1 := RE(s, pos, q);
    if ok1 {
      ok, end := REPrime(s, i1, q);
      if !ok {
        q.FreeLastChildren(1);
      }
    } else {
      ok, end := false, pos;
    }
  }

  /** parse: run RE from index 0 under a fresh "Root" node and accept only when it stops at
      the terminating NUL. When RE matches a proper prefix, its subtree stays under Root
      although the input is rejected, as in the source. */
  method Parse(s: string) returns (ok: bool, root: Node)
    ensures root.Valid() && fresh(root.Repr)
    ensures ok == Accepts(s)
    ensures root.Model == Appended(Tree("Root", []), ParseRE(s, 0))
  {
    root := new Node("Root");
    var matched, end := RE(s, 0, root);
    ok := matched && At(s, end) == '\0';
  }
}
