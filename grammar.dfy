/** What RE_parser.c recognises, as pure functions: one reference result per nonterminal and
    start position, following the source's ordered choice (the first alternative that succeeds
    is kept). The imperative parser in module Parser is proved to agree with these. */
module Grammar {
  import opened ParseTree

  datatype Option<T> = None | Some(value: T)

  /** A successful match: the tree built for it and the index of the next unread character. */
  datatype Match = Match(tree: Tree, end: nat)

  /** The character the source reads at index i of the NUL-terminated input. */
  function At(s: string, i: nat): char
  {
    if i < |s| then s[i] else '\0'
  }

  datatype Terminal = EpsilonMark | SymbolChar | LeftParen | RightParen | StarMark | PlusMark

  /** The characters `symbol` accepts: underscore, ASCII digits and ASCII letters. */
  predicate IsSymbolChar(c: char)
  {
    c == '_' || ('0' <= c <= '9') || ('A' <= c <= 'Z') || ('a' <= c <= 'z')
  }

  predicate Recognizes(t: Terminal, c: char)
  {
    match t
    case EpsilonMark => c == '#'
    case SymbolChar => IsSymbolChar(c)
    case LeftParen => c == '('
    case RightParen => c == ')'
    case StarMark => c == '*'
    case PlusMark => c == '+'
  }

  /** The content the source gives the leaf of terminal t after reading c. */
  function LeafContent(t: Terminal, c: char): string
  {
    match t
    case EpsilonMark => "#"
    case SymbolChar => [c]
    case LeftParen => "("
    case RightParen => ")"
    case StarMark => "*"
    case PlusMark => "+"
  }

  function Leaf(content: string): Tree
  {
    Tree(content, [])
  }

  /** One terminal matcher at index pos: it reads one character and, on a match, yields one
      leaf and moves to pos + 1. Nothing matches at the end of the input (the NUL). */
  function Scan(t: Terminal, s: string, pos: nat): (r: Option<Match>)
    requires pos <= |s|
    ensures r.Some? <==> pos < |s| && Recognizes(t, s[pos])
    ensures r.Some? ==> r.value == Match(Leaf([s[pos]]), pos + 1)
  {
    var c := At(s, pos);
    if Recognizes(t, c) then Some(Match(Leaf(LeafContent(t, c)), pos + 1)) else None
  }

  /** What one alternative matched: the children it contributes, left to right, and the index
      of the next unread character. */
  datatype Span = Span(trees: seq<Tree>, end: nat)

  /** A one-child span from a single match. */
  function Single(r: Option<Match>): Option<Span>
  {
    if r.Some? then Some(Span([r.value.tree], r.value.end)) else None
  }

  /** The node a nonterminal builds from the alternative that won, if any. */
  function Labelled(content: string, r: Option<Span>): Option<Match>
  {
    if r.Some? then Some(Match(Tree(content, r.value.trees), r.value.end)) else None
  }

  /** Ordered choice of two alternatives: the second is used only when the first fails. */
  function OrElse(a: Option<Span>, b: Option<Span>): Option<Span>
  {
    if a.Some? then a else b
  }

  /** RE at pos. Alternatives, first success wins:
      # RE' | symbol RE' | ( RE ) RE' | ( RE ) | # | symbol. */
  function ParseRE(s: string, pos: nat): (r: Option<Match>)
    requires pos <= |s|
    ensures r.Some? ==> pos < r.value.end <= |s| && r.value.tree.content == "RE"
    decreases |s| - pos, 2
  {
    Labelled("RE",
      OrElse(TerminalThenPrime(EpsilonMark, s, pos),
      OrElse(TerminalThenPrime(SymbolChar, s, pos),
      OrElse(GroupThenPrime(s, pos),
      OrElse(Group(s, pos),
      OrElse(Single(Scan(EpsilonMark, s, pos)),
             Single(Scan(SymbolChar, s, pos))))))))
  }

  /** RE' at pos. Alternatives, first success wins:
      + RE RE' | + RE | * RE' | RE RE' | RE | *. */
  function ParsePrime(s: string, pos: nat): (r: Option<Match>)
    requires pos <= |s|
    ensures r.Some? ==> pos < r.value.end <= |s| && r.value.tree.content == "RE'"
    decreases |s| - pos, 4
  {
    Labelled("RE'",
      OrElse(PlusThenREThenPrime(s, pos),
      OrElse(PlusThenRE(s, pos),
      OrElse(TerminalThenPrime(StarMark, s, pos),
      OrElse(REThenPrime(s, pos),
      OrElse(Single(ParseRE(s, pos)),
             Single(Scan(StarMark, s, pos))))))))
  }

  /** t RE': the alternatives # RE' and symbol RE' of RE, and * RE' of RE'. */
  function TerminalThenPrime(t: Terminal, s: string, pos: nat): (r: Option<Span>)
    requires pos <= |s|
    ensures r.Some? ==> pos < r.value.end <= |s|
    decreases |s| - pos, 0
  {
    var a := Scan(t, s, pos);
    if a.None? then None else
    var rest := ParsePrime(s, pos + 1);
    if rest.None? then None else
    Some(Span([a.value.tree, rest.value.tree], rest.value.end))
  }

  /** ( RE ) RE' */
  function GroupThenPrime(s: string, pos: nat): (r: Option<Span>)
    requires pos <= |s|
    ensures r.Some? ==> pos < r.value.end <= |s|
    decreases |s| - pos, 1
  {
    var g := Group(s, pos);
    if g.None? then None else
    var rest := ParsePrime(s, g.value.end);
    if rest.None? then None else
    Some(Span(g.value.trees + [rest.value.tree], rest.value.end))
  }

  /** ( RE ) */
  function Group(s: string, pos: nat): (r: Option<Span>)
    requires pos <= |s|
    ensures r.Some? ==> pos < r.value.end <= |s| && |r.value.trees| == 3
    decreases |s| - pos, 0
  {
    var open := Scan(LeftParen, s, pos);
    if open.None? then None else
    var inner := ParseRE(s, pos + 1);
    if inner.None? then None else
    var close := Scan(RightParen, s, inner.value.end);
    if close.None? then None else
    Some(Span([open.value.tree, inner.value.tree, close.value.tree], close.value.end))
  }

  /** + RE RE' */
  function PlusThenREThenPrime(s: string, pos: nat): (r: Option<Span>)
    requires pos <= |s|
    ensures r.Some? ==> pos < r.value.end <= |s|
    decreases |s| - pos, 3
  {
    var a := PlusThenRE(s, pos);
    if a.None? then None else
    var rest := ParsePrime(s, a.value.end);
    if rest.None? then None else
    Some(Span(a.value.trees + [rest.value.tree], rest.value.end))
  }

  /** + RE */
  function PlusThenRE(s: string, pos: nat): (r: Option<Span>)
    requires pos <= |s|
    ensures r.Some? ==> pos < r.value.end <= |s| && |r.value.trees| == 2
    decreases |s| - pos, 0
  {
    var plus := Scan(PlusMark, s, pos);
    if plus.None? then None else
    var re := ParseRE(s, pos + 1);
    if re.None? then None else
    Some(Span([plus.value.tree, re.value.tree], re.value.end))
  }

  /** RE RE' */
  function REThenPrime(s: string, pos: nat): (r: Option<Span>)
    requires pos <= |s|
    ensures r.Some? ==> pos < r.value.end <= |s|
    decreases |s| - pos, 3
  {
    var re := ParseRE(s, pos);
    if re.None? then None else
    var rest := ParsePrime(s, re.value.end);
    if rest.None? then None else
    Some(Span([re.value.tree, rest.value.tree], rest.value.end))
  }

  /** parse: RE must match from index 0 and stop at the terminating NUL. */
  predicate Accepts(s: string)
    ensures Accepts(s) ==> |s| > 0
    ensures ParseRE(s, 0).Some? && ParseRE(s, 0).value.end == |s| ==> Accepts(s)
  {
    var r := ParseRE(s, 0);
    r.Some? && At(s, r.value.end) == '\0'
  }

  /** An RE starts with the empty marker, a symbol or an opening parenthesis. */
  lemma REStart(s: string, pos: nat)
    requires pos <= |s|
    ensures ParseRE(s, pos).Some? ==> pos < |s| && (s[pos] == '#' || IsSymbolChar(s[pos]) || s[pos] == '(')
  {
    if !(pos < |s| && (s[pos] == '#' || IsSymbolChar(s[pos]) || s[pos] == '(')) {
      assert Scan(EpsilonMark, s, pos) == None && Scan(SymbolChar, s, pos) == None;
      assert Group(s, pos) == None && GroupThenPrime(s, pos) == None;
      assert TerminalThenPrime(EpsilonMark, s, pos) == None && TerminalThenPrime(SymbolChar, s, pos) == None;
      assert ParseRE(s, pos) == None;
    }
  }

  /** An RE' starts with a plus, a star, or whatever starts an RE. */
  lemma PrimeStart(s: string, pos: nat)
    requires pos <= |s|
    ensures ParsePrime(s, pos).Some? ==>
      pos < |s| && (s[pos] == '+' || s[pos] == '*' || s[pos] == '#' || IsSymbolChar(s[pos]) || s[pos] == '(')
  {
    REStart(s, pos);
    if !(pos < |s| && (s[pos] == '+' || s[pos] == '*' || s[pos] == '#' || IsSymbolChar(s[pos]) || s[pos] == '(')) {
      assert Scan(PlusMark, s, pos) == None && Scan(StarMark, s, pos) == None;
      assert PlusThenRE(s, pos) == None && PlusThenREThenPrime(s, pos) == None;
      assert TerminalThenPrime(StarMark, s, pos) == None && REThenPrime(s, pos) == None;
      assert ParsePrime(s, pos) == None;
    }
  }
}
