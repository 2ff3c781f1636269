/** The parse tree of RE_parser.c: fixed-arity nodes whose children live in a
    four-slot array, filled from the lowest free slot and emptied from the top. */
module ParseTree {

  /** Longest content a node can hold, counting the terminating NUL (MAX_CONTENT_LEN). */
  const MaxContentLen := 16
  /** Number of child slots of a node (MAX_CHILDS). */
  const MaxChilds := 4

  /** The value a node stands for: its content and its children, left to right. */
  datatype Tree = Tree(content: string, children: seq<Tree>)

  /** The characters spelled by the leaves of a tree, left to right. */
  function Yield(t: Tree): string
    decreases t, 1
  {
    if t.children == [] then t.content else YieldAll(t.children)
  }

  function YieldAll(ts: seq<Tree>): string
    decreases ts, 0
  {
    if ts == [] then [] else Yield(ts[0]) + YieldAll(ts[1..])
  }

  /** Every node of the tree has at most MaxChilds children and a content that fits its buffer. */
  predicate Fits(t: Tree)
    decreases t
  {
    |t.content| < MaxContentLen &&
    |t.children| <= MaxChilds &&
    forall i :: 0 <= i < |t.children| ==> Fits(t.children[i])
  }

  /** How many of `count` children node_free_last_childs(p, n) leaves in place. */
  function Survivors(count: nat, n: int): nat
  {
    if n >= 1 then (if n < count then count - n else 0)
    else if n == 0 && count < MaxChilds then count
    else 0
  }

  /** A node of the parse tree. Slot i of `childs` holds kids[i] for i < |kids| and null above,
      so the occupied slots always form a prefix. */
  class Node {
    const content: string
    const childs: array<Node?>
    ghost var kids: seq<Node>
    ghost var Model: Tree
    ghost var Repr: set<object>

    ghost predicate Valid()
      reads this, Repr
      decreases Repr
    {
      this in Repr && childs in Repr &&
      childs.Length == MaxChilds &&
      |content| < MaxContentLen &&
      |kids| <= MaxChilds &&
      (forall i :: 0 <= i < MaxChilds ==> childs[i] == if i < |kids| then kids[i] else null) &&
      Model.content == content && |Model.children| == |kids| &&
      (forall i :: 0 <= i < |kids| ==>
         kids[i] in Repr && kids[i].Repr <= Repr &&
         this !in kids[i].Repr && childs !in kids[i].Repr &&
         kids[i].Valid() && kids[i].Model == Model.children[i]) &&
      (forall i, j :: 0 <= i < j < |kids| ==> kids[i].Repr !! kids[j].Repr)
    }

    /** node_new followed by node_init: a node with the given content and every slot empty.
        The source copies the content with strcpy into a 16-byte buffer, so a longer content is
        excluded here instead of overflowing. */
    constructor (content: string)
      requires |content| < MaxContentLen
      ensures Valid() && fresh(Repr)
      ensures this.content == content && kids == [] && Model == Tree(content, [])
      ensures Repr == {this, childs}
    {
      this.content := content;
      childs := new Node?[MaxChilds](_ => null);
      kids := [];
      Model := Tree(content, []);
      new;
      Repr := {this, childs};
    }

    /** node_add_child: store c in the lowest empty slot; with all slots taken, c is dropped. */
    method AddChild(c: Node)
      requires Valid() && c.Valid() && Repr !! c.Repr
      modifies this, childs
      ensures Valid()
      ensures old(|kids|) < MaxChilds ==>
        kids == old(kids) + [c] &&
        Model == Tree(content, old(Model.children) + [c.Model]) &&
        Repr == old(Repr) + c.Repr
      ensures old(|kids|) == MaxChilds ==>
        kids == old(kids) && Model == old(Model) && Repr == old(Repr)
      ensures forall i :: 0 <= i < MaxChilds && i != old(|kids|) ==> childs[i] == old(childs[i])
    {
      var i := 0;
      while i < MaxChilds
        invariant 0 <= i <= |kids|
        invariant forall j :: 0 <= j < MaxChilds ==> childs[j] == old(childs[j])
      {
        if childs[i] == null {
          childs[i] := c;
          kids := kids + [c];
          Model := Tree(content, Model.children + [c.Model]);
          Repr := Repr + c.Repr;
          break;
        }
        i := i + 1;
      }
    }

    /** node_free_last_childs: scan the slots from the top, empty each occupied one and stop
        once n of them are gone. For n >= 1 this drops the last min(n, |kids|) children. The
        source never passes n <= 0; for such n the countdown never stops at zero, so n == 0
        empties the node exactly when the top slot is occupied and n < 0 always empties it.
        A removed child is detached, not recursively cleared: the source releases its storage,
        after which nothing can observe it. */
    method FreeLastChildren(n: int)
      requires Valid()
      modifies this, childs
      ensures Valid() && Repr == old(Repr)
      ensures |kids| == Survivors(old(|kids|), n) && kids == old(kids)[..|kids|]
      ensures Model == Tree(content, old(Model.children)[..|kids|])
    {
      var i := MaxChilds - 1;
      var left := n;
      while i >= 0
        invariant -1 <= i < MaxChilds
        invariant Valid() && Repr == old(Repr)
        invariant |kids| <= i + 1 && |kids| <= old(|kids|) && kids == old(kids)[..|kids|]
        invariant Model == Tree(content, old(Model.children)[..|kids|])
        invariant left == n - (old(|kids|) - |kids|)
        invariant n >= 1 ==> left >= 1
        invariant i < MaxChilds - 1 ==> left != 0
        invariant |kids| < old(|kids|) ==> Survivors(old(|kids|), n) <= |kids|
      {
        if childs[i] != null {
          ReleaseSlot(i);
          left := left - 1;
        }
        if left == 0 {
          return;
        }
        i := i - 1;
      }
    }

    /** One step of node_free_last_childs: empty slot i, the highest occupied one. */
    method ReleaseSlot(i: nat)
      requires Valid() && i + 1 == |kids|
      modifies this, childs
      ensures Valid() && Repr == old(Repr)
      ensures kids == old(kids)[..|old(kids)| - 1]
      ensures Model == Tree(content, old(Model.children)[..|kids|])
    {
      childs[i] := null;
      kids := kids[..i];
      Model := Tree(content, Model.children[..i]);
    }

    /** node_free_childs: clear every child subtree and empty every slot, in slot order. */
    method FreeChildren()
      requires Valid()
      modifies Repr
      ensures Valid() && kids == [] && Model == Tree(content, []) && Repr == old(Repr)
      decreases Repr, 0
    {
      var i := 0;
      while i < MaxChilds
        invariant 0 <= i <= MaxChilds
        invariant kids == old(kids) && Model == old(Model) && Repr == old(Repr)
        invariant forall j :: 0 <= j < MaxChilds ==> childs[j] == if j < i then null else old(childs[j])
        invariant forall j :: i <= j < |kids| ==> kids[j].Valid() && kids[j].Repr == old(kids[j].Repr)
      {
        if childs[i] != null {
          childs[i].Free();
        }
        childs[i] := null;
        i := i + 1;
      }
      kids := [];
      Model := Tree(content, []);
    }

    /** node_free: clear the whole subtree below this node, depth first. Emptying a slot stands
        for releasing what it held; the storage of the node itself is not modelled. */
    method Free()
      requires Valid()
      modifies Repr
      ensures Valid() && kids == [] && Model == Tree(content, []) && Repr == old(Repr)
      decreases Repr, 1
    {
      FreeChildren();
    }
  }
}
