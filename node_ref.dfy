/**
 * `NodeRef`: a handle read through a shared borrow of the arena, with the
 * read-only queries on it, the depth-first edge walk (`Traverse`) and the
 * cursor over the text of a subtree (`Text`).
 */
module NodeRefs {
  import opened Wrappers
  import opened Nodes
  import opened Trees
  import opened TreeFacts

  datatype NodeRef = NodeRef(tree: Tree, id: Handle) {
    /** `PartialEq`: two references are equal when they hold the same handle. */
    predicate Same(other: NodeRef) {
      id == other.id
    }
  }

  /**
   * Equality of references is an equivalence, and it ignores what the
   * arenas behind the two references hold.
   */
  lemma SameIsEquivalence(a: NodeRef, b: NodeRef, c: NodeRef, t: Tree)
    ensures a.Same(a)
    ensures a.Same(b) ==> b.Same(a)
    ensures a.Same(b) && b.Same(c) ==> a.Same(c)
    ensures a.Same(b) <==> NodeRef(t, a.id).Same(b)
  {
  }

  /** `node_type()`: a name for the node's kind; an element gives its local name. */
  function NodeType(r: NodeRef): (s: string)
    requires Resolves(r.tree, r.id)
    ensures var n := NodeOf(r.tree, r.id);
      && (n.IsComment() ==> s == "comment")
      && (n.IsDoctype() ==> s == "doctype")
      && (n.IsFragment() ==> s == "fragment")
      && (n.IsText() ==> s == "text")
      && (n.IsElement() ==> s == n.element.name.local)
      && (n.IsDocument() || n.ProcessingInstructionNode? ==> s == "")
  {
    match NodeOf(r.tree, r.id)
    case CommentNode(_) => "comment"
    case DoctypeNode(_) => "doctype"
    case ElementNode(el) => el.Name()
    case FragmentNode => "fragment"
    case TextNode(_) => "text"
    case _ => ""
  }

  /**
   * `parent()`: the reference to the node's parent, over the same arena;
   * that parent lists the node among its children.
   */
  function ParentRef(r: NodeRef): (p: Option<NodeRef>)
    requires Wf(r.tree) && Resolves(r.tree, r.id)
    ensures p.None? <==> Parent(r.tree, r.id).None?
    ensures p.Some? ==>
      p.value.tree == r.tree && Resolves(r.tree, p.value.id)
      && Parent(r.tree, r.id) == Some(p.value.id) && r.id in Children(r.tree, p.value.id)
  {
    match Parent(r.tree, r.id)
    case None => None
    case Some(q) =>
      ParentFacts(r.tree, r.id);
      Some(NodeRef(r.tree, q))
  }

  /** `attr()`: an element's attribute in the empty namespace; nothing for any other node. */
  function AttrOf(r: NodeRef, name: string): (v: Option<string>)
    requires Resolves(r.tree, r.id)
    ensures !NodeOf(r.tree, r.id).IsElement() ==> v.None?
    ensures v.Some? <==> NodeOf(r.tree, r.id).IsElement() && QualName(None, NoNamespace, name) in NodeOf(r.tree, r.id).element.attrs
    ensures v.Some? ==> v.value == NodeOf(r.tree, r.id).element.attrs[QualName(None, NoNamespace, name)]
  {
    match NodeOf(r.tree, r.id).AsElement()
    case Some(element) => element.Attr(name)
    case None => None
  }

  /** Every edge of the walk of `h` belongs to a node of the subtree of `h`. */
  lemma {:induction false} WalkNodes(t: Tree, h: Handle)
    requires Wf(t) && Resolves(t, h)
    ensures forall e | e in Traverse(t, h) :: e.node in PreOrder(t, h)
    decreases Rank(t)[h.index] + 1, 0, 0
  {
    ChildrenBound(t, h);
    ForestWalkNodes(t, Children(t, h));
  }

  lemma {:induction false} ForestWalkNodes(t: Tree, hs: seq<Handle>)
    requires Wf(t) && forall c | c in hs :: Resolves(t, c)
    ensures forall e | e in TraverseForest(t, hs) :: e.node in Forest(t, hs)
    decreases RankBound(t, hs), 1, |hs|
  {
    if hs != [] {
      assert hs[0] in hs;
      WalkNodes(t, hs[0]);
      ForestWalkNodes(t, hs[1..]);
    }
  }

  /** The walk has two edges per node of the subtree. */
  lemma {:induction false} WalkLength(t: Tree, h: Handle)
    requires Wf(t) && Resolves(t, h)
    ensures |Traverse(t, h)| == 2 * |PreOrder(t, h)|
    decreases Rank(t)[h.index] + 1, 0, 0
  {
    ChildrenBound(t, h);
    ForestWalkLength(t, Children(t, h));
  }

  lemma {:induction false} ForestWalkLength(t: Tree, hs: seq<Handle>)
    requires Wf(t) && forall c | c in hs :: Resolves(t, c)
    ensures |TraverseForest(t, hs)| == 2 * |Forest(t, hs)|
    decreases RankBound(t, hs), 1, |hs|
  {
    if hs != [] {
      assert hs[0] in hs;
      WalkLength(t, hs[0]);
      ForestWalkLength(t, hs[1..]);
    }
  }

  /**
   * Proper nesting: the walk of every node `x` of the subtree of `h` is one
   * contiguous stretch of the walk of `h`, so `x` is opened before all the
   * edges of its descendants and closed after them.
   */
  lemma {:induction false} SubWalk(t: Tree, h: Handle, x: Handle) returns (a: seq<Edge>, b: seq<Edge>)
    requires Wf(t) && Resolves(t, h) && x in PreOrder(t, h)
    ensures Resolves(t, x) && Traverse(t, h) == a + Traverse(t, x) + b
    decreases Rank(t)[h.index] + 1, 0, 0
  {
    if x == h {
      a, b := [], [];
    } else {
      ChildrenBound(t, h);
      var inner := TraverseForest(t, Children(t, h));
      assert Traverse(t, h) == [Open(h)] + inner + [Close(h)];
      var a', b' := ForestSubWalk(t, Children(t, h), x);
      a, b := [Open(h)] + a', b' + [Close(h)];
      SeqRegroup([Open(h)], a', Traverse(t, x), b', [Close(h)]);
    }
  }

  lemma SeqRegroup<T>(p: seq<T>, a: seq<T>, w: seq<T>, b: seq<T>, q: seq<T>)
    ensures p + (a + w + b) + q == (p + a) + w + (b + q)
  {
  }

  lemma SeqRegroupRight<T>(a: seq<T>, w: seq<T>, b: seq<T>, q: seq<T>)
    ensures (a + w + b) + q == a + w + (b + q)
  {
  }

  lemma SeqRegroupLeft<T>(p: seq<T>, a: seq<T>, w: seq<T>, b: seq<T>)
    ensures p + (a + w + b) == (p + a) + w + b
  {
  }

  lemma {:induction false} ForestSubWalk(t: Tree, hs: seq<Handle>, x: Handle) returns (a: seq<Edge>, b: seq<Edge>)
    requires Wf(t) && (forall c | c in hs :: Resolves(t, c)) && x in Forest(t, hs)
    ensures Resolves(t, x) && TraverseForest(t, hs) == a + Traverse(t, x) + b
    decreases RankBound(t, hs), 1, |hs|
  {
    assert hs[0] in hs;
    var first := Traverse(t, hs[0]);
    var rest := TraverseForest(t, hs[1..]);
    assert TraverseForest(t, hs) == first + rest;
    if x in PreOrder(t, hs[0]) {
      var a', b' := SubWalk(t, hs[0], x);
      a, b := a', b' + rest;
      SeqRegroupRight(a', Traverse(t, x), b', rest);
    } else {
      assert x in Forest(t, hs[1..]);
      var a', b' := ForestSubWalk(t, hs[1..], x);
      a, b := first + a', b';
      SeqRegroupLeft(first, a', Traverse(t, x), b');
    }
  }

  /**
   * The walk of `h` opens every node of its subtree once, in pre-order,
   * closes exactly those nodes, and has no other edge.
   */
  lemma WalkShape(t: Tree, h: Handle)
    requires Wf(t) && Resolves(t, h)
    ensures Opens(Traverse(t, h)) == PreOrder(t, h) && NoDup(PreOrder(t, h))
    ensures |Traverse(t, h)| == 2 * |PreOrder(t, h)|
    ensures forall x :: Close(x) in Traverse(t, h) <==> x in PreOrder(t, h)
    ensures forall x :: Open(x) in Traverse(t, h) <==> x in PreOrder(t, h)
  {
    OpensTraverse(t, h);
    PreOrderNoDup(t, h);
    WalkLength(t, h);
    WalkNodes(t, h);
    forall x | x in PreOrder(t, h) ensures Close(x) in Traverse(t, h) && Open(x) in Traverse(t, h) {
      var a, b := SubWalk(t, h, x);
      var w := Traverse(t, x);
      assert Traverse(t, h)[|a| + |w| - 1] == w[|w| - 1];
      assert Traverse(t, h)[|a|] == w[0];
    }
    forall x | Close(x) in Traverse(t, h) ensures x in PreOrder(t, h) {
      assert Close(x).node == x;
    }
    forall x | Open(x) in Traverse(t, h) ensures x in PreOrder(t, h) {
      assert Open(x).node == x;
    }
  }

  /**
   * The `Traverse` iterator: a cursor over the edges of the walk that are
   * still to come.
   */
  class EdgeWalk {
    var rest: seq<Edge>

    constructor (t: Tree, h: Handle)
      requires Wf(t) && Resolves(t, h)
      ensures rest == Traverse(t, h)
    {
      rest := Traverse(t, h);
    }

    /** `next()`: the next edge, or nothing once the walk is over. */
    method Next() returns (e: Option<Edge>)
      modifies this
      ensures old(rest) == [] ==> e.None? && rest == []
      ensures old(rest) != [] ==> e == Some(old(rest)[0]) && rest == old(rest)[1..]
    {
      if rest == [] {
        e := None;
      } else {
        e := Some(rest[0]);
        rest := rest[1..];
      }
    }
  }

  /** The text nodes opened along a walk, in order. */
  function TextOpens(t: Tree, es: seq<Edge>): (r: seq<Handle>)
    requires forall e | e in es :: Resolves(t, e.node)
    ensures forall x | x in r :: Resolves(t, x) && NodeOf(t, x).IsText()
  {
    if es == [] then []
    else if es[0].Open? && NodeOf(t, es[0].node).IsText() then [es[0].node] + TextOpens(t, es[1..])
    else TextOpens(t, es[1..])
  }

  /** The text nodes among `hs`, in order. */
  function TextNodes(t: Tree, hs: seq<Handle>): (r: seq<Handle>)
    requires forall x | x in hs :: Resolves(t, x)
    ensures forall x :: x in r <==> x in hs && NodeOf(t, x).IsText()
    ensures NoDup(hs) ==> NoDup(r)
  {
    if hs == [] then []
    else
      var rest := TextNodes(t, hs[1..]);
      if NoDup(hs) then
        NoDupTail(hs);
        assert hs[0] !in hs[1..] by {
          forall j | 0 <= j < |hs[1..]| ensures hs[1..][j] != hs[0] {
            assert hs[1..][j] == hs[j + 1];
          }
        }
        if NodeOf(t, hs[0]).IsText() then NoDupAppend([hs[0]], rest); [hs[0]] + rest else rest
      else if NodeOf(t, hs[0]).IsText() then [hs[0]] + rest else rest
  }

  /** The text nodes opened along a walk are the text nodes among the nodes it opens. */
  lemma {:induction false} TextOpensOfOpens(t: Tree, es: seq<Edge>)
    requires forall e | e in es :: Resolves(t, e.node)
    ensures forall x | x in Opens(es) :: Resolves(t, x)
    ensures TextOpens(t, es) == TextNodes(t, Opens(es))
  {
    if es != [] {
      TextOpensOfOpens(t, es[1..]);
    }
  }

  /**
   * The text nodes the walk of `h` reaches are the text nodes of its
   * subtree in pre-order, each once, and no other node.
   */
  lemma WalkTexts(t: Tree, h: Handle)
    requires Wf(t) && Resolves(t, h)
    ensures TextOpens(t, Traverse(t, h)) == TextNodes(t, PreOrder(t, h))
    ensures NoDup(TextOpens(t, Traverse(t, h)))
    ensures forall x :: x in TextOpens(t, Traverse(t, h)) <==> x in PreOrder(t, h) && NodeOf(t, x).IsText()
  {
    TextOpensOfOpens(t, Traverse(t, h));
    OpensTraverse(t, h);
    PreOrderNoDup(t, h);
  }

  /** The content of a text node. */
  function TextOf(t: Tree, x: Handle): string
    requires Resolves(t, x) && NodeOf(t, x).IsText()
  {
    NodeOf(t, x).text.text
  }

  /** The `Text` iterator: it pulls edges from the walk until it opens a text node. */
  class TextWalk {
    const tree: Tree
    const inner: EdgeWalk

    ghost predicate Valid()
      reads this, inner
    {
      forall e | e in inner.rest :: Resolves(tree, e.node)
    }

    /** `NodeRef::text()` */
    constructor (t: Tree, h: Handle)
      requires Wf(t) && Resolves(t, h)
      ensures Valid() && tree == t && fresh(inner)
      ensures TextOpens(tree, inner.rest) == TextNodes(t, PreOrder(t, h))
    {
      tree := t;
      inner := new EdgeWalk(t, h);
      new;
      WalkTexts(t, h);
    }

    /**
     * `next()`: the content of the next text node of the walk, which the
     * cursor then lies beyond; nothing when no text node is left.
     */
    method Next() returns (s: Option<string>)
      requires Valid()
      modifies inner
      ensures Valid()
      ensures var xs := TextOpens(tree, old(inner.rest));
        && (xs == [] ==> s.None? && inner.rest == [])
        && (xs != [] ==> s == Some(TextOf(tree, xs[0])) && TextOpens(tree, inner.rest) == xs[1..])
    {
      while true
        invariant Valid()
        invariant TextOpens(tree, inner.rest) == TextOpens(tree, old(inner.rest))
        decreases |inner.rest|
      {
        var e := inner.Next();
        match e {
          case None =>
            return None;
          case Some(edge) =>
            if edge.Open? && NodeOf(tree, edge.node).IsText() {
              return Some(TextOf(tree, edge.node));
            }
        }
      }
    }
  }
}
