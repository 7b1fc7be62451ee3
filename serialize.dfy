/**
 * `Serialize for NodeRef`: the walk of a node turned into serializer calls.
 * The HTML writer behind those calls is not modelled; what it is asked to
 * write is a sequence of tokens.
 */
module Serialization {
  import opened Wrappers
  import opened Nodes
  import opened Trees
  import opened TreeFacts
  import opened NodeRefs

  /** `TraversalScope`: the node with its subtree, or only what lies below it. */
  datatype TraversalScope = IncludeNode | ChildrenOnly

  /** One call on the serializer. */
  datatype Token =
    | DoctypeToken(doctype: string)
    | CommentToken(comment: string)
    | TextToken(text: string)
    | StartTag(name: QualName, attrs: map<QualName, string>)
    | EndTag(name: QualName)

  /** What one edge of the walk asks the serializer to write. */
  function EdgeTokens(t: Tree, e: Edge): (r: seq<Token>)
    requires Resolves(t, e.node)
    ensures |r| <= 1
    ensures e.Close? ==> (r != [] <==> NodeOf(t, e.node).IsElement())
    ensures e.Open? ==> (r == [] <==> NodeOf(t, e.node).IsDocument() || NodeOf(t, e.node).IsFragment() || NodeOf(t, e.node).ProcessingInstructionNode?)
  {
    match e
    case Open(x) =>
      (match NodeOf(t, x)
       case DoctypeNode(d) => [DoctypeToken(d.name)]
       case CommentNode(c) => [CommentToken(c.comment)]
       case TextNode(s) => [TextToken(s.text)]
       case ElementNode(el) => [StartTag(el.name, el.attrs)]
       case _ => [])
    case Close(x) =>
      (match NodeOf(t, x).AsElement()
       case Some(el) => [EndTag(el.name)]
       case None => [])
  }

  /** The tokens of a sequence of edges, one edge after another. */
  function Tokens(t: Tree, es: seq<Edge>): seq<Token>
    requires forall e | e in es :: Resolves(t, e.node)
  {
    if es == [] then [] else EdgeTokens(t, es[0]) + Tokens(t, es[1..])
  }

  lemma {:induction false} TokensAppend(t: Tree, a: seq<Edge>, b: seq<Edge>)
    requires forall e | e in a + b :: Resolves(t, e.node)
    ensures Tokens(t, a + b) == Tokens(t, a) + Tokens(t, b)
  {
    if a == [] {
      assert a + b == b;
    } else {
      assert (a + b)[1..] == a[1..] + b;
      TokensAppend(t, a[1..], b);
    }
  }

  /** The edges of a walk that do not belong to `h`. */
  function Suppress(es: seq<Edge>, h: Handle): (r: seq<Edge>)
    ensures forall e | e in r :: e in es && e.node != h
  {
    if es == [] then []
    else if es[0].node == h then Suppress(es[1..], h)
    else [es[0]] + Suppress(es[1..], h)
  }

  lemma {:induction false} SuppressAppend(a: seq<Edge>, b: seq<Edge>, h: Handle)
    ensures Suppress(a + b, h) == Suppress(a, h) + Suppress(b, h)
  {
    if a == [] {
      assert a + b == b;
    } else {
      assert (a + b)[1..] == a[1..] + b;
      SuppressAppend(a[1..], b, h);
    }
  }

  lemma {:induction false} SuppressNothing(es: seq<Edge>, h: Handle)
    requires forall e | e in es :: e.node != h
    ensures Suppress(es, h) == es
  {
    if es != [] {
      SuppressNothing(es[1..], h);
    }
  }

  /** The edges the serializer is handed: the whole walk, or the walk of the children. */
  function ScopedWalk(t: Tree, h: Handle, scope: TraversalScope): seq<Edge>
    requires Wf(t) && Resolves(t, h)
  {
    ChildrenBound(t, h);
    match scope
    case IncludeNode => Traverse(t, h)
    case ChildrenOnly => TraverseForest(t, Children(t, h))
  }

  /** The tokens written for `h` in the given scope. */
  function Serialized(t: Tree, h: Handle, scope: TraversalScope): seq<Token>
    requires Wf(t) && Resolves(t, h)
  {
    Tokens(t, ScopedWalk(t, h, scope))
  }

  /**
   * Skipping the edges of `h` in its own walk leaves exactly the walk of
   * its children: `h` occurs nowhere below itself.
   */
  lemma SuppressRoot(t: Tree, h: Handle)
    requires Wf(t) && Resolves(t, h)
    ensures Suppress(Traverse(t, h), h) == ScopedWalk(t, h, ChildrenOnly)
  {
    ChildrenBound(t, h);
    var inner := TraverseForest(t, Children(t, h));
    ForestWalkNodes(t, Children(t, h));
    NotBelowItself(t, h);
    SuppressNothing(inner, h);
    SuppressAppend([Open(h)] + inner, [Close(h)], h);
    SuppressAppend([Open(h)], inner, h);
  }

  /**
   * `serialize`: walks the edges of `r`, skipping the node's own two edges
   * in children-only scope, and hands each other edge's tokens to the
   * serializer. The result is the token sequence of the scoped walk.
   */
  method Serialize(r: NodeRef, scope: TraversalScope) returns (out: seq<Token>)
    requires Wf(r.tree) && Resolves(r.tree, r.id)
    ensures out == Serialized(r.tree, r.id, scope)
  {
    var t, h := r.tree, r.id;
    var walk := Traverse(t, h);
    out := [];
    for i := 0 to |walk|
      invariant forall e | e in walk[..i] :: Resolves(t, e.node)
      invariant scope.IncludeNode? ==> out == Tokens(t, walk[..i])
      invariant scope.ChildrenOnly? ==> out == Tokens(t, Suppress(walk[..i], h))
    {
      var edge := walk[i];
      TokensStep(t, walk, i, h);
      if edge.node == h && scope == ChildrenOnly {
        continue;
      }
      out := out + EdgeTokens(t, edge);
    }
    assert walk[..|walk|] == walk;
    if scope.ChildrenOnly? {
      SuppressRoot(t, h);
    }
  }

  /** One more edge of the walk adds its tokens, unless it is an edge of `h` that is skipped. */
  lemma TokensStep(t: Tree, walk: seq<Edge>, i: nat, h: Handle)
    requires i < |walk| && forall e | e in walk :: Resolves(t, e.node)
    ensures forall e | e in walk[..i + 1] :: Resolves(t, e.node)
    ensures Tokens(t, walk[..i + 1]) == Tokens(t, walk[..i]) + EdgeTokens(t, walk[i])
    ensures Tokens(t, Suppress(walk[..i + 1], h))
      == Tokens(t, Suppress(walk[..i], h)) + (if walk[i].node == h then [] else EdgeTokens(t, walk[i]))
  {
    var edge := walk[i];
    assert walk[..i + 1] == walk[..i] + [edge];
    SuppressAppend(walk[..i], [edge], h);
    TokensAppend(t, Suppress(walk[..i], h), Suppress([edge], h));
    TokensAppend(t, walk[..i], [edge]);
  }

  /** `html()`: the node with its subtree. */
  method Html(r: NodeRef) returns (out: seq<Token>)
    requires Wf(r.tree) && Resolves(r.tree, r.id)
    ensures out == Serialized(r.tree, r.id, IncludeNode)
  {
    out := Serialize(r, IncludeNode);
  }

  /** `inner_html()`: only what lies below the node. */
  method InnerHtml(r: NodeRef) returns (out: seq<Token>)
    requires Wf(r.tree) && Resolves(r.tree, r.id)
    ensures out == Serialized(r.tree, r.id, ChildrenOnly)
  {
    out := Serialize(r, ChildrenOnly);
  }

  /**
   * The outer serialization is the inner one wrapped in the node's own
   * tokens: a start tag and an end tag for an element, the single token of
   * a doctype, comment or text, nothing for any other node.
   */
  lemma HtmlWrapsInner(t: Tree, h: Handle)
    requires Wf(t) && Resolves(t, h)
    ensures Serialized(t, h, IncludeNode)
      == EdgeTokens(t, Open(h)) + Serialized(t, h, ChildrenOnly) + EdgeTokens(t, Close(h))
    ensures NodeOf(t, h).IsElement() ==>
      var el := NodeOf(t, h).element;
      Serialized(t, h, IncludeNode) == [StartTag(el.name, el.attrs)] + Serialized(t, h, ChildrenOnly) + [EndTag(el.name)]
    ensures NodeOf(t, h).IsDocument() || NodeOf(t, h).IsFragment() || NodeOf(t, h).ProcessingInstructionNode? ==>
      Serialized(t, h, IncludeNode) == Serialized(t, h, ChildrenOnly)
  {
    WalkTokens(t, h);
    ChildrenBound(t, h);
    assert Serialized(t, h, IncludeNode) == Tokens(t, Traverse(t, h));
    assert Serialized(t, h, ChildrenOnly) == Tokens(t, TraverseForest(t, Children(t, h)));
    OwnTokens(t, h);
  }

  /** The tokens of a node's own two edges, by kind. */
  lemma OwnTokens(t: Tree, h: Handle)
    requires Resolves(t, h)
    ensures NodeOf(t, h).IsElement() ==>
      var el := NodeOf(t, h).element;
      EdgeTokens(t, Open(h)) == [StartTag(el.name, el.attrs)] && EdgeTokens(t, Close(h)) == [EndTag(el.name)]
    ensures NodeOf(t, h).IsDocument() || NodeOf(t, h).IsFragment() || NodeOf(t, h).ProcessingInstructionNode? ==>
      EdgeTokens(t, Open(h)) == [] && EdgeTokens(t, Close(h)) == []
    ensures NodeOf(t, h).DoctypeNode? ==>
      EdgeTokens(t, Open(h)) == [DoctypeToken(NodeOf(t, h).doctype.name)] && EdgeTokens(t, Close(h)) == []
    ensures NodeOf(t, h).CommentNode? ==>
      EdgeTokens(t, Open(h)) == [CommentToken(NodeOf(t, h).comment.comment)] && EdgeTokens(t, Close(h)) == []
    ensures NodeOf(t, h).TextNode? ==>
      EdgeTokens(t, Open(h)) == [TextToken(NodeOf(t, h).text.text)] && EdgeTokens(t, Close(h)) == []
  {
  }

  /**
   * Replays start and end tags against a stack of open element names; an
   * end tag must close the innermost open element.
   */
  function Replay(ts: seq<Token>, stack: seq<QualName>): Option<seq<QualName>> {
    if ts == [] then Some(stack)
    else match ts[0]
      case StartTag(n, _) => Replay(ts[1..], stack + [n])
      case EndTag(n) =>
        if stack != [] && stack[|stack| - 1] == n then Replay(ts[1..], stack[..|stack| - 1]) else None
      case _ => Replay(ts[1..], stack)
  }

  /** Every end tag closes the innermost open start tag, and every start tag is closed. */
  predicate Balanced(ts: seq<Token>) {
    Replay(ts, []) == Some([])
  }

  lemma {:induction false} ReplayAppend(a: seq<Token>, b: seq<Token>, stack: seq<QualName>)
    ensures Replay(a + b, stack) == match Replay(a, stack) { case None => None case Some(s) => Replay(b, s) }
  {
    if a == [] {
      assert a + b == b;
    } else {
      assert (a + b)[1..] == a[1..] + b;
      match a[0]
      case StartTag(n, _) => ReplayAppend(a[1..], b, stack + [n]);
      case EndTag(n) =>
        if stack != [] && stack[|stack| - 1] == n {
          ReplayAppend(a[1..], b, stack[..|stack| - 1]);
        }
      case _ => ReplayAppend(a[1..], b, stack);
    }
  }

  /** The tokens of a walk: the node's opening tokens, its children's, its closing tokens. */
  lemma WalkTokens(t: Tree, h: Handle)
    requires Wf(t) && Resolves(t, h)
    ensures forall c | c in Children(t, h) :: Resolves(t, c)
    ensures Tokens(t, Traverse(t, h))
      == EdgeTokens(t, Open(h)) + Tokens(t, TraverseForest(t, Children(t, h))) + EdgeTokens(t, Close(h))
  {
    ChildrenBound(t, h);
    var inner := TraverseForest(t, Children(t, h));
    TokensAppend(t, [Open(h)] + inner, [Close(h)]);
    TokensAppend(t, [Open(h)], inner);
  }

  lemma ReplayWrap(n: QualName, a: map<QualName, string>, body: seq<Token>, stack: seq<QualName>)
    requires Replay(body, stack + [n]) == Some(stack + [n])
    ensures Replay([StartTag(n, a)] + body + [EndTag(n)], stack) == Some(stack)
  {
    ReplayAppend([StartTag(n, a)] + body, [EndTag(n)], stack);
    ReplayAppend([StartTag(n, a)], body, stack);
    assert (stack + [n])[..|stack|] == stack;
  }

  lemma ReplayUntagged(open: seq<Token>, body: seq<Token>, close: seq<Token>, stack: seq<QualName>)
    requires |open| <= 1 && (open != [] ==> !open[0].StartTag? && !open[0].EndTag?) && close == []
    requires Replay(body, stack) == Some(stack)
    ensures Replay(open + body + close, stack) == Some(stack)
  {
    assert open + body + close == open + body;
    ReplayAppend(open, body, stack);
  }

  /** The tokens of a node's walk leave any stack of open elements as they found it. */
  lemma {:induction false} WalkBalanced(t: Tree, h: Handle, stack: seq<QualName>)
    requires Wf(t) && Resolves(t, h)
    ensures Replay(Tokens(t, Traverse(t, h)), stack) == Some(stack)
    decreases Rank(t)[h.index] + 1, 0, 0
  {
    WalkTokens(t, h);
    ChildrenBound(t, h);
    var body := Tokens(t, TraverseForest(t, Children(t, h)));
    EdgeTokensShape(t, h);
    if NodeOf(t, h).IsElement() {
      var el := NodeOf(t, h).element;
      ForestBalanced(t, Children(t, h), stack + [el.name]);
      ReplayWrap(el.name, el.attrs, body, stack);
    } else {
      ForestBalanced(t, Children(t, h), stack);
      ReplayUntagged(EdgeTokens(t, Open(h)), body, EdgeTokens(t, Close(h)), stack);
    }
  }

  /**
   * An element opens with one start tag and closes with the matching end
   * tag; any other node writes at most one token, which is not a tag, and
   * nothing when it closes.
   */
  lemma EdgeTokensShape(t: Tree, h: Handle)
    requires Resolves(t, h)
    ensures NodeOf(t, h).IsElement() ==>
      var el := NodeOf(t, h).element;
      EdgeTokens(t, Open(h)) == [StartTag(el.name, el.attrs)] && EdgeTokens(t, Close(h)) == [EndTag(el.name)]
    ensures !NodeOf(t, h).IsElement() ==>
      var open := EdgeTokens(t, Open(h));
      |open| <= 1 && (open != [] ==> !open[0].StartTag? && !open[0].EndTag?) && EdgeTokens(t, Close(h)) == []
  {
  }

  lemma {:induction false} ForestBalanced(t: Tree, hs: seq<Handle>, stack: seq<QualName>)
    requires Wf(t) && forall c | c in hs :: Resolves(t, c)
    ensures Replay(Tokens(t, TraverseForest(t, hs)), stack) == Some(stack)
    decreases RankBound(t, hs), 1, |hs|
  {
    if hs != [] {
      assert hs[0] in hs;
      TokensAppend(t, Traverse(t, hs[0]), TraverseForest(t, hs[1..]));
      ReplayAppend(Tokens(t, Traverse(t, hs[0])), Tokens(t, TraverseForest(t, hs[1..])), stack);
      WalkBalanced(t, hs[0], stack);
      ForestBalanced(t, hs[1..], stack);
    }
  }

  /** In either scope the start and end tags written are balanced and properly nested. */
  lemma SerializedBalanced(t: Tree, h: Handle, scope: TraversalScope)
    requires Wf(t) && Resolves(t, h)
    ensures Balanced(Serialized(t, h, scope))
  {
    ChildrenBound(t, h);
    match scope
    case IncludeNode => WalkBalanced(t, h, []);
    case ChildrenOnly => ForestBalanced(t, Children(t, h), []);
  }
}
