/**
 * `Document`: an arena of nodes with a designated document node, its
 * quirks mode, and the editing and query facade over them.
 */
module Documents {
  import opened Wrappers
  import opened Nodes
  import opened Trees
  import opened TreeFacts
  import opened TreeEdits
  import opened NodeRefs
  import Serialization
  import opened Matching
  import opened Selections

  /** html5ever's `QuirksMode` */
  datatype QuirksMode = Quirks | LimitedQuirks | NoQuirks

  /** An element in the HTML namespace with no id, class or attribute. */
  function BareHtmlElement(local: string): Node {
    ElementNode(Element(HtmlName(local), None, {}, map[]))
  }

  /** The doctype `new_html5` writes: `<!DOCTYPE html>`. */
  const Html5Doctype: Node := DoctypeNode(Doctype("html", "", ""))

  /** The parentless live nodes of `hs` other than `root`, in the order of `hs`. */
  function Parentless(t: Tree, hs: seq<Handle>, root: Handle): (r: seq<Handle>)
    requires forall x | x in hs :: Resolves(t, x)
    ensures forall x :: x in r <==> x in hs && x != root && Parent(t, x).None?
    ensures (forall j, k | 0 <= j < k < |hs| :: hs[j].index < hs[k].index) ==>
      forall j, k | 0 <= j < k < |r| :: r[j].index < r[k].index
  {
    if hs == [] then []
    else
      var rest := Parentless(t, hs[1..], root);
      if hs[0] != root && Parent(t, hs[0]).None? then
        SortedCons(hs, rest);
        [hs[0]] + rest
      else rest
  }

  lemma SortedCons(hs: seq<Handle>, rest: seq<Handle>)
    requires hs != [] && forall x | x in rest :: x in hs[1..]
    requires (forall j, k | 0 <= j < k < |hs| :: hs[j].index < hs[k].index) ==>
      forall j, k | 0 <= j < k < |rest| :: rest[j].index < rest[k].index
    ensures (forall j, k | 0 <= j < k < |hs| :: hs[j].index < hs[k].index) ==>
      forall j, k | 0 <= j < k < |[hs[0]] + rest| :: ([hs[0]] + rest)[j].index < ([hs[0]] + rest)[k].index
  {
    if forall j, k | 0 <= j < k < |hs| :: hs[j].index < hs[k].index {
      forall x | x in rest ensures hs[0].index < x.index {
        var k :| 0 <= k < |hs[1..]| && hs[1..][k] == x;
        assert x == hs[k + 1];
      }
    }
  }

  class Document {
    var quirks: QuirksMode
    var tree: Tree
    var root: Handle

    /** The arena is well-formed; the document node may have been removed by the caller. */
    ghost predicate Valid()
      reads this
    {
      Wf(tree)
    }

    /** `Document::new`: a document over an arena the builder assembled. */
    constructor (t: Tree, r: Handle, q: QuirksMode)
      requires Wf(t)
      ensures Valid() && tree == t && root == r && quirks == q
    {
      quirks, tree, root := q, t, r;
    }

    /**
     * `new_html5`: a document node whose children are the HTML5 doctype and
     * an `html` element whose children are an empty `head` and an empty
     * `body`; no other node is live, and the mode is no-quirks.
     */
    constructor NewHtml5()
      ensures Valid() && quirks == NoQuirks
      ensures Resolves(tree, root) && NodeOf(tree, root) == DocumentNode && Parent(tree, root).None?
      ensures |Trees.Children(tree, root)| == 2
      ensures var d, html := Trees.Children(tree, root)[0], Trees.Children(tree, root)[1];
        && Resolves(tree, d) && NodeOf(tree, d) == Html5Doctype && Trees.Children(tree, d) == []
        && Resolves(tree, html) && NodeOf(tree, html) == BareHtmlElement("html") && |Trees.Children(tree, html)| == 2
        && var head, body := Trees.Children(tree, html)[0], Trees.Children(tree, html)[1];
        && Resolves(tree, head) && NodeOf(tree, head) == BareHtmlElement("head") && Trees.Children(tree, head) == []
        && Resolves(tree, body) && NodeOf(tree, body) == BareHtmlElement("body") && Trees.Children(tree, body) == []
        && forall x :: Resolves(tree, x) <==> x in [root, d, html, head, body]
    {
      var t, hs := Html5Arena();
      var r := hs[0];
      assert hs == [r, hs[1], hs[2], hs[3], hs[4]];
      Html5Facts(t, r, hs[1], hs[2], hs[3], hs[4]);
      quirks, tree, root := NoQuirks, t, r;
    }

    /** `get`: the node behind a handle, or nothing for a handle that no longer resolves. */
    function Get(node: Handle): (r: Option<Node>)
      reads this
      ensures r.Some? <==> Resolves(tree, node)
      ensures r.Some? ==> r.value == NodeOf(tree, node)
    {
      Trees.Get(tree, node)
    }

    /** `Index`: the node behind a live handle; a dead one panics. */
    function Index(node: Handle): (n: Node)
      reads this
      requires Resolves(tree, node)
      ensures Get(node) == Some(n)
    {
      NodeOf(tree, node)
    }

    /**
     * `get_mut` followed by a write through the returned reference: the
     * node is replaced by `update` of itself when the handle resolves, and
     * nothing changes otherwise.
     */
    method GetMut(node: Handle, update: Node -> Node) returns (found: bool)
      requires Valid()
      modifies this
      ensures Valid() && root == old(root) && quirks == old(quirks)
      ensures found <==> Resolves(old(tree), node)
      ensures found ==> tree == SetNode(old(tree), node, update(NodeOf(old(tree), node)))
      ensures !found ==> tree == old(tree)
    {
      found := Resolves(tree, node);
      if found {
        tree := SetNode(tree, node, update(NodeOf(tree, node)));
      }
    }

    /** `IndexMut` followed by a write: the handle must resolve. */
    method IndexMut(node: Handle, update: Node -> Node)
      requires Valid() && Resolves(tree, node)
      modifies this
      ensures Valid() && root == old(root) && quirks == old(quirks)
      ensures Resolves(tree, node) && NodeOf(tree, node) == update(old(NodeOf(tree, node)))
      ensures forall x | Resolves(old(tree), x) && x != node :: Resolves(tree, x) && NodeOf(tree, x) == NodeOf(old(tree), x)
      ensures forall x | Resolves(old(tree), x) ::
        Resolves(tree, x) && Parent(tree, x) == Parent(old(tree), x) && Trees.Children(tree, x) == Trees.Children(old(tree), x)
      ensures forall x :: Resolves(tree, x) <==> Resolves(old(tree), x)
      ensures tree == SetNode(old(tree), node, update(old(NodeOf(tree, node))))
    {
      var found := GetMut(node, update);
    }

    /** `remove`: the node and its whole subtree are freed. */
    method Remove(node: Handle)
      requires Valid() && Resolves(tree, node)
      modifies this
      ensures Valid() && root == old(root) && quirks == old(quirks)
      ensures tree == RemoveSubtree(old(tree), node)
      ensures forall x | x in old(PreOrder(tree, node)) :: !Resolves(tree, x)
      ensures forall x | Resolves(tree, x) :: Resolves(old(tree), x) && x !in old(PreOrder(tree, node))
    {
      tree := RemoveSubtree(tree, node);
    }

    /**
     * `delete`: only the node is freed; its children stay live. This model's
     * arena leaves them without a parent.
     */
    method Delete(node: Handle)
      requires Valid() && Resolves(tree, node)
      modifies this
      ensures Valid() && root == old(root) && quirks == old(quirks)
      ensures tree == TreeEdits.Remove(old(tree), node)
      ensures !Resolves(tree, node)
      ensures forall x :: Resolves(tree, x) <==> Resolves(old(tree), x) && x != node
    {
      tree := TreeEdits.Remove(tree, node);
    }

    /**
     * `append`: `child` becomes the last child of `parent`, leaving its old
     * parent. The library panics when `child` is `parent` or one of its
     * ancestors.
     */
    method Append(parent: Handle, child: Handle)
      requires Valid() && Resolves(tree, parent) && Resolves(tree, child) && child !in Ancestors(tree, parent)
      modifies this
      ensures Valid() && root == old(root) && quirks == old(quirks)
      ensures tree == TreeEdits.Append(old(tree), parent, child)
      ensures Resolves(tree, parent) && Trees.Children(tree, parent) == Without(old(Trees.Children(tree, parent)), child) + [child]
      ensures Resolves(tree, child) && Parent(tree, child) == Some(parent)
    {
      tree := TreeEdits.Append(tree, parent, child);
    }

    /** `traverse`: the edge walk of the subtree, opening each of its nodes once in pre-order. */
    function Traverse(node: Handle): (es: seq<Edge>)
      reads this
      requires Valid() && Resolves(tree, node)
      ensures Opens(es) == PreOrder(tree, node) && NoDup(Opens(es))
      ensures |es| == 2 * |PreOrder(tree, node)|
      ensures forall x :: Close(x) in es <==> x in PreOrder(tree, node)
    {
      WalkShape(tree, node);
      Trees.Traverse(tree, node)
    }

    /**
     * `children`: exactly the live nodes naming `node` as their parent,
     * each once, the i-th being the one at sibling position i.
     */
    function Children(node: Handle): (cs: seq<Handle>)
      reads this
      requires Valid() && Resolves(tree, node)
      ensures forall c :: c in cs <==> Resolves(tree, c) && Parent(tree, c) == Some(node)
      ensures NoDup(cs)
      ensures forall i | 0 <= i < |cs| :: Resolves(tree, cs[i]) && Parent(tree, cs[i]) == Some(node) && SiblingIndex(tree, cs[i]) == i
    {
      ChildrenFacts(tree, node);
      Trees.Children(tree, node)
    }

    /** `inner_html`: the tokens of what lies below the node. */
    method InnerHtml(node: Handle) returns (out: seq<Serialization.Token>)
      requires Valid() && Resolves(tree, node)
      ensures out == Serialization.Serialized(tree, node, Serialization.ChildrenOnly)
    {
      out := Serialization.InnerHtml(NodeRef(tree, node));
    }

    /** `Display`: the tokens of the document node with everything below it. */
    method Display() returns (out: seq<Serialization.Token>)
      requires Valid() && Resolves(tree, root)
      ensures out == Serialization.Serialized(tree, root, Serialization.IncludeNode)
    {
      out := Serialization.Html(NodeRef(tree, root));
    }

    /** `text`: a cursor over the text nodes of the subtree, in document order. */
    method Text(node: Handle) returns (w: TextWalk)
      requires Valid() && Resolves(tree, node)
      ensures fresh(w) && fresh(w.inner) && w.Valid() && w.tree == tree
      ensures TextOpens(w.tree, w.inner.rest) == TextNodes(tree, PreOrder(tree, node))
    {
      w := new TextWalk(tree, node);
    }

    /** Allocates a parentless, childless node; every existing node is unchanged. */
    method Create(node: Node) returns (id: Handle)
      requires Valid()
      modifies this
      ensures Valid() && root == old(root) && quirks == old(quirks)
      ensures Resolves(tree, id) && !Resolves(old(tree), id) && NodeOf(tree, id) == node
      ensures Parent(tree, id).None? && Trees.Children(tree, id) == []
      ensures forall x :: Resolves(tree, x) <==> Resolves(old(tree), x) || x == id
      ensures forall x | Resolves(old(tree), x) ::
        NodeOf(tree, x) == NodeOf(old(tree), x) && Parent(tree, x) == Parent(old(tree), x)
        && Trees.Children(tree, x) == Trees.Children(old(tree), x)
      ensures (tree, id) == NewNode(old(tree), node)
    {
      var (u, h) := NewNode(tree, node);
      tree, id := u, h;
    }

    /** `create_element`: an HTML element with the given local name and no attribute. */
    method CreateElement(name: string) returns (id: Handle)
      requires Valid()
      modifies this
      ensures Valid() && root == old(root) && quirks == old(quirks)
      ensures Resolves(tree, id) && !Resolves(old(tree), id)
      ensures NodeOf(tree, id) == BareHtmlElement(name) == ElementNode(NewElement(HtmlName(name), []))
      ensures Parent(tree, id).None? && Trees.Children(tree, id) == []
      ensures forall x :: Resolves(tree, x) <==> Resolves(old(tree), x) || x == id
      ensures forall x | Resolves(old(tree), x) ::
        NodeOf(tree, x) == NodeOf(old(tree), x) && Parent(tree, x) == Parent(old(tree), x)
        && Trees.Children(tree, x) == Trees.Children(old(tree), x)
      ensures (tree, id) == NewNode(old(tree), ElementNode(NewElement(HtmlName(name), [])))
    {
      id := Create(ElementNode(NewElement(HtmlName(name), [])));
    }

    /** `create_text` */
    method CreateText(text: string) returns (id: Handle)
      requires Valid()
      modifies this
      ensures Valid() && root == old(root) && quirks == old(quirks)
      ensures Resolves(tree, id) && !Resolves(old(tree), id) && NodeOf(tree, id) == TextNode(Nodes.Text(text))
      ensures Parent(tree, id).None? && Trees.Children(tree, id) == []
      ensures forall x :: Resolves(tree, x) <==> Resolves(old(tree), x) || x == id
      ensures forall x | Resolves(old(tree), x) ::
        NodeOf(tree, x) == NodeOf(old(tree), x) && Parent(tree, x) == Parent(old(tree), x)
        && Trees.Children(tree, x) == Trees.Children(old(tree), x)
      ensures (tree, id) == NewNode(old(tree), TextNode(Nodes.Text(text)))
    {
      id := Create(TextNode(Nodes.Text(text)));
    }

    /** `create_comment` */
    method CreateComment(comment: string) returns (id: Handle)
      requires Valid()
      modifies this
      ensures Valid() && root == old(root) && quirks == old(quirks)
      ensures Resolves(tree, id) && !Resolves(old(tree), id) && NodeOf(tree, id) == CommentNode(Comment(comment))
      ensures Parent(tree, id).None? && Trees.Children(tree, id) == []
      ensures forall x :: Resolves(tree, x) <==> Resolves(old(tree), x) || x == id
      ensures forall x | Resolves(old(tree), x) ::
        NodeOf(tree, x) == NodeOf(old(tree), x) && Parent(tree, x) == Parent(old(tree), x)
        && Trees.Children(tree, x) == Trees.Children(old(tree), x)
      ensures (tree, id) == NewNode(old(tree), CommentNode(Comment(comment)))
    {
      id := Create(CommentNode(Comment(comment)));
    }

    /**
     * `orhpans`: every live node other than the document node that has no
     * parent, in slot order.
     */
    function Orphans(): (r: seq<Handle>)
      reads this
      ensures forall x :: x in r <==> Resolves(tree, x) && x != root && Parent(tree, x).None?
      ensures forall j, k | 0 <= j < k < |r| :: r[j].index < r[k].index
    {
      Parentless(tree, LiveHandles(tree), root)
    }

    /**
     * `remove_orphans`: deletes each node `orphans` reported, one at a
     * time. Their children survive, now parentless; every surviving node
     * keeps its payload, and every other node keeps its parent.
     */
    method RemoveOrphans()
      requires Valid()
      modifies this
      ensures Valid() && root == old(root) && quirks == old(quirks)
      ensures forall x | x in old(Orphans()) :: !Resolves(tree, x)
      ensures forall x :: Resolves(tree, x) <==> Resolves(old(tree), x) && x !in old(Orphans())
      ensures forall x | Resolves(tree, x) :: NodeOf(tree, x) == NodeOf(old(tree), x)
      ensures forall x | Resolves(tree, x) && Parent(old(tree), x).Some? && Parent(old(tree), x).value in old(Orphans()) ::
        Parent(tree, x).None?
      ensures forall x | Resolves(tree, x) && (Parent(old(tree), x).None? || Parent(old(tree), x).value !in old(Orphans())) ::
        Parent(tree, x) == Parent(old(tree), x)
    {
      tree := DeleteEach(tree, Orphans());
    }

    /**
     * `select_from`: the nodes strictly below `node` that the selector
     * accepts, in pre-order; the selector must compile, or the call panics.
     */
    method SelectFrom(node: Handle, compile: string -> Option<Matcher>, selector: string) returns (r: Selection)
      requires Valid() && Resolves(tree, node) && compile(selector).Some?
      ensures r.nodes == Yields(tree, compile(selector).value, RootScope(tree, node, ChildrenOnly), {})
      ensures NoDup(r.nodes) && node !in r.nodes
      ensures forall x :: x in r.nodes <==> x in PreOrder(tree, node) && x != node && compile(selector).value.accepts(tree, x)
      ensures r.nodes == Accepted(tree, compile(selector).value, PreOrder(tree, node)[1..], {})
    {
      var m := compile(selector).value;
      var matches := new Matches.FromOne(tree, node, m, ChildrenOnly);
      var found := matches.Collect();
      r := Selection(found);
      YieldsMembers(tree, m, RootScope(tree, node, ChildrenOnly), {});
      forall x ensures x in r.nodes <==> x in PreOrder(tree, node) && x != node && m.accepts(tree, x) {
        RootScopeMember(tree, node, ChildrenOnly, x);
      }
      var below := Forest(tree, Trees.Children(tree, node));
      ChildrenFacts(tree, node);
      ForestNoDup(tree, node, Trees.Children(tree, node));
      assert PreOrder(tree, node)[1..] == below == RootScope(tree, node, ChildrenOnly);
      YieldsIsFilter(tree, m, below, {});
    }

    /** `select`: `select_from` the document node. */
    method Select(compile: string -> Option<Matcher>, selector: string) returns (r: Selection)
      requires Valid() && Resolves(tree, root) && compile(selector).Some?
      ensures forall x :: x in r.nodes <==> x in PreOrder(tree, root) && x != root && compile(selector).value.accepts(tree, x)
      ensures r.nodes == Yields(tree, compile(selector).value, RootScope(tree, root, ChildrenOnly), {})
      ensures r.nodes == Accepted(tree, compile(selector).value, PreOrder(tree, root)[1..], {})
    {
      r := SelectFrom(root, compile, selector);
    }
  }

  /**
   * The arena holds exactly the nodes `hs`, the i-th with payload `ns[i]`,
   * parent `ps[i]` and children `cs[i]`.
   */
  ghost predicate Shape(t: Tree, hs: seq<Handle>, ns: seq<Node>, ps: seq<Option<Handle>>, cs: seq<seq<Handle>>) {
    && Wf(t) && |ns| == |hs| && |ps| == |hs| && |cs| == |hs| && NoDup(hs)
    && (forall x :: Resolves(t, x) <==> x in hs)
    && forall i | 0 <= i < |hs| ::
      Resolves(t, hs[i]) && NodeOf(t, hs[i]) == ns[i] && Parent(t, hs[i]) == ps[i] && Trees.Children(t, hs[i]) == cs[i]
  }

  lemma ShapeNew(t: Tree, hs: seq<Handle>, ns: seq<Node>, ps: seq<Option<Handle>>, cs: seq<seq<Handle>>, node: Node)
    requires Shape(t, hs, ns, ps, cs)
    ensures var (u, h) := NewNode(t, node); Shape(u, hs + [h], ns + [node], ps + [None], cs + [[]])
  {
    var (u, h) := NewNode(t, node);
    NoDupAppend(hs, [h]);
    forall i | 0 <= i < |hs| ensures (hs + [h])[i] == hs[i] && (ns + [node])[i] == ns[i] && (ps + [None])[i] == ps[i] && (cs + [[]])[i] == cs[i] {
    }
  }

  lemma ShapeAppend(t: Tree, hs: seq<Handle>, ns: seq<Node>, ps: seq<Option<Handle>>, cs: seq<seq<Handle>>, i: nat, j: nat)
    requires Shape(t, hs, ns, ps, cs) && i < |hs| && j < |hs| && i != j && ps[i].None? && ps[j].None?
    ensures hs[j] !in Ancestors(t, hs[i])
    ensures Shape(TreeEdits.Append(t, hs[i], hs[j]), hs, ns, ps[j := Some(hs[i])], cs[i := cs[i] + [hs[j]]])
  {
    var p, c := hs[i], hs[j];
    var u := TreeEdits.Append(t, p, c);
    var ps', cs' := ps[j := Some(p)], cs[i := cs[i] + [c]];
    ShapeAppendLive(t, hs, p, c);
    ShapeAppendAll(t, hs, ns, ps, cs, i, j);
    ShapeIntro(u, hs, ns, ps', cs');
  }

  lemma ShapeIntro(t: Tree, hs: seq<Handle>, ns: seq<Node>, ps: seq<Option<Handle>>, cs: seq<seq<Handle>>)
    requires Wf(t) && |ns| == |hs| && |ps| == |hs| && |cs| == |hs| && NoDup(hs)
    requires forall x :: Resolves(t, x) <==> x in hs
    requires forall k | 0 <= k < |hs| ::
      Resolves(t, hs[k]) && NodeOf(t, hs[k]) == ns[k] && Parent(t, hs[k]) == ps[k] && Trees.Children(t, hs[k]) == cs[k]
    ensures Shape(t, hs, ns, ps, cs)
  {
  }

  lemma ShapeAppendAll(t: Tree, hs: seq<Handle>, ns: seq<Node>, ps: seq<Option<Handle>>, cs: seq<seq<Handle>>, i: nat, j: nat)
    requires Shape(t, hs, ns, ps, cs) && i < |hs| && j < |hs| && i != j && ps[i].None? && ps[j].None?
    ensures var u := TreeEdits.Append(t, hs[i], hs[j]);
      forall k | 0 <= k < |hs| ::
        Resolves(u, hs[k]) && NodeOf(u, hs[k]) == ns[k]
        && Parent(u, hs[k]) == ps[j := Some(hs[i])][k] && Trees.Children(u, hs[k]) == cs[i := cs[i] + [hs[j]]][k]
  {
    forall k | 0 <= k < |hs|
      ensures var u := TreeEdits.Append(t, hs[i], hs[j]);
        Resolves(u, hs[k]) && NodeOf(u, hs[k]) == ns[k]
        && Parent(u, hs[k]) == ps[j := Some(hs[i])][k] && Trees.Children(u, hs[k]) == cs[i := cs[i] + [hs[j]]][k]
    {
      assert Resolves(t, hs[i]) && Resolves(t, hs[j]) && Resolves(t, hs[k]);
      ShapeAppendAt(t, hs, ns, ps, cs, i, j, k);
    }
  }

  lemma ShapeAppendLive(t: Tree, hs: seq<Handle>, p: Handle, c: Handle)
    requires Wf(t) && (forall x :: Resolves(t, x) <==> x in hs)
    requires Resolves(t, p) && Resolves(t, c) && p != c && Parent(t, p).None? && Parent(t, c).None?
    ensures c !in Ancestors(t, p)
    ensures Wf(TreeEdits.Append(t, p, c)) && forall x :: Resolves(TreeEdits.Append(t, p, c), x) <==> x in hs
  {
    AppendParentless(t, p, c);
  }

  lemma ShapeAppendAt(t: Tree, hs: seq<Handle>, ns: seq<Node>, ps: seq<Option<Handle>>, cs: seq<seq<Handle>>, i: nat, j: nat, k: nat)
    requires Wf(t) && |ns| == |hs| && |ps| == |hs| && |cs| == |hs| && NoDup(hs)
    requires i < |hs| && j < |hs| && k < |hs| && i != j
    requires Resolves(t, hs[i]) && Resolves(t, hs[j]) && Parent(t, hs[i]).None? && Parent(t, hs[j]).None?
    requires Resolves(t, hs[k]) && NodeOf(t, hs[k]) == ns[k] && Parent(t, hs[k]) == ps[k] && Trees.Children(t, hs[k]) == cs[k]
    ensures var u := TreeEdits.Append(t, hs[i], hs[j]);
      && Resolves(u, hs[k]) && NodeOf(u, hs[k]) == ns[k]
      && Parent(u, hs[k]) == ps[j := Some(hs[i])][k] && Trees.Children(u, hs[k]) == cs[i := cs[i] + [hs[j]]][k]
  {
    AppendParentless(t, hs[i], hs[j]);
    assert k != i ==> hs[k] != hs[i];
    assert k != j ==> hs[k] != hs[j];
  }

  /** Appending one parentless node to another changes only their two links. */
  lemma AppendParentless(t: Tree, p: Handle, c: Handle)
    requires Wf(t) && Resolves(t, p) && Resolves(t, c) && p != c && Parent(t, p).None? && Parent(t, c).None?
    ensures c !in Ancestors(t, p)
    ensures var u := TreeEdits.Append(t, p, c);
      && (forall x :: Resolves(u, x) <==> Resolves(t, x))
      && forall x | Resolves(t, x) ::
        && NodeOf(u, x) == NodeOf(t, x)
        && Parent(u, x) == (if x == c then Some(p) else Parent(t, x))
        && Trees.Children(u, x) == (if x == p then Trees.Children(t, p) + [c] else Trees.Children(t, x))
  {
    assert Ancestors(t, p) == [p];
    if c in Trees.Children(t, p) {
      ChildFacts(t, p, c);
    }
    var u := TreeEdits.Append(t, p, c);
    assert SameLive(t, u) && SameNodes(t, u);
    forall x ensures Resolves(u, x) <==> Resolves(t, x) {
    }
  }

  /** The element nodes `new_html5` creates, in creation order. */
  const Html5Elements: seq<Node> := [BareHtmlElement("head"), BareHtmlElement("body"), BareHtmlElement("html")]

  /** The first step of `new_html5`: the document node alone. */
  method Html5Document() returns (t: Tree, r: Handle)
    ensures Shape(t, [r], [DocumentNode], [None], [[]])
  {
    t := [];
    assert Ranked(t, []);
    ghost var hs0: seq<Handle>, ns0: seq<Node>, ps0: seq<Option<Handle>>, cs0: seq<seq<Handle>> := [], [], [], [];
    t, r := NewShaped(t, hs0, ns0, ps0, cs0, DocumentNode);
    assert hs0 + [r] == [r] && ns0 + [DocumentNode] == [DocumentNode];
    assert ps0 + [None] == [None] && cs0 + [[]] == [[]];
  }

  /** The next steps of `new_html5`: the doctype created and appended to the document node. */
  method Html5Doctyped() returns (t: Tree, r: Handle, d: Handle)
    ensures Shape(t, [r, d], [DocumentNode, Html5Doctype], [None, Some(r)], [[d], []])
  {
    ghost var none: Option<Handle>, leaf: seq<Handle> := None, [];
    t, r := Html5Document();
    t, d := NewShaped(t, [r], [DocumentNode], [none], [leaf], Html5Doctype);
    assert [r] + [d] == [r, d] && [DocumentNode] + [Html5Doctype] == [DocumentNode, Html5Doctype];
    assert [none] + [none] == [none, none] && [leaf] + [leaf] == [leaf, leaf];
    assert leaf + [d] == [d];
    t := AppendShaped(t, [r, d], [DocumentNode, Html5Doctype], [none, none], [leaf, leaf], 0, 1, [none, Some(r)], [[d], leaf]);
  }

  /** `new_html5` after creating `head`. */
  method Html5Head() returns (t: Tree, hs: seq<Handle>)
    ensures |hs| == 3
    ensures Shape(t, hs, [DocumentNode, Html5Doctype, Html5Elements[0]], [None, Some(hs[0]), None], [[hs[1]], [], []])
  {
    var r, d, head;
    t, r, d := Html5Doctyped();
    t, head := NewShaped(t, [r, d], [DocumentNode, Html5Doctype], [None, Some(r)], [[d], []], Html5Elements[0]);
    hs := [r, d, head];
    assert [r, d] + [head] == hs && [DocumentNode, Html5Doctype] + [Html5Elements[0]] == [DocumentNode, Html5Doctype, Html5Elements[0]];
    assert [None, Some(r)] + [None] == [None, Some(r), None] && [[d], []] + [[]] == [[d], [], []];
  }

  /** `new_html5` after creating `body`. */
  method Html5Body() returns (t: Tree, hs: seq<Handle>)
    ensures |hs| == 4
    ensures Shape(t, hs, [DocumentNode, Html5Doctype, Html5Elements[0], Html5Elements[1]], [None, Some(hs[0]), None, None], [[hs[1]], [], [], []])
  {
    var hs3, body;
    t, hs3 := Html5Head();
    t, body := NewShaped(t, hs3, [DocumentNode, Html5Doctype, Html5Elements[0]], [None, Some(hs3[0]), None], [[hs3[1]], [], []], Html5Elements[1]);
    hs := hs3 + [body];
    assert [DocumentNode, Html5Doctype, Html5Elements[0]] + [Html5Elements[1]] == [DocumentNode, Html5Doctype, Html5Elements[0], Html5Elements[1]];
    assert [None, Some(hs3[0]), None] + [None] == [None, Some(hs[0]), None, None];
    assert [[hs3[1]], [], []] + [[]] == [[hs[1]], [], [], []];
  }

  /** The steps of `new_html5` up to the creation of the `html` element, each new node still parentless. */
  method Html5Nodes() returns (t: Tree, hs: seq<Handle>)
    ensures |hs| == 5
    ensures Shape(t, hs, [DocumentNode, Html5Doctype] + Html5Elements, [None, Some(hs[0]), None, None, None], [[hs[1]], [], [], [], []])
  {
    var hs4, html;
    t, hs4 := Html5Body();
    t, html := NewShaped(t, hs4, [DocumentNode, Html5Doctype, Html5Elements[0], Html5Elements[1]], [None, Some(hs4[0]), None, None], [[hs4[1]], [], [], []], Html5Elements[2]);
    hs := hs4 + [html];
    assert [DocumentNode, Html5Doctype, Html5Elements[0], Html5Elements[1]] + [Html5Elements[2]] == [DocumentNode, Html5Doctype] + Html5Elements;
    assert [None, Some(hs4[0]), None, None] + [None] == [None, Some(hs[0]), None, None, None];
    assert [[hs4[1]], [], [], []] + [[]] == [[hs[1]], [], [], [], []];
  }

  /** The whole of `new_html5`'s arena: `head` and `body` below `html`, `html` below the document node. */
  method Html5Arena() returns (t: Tree, hs: seq<Handle>)
    ensures |hs| == 5
    ensures Shape(t, hs, [DocumentNode, Html5Doctype] + Html5Elements,
      [None, Some(hs[0]), Some(hs[4]), Some(hs[4]), Some(hs[0])], [[hs[1], hs[4]], [], [], [], [hs[2], hs[3]]])
  {
    t, hs := Html5Nodes();
    var ns := [DocumentNode, Html5Doctype] + Html5Elements;
    var r, d, head, body, html := hs[0], hs[1], hs[2], hs[3], hs[4];
    assert [] + [head] == [head] && [head] + [body] == [head, body] && [d] + [html] == [d, html];
    Update5(None, Some(r), None, None, None, 2, Some(html));
    Update5([d], [], [], [], [], 4, [head]);
    t := AppendShaped(t, hs, ns, [None, Some(r), None, None, None], [[d], [], [], [], []], 4, 2,
      [None, Some(r), Some(html), None, None], [[d], [], [], [], [head]]);
    Update5(None, Some(r), Some(html), None, None, 3, Some(html));
    Update5([d], [], [], [], [head], 4, [head, body]);
    t := AppendShaped(t, hs, ns, [None, Some(r), Some(html), None, None], [[d], [], [], [], [head]], 4, 3,
      [None, Some(r), Some(html), Some(html), None], [[d], [], [], [], [head, body]]);
    Update5(None, Some(r), Some(html), Some(html), None, 4, Some(r));
    Update5([d], [], [], [], [head, body], 0, [d, html]);
    t := AppendShaped(t, hs, ns, [None, Some(r), Some(html), Some(html), None], [[d], [], [], [], [head, body]], 0, 4,
      [None, Some(r), Some(html), Some(html), Some(r)], [[d, html], [], [], [], [head, body]]);
  }

  lemma Update5<T>(a: T, b: T, c: T, d: T, e: T, k: nat, v: T)
    requires k < 5
    ensures [a, b, c, d, e][k := v] ==
      if k == 0 then [v, b, c, d, e] else if k == 1 then [a, v, c, d, e] else if k == 2 then [a, b, v, d, e]
      else if k == 3 then [a, b, c, v, e] else [a, b, c, d, v]
  {
  }

  /** The facts `new_html5` promises, read off the shape it builds. */
  lemma Html5Facts(t: Tree, r: Handle, d: Handle, head: Handle, body: Handle, html: Handle)
    requires Shape(t, [r, d, head, body, html],
      [DocumentNode, Html5Doctype] + Html5Elements,
      [None, Some(r), Some(html), Some(html), Some(r)], [[d, html], [], [], [], [head, body]])
    ensures Resolves(t, r) && NodeOf(t, r) == DocumentNode && Parent(t, r).None? && Trees.Children(t, r) == [d, html]
    ensures Resolves(t, d) && NodeOf(t, d) == Html5Doctype && Trees.Children(t, d) == []
    ensures Resolves(t, html) && NodeOf(t, html) == BareHtmlElement("html") && Trees.Children(t, html) == [head, body]
    ensures Resolves(t, head) && NodeOf(t, head) == BareHtmlElement("head") && Trees.Children(t, head) == []
    ensures Resolves(t, body) && NodeOf(t, body) == BareHtmlElement("body") && Trees.Children(t, body) == []
    ensures forall x :: Resolves(t, x) <==> x in [r, d, html, head, body]
  {
    var hs := [r, d, head, body, html];
    assert hs[0] == r && hs[1] == d && hs[2] == head && hs[3] == body && hs[4] == html;
    forall x ensures Resolves(t, x) <==> x in [r, d, html, head, body] {
      assert x in hs <==> x in [r, d, html, head, body];
    }
  }

  /** `new_node` on an arena of known shape: the new node is added to the shape. */
  method NewShaped(t: Tree, ghost hs: seq<Handle>, ghost ns: seq<Node>, ghost ps: seq<Option<Handle>>, ghost cs: seq<seq<Handle>>, node: Node)
    returns (u: Tree, h: Handle)
    requires Shape(t, hs, ns, ps, cs)
    ensures Shape(u, hs + [h], ns + [node], ps + [None], cs + [[]])
  {
    ShapeNew(t, hs, ns, ps, cs, node);
    u, h := NewNode(t, node).0, NewNode(t, node).1;
  }

  /** `append` of one parentless node of a known shape to another: only their two links change. */
  method AppendShaped(t: Tree, hs: seq<Handle>, ghost ns: seq<Node>, ghost ps: seq<Option<Handle>>, ghost cs: seq<seq<Handle>>, i: nat, j: nat,
                      ghost ps': seq<Option<Handle>>, ghost cs': seq<seq<Handle>>)
    returns (u: Tree)
    requires Shape(t, hs, ns, ps, cs) && i < |hs| && j < |hs| && i != j && ps[i].None? && ps[j].None?
    requires ps' == ps[j := Some(hs[i])] && cs' == cs[i := cs[i] + [hs[j]]]
    ensures Shape(u, hs, ns, ps', cs')
  {
    ShapeAppend(t, hs, ns, ps, cs, i, j);
    u := TreeEdits.Append(t, hs[i], hs[j]);
  }

  /**
   * After deleting `nodes[..i]` (collected in `gone`) from `t0`: the
   * deleted nodes are gone, the rest of `nodes` and every other node of
   * `t0` is live, and nothing new is.
   */
  ghost predicate Deleted(t0: Tree, t: Tree, nodes: seq<Handle>, i: nat, gone: set<Handle>) {
    && Wf(t) && i <= |nodes|
    && (forall j | i <= j < |nodes| :: Resolves(t, nodes[j]))
    && (forall x | x in gone :: x in nodes)
    && (forall j | 0 <= j < i :: nodes[j] in gone)
    && (forall x :: Resolves(t, x) <==> Resolves(t0, x) && x !in gone)
    && (forall x | Resolves(t, x) :: Resolves(t0, x) && NodeOf(t, x) == NodeOf(t0, x))
    && (forall x | Resolves(t, x) :: Resolves(t0, x) && Parent(t, x) == OrphanedParent(t0, x, gone))
  }

  /** The parent of `x` once the nodes `gone` are deleted: none if its parent was one of them. */
  ghost function OrphanedParent(t0: Tree, x: Handle, gone: set<Handle>): Option<Handle>
    requires Resolves(t0, x)
  {
    if Parent(t0, x).Some? && Parent(t0, x).value in gone then None else Parent(t0, x)
  }

  lemma DeleteStep(t0: Tree, t: Tree, nodes: seq<Handle>, i: nat, gone: set<Handle>)
    requires Deleted(t0, t, nodes, i, gone) && i < |nodes|
    requires forall j, k | 0 <= j < k < |nodes| :: nodes[j].index < nodes[k].index
    ensures Resolves(t, nodes[i]) && Deleted(t0, TreeEdits.Remove(t, nodes[i]), nodes, i + 1, gone + {nodes[i]})
  {
    assert nodes[i] !in gone;
    var u := TreeEdits.Remove(t, nodes[i]);
    RemoveFrame(t, nodes[i]);
    forall j | i + 1 <= j < |nodes| ensures Resolves(u, nodes[j]) {
      assert nodes[j].index != nodes[i].index;
    }
    DeleteParents(t0, t, nodes[i], gone);
  }

  /** Deleting `h` as well leaves parentless exactly the survivors whose parent was `h` or already gone. */
  lemma DeleteParents(t0: Tree, t: Tree, h: Handle, gone: set<Handle>)
    requires Wf(t) && Resolves(t, h) && h !in gone
    requires forall x | Resolves(t, x) :: Resolves(t0, x) && Parent(t, x) == OrphanedParent(t0, x, gone)
    ensures var u := TreeEdits.Remove(t, h);
      forall x | Resolves(u, x) :: Resolves(t0, x) && Parent(u, x) == OrphanedParent(t0, x, gone + {h})
  {
    var u := TreeEdits.Remove(t, h);
    RemoveFrame(t, h);
    forall x | Resolves(u, x) ensures Resolves(t0, x) && Parent(u, x) == OrphanedParent(t0, x, gone + {h}) {
      assert Resolves(t, x) && x != h;
    }
  }

  /** The loop of `remove_orphans`: `delete` each of `nodes` in turn. */
  method DeleteEach(t0: Tree, nodes: seq<Handle>) returns (t: Tree)
    requires Wf(t0) && forall x | x in nodes :: Resolves(t0, x)
    requires forall j, k | 0 <= j < k < |nodes| :: nodes[j].index < nodes[k].index
    ensures Wf(t)
    ensures forall x :: Resolves(t, x) <==> Resolves(t0, x) && x !in nodes
    ensures forall x | Resolves(t, x) :: NodeOf(t, x) == NodeOf(t0, x)
    ensures forall x | Resolves(t, x) ::
      Parent(t, x) == if Parent(t0, x).Some? && Parent(t0, x).value in nodes then None else Parent(t0, x)
  {
    t := t0;
    ghost var gone: set<Handle> := {};
    for i := 0 to |nodes|
      invariant Deleted(t0, t, nodes, i, gone)
    {
      DeleteStep(t0, t, nodes, i, gone);
      t := TreeEdits.Remove(t, nodes[i]);
      gone := gone + {nodes[i]};
    }
    assert forall x :: x in gone <==> x in nodes;
  }

  /**
   * The children of a live node are exactly the live nodes naming it as
   * their parent, without repeats, each at its own sibling position.
   */
  lemma ChildrenFacts(t: Tree, h: Handle)
    requires Wf(t) && Resolves(t, h)
    ensures forall c :: c in Trees.Children(t, h) <==> Resolves(t, c) && Parent(t, c) == Some(h)
    ensures NoDup(Trees.Children(t, h))
    ensures forall i | 0 <= i < |Trees.Children(t, h)| ::
      var c := Trees.Children(t, h)[i]; Resolves(t, c) && Parent(t, c) == Some(h) && SiblingIndex(t, c) == i
  {
    var cs := Trees.Children(t, h);
    assert HandleAt(t, h.index) == h;
    assert ChildrenLinked(t, h.index);
    forall c | c in cs ensures Resolves(t, c) && Parent(t, c) == Some(h) {
      ChildFacts(t, h, c);
    }
    forall c | Resolves(t, c) && Parent(t, c) == Some(h) ensures c in cs {
      ParentFacts(t, c);
    }
    forall i | 0 <= i < |cs| ensures SiblingIndex(t, cs[i]) == i {
      var k := SiblingIndex(t, cs[i]);
      assert cs[k] == cs[i];
    }
  }
}
