/**
 * `DocumentBuilder`: the tree sink the HTML parser drives. It owns an arena
 * whose first node is the document node and answers the parser's requests:
 * create nodes, attach them (merging adjacent text), add missing
 * attributes, move nodes about; `finish` hands the arena over as a
 * `Document`.
 *
 * Each arena edit is a function from the arena before to the arena after,
 * whose contract says what the parser sees; the builder's methods apply
 * them to its fields in the order the parser calls them.
 */
module Builders {
  import opened Wrappers
  import opened Nodes
  import opened Trees
  import opened TreeFacts
  import opened TreeEdits
  import opened NodeRefs
  import opened Documents

  /** The parser's `NodeOrText`: an existing node, or text to add. */
  datatype NodeOrText = AppendNode(id: Handle) | AppendText(text: string)

  /** The parser's `ExpandedName`: a namespace and a local name, without the prefix. */
  datatype ExpandedName = ExpandedName(ns: string, local: string)

  function Expanded(q: QualName): ExpandedName {
    ExpandedName(q.ns, q.local)
  }

  /** `expanded_name!(html "template")` */
  const Template := ExpandedName(HtmlNamespace, "template")

  /** The same nodes are live and every link is as it was; only payloads may differ. */
  ghost predicate SameShape(t: Tree, u: Tree) {
    && (forall x :: Resolves(u, x) <==> Resolves(t, x))
    && forall x | Resolves(t, x) :: Parent(u, x) == Parent(t, x) && Children(u, x) == Children(t, x)
  }

  /**
   * The text node `n` has `s` added to its end; the shape of the arena and
   * every other payload are unchanged.
   */
  ghost predicate Merged(t: Tree, u: Tree, n: Handle, s: string)
    requires Resolves(t, n) && NodeOf(t, n).IsText()
  {
    && SameShape(t, u)
    && NodeOf(u, n) == TextNode(Text(NodeOf(t, n).text.text + s))
    && forall x | Resolves(t, x) && x != n :: NodeOf(u, x) == NodeOf(t, x)
  }

  /**
   * One fresh, childless node with payload `node` has been added as the
   * last child of `p`; every other link and payload is unchanged.
   */
  ghost predicate AddedLast(t: Tree, u: Tree, p: Handle, node: Node)
    requires Resolves(t, p)
  {
    var cs := Children(t, p);
    && Resolves(u, p) && |Children(u, p)| == |cs| + 1 && Children(u, p)[..|cs|] == cs
    && var h := Children(u, p)[|cs|];
    && Resolves(u, h) && !Resolves(t, h) && NodeOf(u, h) == node && Children(u, h) == []
    && (forall x :: Resolves(u, x) <==> Resolves(t, x) || x == h)
    && forall x | Resolves(t, x) ::
         NodeOf(u, x) == NodeOf(t, x) && Parent(u, x) == Parent(t, x) && (x != p ==> Children(u, x) == Children(t, x))
  }

  /**
   * One fresh, childless node with payload `node` has been inserted among
   * the children of `s`'s parent just before `s`, so it is `s`'s previous
   * sibling; every other link and payload is unchanged.
   */
  ghost predicate AddedBefore(t: Tree, u: Tree, s: Handle, node: Node)
    requires Wf(t) && Wf(u) && Resolves(t, s) && Parent(t, s).Some?
  {
    var p := Parent(t, s).value;
    var k := SiblingIndex(t, s);
    var cs := Children(t, p);
    && Resolves(u, p) && Resolves(u, s) && |Children(u, p)| == |cs| + 1
    && var h := Children(u, p)[k];
    && Children(u, p) == cs[..k] + [h] + cs[k..]
    && Resolves(u, h) && !Resolves(t, h) && NodeOf(u, h) == node && Children(u, h) == []
    && PreviousSibling(u, s) == Some(h)
    && (forall x :: Resolves(u, x) <==> Resolves(t, x) || x == h)
    && forall x | Resolves(t, x) ::
         NodeOf(u, x) == NodeOf(t, x) && Parent(u, x) == Parent(t, x) && (x != p ==> Children(u, x) == Children(t, x))
  }

  /** Inserting `x` at position `k` puts it at `k`, followed by what was at `k`. */
  lemma Spliced<T>(ws: seq<T>, k: nat, x: T)
    requires k < |ws|
    ensures (ws[..k] + [x] + ws[k..])[k] == x && (ws[..k] + [x] + ws[k..])[k + 1] == ws[k]
    ensures |ws[..k] + [x] + ws[k..]| == |ws| + 1
  {
  }

  lemma ChildrenNoDup(t: Tree, h: Handle)
    requires Wf(t) && Resolves(t, h)
    ensures NoDup(Children(t, h))
  {
    assert HandleAt(t, h.index) == h;
    assert ChildrenLinked(t, h.index);
  }

  /** When `h` sits just before `s` among `p`'s children, `h` is the previous sibling of `s`. */
  lemma PrecededBy(u: Tree, p: Handle, s: Handle, h: Handle, k: nat)
    requires Wf(u) && Resolves(u, p) && k + 1 < |Children(u, p)|
    requires Children(u, p)[k] == h && Children(u, p)[k + 1] == s
    ensures Resolves(u, s) && PreviousSibling(u, s) == Some(h)
  {
    var cs := Children(u, p);
    assert s in cs;
    ChildFacts(u, p, s);
    ChildrenNoDup(u, p);
    var j := IndexOf(cs, s);
    assert j == k + 1;
  }

  /**
   * `new_node` followed by `append`: a fresh, childless node becomes the
   * last child of `p`.
   */
  function AppendNew(t: Tree, p: Handle, node: Node): (r: (Tree, Handle))
    requires Wf(t) && Resolves(t, p)
    ensures Wf(r.0) && AddedLast(t, r.0, p, node) && r.1 == Children(r.0, p)[|Children(t, p)|]
    ensures Parent(r.0, r.1) == Some(p)
  {
    var (t1, h) := NewNode(t, node);
    AncestorsFrame(t, t1, p);
    assert h !in Children(t1, p) by {
      if h in Children(t1, p) {
        ChildFacts(t1, p, h);
      }
    }
    var u := TreeEdits.Append(t1, p, h);
    AddedLastOf(t, t1, u, p, h, node);
    (u, h)
  }

  lemma AddedLastOf(t: Tree, t1: Tree, u: Tree, p: Handle, h: Handle, node: Node)
    requires Wf(t) && Wf(t1) && Wf(u) && Resolves(t, p)
    requires Resolves(t1, h) && !Resolves(t, h) && NodeOf(t1, h) == node && Children(t1, h) == []
    requires forall x | Resolves(t1, x) :: Resolves(t, x) || x == h
    requires forall x | Resolves(t, x) ::
      Resolves(t1, x) && NodeOf(t1, x) == NodeOf(t, x) && Parent(t1, x) == Parent(t, x) && Children(t1, x) == Children(t, x)
    requires SameLive(t1, u) && SameNodes(t1, u) && h !in Children(t1, p)
    requires Resolves(u, p) && Children(u, p) == Without(Children(t1, p), h) + [h]
    requires forall x | Resolves(t1, x) && x != h :: Resolves(u, x) && Parent(u, x) == Parent(t1, x)
    requires forall x | Resolves(t1, x) && x != p ::
      Resolves(u, x) && Children(u, x) == (if Parent(t1, h) == Some(x) then Without(Children(t1, x), h) else Children(t1, x))
    requires Parent(t1, h).None?
    ensures AddedLast(t, u, p, node) && h == Children(u, p)[|Children(t, p)|]
  {
    assert Children(u, p)[..|Children(t, p)|] == Children(t, p);
    SameLiveResolves(t1, u);
    SameNodesRead(t1, u);
    forall x | Resolves(t, x)
      ensures NodeOf(u, x) == NodeOf(t, x) && Parent(u, x) == Parent(t, x) && (x != p ==> Children(u, x) == Children(t, x))
    {
      assert Resolves(t1, x) && x != h;
    }
  }

  /**
   * `new_node` followed by `insert_before`: a fresh, childless node becomes
   * the sibling just before `s`, which must have a parent.
   */
  function InsertNew(t: Tree, s: Handle, node: Node): (u: Tree)
    requires Wf(t) && Resolves(t, s) && Parent(t, s).Some?
    ensures Wf(u) && AddedBefore(t, u, s, node)
  {
    var (t1, h) := NewNode(t, node);
    var p := Parent(t, s).value;
    var k := SiblingIndex(t, s);
    AncestorsFrame(t, t1, s);
    assert h !in Children(t1, p) by {
      if h in Children(t1, p) {
        ChildFacts(t1, p, h);
      }
    }
    var u := InsertBefore(t1, s, h);
    InsertBeforeFrame(t1, s, h);
    assert Without(Children(t1, p), h) == Children(t, p);
    assert IndexOf(Children(t, p), s) == k;
    AddedBeforeOf(t, t1, u, s, h, node);
    u
  }

  lemma AddedBeforeOf(t: Tree, t1: Tree, u: Tree, s: Handle, h: Handle, node: Node)
    requires Wf(t) && Wf(t1) && Wf(u) && Resolves(t, s) && Parent(t, s).Some?
    requires Resolves(t1, h) && !Resolves(t, h) && NodeOf(t1, h) == node && Children(t1, h) == [] && Parent(t1, h).None?
    requires forall x | Resolves(t1, x) :: Resolves(t, x) || x == h
    requires forall x | Resolves(t, x) ::
      Resolves(t1, x) && NodeOf(t1, x) == NodeOf(t, x) && Parent(t1, x) == Parent(t, x) && Children(t1, x) == Children(t, x)
    requires SameLive(t1, u) && SameNodes(t1, u)
    requires var p, k := Parent(t, s).value, SiblingIndex(t, s);
      Resolves(u, p) && Children(u, p) == Children(t, p)[..k] + [h] + Children(t, p)[k..]
    requires forall x | Resolves(t1, x) && x != h :: Resolves(u, x) && Parent(u, x) == Parent(t1, x)
    requires forall x | Resolves(t1, x) && Some(x) != Parent(t1, s) ::
      Resolves(u, x) && Children(u, x) == (if Parent(t1, h) == Some(x) then Without(Children(t1, x), h) else Children(t1, x))
    ensures AddedBefore(t, u, s, node)
  {
    var p, k := Parent(t, s).value, SiblingIndex(t, s);
    var cs := Children(t, p);
    Spliced(cs, k, h);
    PrecededBy(u, p, s, h, k);
    SameLiveResolves(t1, u);
    SameNodesRead(t1, u);
    forall x | Resolves(t, x)
      ensures NodeOf(u, x) == NodeOf(t, x) && Parent(u, x) == Parent(t, x) && (x != p ==> Children(u, x) == Children(t, x))
    {
      assert Resolves(t1, x) && x != h;
    }
    assert Children(u, h) == [] by {
      assert Some(h) != Parent(t1, s);
    }
  }

  /**
   * The text node that text added at the end of `p` merges into: `p`'s
   * last child, when it is a text node.
   */
  function LastText(t: Tree, p: Handle): (r: Option<Handle>)
    requires Wf(t) && Resolves(t, p)
    ensures LastChild(t, p).Some? ==> Resolves(t, LastChild(t, p).value)
    ensures r.Some? <==> LastChild(t, p).Some? && NodeOf(t, LastChild(t, p).value).IsText()
    ensures r.Some? ==> r == LastChild(t, p)
  {
    match LastChild(t, p)
    case None => None
    case Some(n) =>
      ChildFacts(t, p, n);
      if NodeOf(t, n).IsText() then Some(n) else None
  }

  /**
   * The text node that text added before `s` merges into: `s`'s previous
   * sibling, when it is a text node.
   */
  function PreviousText(t: Tree, s: Handle): (r: Option<Handle>)
    requires Wf(t) && Resolves(t, s)
    ensures PreviousSibling(t, s).Some? ==> Resolves(t, PreviousSibling(t, s).value)
    ensures r.Some? <==> PreviousSibling(t, s).Some? && NodeOf(t, PreviousSibling(t, s).value).IsText()
    ensures r.Some? ==> r == PreviousSibling(t, s)
  {
    match PreviousSibling(t, s)
    case None => None
    case Some(n) =>
      ChildFacts(t, Parent(t, s).value, n);
      if NodeOf(t, n).IsText() then Some(n) else None
  }

  /** `concat` on the text node `n`. */
  function ConcatAt(t: Tree, n: Handle, s: string): (u: Tree)
    requires Wf(t) && Resolves(t, n) && NodeOf(t, n).IsText()
    ensures Wf(u) && Merged(t, u, n, s)
  {
    SetNode(t, n, TextNode(NodeOf(t, n).text.Concat(s)))
  }

  /**
   * `append` of text: when `p`'s last child is a text node the text is
   * added to its end and no node is created; otherwise a new text node
   * becomes `p`'s last child.
   */
  function AppendTextTo(t: Tree, p: Handle, s: string): (u: Tree)
    requires Wf(t) && Resolves(t, p)
    ensures Wf(u) && Resolves(u, p)
    ensures LastText(t, p).Some? ==> Merged(t, u, LastText(t, p).value, s)
    ensures LastText(t, p).None? ==> AddedLast(t, u, p, TextNode(Text(s)))
  {
    match LastText(t, p)
    case Some(n) => ConcatAt(t, n, s)
    case None => AppendNew(t, p, TextNode(Text(s))).0
  }

  /**
   * `append_before_sibling` of text, when `s` has a parent: when `s`'s
   * previous sibling is a text node the text is added to its end;
   * otherwise a new text node is inserted just before `s`.
   */
  function InsertText(t: Tree, s: Handle, text: string): (u: Tree)
    requires Wf(t) && Resolves(t, s) && Parent(t, s).Some?
    ensures Wf(u) && Resolves(u, s)
    ensures PreviousText(t, s).Some? ==> Merged(t, u, PreviousText(t, s).value, text)
    ensures PreviousText(t, s).None? ==> AddedBefore(t, u, s, TextNode(Text(text)))
  {
    match PreviousText(t, s)
    case Some(n) => ConcatAt(t, n, text)
    case None => InsertNew(t, s, TextNode(Text(text)))
  }

  /**
   * The live node `id` has left its old parent and sits among the children
   * of `s`'s parent just before `s`; the other children keep their order,
   * and no payload and no other parent link changes.
   */
  ghost predicate MovedBefore(t: Tree, u: Tree, s: Handle, id: Handle)
    requires Wf(t) && Wf(u) && Resolves(t, s) && Resolves(t, id) && Parent(t, s).Some?
  {
    var p := Parent(t, s).value;
    var ws := Without(Children(t, p), id);
    && Resolves(u, p) && Resolves(u, s) && Resolves(u, id)
    && Parent(u, s) == Some(p) && Parent(u, id) == Some(p) && PreviousSibling(u, s) == Some(id)
    && s in ws && Children(u, p) == ws[..IndexOf(ws, s)] + [id] + ws[IndexOf(ws, s)..]
    && (forall x :: Resolves(u, x) <==> Resolves(t, x))
    && (forall x | Resolves(t, x) :: NodeOf(u, x) == NodeOf(t, x) && (x != id ==> Parent(u, x) == Parent(t, x)))
    && forall x | Resolves(t, x) && x != p ::
         Children(u, x) == (if Parent(t, id) == Some(x) then Without(Children(t, x), id) else Children(t, x))
  }

  /**
   * `append_before_sibling`: a node is first detached; then, when `s` has
   * a parent, the node (or the text) goes just before `s`. When `s` has no
   * parent the detached node stays parentless and text is dropped. The
   * library panics when the node is one of `s`'s proper ancestors.
   */
  function BeforeSibling(t: Tree, s: Handle, child: NodeOrText): (u: Tree)
    requires Wf(t) && Resolves(t, s)
    requires child.AppendNode? ==> Resolves(t, child.id) && (child.id == s || child.id !in Ancestors(t, s))
    ensures Wf(u) && Resolves(u, s)
    ensures child.AppendNode? && (Parent(t, s).None? || child.id == s) ==>
      u == Detach(t, child.id) && Resolves(u, child.id) && Parent(u, child.id).None?
    ensures child.AppendNode? && Parent(t, s).Some? && child.id != s ==> MovedBefore(t, u, s, child.id)
    ensures child.AppendText? && Parent(t, s).None? ==> u == t
    ensures child.AppendText? && Parent(t, s).Some? ==> u == InsertText(t, s, child.text)
  {
    match child
    case AppendNode(id) =>
      var t1 := Detach(t, id);
      if Parent(t1, s).Some? then
        MoveBefore(t, s, id);
        InsertBefore(t1, s, id)
      else t1
    case AppendText(text) =>
      if Parent(t, s).Some? then InsertText(t, s, text) else t
  }

  /** `detach` then `insert_before`: the node moves to just before `s`. */
  lemma MoveBefore(t: Tree, s: Handle, id: Handle)
    requires Wf(t) && Resolves(t, s) && Resolves(t, id) && id != s && id !in Ancestors(t, s) && Parent(t, s).Some?
    ensures Parent(Detach(t, id), s).Some? && id !in Ancestors(Detach(t, id), s)
    ensures MovedBefore(t, InsertBefore(Detach(t, id), s, id), s, id)
  {
    var t1 := Detach(t, id);
    DetachAncestors(t, id, s);
    var u := InsertBefore(t1, s, id);
    InsertBeforeFrame(t1, s, id);
    MovedBeforeOf(t, t1, u, s, id);
  }

  lemma MovedBeforeOf(t: Tree, t1: Tree, u: Tree, s: Handle, id: Handle)
    requires Wf(t) && Wf(t1) && Wf(u) && Resolves(t, s) && Resolves(t, id) && id != s && Parent(t, s).Some?
    requires SameLive(t, t1) && SameNodes(t, t1) && Resolves(t1, id) && Parent(t1, id).None?
    requires forall x | Resolves(t, x) && x != id :: Resolves(t1, x) && Parent(t1, x) == Parent(t, x)
    requires forall x | Resolves(t, x) ::
      Resolves(t1, x) && Children(t1, x) == (if Parent(t, id) == Some(x) then Without(Children(t, x), id) else Children(t, x))
    requires Resolves(t1, s) && Parent(t1, s).Some?
    requires SameLive(t1, u) && SameNodes(t1, u) && Resolves(u, id) && Parent(u, id) == Parent(t1, s)
    requires var p := Parent(t1, s).value; var ws := Without(Children(t1, p), id);
      s in ws && Resolves(u, p) && Children(u, p) == ws[..IndexOf(ws, s)] + [id] + ws[IndexOf(ws, s)..]
    requires forall x | Resolves(t1, x) && x != id :: Resolves(u, x) && Parent(u, x) == Parent(t1, x)
    requires forall x | Resolves(t1, x) && Some(x) != Parent(t1, s) ::
      Resolves(u, x) && Children(u, x) == (if Parent(t1, id) == Some(x) then Without(Children(t1, x), id) else Children(t1, x))
    ensures MovedBefore(t, u, s, id)
  {
    var p := Parent(t, s).value;
    ParentFacts(t, s);
    var ws := Without(Children(t, p), id);
    assert Children(t1, p) == ws by {
      if Parent(t, id) != Some(p) && id in Children(t, p) {
        ChildFacts(t, p, id);
      }
    }
    assert Without(ws, id) == ws;
    var k := IndexOf(ws, s);
    Spliced(ws, k, id);
    PrecededBy(u, p, s, id, k);
    SameLiveResolves(t, t1);
    SameLiveResolves(t1, u);
    SameNodesRead(t, t1);
    SameNodesRead(t1, u);
    forall x | Resolves(t, x) ensures x != id ==> Parent(u, x) == Parent(t, x) {
      assert Resolves(t1, x);
    }
    MovedChildrenFrame(t, t1, u, p, id);
  }

  lemma MovedChildrenFrame(t: Tree, t1: Tree, u: Tree, p: Handle, id: Handle)
    requires Wf(t) && Wf(t1) && Resolves(t, id) && Resolves(t1, id) && Parent(t1, id).None?
    requires forall x | Resolves(t, x) ::
      Resolves(t1, x) && Children(t1, x) == (if Parent(t, id) == Some(x) then Without(Children(t, x), id) else Children(t, x))
    requires forall x | Resolves(t1, x) && Some(x) != Some(p) ::
      Resolves(u, x) && Children(u, x) == (if Parent(t1, id) == Some(x) then Without(Children(t1, x), id) else Children(t1, x))
    ensures forall x | Resolves(t, x) && x != p ::
      Resolves(u, x) && Children(u, x) == (if Parent(t, id) == Some(x) then Without(Children(t, x), id) else Children(t, x))
  {
  }

  /**
   * `create_element`: a parentless element built from the name and the
   * attributes; a `template` element in the HTML namespace gets a fresh
   * fragment as its only child, its contents.
   */
  function CreateElementIn(t: Tree, name: QualName, attrs: seq<Attribute>): (r: (Tree, Handle))
    requires Wf(t)
    ensures var (u, h) := r; Wf(u) && Resolves(u, h) && !Resolves(t, h) && Parent(u, h).None?
    ensures var (u, h) := r; NodeOf(u, h) == ElementNode(NewElement(name, attrs))
    ensures var (u, h) := r; Expanded(name) != Template ==>
      Children(u, h) == [] && forall x :: Resolves(u, x) <==> Resolves(t, x) || x == h
    ensures var (u, h) := r; Expanded(name) == Template ==>
      && |Children(u, h)| == 1 && Resolves(u, Children(u, h)[0])
      && var f := Children(u, h)[0];
      && !Resolves(t, f) && f != h && NodeOf(u, f) == FragmentNode && Children(u, f) == []
      && forall x :: Resolves(u, x) <==> Resolves(t, x) || x == h || x == f
    ensures var (u, h) := r; forall x | Resolves(t, x) ::
      Resolves(u, x) && NodeOf(u, x) == NodeOf(t, x) && Parent(u, x) == Parent(t, x) && Children(u, x) == Children(t, x)
  {
    var (t1, h) := NewNode(t, ElementNode(NewElement(name, attrs)));
    if Expanded(name) == Template then
      var (u, f) := AppendNew(t1, h, FragmentNode);
      (u, h)
    else (t1, h)
  }

  /**
   * The attribute map after `entry(name).or_insert(value)` for each
   * attribute in turn: a name already present keeps its value.
   */
  function AddMissing(m: map<QualName, string>, attrs: seq<Attribute>): map<QualName, string>
    decreases |attrs|
  {
    if attrs == [] then m
    else
      var before := AddMissing(m, attrs[..|attrs| - 1]);
      var a := attrs[|attrs| - 1];
      if a.name in before then before else before[a.name := a.value]
  }

  /**
   * `add_attrs_if_missing` on the attribute map: the keys are the old ones
   * and the names given; an existing value is never replaced; a new name
   * takes the value of its FIRST occurrence in `attrs`.
   */
  lemma {:induction false} AddMissingMeaning(m: map<QualName, string>, attrs: seq<Attribute>, k: QualName)
    ensures k in AddMissing(m, attrs) <==> k in m || exists i | 0 <= i < |attrs| :: attrs[i].name == k
    ensures k in m ==> AddMissing(m, attrs)[k] == m[k]
    ensures k !in m ==> forall i | 0 <= i < |attrs| && attrs[i].name == k && (forall j | 0 <= j < i :: attrs[j].name != k) ::
      AddMissing(m, attrs)[k] == attrs[i].value
    decreases |attrs|
  {
    if attrs != [] {
      var n := |attrs| - 1;
      var pre, a := attrs[..n], attrs[n];
      AddMissingMeaning(m, pre, k);
      assert forall i | 0 <= i < n :: pre[i] == attrs[i];
      if (exists i | 0 <= i < n :: pre[i].name == k) {
        var i :| 0 <= i < n && pre[i].name == k;
        assert attrs[i].name == k;
      }
      if (exists i | 0 <= i < |attrs| :: attrs[i].name == k) {
        var i :| 0 <= i < |attrs| && attrs[i].name == k;
        if i < n {
          assert pre[i].name == k;
        }
      }
    }
  }

  /** The loop of `add_attrs_if_missing`, one attribute at a time. */
  method InsertMissing(m0: map<QualName, string>, attrs: seq<Attribute>) returns (m: map<QualName, string>)
    ensures m == AddMissing(m0, attrs)
  {
    m := m0;
    for i := 0 to |attrs|
      invariant m == AddMissing(m0, attrs[..i])
    {
      assert attrs[..i + 1][..i] == attrs[..i];
      if attrs[i].name !in m {
        m := m[attrs[i].name := attrs[i].value];
      }
    }
    assert attrs[..|attrs|] == attrs;
  }

  /**
   * `reparent_children` as written: the node itself is detached and
   * appended to `newParent`, taking its children along. The library panics
   * when the node is `newParent` or one of its ancestors.
   */
  function ReparentAsWritten(t: Tree, node: Handle, newParent: Handle): (u: Tree)
    requires Wf(t) && Resolves(t, node) && Resolves(t, newParent) && node !in Ancestors(t, newParent)
    ensures Wf(u) && Resolves(u, node) && Resolves(u, newParent)
    ensures Parent(u, node) == Some(newParent) && Children(u, node) == Children(t, node)
    ensures Children(u, newParent) == Without(Children(t, newParent), node) + [node]
    ensures forall x :: Resolves(u, x) <==> Resolves(t, x)
    ensures forall x | Resolves(t, x) :: NodeOf(u, x) == NodeOf(t, x)
  {
    ReparentSteps(t, node, newParent);
    TreeEdits.Append(Detach(t, node), newParent, node)
  }

  /** The two steps of `reparent_children` as written, detach then append, and what they do. */
  lemma ReparentSteps(t: Tree, node: Handle, newParent: Handle)
    requires Wf(t) && Resolves(t, node) && Resolves(t, newParent) && node !in Ancestors(t, newParent)
    ensures Resolves(Detach(t, node), newParent) && node !in Ancestors(Detach(t, node), newParent)
    ensures var u := TreeEdits.Append(Detach(t, node), newParent, node);
      && Wf(u) && Resolves(u, node) && Resolves(u, newParent)
      && Parent(u, node) == Some(newParent) && Children(u, node) == Children(t, node)
      && Children(u, newParent) == Without(Children(t, newParent), node) + [node]
      && (forall x :: Resolves(u, x) <==> Resolves(t, x))
      && forall x | Resolves(t, x) :: NodeOf(u, x) == NodeOf(t, x)
  {
    var t1 := Detach(t, node);
    DetachAncestors(t, node, newParent);
    assert Without(Children(t1, newParent), node) == Without(Children(t, newParent), node) by {
      if Parent(t, node) != Some(newParent) && node in Children(t, newParent) {
        ChildFacts(t, newParent, node);
      }
    }
    var u := TreeEdits.Append(t1, newParent, node);
    SameLiveResolves(t, t1);
    SameLiveResolves(t1, u);
    SameNodesRead(t, t1);
    SameNodesRead(t1, u);
  }

  lemma ReparentKeeps(t: Tree, node: Handle, newParent: Handle, r: Handle)
    requires Wf(t) && Resolves(t, node) && Resolves(t, newParent) && node !in Ancestors(t, newParent)
    requires Resolves(t, r)
    ensures Resolves(ReparentAsWritten(t, node, newParent), r)
    ensures NodeOf(ReparentAsWritten(t, node, newParent), r) == NodeOf(t, r)
  {
  }

  /**
   * As written, `reparent_children` does not move the node's children: a
   * child of the node is still its child afterwards and is not a child of
   * `newParent`.
   */
  lemma ReparentAsWrittenKeepsChildren(t: Tree, node: Handle, newParent: Handle, c: Handle)
    requires Wf(t) && Resolves(t, node) && Resolves(t, newParent) && node !in Ancestors(t, newParent)
    requires c in Children(t, node)
    ensures c in Children(ReparentAsWritten(t, node, newParent), node)
    ensures c !in Children(ReparentAsWritten(t, node, newParent), newParent)
  {
    ChildFacts(t, node, c);
    assert newParent in Ancestors(t, newParent);
    if c in Children(t, newParent) {
      ChildFacts(t, newParent, c);
    }
  }

  /** Every child of `node` can move under `newParent` without making a cycle. */
  ghost predicate Movable(t: Tree, node: Handle, newParent: Handle) {
    && Wf(t) && Resolves(t, node) && Resolves(t, newParent) && node != newParent
    && forall c | c in Children(t, node) :: c !in Ancestors(t, newParent)
  }

  /** The first `i` children of `node` (`cs`) have moved, in order, to the end of `newParent`'s. */
  ghost predicate Moving(t: Tree, u: Tree, node: Handle, newParent: Handle, cs: seq<Handle>, i: nat)
    requires Movable(t, node, newParent) && cs == Children(t, node) && i <= |cs|
  {
    MovedSoFar(t, u, node, newParent, cs, i) && Untouched(t, u, node, newParent, cs, i)
  }

  ghost predicate MovedSoFar(t: Tree, u: Tree, node: Handle, newParent: Handle, cs: seq<Handle>, i: nat)
    requires Movable(t, node, newParent) && cs == Children(t, node) && i <= |cs|
  {
    && Wf(u) && Resolves(u, node) && Resolves(u, newParent)
    && Children(u, node) == cs[i..]
    && Children(u, newParent) == Children(t, newParent) + cs[..i]
    && Ancestors(u, newParent) == Ancestors(t, newParent)
    && forall j | 0 <= j < i :: Resolves(u, cs[j]) && Parent(u, cs[j]) == Some(newParent)
  }

  /** Nothing but the moved children and the two parents has changed. */
  ghost predicate Untouched(t: Tree, u: Tree, node: Handle, newParent: Handle, cs: seq<Handle>, i: nat)
    requires i <= |cs|
  {
    && (forall x :: Resolves(u, x) <==> Resolves(t, x))
    && (forall x | Resolves(t, x) :: NodeOf(u, x) == NodeOf(t, x))
    && (forall x | Resolves(t, x) && x !in cs[..i] :: Parent(u, x) == Parent(t, x))
    && (forall x | Resolves(t, x) && x != node && x != newParent :: Children(u, x) == Children(t, x))
  }

  lemma MoveStart(t: Tree, node: Handle, newParent: Handle)
    requires Movable(t, node, newParent)
    ensures Moving(t, t, node, newParent, Children(t, node), 0)
  {
    assert Children(t, newParent) + Children(t, node)[..0] == Children(t, newParent);
  }

  /** Moving the next child keeps `Moving`. */
  lemma MoveStep(t: Tree, u: Tree, node: Handle, newParent: Handle, cs: seq<Handle>, i: nat)
    requires Movable(t, node, newParent) && cs == Children(t, node) && i < |cs|
    requires Moving(t, u, node, newParent, cs, i)
    ensures Resolves(u, cs[i]) && cs[i] !in Ancestors(u, newParent)
    ensures Moving(t, TreeEdits.Append(u, newParent, cs[i]), node, newParent, cs, i + 1)
  {
    var c := cs[i];
    ChildrenNoDup(t, node);
    assert c in Children(u, node) by {
      assert cs[i..][0] == c;
    }
    ChildFacts(u, node, c);
    assert c !in Children(u, newParent) by {
      if c in Children(u, newParent) {
        ChildFacts(u, newParent, c);
      }
    }
    var u' := TreeEdits.Append(u, newParent, c);
    MoveStepOf(t, u, u', node, newParent, cs, i);
  }

  /** In `s` without repeats, dropping the element at `i` from `s[i..]` leaves `s[i + 1..]`. */
  lemma WithoutHead(s: seq<Handle>, i: nat)
    requires NoDup(s) && i < |s|
    ensures Without(s[i..], s[i]) == s[i + 1..]
    ensures s[i..] == [s[i]] + s[i + 1..]
  {
    assert s[i..][1..] == s[i + 1..];
    assert s[i] !in s[i + 1..];
  }

  lemma MoveStepOf(t: Tree, u: Tree, u': Tree, node: Handle, newParent: Handle, cs: seq<Handle>, i: nat)
    requires Movable(t, node, newParent) && cs == Children(t, node) && i < |cs| && NoDup(cs)
    requires Moving(t, u, node, newParent, cs, i)
    requires Resolves(u, cs[i]) && Parent(u, cs[i]) == Some(node) && cs[i] !in Children(u, newParent)
    requires Wf(u') && SameLive(u, u') && SameNodes(u, u')
    requires Resolves(u', cs[i]) && Parent(u', cs[i]) == Some(newParent)
    requires Resolves(u', newParent) && Children(u', newParent) == Without(Children(u, newParent), cs[i]) + [cs[i]]
    requires forall h | Resolves(u, h) && h != cs[i] :: Resolves(u', h) && Parent(u', h) == Parent(u, h)
    requires forall h | Resolves(u, h) && h != newParent ::
      Resolves(u', h) && Children(u', h) == (if Parent(u, cs[i]) == Some(h) then Without(Children(u, h), cs[i]) else Children(u, h))
    ensures Moving(t, u', node, newParent, cs, i + 1)
  {
    MoveStepLinks(t, u, u', node, newParent, cs, i);
    MoveStepFrame(t, u, u', node, newParent, cs, i);
  }

  lemma MoveStepLinks(t: Tree, u: Tree, u': Tree, node: Handle, newParent: Handle, cs: seq<Handle>, i: nat)
    requires Movable(t, node, newParent) && cs == Children(t, node) && i < |cs| && NoDup(cs)
    requires MovedSoFar(t, u, node, newParent, cs, i)
    requires Resolves(u, cs[i]) && Parent(u, cs[i]) == Some(node) && cs[i] !in Children(u, newParent)
    requires Wf(u') && Resolves(u', cs[i]) && Parent(u', cs[i]) == Some(newParent)
    requires Resolves(u', newParent) && Children(u', newParent) == Without(Children(u, newParent), cs[i]) + [cs[i]]
    requires forall h | Resolves(u, h) && h != cs[i] :: Resolves(u', h) && Parent(u', h) == Parent(u, h)
    requires forall h | Resolves(u, h) && h != newParent ::
      Resolves(u', h) && Children(u', h) == (if Parent(u, cs[i]) == Some(h) then Without(Children(u, h), cs[i]) else Children(u, h))
    ensures MovedSoFar(t, u', node, newParent, cs, i + 1)
  {
    var c := cs[i];
    assert Resolves(u, node) && node != newParent && Parent(u, c) == Some(node);
    assert Children(u', node) == Without(cs[i..], c);
    MovedLists(cs, i, Children(t, newParent), Children(u', node), Children(u', newParent));
    assert c !in Ancestors(u, newParent);
    AncestorsFrame(u, u', newParent);
    forall j | 0 <= j < i + 1 ensures Resolves(u', cs[j]) && Parent(u', cs[j]) == Some(newParent) {
      if j < i {
        assert cs[j] != c && Resolves(u, cs[j]);
      }
    }
  }

  /** The two child lists after moving `cs[i]`: it leaves the front of one and joins the end of the other. */
  lemma MovedLists(cs: seq<Handle>, i: nat, before: seq<Handle>, rest: seq<Handle>, joined: seq<Handle>)
    requires NoDup(cs) && i < |cs|
    requires rest == Without(cs[i..], cs[i])
    requires joined == Without(before + cs[..i], cs[i]) + [cs[i]]
    ensures rest == cs[i + 1..]
    ensures cs[i] !in before ==> joined == before + cs[..i + 1]
  {
    WithoutHead(cs, i);
    assert cs[..i + 1] == cs[..i] + [cs[i]];
    if cs[i] !in before {
      assert cs[i] !in cs[..i];
      assert cs[i] !in before + cs[..i];
    }
  }

  lemma MoveStepFrame(t: Tree, u: Tree, u': Tree, node: Handle, newParent: Handle, cs: seq<Handle>, i: nat)
    requires i < |cs| && Untouched(t, u, node, newParent, cs, i)
    requires Resolves(u, cs[i]) && Parent(u, cs[i]) == Some(node)
    requires SameLive(u, u') && SameNodes(u, u')
    requires forall h | Resolves(u, h) && h != cs[i] :: Resolves(u', h) && Parent(u', h) == Parent(u, h)
    requires forall h | Resolves(u, h) && h != newParent ::
      Resolves(u', h) && Children(u', h) == (if Parent(u, cs[i]) == Some(h) then Without(Children(u, h), cs[i]) else Children(u, h))
    ensures Untouched(t, u', node, newParent, cs, i + 1)
  {
    SameLiveResolves(u, u');
    SameNodesRead(u, u');
    assert cs[..i + 1] == cs[..i] + [cs[i]];
  }

  /**
   * `reparent_children` as intended: every child of `node` moves, in order,
   * to the end of `newParent`'s children, and `node` is left childless.
   */
  method MoveChildren(t: Tree, node: Handle, newParent: Handle) returns (u: Tree)
    requires Movable(t, node, newParent)
    ensures Wf(u) && Resolves(u, node) && Resolves(u, newParent)
    ensures Children(u, node) == []
    ensures Children(u, newParent) == Children(t, newParent) + Children(t, node)
    ensures forall c | c in Children(t, node) :: Resolves(u, c) && Parent(u, c) == Some(newParent)
    ensures forall x :: Resolves(u, x) <==> Resolves(t, x)
    ensures forall x | Resolves(t, x) :: NodeOf(u, x) == NodeOf(t, x)
    ensures forall x | Resolves(t, x) && x !in Children(t, node) :: Parent(u, x) == Parent(t, x)
    ensures forall x | Resolves(t, x) && x != node && x != newParent :: Children(u, x) == Children(t, x)
  {
    var cs := Children(t, node);
    MoveStart(t, node, newParent);
    u := t;
    for i := 0 to |cs|
      invariant Moving(t, u, node, newParent, cs, i)
    {
      MoveStep(t, u, node, newParent, cs, i);
      u := TreeEdits.Append(u, newParent, cs[i]);
    }
    MovedAll(t, u, node, newParent, cs);
  }

  lemma MovedAll(t: Tree, u: Tree, node: Handle, newParent: Handle, cs: seq<Handle>)
    requires Movable(t, node, newParent) && cs == Children(t, node)
    requires Moving(t, u, node, newParent, cs, |cs|)
    ensures Children(u, node) == [] && Children(u, newParent) == Children(t, newParent) + cs
    ensures forall c | c in cs :: Resolves(u, c) && Parent(u, c) == Some(newParent)
    ensures forall x | Resolves(t, x) && x !in cs :: Parent(u, x) == Parent(t, x)
  {
    assert MovedSoFar(t, u, node, newParent, cs, |cs|) && Untouched(t, u, node, newParent, cs, |cs|);
    assert cs[..|cs|] == cs && cs[|cs|..] == [];
    forall c | c in cs ensures Resolves(u, c) && Parent(u, c) == Some(newParent) {
      var j :| 0 <= j < |cs| && cs[j] == c;
    }
  }

  class DocumentBuilder {
    var errors: seq<string>
    var tree: Tree
    var quirksMode: QuirksMode
    var root: Handle

    /** The arena is well-formed and the document node is live: nothing the parser asks for removes it. */
    ghost predicate Valid()
      reads this
    {
      Wf(tree) && Resolves(tree, root) && NodeOf(tree, root) == DocumentNode
    }

    /** `DocumentBuilder::new`: an arena holding only the document node; no errors; no-quirks mode. */
    constructor ()
      ensures Valid() && errors == [] && quirksMode == NoQuirks
      ensures forall x :: Resolves(tree, x) <==> x == root
      ensures Parent(tree, root).None? && Children(tree, root) == []
    {
      var t: Tree := [];
      assert Ranked(t, []);
      var (u, h) := NewNode(t, DocumentNode);
      errors, tree, quirksMode, root := [], u, NoQuirks, h;
    }

    /** `finish`: the arena, the document node and the mode become a `Document`. */
    method Finish() returns (d: Document)
      requires Valid()
      ensures fresh(d) && d.Valid() && d.tree == tree && d.root == root && d.quirks == quirksMode
      ensures Resolves(d.tree, d.root) && NodeOf(d.tree, d.root) == DocumentNode
    {
      d := new Document(tree, root, quirksMode);
    }

    /** `parse_error`: the message is kept after the earlier ones. */
    method ParseError(msg: string)
      modifies this
      ensures errors == old(errors) + [msg]
      ensures tree == old(tree) && root == old(root) && quirksMode == old(quirksMode)
    {
      errors := errors + [msg];
    }

    /** `get_document`: the live document node. */
    function GetDocument(): (h: Handle)
      reads this
      requires Valid()
      ensures Resolves(tree, h) && NodeOf(tree, h).IsDocument()
    {
      root
    }

    /** `elem_name`: the element's namespace and local name; any other node panics. */
    function ElemName(target: Handle): (n: ExpandedName)
      reads this
      requires Valid() && Resolves(tree, target) && NodeOf(tree, target).IsElement()
      ensures n.ns == NodeOf(tree, target).element.name.ns && n.local == NodeOf(tree, target).element.name.local
    {
      Expanded(NodeOf(tree, target).element.name)
    }

    /**
     * `create_element`: a new parentless element with the given name and
     * attributes; a `template` gets a fresh fragment as its contents.
     */
    method CreateElement(name: QualName, attrs: seq<Attribute>) returns (id: Handle)
      requires Valid()
      modifies this
      ensures Valid() && errors == old(errors) && root == old(root) && quirksMode == old(quirksMode)
      ensures (tree, id) == CreateElementIn(old(tree), name, attrs)
      ensures Resolves(tree, id) && NodeOf(tree, id).IsElement() && ElemName(id) == Expanded(name)
      ensures Expanded(name) == Template ==> Children(tree, id) != [] && NodeOf(tree, GetTemplateContents(id)) == FragmentNode
    {
      var (u, h) := CreateElementIn(tree, name, attrs);
      tree, id := u, h;
    }

    /** `create_comment`: a new parentless comment node. */
    method CreateComment(text: string) returns (id: Handle)
      requires Valid()
      modifies this
      ensures Valid() && errors == old(errors) && root == old(root) && quirksMode == old(quirksMode)
      ensures (tree, id) == NewNode(old(tree), CommentNode(Comment(text)))
      ensures Resolves(tree, id) && !Resolves(old(tree), id) && NodeOf(tree, id) == CommentNode(Comment(text))
    {
      var (u, h) := NewNode(tree, CommentNode(Comment(text)));
      tree, id := u, h;
    }

    /** `create_pi`: a new parentless processing instruction. */
    method CreatePi(target: string, data: string) returns (id: Handle)
      requires Valid()
      modifies this
      ensures Valid() && errors == old(errors) && root == old(root) && quirksMode == old(quirksMode)
      ensures (tree, id) == NewNode(old(tree), ProcessingInstructionNode(ProcessingInstruction(target, data)))
      ensures Resolves(tree, id) && !Resolves(old(tree), id)
      ensures NodeOf(tree, id) == ProcessingInstructionNode(ProcessingInstruction(target, data))
    {
      var (u, h) := NewNode(tree, ProcessingInstructionNode(ProcessingInstruction(target, data)));
      tree, id := u, h;
    }

    /**
     * `append`: a node becomes `parent`'s last child; text merges into a
     * last child that is text, or becomes a new last child. Appending a
     * node under itself or one of its descendants panics.
     */
    method Append(parent: Handle, child: NodeOrText)
      requires Valid() && Resolves(tree, parent)
      requires child.AppendNode? ==> Resolves(tree, child.id) && child.id !in Ancestors(tree, parent)
      modifies this
      ensures Valid() && errors == old(errors) && root == old(root) && quirksMode == old(quirksMode)
      ensures child.AppendNode? ==> tree == TreeEdits.Append(old(tree), parent, child.id)
      ensures child.AppendText? ==> tree == AppendTextTo(old(tree), parent, child.text)
    {
      match child
      case AppendNode(id) =>
        tree := TreeEdits.Append(tree, parent, id);
        SameNodesRead(old(tree), tree);
      case AppendText(text) =>
        tree := AppendTextTo(tree, parent, text);
    }

    /**
     * `append_based_on_parent_node`: before `element` when it has a parent,
     * otherwise at the end of `prevElement`. A stale `element` panics.
     */
    method AppendBasedOnParentNode(element: Handle, prevElement: Handle, child: NodeOrText)
      requires Valid() && Resolves(tree, element)
      requires Parent(tree, element).Some? && child.AppendNode? ==>
        Resolves(tree, child.id) && (child.id == element || child.id !in Ancestors(tree, element))
      requires Parent(tree, element).None? ==> Resolves(tree, prevElement)
      requires Parent(tree, element).None? && child.AppendNode? ==>
        Resolves(tree, child.id) && child.id !in Ancestors(tree, prevElement)
      modifies this
      ensures Valid() && errors == old(errors) && root == old(root) && quirksMode == old(quirksMode)
      ensures old(Parent(tree, element)).Some? ==> tree == BeforeSibling(old(tree), element, child)
      ensures old(Parent(tree, element)).None? && child.AppendNode? ==> tree == TreeEdits.Append(old(tree), prevElement, child.id)
      ensures old(Parent(tree, element)).None? && child.AppendText? ==> tree == AppendTextTo(old(tree), prevElement, child.text)
    {
      if Parent(tree, element).Some? {
        AppendBeforeSibling(element, child);
      } else {
        Append(prevElement, child);
      }
    }

    /** `append_doctype_to_document`: a new doctype node becomes the document node's last child. */
    method AppendDoctypeToDocument(name: string, publicId: string, systemId: string)
      requires Valid()
      modifies this
      ensures Valid() && errors == old(errors) && root == old(root) && quirksMode == old(quirksMode)
      ensures tree == AppendNew(old(tree), root, DoctypeNode(Doctype(name, publicId, systemId))).0
      ensures AddedLast(old(tree), tree, root, DoctypeNode(Doctype(name, publicId, systemId)))
    {
      var (u, h) := AppendNew(tree, root, DoctypeNode(Doctype(name, publicId, systemId)));
      tree := u;
    }

    /** `get_template_contents`: the first child; a template without one panics. */
    function GetTemplateContents(target: Handle): (r: Handle)
      reads this
      requires Valid() && Resolves(tree, target) && Children(tree, target) != []
      ensures Resolves(tree, r) && Parent(tree, r) == Some(target) && FirstChild(tree, target) == Some(r)
    {
      var r := Children(tree, target)[0];
      ChildFacts(tree, target, r);
      r
    }

    /** `same_node`: handle equality, the same relation as node references' `eq`. */
    function SameNode(x: Handle, y: Handle): (r: bool)
      reads this
      ensures r <==> NodeRef(tree, x).Same(NodeRef(tree, y))
    {
      x == y
    }

    /** `set_quirks_mode` */
    method SetQuirksMode(mode: QuirksMode)
      modifies this
      ensures quirksMode == mode && errors == old(errors) && tree == old(tree) && root == old(root)
    {
      quirksMode := mode;
    }

    /**
     * `append_before_sibling`: see `BeforeSibling`. A stale `sibling` panics,
     * and so does inserting a node before one of its own descendants.
     */
    method AppendBeforeSibling(sibling: Handle, child: NodeOrText)
      requires Valid() && Resolves(tree, sibling)
      requires child.AppendNode? ==> Resolves(tree, child.id) && (child.id == sibling || child.id !in Ancestors(tree, sibling))
      modifies this
      ensures Valid() && errors == old(errors) && root == old(root) && quirksMode == old(quirksMode)
      ensures tree == BeforeSibling(old(tree), sibling, child)
    {
      tree := BeforeSibling(tree, sibling, child);
    }

    /**
     * `add_attrs_if_missing`: each attribute whose name the element lacks
     * is added with its first value; existing ones are kept. The element's
     * name, id and classes are not touched. Any other node panics.
     */
    method AddAttrsIfMissing(target: Handle, attrs: seq<Attribute>)
      requires Valid() && Resolves(tree, target) && NodeOf(tree, target).IsElement()
      modifies this
      ensures Valid() && errors == old(errors) && root == old(root) && quirksMode == old(quirksMode)
      ensures var e := old(NodeOf(tree, target)).element;
        tree == SetNode(old(tree), target, ElementNode(e.(attrs := AddMissing(e.attrs, attrs))))
    {
      var e := NodeOf(tree, target).element;
      var m := InsertMissing(e.attrs, attrs);
      tree := SetNode(tree, target, ElementNode(e.(attrs := m)));
    }

    /** `remove_from_parent`: the node is detached and stays live. */
    method RemoveFromParent(target: Handle)
      requires Valid() && Resolves(tree, target)
      modifies this
      ensures Valid() && errors == old(errors) && root == old(root) && quirksMode == old(quirksMode)
      ensures tree == Detach(old(tree), target)
      ensures Resolves(tree, target) && Parent(tree, target).None?
    {
      tree := Detach(tree, target);
      SameNodesRead(old(tree), tree);
    }

    /**
     * `reparent_children` as written: moves `node` itself, with its
     * children, to the end of `newParent`'s children.
     */
    method ReparentChildrenAsWritten(node: Handle, newParent: Handle)
      requires Valid() && Resolves(tree, node) && Resolves(tree, newParent) && node !in Ancestors(tree, newParent)
      modifies this
      ensures Valid() && errors == old(errors) && root == old(root) && quirksMode == old(quirksMode)
      ensures tree == ReparentAsWritten(old(tree), node, newParent)
    {
      ReparentKeeps(tree, node, newParent, root);
      tree := ReparentAsWritten(tree, node, newParent);
    }

    /**
     * `reparent_children` as intended: the children of `node` move, in
     * order, to the end of `newParent`'s children.
     */
    method ReparentChildren(node: Handle, newParent: Handle)
      requires Valid() && Movable(tree, node, newParent)
      modifies this
      ensures Valid() && errors == old(errors) && root == old(root) && quirksMode == old(quirksMode)
      ensures Resolves(tree, node) && Resolves(tree, newParent) && Children(tree, node) == []
      ensures Children(tree, newParent) == old(Children(tree, newParent) + Children(tree, node))
      ensures forall c | c in old(Children(tree, node)) :: Resolves(tree, c) && Parent(tree, c) == Some(newParent)
      ensures forall x :: Resolves(tree, x) <==> Resolves(old(tree), x)
      ensures forall x | Resolves(old(tree), x) :: NodeOf(tree, x) == NodeOf(old(tree), x)
      ensures forall x | Resolves(old(tree), x) && x !in old(Children(tree, node)) :: Parent(tree, x) == Parent(old(tree), x)
      ensures forall x | Resolves(old(tree), x) && x != node && x != newParent :: Children(tree, x) == Children(old(tree), x)
    {
      tree := MoveChildren(tree, node, newParent);
    }
  }
}
