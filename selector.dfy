/**
 * `selectors::Element for NodeRef`: the questions the generic selector
 * matcher asks about one node. Every question about the node's own name,
 * attributes, id or classes answers false for a node that is not an
 * element.
 */
module Selectors {
  import opened Wrappers
  import opened Nodes
  import opened Trees
  import opened TreeFacts
  import opened NodeRefs

  /** A reference to a live node of a well-formed arena. */
  predicate Live(r: NodeRef) {
    Resolves(r.tree, r.id)
  }

  /** The `element!` guard: the node's element, or nothing, on which the predicate answers false. */
  function ElementOf(r: NodeRef): (el: Option<Element>)
    requires Live(r)
    ensures el.Some? <==> NodeOf(r.tree, r.id).IsElement()
    ensures el.Some? ==> el.value == NodeOf(r.tree, r.id).element
  {
    NodeOf(r.tree, r.id).AsElement()
  }

  /** `parent_element`: the parent, whatever its kind. */
  function ParentElement(r: NodeRef): (p: Option<NodeRef>)
    requires Wf(r.tree) && Live(r)
    ensures p.Some? ==> Live(p.value) && p.value.tree == r.tree && r.id in Children(r.tree, p.value.id)
    ensures p.None? <==> Parent(r.tree, r.id).None?
  {
    ParentRef(r)
  }

  /** No shadow trees, parts or pseudo-elements: these answers are constant. */
  predicate ParentNodeIsShadowRoot(r: NodeRef) { false }
  function ContainingShadowHost(r: NodeRef): Option<NodeRef> { None }
  predicate IsPseudoElement(r: NodeRef) { false }
  predicate IsPart(r: NodeRef, name: string) { false }
  function ExportedPart(r: NodeRef, name: string): Option<string> { None }
  function ImportedPart(r: NodeRef, name: string): Option<string> { None }
  predicate MatchNonTsPseudoClass(r: NodeRef) { false }
  predicate MatchPseudoElement(r: NodeRef) { false }

  /** `is_same_type`: both nodes are elements with the same qualified name. */
  predicate IsSameType(a: NodeRef, b: NodeRef)
    requires Live(a) && Live(b)
  {
    match (ElementOf(a), ElementOf(b))
    case (Some(x), Some(y)) => x.name == y.name
    case _ => false
  }

  /** The first element among `hs`: the `find(is_element)` the sibling searches run. */
  function FindElement(t: Tree, hs: seq<Handle>): (k: nat)
    requires forall x | x in hs :: Resolves(t, x)
    ensures k <= |hs|
    ensures k < |hs| ==> NodeOf(t, hs[k]).IsElement()
    ensures forall j | 0 <= j < k :: !NodeOf(t, hs[j]).IsElement()
  {
    if hs == [] || NodeOf(t, hs[0]).IsElement() then 0 else 1 + FindElement(t, hs[1..])
  }

  function FoundRef(t: Tree, hs: seq<Handle>): Option<NodeRef>
    requires forall x | x in hs :: Resolves(t, x)
  {
    var k := FindElement(t, hs);
    if k < |hs| then Some(NodeRef(t, hs[k])) else None
  }

  /**
   * `prev_sibling_element` as written: searches `preceding_siblings()`,
   * which starts with the node itself.
   */
  function PrevSiblingElementAsWritten(r: NodeRef): Option<NodeRef>
    requires Wf(r.tree) && Live(r)
  {
    FoundRef(r.tree, PrecedingSiblings(r.tree, r.id))
  }

  /** `next_sibling_element` as written: searches `following_siblings()`, which starts with the node itself. */
  function NextSiblingElementAsWritten(r: NodeRef): Option<NodeRef>
    requires Wf(r.tree) && Live(r)
  {
    FoundRef(r.tree, FollowingSiblings(r.tree, r.id))
  }

  /** As written, an element is its own previous and next sibling element. */
  lemma SiblingElementAsWrittenIsSelf(r: NodeRef)
    requires Wf(r.tree) && Live(r) && NodeOf(r.tree, r.id).IsElement()
    ensures PrevSiblingElementAsWritten(r) == Some(r)
    ensures NextSiblingElementAsWritten(r) == Some(r)
  {
    assert FindElement(r.tree, PrecedingSiblings(r.tree, r.id)) == 0;
    assert FindElement(r.tree, FollowingSiblings(r.tree, r.id)) == 0;
  }

  lemma SiblingsLive(t: Tree, h: Handle)
    requires Wf(t) && Resolves(t, h)
    ensures forall x | x in PrecedingSiblings(t, h) :: Resolves(t, x)
    ensures forall x | x in FollowingSiblings(t, h) :: Resolves(t, x)
  {
    if Parent(t, h).Some? {
      PrecedingLive(t, h);
      FollowingLive(t, h);
    }
  }

  lemma PrecedingLive(t: Tree, h: Handle)
    requires Wf(t) && Resolves(t, h) && Parent(t, h).Some?
    ensures forall j | 0 <= j < |PrecedingSiblings(t, h)| :: Resolves(t, PrecedingSiblings(t, h)[j])
  {
    var p, k := Parent(t, h).value, SiblingIndex(t, h);
    var ch, pre := Children(t, p), PrecedingSiblings(t, h);
    forall j | 0 < j < |pre| ensures Resolves(t, pre[j]) {
      assert pre[j] == Reverse(ch[..k])[j - 1] == ch[k - j];
      ChildFacts(t, p, ch[k - j]);
    }
  }

  lemma FollowingLive(t: Tree, h: Handle)
    requires Wf(t) && Resolves(t, h) && Parent(t, h).Some?
    ensures forall j | 0 <= j < |FollowingSiblings(t, h)| :: Resolves(t, FollowingSiblings(t, h)[j])
  {
    var p, k := Parent(t, h).value, SiblingIndex(t, h);
    var ch, post := Children(t, p), FollowingSiblings(t, h);
    forall j | 0 < j < |post| ensures Resolves(t, post[j]) {
      assert post[j] == ch[k + j];
      ChildFacts(t, p, ch[k + j]);
    }
  }

  /**
   * `prev_sibling_element` as evidently intended: the nearest earlier
   * sibling that is an element, skipping every other kind of node.
   */
  function PrevSiblingElement(r: NodeRef): (s: Option<NodeRef>)
    requires Wf(r.tree) && Live(r)
    ensures s.Some? ==> Parent(r.tree, r.id).Some? && s.value.tree == r.tree
    ensures s.Some? ==>
      var ch := Children(r.tree, Parent(r.tree, r.id).value);
      var k := SiblingIndex(r.tree, r.id);
      exists j | 0 <= j < k :: ch[j] == s.value.id && NodeOf(r.tree, ch[j]).IsElement()
        && forall i | j < i < k :: !NodeOf(r.tree, ch[i]).IsElement()
    ensures s.None? && Parent(r.tree, r.id).Some? ==>
      var ch := Children(r.tree, Parent(r.tree, r.id).value);
      forall i | 0 <= i < SiblingIndex(r.tree, r.id) :: !NodeOf(r.tree, ch[i]).IsElement()
  {
    SiblingsLive(r.tree, r.id);
    PrevSiblingSearch(r.tree, r.id);
    FoundRef(r.tree, PrecedingSiblings(r.tree, r.id)[1..])
  }

  lemma PrevSiblingSearch(t: Tree, h: Handle)
    requires Wf(t) && Resolves(t, h)
    ensures forall x | x in PrecedingSiblings(t, h)[1..] :: Resolves(t, x)
    ensures var before := PrecedingSiblings(t, h)[1..]; var k := FindElement(t, before);
      Parent(t, h).Some? ==>
      var ch := Children(t, Parent(t, h).value);
      var n := SiblingIndex(t, h);
      && (k < |before| ==> n - 1 - k >= 0 && ch[n - 1 - k] == before[k] && forall i | n - 1 - k < i < n :: !NodeOf(t, ch[i]).IsElement())
      && (k == |before| ==> forall i | 0 <= i < n :: !NodeOf(t, ch[i]).IsElement())
  {
    SiblingsLive(t, h);
    var before := PrecedingSiblings(t, h)[1..];
    if Parent(t, h).Some? {
      var ch := Children(t, Parent(t, h).value);
      var n := SiblingIndex(t, h);
      assert before == Reverse(ch[..n]);
      forall i | 0 <= i < n ensures before[i] == ch[n - 1 - i] && Resolves(t, ch[i]) {
        assert before[i] == ch[..n][n - 1 - i];
        ChildFacts(t, Parent(t, h).value, ch[i]);
      }
      FindInReversed(t, before, ch, n);
    }
  }

  lemma FindInReversed(t: Tree, before: seq<Handle>, ch: seq<Handle>, n: nat)
    requires |before| == n <= |ch| && forall x | x in before :: Resolves(t, x)
    requires forall i | 0 <= i < n :: before[i] == ch[n - 1 - i] && Resolves(t, ch[i])
    ensures var k := FindElement(t, before);
      && (k < n ==> ch[n - 1 - k] == before[k] && forall i | n - 1 - k < i < n :: !NodeOf(t, ch[i]).IsElement())
      && (k == n ==> forall i | 0 <= i < n :: !NodeOf(t, ch[i]).IsElement())
  {
    var k := FindElement(t, before);
    forall i | n - 1 - k < i < n ensures !NodeOf(t, ch[i]).IsElement() {
      assert ch[i] == before[n - 1 - i];
    }
  }

  /**
   * `next_sibling_element` as evidently intended: the nearest later sibling
   * that is an element, skipping every other kind of node.
   */
  function NextSiblingElement(r: NodeRef): (s: Option<NodeRef>)
    requires Wf(r.tree) && Live(r)
    ensures s.Some? ==> Parent(r.tree, r.id).Some? && s.value.tree == r.tree
    ensures s.Some? ==>
      var ch := Children(r.tree, Parent(r.tree, r.id).value);
      var k := SiblingIndex(r.tree, r.id);
      exists j | k < j < |ch| :: ch[j] == s.value.id && NodeOf(r.tree, ch[j]).IsElement()
        && forall i | k < i < j :: !NodeOf(r.tree, ch[i]).IsElement()
    ensures s.None? && Parent(r.tree, r.id).Some? ==>
      var ch := Children(r.tree, Parent(r.tree, r.id).value);
      forall i | SiblingIndex(r.tree, r.id) < i < |ch| :: !NodeOf(r.tree, ch[i]).IsElement()
  {
    SiblingsLive(r.tree, r.id);
    NextSiblingSearch(r.tree, r.id);
    FoundRef(r.tree, FollowingSiblings(r.tree, r.id)[1..])
  }

  lemma NextSiblingSearch(t: Tree, h: Handle)
    requires Wf(t) && Resolves(t, h)
    ensures forall x | x in FollowingSiblings(t, h)[1..] :: Resolves(t, x)
    ensures var after := FollowingSiblings(t, h)[1..]; var k := FindElement(t, after);
      Parent(t, h).Some? ==>
      var ch := Children(t, Parent(t, h).value);
      var n := SiblingIndex(t, h);
      && (k < |after| ==> n + 1 + k < |ch| && ch[n + 1 + k] == after[k] && forall i | n < i < n + 1 + k :: !NodeOf(t, ch[i]).IsElement())
      && (k == |after| ==> forall i | n < i < |ch| :: !NodeOf(t, ch[i]).IsElement())
  {
    SiblingsLive(t, h);
    if Parent(t, h).Some? {
      FindInSuffix(t, Children(t, Parent(t, h).value), SiblingIndex(t, h));
    }
  }

  lemma FindInSuffix(t: Tree, ch: seq<Handle>, n: nat)
    requires n < |ch| && forall x | x in ch[n + 1..] :: Resolves(t, x)
    ensures var after := ch[n + 1..]; var k := FindElement(t, after);
      && (k < |after| ==> n + 1 + k < |ch| && ch[n + 1 + k] == after[k] && forall i | n < i < n + 1 + k :: !NodeOf(t, ch[i]).IsElement())
      && (k == |after| ==> forall i | n < i < |ch| :: !NodeOf(t, ch[i]).IsElement())
  {
    var after := ch[n + 1..];
    var k := FindElement(t, after);
    forall i | n < i < |ch| && i < n + 1 + k ensures !NodeOf(t, ch[i]).IsElement() {
      assert ch[i] == after[i - n - 1];
    }
  }

  /** `is_html_element_in_html_document`: an element in the HTML namespace. */
  predicate IsHtmlElementInHtmlDocument(r: NodeRef)
    requires Live(r)
  {
    match ElementOf(r)
    case Some(el) => el.name.ns == HtmlNamespace
    case None => false
  }

  /** `has_local_name` */
  predicate HasLocalName(r: NodeRef, name: string)
    requires Live(r)
  {
    match ElementOf(r)
    case Some(el) => el.name.local == name
    case None => false
  }

  /** `has_namespace` */
  predicate HasNamespace(r: NodeRef, ns: string)
    requires Live(r)
  {
    match ElementOf(r)
    case Some(el) => el.name.ns == ns
    case None => false
  }

  /** `NamespaceConstraint`: any namespace, or one given namespace. */
  datatype NamespaceConstraint = AnyNamespace | Specific(url: string)

  predicate Admits(c: NamespaceConstraint, ns: string) {
    !(c.Specific? && c.url != ns)
  }

  /**
   * `attr_matches`: some attribute has the requested local name, a
   * namespace the constraint admits, and a value the operation accepts
   * (the operation, `AttrSelectorOperation::eval_str`, is a parameter).
   */
  predicate AttrMatches(r: NodeRef, c: NamespaceConstraint, local: string, op: string -> bool)
    requires Live(r)
  {
    match ElementOf(r)
    case Some(el) => exists k | k in el.attrs :: Admits(c, k.ns) && local == k.local && op(el.attrs[k])
    case None => false
  }

  /**
   * An attribute that `attr` finds is matched by an attribute selector on
   * its name whose operation accepts its value, under any namespace
   * constraint and under the empty-namespace one; with no attribute of
   * that local name, nothing matches.
   */
  lemma AttrMatchesAttr(r: NodeRef, name: string, op: string -> bool)
    requires Live(r)
    ensures AttrOf(r, name).Some? && op(AttrOf(r, name).value) ==>
      AttrMatches(r, AnyNamespace, name, op) && AttrMatches(r, Specific(NoNamespace), name, op)
    ensures NodeOf(r.tree, r.id).IsElement() && !NodeOf(r.tree, r.id).element.HasAttr(name, CaseSensitive) ==>
      !AttrMatches(r, AnyNamespace, name, op)
  {
    if AttrOf(r, name).Some? {
      var k := QualName(None, NoNamespace, name);
      assert k in NodeOf(r.tree, r.id).element.attrs;
    }
  }

  /** `is_link`: an element whose local name is "link". */
  predicate IsLink(r: NodeRef)
    requires Live(r)
  {
    match ElementOf(r)
    case Some(el) => el.Name() == "link"
    case None => false
  }

  /** `is_html_slot_element` as written: true of every node, without the element guard. */
  predicate IsHtmlSlotElementAsWritten(r: NodeRef) {
    true
  }

  /** `is_html_slot_element` as evidently intended: an HTML `slot` element. */
  predicate IsHtmlSlotElement(r: NodeRef)
    requires Live(r)
  {
    match ElementOf(r)
    case Some(el) => el.name.ns == HtmlNamespace && el.name.local == "slot"
    case None => false
  }

  /** As written, a text node counts as a slot element; the intended test accepts only `slot` elements. */
  lemma SlotAsWrittenAcceptsText(t: Tree, h: Handle)
    requires Resolves(t, h) && NodeOf(t, h).IsText()
    ensures IsHtmlSlotElementAsWritten(NodeRef(t, h)) && !IsHtmlSlotElement(NodeRef(t, h))
  {
  }

  lemma SlotOnlySlots(r: NodeRef)
    requires Live(r)
    ensures IsHtmlSlotElement(r) <==> HasLocalName(r, "slot") && IsHtmlElementInHtmlDocument(r)
  {
  }

  /** The element has an id, equal to `id` under `cs`. */
  predicate IdMatches(el: Element, id: string, cs: CaseSensitivity) {
    match el.id
    case Some(v) => cs.Eq(id, v)
    case None => false
  }

  /** `has_id` */
  predicate HasId(r: NodeRef, id: string, cs: CaseSensitivity)
    requires Live(r)
  {
    match ElementOf(r)
    case Some(el) => IdMatches(el, id, cs)
    case None => false
  }

  /**
   * The id selector finds an element by the value of the first "id"
   * attribute it was built with, and never finds one built without any.
   */
  lemma HasIdOfNewElement(name: QualName, attrs: seq<Attribute>, id: string)
    ensures IdMatches(NewElement(name, attrs), id, CaseSensitive)
      <==> FindLocal(attrs, "id").Some? && FindLocal(attrs, "id").value.value == id
    ensures (forall i | 0 <= i < |attrs| :: attrs[i].name.local != "id") ==>
      !IdMatches(NewElement(name, attrs), id, AsciiCaseInsensitive)
  {
  }

  /** `has_class`: the element's `has_class`. */
  predicate HasClass(r: NodeRef, name: string, cs: CaseSensitivity)
    requires Live(r)
  {
    match ElementOf(r)
    case Some(el) => el.HasClass(name, cs)
    case None => false
  }

  /** `is_empty` (`:empty`): no child is an element or a text node, even an empty one. */
  predicate IsEmpty(r: NodeRef)
    requires Wf(r.tree) && Live(r)
  {
    ChildrenBound(r.tree, r.id);
    !exists c | c in Children(r.tree, r.id) :: NodeOf(r.tree, c).IsElement() || NodeOf(r.tree, c).IsText()
  }

  /**
   * `:empty` looks at the direct children only: a node without children is
   * empty, and an element or text child, even one with no characters,
   * defeats `:empty`.
   */
  lemma IsEmptyChildren(r: NodeRef)
    requires Wf(r.tree) && Live(r)
    ensures Children(r.tree, r.id) == [] ==> IsEmpty(r)
    ensures forall c | c in Children(r.tree, r.id) :: Resolves(r.tree, c)
    ensures forall c | c in Children(r.tree, r.id) && NodeOf(r.tree, c) == TextNode(Text("")) :: !IsEmpty(r)
    ensures forall c | c in Children(r.tree, r.id) && (NodeOf(r.tree, c).IsText() || NodeOf(r.tree, c).IsElement()) :: !IsEmpty(r)
  {
    ChildrenBound(r.tree, r.id);
  }

  /** `is_root` (`:root`): the parent exists and is the document node. */
  predicate IsRoot(r: NodeRef)
    requires Wf(r.tree) && Live(r)
  {
    match ParentRef(r)
    case Some(p) => NodeOf(p.tree, p.id).IsDocument()
    case None => false
  }

  /**
   * Below a document node, `:root` holds of exactly its children; it holds
   * of no parentless node, so never of the document itself.
   */
  lemma IsRootChildrenOfDocument(t: Tree, d: Handle, x: Handle)
    requires Wf(t) && Resolves(t, d) && Resolves(t, x) && NodeOf(t, d).IsDocument()
    ensures x in Children(t, d) ==> IsRoot(NodeRef(t, x))
    ensures Parent(t, x) == Some(d) ==> IsRoot(NodeRef(t, x))
    ensures Parent(t, x).None? ==> !IsRoot(NodeRef(t, x))
    ensures IsRoot(NodeRef(t, x)) ==> exists p | p in LiveHandles(t) :: NodeOf(t, p).IsDocument() && x in Children(t, p)
  {
    if x in Children(t, d) {
      ChildFacts(t, d, x);
    }
    if IsRoot(NodeRef(t, x)) {
      var p := Parent(t, x).value;
      ParentFacts(t, x);
      assert p in LiveHandles(t);
    }
  }

  /** The questions about shadow trees, parts and pseudo-elements answer false or nothing for every node. */
  lemma ConstantAnswers(r: NodeRef, name: string)
    ensures !ParentNodeIsShadowRoot(r) && ContainingShadowHost(r).None? && !IsPseudoElement(r)
    ensures !IsPart(r, name) && ExportedPart(r, name).None? && ImportedPart(r, name).None?
    ensures !MatchNonTsPseudoClass(r) && !MatchPseudoElement(r)
  {
  }

  /**
   * `is_same_type`: two nodes are of the same type exactly when both are
   * elements whose prefix, namespace and local name coincide; the relation
   * is symmetric and holds of every element and itself.
   */
  lemma SameTypeAnswer(r: NodeRef, o: NodeRef)
    requires Live(r) && Live(o) && NodeOf(r.tree, r.id).IsElement()
    ensures var el := NodeOf(r.tree, r.id).element;
      IsSameType(r, o) <==>
        NodeOf(o.tree, o.id).IsElement() && NodeOf(o.tree, o.id).element.name.prefix == el.name.prefix
        && HasNamespace(o, el.name.ns) && HasLocalName(o, el.name.local)
    ensures IsSameType(r, o) <==> IsSameType(o, r)
    ensures IsSameType(r, r)
  {
  }

  /**
   * On an element, `has_local_name` and `has_namespace` compare the two
   * parts of its name, and an HTML element is one in the HTML namespace.
   */
  lemma NameAnswers(r: NodeRef, name: string)
    requires Live(r) && NodeOf(r.tree, r.id).IsElement()
    ensures HasLocalName(r, name) <==> NodeOf(r.tree, r.id).element.name.local == name
    ensures HasNamespace(r, name) <==> NodeOf(r.tree, r.id).element.name.ns == name
    ensures IsHtmlElementInHtmlDocument(r) <==> HasNamespace(r, HtmlNamespace)
  {
  }

  /** `is_link` is `has_local_name("link")`, in whatever namespace. */
  lemma LinkAnswer(r: NodeRef)
    requires Live(r)
    ensures IsLink(r) <==> HasLocalName(r, "link")
  {
  }

  /**
   * Compared case-sensitively, `has_id` looks for the exact id and
   * `has_class` for the exact class; ignoring ASCII case, the element's
   * own id and classes are found.
   */
  lemma IdClassAnswers(r: NodeRef, name: string)
    requires Live(r) && NodeOf(r.tree, r.id).IsElement()
    ensures HasId(r, name, CaseSensitive) <==> NodeOf(r.tree, r.id).element.id == Some(name)
    ensures HasClass(r, name, CaseSensitive) <==> name in NodeOf(r.tree, r.id).element.classes
    ensures NodeOf(r.tree, r.id).element.id == Some(name) ==> HasId(r, name, AsciiCaseInsensitive)
    ensures name in NodeOf(r.tree, r.id).element.classes ==> HasClass(r, name, AsciiCaseInsensitive)
  {
    var el := NodeOf(r.tree, r.id).element;
    EqIsEquality(name, name);
    if el.id.Some? {
      EqIsEquality(name, el.id.value);
    }
  }

  /** Every guarded predicate answers false for a node that is not an element. */
  lemma GuardRejectsNonElements(r: NodeRef, o: NodeRef, name: string, c: NamespaceConstraint, op: string -> bool, cs: CaseSensitivity)
    requires Live(r) && Live(o) && !NodeOf(r.tree, r.id).IsElement()
    ensures !IsSameType(r, o) && !IsSameType(o, r)
    ensures !IsHtmlElementInHtmlDocument(r) && !HasLocalName(r, name) && !HasNamespace(r, name)
    ensures !AttrMatches(r, c, name, op) && !IsLink(r) && !HasId(r, name, cs) && !HasClass(r, name, cs)
    ensures !IsHtmlSlotElement(r)
  {
  }
}
