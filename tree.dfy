/**
 * The node arena of `generational_indextree`, as domjohnson uses it: a
 * sequence of slots, each vacant or holding a node with its parent link and
 * its ordered children; a handle is an (index, generation) pair and resolves
 * only while the slot is occupied with the same generation.
 *
 * This module holds the arena as a value (`Tree`), its well-formedness
 * (`Wf`: links agree in both directions and there is no cycle), its read-only
 * queries and the depth-first edge walk (`traverse`).
 */
module Trees {
  import opened Wrappers
  import opened Nodes

  /** `NodeId`: a slot index and the generation the slot had when the node was created. */
  datatype Handle = Handle(index: nat, generation: nat)

  datatype Slot =
    | Vacant(generation: nat)
    | Occupied(generation: nat, node: Node, parent: Option<Handle>, children: seq<Handle>)

  type Tree = seq<Slot>

  /** `arena.get(h).is_some()`: the slot is live and of the same generation. */
  predicate Resolves(t: Tree, h: Handle) {
    h.index < |t| && t[h.index].Occupied? && t[h.index].generation == h.generation
  }

  /** The handle of the node living in slot `i`. */
  function HandleAt(t: Tree, i: nat): Handle
    requires i < |t|
  {
    Handle(i, t[i].generation)
  }

  predicate NoDup<T(==)>(s: seq<T>) {
    forall i, j | 0 <= i < j < |s| :: s[i] != s[j]
  }

  /** The parent of the node in slot `i`, if any, is live and lists it as a child. */
  predicate ParentLinked(t: Tree, i: nat)
    requires i < |t| && t[i].Occupied?
  {
    match t[i].parent
    case None => true
    case Some(p) => Resolves(t, p) && HandleAt(t, i) in t[p.index].children
  }

  /** The children of the node in slot `i` are distinct, live, and name it as their parent. */
  predicate ChildrenLinked(t: Tree, i: nat)
    requires i < |t| && t[i].Occupied?
  {
    NoDup(t[i].children)
    && forall c | c in t[i].children :: Resolves(t, c) && t[c.index].parent == Some(HandleAt(t, i))
  }

  predicate Linked(t: Tree) {
    forall i | 0 <= i < |t| && t[i].Occupied? :: ParentLinked(t, i) && ChildrenLinked(t, i)
  }

  /** `r` ranks the slots so that every child ranks below its parent: there is no cycle. */
  predicate Ranked(t: Tree, r: seq<nat>) {
    |r| == |t|
    && forall i | 0 <= i < |t| && t[i].Occupied? ::
         forall c | c in t[i].children :: c.index < |t| && r[c.index] < r[i]
  }

  /** A well-formed arena: a forest whose links agree in both directions. */
  ghost predicate Wf(t: Tree) {
    Linked(t) && exists r :: Ranked(t, r)
  }

  ghost function Rank(t: Tree): (r: seq<nat>)
    requires Wf(t)
    ensures Ranked(t, r) && |r| == |t|
  {
    var r :| Ranked(t, r); r
  }

  function Max(a: nat, b: nat): nat {
    if a < b then b else a
  }

  ghost function MaxOf(s: seq<nat>): (m: nat)
    ensures forall i | 0 <= i < |s| :: s[i] <= m
  {
    if s == [] then 0 else Max(s[0], MaxOf(s[1..]))
  }

  /** An upper bound on every rank in the arena. */
  ghost function MaxRank(t: Tree): (m: nat)
    requires Wf(t)
    ensures forall i | 0 <= i < |t| :: Rank(t)[i] <= m
  {
    MaxOf(Rank(t))
  }

  /** `arena.get(h).map(|n| n.get())` */
  function Get(t: Tree, h: Handle): (r: Option<Node>)
    ensures r.Some? <==> Resolves(t, h)
    ensures r.Some? ==> r.value == t[h.index].node
  {
    if Resolves(t, h) then Some(t[h.index].node) else None
  }

  function NodeOf(t: Tree, h: Handle): Node
    requires Resolves(t, h)
  {
    t[h.index].node
  }

  /** `parent()` */
  function Parent(t: Tree, h: Handle): Option<Handle>
    requires Resolves(t, h)
  {
    t[h.index].parent
  }

  /** `children()`, in document order. */
  function Children(t: Tree, h: Handle): seq<Handle>
    requires Resolves(t, h)
  {
    t[h.index].children
  }

  /** A child's facts: it is live, names `h` as its parent and ranks below it. */
  lemma ChildFacts(t: Tree, h: Handle, c: Handle)
    requires Wf(t) && Resolves(t, h) && c in Children(t, h)
    ensures Resolves(t, c) && Parent(t, c) == Some(h)
    ensures Rank(t)[c.index] < Rank(t)[h.index]
  {
    assert HandleAt(t, h.index) == h;
    assert ChildrenLinked(t, h.index);
  }

  /** A parent's facts: it is live, lists `h` among its children and ranks above it. */
  lemma ParentFacts(t: Tree, h: Handle)
    requires Wf(t) && Resolves(t, h) && Parent(t, h).Some?
    ensures Resolves(t, Parent(t, h).value) && h in Children(t, Parent(t, h).value)
    ensures Rank(t)[h.index] < Rank(t)[Parent(t, h).value.index]
  {
    assert HandleAt(t, h.index) == h;
    assert ParentLinked(t, h.index);
  }

  function Reverse<T>(s: seq<T>): (r: seq<T>)
    ensures |r| == |s|
    ensures forall i | 0 <= i < |s| :: r[i] == s[|s| - 1 - i]
  {
    if s == [] then [] else Reverse(s[1..]) + [s[0]]
  }

  /** `reverse_children()`: the children from last to first. */
  function ReverseChildren(t: Tree, h: Handle): (r: seq<Handle>)
    requires Resolves(t, h)
    ensures |r| == |Children(t, h)|
    ensures forall i | 0 <= i < |r| :: r[i] == Children(t, h)[|r| - 1 - i]
  {
    Reverse(Children(t, h))
  }

  /** `first_child()` */
  function FirstChild(t: Tree, h: Handle): (r: Option<Handle>)
    requires Resolves(t, h)
    ensures r.None? <==> Children(t, h) == []
    ensures r.Some? ==> r.value == Children(t, h)[0]
  {
    if Children(t, h) == [] then None else Some(Children(t, h)[0])
  }

  /** `reverse_children().next()`, the last child. */
  function LastChild(t: Tree, h: Handle): (r: Option<Handle>)
    requires Resolves(t, h)
    ensures r.None? <==> Children(t, h) == []
    ensures r.Some? ==> r.value == Children(t, h)[|Children(t, h)| - 1]
  {
    if Children(t, h) == [] then None else Some(Children(t, h)[|Children(t, h)| - 1])
  }

  /** The position of `x` in `s`. */
  function IndexOf<T(==)>(s: seq<T>, x: T): (k: nat)
    requires x in s
    ensures k < |s| && s[k] == x
    ensures forall j | 0 <= j < k :: s[j] != x
  {
    if s[0] == x then 0 else 1 + IndexOf(s[1..], x)
  }

  /** The position of `h` among its parent's children. */
  function SiblingIndex(t: Tree, h: Handle): (k: nat)
    requires Wf(t) && Resolves(t, h) && Parent(t, h).Some?
    ensures Resolves(t, Parent(t, h).value)
    ensures k < |Children(t, Parent(t, h).value)| && Children(t, Parent(t, h).value)[k] == h
  {
    ParentFacts(t, h);
    IndexOf(Children(t, Parent(t, h).value), h)
  }

  /** `previous_sibling()` */
  function PreviousSibling(t: Tree, h: Handle): (r: Option<Handle>)
    requires Wf(t) && Resolves(t, h)
    ensures r.Some? ==> (Parent(t, h).Some? && SiblingIndex(t, h) > 0
      && r.value == Children(t, Parent(t, h).value)[SiblingIndex(t, h) - 1])
    ensures r.None? ==> Parent(t, h).None? || SiblingIndex(t, h) == 0
  {
    match Parent(t, h)
    case None => None
    case Some(p) =>
      var k := SiblingIndex(t, h);
      if k == 0 then None else Some(Children(t, p)[k - 1])
  }

  /**
   * `preceding_siblings()`: the node itself, then its earlier siblings from
   * the nearest to the first.
   */
  function PrecedingSiblings(t: Tree, h: Handle): (r: seq<Handle>)
    requires Wf(t) && Resolves(t, h)
    ensures |r| >= 1 && r[0] == h
    ensures Parent(t, h).None? ==> r == [h]
    ensures Parent(t, h).Some? ==> r == [h] + Reverse(Children(t, Parent(t, h).value)[..SiblingIndex(t, h)])
  {
    match Parent(t, h)
    case None => [h]
    case Some(p) => [h] + Reverse(Children(t, p)[..SiblingIndex(t, h)])
  }

  /**
   * `following_siblings()`: the node itself, then its later siblings in
   * order.
   */
  function FollowingSiblings(t: Tree, h: Handle): (r: seq<Handle>)
    requires Wf(t) && Resolves(t, h)
    ensures |r| >= 1 && r[0] == h
    ensures Parent(t, h).None? ==> r == [h]
    ensures Parent(t, h).Some? ==> r == [h] + Children(t, Parent(t, h).value)[SiblingIndex(t, h) + 1..]
  {
    match Parent(t, h)
    case None => [h]
    case Some(p) => [h] + Children(t, p)[SiblingIndex(t, h) + 1..]
  }

  /** The live handles in slot order (`iter_pairs`). */
  function LiveFrom(t: Tree, i: nat): (r: seq<Handle>)
    requires i <= |t|
    ensures forall h :: h in r <==> i <= h.index && Resolves(t, h)
    ensures forall k | 0 <= k < |r| :: i <= r[k].index
    ensures forall j, k | 0 <= j < k < |r| :: r[j].index < r[k].index
    decreases |t| - i
  {
    if i == |t| then []
    else if t[i].Occupied? then [HandleAt(t, i)] + LiveFrom(t, i + 1)
    else LiveFrom(t, i + 1)
  }

  function LiveHandles(t: Tree): (r: seq<Handle>)
    ensures forall h :: h in r <==> Resolves(t, h)
    ensures forall j, k | 0 <= j < k < |r| :: r[j].index < r[k].index
  {
    LiveFrom(t, 0)
  }

  /** One step of the depth-first walk (`NodeEdge`). */
  datatype Edge = Open(node: Handle) | Close(node: Handle)

  /** One more than the highest rank among `hs`, or 0 for none. */
  ghost function RankBound(t: Tree, hs: seq<Handle>): (b: nat)
    requires Wf(t) && forall c | c in hs :: Resolves(t, c)
    ensures forall c | c in hs :: c.index < |t| && Rank(t)[c.index] < b
    ensures hs == [] ==> b == 0
    ensures hs != [] ==> exists c | c in hs :: c.index < |t| && b == Rank(t)[c.index] + 1
  {
    if hs == [] then 0
    else
      assert hs[0] in hs && Resolves(t, hs[0]);
      assert hs[0].index < |Rank(t)|;
      Max(Rank(t)[hs[0].index] + 1, RankBound(t, hs[1..]))
  }

  lemma ChildrenBound(t: Tree, h: Handle)
    requires Wf(t) && Resolves(t, h)
    ensures forall c | c in Children(t, h) :: Resolves(t, c)
    ensures RankBound(t, Children(t, h)) <= Rank(t)[h.index]
  {
    forall c | c in Children(t, h) ensures Resolves(t, c) && Rank(t)[c.index] < Rank(t)[h.index] {
      ChildFacts(t, h, c);
    }
  }

  /**
   * `traverse()`: Open(h), the walk of each child in order, Close(h). Every
   * node reached is live and ranks no higher than `h`.
   */
  function Traverse(t: Tree, h: Handle): (r: seq<Edge>)
    requires Wf(t) && Resolves(t, h)
    ensures |r| >= 2 && r[0] == Open(h) && r[|r| - 1] == Close(h)
    ensures forall e | e in r :: Resolves(t, e.node) && Rank(t)[e.node.index] <= Rank(t)[h.index]
    decreases Rank(t)[h.index] + 1, 0, 0
  {
    ChildrenBound(t, h);
    [Open(h)] + TraverseForest(t, Children(t, h)) + [Close(h)]
  }

  /** The walks of the trees rooted at `hs`, one after another. */
  function TraverseForest(t: Tree, hs: seq<Handle>): (r: seq<Edge>)
    requires Wf(t) && forall c | c in hs :: Resolves(t, c)
    ensures forall e | e in r :: Resolves(t, e.node) && Rank(t)[e.node.index] < RankBound(t, hs)
    decreases RankBound(t, hs), 1, |hs|
  {
    if hs == [] then [] else Traverse(t, hs[0]) + TraverseForest(t, hs[1..])
  }

  /** The nodes of the subtree of `h` in pre-order (`descendants()`, which includes `h`). */
  function PreOrder(t: Tree, h: Handle): (r: seq<Handle>)
    requires Wf(t) && Resolves(t, h)
    ensures |r| >= 1 && r[0] == h
    ensures forall x | x in r :: Resolves(t, x) && Rank(t)[x.index] <= Rank(t)[h.index]
    decreases Rank(t)[h.index] + 1, 0, 0
  {
    ChildrenBound(t, h);
    [h] + Forest(t, Children(t, h))
  }

  /** The pre-orders of the trees rooted at `hs`, one after another. */
  function Forest(t: Tree, hs: seq<Handle>): (r: seq<Handle>)
    requires Wf(t) && forall c | c in hs :: Resolves(t, c)
    ensures forall x | x in r :: Resolves(t, x) && Rank(t)[x.index] < RankBound(t, hs)
    decreases RankBound(t, hs), 1, |hs|
  {
    if hs == [] then [] else PreOrder(t, hs[0]) + Forest(t, hs[1..])
  }

  /** The nodes opened along a walk, in order. */
  function Opens(es: seq<Edge>): seq<Handle> {
    if es == [] then []
    else if es[0].Open? then [es[0].node] + Opens(es[1..])
    else Opens(es[1..])
  }

  /** The chain from `h` up to its root: `h`, its parent, its grandparent, ... */
  function Ancestors(t: Tree, h: Handle): (r: seq<Handle>)
    requires Wf(t) && Resolves(t, h)
    ensures |r| >= 1 && r[0] == h
    ensures forall x | x in r :: Resolves(t, x)
    ensures Parent(t, r[|r| - 1]).None?
    ensures forall k | 0 <= k < |r| - 1 :: Parent(t, r[k]) == Some(r[k + 1])
    ensures forall k | 0 <= k < |r| :: r[k].index < |t|
    ensures forall j, k | 0 <= j < k < |r| :: Rank(t)[r[j].index] < Rank(t)[r[k].index]
    decreases MaxRank(t) - Rank(t)[h.index]
  {
    match Parent(t, h)
    case None => [h]
    case Some(p) =>
      ParentFacts(t, h);
      [h] + Ancestors(t, p)
  }
}
