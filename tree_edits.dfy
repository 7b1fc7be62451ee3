/**
 * The arena's mutations as functions from the arena before to the arena
 * after: `new_node`, `detach`, `append`, `insert_before`, `remove_subtree`,
 * `remove` and writing a node's payload. Each one keeps the arena
 * well-formed, and its contract says which links change and that nothing
 * else does.
 */
module TreeEdits {
  import opened Wrappers
  import opened Nodes
  import opened Trees
  import opened TreeFacts

  /** The same slots are live, with the same generations. */
  predicate SameLive(t: Tree, u: Tree) {
    |u| == |t| && forall i | 0 <= i < |t| :: u[i].Occupied? == t[i].Occupied? && u[i].generation == t[i].generation
  }

  /** Every node that is live in both arenas holds the same payload. */
  predicate SameNodes(t: Tree, u: Tree) {
    forall i | 0 <= i < |t| && i < |u| && t[i].Occupied? && u[i].Occupied? :: u[i].node == t[i].node
  }

  /** No slot's generation goes down, and no slot disappears. */
  predicate GenerationsGrow(t: Tree, u: Tree) {
    |t| <= |u| && forall i | 0 <= i < |t| :: t[i].generation <= u[i].generation
  }

  /** A handle whose slot has moved on to a later generation: it can never resolve again. */
  predicate Stale(t: Tree, h: Handle) {
    h.index < |t| && h.generation < t[h.index].generation
  }

  lemma StaleStays(t: Tree, u: Tree, h: Handle)
    requires Stale(t, h) && GenerationsGrow(t, u)
    ensures Stale(u, h) && !Resolves(u, h)
  {
  }

  /** Arenas with the same live slots resolve the same handles. */
  lemma SameLiveResolves(t: Tree, u: Tree)
    requires SameLive(t, u)
    ensures forall x :: Resolves(u, x) <==> Resolves(t, x)
  {
  }

  /** ... and, when they hold the same payloads, every such handle reads the same node. */
  lemma SameNodesRead(t: Tree, u: Tree)
    requires SameLive(t, u) && SameNodes(t, u)
    ensures forall x | Resolves(t, x) :: Resolves(u, x) && NodeOf(u, x) == NodeOf(t, x)
  {
  }

  /** `s` without `x`, in order. */
  function Without(s: seq<Handle>, x: Handle): (r: seq<Handle>)
    ensures forall y :: y in r <==> y in s && y != x
    ensures NoDup(s) ==> NoDup(r)
    ensures x !in s ==> r == s
  {
    if s == [] then []
    else if s[0] == x then Without(s[1..], x)
    else
      var r := [s[0]] + Without(s[1..], x);
      if NoDup(s) then
        NoDupTail(s);
        assert s[0] !in s[1..] by {
          forall j | 0 <= j < |s[1..]| ensures s[1..][j] != s[0] {
            assert s[1..][j] == s[j + 1];
          }
        }
        NoDupAppend([s[0]], Without(s[1..], x));
        r
      else r
  }

  lemma ParentOfChild(t: Tree, i: nat, c: Handle)
    requires Wf(t) && i < |t| && t[i].Occupied? && c in t[i].children
    ensures Resolves(t, c) && t[c.index].parent == Some(HandleAt(t, i))
  {
    assert ChildrenLinked(t, i);
  }

  lemma ResolvesSame(t: Tree, a: Handle, b: Handle)
    requires Resolves(t, a) && Resolves(t, b) && a.index == b.index
    ensures a == b
  {
  }

  /**
   * `detach`: the node leaves its parent's children; its own subtree, every
   * payload and every other link stay as they were.
   */
  function Detach(t: Tree, c: Handle): (u: Tree)
    requires Wf(t) && Resolves(t, c)
    ensures Wf(u) && SameLive(t, u) && SameNodes(t, u)
    ensures Resolves(u, c) && Parent(u, c).None? && Children(u, c) == Children(t, c)
    ensures forall h | Resolves(t, h) && h != c :: Resolves(u, h) && Parent(u, h) == Parent(t, h)
    ensures forall h | Resolves(t, h) ::
              Resolves(u, h) && Children(u, h) == (if Parent(t, c) == Some(h) then Without(Children(t, h), c) else Children(t, h))
  {
    match Parent(t, c)
    case None => t
    case Some(p) =>
      ParentFacts(t, c);
      var t1 := t[p.index := t[p.index].(children := Without(t[p.index].children, c))];
      var u := t1[c.index := t1[c.index].(parent := None)];
      DetachWf(t, c, p, u);
      u
  }

  lemma DetachWf(t: Tree, c: Handle, p: Handle, u: Tree)
    requires Wf(t) && Resolves(t, c) && Parent(t, c) == Some(p)
    requires Resolves(t, p) && c in Children(t, p) && Rank(t)[c.index] < Rank(t)[p.index]
    requires u == t[p.index := t[p.index].(children := Without(t[p.index].children, c))][c.index := t[c.index].(parent := None)]
    ensures Wf(u)
  {
    forall i | 0 <= i < |u| && u[i].Occupied? ensures ParentLinked(u, i) && ChildrenLinked(u, i) {
      DetachKeepsLinks(t, c, p, u, i);
    }
    DetachRanked(t, c, p, u);
  }

  lemma DetachRanked(t: Tree, c: Handle, p: Handle, u: Tree)
    requires Wf(t) && Resolves(t, c) && Resolves(t, p)
    requires u == t[p.index := t[p.index].(children := Without(t[p.index].children, c))][c.index := t[c.index].(parent := None)]
    ensures Ranked(u, Rank(t))
  {
    forall i | 0 <= i < |u| && u[i].Occupied? ensures forall d | d in u[i].children :: d.index < |u| && Rank(t)[d.index] < Rank(t)[i] {
      assert forall d | d in u[i].children :: d in t[i].children;
    }
  }

  lemma DetachKeepsLinks(t: Tree, c: Handle, p: Handle, u: Tree, i: nat)
    requires Wf(t) && Resolves(t, c) && Parent(t, c) == Some(p)
    requires Resolves(t, p) && c in Children(t, p) && p.index != c.index
    requires u == t[p.index := t[p.index].(children := Without(t[p.index].children, c))][c.index := t[c.index].(parent := None)]
    requires i < |u| && u[i].Occupied?
    ensures ParentLinked(u, i) && ChildrenLinked(u, i)
  {
    assert ParentLinked(t, i) && ChildrenLinked(t, i);
    assert HandleAt(u, i) == HandleAt(t, i);
    if i != c.index && t[i].parent == Some(p) {
      assert HandleAt(t, c.index) == c && HandleAt(t, i) != c;
    }
    forall d | d in u[i].children ensures Resolves(u, d) && u[d.index].parent == Some(HandleAt(u, i)) {
      DetachKeepsChild(t, c, p, u, i, d);
    }
  }

  lemma DetachKeepsChild(t: Tree, c: Handle, p: Handle, u: Tree, i: nat, d: Handle)
    requires Wf(t) && Resolves(t, c) && Parent(t, c) == Some(p)
    requires Resolves(t, p) && p.index != c.index
    requires u == t[p.index := t[p.index].(children := Without(t[p.index].children, c))][c.index := t[c.index].(parent := None)]
    requires i < |u| && u[i].Occupied? && d in u[i].children
    ensures Resolves(u, d) && u[d.index].parent == Some(HandleAt(u, i))
  {
    assert d in t[i].children;
    ParentOfChild(t, i, d);
    assert HandleAt(t, p.index) == p && HandleAt(t, c.index) == c;
    if i == p.index {
      assert d != c;
    } else {
      assert HandleAt(t, i) != p;
      assert t[d.index].parent != t[c.index].parent;
    }
    assert d.index != c.index;
  }

  /**
   * Links a parentless node `c` into `p`'s children at position `k`; the
   * library's precondition is that `c` is not `p` or one of its ancestors.
   */
  function LinkAt(t: Tree, p: Handle, k: nat, c: Handle): (u: Tree)
    requires Wf(t) && Resolves(t, p) && Resolves(t, c) && Parent(t, c).None?
    requires k <= |Children(t, p)| && c !in Ancestors(t, p)
    ensures Wf(u) && SameLive(t, u) && SameNodes(t, u)
    ensures Resolves(u, c) && Parent(u, c) == Some(p)
    ensures Resolves(u, p) && Children(u, p) == Children(t, p)[..k] + [c] + Children(t, p)[k..]
    ensures forall h | Resolves(t, h) && h != c :: Resolves(u, h) && Parent(u, h) == Parent(t, h)
    ensures forall h | Resolves(t, h) && h != p :: Resolves(u, h) && Children(u, h) == Children(t, h)
  {
    assert p.index != c.index;
    var ch := Children(t, p);
    var t1 := t[p.index := t[p.index].(children := ch[..k] + [c] + ch[k..])];
    var u := t1[c.index := t1[c.index].(parent := Some(p))];
    LinkWf(t, p, k, c, u);
    u
  }

  lemma LinkWf(t: Tree, p: Handle, k: nat, c: Handle, u: Tree)
    requires Wf(t) && Resolves(t, p) && Resolves(t, c) && Parent(t, c).None?
    requires k <= |Children(t, p)| && c !in Ancestors(t, p) && p.index != c.index
    requires u == t[p.index := t[p.index].(children := Children(t, p)[..k] + [c] + Children(t, p)[k..])][c.index := t[c.index].(parent := Some(p))]
    ensures Wf(u)
  {
    LinkLinked(t, p, k, c, u);
    LinkRanked(t, p, k, c, u);
  }

  /** Splicing a new element into a list without repeats keeps it without repeats. */
  lemma SpliceNoDup(ch: seq<Handle>, k: nat, c: Handle)
    requires NoDup(ch) && c !in ch && k <= |ch|
    ensures forall y :: y in ch[..k] + [c] + ch[k..] <==> y in ch || y == c
    ensures NoDup(ch[..k] + [c] + ch[k..])
  {
    var a, b := ch[..k], ch[k..];
    assert ch == a + b;
    assert NoDup(a) by {
      forall i, j | 0 <= i < j < |a| ensures a[i] != a[j] { assert a[i] == ch[i] && a[j] == ch[j]; }
    }
    assert NoDup(b) by {
      forall i, j | 0 <= i < j < |b| ensures b[i] != b[j] { assert b[i] == ch[k + i] && b[j] == ch[k + j]; }
    }
    assert forall x | x in a :: x !in b by {
      forall i, j | 0 <= i < |a| && 0 <= j < |b| ensures a[i] != b[j] {
        assert a[i] == ch[i] && b[j] == ch[k + j];
      }
    }
    NoDupAppend(a, [c]);
    NoDupAppend(a + [c], b);
  }

  lemma LinkLinked(t: Tree, p: Handle, k: nat, c: Handle, u: Tree)
    requires Wf(t) && Resolves(t, p) && Resolves(t, c) && Parent(t, c).None?
    requires k <= |Children(t, p)| && p.index != c.index
    requires u == t[p.index := t[p.index].(children := Children(t, p)[..k] + [c] + Children(t, p)[k..])][c.index := t[c.index].(parent := Some(p))]
    ensures Linked(u)
  {
    var ch := Children(t, p);
    assert HandleAt(t, p.index) == p && HandleAt(t, c.index) == c;
    assert c !in ch by {
      if c in ch {
        ParentOfChild(t, p.index, c);
      }
    }
    assert ChildrenLinked(t, p.index);
    SpliceNoDup(ch, k, c);
    forall i | 0 <= i < |u| && u[i].Occupied? ensures ParentLinked(u, i) && ChildrenLinked(u, i) {
      LinkSlot(t, p, k, c, u, i);
    }
  }

  /** One slot of the arena after linking `c` under `p` is still linked both ways. */
  lemma LinkSlot(t: Tree, p: Handle, k: nat, c: Handle, u: Tree, i: nat)
    requires Wf(t) && Resolves(t, p) && Resolves(t, c) && Parent(t, c).None?
    requires k <= |Children(t, p)| && p.index != c.index
    requires u == t[p.index := t[p.index].(children := Children(t, p)[..k] + [c] + Children(t, p)[k..])][c.index := t[c.index].(parent := Some(p))]
    requires forall y :: y in u[p.index].children <==> y in Children(t, p) || y == c
    requires NoDup(u[p.index].children)
    requires i < |u| && u[i].Occupied?
    ensures ParentLinked(u, i) && ChildrenLinked(u, i)
  {
    assert HandleAt(t, p.index) == p && HandleAt(t, c.index) == c;
    assert ParentLinked(t, i) && ChildrenLinked(t, i);
    assert HandleAt(u, i) == HandleAt(t, i);
    forall d | d in u[i].children ensures Resolves(u, d) && u[d.index].parent == Some(HandleAt(u, i)) {
      if d != c {
        ParentOfChild(t, i, d);
        if d.index == c.index {
          ResolvesSame(t, d, c);
        }
      }
    }
  }

  lemma LinkRanked(t: Tree, p: Handle, k: nat, c: Handle, u: Tree)
    requires Wf(t) && Resolves(t, p) && Resolves(t, c) && Parent(t, c).None?
    requires k <= |Children(t, p)| && c !in Ancestors(t, p) && p.index != c.index
    requires u == t[p.index := t[p.index].(children := Children(t, p)[..k] + [c] + Children(t, p)[k..])][c.index := t[c.index].(parent := Some(p))]
    ensures exists r :: Ranked(u, r)
  {
    var r := Rerank(t, c);
    SubtreeIffAncestor(t, c, p);
    assert HandleAt(t, p.index) == p && HandleAt(t, c.index) == c;
    forall i | 0 <= i < |u| && u[i].Occupied? ensures forall d | d in u[i].children :: d.index < |u| && r[d.index] < r[i] {
      forall d | d in u[i].children ensures d.index < |u| && r[d.index] < r[i] {
        if i == p.index && d == c {
        } else {
          assert d in t[i].children by {
            if i == p.index {
              assert Children(t, p) == Children(t, p)[..k] + Children(t, p)[k..];
            }
          }
          RankedChild(t, c, i, d, r);
        }
      }
    }
    assert Ranked(u, r);
  }

  /**
   * A ranking for linking `c` under a new parent: `c`'s subtree keeps its
   * ranks and every other node is lifted above all of them.
   */
  ghost function Rerank(t: Tree, c: Handle): (r: seq<nat>)
    requires Wf(t) && Resolves(t, c)
    ensures |r| == |t|
    ensures forall i | 0 <= i < |t| ::
      r[i] == if t[i].Occupied? && HandleAt(t, i) in PreOrder(t, c) then Rank(t)[i] else Rank(t)[i] + Rank(t)[c.index] + 1
  {
    seq(|t|, i requires 0 <= i < |t| =>
      if t[i].Occupied? && HandleAt(t, i) in PreOrder(t, c) then Rank(t)[i] else Rank(t)[i] + Rank(t)[c.index] + 1)
  }

  /** Under the re-ranking, an existing child still ranks below its parent. */
  lemma RankedChild(t: Tree, c: Handle, i: nat, d: Handle, r: seq<nat>)
    requires Wf(t) && Resolves(t, c) && Parent(t, c).None? && i < |t| && t[i].Occupied? && d in t[i].children
    requires r == Rerank(t, c)
    ensures d.index < |t| && r[d.index] < r[i]
  {
    var sub := PreOrder(t, c);
    var x := HandleAt(t, i);
    ChildFacts(t, x, d);
    assert HandleAt(t, d.index) == d;
    if x in sub {
      ChildInSubtree(t, c, x, d);
    } else {
      SubtreeIffAncestor(t, c, d);
      SubtreeIffAncestor(t, c, x);
      assert Ancestors(t, d) == [d] + Ancestors(t, x);
      assert d !in sub;
    }
  }

  /** The chain above `x` is the same in `u` wherever the parents along it are. */
  lemma {:induction false} AncestorsFrame(t: Tree, u: Tree, x: Handle)
    requires Wf(t) && Wf(u) && Resolves(t, x)
    requires forall y | y in Ancestors(t, x) :: Resolves(u, y) && Parent(u, y) == Parent(t, y)
    ensures Resolves(u, x) && Ancestors(u, x) == Ancestors(t, x)
    decreases MaxRank(t) - Rank(t)[x.index]
  {
    assert x in Ancestors(t, x);
    match Parent(t, x)
    case None =>
    case Some(q) =>
      ParentFacts(t, x);
      assert Ancestors(t, x) == [x] + Ancestors(t, q);
      AncestorsFrame(t, u, q);
  }

  /**
   * The walk of `h` is the same in `u` wherever the children of the nodes it
   * visits are: an edit outside a subtree leaves the subtree's walk alone.
   */
  lemma {:induction false} TraverseFrame(t: Tree, u: Tree, h: Handle)
    requires Wf(t) && Wf(u) && Resolves(t, h)
    requires forall x | x in PreOrder(t, h) :: Resolves(u, x) && Children(u, x) == Children(t, x)
    ensures Resolves(u, h) && Traverse(u, h) == Traverse(t, h) && PreOrder(u, h) == PreOrder(t, h)
    decreases Rank(t)[h.index] + 1, 0, 0
  {
    assert h in PreOrder(t, h);
    ChildrenBound(t, h);
    ChildrenBound(u, h);
    forall x | x in Forest(t, Children(t, h)) ensures Resolves(u, x) && Children(u, x) == Children(t, x) {
      assert x in PreOrder(t, h);
    }
    ForestFrame(t, u, Children(t, h));
  }

  lemma {:induction false} ForestFrame(t: Tree, u: Tree, hs: seq<Handle>)
    requires Wf(t) && Wf(u) && forall c | c in hs :: Resolves(t, c)
    requires forall x | x in Forest(t, hs) :: Resolves(u, x) && Children(u, x) == Children(t, x)
    ensures forall c | c in hs :: Resolves(u, c)
    ensures TraverseForest(u, hs) == TraverseForest(t, hs) && Forest(u, hs) == Forest(t, hs)
    decreases RankBound(t, hs), 1, |hs|
  {
    forall c | c in hs ensures Resolves(u, c) {
      ForestMember(t, hs, c);
      assert c in PreOrder(t, c);
    }
    if hs != [] {
      assert hs[0] in hs;
      assert Forest(t, hs) == PreOrder(t, hs[0]) + Forest(t, hs[1..]);
      TraverseFrame(t, u, hs[0]);
      ForestFrame(t, u, hs[1..]);
    }
  }

  /** Detaching `c` leaves the chain above any node that does not pass through `c`. */
  lemma DetachAncestors(t: Tree, c: Handle, x: Handle)
    requires Wf(t) && Resolves(t, c) && Resolves(t, x) && c !in Ancestors(t, x)
    ensures Resolves(Detach(t, c), x) && Ancestors(Detach(t, c), x) == Ancestors(t, x)
  {
    AncestorsFrame(t, Detach(t, c), x);
  }

  /** Detaching `c` leaves its own subtree, and its walk, as they were. */
  lemma DetachSubtree(t: Tree, c: Handle)
    requires Wf(t) && Resolves(t, c)
    ensures Resolves(Detach(t, c), c)
    ensures Traverse(Detach(t, c), c) == Traverse(t, c) && PreOrder(Detach(t, c), c) == PreOrder(t, c)
  {
    var u := Detach(t, c);
    forall x | x in PreOrder(t, c) ensures Resolves(u, x) && Children(u, x) == Children(t, x) {
      if Parent(t, c) == Some(x) {
        ParentFacts(t, c);
      }
    }
    TraverseFrame(t, u, c);
  }

  /**
   * `append`: `c` leaves its old parent and becomes the last child of `p`;
   * its subtree moves with it unchanged. The library refuses (panics) when
   * `c` is `p` or one of its ancestors.
   */
  function Append(t: Tree, p: Handle, c: Handle): (u: Tree)
    requires Wf(t) && Resolves(t, p) && Resolves(t, c) && c !in Ancestors(t, p)
    ensures Wf(u) && SameLive(t, u) && SameNodes(t, u)
    ensures Resolves(u, c) && Parent(u, c) == Some(p)
    ensures Resolves(u, p) && Children(u, p) == Without(Children(t, p), c) + [c]
    ensures forall h | Resolves(t, h) && h != c :: Resolves(u, h) && Parent(u, h) == Parent(t, h)
    ensures forall h | Resolves(t, h) && h != p ::
              Resolves(u, h) && Children(u, h) == (if Parent(t, c) == Some(h) then Without(Children(t, h), c) else Children(t, h))
    ensures Traverse(u, c) == Traverse(t, c) && PreOrder(u, c) == PreOrder(t, c)
  {
    var t1 := Detach(t, c);
    DetachAncestors(t, c, p);
    assert Children(t1, p) == Without(Children(t, p), c) by {
      if Parent(t, c) != Some(p) && c in Children(t, p) {
        ChildFacts(t, p, c);
      }
    }
    var u := LinkAt(t1, p, |Children(t1, p)|, c);
    assert Children(t1, p)[..|Children(t1, p)|] == Children(t1, p);
    AppendSubtree(t, p, c, t1, u);
    AppendOf(t, p, c, t1, u);
    u
  }

  /** `append`'s contract, from those of the detach and the link it is made of. */
  lemma AppendOf(t: Tree, p: Handle, c: Handle, t1: Tree, u: Tree)
    requires Wf(t) && Resolves(t, p) && Resolves(t, c)
    requires SameLive(t, t1) && SameNodes(t, t1)
    requires forall h | Resolves(t, h) && h != c :: Resolves(t1, h) && Parent(t1, h) == Parent(t, h)
    requires Resolves(t1, p) && Children(t1, p) == Without(Children(t, p), c)
    requires forall h | Resolves(t, h) ::
               Resolves(t1, h) && Children(t1, h) == (if Parent(t, c) == Some(h) then Without(Children(t, h), c) else Children(t, h))
    requires SameLive(t1, u) && SameNodes(t1, u)
    requires Resolves(u, c) && Parent(u, c) == Some(p)
    requires Resolves(u, p) && Children(u, p) == Children(t1, p) + [c]
    requires forall h | Resolves(t1, h) && h != c :: Resolves(u, h) && Parent(u, h) == Parent(t1, h)
    requires forall h | Resolves(t1, h) && h != p :: Resolves(u, h) && Children(u, h) == Children(t1, h)
    ensures SameLive(t, u) && SameNodes(t, u)
    ensures Children(u, p) == Without(Children(t, p), c) + [c]
    ensures forall h | Resolves(t, h) && h != c :: Resolves(u, h) && Parent(u, h) == Parent(t, h)
    ensures forall h | Resolves(t, h) && h != p ::
              Resolves(u, h) && Children(u, h) == (if Parent(t, c) == Some(h) then Without(Children(t, h), c) else Children(t, h))
  {
  }

  lemma AppendSubtree(t: Tree, p: Handle, c: Handle, t1: Tree, u: Tree)
    requires Wf(t) && Resolves(t, p) && Resolves(t, c) && c !in Ancestors(t, p)
    requires t1 == Detach(t, c)
    requires Wf(u) && Resolves(u, c) && Resolves(t1, p)
    requires forall h | Resolves(t1, h) && h != p :: Resolves(u, h) && Children(u, h) == Children(t1, h)
    ensures Traverse(u, c) == Traverse(t, c) && PreOrder(u, c) == PreOrder(t, c)
  {
    DetachSubtree(t, c);
    SubtreeIffAncestor(t, c, p);
    forall x | x in PreOrder(t1, c) ensures Resolves(u, x) && Children(u, x) == Children(t1, x) {
    }
    TraverseFrame(t1, u, c);
  }

  /**
   * `insert_before`: `n` leaves its old parent and becomes the sibling just
   * before `s`. The library refuses (panics) when `n` is `s` or one of its
   * ancestors; `s` must have a parent, the only case domjohnson uses.
   */
  function InsertBefore(t: Tree, s: Handle, n: Handle): (u: Tree)
    requires Wf(t) && Resolves(t, s) && Resolves(t, n) && Parent(t, s).Some? && n !in Ancestors(t, s)
    ensures Wf(u) && SameLive(t, u) && SameNodes(t, u)
    ensures Resolves(u, n) && Parent(u, n) == Parent(t, s)
    ensures var p := Parent(t, s).value; var ws := Without(Children(t, p), n);
      s in ws && Resolves(u, p) && Children(u, p) == ws[..IndexOf(ws, s)] + [n] + ws[IndexOf(ws, s)..]
  {
    var p := Parent(t, s).value;
    var ws := Without(Children(t, p), n);
    InsertBeforeReady(t, s, n);
    var t1 := Detach(t, n);
    var u := LinkAt(t1, p, IndexOf(ws, s), n);
    InsertBeforeOf(t, p, n, ws, IndexOf(ws, s), t1, u);
    u
  }

  /** `insert_before`'s contract, from those of the detach and the link it is made of. */
  lemma InsertBeforeOf(t: Tree, p: Handle, n: Handle, ws: seq<Handle>, k: nat, t1: Tree, u: Tree)
    requires SameLive(t, t1) && SameNodes(t, t1) && SameLive(t1, u) && SameNodes(t1, u)
    requires Resolves(t1, p) && Children(t1, p) == ws && k <= |ws|
    requires Resolves(u, p) && Children(u, p) == Children(t1, p)[..k] + [n] + Children(t1, p)[k..]
    ensures SameLive(t, u) && SameNodes(t, u)
    ensures Children(u, p) == ws[..k] + [n] + ws[k..]
  {
  }

  /**
   * `insert_before` changes no other link than those of `n`, its old
   * parent and its new parent, and `n`'s subtree moves with it unchanged.
   */
  lemma InsertBeforeFrame(t: Tree, s: Handle, n: Handle)
    requires Wf(t) && Resolves(t, s) && Resolves(t, n) && Parent(t, s).Some? && n !in Ancestors(t, s)
    ensures var u := InsertBefore(t, s, n);
      && (forall h | Resolves(t, h) && h != n :: Resolves(u, h) && Parent(u, h) == Parent(t, h))
      && (forall h | Resolves(t, h) && Some(h) != Parent(t, s) ::
            Resolves(u, h) && Children(u, h) == (if Parent(t, n) == Some(h) then Without(Children(t, h), n) else Children(t, h)))
      && Traverse(u, n) == Traverse(t, n) && PreOrder(u, n) == PreOrder(t, n)
  {
    var p := Parent(t, s).value;
    var ws := Without(Children(t, p), n);
    InsertBeforeReady(t, s, n);
    var t1 := Detach(t, n);
    var u := LinkAt(t1, p, IndexOf(ws, s), n);
    assert u == InsertBefore(t, s, n);
    AppendSubtree(t, p, n, t1, u);
  }

  lemma InsertBeforeReady(t: Tree, s: Handle, n: Handle)
    requires Wf(t) && Resolves(t, s) && Resolves(t, n) && Parent(t, s).Some? && n !in Ancestors(t, s)
    ensures var p := Parent(t, s).value; var t1 := Detach(t, n);
      Resolves(t, p) && Resolves(t1, p) && n !in Ancestors(t1, p) && n !in Ancestors(t, p)
      && Children(t1, p) == Without(Children(t, p), n) && s in Children(t1, p)
  {
    var p := Parent(t, s).value;
    ParentFacts(t, s);
    assert Ancestors(t, s) == [s] + Ancestors(t, p);
    var t1 := Detach(t, n);
    DetachAncestors(t, n, p);
    if Parent(t, n) != Some(p) && n in Children(t, p) {
      ChildFacts(t, p, n);
    }
  }

  /** Frees every slot whose node is in `sub`, moving it on to the next generation. */
  function Free(t: Tree, sub: seq<Handle>): (u: Tree)
    ensures |u| == |t| && GenerationsGrow(t, u)
    ensures forall i | 0 <= i < |t| :: u[i] == if t[i].Occupied? && HandleAt(t, i) in sub then Vacant(t[i].generation + 1) else t[i]
  {
    seq(|t|, i requires 0 <= i < |t| => if t[i].Occupied? && HandleAt(t, i) in sub then Vacant(t[i].generation + 1) else t[i])
  }

  /**
   * `remove_subtree`: the node is detached and it and all its descendants
   * are freed, so their handles never resolve again, and no node appears.
   */
  function RemoveSubtree(t: Tree, h: Handle): (u: Tree)
    requires Wf(t) && Resolves(t, h)
    ensures Wf(u) && GenerationsGrow(t, u) && |u| == |t|
    ensures forall x | x in PreOrder(t, h) :: Stale(u, x)
    ensures forall x | Resolves(u, x) :: Resolves(t, x) && x !in PreOrder(t, h)
  {
    var t1 := Detach(t, h);
    DetachSubtree(t, h);
    var u := Free(t1, PreOrder(t1, h));
    FreeWf(t1, h);
    forall x | x in PreOrder(t, h) ensures Stale(u, x) {
      assert HandleAt(t1, x.index) == x;
    }
    u
  }

  /**
   * Every node outside the removed subtree keeps its payload and links,
   * except that the removed node's parent no longer lists it.
   */
  lemma RemoveSubtreeFrame(t: Tree, h: Handle)
    requires Wf(t) && Resolves(t, h)
    ensures var u := RemoveSubtree(t, h);
      forall x | Resolves(t, x) && x !in PreOrder(t, h) ::
        Resolves(u, x) && NodeOf(u, x) == NodeOf(t, x) && Parent(u, x) == Parent(t, x)
        && Children(u, x) == (if Parent(t, h) == Some(x) then Without(Children(t, x), h) else Children(t, x))
  {
    var t1 := Detach(t, h);
    DetachSubtree(t, h);
    var u := Free(t1, PreOrder(t1, h));
    assert u == RemoveSubtree(t, h);
    forall x | Resolves(t, x) && x !in PreOrder(t, h)
      ensures Resolves(u, x) && NodeOf(u, x) == NodeOf(t, x) && Parent(u, x) == Parent(t, x)
        && Children(u, x) == (if Parent(t, h) == Some(x) then Without(Children(t, x), h) else Children(t, x))
    {
      assert HandleAt(t1, x.index) == x;
      assert h in PreOrder(t, h);
    }
  }

  lemma FreeWf(t: Tree, h: Handle)
    requires Wf(t) && Resolves(t, h) && Parent(t, h).None?
    ensures Wf(Free(t, PreOrder(t, h)))
  {
    var sub := PreOrder(t, h);
    var u := Free(t, sub);
    forall i | 0 <= i < |u| && u[i].Occupied? ensures ParentLinked(u, i) && ChildrenLinked(u, i) {
      FreeKeepsLinks(t, h, i);
    }
    assert Ranked(u, Rank(t));
  }

  lemma FreeKeepsLinks(t: Tree, h: Handle, i: nat)
    requires Wf(t) && Resolves(t, h) && Parent(t, h).None?
    requires i < |t| && Free(t, PreOrder(t, h))[i].Occupied?
    ensures ParentLinked(Free(t, PreOrder(t, h)), i) && ChildrenLinked(Free(t, PreOrder(t, h)), i)
  {
    var sub := PreOrder(t, h);
    var u := Free(t, sub);
    assert ParentLinked(t, i) && ChildrenLinked(t, i);
    var x := HandleAt(t, i);
    assert u[i] == t[i] && x !in sub && HandleAt(u, i) == x;
    match t[i].parent {
      case None =>
      case Some(q) =>
        ParentFacts(t, x);
        if q in sub {
          ChildInSubtree(t, h, q, x);
        }
        assert HandleAt(t, q.index) == q;
    }
    forall d | d in u[i].children ensures Resolves(u, d) && u[d.index].parent == Some(HandleAt(u, i)) {
      FreeKeepsChild(t, h, x, d);
    }
  }

  lemma FreeKeepsChild(t: Tree, h: Handle, x: Handle, d: Handle)
    requires Wf(t) && Resolves(t, h) && Parent(t, h).None?
    requires Resolves(t, x) && x !in PreOrder(t, h) && d in Children(t, x)
    ensures d !in PreOrder(t, h)
    ensures Resolves(Free(t, PreOrder(t, h)), d) && Free(t, PreOrder(t, h))[d.index].parent == Some(x)
  {
    var sub := PreOrder(t, h);
    ChildFacts(t, x, d);
    assert HandleAt(t, d.index) == d;
    SubtreeIffAncestor(t, h, d);
    SubtreeIffAncestor(t, h, x);
    assert Ancestors(t, d) == [d] + Ancestors(t, x);
  }

  /** Frees the parentless node `h` and leaves each of its children without a parent. */
  function Orphan(t: Tree, h: Handle): (u: Tree)
    requires h.index < |t|
    ensures |u| == |t| && GenerationsGrow(t, u)
    ensures u[h.index] == Vacant(t[h.index].generation + 1)
  {
    var ch := if t[h.index].Occupied? then t[h.index].children else [];
    seq(|t|, i requires 0 <= i < |t| =>
      if i == h.index then Vacant(t[i].generation + 1)
      else if t[i].Occupied? && HandleAt(t, i) in ch then t[i].(parent := None)
      else t[i])
  }

  /**
   * `remove` (a single node): the node is detached and freed; its children
   * stay live and are left without a parent.
   */
  function Remove(t: Tree, h: Handle): (u: Tree)
    requires Wf(t) && Resolves(t, h)
    ensures Wf(u) && GenerationsGrow(t, u) && |u| == |t|
    ensures Stale(u, h)
    ensures forall x | Resolves(u, x) :: Resolves(t, x) && x != h
    ensures forall x | Resolves(t, x) && x != h :: Resolves(u, x)
  {
    var t1 := Detach(t, h);
    var u := Orphan(t1, h);
    forall i | 0 <= i < |u| && u[i].Occupied? ensures ParentLinked(u, i) && ChildrenLinked(u, i) {
      OrphanKeepsLinks(t1, h, i);
    }
    assert Ranked(u, Rank(t1));
    forall x | Resolves(t, x) && x != h ensures Resolves(u, x) {
      assert x.index != h.index;
    }
    u
  }

  lemma OrphanKeepsLinks(t: Tree, h: Handle, i: nat)
    requires Wf(t) && Resolves(t, h) && Parent(t, h).None?
    requires i < |t| && Orphan(t, h)[i].Occupied?
    ensures ParentLinked(Orphan(t, h), i) && ChildrenLinked(Orphan(t, h), i)
  {
    var u := Orphan(t, h);
    var x := HandleAt(t, i);
    assert ParentLinked(t, i) && ChildrenLinked(t, i);
    assert i != h.index && HandleAt(u, i) == x && u[i].children == t[i].children;
    match t[i].parent {
      case None =>
      case Some(q) =>
        ParentFacts(t, x);
        if x !in Children(t, h) {
          assert q != h && q.index != h.index;
          assert HandleAt(t, q.index) == q;
        }
    }
    forall d | d in u[i].children ensures Resolves(u, d) && u[d.index].parent == Some(HandleAt(u, i)) {
      ChildFacts(t, x, d);
      assert HandleAt(t, d.index) == d;
      assert d != h && d.index != h.index;
      if d in Children(t, h) {
        ChildFacts(t, h, d);
      }
    }
  }

  /**
   * Every other node keeps its payload; the removed node's children lose
   * their parent and the removed node's parent loses it as a child.
   */
  lemma RemoveFrame(t: Tree, h: Handle)
    requires Wf(t) && Resolves(t, h)
    ensures var u := Remove(t, h);
      forall x | Resolves(t, x) && x != h ::
        Resolves(u, x) && NodeOf(u, x) == NodeOf(t, x)
        && Parent(u, x) == (if Parent(t, x) == Some(h) then None else Parent(t, x))
        && Children(u, x) == (if Parent(t, h) == Some(x) then Without(Children(t, x), h) else Children(t, x))
  {
    var t1 := Detach(t, h);
    var u := Remove(t, h);
    assert u == Orphan(t1, h);
    forall x | Resolves(t, x) && x != h
      ensures Resolves(u, x) && NodeOf(u, x) == NodeOf(t, x)
        && Parent(u, x) == (if Parent(t, x) == Some(h) then None else Parent(t, x))
        && Children(u, x) == (if Parent(t, h) == Some(x) then Without(Children(t, x), h) else Children(t, x))
    {
      assert x.index != h.index;
      assert HandleAt(t1, x.index) == x;
      if Parent(t, x) == Some(h) {
        ParentFacts(t, x);
      } else if x in Children(t1, h) {
        ChildFacts(t1, h, x);
      }
    }
  }

  /** The lowest vacant slot at or after `i`, or `|t|` when every slot is live. */
  function FreeSlot(t: Tree, i: nat): (r: nat)
    requires i <= |t|
    ensures i <= r <= |t| && (r < |t| ==> t[r].Vacant?)
    ensures forall j | i <= j < r :: t[j].Occupied?
    decreases |t| - i
  {
    if i == |t| || t[i].Vacant? then i else FreeSlot(t, i + 1)
  }

  /**
   * `new_node`: a live node with the given payload, no parent and no
   * children, in the lowest vacant slot (or a new one at the end); every
   * existing node and link is unchanged.
   */
  function NewNode(t: Tree, node: Node): (r: (Tree, Handle))
    requires Wf(t)
    ensures var (u, h) := r; Wf(u) && GenerationsGrow(t, u)
    ensures var (u, h) := r;
      Resolves(u, h) && !Resolves(t, h) && NodeOf(u, h) == node && Parent(u, h).None? && Children(u, h) == []
    ensures var (u, h) := r; h.index <= |t| && forall j | 0 <= j < h.index :: t[j].Occupied?
    ensures var (u, h) := r; forall x | Resolves(u, x) :: Resolves(t, x) || x == h
    ensures var (u, h) := r; forall x | Resolves(t, x) ::
      Resolves(u, x) && NodeOf(u, x) == NodeOf(t, x) && Parent(u, x) == Parent(t, x) && Children(u, x) == Children(t, x)
  {
    var i := FreeSlot(t, 0);
    var g := if i < |t| then t[i].generation else 0;
    var slot := Occupied(g, node, None, []);
    var u := if i < |t| then t[i := slot] else t + [slot];
    NewNodeWf(t, i, slot, u);
    (u, Handle(i, g))
  }

  lemma NewNodeWf(t: Tree, i: nat, slot: Slot, u: Tree)
    requires Wf(t) && i <= |t| && (i < |t| ==> t[i].Vacant?)
    requires slot.Occupied? && slot.parent.None? && slot.children == []
    requires slot.generation == if i < |t| then t[i].generation else 0
    requires u == if i < |t| then t[i := slot] else t + [slot]
    ensures Wf(u)
  {
    forall j | 0 <= j < |u| && u[j].Occupied? ensures ParentLinked(u, j) && ChildrenLinked(u, j) {
      if j != i {
        assert u[j] == t[j] && ParentLinked(t, j) && ChildrenLinked(t, j);
        assert HandleAt(u, j) == HandleAt(t, j);
        match t[j].parent {
          case None =>
          case Some(q) => assert q.index != i;
        }
        forall d | d in t[j].children ensures Resolves(u, d) && u[d.index].parent == Some(HandleAt(u, j)) {
          assert Resolves(t, d) && d.index != i;
        }
      }
    }
    var R := Rank(t);
    var r := if i < |t| then R[i := 0] else R + [0];
    forall j | 0 <= j < |u| && u[j].Occupied? ensures forall c | c in u[j].children :: c.index < |u| && r[c.index] < r[j] {
      if j != i {
        forall c | c in u[j].children ensures c.index < |u| && r[c.index] < r[j] {
          ParentOfChild(t, j, c);
        }
      }
    }
    assert Ranked(u, r);
  }

  /** Writes a node's payload (`get_mut`): only that payload changes. */
  function SetNode(t: Tree, h: Handle, node: Node): (u: Tree)
    requires Wf(t) && Resolves(t, h)
    ensures Wf(u) && SameLive(t, u)
    ensures Resolves(u, h) && NodeOf(u, h) == node
    ensures forall x | Resolves(t, x) && x != h :: Resolves(u, x) && NodeOf(u, x) == NodeOf(t, x)
    ensures forall x | Resolves(t, x) :: Resolves(u, x) && Parent(u, x) == Parent(t, x) && Children(u, x) == Children(t, x)
  {
    var u := t[h.index := t[h.index].(node := node)];
    forall i | 0 <= i < |u| && u[i].Occupied? ensures ParentLinked(u, i) && ChildrenLinked(u, i) {
      assert ParentLinked(t, i) && ChildrenLinked(t, i);
    }
    assert Ranked(u, Rank(t));
    u
  }
}
