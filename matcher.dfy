/**
 * `Matches`: the lazy query engine. A work list of nodes still to test is
 * refilled from a list of roots; each node taken from the front of the work
 * list has its children put back at the front, so the nodes are tested in
 * depth-first pre-order, and a seen-set keeps any node from being yielded
 * twice.
 *
 * The compiled selector list is not modelled: a `Matcher` is the verdict
 * the generic matcher gives on a node of an arena.
 */
module Matching {
  import opened Wrappers
  import opened Nodes
  import opened Trees
  import opened TreeFacts

  /** A compiled selector list (`Matcher`), seen only through `match_element`. */
  datatype Matcher = Matcher(accepts: (Tree, Handle) -> bool)

  /** `MatchScope`: test the roots themselves, or start below them. */
  datatype MatchScope = IncludeNode | ChildrenOnly

  /** The nodes one root contributes: its subtree, or the subtrees of its children. */
  function RootScope(t: Tree, r: Handle, scope: MatchScope): seq<Handle>
    requires Wf(t) && Resolves(t, r)
  {
    match scope
    case IncludeNode => PreOrder(t, r)
    case ChildrenOnly => ChildrenBound(t, r); Forest(t, Children(t, r))
  }

  /** The nodes the roots contribute, root after root. */
  function Scoped(t: Tree, roots: seq<Handle>, scope: MatchScope): seq<Handle>
    requires Wf(t) && forall r | r in roots :: Resolves(t, r)
  {
    if roots == [] then [] else RootScope(t, roots[0], scope) + Scoped(t, roots[1..], scope)
  }

  /**
   * A node is in a root's scope exactly when it lies in that root's
   * subtree, and, for `ChildrenOnly`, is not the root itself.
   */
  lemma RootScopeMember(t: Tree, r: Handle, scope: MatchScope, x: Handle)
    requires Wf(t) && Resolves(t, r)
    ensures x in RootScope(t, r, scope) <==> x in PreOrder(t, r) && (scope.ChildrenOnly? ==> x != r)
  {
    NotBelowItself(t, r);
  }

  lemma {:induction false} ScopedMember(t: Tree, roots: seq<Handle>, scope: MatchScope, x: Handle)
    requires Wf(t) && forall r | r in roots :: Resolves(t, r)
    ensures x in Scoped(t, roots, scope) <==> exists r | r in roots :: x in RootScope(t, r, scope)
  {
    if roots != [] {
      assert roots[0] in roots;
      ScopedMember(t, roots[1..], scope, x);
      if x in Scoped(t, roots[1..], scope) {
        var r :| r in roots[1..] && x in RootScope(t, r, scope);
        assert r in roots;
      }
      forall r | r in roots && x in RootScope(t, r, scope) ensures x in Scoped(t, roots, scope) {
        if r != roots[0] {
          assert r in roots[1..];
        }
      }
    }
  }

  lemma {:induction false} ForestAppend(t: Tree, a: seq<Handle>, b: seq<Handle>)
    requires Wf(t) && (forall c | c in a :: Resolves(t, c)) && forall c | c in b :: Resolves(t, c)
    ensures forall c | c in a + b :: Resolves(t, c)
    ensures Forest(t, a + b) == Forest(t, a) + Forest(t, b)
  {
    if a == [] {
      assert a + b == b;
    } else {
      assert a[0] in a;
      assert forall c | c in a[1..] :: c in a;
      ForestAppend(t, a[1..], b);
      AppendTail(a, b);
      assert Forest(t, a + b) == PreOrder(t, a[0]) + Forest(t, a[1..] + b);
      assert Forest(t, a) == PreOrder(t, a[0]) + Forest(t, a[1..]);
      ConcatAssoc(PreOrder(t, a[0]), Forest(t, a[1..]), Forest(t, b));
    }
  }

  /** Taking a node off the front of the work list and putting its children there keeps the order of what is left. */
  lemma TakeFront(t: Tree, node: Handle, rest: seq<Handle>)
    requires Wf(t) && Resolves(t, node) && forall x | x in rest :: Resolves(t, x)
    ensures forall c | c in Children(t, node) :: Resolves(t, c)
    ensures Forest(t, [node] + rest) == [node] + Forest(t, Children(t, node) + rest)
  {
    ChildrenBound(t, node);
    AppendTail([node], rest);
    ForestAppend(t, Children(t, node), rest);
    assert Forest(t, [node] + rest) == PreOrder(t, node) + Forest(t, rest);
    ConcatAssoc([node], Forest(t, Children(t, node)), Forest(t, rest));
  }

  /** The position of the first node of `pending` the matcher accepts and that is not yet seen. */
  function FirstNew(t: Tree, m: Matcher, pending: seq<Handle>, seen: set<Handle>): (k: nat)
    ensures k <= |pending|
    ensures k < |pending| ==> m.accepts(t, pending[k]) && pending[k] !in seen
    ensures forall j | 0 <= j < k :: !m.accepts(t, pending[j]) || pending[j] in seen
  {
    if pending == [] || (m.accepts(t, pending[0]) && pending[0] !in seen) then 0
    else 1 + FirstNew(t, m, pending[1..], seen)
  }

  /** The first new accepted node is at `k` when every node before it is rejected or seen, and it is not. */
  lemma FirstNewIs(t: Tree, m: Matcher, p: seq<Handle>, seen: set<Handle>, k: nat)
    requires k <= |p| && forall j | 0 <= j < k :: !m.accepts(t, p[j]) || p[j] in seen
    requires k < |p| ==> m.accepts(t, p[k]) && p[k] !in seen
    ensures FirstNew(t, m, p, seen) == k
  {
  }

  lemma RejectedExtend(t: Tree, m: Matcher, p: seq<Handle>, seen: set<Handle>, k: nat)
    requires k < |p| && forall j | 0 <= j < k :: !m.accepts(t, p[j]) || p[j] in seen
    requires !m.accepts(t, p[k]) || p[k] in seen
    ensures forall j | 0 <= j < k + 1 :: !m.accepts(t, p[j]) || p[j] in seen
  {
  }

  /**
   * What a run of the iterator yields from `pending`: each accepted node,
   * in order, unless it was yielded before.
   */
  function Yields(t: Tree, m: Matcher, pending: seq<Handle>, seen: set<Handle>): (r: seq<Handle>)
  {
    if pending == [] then []
    else if m.accepts(t, pending[0]) && pending[0] !in seen then
      [pending[0]] + Yields(t, m, pending[1..], seen + {pending[0]})
    else Yields(t, m, pending[1..], seen)
  }

  /** What a run yields has no repeats, and is exactly its pending, accepted, unseen nodes. */
  lemma {:induction false} YieldsMembers(t: Tree, m: Matcher, pending: seq<Handle>, seen: set<Handle>)
    ensures NoDup(Yields(t, m, pending, seen))
    ensures forall x :: x in Yields(t, m, pending, seen) <==> x in pending && m.accepts(t, x) && x !in seen
  {
    if pending != [] {
      var x, rest := pending[0], pending[1..];
      assert forall y :: y in pending <==> y == x || y in rest;
      if m.accepts(t, x) && x !in seen {
        YieldsMembers(t, m, rest, seen + {x});
        NoDupAppend([x], Yields(t, m, rest, seen + {x}));
      } else {
        YieldsMembers(t, m, rest, seen);
      }
    }
  }

  /** The nodes of `pending` the matcher accepts and that are not in `seen`, in order. */
  function Accepted(t: Tree, m: Matcher, pending: seq<Handle>, seen: set<Handle>): seq<Handle> {
    if pending == [] then []
    else (if m.accepts(t, pending[0]) && pending[0] !in seen then [pending[0]] else []) + Accepted(t, m, pending[1..], seen)
  }

  /** Adding to `seen` a node that is not pending leaves the filter unchanged. */
  lemma {:induction false} AcceptedIgnores(t: Tree, m: Matcher, pending: seq<Handle>, seen: set<Handle>, x: Handle)
    requires x !in pending
    ensures Accepted(t, m, pending, seen + {x}) == Accepted(t, m, pending, seen)
  {
    if pending != [] {
      assert pending[0] != x;
      assert x !in pending[1..];
      AcceptedIgnores(t, m, pending[1..], seen, x);
    }
  }

  /**
   * Over a run without repeats, `Yields` is a filter: the pending nodes
   * the matcher accepts and that were not seen, in their own order. With
   * an empty seen-set, the accepted nodes of the run in order.
   */
  lemma {:induction false} YieldsIsFilter(t: Tree, m: Matcher, pending: seq<Handle>, seen: set<Handle>)
    requires NoDup(pending)
    ensures Yields(t, m, pending, seen) == Accepted(t, m, pending, seen)
  {
    if pending != [] {
      var x, rest := pending[0], pending[1..];
      NoDupTail(pending);
      if m.accepts(t, x) && x !in seen {
        YieldsIsFilter(t, m, rest, seen + {x});
        assert x !in rest by {
          forall j | 0 <= j < |rest| ensures rest[j] != x {
            assert rest[j] == pending[j + 1];
          }
        }
        AcceptedIgnores(t, m, rest, seen, x);
      } else {
        YieldsIsFilter(t, m, rest, seen);
      }
    }
  }

  /** One call of `next` takes the first new accepted node off a run. */
  lemma {:induction false} YieldsStep(t: Tree, m: Matcher, pending: seq<Handle>, seen: set<Handle>)
    ensures var k := FirstNew(t, m, pending, seen);
      && (k == |pending| ==> Yields(t, m, pending, seen) == [])
      && (k < |pending| ==> Yields(t, m, pending, seen) == [pending[k]] + Yields(t, m, pending[k + 1..], seen + {pending[k]}))
  {
    if pending != [] && !(m.accepts(t, pending[0]) && pending[0] !in seen) {
      var tail := pending[1..];
      YieldsStep(t, m, tail, seen);
      YieldsSkip(t, m, pending, seen);
      var k := FirstNew(t, m, tail, seen);
      if k < |tail| {
        assert tail[k] == pending[k + 1] && tail[k + 1..] == pending[k + 2..];
      }
    }
  }

  /** A node rejected or seen at the front of a run is skipped. */
  lemma YieldsSkip(t: Tree, m: Matcher, pending: seq<Handle>, seen: set<Handle>)
    requires pending != [] && !(m.accepts(t, pending[0]) && pending[0] !in seen)
    ensures FirstNew(t, m, pending, seen) == FirstNew(t, m, pending[1..], seen) + 1
    ensures Yields(t, m, pending, seen) == Yields(t, m, pending[1..], seen)
  {
  }

  /**
   * One call of `next` as a relation between the nodes still to be
   * tested and the seen-set before and after it, and its result.
   */
  ghost predicate Stepped(t: Tree, m: Matcher, p: seq<Handle>, seen: set<Handle>, r: Option<Handle>, p': seq<Handle>, seen': set<Handle>)
  {
    var k := FirstNew(t, m, p, seen);
    && (k == |p| ==> r.None? && p' == [] && seen' == seen)
    && (k < |p| ==> r == Some(p[k]) && p' == p[k + 1..] && seen' == seen + {p[k]})
  }

  /** One step of `next` moves one node from the run still to come to what was yielded. */
  lemma YieldsStepped(t: Tree, m: Matcher, p: seq<Handle>, seen: set<Handle>, r: Option<Handle>, p': seq<Handle>, seen': set<Handle>)
    requires Stepped(t, m, p, seen, r, p', seen')
    ensures r.None? ==> Yields(t, m, p, seen) == [] && Yields(t, m, p', seen') == []
    ensures r.Some? ==> Yields(t, m, p, seen) == [r.value] + Yields(t, m, p', seen') && |p'| < |p|
  {
    var k := FirstNew(t, m, p, seen);
    YieldsStep(t, m, p, seen);
    if k == |p| {
      assert r.None? && p' == [];
    } else {
      var x, rest := p[k], p[k + 1..];
      assert r == Some(x) && p' == rest && seen' == seen + {x};
      assert |rest| < |p|;
      assert Yields(t, m, p, seen) == [x] + Yields(t, m, rest, seen + {x});
    }
  }

  /**
   * What one call of `next` promises: a yielded node is accepted, was not
   * seen, and every node tested before it was rejected or seen; nothing
   * is yielded only when no node left to test is accepted and unseen.
   */
  lemma SteppedMeaning(t: Tree, m: Matcher, p: seq<Handle>, seen: set<Handle>, r: Option<Handle>, p': seq<Handle>, seen': set<Handle>)
    requires Stepped(t, m, p, seen, r, p', seen')
    ensures r.Some? ==>
      exists k | 0 <= k < |p| :: p[k] == r.value && p' == p[k + 1..] && forall j | 0 <= j < k :: !m.accepts(t, p[j]) || p[j] in seen
    ensures r.Some? ==> m.accepts(t, r.value) && r.value !in seen && seen' == seen + {r.value}
    ensures r.None? ==> p' == [] && seen' == seen && forall x | x in p :: !m.accepts(t, x) || x in seen
  {
    var k := FirstNew(t, m, p, seen);
    if k == |p| {
      forall x | x in p ensures !m.accepts(t, x) || x in seen {
        var j :| 0 <= j < |p| && p[j] == x;
      }
    }
  }

  /**
   * Every node a run of `Matches` yields lies in the scope of one of its
   * roots: in the root's subtree, and for `ChildrenOnly` not the root itself.
   */
  lemma YieldedInScope(t: Tree, m: Matcher, roots: seq<Handle>, scope: MatchScope, seen: set<Handle>, x: Handle)
    requires Wf(t) && forall r | r in roots :: Resolves(t, r)
    requires x in Yields(t, m, Scoped(t, roots, scope), seen)
    ensures exists r | r in roots :: x in PreOrder(t, r) && (scope.ChildrenOnly? ==> x != r)
  {
    YieldsMembers(t, m, Scoped(t, roots, scope), seen);
    ScopedMember(t, roots, scope, x);
    var r :| r in roots && x in RootScope(t, r, scope);
    RootScopeMember(t, r, scope, x);
  }

  /** The nodes still to be tested, for a work list and the roots not yet used. */
  function PendingOf(t: Tree, nodes: seq<Handle>, roots: seq<Handle>, scope: MatchScope): seq<Handle>
    requires Wf(t) && (forall r | r in roots :: Resolves(t, r)) && forall x | x in nodes :: Resolves(t, x)
  {
    Forest(t, nodes) + Scoped(t, roots, scope)
  }

  /** Seeding the empty work list from the first root leaves the nodes still to be tested as they were. */
  lemma RootStep(t: Tree, roots: seq<Handle>, scope: MatchScope)
    requires Wf(t) && roots != [] && forall r | r in roots :: Resolves(t, r)
    ensures forall c | c in Children(t, roots[0]) :: Resolves(t, c)
    ensures scope.IncludeNode? ==> PendingOf(t, [roots[0]], roots[1..], scope) == PendingOf(t, [], roots, scope)
    ensures scope.ChildrenOnly? ==> PendingOf(t, Children(t, roots[0]) + [], roots[1..], scope) == PendingOf(t, [], roots, scope)
  {
    var r := roots[0];
    assert r in roots;
    ChildrenBound(t, r);
    var later := Scoped(t, roots[1..], scope);
    assert Scoped(t, roots, scope) == RootScope(t, r, scope) + later;
    EmptyLeft(Scoped(t, roots, scope));
    if scope.IncludeNode? {
      EmptyRight(PreOrder(t, r));
      assert Forest(t, [r]) == PreOrder(t, r) + Forest(t, []);
    } else {
      EmptyRight(Children(t, r));
    }
  }

  /** Testing the front of the work list consumes the first node still to be tested. */
  lemma NodeStep(t: Tree, nodes: seq<Handle>, roots: seq<Handle>, scope: MatchScope)
    requires Wf(t) && (forall r | r in roots :: Resolves(t, r)) && forall x | x in nodes :: Resolves(t, x)
    requires nodes != []
    ensures Resolves(t, nodes[0]) && forall c | c in Children(t, nodes[0]) + nodes[1..] :: Resolves(t, c)
    ensures var p := PendingOf(t, nodes, roots, scope);
      p != [] && p[0] == nodes[0] && PendingOf(t, Children(t, nodes[0]) + nodes[1..], roots, scope) == p[1..]
  {
    var n, rest := nodes[0], nodes[1..];
    assert n in nodes;
    TakeFront(t, n, rest);
    assert [n] + rest == nodes;
    var f := Forest(t, Children(t, n) + rest);
    var sc := Scoped(t, roots, scope);
    assert PendingOf(t, nodes, roots, scope) == [n] + f + sc;
    ConsTail(n, f, sc);
  }

  /**
   * Inserts the items of `rc` one after another at position 0 of `tail`;
   * when `rc` is `ch` reversed, `ch` ends up in front, in its own order.
   */
  method InsertEachAtFront<T>(rc: seq<T>, tail: seq<T>, ghost ch: seq<T>) returns (front: seq<T>)
    requires |rc| == |ch| && forall i | 0 <= i < |rc| :: rc[i] == ch[|ch| - 1 - i]
    ensures front == ch + tail
  {
    front := tail;
    for i := 0 to |rc|
      invariant front == ch[|ch| - i..] + tail
    {
      SuffixStep(ch, i);
      front := [rc[i]] + front;
    }
    assert ch[|ch| - |rc|..] == ch;
  }

  /** Puts the children of `parent` at the front of the work list, inserting them at position 0 from the last. */
  method PushChildren(t: Tree, parent: Handle, nodes: seq<Handle>) returns (nodes': seq<Handle>)
    requires Wf(t) && Resolves(t, parent)
    ensures nodes' == Children(t, parent) + nodes
  {
    var rc := ReverseChildren(t, parent);
    nodes' := InsertEachAtFront(rc, nodes, Children(t, parent));
  }

  /** Refills the empty work list from the first root: the root itself, or its children. */
  method Refill(t: Tree, scope: MatchScope, roots0: seq<Handle>) returns (roots: seq<Handle>, nodes: seq<Handle>)
    requires Wf(t) && roots0 != [] && forall x | x in roots0 :: Resolves(t, x)
    ensures roots == roots0[1..] && (forall x | x in roots :: Resolves(t, x)) && forall x | x in nodes :: Resolves(t, x)
    ensures scope.IncludeNode? ==> nodes == [roots0[0]]
    ensures scope.ChildrenOnly? ==> nodes == Children(t, roots0[0])
    ensures PendingOf(t, nodes, roots, scope) == PendingOf(t, [], roots0, scope)
  {
    var root := roots0[0];
    RootStep(t, roots0, scope);
    roots := roots0[1..];
    nodes := [];
    match scope {
      case IncludeNode =>
        nodes := [root] + nodes;
      case ChildrenOnly =>
        nodes := PushChildren(t, root, nodes);
    }
  }

  /**
   * The inner loop of `next`: takes nodes off the front of the work list,
   * putting each one's children in its place, until a node is accepted
   * that was not yielded before, or the work list runs out. `p` is the
   * run of nodes to be tested since the call of `next`, `done0` and `done`
   * how many of them were tested before and after.
   */
  method Scan(t: Tree, m: Matcher, scope: MatchScope, ghost roots: seq<Handle>, nodes0: seq<Handle>, seen0: set<Handle>,
              ghost p: seq<Handle>, ghost done0: nat)
    returns (r: Option<Handle>, nodes: seq<Handle>, seen: set<Handle>, ghost done: nat)
    requires Wf(t) && (forall x | x in roots :: Resolves(t, x)) && forall x | x in nodes0 :: Resolves(t, x)
    requires done0 <= |p| && PendingOf(t, nodes0, roots, scope) == p[done0..]
    requires forall j | 0 <= j < done0 :: !m.accepts(t, p[j]) || p[j] in seen0
    ensures forall x | x in nodes :: Resolves(t, x)
    ensures done0 <= done <= |p| && PendingOf(t, nodes, roots, scope) == p[done..]
    ensures r.None? ==> nodes == [] && seen == seen0
    ensures r.None? ==> forall j | 0 <= j < done :: !m.accepts(t, p[j]) || p[j] in seen0
    ensures r.Some? ==> 0 < done && FirstNew(t, m, p, seen0) == done - 1 && r == Some(p[done - 1]) && seen == seen0 + {p[done - 1]}
  {
    nodes, seen, done := nodes0, seen0, done0;
    while nodes != []
      invariant forall x | x in nodes :: Resolves(t, x)
      invariant seen == seen0 && done0 <= done <= |p| && PendingOf(t, nodes, roots, scope) == p[done..]
      invariant forall j | 0 <= j < done :: !m.accepts(t, p[j]) || p[j] in seen0
      decreases |p| - done
    {
      var node := nodes[0];
      NodeStep(t, nodes, roots, scope);
      SliceStep(p, PendingOf(t, nodes, roots, scope), done);
      nodes := nodes[1..];
      nodes := PushChildren(t, node, nodes);
      done := done + 1;
      if m.accepts(t, node) && node !in seen {
        FirstNewIs(t, m, p, seen0, done - 1);
        seen := seen + {node};
        return Some(node), nodes, seen, done;
      }
      RejectedExtend(t, m, p, seen0, done - 1);
    }
    r := None;
  }

  /**
   * `next` on the state of a `Matches`: while the work list is empty,
   * refills it from the next root, then scans it.
   */
  method NextFrom(t: Tree, m: Matcher, scope: MatchScope, roots0: seq<Handle>, nodes0: seq<Handle>, seen0: set<Handle>)
    returns (r: Option<Handle>, roots: seq<Handle>, nodes: seq<Handle>, seen: set<Handle>)
    requires Wf(t) && (forall x | x in roots0 :: Resolves(t, x)) && forall x | x in nodes0 :: Resolves(t, x)
    ensures (forall x | x in roots :: Resolves(t, x)) && forall x | x in nodes :: Resolves(t, x)
    ensures Stepped(t, m, PendingOf(t, nodes0, roots0, scope), seen0, r, PendingOf(t, nodes, roots, scope), seen)
    ensures r.None? ==> roots == [] && nodes == []
    ensures roots0 == [] && nodes0 == [] ==> r.None?
  {
    ghost var p0 := PendingOf(t, nodes0, roots0, scope);
    ghost var done := 0;
    roots, nodes, seen := roots0, nodes0, seen0;
    while true
      invariant (forall x | x in roots :: Resolves(t, x)) && forall x | x in nodes :: Resolves(t, x)
      invariant seen == seen0 && done <= |p0| && PendingOf(t, nodes, roots, scope) == p0[done..]
      invariant forall j | 0 <= j < done :: !m.accepts(t, p0[j]) || p0[j] in seen0
      invariant roots0 == [] && nodes0 == [] ==> roots == [] && nodes == []
      decreases |roots| + (if nodes == [] then 0 else 1)
    {
      if nodes == [] {
        if roots == [] {
          FirstNewIs(t, m, p0, seen0, done);
          return None, roots, nodes, seen;
        }
        roots, nodes := Refill(t, scope, roots);
      }
      r, nodes, seen, done := Scan(t, m, scope, roots, nodes, seen, p0, done);
      if r.Some? {
        return;
      }
    }
  }

  /** Calls `next` until it returns nothing, keeping what it returns. */
  method CollectFrom(t: Tree, m: Matcher, scope: MatchScope, roots0: seq<Handle>, nodes0: seq<Handle>, seen0: set<Handle>)
    returns (out: seq<Handle>, roots: seq<Handle>, nodes: seq<Handle>, seen: set<Handle>)
    requires Wf(t) && (forall x | x in roots0 :: Resolves(t, x)) && forall x | x in nodes0 :: Resolves(t, x)
    ensures (forall x | x in roots :: Resolves(t, x)) && forall x | x in nodes :: Resolves(t, x)
    ensures out == Yields(t, m, PendingOf(t, nodes0, roots0, scope), seen0)
    ensures roots == [] && nodes == []
  {
    ghost var total := Yields(t, m, PendingOf(t, nodes0, roots0, scope), seen0);
    out, roots, nodes, seen := [], roots0, nodes0, seen0;
    assert [] + total == total;
    while true
      invariant (forall x | x in roots :: Resolves(t, x)) && forall x | x in nodes :: Resolves(t, x)
      invariant out + Yields(t, m, PendingOf(t, nodes, roots, scope), seen) == total
      decreases |PendingOf(t, nodes, roots, scope)|
    {
      ghost var p := PendingOf(t, nodes, roots, scope);
      ghost var s := seen;
      var r;
      r, roots, nodes, seen := NextFrom(t, m, scope, roots, nodes, seen);
      YieldsStepped(t, m, p, s, r, PendingOf(t, nodes, roots, scope), seen);
      match r {
        case None =>
          assert out + [] == out;
          return;
        case Some(x) =>
          AppendAssoc(out, [x], Yields(t, m, PendingOf(t, nodes, roots, scope), seen));
          out := out + [x];
      }
    }
  }

  /** The iterator state of `Matches`; the arena is a shared borrow, so it never changes. */
  class Matches {
    const tree: Tree
    var roots: seq<Handle>
    var nodes: seq<Handle>
    const matcher: Matcher
    var seen: set<Handle>
    const scope: MatchScope

    ghost predicate Valid()
      reads this
    {
      Wf(tree) && (forall r | r in roots :: Resolves(tree, r)) && (forall x | x in nodes :: Resolves(tree, x))
    }

    /** The nodes still to be tested, in the order they will be tested. */
    ghost function Pending(): seq<Handle>
      reads this
      requires Valid()
    {
      PendingOf(tree, nodes, roots, scope)
    }

    /** `from_one` */
    constructor FromOne(t: Tree, node: Handle, m: Matcher, s: MatchScope)
      requires Wf(t) && Resolves(t, node)
      ensures Valid() && tree == t && matcher == m && scope == s
      ensures roots == [node] && nodes == [] && seen == {}
      ensures Pending() == RootScope(t, node, s)
    {
      tree, roots, nodes, matcher, seen, scope := t, [node], [], m, {}, s;
      new;
      assert Scoped(t, [node], s) == RootScope(t, node, s) + Scoped(t, [], s);
    }

    /** `from_list`: the roots in the order given. */
    constructor FromList(t: Tree, ns: seq<Handle>, m: Matcher, s: MatchScope)
      requires Wf(t) && forall r | r in ns :: Resolves(t, r)
      ensures Valid() && tree == t && matcher == m && scope == s
      ensures roots == ns && nodes == [] && seen == {}
      ensures Pending() == Scoped(t, ns, s)
    {
      tree, roots, nodes, matcher, seen, scope := t, ns, [], m, {}, s;
      new;
      assert Forest(t, []) == [];
      EmptyLeft(Scoped(t, ns, s));
    }

    /**
     * `next`: the first node still to be tested that the matcher accepts
     * and that was not yielded before; the nodes tested up to it are
     * consumed. Nothing, once every root and node is used up.
     */
    method Next() returns (r: Option<Handle>)
      requires Valid()
      modifies this
      ensures Valid()
      ensures Stepped(tree, matcher, old(Pending()), old(seen), r, Pending(), seen)
      ensures r.None? ==> roots == [] && nodes == []
      ensures old(roots) == [] && old(nodes) == [] ==> r.None?
    {
      r, roots, nodes, seen := NextFrom(tree, matcher, scope, roots, nodes, seen);
    }

    /**
     * `collect()`: drains the iterator. The result is the run of the nodes
     * that were still to be tested.
     */
    method Collect() returns (out: seq<Handle>)
      requires Valid()
      modifies this
      ensures Valid() && out == Yields(tree, matcher, old(Pending()), old(seen))
      ensures roots == [] && nodes == []
    {
      out, roots, nodes, seen := CollectFrom(tree, matcher, scope, roots, nodes, seen);
    }
  }

  lemma SuffixStep<T>(s: seq<T>, i: nat)
    requires i < |s|
    ensures s[|s| - (i + 1)..] == [s[|s| - 1 - i]] + s[|s| - i..]
  {
  }

  lemma SliceStep<T>(p: seq<T>, q: seq<T>, done: nat)
    requires done <= |p| && q == p[done..] && q != []
    ensures done < |p| && q[0] == p[done] && q[1..] == p[done + 1..]
  {
  }

  lemma EmptyLeft<T>(a: seq<T>)
    ensures [] + a == a
  {
  }

  lemma EmptyRight<T>(a: seq<T>)
    ensures a + [] == a
  {
  }

  lemma ConsTail<T>(x: T, a: seq<T>, b: seq<T>)
    ensures ([x] + a + b)[0] == x && ([x] + a + b)[1..] == a + b
  {
  }

  lemma AppendAssoc<T>(a: seq<T>, b: seq<T>, c: seq<T>)
    ensures a + (b + c) == a + b + c
  {
  }
}
