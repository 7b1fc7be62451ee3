/**
 * Facts about the shape of a well-formed arena: what the pre-order of a
 * subtree contains, how it relates to the chain of ancestors (the test the
 * library makes before it links a node), and that a walk meets no node
 * twice.
 */
module TreeFacts {
  import opened Wrappers
  import opened Trees

  lemma {:induction false} OpensAppend(a: seq<Edge>, b: seq<Edge>)
    ensures Opens(a + b) == Opens(a) + Opens(b)
  {
    if a == [] {
      assert a + b == b;
    } else {
      assert (a + b)[1..] == a[1..] + b;
      OpensAppend(a[1..], b);
    }
  }

  /** The nodes opened along the walk of `h` are the pre-order of its subtree. */
  lemma {:induction false} OpensTraverse(t: Tree, h: Handle)
    requires Wf(t) && Resolves(t, h)
    ensures Opens(Traverse(t, h)) == PreOrder(t, h)
    decreases Rank(t)[h.index] + 1, 0, 0
  {
    ChildrenBound(t, h);
    var inner := TraverseForest(t, Children(t, h));
    OpensAppend([Open(h)] + inner, [Close(h)]);
    OpensAppend([Open(h)], inner);
    OpensForest(t, Children(t, h));
  }

  lemma {:induction false} OpensForest(t: Tree, hs: seq<Handle>)
    requires Wf(t) && forall c | c in hs :: Resolves(t, c)
    ensures Opens(TraverseForest(t, hs)) == Forest(t, hs)
    decreases RankBound(t, hs), 1, |hs|
  {
    if hs != [] {
      assert hs[0] in hs;
      OpensAppend(Traverse(t, hs[0]), TraverseForest(t, hs[1..]));
      OpensTraverse(t, hs[0]);
      OpensForest(t, hs[1..]);
    }
  }

  /** A node lies in the forest of `hs` exactly when it lies in the subtree of one of them. */
  lemma {:induction false} ForestMember(t: Tree, hs: seq<Handle>, x: Handle)
    requires Wf(t) && forall c | c in hs :: Resolves(t, c)
    ensures x in Forest(t, hs) <==> exists c | c in hs :: x in PreOrder(t, c)
  {
    if hs != [] {
      assert hs[0] in hs;
      ForestMember(t, hs[1..], x);
      if x in Forest(t, hs[1..]) {
        var c :| c in hs[1..] && x in PreOrder(t, c);
        assert c in hs;
      }
      forall c | c in hs && x in PreOrder(t, c) ensures x in Forest(t, hs) {
        if c != hs[0] {
          assert c in hs[1..];
        }
      }
    }
  }

  /** A node lies in the subtree of `h` exactly when it is `h` or lies in the subtree of a child of `h`. */
  lemma PreOrderMember(t: Tree, h: Handle, x: Handle)
    requires Wf(t) && Resolves(t, h)
    ensures x in PreOrder(t, h) <==> x == h || exists c | c in Children(t, h) :: x in PreOrder(t, c)
  {
    ChildrenBound(t, h);
    ForestMember(t, Children(t, h), x);
  }

  /** Every node of the subtree of `h` other than `h` itself is a strict descendant: it ranks below `h`. */
  lemma PreOrderBelow(t: Tree, h: Handle)
    requires Wf(t) && Resolves(t, h)
    ensures forall i | 1 <= i < |PreOrder(t, h)| :: Rank(t)[PreOrder(t, h)[i].index] < Rank(t)[h.index]
  {
    ChildrenBound(t, h);
    var rest := Forest(t, Children(t, h));
    assert PreOrder(t, h)[1..] == rest;
    forall i | 1 <= i < |PreOrder(t, h)| ensures Rank(t)[PreOrder(t, h)[i].index] < Rank(t)[h.index] {
      assert PreOrder(t, h)[i] in rest;
    }
  }

  /** The subtree of `a` is closed under taking children. */
  lemma {:induction false} ChildInSubtree(t: Tree, a: Handle, y: Handle, c: Handle)
    requires Wf(t) && Resolves(t, a) && y in PreOrder(t, a)
    requires Resolves(t, y) && c in Children(t, y)
    ensures c in PreOrder(t, a)
    decreases Rank(t)[a.index]
  {
    ChildFacts(t, y, c);
    PreOrderMember(t, a, y);
    PreOrderMember(t, a, c);
    if y == a {
      assert c in PreOrder(t, c);
    } else {
      var c' :| c' in Children(t, a) && y in PreOrder(t, c');
      ChildFacts(t, a, c');
      ChildInSubtree(t, c', y, c);
    }
  }

  /** Where `y` occurs on the chain above `x`, the rest of that chain is the chain above `y`. */
  lemma {:induction false} AncestorsSuffix(t: Tree, x: Handle, k: nat)
    requires Wf(t) && Resolves(t, x) && k < |Ancestors(t, x)|
    ensures Ancestors(t, x)[k..] == Ancestors(t, Ancestors(t, x)[k])
    decreases k
  {
    if k > 0 {
      var p := Parent(t, x).value;
      var up := Ancestors(t, p);
      assert Ancestors(t, x) == [x] + up;
      ConsSlice(x, up, k);
      AncestorsSuffix(t, p, k - 1);
    }
  }

  lemma ConsSlice<T>(x: T, s: seq<T>, k: nat)
    requires 0 < k <= |s|
    ensures ([x] + s)[k] == s[k - 1] && ([x] + s)[k..] == s[k - 1..]
  {
  }

  lemma AppendTail<T>(a: seq<T>, b: seq<T>)
    requires a != []
    ensures (a + b)[0] == a[0] && (a + b)[1..] == a[1..] + b
  {
  }

  lemma ConcatAssoc<T>(p: seq<T>, x: seq<T>, y: seq<T>)
    ensures p + (x + y) == (p + x) + y
  {
  }

  lemma TailSlice<T>(s: seq<T>, k: nat)
    requires k + 1 < |s|
    ensures s[1..][k] == s[k + 1] && s[1..][k + 1..] == s[k + 2..]
  {
  }

  lemma AncestorsTransitive(t: Tree, x: Handle, y: Handle, z: Handle)
    requires Wf(t) && Resolves(t, x) && y in Ancestors(t, x)
    requires Resolves(t, y) && z in Ancestors(t, y)
    ensures z in Ancestors(t, x)
  {
    var k := IndexOf(Ancestors(t, x), y);
    AncestorsSuffix(t, x, k);
    assert z in Ancestors(t, x)[k..];
  }

  /**
   * `x` lies in the subtree of `a` exactly when `a` is `x` or one of its
   * ancestors: the pre-order walk and the `ancestors()` chain agree.
   */
  lemma SubtreeIffAncestor(t: Tree, a: Handle, x: Handle)
    requires Wf(t) && Resolves(t, a) && Resolves(t, x)
    ensures x in PreOrder(t, a) <==> a in Ancestors(t, x)
  {
    if x in PreOrder(t, a) {
      InSubtreeHasAncestor(t, a, x);
    }
    if a in Ancestors(t, x) {
      AncestorHasInSubtree(t, a, x);
    }
  }

  lemma {:induction false} InSubtreeHasAncestor(t: Tree, a: Handle, x: Handle)
    requires Wf(t) && Resolves(t, a) && x in PreOrder(t, a)
    ensures Resolves(t, x) && a in Ancestors(t, x)
    decreases Rank(t)[a.index]
  {
    PreOrderMember(t, a, x);
    if x != a {
      var c :| c in Children(t, a) && x in PreOrder(t, c);
      ChildFacts(t, a, c);
      InSubtreeHasAncestor(t, c, x);
      assert Ancestors(t, c) == [c] + Ancestors(t, a);
      AncestorsTransitive(t, x, c, a);
    }
  }

  lemma {:induction false} AncestorHasInSubtree(t: Tree, a: Handle, x: Handle)
    requires Wf(t) && Resolves(t, a) && Resolves(t, x) && a in Ancestors(t, x)
    ensures x in PreOrder(t, a)
    decreases MaxRank(t) - Rank(t)[x.index]
  {
    if x != a {
      var p := Parent(t, x).value;
      ParentFacts(t, x);
      assert Ancestors(t, x) == [x] + Ancestors(t, p);
      AncestorHasInSubtree(t, a, p);
      ChildInSubtree(t, a, p, x);
    }
  }

  /** A node is not in the subtree of any of its children: the walk never comes back to it. */
  lemma NotBelowItself(t: Tree, h: Handle)
    requires Wf(t) && Resolves(t, h)
    ensures h !in Forest(t, Children(t, h))
  {
    ChildrenBound(t, h);
  }

  lemma NoDupAppend<T>(a: seq<T>, b: seq<T>)
    requires NoDup(a) && NoDup(b) && forall x | x in a :: x !in b
    ensures NoDup(a + b)
  {
    forall i, j | 0 <= i < j < |a + b| ensures (a + b)[i] != (a + b)[j] {
      if j < |a| {
        assert (a + b)[i] == a[i] && (a + b)[j] == a[j];
      } else if i >= |a| {
        assert (a + b)[i] == b[i - |a|] && (a + b)[j] == b[j - |a|];
      } else {
        assert (a + b)[i] in a && (a + b)[j] in b;
      }
    }
  }

  lemma NoDupTail<T>(s: seq<T>)
    requires NoDup(s) && s != []
    ensures NoDup(s[1..])
  {
    forall i, j | 0 <= i < j < |s[1..]| ensures s[1..][i] != s[1..][j] {
      assert s[1..][i] == s[i + 1] && s[1..][j] == s[j + 1];
    }
  }

  /** Two different positions on one chain of ancestors never hold two nodes with the same parent. */
  lemma ChainParentsDiffer(t: Tree, x: Handle, i: nat, j: nat)
    requires Wf(t) && Resolves(t, x)
    requires i < j < |Ancestors(t, x)|
    requires Parent(t, Ancestors(t, x)[i]).Some?
    ensures Parent(t, Ancestors(t, x)[i]) != Parent(t, Ancestors(t, x)[j])
  {
    var a := Ancestors(t, x);
    assert a[i] in a && a[j] in a;
    assert Parent(t, a[i]) == Some(a[i + 1]);
    if j > i + 1 {
      assert Rank(t)[a[i + 1].index] < Rank(t)[a[j].index];
    }
    if Parent(t, a[j]).Some? {
      ParentFacts(t, a[j]);
    }
  }

  /** Two different children of one parent have disjoint subtrees. */
  lemma SiblingsDisjoint(t: Tree, c1: Handle, c2: Handle, x: Handle)
    requires Wf(t) && Resolves(t, c1) && Resolves(t, c2) && c1 != c2
    requires Parent(t, c1).Some? && Parent(t, c1) == Parent(t, c2)
    requires x in PreOrder(t, c1)
    ensures x !in PreOrder(t, c2)
  {
    if x in PreOrder(t, c2) {
      InSubtreeHasAncestor(t, c1, x);
      InSubtreeHasAncestor(t, c2, x);
      var a := Ancestors(t, x);
      var i := IndexOf(a, c1);
      var j := IndexOf(a, c2);
      if i < j {
        ChainParentsDiffer(t, x, i, j);
      } else {
        ChainParentsDiffer(t, x, j, i);
      }
    }
  }

  /** The pre-order of a subtree names every node once. */
  lemma {:induction false} PreOrderNoDup(t: Tree, h: Handle)
    requires Wf(t) && Resolves(t, h)
    ensures NoDup(PreOrder(t, h))
    decreases Rank(t)[h.index] + 1, 0, 0
  {
    ChildrenBound(t, h);
    var ch := Children(t, h);
    forall c | c in ch ensures Parent(t, c) == Some(h) {
      ChildFacts(t, h, c);
    }
    assert ChildrenLinked(t, h.index) && HandleAt(t, h.index) == h;
    ForestNoDup(t, h, ch);
    NotBelowItself(t, h);
    NoDupAppend([h], Forest(t, ch));
  }

  lemma {:induction false} ForestNoDup(t: Tree, p: Handle, hs: seq<Handle>)
    requires Wf(t) && forall c | c in hs :: Resolves(t, c) && Parent(t, c) == Some(p)
    requires NoDup(hs)
    ensures NoDup(Forest(t, hs))
    decreases RankBound(t, hs), 1, |hs|
  {
    if hs != [] {
      assert hs[0] in hs;
      var a := PreOrder(t, hs[0]);
      var b := Forest(t, hs[1..]);
      PreOrderNoDup(t, hs[0]);
      NoDupTail(hs);
      ForestNoDup(t, p, hs[1..]);
      forall x | x in a ensures x !in b {
        ForestMember(t, hs[1..], x);
        if x in b {
          var c :| c in hs[1..] && x in PreOrder(t, c);
          var k :| 1 <= k < |hs| && hs[k] == c;
          SiblingsDisjoint(t, hs[0], c, x);
        }
      }
      NoDupAppend(a, b);
    }
  }
}
