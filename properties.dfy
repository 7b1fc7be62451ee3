/**
 * Properties of the document engine that span several operations: a stale
 * handle stays stale when its slot is reused, `append` moves a node exactly
 * once, two texts appended in a row make one text node, orphans come and
 * go as nodes are created, attached and detached, and `delete` differs
 * from `remove` on the children of the node.
 */
module DocumentProperties {
  import opened Wrappers
  import opened Nodes
  import opened Trees
  import opened TreeFacts
  import opened TreeEdits
  import opened Documents
  import opened Builders

  /**
   * Generation safety: once `remove` (`remove_subtree`) or `delete` (single
   * `remove`) has freed a slot, a handle to the freed node never resolves
   * again, even after `new_node` puts a new node into that very slot; the
   * new node's handle differs from the old one.
   */
  lemma StaleAfterReuse(t: Tree, h: Handle, node: Node)
    requires Wf(t) && Resolves(t, h)
    ensures var u := RemoveSubtree(t, h); var (v, n) := NewNode(u, node);
      forall x | x in PreOrder(t, h) :: !Resolves(v, x) && n != x
    ensures var u := TreeEdits.Remove(t, h); var (v, n) := NewNode(u, node);
      !Resolves(v, h) && n != h
  {
    var u := RemoveSubtree(t, h);
    var (v, n) := NewNode(u, node);
    forall x | x in PreOrder(t, h) ensures !Resolves(v, x) && n != x {
      StaleStays(u, v, x);
    }
    var u' := TreeEdits.Remove(t, h);
    StaleStays(u', NewNode(u', node).0, h);
  }

  /** Dropping a member of a list without repeats shortens it by one. */
  lemma {:induction false} WithoutLength(s: seq<Handle>, x: Handle)
    requires NoDup(s) && x in s
    ensures |Without(s, x)| == |s| - 1
  {
    if s[0] == x {
      NoDupTail(s);
      assert x !in s[1..] by {
        forall j | 0 <= j < |s[1..]| ensures s[1..][j] != x {
          assert s[1..][j] == s[j + 1];
        }
      }
    } else {
      NoDupTail(s);
      assert x in s[1..];
      WithoutLength(s[1..], x);
    }
  }

  /**
   * `append` of an attached node to another parent: the old parent has one
   * child less and no longer lists the node; the new parent has one child
   * more, the node, at its end.
   */
  lemma AppendMovesOnce(t: Tree, p: Handle, c: Handle)
    requires Wf(t) && Resolves(t, p) && Resolves(t, c) && c !in Ancestors(t, p)
    requires Parent(t, c).Some? && Parent(t, c) != Some(p)
    ensures var u := TreeEdits.Append(t, p, c); var q := Parent(t, c).value;
      && Resolves(t, q) && Resolves(u, q) && Resolves(u, p)
      && |Children(u, q)| == |Children(t, q)| - 1 && c !in Children(u, q)
      && |Children(u, p)| == |Children(t, p)| + 1 && Children(u, p)[|Children(t, p)|] == c
  {
    var q := Parent(t, c).value;
    ParentFacts(t, c);
    ChildrenNoDup(t, q);
    WithoutLength(Children(t, q), c);
    assert c !in Children(t, p) by {
      if c in Children(t, p) {
        ChildFacts(t, p, c);
      }
    }
    assert q != p;
  }

  /**
   * Two texts appended in a row to a parent whose last child is not text
   * make one new text node holding both, as its last child: "Hello, " then
   * "World!" gives a single node "Hello, World!".
   */
  lemma TextAppendsMerge(t: Tree, p: Handle, a: string, b: string)
    requires Wf(t) && Resolves(t, p) && LastText(t, p).None?
    ensures var u := AppendTextTo(AppendTextTo(t, p, a), p, b); var n := |Children(t, p)|;
      && Resolves(u, p) && |Children(u, p)| == n + 1 && Children(u, p)[..n] == Children(t, p)
      && Resolves(u, Children(u, p)[n]) && NodeOf(u, Children(u, p)[n]) == TextNode(Text(a + b))
  {
    var t1 := AppendTextTo(t, p, a);
    var n := |Children(t, p)|;
    assert AddedLast(t, t1, p, TextNode(Text(a)));
    var h := Children(t1, p)[n];
    assert LastChild(t1, p) == Some(h);
    assert LastText(t1, p) == Some(h);
    var u := AppendTextTo(t1, p, b);
    assert Merged(t1, u, h, b);
  }

  /**
   * Orphans come and go: a node made by `new_node` is an orphan; once
   * appended under a parent it is not; detached again, it is.
   */
  lemma OrphanLifecycle(t: Tree, root: Handle, p: Handle, node: Node)
    requires Wf(t) && Resolves(t, root) && Resolves(t, p)
    ensures var (u, h) := NewNode(t, node); h in Parentless(u, LiveHandles(u), root)
    ensures var (v, h) := AppendNew(t, p, node);
      && h !in Parentless(v, LiveHandles(v), root)
      && Resolves(v, h) && h in Parentless(Detach(v, h), LiveHandles(Detach(v, h)), root)
  {
    var (u, h) := NewNode(t, node);
    assert h != root;
    var (v, h') := AppendNew(t, p, node);
    assert Resolves(v, h') && !Resolves(t, h') && h' != root by {
      assert h' == Children(v, p)[|Children(t, p)|];
    }
    var w := Detach(v, h');
    SameLiveResolves(v, w);
  }

  /**
   * `delete` and `remove` differ on the children of the node: after
   * `delete` each child is still live, and in this model's arena without a
   * parent; after `remove` none of them resolves.
   */
  lemma DeleteVersusRemove(t: Tree, h: Handle)
    requires Wf(t) && Resolves(t, h)
    ensures forall c | c in Children(t, h) ::
      Resolves(TreeEdits.Remove(t, h), c) && Parent(TreeEdits.Remove(t, h), c).None?
    ensures forall c | c in Children(t, h) :: !Resolves(RemoveSubtree(t, h), c)
  {
    RemoveFrame(t, h);
    forall c | c in Children(t, h)
      ensures Resolves(TreeEdits.Remove(t, h), c) && Parent(TreeEdits.Remove(t, h), c).None?
      ensures !Resolves(RemoveSubtree(t, h), c)
    {
      ChildFacts(t, h, c);
      PreOrderMember(t, h, c);
      PreOrderMember(t, c, c);
    }
  }

  /**
   * `set_attr` as written stores the value under the HTML namespace, so
   * `attr` on the same name does not see it: setting "href" on a bare `a`
   * element leaves `attr("href")` empty.
   */
  lemma SetAttrAsWrittenUnseen()
    ensures var e := Element(HtmlName("a"), None, {}, map[]);
      e.SetAttrAsWritten("href", "x").Attr("href") == None
  {
    var e := Element(HtmlName("a"), None, {}, map[]);
    assert QualName(None, NoNamespace, "href") != HtmlName("href");
  }

  /**
   * With the key `attr` reads, `set_attr` then `remove_attr` on a name the
   * element did not have gives the element back.
   */
  lemma SetThenRemoveAttr(e: Element, attr: string, value: string)
    requires e.Attr(attr).None?
    ensures e.SetAttr(attr, value).RemoveAttr(attr) == e
  {
    var key := QualName(None, NoNamespace, attr);
    var f := e.SetAttr(attr, value);
    assert f.HasAttr(attr, CaseSensitive) by {
      assert key in f.attrs && CaseSensitive.Eq(key.local, attr);
    }
    assert f.RemoveAttr(attr).attrs == e.attrs;
  }

  /** `append_class` twice is `append_class` once; `remove_class` undoes it on a new class. */
  lemma ClassRoundTrip(e: Element, cls: string)
    ensures e.AppendClass(cls).AppendClass(cls) == e.AppendClass(cls)
    ensures cls !in e.classes ==> e.AppendClass(cls).RemoveClass(cls) == e
  {
    assert e.AppendClass(cls).AppendClass(cls).classes == e.AppendClass(cls).classes;
    if cls !in e.classes {
      assert e.AppendClass(cls).HasClass(cls, CaseSensitive);
      assert e.AppendClass(cls).RemoveClass(cls).classes == e.classes;
    }
  }
}
