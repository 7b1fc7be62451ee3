/**
 * `Selection`: an immutable list of handles produced by a query, with
 * length, indexing and iteration, and a further query over its members.
 */
module Selections {
  import opened Wrappers
  import opened Trees
  import opened TreeFacts
  import opened Matching

  datatype Selection = Selection(nodes: seq<Handle>) {
    /** `len()` */
    function Len(): nat {
      |nodes|
    }

    /** `is_empty()` */
    predicate IsEmpty()
      ensures IsEmpty() <==> Len() == 0
    {
      nodes == []
    }

    /** `get(idx)`: the stored handle at `idx`, if there is one. */
    function Get(i: nat): (r: Option<Handle>)
      ensures r.Some? <==> i < Len()
      ensures r.Some? ==> r.value == nodes[i]
    {
      if i < |nodes| then Some(nodes[i]) else None
    }

    /** `iter()` and `into_iter()`: the stored handles, in stored order. */
    function Iter(): (r: seq<Handle>)
      ensures |r| == Len() && forall i | 0 <= i < |r| :: Get(i) == Some(r[i])
    {
      nodes
    }
  }

  /** A selection without repeats has as many entries as it holds distinct nodes. */
  lemma {:induction false} LenCountsNodes(sel: Selection)
    requires NoDup(sel.nodes)
    ensures sel.Len() == |set x | x in sel.nodes|
    decreases |sel.nodes|
  {
    if sel.nodes != [] {
      var rest := Selection(sel.nodes[1..]);
      assert NoDup(rest.nodes) by {
        forall i, j | 0 <= i < j < |rest.nodes| ensures rest.nodes[i] != rest.nodes[j] {
          assert rest.nodes[i] == sel.nodes[i + 1] && rest.nodes[j] == sel.nodes[j + 1];
        }
      }
      LenCountsNodes(rest);
      assert sel.nodes[0] !in rest.nodes by {
        forall j | 0 <= j < |rest.nodes| ensures rest.nodes[j] != sel.nodes[0] {
          assert rest.nodes[j] == sel.nodes[j + 1];
        }
      }
      assert sel.nodes == [sel.nodes[0]] + rest.nodes;
      assert (set x | x in sel.nodes) == {sel.nodes[0]} + (set x | x in rest.nodes);
    }
  }

  /**
   * `Selection::select`: every member is a root, in member order, with the
   * member itself in scope; the matches of all roots are collected.
   */
  method Select(sel: Selection, t: Tree, m: Matcher) returns (r: Selection)
    requires Wf(t) && forall x | x in sel.nodes :: Resolves(t, x)
    ensures r.nodes == Yields(t, m, Scoped(t, sel.nodes, IncludeNode), {})
    ensures NoDup(r.nodes)
    ensures forall x | x in r.nodes :: m.accepts(t, x) && exists root | root in sel.nodes :: x in PreOrder(t, root)
  {
    var matches := new Matches.FromList(t, sel.nodes, m, IncludeNode);
    var found := matches.Collect();
    r := Selection(found);
    YieldsMembers(t, m, Scoped(t, sel.nodes, IncludeNode), {});
    forall x | x in r.nodes
      ensures m.accepts(t, x) && exists root | root in sel.nodes :: x in PreOrder(t, root)
    {
      YieldedInScope(t, m, sel.nodes, IncludeNode, {}, x);
    }
  }

  /**
   * `select` with a selector string: the selector must compile, or the
   * call panics.
   */
  method SelectStr(sel: Selection, t: Tree, compile: string -> Option<Matcher>, selector: string) returns (r: Selection)
    requires compile(selector).Some?
    requires Wf(t) && forall x | x in sel.nodes :: Resolves(t, x)
    ensures r.nodes == Yields(t, compile(selector).value, Scoped(t, sel.nodes, IncludeNode), {})
    ensures NoDup(r.nodes)
    ensures forall x | x in r.nodes ::
      compile(selector).value.accepts(t, x) && exists root | root in sel.nodes :: x in PreOrder(t, root)
  {
    r := Select(sel, t, compile(selector).value);
  }

  /**
   * A node that lies under a member of the selection and that the matcher
   * accepts is in the result: in particular a member that matches is
   * itself included.
   */
  lemma SelectComplete(sel: Selection, t: Tree, m: Matcher, x: Handle, root: Handle)
    requires Wf(t) && forall y | y in sel.nodes :: Resolves(t, y)
    requires root in sel.nodes && x in PreOrder(t, root) && m.accepts(t, x)
    ensures x in Yields(t, m, Scoped(t, sel.nodes, IncludeNode), {})
  {
    RootScopeMember(t, root, IncludeNode, x);
    ScopedMember(t, sel.nodes, IncludeNode, x);
    YieldsMembers(t, m, Scoped(t, sel.nodes, IncludeNode), {});
  }

  lemma SelectIncludesMatchingMember(sel: Selection, t: Tree, m: Matcher, x: Handle)
    requires Wf(t) && forall y | y in sel.nodes :: Resolves(t, y)
    requires x in sel.nodes && m.accepts(t, x)
    ensures x in Yields(t, m, Scoped(t, sel.nodes, IncludeNode), {})
  {
    SelectComplete(sel, t, m, x, x);
  }
}
