# domjohnson document tree engine, modelled in Dafny

`domjohnson` is a Rust HTML document tree. Nodes live in a generational arena: a slot holds a node, a generation, a parent link and an ordered child list. A handle is an (index, generation) pair, and it resolves only while the slot still carries that generation. This project models the crate's core and proves what its code promises:

- **Node model** (`nodes.dfy`, module `Nodes`). It covers:
  - the seven node kinds with their `is_*`/`as_*` accessors;
  - `Element::new`: the id comes from the first `id` attribute, the classes from the first `class` attribute;
  - class and attribute mutators;
  - the text mutators.
- **Arena** (`tree.dfy`, `tree_facts.dfy`, `tree_edits.dfy`, modules `Trees`, `TreeFacts`, `TreeEdits`). The arena library (`generational_indextree`) is not part of this model's sources. It is written out concretely as a sequence of slots, `Wf` states that the links agree and contain no cycle, and every edit is a function whose contract is proved. The edits are `new_node` (the model reuses the lowest vacant slot; the library's choice of slot is not modelled and no contract depends on it), `detach`, `append`, `insert_before`, `remove_subtree` (it frees the subtree and bumps the generations) and single-node `remove`. The traversals are pre-order, the open/close edge walk and the ancestor chain.
- **Document facade** (`document.dfy`, class `Documents.Document`). It covers:
  - `new_html5`, built step by step;
  - `get`/`get_mut`/indexing;
  - `append`, `remove`, `delete` and the `create_*` methods;
  - the `orhpans` scan and `remove_orphans` (a loop of single deletions);
  - `select`/`select_from`, `inner_html`, `Display` and `text`.
- **Parser sink** (`sink.dfy`, class `Builders.DocumentBuilder`). Every tree-construction callback is modelled. In particular:
  - text merging follows the "insert a character" step of the WHATWG HTML Living Standard, section 13.2.6.1;
  - every HTML-namespace `template` element gets a Fragment child (section 4.12.3 of the same standard);
  - `add_attrs_if_missing` keeps the first occurrence of each attribute;
  - `append_before_sibling` and `reparent_children` are modelled.
- **Lazy selector query engine** (`matcher.dfy`, class `Matching.Matches`). It keeps the roots, the work list and the seen-set as fields, and its `Next` method runs the source's nested loops. It is proved against `Yields`, the sequence of first-seen accepted nodes of the scoped pre-order. `Selection` is in `selection.dfy`.
- **Selector predicate adapter** (`selector.dfy`, module `Selectors`). It covers the element-only guard, the structural pseudo-classes `:root` and `:empty` (W3C Selectors Level 3, section 6.6.5), id, class and attribute tests, and sibling-element navigation.
- **Serializer and NodeRef** (`serialize.dfy`, `node_ref.dfy`):
  - the edge walk is a stateful cursor (`EdgeWalk`);
  - the `text()` iterator (`TextWalk`) is a loop over that walk;
  - the serializer is a loop that maps edges to tokens, skipping the root's own edges in children-only scope;
  - the token stream is proved balanced.
- **Cross-operation properties** (`properties.dfy`, module `DocumentProperties`): generation safety, `append` counts, text merging, the orphan lifecycle, `delete` versus `remove`, and the attribute and class round trips.

The external selector compiler becomes a parameter `compile: string -> Option<Matcher>`, where `None` is a syntax error. A compiled matcher is an uninterpreted predicate over (tree, handle). The HTML writer is replaced by a sequence of tokens: `DoctypeToken(name) | CommentToken(s) | TextToken(s) | StartTag(name, attrs) | EndTag(name)`.

## Model

| member | source | states |
|---|---|---|
| Nodes.KindsExclusive | domjohnson/src/node/mod.rs:38-66 | exactly one `is_*` predicate holds of every node kind except a processing instruction, which has none |
| Nodes.Node.AsDoctype | domjohnson/src/node/mod.rs:68-74 | Some exactly when the node is a doctype, and then it is that doctype |
| Nodes.Node.AsComment | domjohnson/src/node/mod.rs:76-82 | Some exactly when the node is a comment, and then it is that comment |
| Nodes.Node.AsText | domjohnson/src/node/mod.rs:84-97 | Some exactly when the node is text, and then it is that text (`as_text`/`as_text_mut`) |
| Nodes.Node.AsElement | domjohnson/src/node/mod.rs:99-112 | Some exactly when the node is an element, and then it is that element |
| Nodes.Node.AsProcessingInstruction | domjohnson/src/node/mod.rs:114-119 | Some exactly when the node is a processing instruction |
| Nodes.Text.Concat | domjohnson/src/node/mod.rs:208-210 | the new text is the old text followed by the argument |
| Nodes.Text.SetText | domjohnson/src/node/mod.rs:212-214 | the new text is exactly the argument |
| Nodes.SplitJoin | domjohnson/src/node/mod.rs:265-274 | splitting words joined by single spaces gives the same words back (the split behind the class set) |
| Nodes.FindLocal | domjohnson/src/node/mod.rs:260-263 | finds the first attribute whose local name is given, or reports that none has it |
| Nodes.CollectAttrs | domjohnson/src/node/mod.rs:276-282 | every attribute name is a key; a name's value is that of its last occurrence; there are no other keys |
| Nodes.NewElement | domjohnson/src/node/mod.rs:259-286 | the id is the first `id` attribute's value, the classes are the words of the first `class` attribute, and the map is collected from all attributes |
| Nodes.NewElementAttributes | domjohnson/src/node/mod.rs:259-286 | the id is set exactly when some attribute is named `id`; every attribute name is a key; without a `class` attribute there are no classes |
| Nodes.EqIsEquality | domjohnson/src/node/mod.rs:298-301 | case-sensitive comparison is string equality |
| Nodes.Element.AppendClass | domjohnson/src/node/mod.rs:303-305 | afterwards `has_class` holds, the classes are the old ones plus this one, and nothing else changes |
| Nodes.Element.RemoveClass | domjohnson/src/node/mod.rs:307-311 | afterwards `has_class` fails, every other class stays, and nothing else changes |
| Nodes.Element.Attr | domjohnson/src/node/mod.rs:326-329 | Some exactly when the key (no prefix, empty namespace, name) is present, holding its value |
| Nodes.Element.SetAttrAsWritten | domjohnson/src/node/mod.rs:331-336 | as written: writes the value under the HTML-namespace key and leaves every other key as it was |
| Nodes.Element.SetAttr | domjohnson/src/node/mod.rs:331-336 | as intended: afterwards `attr` returns the value, and every other key is unchanged |
| Nodes.Element.RemoveAttr | domjohnson/src/node/mod.rs:338-343 | afterwards `attr` returns None, and every other key is unchanged |
| DocumentProperties.SetAttrAsWrittenUnseen | domjohnson/src/node/mod.rs:326-336 | a value stored by `set_attr` as written is not seen by `attr` |
| DocumentProperties.SetThenRemoveAttr | domjohnson/src/node/mod.rs:326-343 | with the key `attr` uses, `set_attr` followed by `remove_attr` on a name that was absent gives back the same element |
| DocumentProperties.ClassRoundTrip | domjohnson/src/node/mod.rs:303-311 | `append_class` twice equals once; `remove_class` undoes `append_class` of a new class |
| Trees.Get | domjohnson/src/document/mod.rs:95-97 | Some exactly when the handle's generation matches its slot, and then the slot's node |
| Trees.PreOrder | domjohnson/src/document/mod.rs:115-117 | starts at the node and visits only live nodes whose rank is at most the node's |
| Trees.Ancestors | domjohnson/src/document/mod.rs:111-113 | the parent chain from a node to a parentless root, each step a parent link (what `append` must not close into a cycle) |
| Trees.LiveHandles | domjohnson/src/document/mod.rs:149-157 | exactly the handles that resolve, in slot order |
| Trees.PrecedingSiblings | domjohnson/src/element/node_ref.rs:48-53 | the node itself, then its earlier siblings nearest first |
| Trees.FollowingSiblings | domjohnson/src/element/node_ref.rs:55-60 | the node itself, then its later siblings in order |
| Trees.ReverseChildren | domjohnson/src/element/node_ref.rs:41-46 | the child list reversed |
| TreeFacts.OpensTraverse | domjohnson/src/element/node_ref.rs:139-154 | the Open edges of the edge walk, in order, are the pre-order |
| TreeFacts.PreOrderMember | domjohnson/src/document/mod.rs:103-105 | a node's subtree is the node together with its children's subtrees |
| TreeFacts.SubtreeIffAncestor | domjohnson/src/document/mod.rs:103-105 | x is in a's subtree exactly when a is on x's ancestor chain |
| TreeFacts.PreOrderBelow | domjohnson/src/document/mod.rs:115-117 | every node after the first is a strict descendant: its rank is below the node's |
| TreeFacts.PreOrderNoDup | domjohnson/src/element/node_ref.rs:139-154 | pre-order lists no node twice |
| TreeEdits.StaleStays | domjohnson/src/document/mod.rs:95-101 | a freed handle stays unresolvable under any edit that only grows generations |
| TreeEdits.Detach | domjohnson/src/document/sink.rs:220-222 | the node loses its parent and keeps its subtree; the old parent loses exactly that child; nothing else changes |
| TreeEdits.Append | domjohnson/src/document/mod.rs:111-113 | the child becomes the parent's last child and leaves its old parent's list; its subtree and all other links are unchanged |
| TreeEdits.InsertBefore | domjohnson/src/document/sink.rs:172-181 | the node is placed immediately before the sibling under the sibling's parent, after being detached |
| TreeEdits.RemoveSubtree | domjohnson/src/document/mod.rs:103-105 | every node of the subtree becomes stale; the survivors are exactly the live nodes outside the subtree |
| TreeEdits.RemoveSubtreeFrame | domjohnson/src/document/mod.rs:103-105 | survivors keep their node and parent |
| TreeEdits.Remove | domjohnson/src/document/mod.rs:107-109 | the node becomes stale and every other live node stays live |
| TreeEdits.RemoveFrame | domjohnson/src/document/mod.rs:107-109 | after single-node removal the children are parentless (the arena assumption under Left out); only the parent's child list otherwise changes |
| TreeEdits.NewNode | domjohnson/src/document/mod.rs:131-147 | a fresh, parentless, childless node holding the payload; every existing node and link is unchanged |
| TreeEdits.SetNode | domjohnson/src/document/mod.rs:99-101 | replaces one node's value and nothing else |
| Documents.Parentless | domjohnson/src/document/mod.rs:149-157 | exactly the listed live nodes that are not the root and have no parent, in their order |
| Documents.Document.NewHtml5 | domjohnson/src/document/mod.rs:29-72 | the root is a Document with children [doctype html, html]; html has children [head, body]; these five are the only nodes |
| Documents.Html5Facts | domjohnson/src/document/mod.rs:29-72 | the shape built by the construction steps is the html5 skeleton |
| Documents.Document.constructor | domjohnson/src/document/mod.rs:76-78 | stores the tree, root and quirks mode |
| Documents.Document.Get | domjohnson/src/document/mod.rs:95-97 | Some exactly when the handle resolves |
| Documents.Document.Index | domjohnson/src/document/mod.rs:167-172 | defined only on a resolving handle (otherwise the source panics), equal to `get` |
| Documents.Document.GetMut | domjohnson/src/document/mod.rs:99-101 | found exactly when the handle resolves; then only that node is updated |
| Documents.Document.IndexMut | domjohnson/src/document/mod.rs:174-178 | the resolving node's payload becomes `update` of it; no node becomes or stops being live; every link is unchanged (the arena is `SetNode` of the old one) |
| Documents.Document.Remove | domjohnson/src/document/mod.rs:103-105 | no handle of the removed subtree resolves afterwards; the other nodes survive |
| Documents.Document.Delete | domjohnson/src/document/mod.rs:107-109 | exactly the one node stops resolving; its children stay live (parentless, by the arena assumption under Left out) |
| Documents.Document.Append | domjohnson/src/document/mod.rs:111-113 | the child is the parent's last child and its parent is the parent |
| Documents.Document.Traverse | domjohnson/src/document/mod.rs:115-117 | one Open and one Close edge per subtree node, Opens in pre-order |
| Documents.Document.Children | domjohnson/src/document/mod.rs:119-121 | exactly the live nodes whose parent is `node`, each once, the i-th at sibling position i |
| Documents.Document.InnerHtml | domjohnson/src/document/mod.rs:123-125 | the children-only serialization |
| Documents.Document.Display | domjohnson/src/document/mod.rs:180-184 | the node-inclusive serialization of the root |
| Documents.Document.Text | domjohnson/src/document/mod.rs:127-129 | a text cursor over the subtree's text nodes in pre-order |
| Documents.Document.Create | domjohnson/src/document/mod.rs:131-147 | one new live parentless node; every other node and link unchanged |
| Documents.Document.CreateElement | domjohnson/src/document/mod.rs:131-135 | a new parentless bare HTML element with no id, classes or attributes; every existing node keeps its payload, parent and children |
| Documents.Document.CreateText | domjohnson/src/document/mod.rs:137-140 | a new parentless text node with the given text; every existing node keeps its payload, parent and children |
| Documents.Document.CreateComment | domjohnson/src/document/mod.rs:142-147 | a new parentless comment node with the given text; every existing node keeps its payload, parent and children |
| Documents.Document.Orphans | domjohnson/src/document/mod.rs:149-157 | exactly the live non-root nodes without a parent, in slot order |
| Documents.Document.RemoveOrphans | domjohnson/src/document/mod.rs:159-164 | afterwards exactly the previously reported orphans no longer resolve; every other node keeps its value; their children are left parentless and every other node keeps its parent |
| Documents.DeleteEach | domjohnson/src/document/mod.rs:159-164 | deleting a list of handles one by one frees exactly those handles; a survivor whose parent was freed is parentless, the others keep their parent |
| Documents.Document.SelectFrom | domjohnson/src/document/mod.rs:88-93 | exactly the accepted proper descendants, without repeats and never the node itself; equal to the accepted nodes of the pre-order below the node, in that order |
| Documents.Document.Select | domjohnson/src/document/mod.rs:84-86 | equals `select_from` on the root: the accepted nodes of the pre-order below the document node, in order |
| Builders.DocumentBuilder.constructor | domjohnson/src/document/sink.rs:20-31 | the arena holds exactly one node, a parentless Document, which is the root; no errors; NoQuirks |
| Builders.DocumentBuilder.Finish | domjohnson/src/document/sink.rs:38-40 | the document carries the tree, the root and the last quirks mode |
| Builders.DocumentBuilder.ParseError | domjohnson/src/document/sink.rs:42-44 | records the message and changes nothing else |
| Builders.DocumentBuilder.GetDocument | domjohnson/src/document/sink.rs:46-48 | the root, a Document node |
| Builders.DocumentBuilder.ElemName | domjohnson/src/document/sink.rs:50-57 | the element's namespace and local name |
| Builders.CreateElementIn | domjohnson/src/document/sink.rs:59-74 | a new element from `Element::new`; an html `template` gets exactly one child, a new Fragment; any other element gets none |
| Builders.DocumentBuilder.CreateElement | domjohnson/src/document/sink.rs:59-74 | creates the element as above; a template's contents are a Fragment |
| Builders.DocumentBuilder.CreateComment | domjohnson/src/document/sink.rs:76-80 | a new comment node |
| Builders.DocumentBuilder.CreatePi | domjohnson/src/document/sink.rs:82-92 | a new processing-instruction node |
| Builders.AppendNew | domjohnson/src/document/sink.rs:104-122 | a new node becomes the parent's last child; all else unchanged |
| Builders.AppendTextTo | domjohnson/src/document/sink.rs:104-122 | if the last child is text the string is concatenated onto it and no node is made; otherwise a new text node becomes the last child |
| Builders.InsertText | domjohnson/src/document/sink.rs:183-199 | if the sibling's previous sibling is text the string is concatenated onto it; otherwise a new text node goes just before the sibling |
| Builders.BeforeSibling | domjohnson/src/document/sink.rs:167-203 | a node is detached first; with no parent for the sibling nothing more happens; otherwise it lands immediately before the sibling; text merges or is inserted |
| Builders.MoveBefore | domjohnson/src/document/sink.rs:172-181 | detach then insert-before moves the node to just before the sibling |
| Builders.DocumentBuilder.Append | domjohnson/src/document/sink.rs:94-124 | a node is appended as the last child; text goes through the merge rule |
| Builders.DocumentBuilder.AppendBasedOnParentNode | domjohnson/src/document/sink.rs:126-137 | before-sibling on the element when it has a parent, else append to the previous element |
| Builders.DocumentBuilder.AppendDoctypeToDocument | domjohnson/src/document/sink.rs:139-153 | a new Doctype becomes the root's last child |
| Builders.DocumentBuilder.GetTemplateContents | domjohnson/src/document/sink.rs:155-157 | the template's first child, whose parent is the template |
| Builders.DocumentBuilder.SameNode | domjohnson/src/document/sink.rs:159-161 | handle equality, as for NodeRef |
| Builders.DocumentBuilder.SetQuirksMode | domjohnson/src/document/sink.rs:163-165 | sets the mode and nothing else |
| Builders.DocumentBuilder.AppendBeforeSibling | domjohnson/src/document/sink.rs:167-203 | the tree is the before-sibling result |
| Builders.AddMissingMeaning | domjohnson/src/document/sink.rs:205-218 | existing keys keep their value; each new key is added with the first value given for it; no other key appears |
| Builders.InsertMissing | domjohnson/src/document/sink.rs:205-218 | the insertion loop computes that map |
| Builders.DocumentBuilder.AddAttrsIfMissing | domjohnson/src/document/sink.rs:205-218 | the target's attribute map is updated by that rule; nothing else changes |
| Builders.DocumentBuilder.RemoveFromParent | domjohnson/src/document/sink.rs:220-222 | the target is detached and keeps its subtree |
| Builders.ReparentAsWritten | domjohnson/src/document/sink.rs:224-227 | as written: the node itself becomes the new parent's last child and keeps its own children |
| Builders.ReparentAsWrittenKeepsChildren | domjohnson/src/document/sink.rs:224-227 | as written, no child of the node reaches the new parent |
| Builders.DocumentBuilder.ReparentChildrenAsWritten | domjohnson/src/document/sink.rs:224-227 | the tree is the as-written move |
| Builders.MoveChildren | domjohnson/src/document/sink.rs:224-227 | as intended: the children move, in order, to the end of the new parent's list; the node is left childless; nothing else changes |
| Builders.DocumentBuilder.ReparentChildren | domjohnson/src/document/sink.rs:224-227 | as intended: the children move, in order, to the end of `newParent`'s list and `node` is left childless; the live set, payloads, other nodes' parents and other child lists are unchanged |
| NodeRefs.SameIsEquivalence | domjohnson/src/element/node_ref.rs:15-19 | equality of refs is handle equality, an equivalence that ignores contents |
| NodeRefs.NodeType | domjohnson/src/element/node_ref.rs:77-86 | comment, doctype, the element's local name, fragment, text, and "" for Document and PI |
| NodeRefs.ParentRef | domjohnson/src/element/node_ref.rs:88-93 | None exactly for a parentless node; otherwise a ref to the parent |
| NodeRefs.AttrOf | domjohnson/src/element/node_ref.rs:112-118 | None for a non-element; otherwise `attr` on the element |
| NodeRefs.WalkShape | domjohnson/src/element/node_ref.rs:120-154 | one Open and one Close per subtree node, Opens in pre-order |
| NodeRefs.SubWalk | domjohnson/src/element/node_ref.rs:139-154 | every descendant's walk is a contiguous block of the walk: its edges lie between its own Open and Close |
| NodeRefs.EdgeWalk.Next | domjohnson/src/element/node_ref.rs:139-154 | yields the next edge, or None once the walk is exhausted, and then keeps returning None |
| NodeRefs.WalkTexts | domjohnson/src/element/node_ref.rs:160-173 | the texts reached are exactly the subtree's text nodes in pre-order, each once |
| NodeRefs.TextWalk.Next | domjohnson/src/element/node_ref.rs:160-173 | skips non-text edges and returns the next text node's content, or None at the end |
| Serialization.SuppressRoot | domjohnson/src/element/serialize.rs:18-20 | dropping the root's own edges leaves the walk of its children |
| Serialization.Serialize | domjohnson/src/element/serialize.rs:9-54 | the loop produces the tokens of the scoped walk |
| Serialization.Html | domjohnson/src/element/node_ref.rs:96-98 | node-inclusive serialization |
| Serialization.InnerHtml | domjohnson/src/element/node_ref.rs:101-103 | children-only serialization |
| Serialization.HtmlWrapsInner | domjohnson/src/element/serialize.rs:18-47 | node-inclusive output is children-only output wrapped in the node's own tokens |
| Serialization.EdgeTokens | domjohnson/src/element/serialize.rs:17-47 | each edge asks for at most one token; a closing edge asks for one exactly when the node is an element; an opening edge asks for none exactly for Document, Fragment and PI |
| Serialization.OwnTokens | domjohnson/src/element/serialize.rs:23-47 | doctype, comment and text emit one token each; an element emits a start and an end tag with its name; Document, Fragment and PI emit nothing |
| Serialization.SerializedBalanced | domjohnson/src/element/serialize.rs:15-50 | start and end tags are balanced and properly nested |
| Matching.RootScopeMember | domjohnson/src/matcher.rs:106-112 | a root's scope is its subtree, without the root in children-only scope |
| Matching.YieldsMembers | domjohnson/src/matcher.rs:125-131 | no repeats; every yielded node is pending, accepted and unseen; every such node is yielded |
| Matching.YieldsIsFilter | domjohnson/src/matcher.rs:125-131 | over a run without repeats, what is yielded is the run filtered to accepted, unseen nodes, in the run's order |
| Matching.YieldedInScope | domjohnson/src/matcher.rs:104-121 | every yielded node lies in the scope of some root |
| Matching.SteppedMeaning | domjohnson/src/matcher.rs:97-135 | one step yields the first pending accepted unseen node and adds it to the seen-set, or yields None with nothing left |
| Matching.Refill | domjohnson/src/matcher.rs:99-112 | takes the first root; seeds the work list with it or with its children in order |
| Matching.PushChildren | domjohnson/src/matcher.rs:116-121 | the children go to the front of the work list in forward order |
| Matching.Scan | domjohnson/src/matcher.rs:113-133 | the inner loop stops at the first accepted unseen node and records it as seen |
| Matching.NextFrom | domjohnson/src/matcher.rs:97-135 | one step of the iterator; None only when both lists are empty |
| Matching.CollectFrom | domjohnson/src/matcher.rs:97-135 | running the iterator to the end yields exactly `Yields` |
| Matching.Matches.FromOne | domjohnson/src/matcher.rs:61-75 | one root, an empty work list, an empty seen-set |
| Matching.Matches.FromList | domjohnson/src/matcher.rs:77-91 | the given roots in order, an empty work list, an empty seen-set |
| Matching.Matches.Next | domjohnson/src/matcher.rs:97-135 | one step as above; after None it keeps returning None |
| Matching.Matches.Collect | domjohnson/src/matcher.rs:97-135 | the rest of the iteration is `Yields` of the pending walk |
| Selectors.ElementOf | domjohnson/src/element/selector.rs:10-17 | the element-only guard: Some exactly for elements |
| Selectors.ParentElement | domjohnson/src/element/selector.rs:26-28 | the parent node, None exactly when there is none |
| Selectors.GuardRejectsNonElements | domjohnson/src/element/selector.rs:10-17 | every guarded predicate is false on a non-element |
| Selectors.ConstantAnswers | domjohnson/src/element/selector.rs:30-56 | no shadow roots, hosts, pseudo-elements or parts: those questions answer false or None for every node, as do the two pseudo-class hooks at selector.rs:92-107 |
| Selectors.SameTypeAnswer | domjohnson/src/element/selector.rs:46-48 | same type exactly when both are elements with equal prefix, namespace and local name; symmetric, and reflexive on elements |
| Selectors.NameAnswers | domjohnson/src/element/selector.rs:66-77 | on an element, `has_local_name` and `has_namespace` compare the name's parts, and `is_html_element_in_html_document` is `has_namespace(html)` |
| Selectors.LinkAnswer | domjohnson/src/element/selector.rs:109-111 | `is_link` holds exactly when `has_local_name("link")` does |
| Selectors.IdClassAnswers | domjohnson/src/element/selector.rs:117-126 | case-sensitively, `has_id` is the exact id and `has_class` an exact class; ASCII-case-insensitively, the element's own id and classes are found |
| Selectors.FindElement | domjohnson/src/element/selector.rs:58-64 | the first element in a list |
| Selectors.SiblingElementAsWrittenIsSelf | domjohnson/src/element/selector.rs:58-64 | as written, the sibling-element search returns the element itself |
| Selectors.PrevSiblingElement | domjohnson/src/element/selector.rs:58-60 | as intended: the nearest earlier sibling that is an element, skipping other kinds, or None |
| Selectors.NextSiblingElement | domjohnson/src/element/selector.rs:62-64 | as intended: the nearest later sibling that is an element, skipping other kinds, or None |
| Selectors.AttrMatchesAttr | domjohnson/src/element/selector.rs:79-90 | an accepted `attr` value makes `attr_matches` hold; no attribute of that name makes it fail |
| Selectors.SlotAsWrittenAcceptsText | domjohnson/src/element/selector.rs:113-115 | as written, a text node counts as a slot element |
| Selectors.SlotOnlySlots | domjohnson/src/element/selector.rs:113-115 | as intended, only HTML `slot` elements count |
| Selectors.HasIdOfNewElement | domjohnson/src/element/selector.rs:117-122 | no `id` attribute means no id match; otherwise the id is compared |
| Selectors.IsEmptyChildren | domjohnson/src/element/selector.rs:128-132 | no children means empty; any element or text child, even the text "", means not empty |
| Selectors.IsRootChildrenOfDocument | domjohnson/src/element/selector.rs:134-137 | `is_root` holds exactly for nodes whose parent is a Document node |
| Selections.LenCountsNodes | domjohnson/src/selection/mod.rs:31-33 | `len` of a selection without repeats, as `select` returns, is the number of distinct nodes it holds |
| Selections.Selection.IsEmpty | domjohnson/src/selection/mod.rs:35-37 | empty exactly when the length is 0 |
| Selections.Selection.Get | domjohnson/src/selection/mod.rs:39-41 | Some(nodes[i]) exactly when i is below the length |
| Selections.Selection.Iter | domjohnson/src/selection/mod.rs:43-62 | the stored handles in stored order |
| Selections.Select | domjohnson/src/selection/mod.rs:17-29 | each member is an IncludeNode root in member order; the result has no repeats; every node in it is accepted and in some member's subtree |
| Selections.SelectStr | domjohnson/src/selection/mod.rs:17-29 | with a selector that compiles, the same result as `select` with the compiled matcher: no repeats, every node accepted and under some member; an invalid selector panics (`expect`) |
| Selections.SelectComplete | domjohnson/src/selection/mod.rs:17-29 | every accepted node in some member's subtree is in the result |
| Selections.SelectIncludesMatchingMember | domjohnson/src/selection/mod.rs:17-29 | a member that matches is itself included |
| DocumentProperties.StaleAfterReuse | domjohnson/src/document/mod.rs:103-109 | after `remove` or `delete`, handles to freed nodes never resolve again, even once `new_node` reuses the slot |
| DocumentProperties.WithoutLength | domjohnson/src/document/mod.rs:111-113 | taking a child out of a list without repeats shortens it by one |
| DocumentProperties.AppendMovesOnce | domjohnson/src/document/mod.rs:111-113 | the old parent loses the child and one entry; the new parent gains it at the end |
| DocumentProperties.TextAppendsMerge | domjohnson/src/document/sink.rs:104-122 | two text appends in a row produce one text node holding both strings |
| DocumentProperties.OrphanLifecycle | domjohnson/src/document/mod.rs:149-157 | a new node is an orphan; once appended it is not; detached again it is |
| DocumentProperties.DeleteVersusRemove | domjohnson/src/document/mod.rs:103-109 | after `delete` the children stay live and, by the arena assumption under Left out, parentless; after `remove` none of them resolves |

## Left out

- TreeEdits.NewNode: the arena library's slot choice is not part of this model's sources; the model takes the lowest vacant slot (or a new one at the end), and no contract depends on which slot is chosen.
- HTML tokenization and tree construction (`Document::parse`) belong to html5ever. Only the sink callbacks it drives are modelled.
- Selector parsing and the generic matching algorithm (`Matcher::new`, `match_element`) are not modelled. The compiler is a parameter that returns `None` on a syntax error. The compiled matcher is an uninterpreted predicate over (tree, handle). `select`/`select_from` panic on an invalid selector, so the model requires the compile step to succeed.
- The HTML writer (escaping, string output, UTF-8) is not modelled. The output is a token sequence.
- Attribute order inside a start tag is left unstated: the map is a hash map whose iteration order is not fixed.
- Atom interning (`LocalName`, `SmolStr`) is dropped. Names are plain strings. Case-insensitive comparison is ASCII case folding.
- `Debug` impls and the `classes()`/`attrs()` iterators are not modelled. They only format values or expose the stored set and map.
- The `domjohnson-quickjs` crate is not modelled: it is a JavaScript binding. `examples/dom.rs` and `lib.rs` are not modelled either (console I/O and re-exports).
- `element/node_mut.rs` is not modelled. It only delegates to `NodeRef` and to subtree removal, which are modelled.
- TreeEdits.Remove: the arena library's single-node `remove` is not part of this model's sources. The model leaves the children of the removed node in the arena, parentless. The library may instead splice them into the removed node's place under its parent. The two agree on parentless nodes, which are the only nodes `remove_orphans` deletes.
- TreeEdits.RemoveFrame: rests on the same assumption about the children of an attached node; for a parentless node it states what either behaviour gives.
- Documents.Document.Delete: rests on the same assumption; on an attached node the library may place the children under the node's parent instead.
- DocumentProperties.DeleteVersusRemove: its first half (children parentless after `delete`) rests on the same assumption when the deleted node has a parent.
- Documents.Document.Remove: requires a live handle; the arena library's behaviour on a stale handle is not modelled. The same holds for every other member that takes a handle and requires it to resolve (`Document.Delete`, `Document.IndexMut`, `Document.Traverse`, `Document.Children`, the sink callbacks).
- Documents.Document.Append: requires a live parent and child, and excludes appending a node under itself or under one of its descendants; the library panics on the latter, and its behaviour on stale handles is not modelled.
- Builders.DocumentBuilder.Append: for a node child, requires live handles and excludes appending the node under itself or under one of its descendants, where the library panics.
- Builders.DocumentBuilder.AppendBeforeSibling: for a node child, requires live handles and excludes inserting the node before a sibling that lies inside its own subtree, where the library panics.
- Builders.DocumentBuilder.ReparentChildrenAsWritten: requires live handles and excludes a `node` that is `newParent` or one of its ancestors, where the library's append panics.
- Builders.DocumentBuilder.ElemName: requires a live element, as the source unwraps the lookup and the element cast. `GetTemplateContents` (a first child must exist) and `AddAttrsIfMissing` (the target must be an element) likewise exclude the inputs on which the source panics.
- Builders.DocumentBuilder.ParseError: the collected messages are recorded but never read.
- Aliasing between a `NodeRef` and later edits is not modelled. A `NodeRef` holds a value copy of the tree, which matches Rust's shared borrow.
- Matching.Matches.Next: the seen-set uses the tree that the iterator holds. In the source, the borrow checker stops the tree changing while `Matches` is alive, and the model does the same by holding a snapshot.

## Findings

| source | as written | input that shows it | evidently intended | confidence | as-written member | corrected member |
|---|---|---|---|---|---|---|
| domjohnson/src/node/mod.rs:331-336 | `set_attr` stores under the HTML-namespace key while `attr` and `remove_attr` use the empty namespace | `set_attr("href","x")` on a bare `a`, then `attr("href")` returns None | `set_attr` writes the key `attr` reads, so a value set can be read and removed | high, not executed | DocumentProperties.SetAttrAsWrittenUnseen | Nodes.Element.SetAttr |
| domjohnson/src/document/sink.rs:224-227 | `reparent_children(node, new_parent)` appends `node` itself to `new_parent` | a `node` with one child `c`: afterwards `c` is still under `node`, and `node` is under `new_parent` | the children of `node` move, in order, to the end of `new_parent`'s list | high, not executed | Builders.ReparentAsWrittenKeepsChildren | Builders.MoveChildren |
| domjohnson/src/element/selector.rs:58-64 | `prev_sibling_element` and `next_sibling_element` search `preceding_siblings`/`following_siblings`, which start with the node itself | any element: the search returns the element itself | return the nearest sibling element other than the node | medium (depends on the arena iterators starting at the node), not executed | Selectors.SiblingElementAsWrittenIsSelf | Selectors.PrevSiblingElement |
| domjohnson/src/element/selector.rs:113-115 | `is_html_slot_element` returns true for every node | a text node is reported as a slot element | true only for an HTML `slot` element | high, not executed | Selectors.SlotAsWrittenAcceptsText | Selectors.SlotOnlySlots |
