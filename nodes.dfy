/**
 * The node model of domjohnson (src/node/mod.rs): a closed union of node
 * kinds, and the element sub-model (an id taken from the attributes, a set of
 * classes and a map of attributes keyed by qualified name).
 *
 * Strings are `seq<char>`; html5ever's interned `LocalName`, `SmolStr` and
 * `StrTendril` are all plain strings here.
 */
module Nodes {
  import opened Wrappers

  /** `ns!(html)` */
  const HtmlNamespace: string := "http://www.w3.org/1999/xhtml"
  /** `ns!()`, the namespace of attributes written by the HTML parser */
  const NoNamespace: string := ""

  /** html5ever's `QualName`: derived equality compares all three parts. */
  datatype QualName = QualName(prefix: Option<string>, ns: string, local: string)

  /** The qualified name the document facade and `set_attr` build: no prefix, HTML namespace. */
  function HtmlName(local: string): QualName {
    QualName(None, HtmlNamespace, local)
  }

  /** A parser-supplied attribute (`html5ever::Attribute`). */
  datatype Attribute = Attribute(name: QualName, value: string)

  /** ASCII lower-casing, the folding `eq_ignore_ascii_case` applies. */
  function AsciiLower(c: char): char {
    if 'A' <= c <= 'Z' then (c as int + 32) as char else c
  }

  /** `selectors::attr::CaseSensitivity` and its `eq`. */
  datatype CaseSensitivity = CaseSensitive | AsciiCaseInsensitive {
    predicate Eq(a: string, b: string) {
      match this
      case CaseSensitive => a == b
      case AsciiCaseInsensitive =>
        |a| == |b| && forall i | 0 <= i < |a| :: AsciiLower(a[i]) == AsciiLower(b[i])
    }
  }

  /** Case-sensitive comparison is plain equality, and both comparisons are reflexive. */
  lemma EqIsEquality(a: string, b: string)
    ensures CaseSensitive.Eq(a, b) <==> a == b
    ensures AsciiCaseInsensitive.Eq(a, a)
  {
  }

  /** `char::is_whitespace`: the Unicode White_Space property. */
  predicate IsWhitespace(c: char) {
    || ('\t' <= c <= '\r') || c == ' ' || c == '\U{85}' || c == '\U{A0}' || c == '\U{1680}'
    || ('\U{2000}' <= c <= '\U{200A}') || c == '\U{2028}' || c == '\U{2029}'
    || c == '\U{202F}' || c == '\U{205F}' || c == '\U{3000}'
  }

  predicate NoWhitespace(s: string) {
    forall i | 0 <= i < |s| :: !IsWhitespace(s[i])
  }

  /** The characters of `s` that are not whitespace, in order. */
  function Visible(s: string): (r: string)
    ensures NoWhitespace(r)
  {
    if s == [] then []
    else if IsWhitespace(s[0]) then Visible(s[1..])
    else [s[0]] + Visible(s[1..])
  }

  function Concat(ss: seq<string>): string {
    if ss == [] then [] else ss[0] + Concat(ss[1..])
  }

  lemma {:induction false} ConcatAppend(a: seq<string>, b: seq<string>)
    ensures Concat(a + b) == Concat(a) + Concat(b)
  {
    if a == [] {
      assert a + b == b;
    } else {
      assert (a + b)[1..] == a[1..] + b;
      ConcatAppend(a[1..], b);
    }
  }

  /** The words joined by single spaces. */
  function JoinSpace(words: seq<string>): string {
    if words == [] then []
    else if |words| == 1 then words[0]
    else words[0] + " " + JoinSpace(words[1..])
  }

  /**
   * The tokens of `s`, given the word `cur` already being read: a word ends at
   * whitespace or at the end of the input, and empty words are dropped.
   */
  function Words(s: string, cur: string): (r: seq<string>)
    requires NoWhitespace(cur)
    ensures forall k | 0 <= k < |r| :: r[k] != [] && NoWhitespace(r[k])
    ensures Concat(r) == cur + Visible(s)
    decreases |s|
  {
    if s == [] then
      (if cur == [] then [] else [cur])
    else if IsWhitespace(s[0]) then
      var head: seq<string> := if cur == [] then [] else [cur];
      var tail := Words(s[1..], []);
      ConcatAppend(head, tail);
      assert Concat(head) == cur;
      head + tail
    else
      assert cur + [s[0]] + Visible(s[1..]) == cur + ([s[0]] + Visible(s[1..]));
      Words(s[1..], cur + [s[0]])
  }

  /** `str::split_whitespace`: the non-empty whitespace-free words of `s`; together they hold every visible character of `s`, in order. */
  function SplitWhitespace(s: string): (words: seq<string>)
    ensures forall k | 0 <= k < |words| :: words[k] != [] && NoWhitespace(words[k])
    ensures Concat(words) == Visible(s)
  {
    Words(s, [])
  }

  lemma {:induction false} WordsSkipWord(w: string, s: string, cur: string)
    requires NoWhitespace(cur) && NoWhitespace(w)
    ensures NoWhitespace(cur + w)
    ensures Words(w + s, cur) == Words(s, cur + w)
    decreases |w|
  {
    if w == [] {
      assert w + s == s;
      assert cur + w == cur;
    } else {
      assert (w + s)[0] == w[0];
      assert (w + s)[1..] == w[1..] + s;
      WordsSkipWord(w[1..], s, cur + [w[0]]);
      assert cur + [w[0]] + w[1..] == cur + w;
    }
  }

  /** Splitting undoes joining with single spaces: `split_whitespace` recovers the words exactly. */
  lemma {:induction false} SplitJoin(words: seq<string>)
    requires forall k | 0 <= k < |words| :: words[k] != [] && NoWhitespace(words[k])
    ensures SplitWhitespace(JoinSpace(words)) == words
  {
    if words == [] {
    } else if |words| == 1 {
      assert words[0] + [] == words[0];
      assert [] + words[0] == words[0];
      WordsSkipWord(words[0], [], []);
      assert [words[0]] == words;
    } else {
      var rest := JoinSpace(words[1..]);
      assert words[0] + " " + rest == words[0] + (" " + rest);
      WordsSkipWord(words[0], " " + rest, []);
      assert (" " + rest)[1..] == rest;
      SplitJoin(words[1..]);
      assert [words[0]] + words[1..] == words;
    }
  }

  /** A doctype (`Doctype`). */
  datatype Doctype = Doctype(name: string, publicId: string, systemId: string)

  /** A comment (`Comment`). */
  datatype Comment = Comment(comment: string)

  /** A text node's payload (`Text`). */
  datatype Text = Text(text: string) {

    /** `Text::concat`: appends `s` in place. */
    function Concat(s: string): (r: Text)
      ensures |r.text| == |text| + |s|
      ensures r.text[..|text|] == text && r.text[|text|..] == s
    {
      Text(text + s)
    }

    /** `Text::set_text`: replaces the whole text. */
    function SetText(t: string): (r: Text)
      ensures r.text == t
    {
      Text(t)
    }
  }

  /** A processing instruction (`ProcessingInstruction`). */
  datatype ProcessingInstruction = ProcessingInstruction(target: string, data: string)

  /** The first attribute whose local name is `local` (`iter().find(..)`). */
  function FindLocal(attrs: seq<Attribute>, local: string): (r: Option<Attribute>)
    ensures r.None? <==> forall i | 0 <= i < |attrs| :: attrs[i].name.local != local
    ensures r.Some? ==> r.value.name.local == local
    ensures r.Some? ==> exists i | 0 <= i < |attrs| :: (attrs[i] == r.value
      && forall j | 0 <= j < i :: attrs[j].name.local != local)
  {
    if attrs == [] then None
    else if attrs[0].name.local == local then Some(attrs[0])
    else
      var r := FindLocal(attrs[1..], local);
      if r.None? then r
      else
        var i :| 0 <= i < |attrs[1..]| && attrs[1..][i] == r.value
          && forall j | 0 <= j < i :: attrs[1..][j].name.local != local;
        assert attrs[i + 1] == r.value;
        r
  }

  /**
   * `attrs.into_iter().map(..).collect()` into a hash map: every attribute's
   * name becomes a key, and a name given twice keeps its LAST value, since
   * each insertion overwrites.
   */
  function CollectAttrs(attrs: seq<Attribute>): (m: map<QualName, string>)
    ensures forall i | 0 <= i < |attrs| :: attrs[i].name in m
    ensures forall k | k in m :: exists i | 0 <= i < |attrs| :: attrs[i].name == k
    ensures forall i | 0 <= i < |attrs| && (forall j | i < j < |attrs| :: attrs[j].name != attrs[i].name) ::
      m[attrs[i].name] == attrs[i].value
  {
    if attrs == [] then map[]
    else
      var rest := CollectAttrs(attrs[1..]);
      var m := if attrs[0].name in rest then rest else rest[attrs[0].name := attrs[0].value];
      CollectStep(attrs, rest, m);
      m
  }

  /** The first attribute enters the map only when no later attribute has its name. */
  lemma CollectStep(attrs: seq<Attribute>, rest: map<QualName, string>, m: map<QualName, string>)
    requires attrs != []
    requires forall i | 0 <= i < |attrs[1..]| :: attrs[1..][i].name in rest
    requires forall k | k in rest :: exists i | 0 <= i < |attrs[1..]| :: attrs[1..][i].name == k
    requires forall i | 0 <= i < |attrs[1..]| && (forall j | i < j < |attrs[1..]| :: attrs[1..][j].name != attrs[1..][i].name) ::
      rest[attrs[1..][i].name] == attrs[1..][i].value
    requires m == if attrs[0].name in rest then rest else rest[attrs[0].name := attrs[0].value]
    ensures forall i | 0 <= i < |attrs| :: attrs[i].name in m
    ensures forall k | k in m :: exists i | 0 <= i < |attrs| :: attrs[i].name == k
    ensures forall i | 0 <= i < |attrs| && (forall j | i < j < |attrs| :: attrs[j].name != attrs[i].name) ::
      m[attrs[i].name] == attrs[i].value
  {
    forall i | 0 <= i < |attrs| ensures attrs[i].name in m {
      if i > 0 {
        assert attrs[1..][i - 1] == attrs[i];
      }
    }
    forall k | k in m ensures exists i | 0 <= i < |attrs| :: attrs[i].name == k {
      if k != attrs[0].name {
        var i :| 0 <= i < |attrs[1..]| && attrs[1..][i].name == k;
        assert attrs[i + 1].name == k;
      }
    }
    forall i | 0 <= i < |attrs| && (forall j | i < j < |attrs| :: attrs[j].name != attrs[i].name)
      ensures m[attrs[i].name] == attrs[i].value
    {
      if i > 0 {
        assert attrs[1..][i - 1] == attrs[i];
        assert forall j | i - 1 < j < |attrs[1..]| :: attrs[1..][j].name != attrs[1..][i - 1].name by {
          forall j | i - 1 < j < |attrs[1..]| ensures attrs[1..][j].name != attrs[1..][i - 1].name {
            assert attrs[1..][j] == attrs[j + 1];
          }
        }
      }
    }
  }

  /** An element (`Element`). */
  datatype Element = Element(name: QualName, id: Option<string>, classes: set<string>, attrs: map<QualName, string>) {

    /** `Element::name`: the local name. */
    function Name(): string {
      name.local
    }

    /** `has_class`: some class equals `cls` under `cs`. */
    predicate HasClass(cls: string, cs: CaseSensitivity) {
      exists c | c in classes :: cs.Eq(c, cls)
    }

    /** `append_class`: the class is present afterwards and no class is lost. */
    function AppendClass(cls: string): (e: Element)
      ensures e.HasClass(cls, CaseSensitive)
      ensures forall c :: c in e.classes <==> c in classes || c == cls
      ensures e.name == name && e.id == id && e.attrs == attrs
    {
      this.(classes := classes + {cls})
    }

    /** `remove_class`: the class is absent afterwards and every other class stays. */
    function RemoveClass(cls: string): (e: Element)
      ensures !e.HasClass(cls, CaseSensitive)
      ensures forall c | c != cls :: c in e.classes <==> c in classes
      ensures e.name == name && e.id == id && e.attrs == attrs
    {
      if HasClass(cls, CaseSensitive) then this.(classes := classes - {cls}) else this
    }

    /** `has_attr`: some attribute's local name equals `attr` under `cs`, whatever its namespace. */
    predicate HasAttr(attr: string, cs: CaseSensitivity) {
      exists k | k in attrs :: cs.Eq(k.local, attr)
    }

    /** `attr`: looks the value up under the key (no prefix, empty namespace, `attr`). */
    function Attr(attr: string): (r: Option<string>)
      ensures r.Some? <==> QualName(None, NoNamespace, attr) in attrs
      ensures r.Some? ==> r.value == attrs[QualName(None, NoNamespace, attr)]
    {
      var key := QualName(None, NoNamespace, attr);
      if key in attrs then Some(attrs[key]) else None
    }

    /**
     * `set_attr` as written: inserts or overwrites the key in the HTML
     * namespace, which `attr` and `remove_attr` never look up.
     */
    function SetAttrAsWritten(attr: string, value: string): (e: Element)
      ensures HtmlName(attr) in e.attrs && e.attrs[HtmlName(attr)] == value
      ensures forall k | k != HtmlName(attr) :: (k in e.attrs <==> k in attrs) && (k in attrs ==> e.attrs[k] == attrs[k])
      ensures e.name == name && e.id == id && e.classes == classes
    {
      this.(attrs := attrs[HtmlName(attr) := value])
    }

    /**
     * `set_attr` as evidently intended: writes the key that `attr` and
     * `remove_attr` use, the one the parser gives HTML attributes.
     */
    function SetAttr(attr: string, value: string): (e: Element)
      ensures e.Attr(attr) == Some(value)
      ensures forall k | k != QualName(None, NoNamespace, attr) :: (k in e.attrs <==> k in attrs) && (k in attrs ==> e.attrs[k] == attrs[k])
      ensures e.name == name && e.id == id && e.classes == classes
    {
      this.(attrs := attrs[QualName(None, NoNamespace, attr) := value])
    }

    /**
     * `remove_attr`: when some attribute has the local name `attr` (in any
     * namespace), removes the empty-namespace key; nothing else changes.
     */
    function RemoveAttr(attr: string): (e: Element)
      ensures e.Attr(attr) == None
      ensures forall k | k != QualName(None, NoNamespace, attr) :: (k in e.attrs <==> k in attrs) && (k in attrs ==> e.attrs[k] == attrs[k])
      ensures e.name == name && e.id == id && e.classes == classes
    {
      if HasAttr(attr, CaseSensitive) then this.(attrs := attrs - {QualName(None, NoNamespace, attr)}) else this
    }
  }

  /**
   * `Element::new`: the id is the value of the first attribute whose local
   * name is "id"; the classes are the words of the first "class" attribute;
   * the attribute map is collected from all attributes.
   */
  function NewElement(name: QualName, attrs: seq<Attribute>): (e: Element)
    ensures e.name == name
    ensures e.id == match FindLocal(attrs, "id") case Some(a) => Some(a.value) case None => None
    ensures e.classes == match FindLocal(attrs, "class") case Some(a) => (set w | w in SplitWhitespace(a.value)) case None => {}
    ensures e.attrs == CollectAttrs(attrs)
  {
    var id := match FindLocal(attrs, "id") case Some(a) => Some(a.value) case None => None;
    var classes := match FindLocal(attrs, "class") case Some(a) => (set w | w in SplitWhitespace(a.value)) case None => {};
    Element(name, id, classes, CollectAttrs(attrs))
  }

  /** A freshly built element has its id exactly when some attribute is named "id", and every attribute name is a key. */
  lemma NewElementAttributes(name: QualName, attrs: seq<Attribute>)
    ensures NewElement(name, attrs).id.Some? <==> exists i | 0 <= i < |attrs| :: attrs[i].name.local == "id"
    ensures forall i | 0 <= i < |attrs| :: attrs[i].name in NewElement(name, attrs).attrs
    ensures (forall i | 0 <= i < |attrs| :: attrs[i].name.local != "class") ==> NewElement(name, attrs).classes == {}
  {
  }

  /** An HTML node (`Node`). */
  datatype Node =
    | DocumentNode
    | FragmentNode
    | DoctypeNode(doctype: Doctype)
    | CommentNode(comment: Comment)
    | TextNode(text: Text)
    | ElementNode(element: Element)
    | ProcessingInstructionNode(pi: ProcessingInstruction)
  {
    predicate IsDocument() { this.DocumentNode? }
    predicate IsFragment() { this.FragmentNode? }
    predicate IsDoctype() { this.DoctypeNode? }
    predicate IsComment() { this.CommentNode? }
    predicate IsText() { this.TextNode? }
    predicate IsElement() { this.ElementNode? }

    /** `as_doctype` */
    function AsDoctype(): (r: Option<Doctype>)
      ensures r.Some? <==> IsDoctype()
      ensures r.Some? ==> this == DoctypeNode(r.value)
    {
      if DoctypeNode? then Some(doctype) else None
    }

    /** `as_comment` */
    function AsComment(): (r: Option<Comment>)
      ensures r.Some? <==> IsComment()
      ensures r.Some? ==> this == CommentNode(r.value)
    {
      if CommentNode? then Some(comment) else None
    }

    /** `as_text` (and `as_text_mut`) */
    function AsText(): (r: Option<Text>)
      ensures r.Some? <==> IsText()
      ensures r.Some? ==> this == TextNode(r.value)
    {
      if TextNode? then Some(text) else None
    }

    /** `as_element` (and `as_element_mut`) */
    function AsElement(): (r: Option<Element>)
      ensures r.Some? <==> IsElement()
      ensures r.Some? ==> this == ElementNode(r.value)
    {
      if ElementNode? then Some(element) else None
    }

    /** `as_processing_instruction` */
    function AsProcessingInstruction(): (r: Option<ProcessingInstruction>)
      ensures r.Some? <==> this.ProcessingInstructionNode?
      ensures r.Some? ==> this == ProcessingInstructionNode(r.value)
    {
      if ProcessingInstructionNode? then Some(pi) else None
    }

    /** How many of the six `is_*` predicates hold. */
    function KindCount(): nat {
      (if IsDocument() then 1 else 0) + (if IsFragment() then 1 else 0) + (if IsDoctype() then 1 else 0)
      + (if IsComment() then 1 else 0) + (if IsText() then 1 else 0) + (if IsElement() then 1 else 0)
    }
  }

  /**
   * Exactly one `is_*` predicate holds of every kind that has one; a
   * processing instruction has no `is_*` predicate, so none holds of it.
   */
  lemma KindsExclusive(n: Node)
    ensures n.KindCount() == if n.ProcessingInstructionNode? then 0 else 1
  {
  }
}
