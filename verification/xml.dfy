/** The serializer `dict2xml` of the build helpers: it turns a nested
    configuration value into compact XML 1.0 text (start, end and
    empty-element tags of section 3.1, the declaration of section 2.8).
    Nothing is escaped, so the output is well-formed only when the keys and
    scalar texts happen to be. */
module Xml {
  import opened Results
  import opened Values

  /** The XML declaration (production XMLDecl of section 2.8 of XML 1.0). */
  const Declaration: string := "<?xml version=\"1.0\" ?>"

  /** The tag name used when no root node name is given. */
  const DefaultRoot: string := "root"

  /** The text the output starts from: the declaration when it is asked for. */
  function DeclText(addXmlVersion: bool): string {
    if addXmlVersion then Declaration else ""
  }

  /** `"".join(parts)`. */
  function Concat(parts: seq<string>): string {
    if |parts| == 0 then "" else parts[0] + Concat(parts[1..])
  }

  /** The tag of each item of a list stored under `root`: one trailing 's'
      removed. The code reads `root[-1]`, which raises IndexError on "". */
  function Singular(root: string): (r: Result<string>)
    ensures r.Err? <==> root == ""
    ensures r.Err? ==> r.error == IndexError
    ensures r.Ok? ==> root == r.value + "s" || (root == r.value && root[|root| - 1] != 's')
  {
    if |root| == 0 then Err(IndexError)
    else if root[|root| - 1] == 's' then Ok(root[..|root| - 1])
    else Ok(root)
  }

  /** Exactly one trailing 's' is stripped, whatever precedes it. */
  lemma SingularStripsOne(w: string)
    ensures Singular(w + "s") == Ok(w)
  {
  }

  /** The leaf element `<key>text</key>` written for a scalar entry. */
  function LeafElement(key: string, text: string): string {
    "<" + key + ">" + text + "</" + key + ">"
  }

  /** The attribute text ` name="text"` written for a scalar '@name' entry. */
  function AttributeText(name: string, text: string): string {
    " " + name + "=\"" + text + "\""
  }

  /** What one dict entry contributes on its own: the text of a nested
      element, an attribute, or a leaf element. */
  datatype Piece = Nested(text: string) | Attribute(text: string) | Leaf(text: string)

  /** The local variables `xml`, `attr` and `children` of the serializer. */
  datatype Locals = Locals(xml: string, attr: string, children: seq<string>)

  /** The serializer: `d` under the tag `rootNode` (default "root"), with the
      declaration in front when `addXmlVersion` holds. Only a dict with a
      given root node is wrapped in an element. A failure is always a
      TypeError or an IndexError, never a KeyError. */
  function Dict2Xml(d: Value, rootNode: Option<string>, addXmlVersion: bool): (r: Result<string>)
    ensures r.Err? ==> r.error == TypeError || r.error == IndexError
    decreases d, 1, 0
  {
    var wrap := rootNode.Some? && !d.List?;
    var root := rootNode.GetOr(DefaultRoot);
    match Singular(root)
    case Err(e) => Err(e)
    case Ok(rootSingular) =>
      var start := Locals(DeclText(addXmlVersion), "", []);
      var body :=
        match d
        case Dict(_) => DictLoop(d, 0, start)
        case List(_) => ListLoop(d, rootSingular, 0, start)
        case Scalar(_) => Err(TypeError);
      match body
      case Err(e) => Err(e)
      case Ok(locals) => Ok(Assemble(wrap, root, locals))
  }

  /** The piece of the entry (key, value). A container recurses under the tag
      `key` before the '@' test, so '@k' holding a container is an element. */
  function EntryPiece(key: string, value: Value): (r: Result<Piece>)
    ensures r.Err? ==> r.error == TypeError || r.error == IndexError
    decreases value, 2, 0
  {
    if value.IsContainer() then
      match Dict2Xml(value, Some(key), false)
      case Err(e) => Err(e)
      case Ok(t) => Ok(Nested(t))
    else if |key| == 0 then Err(IndexError)
    else if key[0] == '@' then Ok(Attribute(AttributeText(key[1..], value.text)))
    else Ok(Leaf(LeafElement(key, value.text)))
  }

  /** One turn of the loop over a dict: a leaf overwrites `xml` as well. */
  function Step(locals: Locals, piece: Piece): (r: Locals)
    ensures r == Summarize(locals, [piece])
  {
    assert [piece][1..] == [];
    assert AttrText([piece]) == (if piece.Attribute? then piece.text else "");
    assert ChildTexts([piece]) == (if piece.Attribute? then [] else [piece.text]);
    assert LastLeaf([piece]) == (if piece.Leaf? then Some(piece.text) else None);
    assert locals.children + [] == locals.children && locals.attr + "" == locals.attr;
    match piece
    case Nested(t) => locals.(children := locals.children + [t])
    case Attribute(t) => locals.(attr := locals.attr + t)
    case Leaf(t) => locals.(xml := t, children := locals.children + [t])
  }

  /** The loop over the entries of dict `d` from index `i` on. */
  function DictLoop(d: Value, i: nat, locals: Locals): (r: Result<Locals>)
    requires d.Dict? && i <= |d.entries|
    ensures r.Err? ==> r.error == TypeError || r.error == IndexError
    decreases d, 0, |d.entries| - i
  {
    if i == |d.entries| then Ok(locals)
    else
      assert d.entries[i] in d.entries;
      match EntryPiece(d.entries[i].0, d.entries[i].1)
      case Err(e) => Err(e)
      case Ok(p) => DictLoop(d, i + 1, Step(locals, p))
  }

  /** The loop over the items of list `d` from index `i` on: each item is
      serialized under `itemRoot` without a declaration. */
  function ListLoop(d: Value, itemRoot: string, i: nat, locals: Locals): (r: Result<Locals>)
    requires d.List? && i <= |d.items|
    ensures r.Err? ==> r.error == TypeError || r.error == IndexError
    decreases d, 0, |d.items| - i
  {
    if i == |d.items| then Ok(locals)
    else
      match Dict2Xml(d.items[i], Some(itemRoot), false)
      case Err(e) => Err(e)
      case Ok(t) => ListLoop(d, itemRoot, i + 1, locals.(children := locals.children + [t]))
  }

  /** The text after the loop: the element around the children when wrapped,
      otherwise `xml` followed by the children. */
  function Assemble(wrap: bool, root: string, locals: Locals): (r: string)
    ensures wrap ==> r == Element(root, locals.attr, locals.children)
    ensures !wrap ==> r == locals.xml + Concat(locals.children)
  {
    var children := locals.children;
    var endTag := if |children| > 0 then ">" else "/>";
    var xml := if wrap then "<" + root + locals.attr + endTag else locals.xml;
    if |children| > 0 then xml + Concat(children) + (if wrap then "</" + root + ">" else "")
    else xml
  }

  // ---------------------------------------------------------------------
  // A reference definition of the result, entry by entry, without the
  // loop's mutable state.

  /** The pieces of all entries, or the failure of the first entry that fails. */
  function Pieces(entries: seq<(string, Value)>): (r: Result<seq<Piece>>)
    ensures r.Ok? ==> |r.value| == |entries|
  {
    if |entries| == 0 then Ok([])
    else
      match EntryPiece(entries[0].0, entries[0].1)
      case Err(e) => Err(e)
      case Ok(p) =>
        match Pieces(entries[1..])
        case Err(e) => Err(e)
        case Ok(ps) => Ok([p] + ps)
  }

  /** The attribute texts among the pieces, concatenated in order. */
  function AttrText(ps: seq<Piece>): string {
    if |ps| == 0 then ""
    else (if ps[0].Attribute? then ps[0].text else "") + AttrText(ps[1..])
  }

  /** The child texts among the pieces (nested and leaf elements), in order. */
  function ChildTexts(ps: seq<Piece>): seq<string> {
    if |ps| == 0 then []
    else (if ps[0].Attribute? then [] else [ps[0].text]) + ChildTexts(ps[1..])
  }

  /** The text of the last leaf element among the pieces, if any. */
  function LastLeaf(ps: seq<Piece>): Option<string> {
    if |ps| == 0 then None
    else
      match LastLeaf(ps[1..])
      case Some(t) => Some(t)
      case None => if ps[0].Leaf? then Some(ps[0].text) else None
  }

  /** The serializations of all list items under `itemRoot`, or the first failure. */
  function ItemTexts(items: seq<Value>, itemRoot: string): (r: Result<seq<string>>)
    ensures r.Ok? ==> |r.value| == |items|
  {
    if |items| == 0 then Ok([])
    else
      match Dict2Xml(items[0], Some(itemRoot), false)
      case Err(e) => Err(e)
      case Ok(t) =>
        match ItemTexts(items[1..], itemRoot)
        case Err(e) => Err(e)
        case Ok(ts) => Ok([t] + ts)
  }

  /** An element in the sense of section 3.1 of XML 1.0: an empty-element tag
      when there are no children, otherwise start tag, content and end tag. */
  function Element(name: string, attrs: string, children: seq<string>): string {
    if |children| == 0 then "<" + name + attrs + "/>"
    else "<" + name + attrs + ">" + Concat(children) + "</" + name + ">"
  }

  /** The locals after the loop has taken the pieces `ps` from `locals`. */
  function Summarize(locals: Locals, ps: seq<Piece>): Locals {
    Locals(LastLeaf(ps).GetOr(locals.xml), locals.attr + AttrText(ps), locals.children + ChildTexts(ps))
  }

  lemma StepSummarize(locals: Locals, p: Piece, ps: seq<Piece>)
    ensures Summarize(Step(locals, p), ps) == Summarize(locals, [p] + ps)
  {
  }

  /** The loop over a dict computes the reference summary of its entries'
      pieces, and fails exactly when one of them fails. */
  lemma {:induction false} DictLoopSummary(d: Value, i: nat, locals: Locals)
    requires d.Dict? && i <= |d.entries|
    ensures DictLoop(d, i, locals) ==
      match Pieces(d.entries[i..])
      case Err(e) => Err(e)
      case Ok(ps) => Ok(Summarize(locals, ps))
    decreases |d.entries| - i
  {
    if i == |d.entries| {
      assert d.entries[i..] == [];
      assert Summarize(locals, []) == locals;
    } else {
      assert d.entries[i..][1..] == d.entries[i + 1..];
      match EntryPiece(d.entries[i].0, d.entries[i].1)
      case Err(e) =>
      case Ok(p) =>
        DictLoopSummary(d, i + 1, Step(locals, p));
        match Pieces(d.entries[i + 1..])
        case Err(e) =>
        case Ok(ps) => StepSummarize(locals, p, ps);
    }
  }

  /** The loop over a list appends the items' serializations, in order. */
  lemma {:induction false} ListLoopSummary(d: Value, itemRoot: string, i: nat, locals: Locals)
    requires d.List? && i <= |d.items|
    ensures ListLoop(d, itemRoot, i, locals) ==
      match ItemTexts(d.items[i..], itemRoot)
      case Err(e) => Err(e)
      case Ok(ts) => Ok(locals.(children := locals.children + ts))
    decreases |d.items| - i
  {
    if i == |d.items| {
      assert d.items[i..] == [];
      assert locals.children + [] == locals.children;
    } else {
      assert d.items[i..][1..] == d.items[i + 1..];
      match Dict2Xml(d.items[i], Some(itemRoot), false)
      case Err(e) =>
      case Ok(t) =>
        ListLoopSummary(d, itemRoot, i + 1, locals.(children := locals.children + [t]));
        match ItemTexts(d.items[i + 1..], itemRoot)
        case Err(e) =>
        case Ok(ts) => assert locals.children + [t] + ts == locals.children + ([t] + ts);
    }
  }

  /** A dict under a root node is one element named by the root node: its
      attributes in entry order on the start tag, its nested and leaf elements
      in entry order as content, and an empty-element tag when it has none. */
  lemma WrappedDict(entries: seq<(string, Value)>, root: string, addXmlVersion: bool)
    ensures Dict2Xml(Dict(entries), Some(root), addXmlVersion) ==
      if root == "" then Err(IndexError)
      else
        match Pieces(entries)
        case Err(e) => Err(e)
        case Ok(ps) => Ok(Element(root, AttrText(ps), ChildTexts(ps)))
  {
    if root != "" {
      var d := Dict(entries);
      var start := Locals(DeclText(addXmlVersion), "", []);
      assert entries[0..] == entries;
      DictLoopSummary(d, 0, start);
      match Pieces(entries)
      case Err(e) =>
      case Ok(ps) =>
        var locals := Summarize(start, ps);
        assert locals.attr == AttrText(ps) && locals.children == ChildTexts(ps);
        assert Dict2Xml(d, Some(root), addXmlVersion) == Ok(Assemble(true, root, locals));
        assert Assemble(true, root, locals) == Element(root, AttrText(ps), ChildTexts(ps));
    }
  }

  /** A dict without a root node is not wrapped: its attributes are dropped,
      and its children follow the last leaf element, which so appears twice,
      or the declaration when it has no leaf. */
  lemma UnwrappedDict(entries: seq<(string, Value)>, addXmlVersion: bool)
    ensures Dict2Xml(Dict(entries), None, addXmlVersion) ==
      match Pieces(entries)
      case Err(e) => Err(e)
      case Ok(ps) => Ok(LastLeaf(ps).GetOr(DeclText(addXmlVersion)) + Concat(ChildTexts(ps)))
  {
    var d := Dict(entries);
    var start := Locals(DeclText(addXmlVersion), "", []);
    assert entries[0..] == entries;
    DictLoopSummary(d, 0, start);
    match Pieces(entries)
    case Err(e) =>
    case Ok(ps) =>
      var locals := Summarize(start, ps);
      assert locals.children == ChildTexts(ps);
      assert Dict2Xml(d, None, addXmlVersion) == Ok(Assemble(false, DefaultRoot, locals));
      assert Assemble(false, DefaultRoot, locals) == LastLeaf(ps).GetOr(DeclText(addXmlVersion)) + Concat(ChildTexts(ps));
  }

  /** A list is never wrapped: the declaration, if asked for, followed by each
      item serialized under the singular of the root name. */
  lemma ListResult(items: seq<Value>, rootNode: Option<string>, addXmlVersion: bool)
    ensures Dict2Xml(List(items), rootNode, addXmlVersion) ==
      if rootNode == Some("") then Err(IndexError)
      else
        match ItemTexts(items, Singular(rootNode.GetOr(DefaultRoot)).value)
        case Err(e) => Err(e)
        case Ok(ts) => Ok(DeclText(addXmlVersion) + Concat(ts))
  {
    if rootNode != Some("") {
      var root := rootNode.GetOr(DefaultRoot);
      var itemRoot := Singular(root).value;
      var start := Locals(DeclText(addXmlVersion), "", []);
      assert items[0..] == items;
      ListLoopSummary(List(items), itemRoot, 0, start);
      match ItemTexts(items, itemRoot)
      case Err(e) =>
      case Ok(ts) =>
        var locals := start.(children := [] + ts);
        assert locals.children == ts;
        assert Dict2Xml(List(items), rootNode, addXmlVersion) == Ok(Assemble(false, root, locals));
        assert Assemble(false, root, locals) == DeclText(addXmlVersion) + Concat(ts);
    }
  }

  /** A scalar cannot be serialized on its own; the empty root name is
      rejected first, since `root[-1]` is read before the type test. */
  lemma ScalarFails(text: string, rootNode: Option<string>, addXmlVersion: bool)
    ensures Dict2Xml(Scalar(text), rootNode, addXmlVersion) ==
      Err(if rootNode == Some("") then IndexError else TypeError)
  {
  }

  /** The empty root name raises IndexError whatever the value, since
      `root[-1]` is read before anything else. */
  lemma EmptyRootFails(d: Value, addXmlVersion: bool)
    ensures Dict2Xml(d, Some(""), addXmlVersion) == Err(IndexError)
  {
  }

  /** An empty key raises IndexError for a container value too: the value is
      serialized under the empty root name. */
  lemma EmptyKeyContainerFails(v: Value)
    requires v.IsContainer()
    ensures EntryPiece("", v) == Err(IndexError)
  {
  }

  /** An empty key raises IndexError for a scalar value: `key[0]` is read. */
  lemma EmptyKeyScalarFails(text: string)
    ensures EntryPiece("", Scalar(text)) == Err(IndexError)
  {
  }

  // ---------------------------------------------------------------------
  // When the serializer succeeds.

  /** `d` can be serialized under the tag `root`: the tag is not empty (it is
      read at index -1), `d` is not a scalar, every container entry of a dict
      can be serialized under its key, every scalar entry has a non-empty key
      (it is read at index 0), and every list item can be serialized under the
      singular of `root`. */
  predicate Renderable(d: Value, root: string)
    decreases d
  {
    root != "" &&
    match d
    case Scalar(_) => false
    case Dict(entries) =>
      forall i | 0 <= i < |entries| ::
        if entries[i].1.IsContainer() then Renderable(entries[i].1, entries[i].0) else entries[i].0 != ""
    case List(items) =>
      forall i | 0 <= i < |items| :: Renderable(items[i], Singular(root).value)
  }

  lemma {:induction false} PiecesOk(entries: seq<(string, Value)>)
    ensures Pieces(entries).Ok? <==>
      forall i | 0 <= i < |entries| :: EntryPiece(entries[i].0, entries[i].1).Ok?
  {
    if |entries| > 0 {
      PiecesOk(entries[1..]);
      assert forall i | 1 <= i < |entries| :: entries[1..][i - 1] == entries[i];
    }
  }

  lemma {:induction false} ItemTextsOk(items: seq<Value>, itemRoot: string)
    ensures ItemTexts(items, itemRoot).Ok? <==>
      forall i | 0 <= i < |items| :: Dict2Xml(items[i], Some(itemRoot), false).Ok?
  {
    if |items| > 0 {
      ItemTextsOk(items[1..], itemRoot);
      assert forall i | 1 <= i < |items| :: items[1..][i - 1] == items[i];
    }
  }

  /** The serializer succeeds exactly on renderable values; every other value
      raises (a TypeError or an IndexError, by the contract of Dict2Xml). */
  lemma {:induction false} RenderableIff(d: Value, rootNode: Option<string>, addXmlVersion: bool)
    ensures Dict2Xml(d, rootNode, addXmlVersion).Ok? <==> Renderable(d, rootNode.GetOr(DefaultRoot))
    decreases d
  {
    var root := rootNode.GetOr(DefaultRoot);
    if root != "" {
      match d
      case Scalar(_) =>
      case Dict(entries) =>
        if rootNode.Some? {
          WrappedDict(entries, root, addXmlVersion);
        } else {
          UnwrappedDict(entries, addXmlVersion);
        }
        PiecesOk(entries);
        forall i | 0 <= i < |entries|
          ensures EntryPiece(entries[i].0, entries[i].1).Ok? <==>
            if entries[i].1.IsContainer() then Renderable(entries[i].1, entries[i].0) else entries[i].0 != ""
        {
          assert entries[i] in entries;
          if entries[i].1.IsContainer() {
            RenderableIff(entries[i].1, Some(entries[i].0), false);
          }
        }
      case List(items) =>
        ListResult(items, rootNode, addXmlVersion);
        ItemTextsOk(items, Singular(root).value);
        forall i | 0 <= i < |items|
          ensures Dict2Xml(items[i], Some(Singular(root).value), false).Ok? <==> Renderable(items[i], Singular(root).value)
        {
          RenderableIff(items[i], Some(Singular(root).value), false);
        }
    }
  }

  /** A list with a scalar item never serializes: the scalar item raises. */
  lemma ScalarItemFails(items: seq<Value>, rootNode: Option<string>, addXmlVersion: bool, k: nat)
    requires k < |items| && items[k].Scalar?
    ensures Dict2Xml(List(items), rootNode, addXmlVersion).Err?
  {
    RenderableIff(List(items), rootNode, addXmlVersion);
    var root := rootNode.GetOr(DefaultRoot);
    if root != "" {
      RenderableIff(items[k], Some(Singular(root).value), false);
    }
  }

  // ---------------------------------------------------------------------
  // The declaration.

  /** A wrapped dict never carries the declaration: the start tag overwrites
      it, so asking for it changes nothing. */
  lemma WrappedIgnoresDeclaration(entries: seq<(string, Value)>, root: string)
    ensures Dict2Xml(Dict(entries), Some(root), true) == Dict2Xml(Dict(entries), Some(root), false)
  {
    if root != "" {
      WrappedDict(entries, root, true);
      WrappedDict(entries, root, false);
    }
  }

  /** A list's output starts with the declaration when it is asked for, and
      is otherwise the same. */
  lemma ListDeclarationPrefix(items: seq<Value>, rootNode: Option<string>)
    ensures Dict2Xml(List(items), rootNode, true) ==
      match Dict2Xml(List(items), rootNode, false)
      case Err(e) => Err(e)
      case Ok(t) => Ok(Declaration + t)
  {
    if rootNode != Some("") {
      ListResult(items, rootNode, true);
      ListResult(items, rootNode, false);
      match ItemTexts(items, Singular(rootNode.GetOr(DefaultRoot)).value)
      case Err(e) =>
      case Ok(ts) => assert "" + Concat(ts) == Concat(ts);
    }
  }

  /** In a dict that is not wrapped, a leaf element takes the place of the
      declaration, so with a leaf present the declaration never appears. */
  lemma UnwrappedLeafReplacesDeclaration(entries: seq<(string, Value)>)
    requires Pieces(entries).Ok? && LastLeaf(Pieces(entries).value).Some?
    ensures Dict2Xml(Dict(entries), None, true) == Dict2Xml(Dict(entries), None, false)
  {
    UnwrappedDict(entries, true);
    UnwrappedDict(entries, false);
  }
}
