/** Consequences of the serializer's behaviour on particular shapes and
    inputs, derived from the general lemmas of module Xml. */
module XmlExamples {
  import opened Results
  import opened Values
  import opened Xml

  lemma PiecesCons(key: string, value: Value, rest: seq<(string, Value)>, p: Piece, ps: seq<Piece>)
    requires EntryPiece(key, value) == Ok(p) && Pieces(rest) == Ok(ps)
    ensures Pieces([(key, value)] + rest) == Ok([p] + ps)
  {
  }

  lemma ConcatOne(a: string)
    ensures Concat([a]) == a
  {
  }

  lemma ConcatTwo(a: string, b: string)
    ensures Concat([a, b]) == a + b
  {
    assert [a, b][1..] == [b];
    ConcatOne(b);
  }

  /** A key '@k' holding a dict or list is tested for being a container
      first, so its value is serialized under the tag '@k' (an element for a
      dict, one element per item named by the singular of '@k' for a list)
      and is never an attribute. */
  lemma AtKeyContainerIsElement(k: string, v: Value, root: string, addXmlVersion: bool)
    requires v.IsContainer() && root != ""
    ensures Dict2Xml(Dict([("@" + k, v)]), Some(root), addXmlVersion) ==
      match Dict2Xml(v, Some("@" + k), false)
      case Err(e) => Err(e)
      case Ok(t) => Ok("<" + root + ">" + t + "</" + root + ">")
  {
    var entries := [("@" + k, v)];
    WrappedDict(entries, root, addXmlVersion);
    assert entries[1..] == [];
    match Dict2Xml(v, Some("@" + k), false)
    case Err(e) =>
    case Ok(t) =>
      var ps := [Nested(t)];
      assert EntryPiece(entries[0].0, entries[0].1) == Ok(Nested(t));
      assert Pieces(entries[1..]) == Ok([]);
      assert [Nested(t)] + [] == ps;
      assert Pieces(entries) == Ok(ps);
      assert [Nested(t)][1..] == [];
      assert AttrText(ps) == "" && ChildTexts(ps) == [t];
      assert Concat([t]) == t by { assert [t][1..] == []; }
      assert "<" + root + "" == "<" + root;
  }

  /** The empty dict under a root node is an empty-element tag. */
  lemma EmptyDictSelfCloses(root: string, addXmlVersion: bool)
    requires root != ""
    ensures Dict2Xml(Dict([]), Some(root), addXmlVersion) == Ok("<" + root + "/>")
  {
    WrappedDict([], root, addXmlVersion);
    assert Pieces([]) == Ok([]);
    assert "<" + root + "" + "/>" == "<" + root + "/>";
  }

  /** The empty list is the declaration alone, or nothing. */
  lemma EmptyListIsDeclaration(rootNode: Option<string>, addXmlVersion: bool)
    requires rootNode != Some("")
    ensures Dict2Xml(List([]), rootNode, addXmlVersion) == Ok(DeclText(addXmlVersion))
  {
  }

  /** A list of two scalar strings, as in `tags = ["a", "b"]`, makes the
      whole dict holding it fail with TypeError. */
  lemma ScalarTagsFail()
    ensures Dict2Xml(
      Dict([("name", Scalar("Widget")), ("@id", Scalar("42")), ("tags", List([Scalar("a"), Scalar("b")]))]),
      Some("item"), false) == Err(TypeError)
  {
  }

  /** A dict holding one scalar under a plain key is the root element around
      one leaf element. */
  lemma SingleLeafDict(root: string, key: string, text: string, addXmlVersion: bool)
    requires root != "" && key != "" && key[0] != '@'
    ensures Dict2Xml(Dict([(key, Scalar(text))]), Some(root), addXmlVersion)
      == Ok(Element(root, "", [LeafElement(key, text)]))
  {
    var leaf := LeafElement(key, text);
    PiecesCons(key, Scalar(text), [], Leaf(leaf), []);
    assert [(key, Scalar(text))] + [] == [(key, Scalar(text))] && [Leaf(leaf)] + [] == [Leaf(leaf)];
    WrappedDict([(key, Scalar(text))], root, addXmlVersion);
    assert [Leaf(leaf)][1..] == [];
    assert AttrText([Leaf(leaf)]) == "" && ChildTexts([Leaf(leaf)]) == [leaf];
  }

  /** A list stored under a plural key has no element of its own: its one
      item is serialized under the singular key. */
  lemma PluralKeyList(singular: string, item: Value)
    ensures Dict2Xml(List([item]), Some(singular + "s"), false) == Dict2Xml(item, Some(singular), false)
  {
    SingularStripsOne(singular);
    var items := [item];
    assert items[1..] == [];
    assert ItemTexts(items[1..], singular) == Ok([]);
    ListResult(items, Some(singular + "s"), false);
    match Dict2Xml(item, Some(singular), false)
    case Err(e) =>
    case Ok(t) =>
      assert [t] + [] == [t];
      assert ItemTexts(items, singular) == Ok([t]);
      ConcatOne(t);
      assert DeclText(false) + t == t;
  }

  /** The pieces of the widget document's entries. */
  lemma WidgetPieces(name: string, nameText: string, id: string, idText: string, tag: string, item: Value, tagText: string)
    requires name != "" && name[0] != '@' && tag != ""
    requires Dict2Xml(List([item]), Some(tag + "s"), false) == Ok(tagText)
    ensures Pieces([(name, Scalar(nameText)), ("@" + id, Scalar(idText)), (tag + "s", List([item]))])
      == Ok([Leaf(LeafElement(name, nameText)), Attribute(AttributeText(id, idText)), Nested(tagText)])
  {
    var entries := [(name, Scalar(nameText)), ("@" + id, Scalar(idText)), (tag + "s", List([item]))];
    var ps := [Leaf(LeafElement(name, nameText)), Attribute(AttributeText(id, idText)), Nested(tagText)];
    assert ("@" + id)[0] == '@' && ("@" + id)[1..] == id;
    PiecesCons(tag + "s", List([item]), [], Nested(tagText), []);
    assert [(tag + "s", List([item]))] + [] == entries[1..][1..];
    assert [Nested(tagText)] + [] == ps[1..][1..];
    PiecesCons("@" + id, Scalar(idText), entries[1..][1..], ps[1], ps[1..][1..]);
    assert [entries[1]] + entries[1..][1..] == entries[1..];
    assert [ps[1]] + ps[1..][1..] == ps[1..];
    PiecesCons(name, Scalar(nameText), entries[1..], ps[0], ps[1..]);
    assert [entries[0]] + entries[1..] == entries;
    assert [ps[0]] + ps[1..] == ps;
  }

  /** The shape of the widget document: a leaf, an attribute and a list of
      one dict under a plural key. The attribute goes on the start tag, the
      leaf element stays in place, and the list gives one element per item
      named by the singular key, with no element for the plural key. */
  lemma WidgetShape(root: string, name: string, nameText: string, id: string, idText: string,
                    tag: string, child: string, childText: string)
    requires root != "" && name != "" && name[0] != '@' && tag != "" && child != "" && child[0] != '@'
    ensures Dict2Xml(
      Dict([(name, Scalar(nameText)), ("@" + id, Scalar(idText)), (tag + "s", List([Dict([(child, Scalar(childText))])]))]),
      Some(root), false)
      == Ok(Element(root, AttributeText(id, idText),
                    [LeafElement(name, nameText), Element(tag, "", [LeafElement(child, childText)])]))
  {
    var item := Dict([(child, Scalar(childText))]);
    var tagText := Element(tag, "", [LeafElement(child, childText)]);
    SingleLeafDict(tag, child, childText, false);
    PluralKeyList(tag, item);
    WidgetPieces(name, nameText, id, idText, tag, item, tagText);
    var ps := [Leaf(LeafElement(name, nameText)), Attribute(AttributeText(id, idText)), Nested(tagText)];
    assert ps[1..][1..][1..] == [];
    assert AttrText(ps[1..][1..]) == "";
    assert AttrText(ps) == AttributeText(id, idText);
    assert ChildTexts(ps[1..][1..]) == [tagText];
    assert ChildTexts(ps) == [LeafElement(name, nameText), tagText];
    WrappedDict([(name, Scalar(nameText)), ("@" + id, Scalar(idText)), (tag + "s", List([item]))], root, false);
  }

  /** The pieces of the entries leaf, attribute, leaf. */
  lemma LeafAttrLeafPieces(a: string, aText: string, x: string, xText: string, b: string, bText: string)
    requires a != "" && a[0] != '@' && b != "" && b[0] != '@'
    ensures Pieces([(a, Scalar(aText)), ("@" + x, Scalar(xText)), (b, Scalar(bText))])
      == Ok([Leaf(LeafElement(a, aText)), Attribute(AttributeText(x, xText)), Leaf(LeafElement(b, bText))])
  {
    var entries := [(a, Scalar(aText)), ("@" + x, Scalar(xText)), (b, Scalar(bText))];
    var ps := [Leaf(LeafElement(a, aText)), Attribute(AttributeText(x, xText)), Leaf(LeafElement(b, bText))];
    assert ("@" + x)[0] == '@' && ("@" + x)[1..] == x;
    PiecesCons(b, Scalar(bText), [], ps[2], []);
    assert [entries[2]] + [] == entries[1..][1..] && [ps[2]] + [] == ps[1..][1..];
    PiecesCons("@" + x, Scalar(xText), entries[1..][1..], ps[1], ps[1..][1..]);
    assert [entries[1]] + entries[1..][1..] == entries[1..] && [ps[1]] + ps[1..][1..] == ps[1..];
    PiecesCons(a, Scalar(aText), entries[1..], ps[0], ps[1..]);
    assert [entries[0]] + entries[1..] == entries && [ps[0]] + ps[1..] == ps;
  }

  /** Without a root node a dict's attributes are dropped and its last leaf
      element is written twice: once in place of the declaration, once among
      the children. */
  lemma UnwrappedDuplicatesLastLeaf(a: string, aText: string, x: string, xText: string,
                                    b: string, bText: string, addXmlVersion: bool)
    requires a != "" && a[0] != '@' && b != "" && b[0] != '@'
    ensures Dict2Xml(Dict([(a, Scalar(aText)), ("@" + x, Scalar(xText)), (b, Scalar(bText))]), None, addXmlVersion)
      == Ok(LeafElement(b, bText) + LeafElement(a, aText) + LeafElement(b, bText))
  {
    var entries := [(a, Scalar(aText)), ("@" + x, Scalar(xText)), (b, Scalar(bText))];
    var aLeaf := LeafElement(a, aText);
    var bLeaf := LeafElement(b, bText);
    var ps := [Leaf(aLeaf), Attribute(AttributeText(x, xText)), Leaf(bLeaf)];
    LeafAttrLeafPieces(a, aText, x, xText, b, bText);
    assert ps[1..][1..][1..] == [];
    assert LastLeaf(ps[1..][1..]) == Some(bLeaf);
    assert LastLeaf(ps) == Some(bLeaf);
    assert ChildTexts(ps[1..][1..]) == [bLeaf];
    assert ChildTexts(ps) == [aLeaf, bLeaf];
    UnwrappedDict(entries, addXmlVersion);
    ConcatTwo(aLeaf, bLeaf);
    assert bLeaf + (aLeaf + bLeaf) == bLeaf + aLeaf + bLeaf;
  }
}
