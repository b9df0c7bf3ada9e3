/** A styled-string span as an XML-like tree: an element's span covers the
    decoded characters of its text descendants; start and end are computed
    from the lengths of the nodes around it. Text is held as Java holds a
    String: a sequence of UTF-16 code units, so lengths and offsets count
    code units and a character outside the Basic Multilingual Plane counts
    two. */
module StyleElement {

  /** A Java `char`: one UTF-16 code unit, a lone surrogate included. */
  type CodeUnit = bv16

  /** The contents of a Java String. */
  type Utf16 = seq<CodeUnit>

  datatype Attribute = Attribute(name: string, value: string)

  /** The nodes of a styled string. A StyleNode tree has no comment kind:
      `newComment` yields null. */
  datatype StyleNode =
    | StyleText(text: Utf16)
    | StyleElement(name: string, attributes: seq<Attribute>, children: seq<StyleNode>)

  /** The nodes of a general XML tree that `copyFrom` copies from. */
  datatype XmlNode =
    | XmlText(text: Utf16)
    | XmlElement(name: string, attributes: seq<Attribute>, children: seq<XmlNode>)
    | XmlOther(kind: string)

  /** `getLength`: a text node counts its code units (`String.length`); an element the sum of
      its children's lengths. */
  function Length(n: StyleNode): nat
  {
    match n
    case StyleText(t) => |t|
    case StyleElement(_, _, cs) => SumLengths(cs)
  }

  function SumLengths(cs: seq<StyleNode>): nat
  {
    if |cs| == 0 then 0 else Length(cs[0]) + SumLengths(cs[1..])
  }

  /** The decoded text a node covers, in document order. */
  function Flatten(n: StyleNode): Utf16
  {
    match n
    case StyleText(t) => t
    case StyleElement(_, _, cs) => FlattenAll(cs)
  }

  function FlattenAll(cs: seq<StyleNode>): Utf16
  {
    if |cs| == 0 then [] else Flatten(cs[0]) + FlattenAll(cs[1..])
  }

  /** A node's length is the number of code units of the text it covers. */
  lemma {:induction false} LengthIsTextLength(n: StyleNode)
    ensures Length(n) == |Flatten(n)|
    decreases n, 1
  {
    match n
    case StyleText(_) =>
    case StyleElement(_, _, cs) => SumLengthsIsTextLength(cs);
  }

  lemma {:induction false} SumLengthsIsTextLength(cs: seq<StyleNode>)
    ensures SumLengths(cs) == |FlattenAll(cs)|
    decreases cs, 0
  {
    if |cs| > 0 {
      LengthIsTextLength(cs[0]);
      SumLengthsIsTextLength(cs[1..]);
    }
  }

  lemma {:induction false} FlattenAllAppend(a: seq<StyleNode>, b: seq<StyleNode>)
    ensures FlattenAll(a + b) == FlattenAll(a) + FlattenAll(b)
    decreases |a|
  {
    if |a| > 0 {
      assert (a + b)[1..] == a[1..] + b;
      assert (a + b)[0] == a[0];
      FlattenAllAppend(a[1..], b);
    } else {
      assert a + b == b;
    }
  }

  /** Where an element sits: at the root (no parent), or at `index` among
      the children of its parent. */
  datatype Position =
    | Root(element: StyleNode)
    | InParent(siblings: seq<StyleNode>, index: nat)
  {
    ghost predicate Valid()
    {
      match this
      case Root(e) => e.StyleElement?
      case InParent(sibs, k) => k < |sibs| && sibs[k].StyleElement?
    }

    function Node(): StyleNode
      requires Valid()
    {
      match this
      case Root(e) => e
      case InParent(sibs, k) => sibs[k]
    }
  }

  /** `getStart`: 0 without a parent; otherwise the lengths of the siblings
      before this element in its parent, added up until the element itself
      is met. The value is relative to the immediate parent. */
  method GetStart(pos: Position) returns (start: nat)
    requires pos.Valid()
    ensures pos.Root? ==> start == 0
    ensures pos.InParent? ==> start == |FlattenAll(pos.siblings[..pos.index])|
  {
    if pos.Root? {
      return 0;
    }
    var sibs := pos.siblings;
    start := 0;
    var i := 0;
    while i < |sibs|
      invariant 0 <= i <= pos.index
      invariant start == SumLengths(sibs[..i])
    {
      if i == pos.index {
        break;
      }
      SumLengthsAppend(sibs[..i], sibs[i]);
      assert sibs[..i + 1] == sibs[..i] + [sibs[i]];
      start := start + Length(sibs[i]);
      i := i + 1;
    }
    SumLengthsIsTextLength(sibs[..pos.index]);
  }

  lemma {:induction false} SumLengthsAppend(cs: seq<StyleNode>, n: StyleNode)
    ensures SumLengths(cs + [n]) == SumLengths(cs) + Length(n)
    decreases |cs|
  {
    if |cs| > 0 {
      assert (cs + [n])[1..] == cs[1..] + [n];
      SumLengthsAppend(cs[1..], n);
    }
  }

  /** The start getStart returns, as a value. */
  function Start(pos: Position): nat
    requires pos.Valid()
  {
    match pos
    case Root(_) => 0
    case InParent(sibs, k) => SumLengths(sibs[..k])
  }

  lemma StartIsTextLength(pos: Position)
    requires pos.Valid()
    ensures pos.InParent? ==> Start(pos) == |FlattenAll(pos.siblings[..pos.index])|
  {
    if pos.InParent? { SumLengthsIsTextLength(pos.siblings[..pos.index]); }
  }

  /** A character outside the Basic Multilingual Plane is a surrogate pair
      and moves the next sibling's start by two, as Java's `String.length`
      counts it. */
  lemma SurrogatePairCountsTwo()
    ensures Start(InParent([StyleText([0xD83D, 0xDE00]), StyleElement("b", [], [StyleText([0x78])])], 1)) == 2
  {
    var sibs := [StyleText([0xD83D, 0xDE00]), StyleElement("b", [], [StyleText([0x78])])];
    assert sibs[..1] == [StyleText([0xD83D, 0xDE00])];
  }

  /** `getEnd`: from the start, add the lengths of the element's own
      children and step back one when that did not go below the start. */
  function GetEnd(pos: Position): (end: int)
    requires pos.Valid()
    ensures end == Start(pos) + |Flatten(pos.Node())| - 1
    ensures pos.InParent? ==>
              end == |FlattenAll(pos.siblings[..pos.index])| + |Flatten(pos.Node())| - 1
  {
    var start := Start(pos);
    var result := start + SumLengths(pos.Node().children);
    LengthIsTextLength(pos.Node());
    StartIsTextLength(pos);
    if result >= start then result - 1 else result
  }

  /** `appendChar`: NUL is ignored; otherwise the code unit joins the last
      child when that is a text node, or a new text node is appended. */
  function AppendChar(e: StyleNode, c: CodeUnit): (r: StyleNode)
    requires e.StyleElement?
    ensures r.StyleElement? && r.name == e.name && r.attributes == e.attributes
    ensures c == 0 ==> r == e
    ensures c != 0 ==> Flatten(r) == Flatten(e) + [c] && Length(r) == Length(e) + 1
    ensures c != 0 && |e.children| > 0 && e.children[|e.children| - 1].StyleText? ==>
              |r.children| == |e.children| && r.children[..|e.children| - 1] == e.children[..|e.children| - 1]
    ensures c != 0 && |e.children| > 0 && e.children[|e.children| - 1].StyleText? ==>
              r.children == e.children[..|e.children| - 1] + [StyleText(e.children[|e.children| - 1].text + [c])]
    ensures c != 0 && !(|e.children| > 0 && e.children[|e.children| - 1].StyleText?) ==>
              r.children == e.children + [StyleText([c])]
  {
    if c == 0 then e
    else
      var cs := e.children;
      var n := |cs|;
      var children :=
        if n > 0 && cs[n - 1].StyleText? then cs[..n - 1] + [StyleText(cs[n - 1].text + [c])]
        else cs + [StyleText([c])];
      var r := e.(children := children);
      assert Flatten(r) == Flatten(e) + [c] by {
        if n > 0 && cs[n - 1].StyleText? {
          FlattenAllAppend(cs[..n - 1], [StyleText(cs[n - 1].text + [c])]);
          FlattenAllAppend(cs[..n - 1], [cs[n - 1]]);
          assert cs[..n - 1] + [cs[n - 1]] == cs;
        } else {
          FlattenAllAppend(cs, [StyleText([c])]);
        }
      }
      LengthIsTextLength(r);
      LengthIsTextLength(e);
      r
  }

  /** `copyFrom`: takes the source's name, appends its attributes, and
      appends its children in order, an element as a new style element
      filled by copyFrom, a text as a style text, anything else dropped. */
  function CopyFrom(target: StyleNode, src: XmlNode): (r: StyleNode)
    requires target.StyleElement? && src.XmlElement?
    ensures r.StyleElement? && r.name == src.name
    ensures r.attributes == target.attributes + src.attributes
    ensures |target.children| <= |r.children| && r.children[..|target.children|] == target.children
    ensures r.children[|target.children|..] == CopyChildren(src.children)
    decreases src, 1
  {
    var r := StyleElement(src.name, target.attributes + src.attributes,
                          target.children + CopyChildren(src.children));
    assert r.children[..|target.children|] == target.children;
    r
  }

  function CopyChildren(cs: seq<XmlNode>): seq<StyleNode>
    decreases cs, 0
  {
    if |cs| == 0 then []
    else
      var head: seq<StyleNode> :=
        match cs[0]
        case XmlElement(_, _, _) => [CopyFrom(StyleElement("", [], []), cs[0])]
        case XmlText(t) => [StyleText(t)]
        case XmlOther(_) => [];
      head + CopyChildren(cs[1..])
  }

  /** The children copyFrom keeps: elements and texts, in order. */
  function Kept(cs: seq<XmlNode>): (r: seq<XmlNode>)
    ensures forall i :: 0 <= i < |r| ==> !r[i].XmlOther?
  {
    if |cs| == 0 then []
    else if cs[0].XmlOther? then Kept(cs[1..])
    else [cs[0]] + Kept(cs[1..])
  }

  /** The text of an XML node, ignoring node kinds other than elements and texts. */
  function XmlTextOf(n: XmlNode): Utf16
  {
    match n
    case XmlText(t) => t
    case XmlElement(_, _, cs) => XmlTextOfAll(cs)
    case XmlOther(_) => []
  }

  function XmlTextOfAll(cs: seq<XmlNode>): Utf16
  {
    if |cs| == 0 then [] else XmlTextOf(cs[0]) + XmlTextOfAll(cs[1..])
  }

  /** A copied node mirrors its source: a text becomes a style text with the
      same text, an element a style element with the same name and
      attributes. */
  predicate Mirrors(c: StyleNode, x: XmlNode)
  {
    (x.XmlText? ==> c == StyleText(x.text)) &&
    (x.XmlElement? ==> c.StyleElement? && c.name == x.name && c.attributes == x.attributes)
  }

  /** The copied children correspond one to one, in order, to the source's
      elements and texts, each mirroring its source node. */
  lemma {:induction false} CopyChildrenMirrorsKept(cs: seq<XmlNode>)
    ensures |CopyChildren(cs)| == |Kept(cs)|
    ensures forall i :: 0 <= i < |Kept(cs)| ==> Mirrors(CopyChildren(cs)[i], Kept(cs)[i])
    decreases |cs|
  {
    if |cs| > 0 {
      var rest := CopyChildren(cs[1..]);
      var k := Kept(cs[1..]);
      CopyChildrenMirrorsKept(cs[1..]);
      if cs[0].XmlOther? {
        assert CopyChildren(cs) == [] + rest;
        assert Kept(cs) == k;
      } else {
        var c := if cs[0].XmlText? then StyleText(cs[0].text)
                 else CopyFrom(StyleElement("", [], []), cs[0]);
        assert CopyChildren(cs) == [c] + rest;
        assert Kept(cs) == [cs[0]] + k;
        assert Mirrors(c, cs[0]);
        forall i | 0 <= i < |Kept(cs)| ensures Mirrors(CopyChildren(cs)[i], Kept(cs)[i]) {
          if i > 0 {
            assert CopyChildren(cs)[i] == rest[i - 1] && Kept(cs)[i] == k[i - 1];
          }
        }
      }
    }
  }

  /** Copying into an empty element keeps the covered text, so the copy's
      span length is the source's code-unit count. */
  lemma {:induction false} CopyKeepsText(src: XmlNode)
    requires src.XmlElement?
    ensures Flatten(CopyFrom(StyleElement("", [], []), src)) == XmlTextOf(src)
    ensures Length(CopyFrom(StyleElement("", [], []), src)) == |XmlTextOf(src)|
    decreases src, 1
  {
    CopyChildrenKeepsText(src.children);
    assert [] + CopyChildren(src.children) == CopyChildren(src.children);
    LengthIsTextLength(CopyFrom(StyleElement("", [], []), src));
  }

  lemma {:induction false} CopyChildrenKeepsText(cs: seq<XmlNode>)
    ensures FlattenAll(CopyChildren(cs)) == XmlTextOfAll(cs)
    decreases cs, 0
  {
    if |cs| > 0 {
      CopyChildrenKeepsText(cs[1..]);
      var head: seq<StyleNode> :=
        match cs[0]
        case XmlElement(_, _, _) => [CopyFrom(StyleElement("", [], []), cs[0])]
        case XmlText(t) => [StyleText(t)]
        case XmlOther(_) => [];
      assert CopyChildren(cs) == head + CopyChildren(cs[1..]);
      FlattenAllAppend(head, CopyChildren(cs[1..]));
      match cs[0]
      case XmlElement(_, _, _) =>
        CopyKeepsText(cs[0]);
        assert FlattenAll(head) == Flatten(head[0]) + FlattenAll([]);
      case XmlText(t) =>
        assert FlattenAll(head) == t + FlattenAll([]);
      case XmlOther(_) =>
    }
  }
}
