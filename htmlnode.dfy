/**
  HTML nodes: the base `HTMLNode`, whose rendering is left to subclasses, and
  `LeafNode`, which renders a single tag around its value.  Python treats
  `None` and the empty string (or empty dict) alike in `not self.value`,
  `not self.tag` and `if self.props`; `Truthy` captures that.
*/
module HtmlNodes {
  import opened Wrappers
  import opened Errors

  /** An attribute dictionary, as its items in insertion order. */
  type Props = seq<(string, string)>

  /** The Python class a node was built as. */
  datatype Kind = Plain | Leaf

  /** An `HTMLNode` (kind Plain) or a `LeafNode` (kind Leaf); fields are set once. */
  datatype HtmlNode = HtmlNode(
    kind: Kind,
    tag: Option<string>,
    value: Option<string>,
    children: Option<seq<HtmlNode>>,
    props: Option<Props>)

  /** Python truthiness of an optional string or list: present and non-empty. */
  predicate Truthy<T>(o: Option<seq<T>>) {
    o.Some? && |o.value| > 0
  }

  /** One rendered attribute: a space, the key, `=` and the value in double quotes. */
  function Attribute(item: (string, string)): string {
    " " + item.0 + "=\"" + item.1 + "\""
  }

  /** The attributes of `items` rendered one after another, in order. */
  function AttributesHtml(items: Props): string
    decreases |items|
  {
    if items == [] then ""
    else AttributesHtml(items[..|items| - 1]) + Attribute(items[|items| - 1])
  }

  /** What `props_to_html` returns for a node whose props are `props`. */
  function PropsHtml(props: Option<Props>): string {
    if Truthy(props) then AttributesHtml(props.value) else ""
  }

  /** `HTMLNode.props_to_html`: accumulates the attributes in a loop. */
  method PropsToHtml(node: HtmlNode) returns (html: string)
    ensures !Truthy(node.props) ==> html == ""
    ensures html == PropsHtml(node.props)
  {
    html := "";
    if Truthy(node.props) {
      var items := node.props.value;
      for i := 0 to |items|
        invariant html == AttributesHtml(items[..i])
      {
        var (key, value) := items[i];
        html := html + " " + key + "=\"" + value + "\"";
        assert items[..i + 1][..i] == items[..i];
      }
      assert items[..|items|] == items;
    }
  }

  /** Rendering a list of attributes distributes over concatenation: nothing is put between entries. */
  lemma {:induction false} AttributesHtmlAppend(a: Props, b: Props)
    ensures AttributesHtml(a + b) == AttributesHtml(a) + AttributesHtml(b)
    decreases |b|
  {
    if b == [] {
      assert a + b == a;
    } else {
      var b' := b[..|b| - 1];
      assert (a + b)[..|a + b| - 1] == a + b';
      AttributesHtmlAppend(a, b');
    }
  }

  /** The rendering is the in-order concatenation of each entry's ` key="value"`, front to back. */
  lemma {:induction false} AttributesHtmlFront(items: Props)
    requires items != []
    ensures AttributesHtml(items) == Attribute(items[0]) + AttributesHtml(items[1..])
  {
    assert items == [items[0]] + items[1..];
    AttributesHtmlAppend([items[0]], items[1..]);
    assert AttributesHtml([items[0]]) == Attribute(items[0]) by {
      assert [items[0]][..0] == [];
    }
  }

  /** A single entry renders as its own attribute. */
  lemma SingleProps(key: string, value: string)
    ensures PropsHtml(Some([(key, value)])) == Attribute((key, value))
  {
    var items := [(key, value)];
    assert items[..0] == [];
    assert AttributesHtml(items) == "" + Attribute(items[0]);
    assert "" + Attribute(items[0]) == Attribute(items[0]);
  }

  /** `LeafNode(tag, value, props)`: a node of kind Leaf without children. */
  function LeafNode(tag: Option<string>, value: Option<string>, props: Option<Props>): (n: HtmlNode)
    ensures n.kind == Leaf && n.children == None
    ensures n.tag == tag && n.value == value && n.props == props
  {
    HtmlNode(Leaf, tag, value, None, props)
  }

  /** The opening tag of a leaf, with its attributes. */
  function OpenTag(tag: string, props: Option<Props>): string {
    "<" + tag + PropsHtml(props) + ">"
  }

  /** The closing tag. */
  function CloseTag(tag: string): string {
    "</" + tag + ">"
  }

  /** `LeafNode.to_html`. */
  function LeafToHtml(n: HtmlNode): (r: Result<string, Error>)
    ensures r.Failure? <==> !Truthy(n.value)
    ensures r.Failure? ==> r.error == ValueError("")
    ensures Truthy(n.value) && !Truthy(n.tag) ==> r == Success(n.value.value)
    ensures Truthy(n.value) && Truthy(n.tag) ==>
      r == Success(OpenTag(n.tag.value, n.props) + n.value.value + CloseTag(n.tag.value))
  {
    if !Truthy(n.value) then Failure(ValueError(""))
    else if !Truthy(n.tag) then Success(n.value.value)
    else
      var html := "<" + n.tag.value + PropsHtml(n.props) + ">" + n.value.value + "</" + n.tag.value + ">";
      assert html == OpenTag(n.tag.value, n.props) + n.value.value + CloseTag(n.tag.value);
      Success(html)
  }

  /** `to_html`, dispatched on the class the node was built as. */
  function ToHtml(n: HtmlNode): (r: Result<string, Error>)
    ensures n.kind == Plain ==> r == Failure(NotImplementedError)
    ensures n.kind == Leaf ==> r == LeafToHtml(n)
  {
    match n.kind
    case Plain => Failure(NotImplementedError)
    case Leaf => LeafToHtml(n)
  }

  /** A leaf without a tag renders to its value whatever its props hold. */
  lemma UntaggedIgnoresProps(tag: Option<string>, value: string, p: Option<Props>, q: Option<Props>)
    requires !Truthy(tag) && value != ""
    ensures ToHtml(LeafNode(tag, Some(value), p)) == ToHtml(LeafNode(tag, Some(value), q)) == Success(value)
  {
  }

  /** The value of a tagged leaf sits, unescaped, between its opening and its closing tag. */
  lemma TaggedLeafValue(tag: string, value: string, props: Option<Props>)
    requires tag != "" && value != ""
    ensures var r := ToHtml(LeafNode(Some(tag), Some(value), props));
      var o := OpenTag(tag, props);
      r.Success? && |r.value| == |o| + |value| + |tag| + 3 &&
      r.value[..|o|] == o && r.value[|o|..|o| + |value|] == value &&
      r.value[|o| + |value|..] == CloseTag(tag)
  {
    var o := OpenTag(tag, props);
    var r := o + value + CloseTag(tag);
    assert r[..|o|] == o;
    assert r[|o|..|o| + |value|] == value;
    assert r[|o| + |value|..] == CloseTag(tag);
  }
}
