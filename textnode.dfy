/**
  Inline text spans (`TextNode`), their conversion to leaf HTML nodes, and
  `split_nodes_delimiter`, which splits plain-text spans on a literal delimiter.
*/
module TextNodes {
  import opened Wrappers
  import opened Errors
  import opened PyStrings
  import opened HtmlNodes

  /**
    The `TextTypes` enumeration. `Other` stands for any other value put in the
    `text_type` field, such as the plain string "bold".
  */
  datatype TextType = Text | Bold | Italic | Code | Link | Image | Other(name: string)

  datatype TextNode = TextNode(text: string, textType: TextType, url: Option<string>)

  /** `TextNode.__eq__`: compares text, type and url. */
  function Equals(a: TextNode, b: TextNode): (r: bool)
    ensures r <==> a == b
    ensures a.url != b.url ==> !r
  {
    a.text == b.text && a.textType == b.textType && a.url == b.url
  }

  const UnsupportedMessage := "Such text type is not supported!"
  const UnbalancedMessage := "No matching closing delimiter"

  /** How Python formats `None` or a string inside an f-string. */
  function Display(url: Option<string>): string {
    match url
    case None => "None"
    case Some(u) => u
  }

  /** `text_node_to_html`. */
  function TextNodeToHtml(n: TextNode): (r: Result<HtmlNode, Error>)
    ensures r.Failure? <==> n.textType.Other?
    ensures r.Failure? ==> r.error == Exception(UnsupportedMessage)
    ensures r.Success? ==> r.value.kind == Leaf && r.value.children == None
    ensures n.textType == Text ==> r == Success(LeafNode(None, Some(n.text), None))
    ensures n.textType in {Bold, Italic, Code} ==>
      r == Success(LeafNode(Some(TagOf(n.textType)), Some(n.text), None))
    ensures n.textType == Link ==>
      r == Success(LeafNode(Some("a"), Some(n.text), Some([("href", Display(n.url))])))
    ensures n.textType == Image ==>
      r == Success(LeafNode(Some("img"), Some(""), Some([("src", Display(n.url)), ("alt", n.text)])))
  {
    match n.textType
    case Text => Success(LeafNode(None, Some(n.text), None))
    case Bold => Success(LeafNode(Some("b"), Some(n.text), None))
    case Italic => Success(LeafNode(Some("i"), Some(n.text), None))
    case Code => Success(LeafNode(Some("code"), Some(n.text), None))
    case Link => Success(LeafNode(Some("a"), Some(n.text), Some([("href", Display(n.url))])))
    case Image => Success(LeafNode(Some("img"), Some(""), Some([("src", Display(n.url)), ("alt", n.text)])))
    case Other(_) => Failure(Exception(UnsupportedMessage))
  }

  /** The tag each supported span kind is rendered with. */
  function TagOf(t: TextType): string
    requires !t.Other? && t != Text
  {
    match t
    case Bold => "b"
    case Italic => "i"
    case Code => "code"
    case Link => "a"
    case Image => "img"
  }

  /** A TEXT span with non-empty text renders to exactly its text. */
  lemma RenderTextSpan(text: string, url: Option<string>)
    requires text != ""
    ensures ToHtml(TextNodeToHtml(TextNode(text, Text, url)).value) == Success(text)
  {
  }

  /** A BOLD, ITALIC or CODE span with non-empty text renders to its text inside its tag. */
  lemma RenderStyledSpan(n: TextNode)
    requires n.textType in {Bold, Italic, Code} && n.text != ""
    ensures ToHtml(TextNodeToHtml(n).value) ==
      Success("<" + TagOf(n.textType) + ">" + n.text + "</" + TagOf(n.textType) + ">")
  {
    var t := TagOf(n.textType);
    assert OpenTag(t, None) == "<" + t + ">";
  }

  /** A LINK span with non-empty text renders to an anchor whose href is its url. */
  lemma RenderLinkSpan(n: TextNode)
    requires n.textType == Link && n.text != ""
    ensures ToHtml(TextNodeToHtml(n).value) ==
      Success("<a href=\"" + Display(n.url) + "\">" + n.text + "</a>")
  {
    var u := Display(n.url);
    var props := [("href", u)];
    SingleProps("href", u);
    var leaf := LeafNode(Some("a"), Some(n.text), Some(props));
    assert TextNodeToHtml(n) == Success(leaf);
    assert ToHtml(leaf) == Success(OpenTag("a", Some(props)) + n.text + CloseTag("a"));
    AnchorText(u, n.text);
  }

  /** The pieces of a rendered anchor put together. */
  lemma AnchorText(url: string, text: string)
    ensures OpenTag("a", Some([("href", url)])) + text + CloseTag("a") ==
      "<a href=\"" + url + "\">" + text + "</a>"
  {
    SingleProps("href", url);
    var attr := " " + "href" + "=\"" + url + "\"";
    assert " " + "href" + "=\"" == " href=\"";
    assert attr == " href=\"" + url + "\"";
    assert "<" + "a" + " href=\"" == "<a href=\"";
    assert "<" + "a" + attr + ">" == "<a href=\"" + url + "\">";
  }

  /** The attributes an IMAGE leaf carries: its url as `src`, then its text as `alt`. */
  lemma ImageProps(n: TextNode)
    requires n.textType == Image
    ensures TextNodeToHtml(n).value.props.Some?
    ensures PropsHtml(TextNodeToHtml(n).value.props) ==
      " src=\"" + Display(n.url) + "\" alt=\"" + n.text + "\""
  {
    var props := [("src", Display(n.url)), ("alt", n.text)];
    AttributesHtmlFront(props);
    AttributesHtmlFront(props[1..]);
    assert props[1..][1..] == [];
    assert " " + "src" + "=\"" == " src=\"";
    assert " " + "alt" + "=\"" == " alt=\"";
  }

  /** An IMAGE span never renders: its leaf has an empty value. Nor does any span with empty text. */
  lemma RenderFails(n: TextNode)
    requires !n.textType.Other? && (n.textType == Image || n.text == "")
    ensures ToHtml(TextNodeToHtml(n).value) == Failure(ValueError(""))
  {
  }

  /** The spans built from the pieces of one split: even positions TEXT, odd positions `textType`. */
  function Labelled(parts: seq<string>, textType: TextType): (r: seq<TextNode>)
  {
    seq(|parts|, i requires 0 <= i < |parts| =>
      TextNode(parts[i], if i % 2 == 0 then Text else textType, None))
  }

  /** What one input span becomes. */
  function SplitNode(n: TextNode, delimiter: string, textType: TextType): Result<seq<TextNode>, Error>
    requires |delimiter| > 0
  {
    if n.textType == Text then
      var parts := Split(n.text, delimiter);
      if |parts| % 2 == 0 then Failure(ValueError(UnbalancedMessage))
      else Success(Labelled(parts, textType))
    else Success([n])
  }

  /** Two results in sequence: the first failure, or both lists concatenated. */
  function Then(first: Result<seq<TextNode>, Error>, second: Result<seq<TextNode>, Error>): Result<seq<TextNode>, Error>
  {
    match first
    case Failure(e) => Failure(e)
    case Success(x) =>
      match second
      case Failure(e) => Failure(e)
      case Success(y) => Success(x + y)
  }

  lemma ThenAssociative(a: Result<seq<TextNode>, Error>, b: Result<seq<TextNode>, Error>, c: Result<seq<TextNode>, Error>)
    ensures Then(Then(a, b), c) == Then(a, Then(b, c))
  {
    if a.Success? && b.Success? && c.Success? {
      assert (a.value + b.value) + c.value == a.value + (b.value + c.value);
    }
  }

  /** The spans that `nodes` become, processed front to back; the first failure ends it. */
  function SplitEach(nodes: seq<TextNode>, delimiter: string, textType: TextType): Result<seq<TextNode>, Error>
    requires |delimiter| > 0
    decreases |nodes|
  {
    if nodes == [] then Success([])
    else Then(SplitEach(nodes[..|nodes| - 1], delimiter, textType), SplitNode(nodes[|nodes| - 1], delimiter, textType))
  }

  /** What `split_nodes_delimiter` returns or raises. */
  function DelimiterSplit(nodes: seq<TextNode>, delimiter: string, textType: TextType): Result<seq<TextNode>, Error>
  {
    if delimiter == "" then Success(nodes) else SplitEach(nodes, delimiter, textType)
  }

  /** A failure on a prefix of the input is the failure of the whole input. */
  lemma {:induction false} FailureExtends(nodes: seq<TextNode>, k: nat, delimiter: string, textType: TextType)
    requires |delimiter| > 0 && k <= |nodes|
    requires SplitEach(nodes[..k], delimiter, textType).Failure?
    ensures SplitEach(nodes, delimiter, textType) == SplitEach(nodes[..k], delimiter, textType)
    decreases |nodes| - k
  {
    if k < |nodes| {
      var pre := nodes[..|nodes| - 1];
      assert pre[..k] == nodes[..k];
      FailureExtends(pre, k, delimiter, textType);
    } else {
      assert nodes[..k] == nodes;
    }
  }

  /** One more span of input: the prefix's result followed by what that span becomes. */
  lemma SplitEachStep(nodes: seq<TextNode>, i: nat, delimiter: string, textType: TextType)
    requires |delimiter| > 0 && i < |nodes|
    ensures SplitEach(nodes[..i + 1], delimiter, textType) ==
      Then(SplitEach(nodes[..i], delimiter, textType), SplitNode(nodes[i], delimiter, textType))
  {
    assert nodes[..i + 1][..i] == nodes[..i];
    assert nodes[..i + 1][i] == nodes[i];
  }

  /** One more piece: the labelled prefix followed by that piece's span. */
  lemma LabelledStep(parts: seq<string>, j: nat, textType: TextType)
    requires j < |parts|
    ensures Labelled(parts[..j + 1], textType) ==
      Labelled(parts[..j], textType) + [TextNode(parts[j], if j % 2 == 0 then Text else textType, None)]
  {
  }

  /** `split_nodes_delimiter`: a loop over the spans, with an inner loop over the pieces of each split. */
  method SplitNodesDelimiter(oldNodes: seq<TextNode>, delimiter: string, textType: TextType)
    returns (r: Result<seq<TextNode>, Error>)
    ensures delimiter == "" ==> r == Success(oldNodes)
    ensures r == DelimiterSplit(oldNodes, delimiter, textType)
  {
    if delimiter == "" {
      return Success(oldNodes);
    }
    var newNodes: seq<TextNode> := [];
    for i := 0 to |oldNodes|
      invariant SplitEach(oldNodes[..i], delimiter, textType) == Success(newNodes)
    {
      var node := oldNodes[i];
      SplitEachStep(oldNodes, i, delimiter, textType);
      if node.textType == Text {
        var parts := Split(node.text, delimiter);
        if |parts| % 2 == 0 {
          FailureExtends(oldNodes, i + 1, delimiter, textType);
          return Failure(ValueError(UnbalancedMessage));
        }
        ghost var before := newNodes;
        for j := 0 to |parts|
          invariant newNodes == before + Labelled(parts[..j], textType)
        {
          LabelledStep(parts, j, textType);
          var kind := if j % 2 == 0 then Text else textType;
          newNodes := newNodes + [TextNode(parts[j], kind, None)];
        }
        assert parts[..|parts|] == parts;
      } else {
        newNodes := newNodes + [node];
      }
    }
    assert oldNodes[..|oldNodes|] == oldNodes;
    return Success(newNodes);
  }

  /** A TEXT span is unbalanced when the delimiter occurs in it an odd number of times. */
  predicate Unbalanced(n: TextNode, delimiter: string)
    requires |delimiter| > 0
  {
    n.textType == Text && Count(n.text, delimiter) % 2 == 1
  }

  /** One span fails exactly when it is unbalanced. */
  lemma SplitNodeFails(n: TextNode, delimiter: string, textType: TextType)
    requires |delimiter| > 0
    ensures SplitNode(n, delimiter, textType).Failure? <==> Unbalanced(n, delimiter)
    ensures SplitNode(n, delimiter, textType).Failure? ==>
      SplitNode(n, delimiter, textType).error == ValueError(UnbalancedMessage)
  {
    if n.textType == Text {
      SplitCount(n.text, delimiter);
      OddCount(|Split(n.text, delimiter)|, Count(n.text, delimiter));
    }
  }

  /** A list with one piece more than the occurrence count has even length exactly when that count is odd. */
  lemma OddCount(pieces: nat, count: nat)
    requires pieces == count + 1
    ensures pieces % 2 == 0 <==> count % 2 == 1
    ensures pieces % 2 == 1 <==> count % 2 == 0
  {
  }

  /**
    The call fails exactly when some TEXT span holds an odd number of delimiters,
    and then with "No matching closing delimiter".
  */
  lemma {:induction false} FailsIffUnbalanced(nodes: seq<TextNode>, delimiter: string, textType: TextType)
    requires |delimiter| > 0
    ensures DelimiterSplit(nodes, delimiter, textType).Failure? <==>
      exists i :: 0 <= i < |nodes| && Unbalanced(nodes[i], delimiter)
    ensures DelimiterSplit(nodes, delimiter, textType).Failure? ==>
      DelimiterSplit(nodes, delimiter, textType).error == ValueError(UnbalancedMessage)
    decreases |nodes|
  {
    if nodes != [] {
      var k := |nodes| - 1;
      var pre := nodes[..k];
      FailsIffUnbalanced(pre, delimiter, textType);
      SplitNodeFails(nodes[k], delimiter, textType);
      SplitEachStep(nodes, k, delimiter, textType);
      assert nodes[..k + 1] == nodes;
      assert forall i :: 0 <= i < k ==> pre[i] == nodes[i];
    }
  }

  /** Splitting a concatenation splits each half, in order; the first failure wins. */
  lemma {:induction false} SplitEachAppend(a: seq<TextNode>, b: seq<TextNode>, delimiter: string, textType: TextType)
    requires |delimiter| > 0
    ensures SplitEach(a + b, delimiter, textType) ==
      Then(SplitEach(a, delimiter, textType), SplitEach(b, delimiter, textType))
    decreases |b|
  {
    if b == [] {
      assert a + b == a;
      if SplitEach(a, delimiter, textType).Success? {
        assert SplitEach(a, delimiter, textType).value + [] == SplitEach(a, delimiter, textType).value;
      }
    } else {
      var k := |b| - 1;
      SplitEachAppend(a, b[..k], delimiter, textType);
      SplitEachStep(a + b, |a| + k, delimiter, textType);
      SplitEachStep(b, k, delimiter, textType);
      assert (a + b)[..|a| + k] == a + b[..k];
      assert (a + b)[..|a| + k + 1] == a + b;
      assert b[..k + 1] == b;
      assert (a + b)[|a| + k] == b[k];
      ThenAssociative(SplitEach(a, delimiter, textType), SplitEach(b[..k], delimiter, textType),
        SplitNode(b[k], delimiter, textType));
    }
  }

  /** The texts of a list of spans. */
  function Texts(nodes: seq<TextNode>): (r: seq<string>)
    ensures |r| == |nodes|
  {
    seq(|nodes|, i requires 0 <= i < |nodes| => nodes[i].text)
  }

  /** A one-span list splits as that span does. */
  lemma SplitSingle(n: TextNode, delimiter: string, textType: TextType)
    requires |delimiter| > 0
    ensures DelimiterSplit([n], delimiter, textType) == SplitNode(n, delimiter, textType)
  {
    SplitEachStep([n], 0, delimiter, textType);
    assert [n][..0] == [];
    assert [n][..1] == [n];
    match SplitNode(n, delimiter, textType)
    case Success(y) => assert [] + y == y;
    case Failure(_) =>
  }

  /** The labelled pieces of an odd-length split: TEXT at both ends, no url, the pieces' texts. */
  lemma LabelledSpans(parts: seq<string>, delimiter: string, textType: TextType)
    requires |parts| % 2 == 1 && forall i :: 0 <= i < |parts| ==> Free(parts[i], delimiter)
    ensures var r := Labelled(parts, textType);
      && |r| == |parts|
      && r[0].textType == Text && r[|r| - 1].textType == Text
      && (forall i :: 0 <= i < |r| ==> r[i].textType == (if i % 2 == 0 then Text else textType) && r[i].url == None)
      && (forall i :: 0 <= i < |r| ==> Free(r[i].text, delimiter))
      && Texts(r) == parts
  {
    var r := Labelled(parts, textType);
    assert (|r| - 1) % 2 == 0;
    assert forall i :: 0 <= i < |r| ==> r[i].text == parts[i];
  }

  /**
    A TEXT span with an even number k of delimiter occurrences becomes k+1 spans that
    alternate TEXT, target, TEXT, ..., begin and end with TEXT, carry no url, hold no
    delimiter, and join back with the delimiter to the original text.
  */
  lemma SplitTextSpan(n: TextNode, delimiter: string, textType: TextType)
    requires |delimiter| > 0 && n.textType == Text && Count(n.text, delimiter) % 2 == 0
    ensures var r := DelimiterSplit([n], delimiter, textType);
      && r.Success?
      && |r.value| == Count(n.text, delimiter) + 1
      && r.value[0].textType == Text && r.value[|r.value| - 1].textType == Text
      && (forall i :: 0 <= i < |r.value| ==>
            r.value[i].textType == (if i % 2 == 0 then Text else textType) && r.value[i].url == None)
      && (forall i :: 0 <= i < |r.value| ==> Free(r.value[i].text, delimiter))
      && Join(Texts(r.value), delimiter) == n.text
  {
    SplitCount(n.text, delimiter);
    var parts := Split(n.text, delimiter);
    OddCount(|parts|, Count(n.text, delimiter));
    assert SplitNode(n, delimiter, textType) == Success(Labelled(parts, textType));
    SplitSingle(n, delimiter, textType);
    LabelledSpans(parts, delimiter, textType);
  }

  /** The spans whose kind is neither TEXT nor the target kind. */
  function Others(nodes: seq<TextNode>, textType: TextType): (r: seq<TextNode>)
    decreases |nodes|
  {
    if nodes == [] then []
    else
      var last := nodes[|nodes| - 1];
      Others(nodes[..|nodes| - 1], textType) +
        (if last.textType != Text && last.textType != textType then [last] else [])
  }

  lemma {:induction false} OthersAppend(a: seq<TextNode>, b: seq<TextNode>, textType: TextType)
    ensures Others(a + b, textType) == Others(a, textType) + Others(b, textType)
    decreases |b|
  {
    if b == [] {
      assert a + b == a;
    } else {
      var b' := b[..|b| - 1];
      assert (a + b)[..|a + b| - 1] == a + b';
      OthersAppend(a, b', textType);
    }
  }

  lemma {:induction false} OthersOfLabelled(parts: seq<string>, textType: TextType)
    ensures Others(Labelled(parts, textType), textType) == []
    decreases |parts|
  {
    if parts != [] {
      var pre := parts[..|parts| - 1];
      assert Labelled(parts, textType)[..|parts| - 1] == Labelled(pre, textType);
      OthersOfLabelled(pre, textType);
    }
  }

  /** Spans of any other kind come out unchanged and in their original relative order. */
  lemma {:induction false} OthersPassThrough(nodes: seq<TextNode>, delimiter: string, textType: TextType)
    requires DelimiterSplit(nodes, delimiter, textType).Success?
    ensures Others(DelimiterSplit(nodes, delimiter, textType).value, textType) == Others(nodes, textType)
    decreases |nodes|
  {
    if delimiter != "" && nodes != [] {
      var pre := nodes[..|nodes| - 1];
      var last := nodes[|nodes| - 1];
      OthersPassThrough(pre, delimiter, textType);
      var done := SplitEach(pre, delimiter, textType).value;
      var more := SplitNode(last, delimiter, textType).value;
      OthersAppend(done, more, textType);
      if last.textType == Text {
        OthersOfLabelled(Split(last.text, delimiter), textType);
      } else {
        assert [last][..0] == [];
      }
    }
  }

  /** A list without TEXT spans is returned unchanged. */
  lemma {:induction false} NoTextUnchanged(nodes: seq<TextNode>, delimiter: string, textType: TextType)
    requires forall i :: 0 <= i < |nodes| ==> nodes[i].textType != Text
    ensures DelimiterSplit(nodes, delimiter, textType) == Success(nodes)
    decreases |nodes|
  {
    if delimiter != "" && nodes != [] {
      var pre := nodes[..|nodes| - 1];
      NoTextUnchanged(pre, delimiter, textType);
      assert pre + [nodes[|nodes| - 1]] == nodes;
    }
  }

  /** `"a `b` c".split("`")`, worked out step by step. */
  lemma SplitBacktickExample()
    ensures Split("a `b` c", "`") == ["a ", "b", " c"]
  {
    var s, t, u := "a `b` c", "b` c", " c";
    assert Find(u, "`", 0) == None by {
      assert u[0..1] == " " && u[1..2] == "c";
      assert Find(u, "`", 2) == None;
      assert Find(u, "`", 1) == None;
    }
    assert Split(u, "`") == [u];
    assert Find(t, "`", 0) == Some(1) by {
      assert t[1..2] == "`" && t[0..1] == "b";
      assert Find(t, "`", 1) == Some(1);
    }
    assert t[..1] == "b" && t[2..] == u;
    assert Split(t, "`") == ["b", u];
    assert Find(s, "`", 0) == Some(2) by {
      assert s[2..3] == "`" && s[1..2] == " " && s[0..1] == "a";
      assert Find(s, "`", 2) == Some(2);
      assert Find(s, "`", 1) == Some(2);
    }
    assert s[..2] == "a " && s[3..] == t;
  }

  /** The backtick example: "a `b` c" becomes TEXT "a ", CODE "b", TEXT " c". */
  lemma SplitCodeExample()
    ensures DelimiterSplit([TextNode("a `b` c", Text, None)], "`", Code) ==
      Success([TextNode("a ", Text, None), TextNode("b", Code, None), TextNode(" c", Text, None)])
  {
    SplitBacktickExample();
    var n := TextNode("a `b` c", Text, None);
    var spans := [TextNode("a ", Text, None), TextNode("b", Code, None), TextNode(" c", Text, None)];
    assert Labelled(["a ", "b", " c"], Code) == spans;
    assert SplitNode(n, "`", Code) == Success(spans);
    SplitEachStep([n], 0, "`", Code);
    assert [n][..0] == [] && [n][..1] == [n];
    assert [] + spans == spans;
  }
}
