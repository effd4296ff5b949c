# Inline spans and HTML leaves of a static-site generator

This project models, in Dafny, the two core files of a small Markdown-to-HTML
static-site generator:

- `src/htmlnode.py`: the HTML node classes. The base `HTMLNode` serialises its
  attribute dictionary (`props_to_html`) and leaves rendering unimplemented.
  `LeafNode` renders one tag around its value, or the bare value when it has no tag.
- `src/textnode.py`: inline text spans (`TextNode`) and the conversion of a span to a
  leaf node. It also holds `split_nodes_delimiter`, which splits every plain-text span on
  a literal delimiter into alternating TEXT and target-kind spans. Finally it holds
  `extract_markdown_images`, which collects the `(alt, url)` pairs of `![alt](url)`.

Files and modules:

| file | module | contents |
|---|---|---|
| `wrappers.dfy` | `Wrappers` | `Option` (Python `None`) and `Result` (a value or a raised exception) |
| `errors.dfy` | `Errors` | the exceptions raised: `NotImplementedError`, `ValueError`, `Exception` |
| `pystrings.dfy` | `PyStrings` | `str.find`, `str.count`, `str.split` and `str.join` for a non-empty separator |
| `htmlnode.dfy` | `HtmlNodes` | `HTMLNode` / `LeafNode`, `props_to_html`, `to_html` |
| `textnode.dfy` | `TextNodes` | `TextTypes`, `TextNode`, `__eq__`, `text_node_to_html`, `split_nodes_delimiter` |
| `images.dfy` | `MarkdownImages` | `extract_markdown_images` as a scanner for `!\[(.*?)\]\((.*?)\)` |

Modelling choices:

- Nodes are never changed after construction, so an HTML node is a datatype value. Its
  `kind` field records whether it was built as an `HTMLNode` or a `LeafNode`; `to_html`
  dispatches on it.
- Python's falsiness tests (`not self.value`, `not self.tag`, `if self.props`) treat
  `None` and an empty string or dict alike. `HtmlNodes.Truthy` is that test on an
  `Option` of a sequence.
- An attribute dictionary is the list of its items in insertion order,
  `seq<(string, string)>`.
- `props_to_html` and `split_nodes_delimiter` are loops in the source. They are methods
  here, proved equal to the functions `PropsHtml` and `DelimiterSplit`. The lemmas are
  proved about those functions.
- `TextTypes` is a datatype with one extra constructor, `Other(name)`. It stands for any
  other value stored in `text_type`, such as the plain string `"bold"` that the tests use.
  Such a value never equals an enumeration member, so `text_node_to_html` rejects it.
- The pattern `!\[(.*?)\]\((.*?)\)` is a scanner. `ImageAt` is the reference: it says
  when a stretch of text matches the pattern's shape. The regex reports the
  lexicographically least (alt length, `)` position) at the leftmost start, and `IsScan`
  describes the whole left-to-right list of matches. The scanner is proved to produce
  that list, and `IsScan` is proved to admit only one list.
- Exceptions are `Failure` results. `split_nodes_delimiter` raises at the first
  unbalanced TEXT span and returns nothing. Every such failure carries the same message,
  so the model fails with that message whenever any TEXT span is unbalanced.

Two facts about the code that a reader might not expect:

- `text_node_to_html` builds the IMAGE leaf with an empty value, and `LeafNode.to_html`
  rejects every empty value, so an IMAGE span converts to a leaf that never renders
  (`TextNodes.RenderFails`).
- `src/textnode.py` defines no image or link splitting pass; `extract_markdown_images`
  only returns `(alt, url)` pairs.

## Model

| member | source | states |
|---|---|---|
| `PyStrings.Find` | src/textnode.py:55 | the result is the leftmost occurrence of the delimiter at or after the start, or none exists |
| `PyStrings.Split` | src/textnode.py:55 | there is at least one piece, the pieces joined with the delimiter give back the text, and no piece contains the delimiter |
| `PyStrings.SplitLeftmost` | src/textnode.py:55 | each piece but the last stops at the leftmost occurrence, so occurrences are taken left to right without overlap |
| `PyStrings.SplitCount` | src/textnode.py:55-58 | a text with k occurrences of the delimiter splits into k+1 pieces |
| `HtmlNodes.PropsToHtml` | src/htmlnode.py:11-17 | the loop's result is `""` when props is absent or empty, and otherwise the rendering of every item in order |
| `HtmlNodes.AttributesHtmlAppend` | src/htmlnode.py:14-15 | rendering a concatenation of items is the concatenation of the renderings: nothing is put between entries |
| `HtmlNodes.AttributesHtmlFront` | src/htmlnode.py:14-15 | the rendering starts with the first entry's ` key="value"`, followed by the rest in order |
| `HtmlNodes.SingleProps` | src/htmlnode.py:11-17 | a single entry renders as exactly one ` key="value"` |
| `HtmlNodes.LeafNode` | src/htmlnode.py:22-24 | a leaf has `children == None` and stores tag, value and props as given |
| `HtmlNodes.LeafToHtml` | src/htmlnode.py:26-33 | fails with `ValueError` exactly when the value is absent or empty; without a tag the result is the value; with one it is the opening tag with attributes, the unescaped value, and the closing tag |
| `HtmlNodes.ToHtml` | src/htmlnode.py:8-9 | a node built as the base class always fails with `NotImplementedError`, whatever its fields; a leaf renders as `LeafToHtml` |
| `HtmlNodes.UntaggedIgnoresProps` | src/htmlnode.py:29-30 | a leaf without a tag renders to exactly its value, whatever its props |
| `HtmlNodes.TaggedLeafValue` | src/htmlnode.py:31-33 | a tagged leaf's output is the opening tag, then the value verbatim, then the closing tag, with lengths adding up |
| `TextNodes.Equals` | src/textnode.py:20-25 | two spans are equal exactly when text, type and url all agree; a differing url, `None` included, makes them unequal |
| `TextNodes.TextNodeToHtml` | src/textnode.py:31-45 | fails with "Such text type is not supported!" exactly for a type outside the enumeration; otherwise a leaf without children: TEXT an untagged leaf holding the text, BOLD/ITALIC/CODE tagged `b`/`i`/`code` holding the text, LINK tagged `a` holding the text with `href` set to the url, IMAGE tagged `img` with an empty value and `src` (the url) then `alt` (the text) |
| `TextNodes.ImageProps` | src/textnode.py:43 | the IMAGE leaf's attributes render as ` src="url" alt="text"`, in that order |
| `TextNodes.RenderTextSpan` | src/textnode.py:32-33 | a TEXT span with non-empty text renders to its text alone |
| `TextNodes.RenderStyledSpan` | src/textnode.py:34-39 | BOLD, ITALIC and CODE spans render inside `b`, `i` and `code` |
| `TextNodes.RenderLinkSpan` | src/textnode.py:40-41 | a LINK span renders as `<a href="url">text</a>` |
| `TextNodes.RenderFails` | src/textnode.py:42-43 | the IMAGE leaf has an empty value, so it can never be rendered; nor can any span with empty text |
| `TextNodes.SplitNodesDelimiter` | src/textnode.py:48-69 | the two loops return the input unchanged for an empty delimiter, and otherwise what `DelimiterSplit` specifies |
| `TextNodes.SplitNodeFails` | src/textnode.py:55-59 | one span fails exactly when it is a TEXT span with an odd number of delimiters |
| `TextNodes.FailsIffUnbalanced` | src/textnode.py:55-59 | the whole call fails, with "No matching closing delimiter", exactly when some TEXT span has an odd number of delimiters; no partial list is returned |
| `TextNodes.SplitEachAppend` | src/textnode.py:52-69 | the result for a concatenation of span lists is the two results concatenated in order, or the first failure |
| `TextNodes.SplitSingle` | src/textnode.py:52-69 | a one-span input gives what that span alone gives: its pieces, the span itself, or its error |
| `TextNodes.LabelledSpans` | src/textnode.py:61-65 | the pieces of an odd-length split become spans of the same texts, TEXT at even positions and the target kind at odd ones, TEXT at both ends, none with a url |
| `TextNodes.SplitTextSpan` | src/textnode.py:61-65 | a TEXT span with k (even) delimiters becomes k+1 spans that alternate TEXT and the target kind: they start and end with TEXT, carry no url, keep empty parts, contain no delimiter, and join back to the original text |
| `TextNodes.OthersPassThrough` | src/textnode.py:66-67 | spans of any kind other than TEXT and the target come out unchanged and in their original relative order |
| `TextNodes.NoTextUnchanged` | src/textnode.py:66-67 | a list without TEXT spans is returned unchanged |
| `TextNodes.SplitBacktickExample` | src/textnode.py:55 | splitting ``"a `b` c"`` on a backtick gives ``["a ", "b", " c"]`` |
| `TextNodes.SplitCodeExample` | src/textnode.py:61-65 | the TEXT span ``"a `b` c"`` split on a backtick into CODE becomes TEXT ``"a "``, CODE ``"b"``, TEXT ``" c"`` |
| `MarkdownImages.CloseParen` | src/textnode.py:73 | the lazy url group ends at the first `)` with no newline before it, or nothing fits |
| `MarkdownImages.TryAlt` | src/textnode.py:73 | the lazy alt group tries lengths upwards from the given one, and a match starts where it was asked to |
| `MarkdownImages.TryAltCorrect` | src/textnode.py:73 | the alt search finds the least (alt length, `)` position) image, or there is none from that alt length on |
| `MarkdownImages.MatchAt` | src/textnode.py:73 | at a position the scanner reports the regex's preferred match, or no image of the pattern starts there |
| `MarkdownImages.FindMatches` | src/textnode.py:73 | every match lies inside the text at or after the scan position, consecutive matches do not overlap, and each takes at least five characters; `FindMatchesIsScan` proves it is the whole `findall` list |
| `MarkdownImages.ExtractMarkdownImages` | src/textnode.py:72-74 | at most one pair per five characters of text; no alt or url holds a newline and no url holds `)`; `ExtractMarkdownImagesCorrect` proves the pairs are exactly those of the regex's matches |
| `MarkdownImages.FindMatchesIsScan` | src/textnode.py:73 | the scanner yields the left-to-right, non-overlapping list of matches, with no match starting anywhere it skipped |
| `MarkdownImages.ScanUnique` | src/textnode.py:73 | only one list of matches fits that description |
| `MarkdownImages.MatchText` | src/textnode.py:73 | a match reads `![alt](url)` in the text; alt and url hold no newline and url holds no `)` |
| `MarkdownImages.ScanOrdered` | src/textnode.py:73 | the matches are in increasing order and do not overlap |
| `MarkdownImages.ExtractMarkdownImagesCorrect` | src/textnode.py:72-74 | the function returns exactly the `(alt, url)` pairs of the leftmost non-overlapping lazy matches, in order |
| `MarkdownImages.ExtractOneImage` | src/textnode.py:72-74 | `![a](b)` yields `[("a", "b")]` |

## Left out

- `TextNode.__repr__`, `HTMLNode.__repr__` and `LeafNode.__repr__`: Python string formatting for debugging output.
- `src/main.py`: it builds two objects and prints them.
- `ParentNode`, `BlockTypes`, `markdown_to_blocks`, `block_to_block_type`, `extract_markdown_links`, `split_nodes_image` and `split_nodes_link` are imported by the tests but are not defined in `src/htmlnode.py` or `src/textnode.py`, so they are not part of this model. The block parser and the image/link splitting passes are therefore not modelled.
- `test_markdown_to_blocks` reads a file from disk.
- The `isinstance(node, TextNode)` test in `split_nodes_delimiter`: the model's list holds only spans.
- The Python `re` engine in general: only the one image pattern is modelled, as a dedicated scanner.
- `TextNodes.TextNodeToHtml`: a LINK or IMAGE span whose url is `None` builds props holding Python's `None`. The model stores the string `"None"` there instead. That is what the f-string in `props_to_html` prints, so the rendered output is the same, but the stored props differ.
- A Python dictionary cannot hold a key twice. The model's list of items can, and it renders every item in order.
- `split_nodes_delimiter` with an empty delimiter returns the very same list object. The model returns an equal list and does not model object identity.
- Values in the source are untyped. The model gives `text`, `url`, `tag`, `value` and props entries string types, and it does not model `children` being anything but an optional list of nodes.
