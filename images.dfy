/**
  `extract_markdown_images`: `re.findall` with the pattern `!\[(.*?)\]\((.*?)\)`,
  written out as a scanner.  `.` matches any character but a newline, and both
  groups are lazy: the shortest alt text that can be completed wins, then the
  shortest url.  Matches are taken left to right without overlapping.
*/
module MarkdownImages {
  import opened Wrappers

  /** A match: where it starts and its two groups. */
  datatype ImageMatch = ImageMatch(start: nat, alt: string, url: string)

  /** The position just after the closing `)`. */
  function End(m: ImageMatch): nat {
    m.start + |m.alt| + |m.url| + 5
  }

  /** No newline in `s[lo..hi]`. */
  ghost predicate NoNewline(s: string, lo: nat, hi: nat) {
    forall i :: lo <= i < hi && i < |s| ==> s[i] != '\n'
  }

  /**
    `s[p..u + 1]` reads `![alt](url)` where the alt text has `k` characters,
    the `)` is at `u`, and neither group holds a newline.
  */
  ghost predicate ImageAt(s: string, p: nat, k: nat, u: nat) {
    p + 4 + k <= u < |s| &&
    s[p] == '!' && s[p + 1] == '[' && s[p + 2 + k] == ']' && s[p + 3 + k] == '(' && s[u] == ')' &&
    NoNewline(s, p + 2, p + 2 + k) && NoNewline(s, p + 4 + k, u)
  }

  /** No match of the pattern starts at `p`. */
  ghost predicate NoImageAt(s: string, p: nat) {
    forall k: nat, u: nat :: !ImageAt(s, p, k, u)
  }

  /**
    `m` is the match the regex reports at `p`: an image whose (alt length, `)` position)
    is the least in lexicographic order, which is what the two lazy groups select.
  */
  ghost predicate LeastImageAt(s: string, p: nat, m: ImageMatch) {
    var k := |m.alt|;
    var u := End(m) - 1;
    m.start == p && ImageAt(s, p, k, u) &&
    m.alt == s[p + 2..p + 2 + k] && m.url == s[p + 4 + k..u] &&
    forall k': nat, u': nat :: ImageAt(s, p, k', u') ==> k < k' || (k == k' && u <= u')
  }

  /** The `)` that ends the shortest url starting at `q`, if no newline comes first. */
  function CloseParen(s: string, q: nat): (r: Option<nat>)
    decreases |s| - q
    ensures r.Some? ==> q <= r.value < |s| && s[r.value] == ')' && NoNewline(s, q, r.value)
    ensures r.Some? ==> forall j :: q <= j < r.value ==> s[j] != ')'
    ensures r.None? ==> forall u :: q <= u < |s| && s[u] == ')' ==> !NoNewline(s, q, u)
  {
    if q >= |s| || s[q] == '\n' then None
    else if s[q] == ')' then Some(q)
    else CloseParen(s, q + 1)
  }

  /**
    At `p`, which starts `![`, try alt lengths `k`, `k + 1`, ... as the lazy group
    does: the first one followed by `](` and a url wins; a newline or the end of
    the text stops the search.
  */
  function TryAlt(s: string, p: nat, k: nat): (r: Option<ImageMatch>)
    requires p + 2 + k <= |s|
    decreases |s| - k
    ensures r.Some? ==> r.value.start == p && k <= |r.value.alt|
  {
    var a := p + 2 + k;
    if a + 2 <= |s| && s[a] == ']' && s[a + 1] == '(' && CloseParen(s, a + 2).Some? then
      var u := CloseParen(s, a + 2).value;
      Some(ImageMatch(p, s[p + 2..a], s[a + 2..u]))
    else if a < |s| && s[a] != '\n' then
      TryAlt(s, p, k + 1)
    else
      None
  }

  /** When `](` and a url do not follow the alt text of length `k`, no image has that alt length. */
  lemma NoImageWithAlt(s: string, p: nat, k: nat)
    requires p + 2 + k <= |s|
    requires !(p + 4 + k <= |s| && s[p + 2 + k] == ']' && s[p + 3 + k] == '(' && CloseParen(s, p + 4 + k).Some?)
    ensures forall u: nat :: !ImageAt(s, p, k, u)
  {
  }

  /** An alt text that reaches a newline or the end of the text cannot be lengthened. */
  lemma NoLongerAlt(s: string, p: nat, k: nat)
    requires p + 2 + k <= |s|
    requires !(p + 2 + k < |s| && s[p + 2 + k] != '\n')
    ensures forall k': nat, u: nat :: k < k' ==> !ImageAt(s, p, k', u)
  {
  }

  /** An alt text of length `k` followed by `](` and a closed url is the least image from `k` on. */
  lemma FoundAtAlt(s: string, p: nat, k: nat)
    requires p + 4 + k <= |s| && s[p] == '!' && s[p + 1] == '['
    requires NoNewline(s, p + 2, p + 2 + k)
    requires s[p + 2 + k] == ']' && s[p + 3 + k] == '(' && CloseParen(s, p + 4 + k).Some?
    ensures var u := CloseParen(s, p + 4 + k).value;
      ImageAt(s, p, k, u) &&
      forall k': nat, u': nat :: k <= k' && ImageAt(s, p, k', u') ==> k < k' || (k == k' && u <= u')
  {
  }

  /** The least image with alt length at least `k`. */
  ghost predicate LeastFrom(s: string, p: nat, k: nat, m: ImageMatch) {
    var k0 := |m.alt|;
    var u0 := End(m) - 1;
    ImageAt(s, p, k0, u0) && m.alt == s[p + 2..p + 2 + k0] && m.url == s[p + 4 + k0..u0] &&
    forall k': nat, u': nat :: k <= k' && ImageAt(s, p, k', u') ==> k0 < k' || (k0 == k' && u0 <= u')
  }

  /** The match `TryAlt` reports is the least image with alt length at least `k`. */
  lemma {:induction false} TryAltCorrect(s: string, p: nat, k: nat)
    requires p + 2 + k <= |s| && s[p] == '!' && s[p + 1] == '['
    requires NoNewline(s, p + 2, p + 2 + k)
    decreases |s| - k
    ensures TryAlt(s, p, k).Some? ==> LeastFrom(s, p, k, TryAlt(s, p, k).value)
    ensures TryAlt(s, p, k).None? ==> forall k': nat, u': nat :: k <= k' ==> !ImageAt(s, p, k', u')
  {
    var a := p + 2 + k;
    if a + 2 <= |s| && s[a] == ']' && s[a + 1] == '(' && CloseParen(s, a + 2).Some? {
      FoundAtAlt(s, p, k);
    } else {
      NoImageWithAlt(s, p, k);
      if a < |s| && s[a] != '\n' {
        TryAltCorrect(s, p, k + 1);
        var r := TryAlt(s, p, k + 1);
        assert TryAlt(s, p, k) == r;
        if r.Some? {
          LeastFromEarlier(s, p, k, r.value);
        }
      } else {
        NoLongerAlt(s, p, k);
      }
    }
  }

  /** No image has alt length `k`, so the least image from `k + 1` on is also the least from `k` on. */
  lemma LeastFromEarlier(s: string, p: nat, k: nat, m: ImageMatch)
    requires LeastFrom(s, p, k + 1, m)
    requires forall u: nat :: !ImageAt(s, p, k, u)
    ensures LeastFrom(s, p, k, m)
  {
    var k0, u0 := |m.alt|, End(m) - 1;
    forall k': nat, u': nat | k <= k' && ImageAt(s, p, k', u')
      ensures k0 < k' || (k0 == k' && u0 <= u')
    {
      assert k' != k;
    }
  }

  /** The match the regex reports at position `p`, if any. */
  function MatchAt(s: string, p: nat): (r: Option<ImageMatch>)
    ensures r.Some? ==> LeastImageAt(s, p, r.value)
    ensures r.None? ==> NoImageAt(s, p)
  {
    if p + 2 <= |s| && s[p] == '!' && s[p + 1] == '[' then
      TryAltCorrect(s, p, 0);
      TryAlt(s, p, 0)
    else
      None
  }

  /** The matches from position `p` on: after a match, resume at its end; otherwise one character on. */
  function FindMatches(s: string, p: nat): (ms: seq<ImageMatch>)
    decreases |s| - p
    ensures forall i :: 0 <= i < |ms| ==> p <= ms[i].start && End(ms[i]) <= |s|
    ensures forall i :: 0 <= i < |ms| - 1 ==> End(ms[i]) <= ms[i + 1].start
    ensures p <= |s| ==> 5 * |ms| <= |s| - p
  {
    if p >= |s| then []
    else
      match MatchAt(s, p)
      case Some(m) =>
        var rest := FindMatches(s, End(m));
        assert forall i :: 0 < i < |[m] + rest| ==> ([m] + rest)[i] == rest[i - 1];
        [m] + rest
      case None => FindMatches(s, p + 1)
  }

  /**
    `extract_markdown_images(text)`: the `(alt, url)` pairs of all matches. Each
    match spends at least the five characters of `![](`...`)`, neither group holds
    a newline, and the lazy url stops at the first `)`.
  */
  function ExtractMarkdownImages(text: string): (r: seq<(string, string)>)
    ensures 5 * |r| <= |text|
    ensures forall i :: 0 <= i < |r| ==> '\n' !in r[i].0 && '\n' !in r[i].1 && ')' !in r[i].1
  {
    var ms := FindMatches(text, 0);
    assert forall i :: 0 <= i < |ms| ==> '\n' !in ms[i].alt && '\n' !in ms[i].url && ')' !in ms[i].url by {
      FindMatchesIsScan(text, 0);
      ScanOrdered(text, 0, ms);
      forall i | 0 <= i < |ms|
        ensures '\n' !in ms[i].alt && '\n' !in ms[i].url && ')' !in ms[i].url
      {
        MatchText(text, ms[i]);
      }
    }
    seq(|ms|, i requires 0 <= i < |ms| => (ms[i].alt, ms[i].url))
  }

  /** No match starts anywhere in `[lo, hi)`. */
  ghost predicate Gap(s: string, lo: nat, hi: nat) {
    lo <= hi && forall q: nat :: lo <= q < hi ==> NoImageAt(s, q)
  }

  /**
    `ms` is the left-to-right, non-overlapping list of matches from `p` on: no match
    starts before the first one, which is the regex's match at its start, and the rest
    is the list of matches from its end on.
  */
  ghost predicate IsScan(s: string, p: nat, ms: seq<ImageMatch>)
    decreases |ms|
  {
    if ms == [] then Gap(s, p, |s|)
    else Gap(s, p, ms[0].start) && LeastImageAt(s, ms[0].start, ms[0]) && IsScan(s, End(ms[0]), ms[1..])
  }

  /** The scanner finds exactly the matches `re.findall` reports. */
  lemma {:induction false} FindMatchesIsScan(s: string, p: nat)
    requires p <= |s|
    ensures IsScan(s, p, FindMatches(s, p))
    decreases |s| - p
  {
    if p < |s| {
      match MatchAt(s, p)
      case None =>
        FindMatchesIsScan(s, p + 1);
        var ms := FindMatches(s, p + 1);
        if ms == [] {
          assert Gap(s, p + 1, |s|);
        } else {
          assert Gap(s, p + 1, ms[0].start);
        }
      case Some(m) =>
        MatchText(s, m);
        FindMatchesIsScan(s, End(m));
        var ms := [m] + FindMatches(s, End(m));
        assert ms[1..] == FindMatches(s, End(m));
    } else {
      assert Gap(s, p, |s|);
    }
  }

  /** Two least images at the same position are the same match. */
  lemma LeastUnique(s: string, q: nat, m: ImageMatch, n: ImageMatch)
    requires LeastImageAt(s, q, m) && LeastImageAt(s, q, n)
    ensures m == n
  {
    assert |m.alt| == |n.alt| && End(m) == End(n);
  }

  /** An image starting at or after `lo` starts at or after the end of a gap from `lo`. */
  lemma ImageOutsideGap(s: string, lo: nat, hi: nat, q: nat, k: nat, u: nat)
    requires Gap(s, lo, hi) && lo <= q && ImageAt(s, q, k, u)
    ensures hi <= q
  {
    assert q < hi ==> NoImageAt(s, q);
  }

  /** A scan's first match starts at the first position, from `p` on, where an image starts. */
  lemma ScanFirst(s: string, p: nat, ms: seq<ImageMatch>, q: nat, k: nat, u: nat)
    requires IsScan(s, p, ms) && p <= q && ImageAt(s, q, k, u)
    ensures ms != [] && ms[0].start <= q
  {
    if ms == [] {
      ImageOutsideGap(s, p, |s|, q, k, u);
      assert false;
    } else {
      ImageOutsideGap(s, p, ms[0].start, q, k, u);
    }
  }

  /** Two scans from the same position agree on whether they are empty and on their first match. */
  lemma ScanHead(s: string, p: nat, ms: seq<ImageMatch>, ns: seq<ImageMatch>)
    requires IsScan(s, p, ms) && IsScan(s, p, ns) && ms != []
    ensures ns != [] && ms[0] == ns[0]
  {
    var m := ms[0];
    ScanFirst(s, p, ns, m.start, |m.alt|, End(m) - 1);
    var n := ns[0];
    ScanFirst(s, p, ms, n.start, |n.alt|, End(n) - 1);
    LeastUnique(s, m.start, m, n);
  }

  /** A scan is determined by the text and the start position. */
  lemma {:induction false} ScanUnique(s: string, p: nat, ms: seq<ImageMatch>, ns: seq<ImageMatch>)
    requires IsScan(s, p, ms) && IsScan(s, p, ns)
    ensures ms == ns
    decreases |ms|
  {
    if ms != [] {
      ScanHead(s, p, ms, ns);
      ScanUnique(s, End(ms[0]), ms[1..], ns[1..]);
      assert ms == [ms[0]] + ms[1..] && ns == [ns[0]] + ns[1..];
    } else if ns != [] {
      ScanHead(s, p, ns, ms);
    }
  }

  /** Each reported pair is read, as `![alt](url)`, from the text at its match. */
  lemma MatchText(s: string, m: ImageMatch)
    requires LeastImageAt(s, m.start, m)
    ensures End(m) <= |s|
    ensures s[m.start..End(m)] == "![" + m.alt + "](" + m.url + ")"
    ensures '\n' !in m.alt && '\n' !in m.url && ')' !in m.url
  {
    var p, k, u := m.start, |m.alt|, End(m) - 1;
    forall j | 0 <= j < |m.url|
      ensures m.url[j] != '\n' && m.url[j] != ')'
    {
      var u' := p + 4 + k + j;
      assert m.url[j] == s[u'];
      assert !ImageAt(s, p, k, u');
    }
    forall j | 0 <= j < k
      ensures m.alt[j] != '\n'
    {
      assert m.alt[j] == s[p + 2 + j];
    }
    var t := "![" + m.alt + "](" + m.url + ")";
    assert |t| == End(m) - p;
    forall i | 0 <= i < |t|
      ensures s[p..End(m)][i] == t[i]
    {
      if i < 2 {
      } else if i < 2 + k {
        assert t[i] == m.alt[i - 2];
      } else if i < 4 + k {
      } else if i < |t| - 1 {
        assert t[i] == m.url[i - 4 - k];
      }
    }
  }

  /** Every match of a scan is the regex's match at its start, and the matches are in order and do not overlap. */
  lemma {:induction false} ScanOrdered(s: string, p: nat, ms: seq<ImageMatch>)
    requires IsScan(s, p, ms)
    ensures forall i :: 0 <= i < |ms| ==> p <= ms[i].start && LeastImageAt(s, ms[i].start, ms[i])
    ensures forall i, j :: 0 <= i < j < |ms| ==> End(ms[i]) <= ms[j].start
    decreases |ms|
  {
    if ms != [] {
      var m := ms[0];
      ScanOrdered(s, End(m), ms[1..]);
      forall i, j | 0 <= i < j < |ms|
        ensures End(ms[i]) <= ms[j].start
      {
        assert ms[j] == ms[1..][j - 1];
        if 0 < i {
          assert ms[i] == ms[1..][i - 1];
        }
      }
      forall i | 0 < i < |ms|
        ensures p <= ms[i].start && LeastImageAt(s, ms[i].start, ms[i])
      {
        assert ms[i] == ms[1..][i - 1];
      }
    }
  }

  /**
    `extract_markdown_images` returns the `(alt, url)` pair of every `![alt](url)` the
    regex matches, left to right; `ScanOrdered` and `MatchText` say where each one
    sits in the text.
  */
  lemma ExtractMarkdownImagesCorrect(text: string, ms: seq<ImageMatch>)
    requires IsScan(text, 0, ms)
    ensures |ExtractMarkdownImages(text)| == |ms|
    ensures forall i :: 0 <= i < |ms| ==> ExtractMarkdownImages(text)[i] == (ms[i].alt, ms[i].url)
  {
    FindMatchesIsScan(text, 0);
    ScanUnique(text, 0, FindMatches(text, 0), ms);
  }

  /** A single image. */
  lemma ExtractOneImage()
    ensures ExtractMarkdownImages("![a](b)") == [("a", "b")]
  {
    var s := "![a](b)";
    assert CloseParen(s, 6) == Some(6);
    assert CloseParen(s, 5) == Some(6);
    assert s[2..3] == "a" && s[5..6] == "b";
    assert TryAlt(s, 0, 1) == Some(ImageMatch(0, "a", "b"));
    assert TryAlt(s, 0, 0) == TryAlt(s, 0, 1);
    assert FindMatches(s, 7) == [];
    assert FindMatches(s, 0) == [ImageMatch(0, "a", "b")];
  }
}
