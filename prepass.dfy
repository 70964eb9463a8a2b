/**
 * The pre-pass of `enhancedHtmlToMarkdown`: before the structural walk,
 * every `.md-code-block` is replaced by a text node holding its fenced
 * Markdown, then every `.math-inline` by `$…$`, then every `.math-display`
 * by `$$…$$`. Each pass replaces the outermost matches (an inner match is
 * already detached when its turn comes) and works on the result of the
 * previous pass.
 */
module Prepass {
  import opened Wrappers
  import opened Strings
  import opened Dom

  datatype Pass = CodeBlocks | InlineMath | DisplayMath

  /** The class each pass looks for. */
  function PassClass(p: Pass): string
  {
    match p
    case CodeBlocks => "md-code-block"
    case InlineMath => "math-inline"
    case DisplayMath => "math-display"
  }

  /** The code block's language: the trimmed text of its first `.md-code-block-infostring`, or `''`. */
  function CodeLanguage(block: Node): string
  {
    match Query(block, d => HasClass(d, "md-code-block-infostring"))
    case Some(info) => Trim(TextContent(info))
    case None => ""
  }

  /** The code block's code: the text of its first `pre`, verbatim, or `''`. */
  function CodeText(block: Node): string
  {
    match Query(block, d => IsTag(d, "pre"))
    case Some(pre) => TextContent(pre)
    case None => ""
  }

  /** The text a matched element is replaced with. */
  function Replacement(p: Pass, el: Node): string
  {
    match p
    case CodeBlocks => "\n\n```" + CodeLanguage(el) + "\n" + CodeText(el) + "\n```\n\n"
    case InlineMath => "$" + TextContent(el) + "$"
    case DisplayMath => "\n$$\n" + TextContent(el) + "\n$$\n"
  }

  /** One node after `querySelectorAll('.cls').forEach(el => el.replaceWith(text))`. */
  function ReplaceNode(n: Node, p: Pass): (r: Node)
    ensures n.Text? ==> r == n
    ensures n.Element? && !HasClass(n, PassClass(p)) ==> r.Element? && r.tag == n.tag && r.attrs == n.attrs
    decreases Size(n), 1
  {
    if HasClass(n, PassClass(p)) then Text(Replacement(p, n))
    else match n
      case Text(_) => n
      case Element(tag, attrs, cs) => Element(tag, attrs, ReplaceAll(cs, p))
  }

  function ReplaceAll(cs: seq<Node>, p: Pass): (r: seq<Node>)
    ensures |r| == |cs|
    ensures forall i :: 0 <= i < |cs| ==> r[i] == ReplaceNode(cs[i], p)
    decreases SizeAll(cs), 2
  {
    if |cs| == 0 then [] else [ReplaceNode(cs[0], p)] + ReplaceAll(cs[1..], p)
  }

  /** The three passes in source order, applied to the children of the scratch `div`. */
  function Prepass(cs: seq<Node>): seq<Node>
  {
    ReplaceAll(ReplaceAll(ReplaceAll(cs, CodeBlocks), InlineMath), DisplayMath)
  }

  /** No node of the list, nor any of their descendants, carries class `c`. */
  ghost predicate Free(cs: seq<Node>, c: string) {
    forall d :: d in DescendantsAll(cs) ==> !HasClass(d, c)
  }

  /** After a pass no element of its class is left anywhere in the tree. */
  lemma {:induction false} ReplaceAllClearsClass(cs: seq<Node>, p: Pass)
    ensures Free(ReplaceAll(cs, p), PassClass(p))
    decreases SizeAll(cs), 2
  {
    if |cs| > 0 {
      ReplaceAllClearsClass(cs[1..], p);
      ReplaceNodeClearsClass(cs[0], p);
      var r := ReplaceAll(cs, p);
      assert r == [r[0]] + ReplaceAll(cs[1..], p);
      assert DescendantsAll(r) == [r[0]] + Descendants(r[0]) + DescendantsAll(ReplaceAll(cs[1..], p));
    }
  }

  lemma {:induction false} ReplaceNodeClearsClass(n: Node, p: Pass)
    ensures !HasClass(ReplaceNode(n, p), PassClass(p))
    ensures forall d :: d in Descendants(ReplaceNode(n, p)) ==> !HasClass(d, PassClass(p))
    decreases Size(n), 1
  {
    if !HasClass(n, PassClass(p)) && n.Element? {
      ReplaceAllClearsClass(n.children, p);
    }
  }

  /** A pass only turns elements into text nodes, so it never brings back a class an earlier pass removed. */
  lemma {:induction false} ReplaceAllKeepsFree(cs: seq<Node>, p: Pass, c: string)
    requires Free(cs, c)
    ensures Free(ReplaceAll(cs, p), c)
    decreases SizeAll(cs), 2
  {
    if |cs| > 0 {
      assert DescendantsAll(cs) == [cs[0]] + Descendants(cs[0]) + DescendantsAll(cs[1..]);
      ReplaceAllKeepsFree(cs[1..], p, c);
      ReplaceNodeKeepsFree(cs[0], p, c);
      var r := ReplaceAll(cs, p);
      assert r == [r[0]] + ReplaceAll(cs[1..], p);
      assert DescendantsAll(r) == [r[0]] + Descendants(r[0]) + DescendantsAll(ReplaceAll(cs[1..], p));
    }
  }

  lemma {:induction false} ReplaceNodeKeepsFree(n: Node, p: Pass, c: string)
    requires !HasClass(n, c) && forall d :: d in Descendants(n) ==> !HasClass(d, c)
    ensures !HasClass(ReplaceNode(n, p), c)
    ensures forall d :: d in Descendants(ReplaceNode(n, p)) ==> !HasClass(d, c)
    decreases Size(n), 1
  {
    if !HasClass(n, PassClass(p)) && n.Element? {
      ReplaceAllKeepsFree(n.children, p, c);
    }
  }

  /** After the pre-pass no code block, inline math or display math element is left for the walk to see. */
  lemma PrepassClearsAllMarkers(cs: seq<Node>)
    ensures Free(Prepass(cs), "md-code-block")
    ensures Free(Prepass(cs), "math-inline")
    ensures Free(Prepass(cs), "math-display")
  {
    var a := ReplaceAll(cs, CodeBlocks);
    var b := ReplaceAll(a, InlineMath);
    ReplaceAllClearsClass(cs, CodeBlocks);
    ReplaceAllClearsClass(a, InlineMath);
    ReplaceAllClearsClass(b, DisplayMath);
    ReplaceAllKeepsFree(a, InlineMath, "md-code-block");
    ReplaceAllKeepsFree(b, DisplayMath, "md-code-block");
    ReplaceAllKeepsFree(b, DisplayMath, "math-inline");
  }

  /** A pass leaves a tree without its class unchanged. */
  lemma {:induction false} ReplaceAllIdentity(cs: seq<Node>, p: Pass)
    requires Free(cs, PassClass(p))
    ensures ReplaceAll(cs, p) == cs
    decreases SizeAll(cs), 2
  {
    if |cs| > 0 {
      assert DescendantsAll(cs) == [cs[0]] + Descendants(cs[0]) + DescendantsAll(cs[1..]);
      ReplaceAllIdentity(cs[1..], p);
      if cs[0].Element? {
        assert cs[0] in cs && Size(cs[0]) == 1 + SizeAll(cs[0].children);
        ReplaceAllIdentity(cs[0].children, p);
      }
      assert ReplaceAll(cs, p) == [cs[0]] + cs[1..];
    }
  }

  /**
   * A code block becomes its fence text before the math passes run: its
   * code stays verbatim even when it holds math elements or emphasis markers.
   */
  lemma PrepassCodeBlockVerbatim(cs: seq<Node>, i: nat)
    requires i < |cs| && HasClass(cs[i], "md-code-block")
    ensures |Prepass(cs)| == |cs|
    ensures Prepass(cs)[i] == Text("\n\n```" + CodeLanguage(cs[i]) + "\n" + CodeText(cs[i]) + "\n```\n\n")
  {
  }

  /** An inline math element (outside any code block, holding none) becomes `$` + its text + `$`, wherever it sits in the list. */
  lemma PrepassInlineMath(cs: seq<Node>, i: nat)
    requires i < |cs| && HasClass(cs[i], "math-inline") && Free([cs[i]], "md-code-block")
    ensures |Prepass(cs)| == |cs|
    ensures Prepass(cs)[i] == Text("$" + TextContent(cs[i]) + "$")
  {
    ReplaceAllIdentity([cs[i]], CodeBlocks);
  }

  /** A display math element holding neither code blocks nor inline math becomes `\n$$\n` + its text + `\n$$\n`, wherever it sits in the list. */
  lemma PrepassDisplayMath(cs: seq<Node>, i: nat)
    requires i < |cs| && HasClass(cs[i], "math-display")
    requires Free([cs[i]], "md-code-block") && Free([cs[i]], "math-inline")
    ensures |Prepass(cs)| == |cs|
    ensures Prepass(cs)[i] == Text("\n$$\n" + TextContent(cs[i]) + "\n$$\n")
  {
    var m := cs[i];
    ReplaceAllIdentity([m], CodeBlocks);
    assert ReplaceNode(m, CodeBlocks) == m;
    ReplaceAllIdentity([m], InlineMath);
    assert ReplaceNode(m, InlineMath) == m;
  }

  /** An element none of the passes looks for keeps its tag and attributes, and the passes go on inside it. */
  lemma PrepassDescends(cs: seq<Node>, i: nat)
    requires i < |cs| && cs[i].Element?
    requires !HasClass(cs[i], "md-code-block") && !HasClass(cs[i], "math-inline") && !HasClass(cs[i], "math-display")
    ensures |Prepass(cs)| == |cs|
    ensures Prepass(cs)[i] == Element(cs[i].tag, cs[i].attrs, Prepass(cs[i].children))
  {
  }

  /** Inline math inside a paragraph (or any element without a marker class) is replaced in place. */
  lemma PrepassNestedInlineMath(cs: seq<Node>, i: nat, k: nat)
    requires i < |cs| && cs[i].Element? && k < |cs[i].children|
    requires !HasClass(cs[i], "md-code-block") && !HasClass(cs[i], "math-inline") && !HasClass(cs[i], "math-display")
    requires HasClass(cs[i].children[k], "math-inline") && Free([cs[i].children[k]], "md-code-block")
    ensures |Prepass(cs)| == |cs| && Prepass(cs)[i].Element? && |Prepass(cs)[i].children| == |cs[i].children|
    ensures Prepass(cs)[i].children[k] == Text("$" + TextContent(cs[i].children[k]) + "$")
  {
    PrepassDescends(cs, i);
    PrepassInlineMath(cs[i].children, k);
  }
}
