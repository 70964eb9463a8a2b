/**
 * What the templates of `convertNodeToMarkdown` guarantee: the shape of
 * headings, emphasis, code, block quotes, lists and tables, and how the
 * list numbering consumes one index per element child.
 */
module MarkdownLaws {
  import opened Wrappers
  import opened Strings
  import opened Dom
  import opened Markdown

  // ---------------------------------------------------------------------
  // Inline templates
  // ---------------------------------------------------------------------

  /** A heading `hk` is `k` hash marks, one space, its inline text and a newline. */
  lemma HeadingTemplate(n: Node, level: nat)
    requires n.Element? && HeadingLevel(n.tag).Some?
    ensures var k := HeadingLevel(n.tag).value; var r := Convert(n, level);
      |r| == k + 2 + |InlineAll(n.children)|
      && (forall i :: 0 <= i < k ==> r[i] == '#')
      && r[k] == ' '
      && r[k + 1..|r| - 1] == InlineAll(n.children)
      && r[|r| - 1] == '\n'
  {
    var k := HeadingLevel(n.tag).value;
    var t := InlineAll(n.children);
    var r := HeadingConvert(n, level, k, t);
    HeadingShape(k, t, r);
  }

  lemma HeadingConvert(n: Node, level: nat, k: nat, t: string) returns (r: string)
    requires n.Element? && HeadingLevel(n.tag) == Some(k) && t == InlineAll(n.children)
    ensures r == Convert(n, level) && r == Repeat("#", k) + " " + t + "\n"
  {
    assert n.tag in {"h1", "h2", "h3", "h4", "h5", "h6"};
    r := Convert(n, level);
  }

  lemma HeadingShape(k: nat, t: string, r: string)
    requires r == Repeat("#", k) + " " + t + "\n"
    ensures |r| == k + 2 + |t| && (forall i :: 0 <= i < k ==> r[i] == '#')
      && r[k] == ' ' && r[k + 1..|r| - 1] == t && r[|r| - 1] == '\n'
  {
    assert "#" == ['#'];
    RepeatChar('#', k);
  }

  /**
   * Emphasis is applied once, to the plain text: however deeply `strong`
   * and `em` nest inside, a `strong` carries exactly four asterisks and an
   * `em` two (when the text has none of its own), on the block path and
   * on the inline path alike.
   */
  lemma EmphasisWrapsOnce(n: Node, level: nat)
    requires n.Element? && (n.tag == "strong" || n.tag == "em")
    requires '*' !in TextContent(n)
    ensures Convert(n, level) == InlineMd(n)
    ensures Count(Convert(n, level), '*') == if n.tag == "strong" then 4 else 2
  {
    var t := TextContent(n);
    CountAbsent(t, '*');
    if n.tag == "strong" {
      CountAppend("**", t, '*');
      CountAppend("**" + t, "**", '*');
    } else {
      CountAppend("*", t, '*');
      CountAppend("*" + t, "*", '*');
    }
  }

  /** `<strong>a<em>b</em></strong>` becomes `**ab**`: the inner emphasis is flattened. */
  lemma NestedEmphasisFlattened()
    ensures Convert(Element("strong", [], [Text("a"), Element("em", [], [Text("b")])]), 0) == "**ab**"
  {
  }

  /**
   * Code on the block path is trimmed; code inside inline content keeps
   * its white space. Both wrap the text in single backticks.
   */
  lemma CodeTrimming(c: Node, level: nat)
    requires c.Element? && c.tag == "code"
    ensures var b := Convert(c, level); var i := InlineMd(c);
      |b| >= 2 && b[0] == '`' && b[|b| - 1] == '`' && b[1..|b| - 1] == Trim(TextContent(c))
      && |i| >= 2 && i[0] == '`' && i[|i| - 1] == '`' && i[1..|i| - 1] == TextContent(c)
      && (b == i <==> Trim(TextContent(c)) == TextContent(c))
  {
    var t := TextContent(c);
    assert Convert(c, level) == "`" + Trim(t) + "`";
    assert InlineMd(c) == "`" + t + "`";
    Backticked(Trim(t));
    Backticked(t);
  }

  /** Backticks around a text: the text is what lies between them. */
  lemma Backticked(t: string)
    ensures var w := "`" + t + "`";
      |w| == |t| + 2 && w[0] == '`' && w[|w| - 1] == '`' && w[1..|w| - 1] == t
  {
  }

  /** A tag without a handler of its own converts exactly as a `div`: its children, concatenated, at the same level. */
  lemma UnknownTagIsTransparent(tag: string, attrs: seq<Attr>, cs: seq<Node>, level: nat)
    requires !HasHandler(tag)
    ensures Convert(Element(tag, attrs, cs), level) == Convert(Element("div", [], cs), level)
    ensures Convert(Element(tag, attrs, cs), level) == ConvertAll(cs, level)
    ensures InlineMd(Element(tag, attrs, cs)) == ConvertAll(cs, 0)
  {
    assert !HasHandler("div");
  }

  /**
   * A text node becomes its trimmed text on both paths: the result never
   * starts or ends with white space, and it is empty exactly when the text
   * is blank.
   */
  lemma TextIsTrimmed(d: string, level: nat)
    ensures var r := Convert(Text(d), level);
      r == InlineMd(Text(d))
      && (r == [] || (!IsJsWhitespace(r[0]) && !IsJsWhitespace(r[|r| - 1])))
      && (r == [] <==> !HasNonWhitespace(d))
  {
    TextConverts(d, level);
    TrimEdges(d);
    TrimEmptyIff(d);
  }

  lemma TextConverts(d: string, level: nat)
    ensures Convert(Text(d), level) == Trim(d) && InlineMd(Text(d)) == Trim(d)
  {
  }

  /** Links and images convert the same way inside a paragraph and on their own. */
  lemma LinkAndImageAgree(n: Node, level: nat)
    requires n.Element? && (n.tag == "a" || n.tag == "img")
    ensures Convert(n, level) == InlineMd(n)
  {
  }

  /** An image is the link syntax over its `alt` and `src`, behind a `!`. */
  lemma ImageIsBangLink(alt: string, src: string, title: string)
    ensures Bracketed("![", alt, src, title) == "!" + Bracketed("[", alt, src, title)
  {
    BangPrefix(alt, src, if title != "" then " \"" + title + "\")" else ")");
  }

  lemma BangPrefix(alt: string, src: string, tail: string)
    ensures "![" + alt + "](" + src + tail == "!" + ("[" + alt + "](" + src + tail)
  {
    assert "![" == "!" + "[";
    AppendAssoc("!", "[", alt);
    AppendAssoc("!", "[" + alt, "](");
    AppendAssoc("!", "[" + alt + "](", src);
    AppendAssoc("!", "[" + alt + "](" + src, tail);
  }

  /** The title part appears exactly when the title attribute is present and not empty. */
  lemma BracketedTitle(open: string, text: string, target: string, title: string)
    ensures var r := Bracketed(open, text, target, title);
      open + text + "](" + target <= r
      && |r| == |open| + |text| + 2 + |target| + (if title == "" then 1 else |title| + 4)
  {
    var head := open + text + "](" + target;
    if title != "" {
      assert Bracketed(open, text, target, title) == head + (" \"" + title + "\")");
    } else {
      assert Bracketed(open, text, target, title) == head + ")";
    }
    PrefixAppend(head, head, Bracketed(open, text, target, title)[|head|..]);
    assert Bracketed(open, text, target, title) == head + Bracketed(open, text, target, title)[|head|..];
  }

  /** An image or link without attributes falls back to empty strings for all of them. */
  lemma MissingAttributes(cs: seq<Node>)
    ensures ImageMd(Element("img", [], cs)) == "![]()"
    ensures LinkMd(Element("a", [], cs)) == "[" + ConvertAll(cs, 0) + "]()"
  {
  }

  // ---------------------------------------------------------------------
  // Block quotes
  // ---------------------------------------------------------------------

  /**
   * A block quote is a newline, its quoted lines and a newline; the lines
   * between are exactly the non-blank lines of its converted children,
   * each behind `> `.
   */
  lemma {:induction false} BlockquoteLines(n: Node, level: nat)
    requires n.Element? && n.tag == "blockquote"
    ensures var r := Convert(n, level); var lines := NonBlank(SplitLines(ConvertAll(n.children, level)));
      |r| >= 2 && r[0] == '\n' && r[|r| - 1] == '\n'
      && (lines == [] ==> r == "\n\n")
      && (lines != [] ==> SplitLines(r[1..|r| - 1]) == PrefixEach(lines))
  {
    var lines := NonBlank(SplitLines(ConvertAll(n.children, level)));
    var quoted := PrefixEach(lines);
    var r := Convert(n, level);
    assert r == "\n" + Join(quoted, "\n") + "\n";
    assert r[1..|r| - 1] == Join(quoted, "\n");
    if lines != [] {
      forall k | 0 <= k < |quoted| ensures '\n' !in quoted[k] {
        var src := SplitLines(ConvertAll(n.children, level));
        assert lines[k] in src;
        var j :| 0 <= j < |src| && src[j] == lines[k];
        assert quoted[k] == "> " + lines[k];
      }
      SplitLinesJoin(quoted);
    }
  }

  /** Every non-blank line of the quoted content keeps its place; blank lines vanish. */
  lemma {:induction false} NonBlankFilters(lines: seq<string>, line: string)
    ensures line in NonBlank(lines) <==> line in lines && HasNonWhitespace(line)
  {
    if |lines| > 0 {
      NonBlankFilters(lines[1..], line);
      if line == lines[0] && HasNonWhitespace(line) {
        assert NonBlank(lines)[0] == line;
      }
      assert line in lines <==> line == lines[0] || line in lines[1..];
    }
  }

  // ---------------------------------------------------------------------
  // Lists
  // ---------------------------------------------------------------------

  /** One more item appends that item's text. */
  lemma ItemsStep(items: seq<Node>, level: nat, m: Marker, index: nat)
    requires index < |items|
    ensures ItemsMd(items, level, m, index + 1) == ItemsMd(items, level, m, index) + ItemMd(items[index], level, m, index)
  {
  }

  /** One more nested list appends that list's Markdown. */
  lemma NestedStep(lists: seq<Node>, level: nat, j: nat)
    requires j < |lists|
    ensures NestedMd(lists, level, j + 1) == NestedMd(lists, level, j) + ListMd(lists[j], level, MarkerOf(lists[j]))
  {
  }

  /** The first `count` items split into those before the last one and the last one. */
  lemma ItemsLast(items: seq<Node>, level: nat, m: Marker, count: nat) returns (before: string, item: string, whole: string)
    requires 0 < count <= |items|
    ensures before == ItemsMd(items, level, m, count - 1) && item == ItemMd(items[count - 1], level, m, count - 1)
    ensures whole == ItemsMd(items, level, m, count) && whole == before + item
  {
    before, item, whole := ItemsMd(items, level, m, count - 1), ItemMd(items[count - 1], level, m, count - 1), ItemsMd(items, level, m, count);
  }

  /** The first `count` nested lists split into those before the last one and the last one. */
  lemma NestedLast(lists: seq<Node>, level: nat, count: nat) returns (before: string, sub: string, whole: string)
    requires 0 < count <= |lists|
    ensures before == NestedMd(lists, level, count - 1) && sub == ListMd(lists[count - 1], level, MarkerOf(lists[count - 1]))
    ensures whole == NestedMd(lists, level, count) && whole == before + sub
  {
    before, sub, whole := NestedMd(lists, level, count - 1), ListMd(lists[count - 1], level, MarkerOf(lists[count - 1])), NestedMd(lists, level, count);
  }

  /** An item's text split into its line, empty or indented, and its nested lists. */
  lemma ItemParts(li: Node, level: nat, m: Marker, index: nat) returns (line: string, lists: seq<Node>, nested: string, whole: string)
    ensures line == "" || Indented(line, level)
    ensures lists == if li.Element? then ChildLists(li.children) else []
    ensures nested == if li.Element? then NestedMd(lists, level + 1, |lists|) else ""
    ensures whole == ItemMd(li, level, m, index) && whole == line + nested
  {
    var main := ItemText(li, level);
    line := if main != "" then Repeat("  ", level) + ItemPrefix(m, index) + main + "\n" else "";
    if main != "" {
      LineIndented(level, ItemPrefix(m, index), main);
    }
    lists := if li.Element? then ChildLists(li.children) else [];
    nested := if li.Element? then NestedMd(lists, level + 1, |lists|) else "";
    whole := ItemMd(li, level, m, index);
  }

  /**
   * Rendering the first `j` items is a prefix of rendering the first `k`
   * items, for `j <= k`: later items only append.
   */
  lemma ItemsPrefix(items: seq<Node>, level: nat, m: Marker, j: nat, k: nat)
    requires j <= k <= |items|
    ensures ItemsMd(items, level, m, j) <= ItemsMd(items, level, m, k)
  {
    ItemsConcat(items, level, m, j);
    ItemsConcat(items, level, m, k);
    ConcatIndexedPrefix(items, ItemRenderer(level, m), j, k);
  }

  /** The renderer `processListItems` applies to the item at each position. */
  function ItemRenderer(level: nat, m: Marker): (Node, nat) -> string
  {
    (li: Node, k: nat) => ItemMd(li, level, m, k)
  }

  /** The renderer applied to each child list of an item. */
  function ListRenderer(level: nat): (Node, nat) -> string
  {
    (l: Node, k: nat) => ListMd(l, level, MarkerOf(l))
  }

  /** The first `count` items split into those before the last one and the last one, as its renderer gives it. */
  lemma ItemsSplit(items: seq<Node>, level: nat, m: Marker, count: nat, li: Node) returns (before: string, item: string, whole: string)
    requires 0 < count <= |items| && li == items[count - 1]
    ensures before == ItemsMd(items, level, m, count - 1) && item == ItemRenderer(level, m)(li, count - 1)
    ensures whole == ItemsMd(items, level, m, count) && whole == before + item
  {
    before, item, whole := ItemsMd(items, level, m, count - 1), ItemMd(li, level, m, count - 1), ItemsMd(items, level, m, count);
    RenderItem(level, m, li, count - 1, item);
  }

  lemma RenderItem(level: nat, m: Marker, li: Node, k: nat, item: string)
    requires item == ItemMd(li, level, m, k)
    ensures item == ItemRenderer(level, m)(li, k)
  {
  }

  /** The first `count` child lists split likewise. */
  lemma NestedSplit(lists: seq<Node>, level: nat, count: nat, l: Node) returns (before: string, sub: string, whole: string)
    requires 0 < count <= |lists| && l == lists[count - 1]
    ensures before == NestedMd(lists, level, count - 1) && sub == ListRenderer(level)(l, count - 1)
    ensures whole == NestedMd(lists, level, count) && whole == before + sub
  {
    before, sub, whole := NestedLast(lists, level, count);
    RenderList(level, l, count - 1, sub);
  }

  lemma RenderList(level: nat, l: Node, k: nat, sub: string)
    requires sub == ListMd(l, level, MarkerOf(l))
    ensures sub == ListRenderer(level)(l, k)
  {
  }

  /** Rendering the first `count` items concatenates each item's text in order. */
  lemma {:induction false} ItemsConcat(items: seq<Node>, level: nat, m: Marker, count: nat)
    requires count <= |items|
    ensures ItemsMd(items, level, m, count) == ConcatIndexed(items, ItemRenderer(level, m), count)
    decreases count
  {
    if count > 0 {
      ItemsConcat(items, level, m, count - 1);
      ItemsConcatStep(items, level, m, count);
    } else {
      assert ItemsMd(items, level, m, 0) == "" == ConcatIndexed(items, ItemRenderer(level, m), 0);
    }
  }

  /** The first `count` items, on both sides, are the first `count - 1` followed by the last one as the renderer gives it. */
  lemma ItemsConcatStep(items: seq<Node>, level: nat, m: Marker, count: nat)
    requires 0 < count <= |items|
    ensures ItemsMd(items, level, m, count) == ItemsMd(items, level, m, count - 1) + ItemRenderer(level, m)(items[count - 1], count - 1)
    ensures ConcatIndexed(items, ItemRenderer(level, m), count) == ConcatIndexed(items, ItemRenderer(level, m), count - 1) + ItemRenderer(level, m)(items[count - 1], count - 1)
  {
    var li := items[count - 1];
    var before, item, whole := ItemsSplit(items, level, m, count, li);
  }

  /** Rendering the first `count` child lists concatenates each list's text in order. */
  lemma {:induction false} NestedConcat(lists: seq<Node>, level: nat, count: nat)
    requires count <= |lists|
    ensures NestedMd(lists, level, count) == ConcatIndexed(lists, ListRenderer(level), count)
    decreases count
  {
    if count > 0 {
      NestedConcat(lists, level, count - 1);
      NestedConcatStep(lists, level, count);
    }
  }

  lemma NestedConcatStep(lists: seq<Node>, level: nat, count: nat)
    requires 0 < count <= |lists|
    requires NestedMd(lists, level, count - 1) == ConcatIndexed(lists, ListRenderer(level), count - 1)
    ensures NestedMd(lists, level, count) == ConcatIndexed(lists, ListRenderer(level), count)
  {
    var l := lists[count - 1];
    var before, sub, whole := NestedSplit(lists, level, count, l);
    ConcatIndexedExtend(lists, ListRenderer(level), count, l, before, sub, whole);
  }

  /**
   * The element child at position `k` of a list is rendered with index
   * `k`, right after the items before it, whatever those rendered: an item
   * with no line still uses up its number.
   */
  lemma ListItemAt(list: Node, level: nat, m: Marker, k: nat)
    requires k < |ElementChildren(Children(list))|
    ensures var items := ElementChildren(Children(list));
      ItemsMd(items, level, m, k) + ItemMd(items[k], level, m, k) <= ListMd(list, level, m)
  {
    var items := ElementChildren(Children(list));
    var all := ListItems(list, level, m, items);
    ItemsPrefix(items, level, m, k + 1, |items|);
    var before, item, whole := ItemsLast(items, level, m, k + 1);
  }

  /** A list renders as all of its element children, numbered from 0. */
  lemma ListItems(list: Node, level: nat, m: Marker, items: seq<Node>) returns (all: string)
    requires items == ElementChildren(Children(list))
    ensures all == ListMd(list, level, m) && all == ItemsMd(items, level, m, |items|)
  {
    all := ListMd(list, level, m);
  }

  /** An item with a line starts with the indent, its prefix, its text and a newline; its child lists follow. */
  lemma ItemLine(li: Node, level: nat, m: Marker, index: nat)
    requires ItemText(li, level) != ""
    ensures var t := ItemText(li, level); var line := Repeat("  ", level) + ItemPrefix(m, index) + t + "\n";
      |line| == 2 * level + |ItemPrefix(m, index)| + |t| + 1
      && ItemMd(li, level, m, index)[..|line|] == line
  {
    RepeatLength("  ", level);
  }

  /** The first characters of `s` are `2 * level` spaces. */
  predicate Indented(s: string, level: nat) {
    |s| >= 2 * level && forall i :: 0 <= i < 2 * level ==> s[i] == ' '
  }

  lemma {:induction false} RepeatIndent(level: nat)
    ensures Indented(Repeat("  ", level), level)
  {
    if level > 0 {
      RepeatIndent(level - 1);
      assert Repeat("  ", level) == "  " + Repeat("  ", level - 1);
    }
  }

  lemma IndentedAppend(a: string, b: string, s: string, level: nat)
    requires s == a + b
    requires a == "" || Indented(a, level)
    requires a == "" ==> b == "" || Indented(b, level)
    ensures s == "" || Indented(s, level)
  {
    if a == "" {
      assert s == b;
    } else {
      assert forall i :: 0 <= i < 2 * level ==> s[i] == a[i];
    }
  }

  lemma IndentedDeeper(s: string, level: nat)
    requires Indented(s, level + 1)
    ensures Indented(s, level)
  {
  }

  /**
   * A list at nesting `level` is indented by `2 * level` spaces: whatever
   * it renders (its own lines and every nested list below it) begins with
   * that indent.
   */
  lemma {:induction false} ListIndented(list: Node, level: nat, m: Marker)
    ensures ListMd(list, level, m) == "" || Indented(ListMd(list, level, m), level)
    decreases Size(list), 1, 0
  {
    var items := ElementChildren(Children(list));
    ItemsIndented(items, level, m, |items|);
  }

  lemma {:induction false} ItemsIndented(items: seq<Node>, level: nat, m: Marker, count: nat)
    requires count <= |items|
    ensures ItemsMd(items, level, m, count) == "" || Indented(ItemsMd(items, level, m, count), level)
    decreases SizeAll(items), 4, count
  {
    var f := ItemRenderer(level, m);
    forall i | 0 <= i < count
      ensures f(items[i], i) == "" || Indented(f(items[i], i), level)
    {
      ItemIndented(items[i], level, m, i);
    }
    ItemsConcat(items, level, m, count);
    ConcatIndented(items, f, count, level);
  }

  lemma {:induction false} ItemIndented(li: Node, level: nat, m: Marker, index: nat)
    ensures ItemMd(li, level, m, index) == "" || Indented(ItemMd(li, level, m, index), level)
    decreases Size(li), 3, 0
  {
    var line, lists, nested, whole := ItemParts(li, level, m, index);
    if li.Element? {
      NestedIndented(lists, level + 1, |lists|);
      if nested != "" {
        IndentedDeeper(nested, level);
      }
    }
    IndentedAppend(line, nested, whole, level);
  }

  lemma LineIndented(level: nat, prefix: string, text: string)
    ensures Indented(Repeat("  ", level) + prefix + text + "\n", level)
  {
    var r := Repeat("  ", level);
    RepeatIndent(level);
    AppendAssoc(r, prefix, text);
    AppendAssoc(r, prefix + text, "\n");
    IndentedAppend(r, prefix + text + "\n", r + prefix + text + "\n", level);
  }

  lemma {:induction false} NestedIndented(lists: seq<Node>, level: nat, count: nat)
    requires count <= |lists|
    ensures NestedMd(lists, level, count) == "" || Indented(NestedMd(lists, level, count), level)
    decreases SizeAll(lists), 4, count
  {
    var f := ListRenderer(level);
    forall i | 0 <= i < count
      ensures f(lists[i], i) == "" || Indented(f(lists[i], i), level)
    {
      ListIndented(lists[i], level, MarkerOf(lists[i]));
    }
    NestedConcat(lists, level, count);
    ConcatIndented(lists, f, count, level);
  }

  /** Concatenating pieces each empty or indented gives an empty or indented text. */
  lemma {:induction false} ConcatIndented<T>(xs: seq<T>, f: (T, nat) -> string, count: nat, level: nat)
    requires count <= |xs|
    requires forall i :: 0 <= i < count ==> f(xs[i], i) == "" || Indented(f(xs[i], i), level)
    ensures ConcatIndexed(xs, f, count) == "" || Indented(ConcatIndexed(xs, f, count), level)
  {
    if count > 0 {
      ConcatIndented(xs, f, count - 1, level);
      var before := ConcatIndexed(xs, f, count - 1);
      var item := f(xs[count - 1], count - 1);
      IndentedAppend(before, item, before + item, level);
    }
  }

  /** An ordered list without a usable `start` numbers its items from 1. */
  lemma OrderedFromOne(attrs: seq<Attr>, cs: seq<Node>, index: nat)
    requires GetAttribute(attrs, "start") == None || GetAttribute(attrs, "start") == Some("")
    ensures ItemPrefix(MarkerOf(Element("ol", attrs, cs)), index) == IntToString(1 + index) + ". "
  {
  }

  /** A `start` that is not a number makes every marker `NaN. `. */
  lemma NonNumericStart(cs: seq<Node>, index: nat)
    ensures ItemPrefix(MarkerOf(Element("ol", [Attr("start", "x")], cs)), index) == "NaN. "
  {
    assert Trim("x") == "x";
  }

  /** `<ol start="3">` whose items hold one paragraph each numbers them 3 and 4. */
  lemma OrderedListExample(a: string, b: string)
    requires |a| > 0 && !IsJsWhitespace(a[0]) && !IsJsWhitespace(a[|a| - 1])
    requires |b| > 0 && !IsJsWhitespace(b[0]) && !IsJsWhitespace(b[|b| - 1])
    ensures var ol := Element("ol", [Attr("start", "3")], [
                        Element("li", [], [Element("p", [], [Text(a)])]),
                        Element("li", [], [Element("p", [], [Text(b)])])]);
      Convert(ol, 0) == "3. " + a + "\n4. " + b + "\n"
  {
    var li1 := Element("li", [], [Element("p", [], [Text(a)])]);
    var li2 := Element("li", [], [Element("p", [], [Text(b)])]);
    OrderedOfTwo(li1, li2);
    NumberedParagraphItems(a, b);
    TwoLines(a, b);
  }

  lemma NumberedParagraphItems(a: string, b: string)
    requires |a| > 0 && !IsJsWhitespace(a[0]) && !IsJsWhitespace(a[|a| - 1])
    requires |b| > 0 && !IsJsWhitespace(b[0]) && !IsJsWhitespace(b[|b| - 1])
    ensures ItemMd(Element("li", [], [Element("p", [], [Text(a)])]), 0, Ordered(Int(3)), 0) == "3. " + a + "\n"
    ensures ItemMd(Element("li", [], [Element("p", [], [Text(b)])]), 0, Ordered(Int(3)), 1) == "4. " + b + "\n"
  {
    ThreeFour();
    NumberedParagraphItem(a, 0);
    NumberedParagraphItem(b, 1);
  }

  lemma NumberedParagraphItem(w: string, index: nat)
    requires |w| > 0 && !IsJsWhitespace(w[0]) && !IsJsWhitespace(w[|w| - 1])
    requires Repeat("  ", 0) == ""
    ensures ItemMd(Element("li", [], [Element("p", [], [Text(w)])]), 0, Ordered(Int(3)), index)
            == ItemPrefix(Ordered(Int(3)), index) + w + "\n"
  {
    ParagraphItem(w, 0, Ordered(Int(3)), index);
    EmptyAppend(ItemPrefix(Ordered(Int(3)), index));
  }

  lemma TwoLines(a: string, b: string)
    ensures ("3. " + a + "\n") + ("4. " + b + "\n") == "3. " + a + "\n4. " + b + "\n"
  {
  }

  /** An `ol` starting at 3 with two `li` children renders the first with index 0 and the second with index 1. */
  lemma OrderedOfTwo(li1: Node, li2: Node)
    requires li1.Element? && li2.Element?
    ensures Convert(Element("ol", [Attr("start", "3")], [li1, li2]), 0)
            == ItemMd(li1, 0, Ordered(Int(3)), 0) + ItemMd(li2, 0, Ordered(Int(3)), 1)
  {
    var ol := Element("ol", [Attr("start", "3")], [li1, li2]);
    StartThree([li1, li2]);
    TwoElementChildren(li1, li2);
    ListConvert(ol, 0);
    ListOfTwo(ol, li1, li2, 0, Ordered(Int(3)));
  }

  lemma StartThree(cs: seq<Node>)
    ensures MarkerOf(Element("ol", [Attr("start", "3")], cs)) == Ordered(Int(3))
  {
    var ol := Element("ol", [Attr("start", "3")], cs);
    assert GetAttribute(ol.attrs, "start") == Some("3");
    assert ToNumber("3") == Int(3) by {
      TrimNoEdgeWhitespace("3");
      assert AllDigits("3");
      assert DigitsValue("3") == DigitsValue("") * 10 + 3;
    }
  }

  lemma TwoElementChildren(x: Node, y: Node)
    requires x.Element? && y.Element?
    ensures ElementChildren([x, y]) == [x, y]
  {
    assert ElementChildren([x, y]) == [x] + ElementChildren([y]);
    assert ElementChildren([y]) == [y] + ElementChildren([]);
  }

  /** A list with two element children renders its first item with index 0 and its second with index 1. */
  lemma ListOfTwo(list: Node, x: Node, y: Node, level: nat, m: Marker)
    requires ElementChildren(Children(list)) == [x, y]
    ensures ListMd(list, level, m) == ItemMd(x, level, m, 0) + ItemMd(y, level, m, 1)
  {
    var items := [x, y];
    ItemsStep(items, level, m, 0);
    ItemsStep(items, level, m, 1);
    EmptyAppend(ItemMd(x, level, m, 0));
  }

  lemma ThreeFour()
    ensures ItemPrefix(Ordered(Int(3)), 0) == "3. " && ItemPrefix(Ordered(Int(3)), 1) == "4. "
    ensures Repeat("  ", 0) == ""
  {
    assert NatToString(3) == [Digit(3)] && Digit(3) == '3';
    assert NatToString(4) == [Digit(4)] && Digit(4) == '4';
  }

  /** A `ul` or `ol` element converts to its list with its own marker. */
  lemma ListConvert(n: Node, level: nat)
    requires n.Element? && (n.tag == "ul" || n.tag == "ol")
    ensures Convert(n, level) == ListMd(n, level, MarkerOf(n))
  {
  }

  /** An item holding one paragraph of a word renders as the indent, the prefix and the word. */
  lemma ParagraphItem(w: string, level: nat, m: Marker, index: nat)
    requires |w| > 0 && !IsJsWhitespace(w[0]) && !IsJsWhitespace(w[|w| - 1])
    ensures ItemMd(Element("li", [], [Element("p", [], [Text(w)])]), level, m, index)
            == Repeat("  ", level) + ItemPrefix(m, index) + w + "\n"
  {
    var p := Element("p", [], [Text(w)]);
    var li := Element("li", [], [p]);
    ParagraphWord(w, level);
    SingleLineChild(p);
    assert ItemText(li, level) == w by {
      assert ConvertAll([p], level) == w + "\n" by {
        assert ConvertAll([p], level) == Convert(p, level) + ConvertAll([], level);
      }
      TrimAround("", w, "\n");
      assert "" + w + "\n" == w + "\n";
    }
    ItemOfLine(li, level, m, index, w);
  }

  /**
   * An item whose paragraph holds a `<br>` spans two lines, and only the
   * first carries the indent and the prefix: `  - a\nb\n` at level 1.
   */
  lemma MultiLineItem(a: string, b: string, level: nat, m: Marker, index: nat)
    requires |a| > 0 && !IsJsWhitespace(a[0]) && !IsJsWhitespace(a[|a| - 1])
    requires |b| > 0 && !IsJsWhitespace(b[0]) && !IsJsWhitespace(b[|b| - 1])
    ensures ItemMd(Element("li", [], [Element("p", [], [Text(a), Element("br", [], []), Text(b)])]), level, m, index)
            == Repeat("  ", level) + ItemPrefix(m, index) + (a + "\n" + b) + "\n"
  {
    var p := Element("p", [], [Text(a), Element("br", [], []), Text(b)]);
    var li := Element("li", [], [p]);
    BrokenParagraph(a, b, level);
    SingleLineChild(p);
    assert ItemText(li, level) == a + "\n" + b by {
      assert ConvertAll([p], level) == Convert(p, level) + ConvertAll([], level);
      BrokenLineTrim(a, b);
    }
    ItemOfLine(li, level, m, index, a + "\n" + b);
  }

  /** A paragraph `a<br>b` converts to `a`, a newline, `b` and a newline. */
  lemma BrokenParagraph(a: string, b: string, level: nat)
    requires |a| > 0 && !IsJsWhitespace(a[0]) && !IsJsWhitespace(a[|a| - 1])
    requires |b| > 0 && !IsJsWhitespace(b[0]) && !IsJsWhitespace(b[|b| - 1])
    ensures Convert(Element("p", [], [Text(a), Element("br", [], []), Text(b)]), level) == a + "\n" + b + "\n"
  {
    var cs := [Text(a), Element("br", [], []), Text(b)];
    TrimNoEdgeWhitespace(a);
    TrimNoEdgeWhitespace(b);
    assert cs[1..][1..] == [Text(b)] && [Text(b)][1..] == [];
    assert InlineAll([Text(b)]) == b;
    assert InlineAll(cs[1..]) == "\n" + b;
    assert InlineAll(cs) == a + ("\n" + b);
  }

  lemma BrokenLineTrim(a: string, b: string)
    requires |a| > 0 && !IsJsWhitespace(a[0]) && !IsJsWhitespace(a[|a| - 1])
    requires |b| > 0 && !IsJsWhitespace(b[0]) && !IsJsWhitespace(b[|b| - 1])
    ensures Trim(a + "\n" + b + "\n" + "") == a + "\n" + b
  {
    var core := a + "\n" + b;
    assert core[0] == a[0] && core[|core| - 1] == b[|b| - 1];
    TrimAround("", core, "\n");
    assert "" + core + "\n" == a + "\n" + b + "\n" + "";
  }

  /** A paragraph holding one word converts to the word and a newline. */
  lemma ParagraphWord(w: string, level: nat)
    requires |w| > 0 && !IsJsWhitespace(w[0]) && !IsJsWhitespace(w[|w| - 1])
    ensures Convert(Element("p", [], [Text(w)]), level) == w + "\n"
  {
    TrimNoEdgeWhitespace(w);
    assert InlineAll([Text(w)]) == w + InlineAll([]);
  }

  lemma SingleLineChild(p: Node)
    requires p.Element? && !IsList(p)
    ensures LineChildren([p]) == [p] && ChildLists([p]) == []
  {
    assert LineChildren([p]) == [p] + LineChildren([]);
    assert ChildLists([p]) == ChildLists([]);
  }

  /** An item without child lists renders as its line alone. */
  lemma ItemOfLine(li: Node, level: nat, m: Marker, index: nat, t: string)
    requires li.Element? && ChildLists(li.children) == [] && ItemText(li, level) == t && t != ""
    ensures ItemMd(li, level, m, index) == Repeat("  ", level) + ItemPrefix(m, index) + t + "\n"
  {
    assert NestedMd([], level + 1, 0) == "";
  }

  /** Items holding bare text render nothing: only element children form an item's line. */
  lemma BareTextItemsExample(a: string, b: string)
    ensures var ol := Element("ol", [Attr("start", "3")], [
                        Element("li", [], [Text(a)]),
                        Element("li", [], [Text(b)])]);
      Convert(ol, 0) == ""
  {
    var li1 := Element("li", [], [Text(a)]);
    var li2 := Element("li", [], [Text(b)]);
    var ol := Element("ol", [Attr("start", "3")], [li1, li2]);
    var m := MarkerOf(ol);
    TwoElementChildren(li1, li2);
    ListConvert(ol, 0);
    ListOfTwo(ol, li1, li2, 0, m);
    BareTextItem(a, 0, m, 0);
    BareTextItem(b, 0, m, 1);
  }

  /** An item whose only child is text renders nothing. */
  lemma BareTextItem(d: string, level: nat, m: Marker, index: nat)
    ensures ItemMd(Element("li", [], [Text(d)]), level, m, index) == ""
  {
    assert LineChildren([Text(d)]) == [] by {
      assert LineChildren([Text(d)]) == LineChildren([]);
    }
    assert ChildLists([Text(d)]) == [] by {
      assert ChildLists([Text(d)]) == ChildLists([]);
    }
    var li := Element("li", [], [Text(d)]);
    assert ItemText(li, level) == "" by {
      assert ConvertAll([], level) == "";
    }
    assert NestedMd([], level + 1, 0) == "";
  }

  // ---------------------------------------------------------------------
  // Tables
  // ---------------------------------------------------------------------

  /** The separator line carries one `---` per header cell and one bar more than cells. */
  lemma {:induction false} SeparatorMatchesHeader(k: nat)
    requires k >= 1
    ensures Count(SeparatorLine(k), '-') == 3 * k
    ensures Count(SeparatorLine(k), '|') == k + 1
  {
    DashesJoinCount(k);
    var j := Join(Dashes(k), " | ");
    CountAppend("| ", j, '-');
    CountAppend("| " + j, " |\n", '-');
    CountAppend("| ", j, '|');
    CountAppend("| " + j, " |\n", '|');
  }

  lemma {:induction false} DashesJoinCount(k: nat)
    requires k >= 1
    ensures Count(Join(Dashes(k), " | "), '-') == 3 * k
    ensures Count(Join(Dashes(k), " | "), '|') == k - 1
  {
    var d := Dashes(k);
    if k == 1 {
      assert Join(d, " | ") == "---";
    } else {
      DashesJoinCount(k - 1);
      assert d[1..] == Dashes(k - 1);
      var rest := Join(Dashes(k - 1), " | ");
      assert Join(d, " | ") == "---" + " | " + rest;
      CountAppend("--- | ", rest, '-');
      CountAppend("--- | ", rest, '|');
      assert "---" + " | " == "--- | ";
    }
  }

  /** One more body row appends that row's line. */
  lemma RowsStep(rows: seq<Node>, bound: nat, i: nat)
    requires 1 <= i < |rows| && forall i :: 0 <= i < |rows| ==> Size(rows[i]) < bound
    ensures RowsMd(rows, bound, i + 1) == RowsMd(rows, bound, i) + RowMd(rows[i])
  {
  }

  /**
   * A table renders nothing exactly when it has no row; otherwise it is a
   * newline, the header line, the separator line, one line per further row
   * and a closing newline.
   */
  lemma TableLayout(table: Node)
    ensures var rows := QueryAll(table, IsRow);
      (TableMd(table) == "" <==> rows == [])
      && (rows != [] ==>
            var headers := HeaderTexts(QueryAll(rows[0], IsAnyCell));
            TableMd(table) == "\n" + HeaderLine(headers) + SeparatorLine(|headers|)
                              + RowsMd(rows, Size(table), |rows|) + "\n")
  {
  }

  /** No part holds a `|`. */
  predicate BarFree(parts: seq<string>) {
    forall k :: 0 <= k < |parts| ==> '|' !in parts[k]
  }

  /** `parts.join(' | ')` of bar-free parts holds one bar per gap between parts. */
  lemma {:induction false} JoinBarCount(parts: seq<string>)
    requires |parts| >= 1 && BarFree(parts)
    ensures Count(Join(parts, " | "), '|') == |parts| - 1
  {
    if |parts| == 1 {
      CountAbsent(parts[0], '|');
    } else {
      JoinBarCount(parts[1..]);
      var rest := Join(parts[1..], " | ");
      CountAbsent(parts[0], '|');
      CountAppend(parts[0], " | ", '|');
      CountAppend(parts[0] + " | ", rest, '|');
    }
  }

  /**
   * A body row is not padded or cut to the header's width: it holds one
   * cell per `td` of its own (given bar-free cells, so that the bars can
   * be counted), however many cells the header has.
   */
  lemma RowWidthIsOwnCellCount(row: Node)
    requires BarFree(CellsMd(QueryAll(row, IsDataCell), Size(row)))
    ensures var tds := QueryAll(row, IsDataCell);
      Count(RowMd(row), '|') == (if |tds| == 0 then 2 else |tds| + 1)
  {
    var cells := CellsMd(QueryAll(row, IsDataCell), Size(row));
    BarLineCount(cells);
  }

  /** A line of bar-free cells between bars has one `|` more than it has cells, and two when it has none. */
  lemma BarLineCount(cells: seq<string>)
    requires BarFree(cells)
    ensures Count("| " + Join(cells, " | ") + " |\n", '|') == (if |cells| == 0 then 2 else |cells| + 1)
  {
    var j := Join(cells, " | ");
    if |cells| == 0 {
      assert j == "";
    } else {
      JoinBarCount(cells);
    }
    CountAppend("| ", j, '|');
    CountAppend("| " + j, " |\n", '|');
  }
}
