/**
 * `convertNodeToMarkdown` and its helpers `processInlineElements`,
 * `processLinkElement`, `processImageElement`, `processListItems` and
 * `processTable`: a recursive walk that turns each node into Markdown by a
 * fixed template per tag. The list and table helpers are loops in the
 * source; they appear here as the functions the walk uses and, in the
 * module `MarkdownLoops`, as methods proved to compute those functions.
 *
 * The source threads a `processed` set of visited nodes through the walk;
 * on a tree no node is reached twice, so the set never changes the output
 * and is not modelled.
 */
module Markdown {
  import opened Wrappers
  import opened Strings
  import opened Dom

  /** The result of JavaScript's `Number(...)` for a list's `start` value. */
  datatype JsNumber = Int(i: int) | NaN

  /** `-` for an unordered list; for an ordered list the number of its first item. */
  datatype Marker = Bullet | Ordered(start: JsNumber)

  predicate IsDigit(c: char) { '0' <= c <= '9' }

  function DigitsValue(s: string): nat
    requires forall i :: 0 <= i < |s| ==> IsDigit(s[i])
  {
    if |s| == 0 then 0
    else
      assert IsDigit(s[|s| - 1]);
      DigitsValue(s[..|s| - 1]) * 10 + (s[|s| - 1] as int - '0' as int)
  }

  predicate AllDigits(s: string) {
    |s| > 0 && forall i :: 0 <= i < |s| ==> IsDigit(s[i])
  }

  /**
   * `Number(s)` for the integer forms a `start` attribute takes: white space
   * around an optionally signed run of decimal digits; blank text is 0;
   * anything else is NaN here.
   */
  function ToNumber(s: string): JsNumber
  {
    var t := Trim(s);
    if t == "" then Int(0)
    else if AllDigits(t) then Int(DigitsValue(t))
    else if t[0] == '+' && AllDigits(t[1..]) then Int(DigitsValue(t[1..]))
    else if t[0] == '-' && AllDigits(t[1..]) then Int(-(DigitsValue(t[1..]) as int))
    else NaN
  }

  /** `getAttribute('start') || 1`, converted by `Number`. */
  function StartNumber(start: Option<string>): JsNumber
  {
    match start
    case None => Int(1)
    case Some(s) => if s == "" then Int(1) else ToNumber(s)
  }

  /** The marker of a list element: `-` for `ul`, its start number for `ol`. */
  function MarkerOf(list: Node): Marker
  {
    if IsTag(list, "ul") then Bullet else Ordered(StartNumber(Attribute(list, "start")))
  }

  /** The item prefix: `- `, or `Number(start) + index` followed by `. `. */
  function ItemPrefix(m: Marker, index: nat): string
  {
    match m
    case Bullet => "- "
    case Ordered(Int(s)) => IntToString(s + index) + ". "
    case Ordered(NaN) => "NaN. "
  }

  /** The heading level of `h1` … `h6`: the digit after the `h`. */
  function HeadingLevel(tag: string): (k: Option<nat>)
    ensures k.Some? <==> tag in {"h1", "h2", "h3", "h4", "h5", "h6"}
    ensures k.Some? ==> 1 <= k.value <= 6 && tag == ['h', "123456"[k.value - 1]]
  {
    if tag == "h1" then Some(1)
    else if tag == "h2" then Some(2)
    else if tag == "h3" then Some(3)
    else if tag == "h4" then Some(4)
    else if tag == "h5" then Some(5)
    else if tag == "h6" then Some(6)
    else None
  }

  /** The tags with a handler of their own; every other element is walked through like a `div`. */
  predicate HasHandler(tag: string) {
    tag in {"p", "strong", "em", "hr", "br", "a", "img", "blockquote", "ul", "ol", "pre", "code", "table"}
    || HeadingLevel(tag).Some?
  }

  // ---------------------------------------------------------------------
  // The walk
  // ---------------------------------------------------------------------

  /** `convertNodeToMarkdown(node, level)`. */
  function Convert(n: Node, level: nat): string
    decreases Size(n), 2, 0
  {
    match n
    case Text(d) => Trim(d)
    case Element(tag, attrs, cs) =>
      if tag == "p" then InlineAll(cs) + "\n"
      else if tag == "strong" then "**" + TextContent(n) + "**"
      else if tag == "em" then "*" + TextContent(n) + "*"
      else if tag == "hr" then "\n---\n"
      else if tag == "br" then "\n"
      else if tag == "a" then LinkMd(n)
      else if tag == "img" then ImageMd(n)
      else if tag == "blockquote" then "\n" + QuoteLines(ConvertAll(cs, level)) + "\n"
      else if tag == "ul" || tag == "ol" then ListMd(n, level, MarkerOf(n))
      else if tag == "pre" then "\n```\n" + Trim(TextContent(n)) + "\n```\n\n"
      else if tag == "code" then "`" + Trim(TextContent(n)) + "`"
      else if HeadingLevel(tag).Some? then Repeat("#", HeadingLevel(tag).value) + " " + InlineAll(cs) + "\n"
      else if tag == "table" then TableMd(n)
      else ConvertAll(cs, level)
  }

  /** The children converted at the same level and concatenated (the `DIV` handler and the fallback). */
  function ConvertAll(cs: seq<Node>, level: nat): string
    decreases SizeAll(cs), 4, 0
  {
    if |cs| == 0 then "" else Convert(cs[0], level) + ConvertAll(cs[1..], level)
  }

  /** `processInlineElements` applied to one child. */
  function InlineMd(c: Node): string
    decreases Size(c), 3, 0
  {
    match c
    case Text(d) => Trim(d)
    case Element(tag, _, _) =>
      if tag == "strong" then "**" + TextContent(c) + "**"
      else if tag == "em" then "*" + TextContent(c) + "*"
      else if tag == "code" then "`" + TextContent(c) + "`"
      else if tag == "a" then LinkMd(c)
      else if tag == "img" then ImageMd(c)
      else Convert(c, 0)
  }

  /** `processInlineElements(node)`, given the node's children. */
  function InlineAll(cs: seq<Node>): string
    decreases SizeAll(cs), 4, 0
  {
    if |cs| == 0 then "" else InlineMd(cs[0]) + InlineAll(cs[1..])
  }

  /** The Markdown image and link syntax: `open + text + '](' + target + ')'`, with ` "title"` when there is a title. */
  function Bracketed(open: string, text: string, target: string, title: string): string
  {
    if title != "" then open + text + "](" + target + " \"" + title + "\")"
    else open + text + "](" + target + ")"
  }

  /** `processImageElement`. */
  function ImageMd(img: Node): string
  {
    Bracketed("![", AttrOrEmpty(img, "alt"), AttrOrEmpty(img, "src"), AttrOrEmpty(img, "title"))
  }

  /** `processLinkElement`: the children converted at level 0 form the link text. */
  function LinkMd(a: Node): string
    decreases Size(a), 1, 0
  {
    var text := if a.Element? then ConvertAll(a.children, 0) else "";
    Bracketed("[", text, AttrOrEmpty(a, "href"), AttrOrEmpty(a, "title"))
  }

  /** The lines of a blockquote body: the non-blank lines, each prefixed with `> `, joined by newlines. */
  function QuoteLines(inner: string): string
  {
    Join(PrefixEach(NonBlank(SplitLines(inner))), "\n")
  }

  /** `filter(line => line.trim())`. */
  function NonBlank(lines: seq<string>): (r: seq<string>)
    ensures forall k :: 0 <= k < |r| ==> HasNonWhitespace(r[k]) && r[k] in lines
  {
    if |lines| == 0 then []
    else if HasNonWhitespace(lines[0]) then [lines[0]] + NonBlank(lines[1..])
    else NonBlank(lines[1..])
  }

  /** `map(line => '> ' + line)`. */
  function PrefixEach(lines: seq<string>): (r: seq<string>)
    ensures |r| == |lines|
    ensures forall k :: 0 <= k < |r| ==> r[k] == "> " + lines[k]
  {
    if |lines| == 0 then [] else ["> " + lines[0]] + PrefixEach(lines[1..])
  }

  // ---------------------------------------------------------------------
  // Lists
  // ---------------------------------------------------------------------

  predicate IsList(n: Node) { IsTag(n, "ul") || IsTag(n, "ol") }

  /** `listNode.children`: the element children. */
  function ElementChildren(cs: seq<Node>): seq<Node>
  {
    Filter(cs, (c: Node) => c.Element?)
  }

  /** The children that form an item's line: element children other than `ul` and `ol`. */
  function LineChildren(cs: seq<Node>): seq<Node>
  {
    Filter(cs, (c: Node) => c.Element? && !IsList(c))
  }

  /** `:scope > ul, :scope > ol`: the item's direct child lists. */
  function ChildLists(cs: seq<Node>): seq<Node>
  {
    Filter(cs, IsList)
  }

  /** `processListItems(list, level, marker, start)`: every element child is an item, numbered by its position. */
  function ListMd(list: Node, level: nat, m: Marker): string
    decreases Size(list), 1, 0
  {
    var items := ElementChildren(Children(list));
    ItemsMd(items, level, m, |items|)
  }

  /** The first `count` items, the item at position `k` numbered with index `k`. */
  function ItemsMd(items: seq<Node>, level: nat, m: Marker, count: nat): string
    requires count <= |items|
    decreases SizeAll(items), 4, count
  {
    if count == 0 then ""
    else
      ItemsMd(items, level, m, count - 1) + ItemMd(items[count - 1], level, m, count - 1)
  }

  /** An item's line text: its line children converted at the list's level, concatenated and trimmed. */
  function ItemText(li: Node, level: nat): string
    decreases Size(li), 2, 1
  {
    if li.Element? then Trim(ConvertAll(LineChildren(li.children), level)) else ""
  }

  /** One item: its line when that is not empty, then its direct child lists one level deeper. */
  function ItemMd(li: Node, level: nat, m: Marker, index: nat): string
    decreases Size(li), 3, 0
  {
    var main := ItemText(li, level);
    (if main != "" then Repeat("  ", level) + ItemPrefix(m, index) + main + "\n" else "")
    + (if li.Element? then var lists := ChildLists(li.children); NestedMd(lists, level + 1, |lists|) else "")
  }

  /** The first `count` child lists of an item, in order, each at the given level. */
  function NestedMd(lists: seq<Node>, level: nat, count: nat): string
    requires count <= |lists|
    decreases SizeAll(lists), 4, count
  {
    if count == 0 then ""
    else
      NestedMd(lists, level, count - 1) + ListMd(lists[count - 1], level, MarkerOf(lists[count - 1]))
  }

  // ---------------------------------------------------------------------
  // Tables
  // ---------------------------------------------------------------------

  predicate IsRow(n: Node) { IsTag(n, "tr") }
  predicate IsDataCell(n: Node) { IsTag(n, "td") }
  predicate IsAnyCell(n: Node) { IsTag(n, "th") || IsTag(n, "td") }

  /** The header texts: each cell's trimmed `textContent`. */
  function HeaderTexts(cells: seq<Node>): (r: seq<string>)
    ensures |r| == |cells|
    ensures forall i :: 0 <= i < |cells| ==> r[i] == Trim(TextContent(cells[i]))
  {
    if |cells| == 0 then [] else [Trim(TextContent(cells[0]))] + HeaderTexts(cells[1..])
  }

  /** One `---` per header cell. */
  function Dashes(k: nat): (r: seq<string>)
    ensures |r| == k && forall i :: 0 <= i < k ==> r[i] == "---"
  {
    if k == 0 then [] else ["---"] + Dashes(k - 1)
  }

  /** `processTable`. */
  function TableMd(table: Node): string
    decreases Size(table), 1, 0
  {
    var rows := QueryAll(table, IsRow);
    if |rows| == 0 then ""
    else
      var headers := HeaderTexts(QueryAll(rows[0], IsAnyCell));
      "\n" + HeaderLine(headers) + SeparatorLine(|headers|) + RowsMd(rows, Size(table), |rows|) + "\n"
  }

  /** `| h1 | h2 |`: the header texts joined by ` | ` between bars. */
  function HeaderLine(headers: seq<string>): string
  {
    "| " + Join(headers, " | ") + " |\n"
  }

  /** `| --- | --- |`: one `---` per header cell. */
  function SeparatorLine(k: nat): string
  {
    "| " + Join(Dashes(k), " | ") + " |\n"
  }

  /** The body rows `rows[1]` … `rows[count - 1]`, each a line of its `td` cells. */
  function RowsMd(rows: seq<Node>, bound: nat, count: nat): string
    requires 1 <= count <= |rows|
    requires forall i :: 0 <= i < |rows| ==> Size(rows[i]) < bound
    decreases bound, 0, count
  {
    if count == 1 then "" else RowsMd(rows, bound, count - 1) + RowMd(rows[count - 1])
  }

  /** One body row: `| ` + its `td` cells through `processInlineElements`, joined by ` | `, + ` |`. */
  function RowMd(row: Node): string
    decreases Size(row), 1, 0
  {
    "| " + Join(CellsMd(QueryAll(row, IsDataCell), Size(row)), " | ") + " |\n"
  }

  /** The `td` cells through `processInlineElements`, one text per cell. */
  function CellsMd(cells: seq<Node>, bound: nat): (r: seq<string>)
    requires forall i :: 0 <= i < |cells| ==> Size(cells[i]) < bound
    ensures |r| == |cells|
    decreases bound, 0, |cells|
  {
    if |cells| == 0 then []
    else
      assert cells[0].Element? ==> Size(cells[0]) == 1 + SizeAll(cells[0].children);
      [if cells[0].Element? then InlineAll(cells[0].children) else ""] + CellsMd(cells[1..], bound)
  }

  /** Cell `i` of a row is the `processInlineElements` text of the `i`-th `td`. */
  lemma {:induction false} CellsMdAt(cells: seq<Node>, bound: nat, i: nat)
    requires forall j :: 0 <= j < |cells| ==> Size(cells[j]) < bound
    requires i < |cells|
    ensures CellsMd(cells, bound)[i] == if cells[i].Element? then InlineAll(cells[i].children) else ""
    decreases i
  {
    if i > 0 {
      CellsMdAt(cells[1..], bound, i - 1);
      assert cells[1..][i - 1] == cells[i];
    }
  }
}
