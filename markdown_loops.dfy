/**
 * The two helpers of `convertNodeToMarkdown` that the source writes as
 * loops accumulating a string: `processListItems` appends one line per
 * item and then the item's nested lists, and `processTable` appends one
 * line per body row. Each method is proved to build exactly the string the
 * walk in module `Markdown` specifies.
 */
module MarkdownLoops {
  import opened Strings
  import opened Dom
  import opened Markdown
  import opened MarkdownLaws

  /** `processListItems(listNode, level, marker, start)`. */
  method ProcessListItems(list: Node, level: nat, m: Marker) returns (result: string)
    requires list.Element?
    ensures result == ListMd(list, level, m)
    decreases Size(list)
  {
    result := "";
    var indent := Repeat("  ", level);
    var items := ElementChildren(list.children);
    var index := 0;
    while index < |items|
      invariant 0 <= index <= |items|
      invariant result == ItemsMd(items, level, m, index)
    {
      var text := ProcessItem(items[index], level, m, index, indent);
      ItemsStep(items, level, m, index);
      result := result + text;
      index := index + 1;
    }
  }

  /**
   * The `forEach` callback of `processListItems` for the item `li` at
   * position `index`: the text it appends to `result`.
   */
  method ProcessItem(li: Node, level: nat, m: Marker, index: nat, indent: string) returns (text: string)
    requires li.Element? && indent == Repeat("  ", level)
    ensures text == ItemMd(li, level, m, index)
    decreases Size(li)
  {
    var main := ItemText(li, level);
    text := "";
    if main != "" {
      text := indent + ItemPrefix(m, index) + main + "\n";
    }
    var nested := ChildLists(li.children);
    var j := 0;
    var sublists := "";
    while j < |nested|
      invariant 0 <= j <= |nested|
      invariant sublists == NestedMd(nested, level + 1, j)
    {
      var sub := nested[j];
      var subMd := ProcessListItems(sub, level + 1, MarkerOf(sub));
      NestedStep(nested, level + 1, j);
      sublists := sublists + subMd;
      j := j + 1;
    }
    ItemSplit(li, level, m, index, j, sublists);
    text := text + sublists;
  }

  /** An item's text is its line, when it has one, followed by its nested lists. */
  lemma ItemSplit(li: Node, level: nat, m: Marker, index: nat, j: nat, sublists: string)
    requires li.Element?
    requires j == |ChildLists(li.children)| && sublists == NestedMd(ChildLists(li.children), level + 1, j)
    ensures var main := ItemText(li, level);
      ItemMd(li, level, m, index)
      == (if main != "" then Repeat("  ", level) + ItemPrefix(m, index) + main + "\n" else "") + sublists
  {
  }

  /** `processTable(table)`. */
  method ProcessTable(table: Node) returns (mdTable: string)
    ensures mdTable == TableMd(table)
  {
    var rows := QueryAll(table, IsRow);
    if |rows| == 0 {
      return "";
    }
    var bound := Size(table);
    var headers := HeaderTexts(QueryAll(rows[0], IsAnyCell));
    var head := "\n" + HeaderLine(headers) + SeparatorLine(|headers|);
    mdTable := head;
    var i := 1;
    while i < |rows|
      invariant 1 <= i <= |rows|
      invariant mdTable == head + RowsMd(rows, bound, i)
    {
      var tds := QueryAll(rows[i], IsDataCell);
      var rowBound := Size(rows[i]);
      var cells := CellsMd(tds, rowBound);
      var line := "| " + Join(cells, " | ") + " |\n";
      assert line == RowMd(rows[i]);
      RowsStep(rows, bound, i);
      AppendAssoc(head, RowsMd(rows, bound, i), line);
      mdTable := mdTable + line;
      i := i + 1;
    }
    mdTable := mdTable + "\n";
  }
}
