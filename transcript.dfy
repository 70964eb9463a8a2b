/**
 * The DeepSeek page exporter: `extractConversations` reads the turns of
 * the chat out of the page, `formatMarkdown` lays them out as a Markdown
 * transcript, and `enhancedHtmlToMarkdown` turns an answer's HTML into
 * Markdown. The page is a `Node` tree whose root stands for the document
 * element; the class names are the obfuscated ones the script targets.
 */
module Transcript {
  import opened Wrappers
  import opened Strings
  import opened Dom
  import opened Clean
  import opened Prepass
  import opened Markdown
  import opened MarkdownLaws

  const MessageClass := "dad65929"
  const UserPromptClass := "fa81"
  const AiAnswerClass := "f9bf7997"
  const AiThinkingClass := "e1675d8b"
  const AiResponseClass := "ds-markdown"
  const TitleClass := "d8ed659a"
  const DefaultTitle := "DeepSeek Chat"

  predicate IsContainer(n: Node) { HasClass(n, MessageClass) }
  predicate IsTitle(n: Node) { HasClass(n, TitleClass) }
  predicate IsThinking(n: Node) { HasClass(n, AiThinkingClass) }
  predicate IsResponse(n: Node) { HasClass(n, AiResponseClass) }

  /** A child of the container that yields an entry: a user prompt or an AI answer. */
  predicate IsTurnBlock(n: Node) { HasClass(n, UserPromptClass) || HasClass(n, AiAnswerClass) }

  /**
   * One entry of the `conversations` array. An answer keeps its cleaned
   * thinking text and the cleaned children of its response element, which
   * stand for the `innerHTML` string the source stores (empty when the
   * answer has no response element).
   */
  datatype Conversation =
    | User(prompt: string)
    | Ai(thinking: string, response: seq<Node>)

  // ---------------------------------------------------------------------
  // extractConversations
  // ---------------------------------------------------------------------

  /** `thinkingNode ? cleanContent(thinkingNode, 'thinking') : ''`. */
  function ThinkingOf(block: Node): string
  {
    match Query(block, IsThinking)
    case Some(t) => CleanThinking(t)
    case None => ""
  }

  /** `responseNode ? cleanContent(responseNode, 'response') : ''`, as the cleaned children. */
  function ResponseOf(block: Node): seq<Node>
  {
    match Query(block, IsResponse)
    case Some(r) => CleanResponse(r)
    case None => []
  }

  /** The entry a turn block yields: the user test comes first. */
  function Record(block: Node): Conversation
  {
    if HasClass(block, UserPromptClass) then User(CleanPrompt(block))
    else Ai(ThinkingOf(block), ResponseOf(block))
  }

  function RecordAll(turns: seq<Node>): (r: seq<Conversation>)
    ensures |r| == |turns|
    ensures forall i :: 0 <= i < |turns| ==> r[i] == Record(turns[i])
  {
    seq(|turns|, i requires 0 <= i < |turns| => Record(turns[i]))
  }

  /** The entries of a list of blocks: one per turn block, in document order; every other child is skipped. */
  function Conversations(blocks: seq<Node>): seq<Conversation>
  {
    RecordAll(Filter(blocks, IsTurnBlock))
  }

  /** What `extractConversations` resolves to: nothing when the page has no container. */
  function Extracted(doc: Node): seq<Conversation>
  {
    match QueryDocument(doc, IsContainer)
    case Some(c) => Conversations(Children(c))
    case None => []
  }

  /** One more block adds its entry when it is a turn block and nothing otherwise. */
  lemma ConversationsSnoc(blocks: seq<Node>, b: Node)
    ensures Conversations(blocks + [b])
            == Conversations(blocks) + (if IsTurnBlock(b) then [Record(b)] else [])
  {
    FilterSnoc(blocks, b, IsTurnBlock);
  }

  lemma ConversationsStep(blocks: seq<Node>, i: nat)
    requires i < |blocks|
    ensures Conversations(blocks[..i + 1])
            == Conversations(blocks[..i]) + (if IsTurnBlock(blocks[i]) then [Record(blocks[i])] else [])
  {
    assert blocks[..i + 1] == blocks[..i] + [blocks[i]];
    ConversationsSnoc(blocks[..i], blocks[i]);
  }

  /** `extractConversations()`: the `forEach` over the container's child nodes. */
  method ExtractConversations(doc: Node) returns (conversations: seq<Conversation>)
    ensures conversations == Extracted(doc)
  {
    conversations := [];
    var container := QueryDocument(doc, IsContainer);
    if container.None? {
      return;
    }
    var blocks := Children(container.value);
    var i := 0;
    while i < |blocks|
      invariant 0 <= i <= |blocks|
      invariant conversations == Conversations(blocks[..i])
    {
      var block := blocks[i];
      ConversationsStep(blocks, i);
      if HasClass(block, UserPromptClass) {
        conversations := conversations + [User(CleanPrompt(block))];
      } else if HasClass(block, AiAnswerClass) {
        var thinking := ThinkingOf(block);
        var response := ResponseOf(block);
        conversations := conversations + [Ai(thinking, response)];
      }
      i := i + 1;
    }
    assert blocks[..i] == blocks;
  }

  /**
   * The `i`-th entry comes from the `i`-th turn block: it is a user entry
   * exactly when that block carries the user-prompt class, and its text is
   * that block's cleaned prompt; otherwise it is an answer built from the
   * block's thinking and response elements.
   */
  lemma EntryOfTurn(blocks: seq<Node>, i: nat)
    requires i < |Filter(blocks, IsTurnBlock)|
    ensures var b := Filter(blocks, IsTurnBlock)[i]; var e := Conversations(blocks)[i];
      b in blocks && IsTurnBlock(b)
      && (e.User? <==> HasClass(b, UserPromptClass))
      && (e.User? ==> e.prompt == CleanPrompt(b))
      && (e.Ai? ==> e.thinking == ThinkingOf(b) && e.response == ResponseOf(b))
  {
    var turns := Filter(blocks, IsTurnBlock);
    FilterMembers(blocks, IsTurnBlock);
    assert turns[i] in turns;
  }

  /** A missing response element and one that serializes to `''` both make the answer's response falsy. */
  lemma ResponseTruthy(block: Node)
    ensures var r := Query(block, IsResponse);
      (r.Some? && InnerHtml(StripNoise(r.value)) != "") <==> HasResponse(ResponseOf(block))
  {
    match Query(block, IsResponse)
    case Some(r) =>
      SerializeAllEmpty(CleanResponse(r), r.tag);
    case None =>
  }

  // ---------------------------------------------------------------------
  // enhancedHtmlToMarkdown
  // ---------------------------------------------------------------------

  /** The stored response string is non-empty: some child is not an empty text node. */
  predicate HasResponse(response: seq<Node>) {
    exists k :: 0 <= k < |response| && response[k] != Text("")
  }

  /** `enhancedHtmlToMarkdown(html)`, given the nodes `html` parses to. */
  function EnhancedHtmlToMarkdown(cs: seq<Node>): string
  {
    Trim(ConvertAll(Prepass.Prepass(cs), 0))
  }

  /** The fenced block a code block turns into, without the blank lines around it. */
  function Fence(lang: string, code: string): string
  {
    "```" + lang + "\n" + code + "\n```"
  }

  /** An answer that is one code block becomes its fence, with the code verbatim. */
  lemma LoneCodeBlock(block: Node)
    requires HasClass(block, "md-code-block")
    ensures EnhancedHtmlToMarkdown([block]) == Fence(CodeLanguage(block), CodeText(block))
  {
    var lang, code := CodeLanguage(block), CodeText(block);
    var t := "\n\n```" + lang + "\n" + code + "\n```\n\n";
    PrepassLoneBlock(block);
    LoneText(t);
    FenceTrim(lang, code);
  }

  lemma PrepassLoneBlock(block: Node)
    requires HasClass(block, "md-code-block")
    ensures Prepass.Prepass([block])
            == [Text("\n\n```" + CodeLanguage(block) + "\n" + CodeText(block) + "\n```\n\n")]
  {
    PrepassCodeBlockVerbatim([block], 0);
  }

  /** Trimming the padded fence, once or twice, leaves the fence. */
  lemma FenceTrim(lang: string, code: string)
    ensures var f := Fence(lang, code);
      Trim("\n\n```" + lang + "\n" + code + "\n```\n\n") == f && Trim(f) == f
  {
    var f := Fence(lang, code);
    FencePadding(lang, code);
    TrimAround("\n\n", f, "\n\n");
    TrimNoEdgeWhitespace(f);
  }

  /** The replacement text of a code block is its fence between two blank lines. */
  lemma FencePadding(lang: string, code: string)
    ensures "\n\n```" + lang + "\n" + code + "\n```\n\n" == "\n\n" + Fence(lang, code) + "\n\n"
  {
  }

  /** A lone text node converts to its trimmed text. */
  lemma LoneText(d: string)
    ensures ConvertAll([Text(d)], 0) == Trim(d)
  {
    assert [Text(d)][1..] == [];
  }

  /**
   * An answer whose text is split by an icon: `<p>a <span class="ds-icon"></span>b</p>`.
   * Removing the icon leaves two text nodes; the stored `innerHTML` reads
   * `<p>a b</p>`, which parses back to one text node, so the space survives
   * the trimming of text nodes.
   */
  lemma IconSplitAnswer()
    ensures var span := Element("span", [Attr("class", "ds-icon")], []);
      var answer := Element("div", [Attr("class", "ds-markdown")], [Element("p", [], [Text("a "), span, Text("b")])]);
      EnhancedHtmlToMarkdown(CleanResponse(answer)) == "a b"
  {
    var span := Element("span", [Attr("class", "ds-icon")], []);
    var answer := Element("div", [Attr("class", "ds-markdown")], [Element("p", [], [Text("a "), span, Text("b")])]);
    IconIsNoise(span);
    var stripped := StripResponse(answer, span);
    var q := Element("p", [], [Text("a b")]);
    JoinedParagraph(stripped, q);
    JoinedParagraphText(q);
  }

  lemma IconIsNoise(span: Node)
    requires span == Element("span", [Attr("class", "ds-icon")], [])
    ensures IsNoise(span)
  {
    assert "ds-icon"[0..7] == "ds-icon";
    assert IsRunAt("ds-icon", "ds-icon", 0);
    ClassTokensAreRuns("ds-icon", "ds-icon");
  }

  lemma StripResponse(answer: Node, span: Node) returns (stripped: seq<Node>)
    requires IsNoise(span)
    requires answer == Element("div", [Attr("class", "ds-markdown")], [Element("p", [], [Text("a "), span, Text("b")])])
    ensures stripped == StripNoise(answer).children && stripped == [Element("p", [], [Text("a "), Text("b")])]
  {
    var cs := [Text("a "), span, Text("b")];
    assert StripAll(cs[2..]) == [Text("b")];
    assert cs[1..][1..] == cs[2..];
    assert StripAll(cs[1..]) == [Text("b")];
    assert StripAll(cs) == [Text("a "), Text("b")];
    var p := Element("p", [], cs);
    assert !IsNoise(p);
    assert StripAll([p]) == [StripNoise(p)];
    stripped := StripNoise(answer).children;
  }

  lemma JoinedParagraph(stripped: seq<Node>, q: Node)
    requires stripped == [Element("p", [], [Text("a "), Text("b")])] && q == Element("p", [], [Text("a b")])
    ensures NormalizeAll(stripped) == [q]
  {
    var ts := [Text("a "), Text("b")];
    assert NormalizeAll(ts[1..]) == [Text("b")];
    assert MergeText(Text("a "), [Text("b")]) == [Text("a b")] by {
      assert "a " + "b" == "a b";
      assert [Text("b")][1..] == [];
    }
    assert NormalizeAll(ts) == [Text("a b")];
    assert NormalizeAll(stripped) == [q];
  }

  lemma JoinedParagraphText(q: Node)
    requires q == Element("p", [], [Text("a b")])
    ensures EnhancedHtmlToMarkdown([q]) == "a b"
  {
    ParagraphUntouched(q);
    ParagraphConverts(q);
    TrimAround("", "a b", "\n");
    assert "" + "a b" + "\n" == "a b\n";
  }

  lemma ParagraphUntouched(q: Node)
    requires q == Element("p", [], [Text("a b")])
    ensures Prepass.Prepass([q]) == [q]
  {
    PrepassDescends([q], 0);
    assert Prepass.Prepass([Text("a b")]) == [Text("a b")];
  }

  lemma ParagraphConverts(q: Node)
    requires q == Element("p", [], [Text("a b")])
    ensures ConvertAll([q], 0) == "a b\n"
  {
    TrimNoEdgeWhitespace("a b");
    assert [Text("a b")][1..] == [];
    assert [q][1..] == [];
  }

  // ---------------------------------------------------------------------
  // formatMarkdown
  // ---------------------------------------------------------------------

  /** The title: the trimmed text of the title element, or the default when there is none. */
  function Title(doc: Node): string
  {
    match QueryDocument(doc, IsTitle)
    case Some(t) => Trim(TextContent(t))
    case None => DefaultTitle
  }

  /** `> ` + lead + the lines of `text` joined by `\n> `. */
  function Quoted(lead: string, text: string): string
  {
    "> " + lead + Join(SplitLines(text), "\n> ")
  }

  /** What the `forEach` callback appends for the entry at position `idx`. */
  function TurnMd(c: Conversation, idx: nat): string
  {
    match c
    case User(p) =>
      (if idx > 0 then "\n---\n" else "") + "\n" + Quoted("**User:** ", p) + "\n\n"
    case Ai(t, r) =>
      (if t != "" then "\n" + Quoted("**Assistant (thinking):** ", t) + "\n" else "")
      + (if HasResponse(r) then "\n" + EnhancedHtmlToMarkdown(r) + "\n" else "")
  }

  /** The first `count` entries, each laid out with its own position. */
  function TurnsMd(convs: seq<Conversation>, count: nat): string
    requires count <= |convs|
  {
    ConcatIndexed(convs, TurnMd, count)
  }

  function Header(title: string): string
  {
    "# " + title + "\n\n"
  }

  /** The transcript `formatMarkdown` returns. */
  function TranscriptMd(doc: Node, convs: seq<Conversation>): string
  {
    Header(Title(doc)) + TurnsMd(convs, |convs|)
  }

  /** `formatMarkdown(conversations)`. */
  method FormatMarkdown(doc: Node, conversations: seq<Conversation>) returns (md: string)
    ensures md == TranscriptMd(doc, conversations)
  {
    var titleElement := QueryDocument(doc, IsTitle);
    var title := if titleElement.Some? then Trim(TextContent(titleElement.value)) else DefaultTitle;
    var head := "# " + title + "\n\n";
    md := head;
    var idx := 0;
    while idx < |conversations|
      invariant 0 <= idx <= |conversations|
      invariant md == head + TurnsMd(conversations, idx)
    {
      var turn := FormatTurn(conversations[idx], idx);
      TurnStep(head, conversations, idx, md, turn);
      md := md + turn;
      idx := idx + 1;
    }
  }

  /** Appending the text of entry `idx` extends the transcript by that entry. */
  lemma TurnStep(head: string, convs: seq<Conversation>, idx: nat, md: string, turn: string)
    requires idx < |convs| && md == head + TurnsMd(convs, idx) && turn == TurnMd(convs[idx], idx)
    ensures md + turn == head + TurnsMd(convs, idx + 1)
  {
    TurnsStep(convs, idx);
    AppendAssoc(head, TurnsMd(convs, idx), turn);
  }

  lemma TurnsStep(convs: seq<Conversation>, idx: nat)
    requires idx < |convs|
    ensures TurnsMd(convs, idx + 1) == TurnsMd(convs, idx) + TurnMd(convs[idx], idx)
  {
  }

  /** The `forEach` callback of `formatMarkdown`: what it appends for the entry at `idx`. */
  method FormatTurn(conv: Conversation, idx: nat) returns (turn: string)
    ensures turn == TurnMd(conv, idx)
  {
    match conv {
      case User(p) =>
        var separator := if idx > 0 then "\n---\n" else "";
        var lines := SplitLines(p);
        turn := separator + "\n" + ("> " + "**User:** " + Join(lines, "\n> ")) + "\n\n";
      case Ai(t, r) =>
        var thinking := "";
        if t != "" {
          var thoughts := SplitLines(t);
          thinking := "\n" + ("> " + "**Assistant (thinking):** " + Join(thoughts, "\n> ")) + "\n";
        }
        var answer := "";
        if HasResponse(r) {
          answer := "\n" + EnhancedHtmlToMarkdown(r) + "\n";
        }
        turn := thinking + answer;
    }
  }

  // ---------------------------------------------------------------------
  // Properties of the transcript
  // ---------------------------------------------------------------------

  /**
   * A quoted block is a Markdown block quote: each of its lines is `> `
   * followed by the matching line of the lead and the text, so a prompt of
   * several lines stays inside one quote.
   */
  lemma QuotedLines(lead: string, text: string)
    requires '\n' !in lead
    ensures SplitLines(Quoted(lead, text)) == PrefixEach(SplitLines(lead + text))
  {
    var lines := SplitLines(text);
    var led := SplitLines(lead + text);
    SplitLinesPrepend(lead, text);
    JoinPrependFirst(lead, lines, "\n> ");
    AppendAssoc("> ", lead, Join(lines, "\n> "));
    JoinQuoted(led);
    forall k | 0 <= k < |PrefixEach(led)|
      ensures '\n' !in PrefixEach(led)[k]
    {
      assert PrefixEach(led)[k] == "> " + led[k];
    }
    SplitLinesJoin(PrefixEach(led));
  }

  /** The lines of `lead + text`: the lead joins the first line of `text`. */
  lemma {:induction false} SplitLinesPrepend(lead: string, text: string)
    requires '\n' !in lead
    ensures var lines := SplitLines(text);
      SplitLines(lead + text) == [lead + lines[0]] + lines[1..]
  {
    if |lead| > 0 {
      SplitLinesPrepend(lead[1..], text);
      assert (lead + text)[1..] == lead[1..] + text;
      assert (lead + text)[0] == lead[0];
      assert [lead[0]] + (lead[1..] + SplitLines(text)[0]) == lead + SplitLines(text)[0];
    } else {
      assert lead + text == text;
      assert lead + SplitLines(text)[0] == SplitLines(text)[0];
      assert [SplitLines(text)[0]] + SplitLines(text)[1..] == SplitLines(text);
    }
  }

  /** Gluing a prefix onto the first part glues it onto the joined string. */
  lemma JoinPrependFirst(lead: string, parts: seq<string>, sep: string)
    requires |parts| >= 1
    ensures Join([lead + parts[0]] + parts[1..], sep) == lead + Join(parts, sep)
  {
    var glued := [lead + parts[0]] + parts[1..];
    assert glued[0] == lead + parts[0];
    if |parts| > 1 {
      assert glued[1..] == parts[1..];
      AppendAssoc(lead + parts[0], sep, Join(parts[1..], sep));
      AppendAssoc(lead, parts[0], sep + Join(parts[1..], sep));
      AppendAssoc(parts[0], sep, Join(parts[1..], sep));
    }
  }

  /** `'> ' + parts.join('\n> ')` is the parts, each behind `> `, joined by newlines. */
  lemma {:induction false} JoinQuoted(parts: seq<string>)
    requires |parts| >= 1
    ensures "> " + Join(parts, "\n> ") == Join(PrefixEach(parts), "\n")
  {
    var quoted := PrefixEach(parts);
    if |parts| > 1 {
      JoinQuoted(parts[1..]);
      assert quoted[1..] == PrefixEach(parts[1..]);
      var rest := Join(parts[1..], "\n> ");
      QuoteStep(parts[0], rest);
    }
  }

  lemma QuoteStep(first: string, rest: string)
    ensures "> " + (first + "\n> " + rest) == ("> " + first) + "\n" + ("> " + rest)
  {
  }

  /** A user entry is preceded by the `---` rule exactly when it is not the first entry. */
  lemma SeparatorOnlyAfterFirst(p: string, idx: nat)
    ensures "\n---\n" <= TurnMd(User(p), idx) <==> idx > 0
  {
    var q := Quoted("**User:** ", p);
    var body := "\n" + q + "\n\n";
    if idx > 0 {
      PrefixAppend("\n---\n", "\n---\n", body);
    } else {
      var t := TurnMd(User(p), idx);
      assert t == "" + "\n" + q + "\n\n";
      QuotedOpens("**User:** ", p);
      SecondChar(t, q);
      assert "\n---\n"[1] == '-';
    }
  }

  lemma QuotedOpens(lead: string, text: string)
    ensures |Quoted(lead, text)| >= 2 && Quoted(lead, text)[0] == '>'
  {
    var s := "> " + lead;
    assert s[0] == '>';
    assert Quoted(lead, text) == s + Join(SplitLines(text), "\n> ");
  }

  lemma SecondChar(t: string, q: string)
    requires t == "" + "\n" + q + "\n\n" && |q| > 0
    ensures |t| > 1 && t[1] == q[0]
  {
    assert t == "\n" + (q + "\n\n");
  }

  /** An answer adds nothing to the transcript exactly when it has neither thinking nor a response. */
  lemma SilentAnswer(t: string, r: seq<Node>, idx: nat)
    ensures TurnMd(Ai(t, r), idx) == "" <==> t == "" && !HasResponse(r)
  {
  }

  /** The transcript opens with the title heading; with no entries it is that heading alone. */
  lemma TranscriptOpensWithTitle(doc: Node, convs: seq<Conversation>)
    ensures Header(Title(doc)) <= TranscriptMd(doc, convs)
    ensures convs == [] ==> TranscriptMd(doc, convs) == Header(Title(doc))
  {
    PrefixAppend(Header(Title(doc)), Header(Title(doc)), TurnsMd(convs, |convs|));
  }

  /** Every entry appears in the transcript, in order, right after the ones before it. */
  lemma EntryInOrder(doc: Node, convs: seq<Conversation>, i: nat)
    requires i < |convs|
    ensures Header(Title(doc)) + TurnsMd(convs, i) + TurnMd(convs[i], i) <= TranscriptMd(doc, convs)
  {
    ConcatIndexedEntryPrefix(Header(Title(doc)), convs, TurnMd, i);
  }
}
