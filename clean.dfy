/**
 * `cleanContent`: the noise filter that removes UI chrome from a cloned
 * message node, and the three per-role cleaners applied to the clone —
 * the prompt cleaner (newline collapsing, trimming, HTML escaping), the
 * thinking cleaner (tag stripping with regular expressions, written out
 * here as character-level scans) and the response cleaner (the clone's
 * HTML, kept as its parsed child list).
 */
module Clean {
  import opened Strings
  import opened Dom

  // ---------------------------------------------------------------------
  // Noise stripping
  // ---------------------------------------------------------------------

  /** The selector `button, .ds-flex, .ds-icon, .ds-icon-button, .ds-button, svg`. */
  predicate IsNoise(n: Node) {
    IsTag(n, "button") || IsTag(n, "svg")
    || HasClass(n, "ds-flex") || HasClass(n, "ds-icon")
    || HasClass(n, "ds-icon-button") || HasClass(n, "ds-button")
  }

  /**
   * The clone after `querySelectorAll(noise).forEach(el => el.remove())`:
   * the query only sees descendants, so the root stays whatever it is,
   * and every matching descendant goes together with its subtree.
   */
  function StripNoise(n: Node): (r: Node)
    ensures n.Text? ==> r == n
    ensures n.Element? ==> r.Element? && r.tag == n.tag && r.attrs == n.attrs
    decreases Size(n), 1
  {
    match n
    case Text(_) => n
    case Element(tag, attrs, cs) => Element(tag, attrs, StripAll(cs))
  }

  function StripAll(cs: seq<Node>): seq<Node>
    decreases SizeAll(cs), 2
  {
    if |cs| == 0 then []
    else if IsNoise(cs[0]) then StripAll(cs[1..])
    else [StripNoise(cs[0])] + StripAll(cs[1..])
  }

  /** After stripping, no descendant of the clone is a button, an svg or carries a noise class. */
  lemma {:induction false} StripNoiseRemovesAllNoise(n: Node)
    ensures forall d :: d in Descendants(StripNoise(n)) ==> !IsNoise(d)
    decreases Size(n), 1
  {
    if n.Element? {
      StripAllRemovesAllNoise(n.children);
    }
  }

  lemma {:induction false} StripAllRemovesAllNoise(cs: seq<Node>)
    ensures forall d :: d in DescendantsAll(StripAll(cs)) ==> !IsNoise(d)
    decreases SizeAll(cs), 2
  {
    if |cs| > 0 {
      StripAllRemovesAllNoise(cs[1..]);
      if !IsNoise(cs[0]) {
        StripNoiseRemovesAllNoise(cs[0]);
        var s := StripNoise(cs[0]);
        assert !IsNoise(s);
        assert DescendantsAll(StripAll(cs)) == [s] + Descendants(s) + DescendantsAll(StripAll(cs[1..]));
      }
    }
  }

  /** A subtree without noise descendants comes out of the filter unchanged. */
  lemma {:induction false} StripNoiseKeepsCleanTree(n: Node)
    requires forall d :: d in Descendants(n) ==> !IsNoise(d)
    ensures StripNoise(n) == n
    decreases Size(n), 1
  {
    if n.Element? {
      StripAllKeepsCleanTrees(n.children);
    }
  }

  lemma {:induction false} StripAllKeepsCleanTrees(cs: seq<Node>)
    requires forall d :: d in DescendantsAll(cs) ==> !IsNoise(d)
    ensures StripAll(cs) == cs
    decreases SizeAll(cs), 2
  {
    if |cs| > 0 {
      assert DescendantsAll(cs) == [cs[0]] + Descendants(cs[0]) + DescendantsAll(cs[1..]);
      StripNoiseKeepsCleanTree(cs[0]);
      StripAllKeepsCleanTrees(cs[1..]);
      assert [cs[0]] + cs[1..] == cs;
    }
  }

  /** Stripping twice is the same as stripping once. */
  lemma StripNoiseIdempotent(n: Node)
    ensures StripNoise(StripNoise(n)) == StripNoise(n)
  {
    StripNoiseRemovesAllNoise(n);
    StripNoiseKeepsCleanTree(StripNoise(n));
  }

  // ---------------------------------------------------------------------
  // Newline runs, shared by the prompt and thinking cleaners
  // ---------------------------------------------------------------------

  /** The string has no two newlines in a row. */
  predicate NoBlankLine(s: string) {
    forall i :: 0 < i < |s| ==> !(s[i - 1] == '\n' && s[i] == '\n')
  }

  /** `replace(/\n{2,}/g, '\n')`, equivalently `replace(/\n+/g, '\n')`: every run of newlines becomes one. */
  function CollapseNewlines(s: string): (r: string)
    ensures NoBlankLine(r)
    ensures |s| > 0 ==> |r| > 0 && r[0] == s[0]
  {
    if |s| == 0 then ""
    else if |s| >= 2 && s[0] == '\n' && s[1] == '\n' then CollapseNewlines(s[1..])
    else
      var rest := CollapseNewlines(s[1..]);
      assert forall i :: 1 < i < |rest| + 1 ==> ([s[0]] + rest)[i] == rest[i - 1];
      [s[0]] + rest
  }

  /** Each run of newlines leaves exactly one: a run one newline longer collapses to the same text. */
  lemma {:induction false} CollapseLongerRun(x: string, y: string)
    ensures CollapseNewlines(x + "\n\n" + y) == CollapseNewlines(x + "\n" + y)
  {
    var a, b := x + "\n\n" + y, x + "\n" + y;
    if |x| == 0 {
      assert a[1..] == b;
    } else {
      assert a[0] == b[0] && a[1] == b[1];
      assert a[1..] == x[1..] + "\n\n" + y && b[1..] == x[1..] + "\n" + y;
      CollapseLongerRun(x[1..], y);
    }
  }

  /** Every character that is not a newline. */
  function WithoutNewlines(s: string): string
  {
    if |s| == 0 then "" else (if s[0] == '\n' then "" else [s[0]]) + WithoutNewlines(s[1..])
  }

  /** Collapsing removes newlines only: all other characters survive in order. */
  lemma {:induction false} CollapseNewlinesRemovesOnlyNewlines(s: string)
    ensures WithoutNewlines(CollapseNewlines(s)) == WithoutNewlines(s)
  {
    if |s| > 0 {
      CollapseNewlinesRemovesOnlyNewlines(s[1..]);
      if !(|s| >= 2 && s[0] == '\n' && s[1] == '\n') {
        var rest := CollapseNewlines(s[1..]);
        assert ([s[0]] + rest)[1..] == rest;
      }
    }
  }

  /** A string with no newline runs is left as it is. */
  lemma {:induction false} CollapseNewlinesFixesSingleNewlines(s: string)
    requires NoBlankLine(s)
    ensures CollapseNewlines(s) == s
  {
    if |s| > 0 {
      assert NoBlankLine(s[1..]) by {
        forall i | 0 < i < |s| - 1 ensures !(s[1..][i - 1] == '\n' && s[1..][i] == '\n') {
          assert s[1..][i - 1] == s[i] && s[1..][i] == s[i + 1];
        }
      }
      CollapseNewlinesFixesSingleNewlines(s[1..]);
      if |s| >= 2 {
        assert !(s[0] == '\n' && s[1] == '\n');
      }
      assert [s[0]] + s[1..] == s;
    }
  }

  /** Any slice of a string without newline runs has none either (so trimming keeps the property). */
  lemma NoBlankLineSlice(s: string, i: nat, j: nat)
    requires NoBlankLine(s) && i <= j <= |s|
    ensures NoBlankLine(s[i..j])
  {
    forall k | 0 < k < j - i ensures !(s[i..j][k - 1] == '\n' && s[i..j][k] == '\n') {
      assert s[i..j][k - 1] == s[i + k - 1] && s[i..j][k] == s[i + k];
    }
  }

  // ---------------------------------------------------------------------
  // Prompt cleaner
  // ---------------------------------------------------------------------

  /** `replace(/[<>&]/g, ...)`: one pass that maps `<`, `>` and `&` to `&lt;`, `&gt;` and `&amp;`. */
  function EscapeHtml(s: string): (r: string)
    ensures '<' !in r && '>' !in r
    ensures |s| > 0 ==> |r| > 0 && (r[0] == '\n' <==> s[0] == '\n') && (r[0] == '&' || r[0] == s[0])
  {
    if |s| == 0 then "" else EscapeChar(s[0]) + EscapeHtml(s[1..])
  }

  /** The replacement of one character: `&lt;`, `&gt;`, `&amp;`, or the character itself. */
  function EscapeChar(c: char): (r: string)
    ensures |r| > 0 && '<' !in r && '>' !in r && '\n' !in r[1..]
    ensures (r[0] == '\n' <==> c == '\n') && (r[0] == '&' || r == [c])
  {
    if c == '<' then "&lt;" else if c == '>' then "&gt;" else if c == '&' then "&amp;" else [c]
  }

  /** Decoding of the three character references the escaper produces; every other character is copied. */
  function UnescapeHtml(s: string): string
  {
    if |s| == 0 then ""
    else if |s| >= 4 && s[..4] == "&lt;" then "<" + UnescapeHtml(s[4..])
    else if |s| >= 4 && s[..4] == "&gt;" then ">" + UnescapeHtml(s[4..])
    else if |s| >= 5 && s[..5] == "&amp;" then "&" + UnescapeHtml(s[5..])
    else [s[0]] + UnescapeHtml(s[1..])
  }

  /** Decoding the escaped text gives the text back: the escaping is a single pass, never a double one. */
  lemma {:induction false} UnescapeEscape(s: string)
    ensures UnescapeHtml(EscapeHtml(s)) == s
  {
    if |s| > 0 {
      UnescapeEscape(s[1..]);
      UnescapeEscapeChar(s[0], EscapeHtml(s[1..]));
      assert s == [s[0]] + s[1..];
    }
  }

  lemma UnescapeEscapeChar(c: char, rest: string)
    ensures UnescapeHtml(EscapeChar(c) + rest) == [c] + UnescapeHtml(rest)
  {
    if c == '<' {
      UnescapeLt(rest);
    } else if c == '>' {
      UnescapeGt(rest);
    } else if c == '&' {
      UnescapeAmp(rest);
    } else {
      UnescapePlain(c, rest);
    }
  }

  lemma UnescapeLt(rest: string)
    ensures UnescapeHtml("&lt;" + rest) == "<" + UnescapeHtml(rest)
  {
    var e := "&lt;" + rest;
    assert e[..4] == "&lt;" && e[4..] == rest;
  }

  lemma UnescapeGt(rest: string)
    ensures UnescapeHtml("&gt;" + rest) == ">" + UnescapeHtml(rest)
  {
    var e := "&gt;" + rest;
    assert e[..4] == "&gt;" && e[4..] == rest;
  }

  lemma UnescapeAmp(rest: string)
    ensures UnescapeHtml("&amp;" + rest) == "&" + UnescapeHtml(rest)
  {
    var e := "&amp;" + rest;
    assert e[..5] == "&amp;" && e[5..] == rest;
    assert e[..4] != "&lt;" && e[..4] != "&gt;" by { assert e[1] == 'a'; }
  }

  /** A character the escaper leaves alone is copied back unchanged. */
  lemma UnescapePlain(c: char, rest: string)
    requires c != '<' && c != '>' && c != '&'
    ensures UnescapeHtml([c] + rest) == [c] + UnescapeHtml(rest)
  {
    var e := [c] + rest;
    assert e[0] == c && e[1..] == rest;
    assert |e| >= 4 ==> e[..4] != "&lt;" && e[..4] != "&gt;" by { assert "&lt;"[0] == '&'; }
    assert |e| >= 5 ==> e[..5] != "&amp;";
  }

  /** Escaping never creates a newline run. */
  lemma {:induction false} EscapeKeepsNoBlankLine(s: string)
    requires NoBlankLine(s)
    ensures NoBlankLine(EscapeHtml(s))
  {
    if |s| > 0 {
      assert NoBlankLine(s[1..]) by { NoBlankLineSlice(s, 1, |s|); }
      EscapeKeepsNoBlankLine(s[1..]);
      var head := EscapeChar(s[0]);
      var rest := EscapeHtml(s[1..]);
      var e := head + rest;
      forall i | 0 < i < |e| ensures !(e[i - 1] == '\n' && e[i] == '\n') {
        if i > |head| {
          assert e[i - 1] == rest[i - 1 - |head|] && e[i] == rest[i - |head|];
        } else if i == |head| {
          if |rest| > 0 && rest[0] == '\n' {
            assert s[1] == '\n';
            assert s[0] != '\n';
            assert e[i - 1] == head[|head| - 1];
            assert |head| > 1 ==> head[|head| - 1] == head[1..][|head| - 2];
          }
        } else {
          assert e[i] == head[i] == head[1..][i - 1];
        }
      }
    }
  }

  /** The prompt text: the clone's `textContent` with newline runs collapsed, then trimmed. */
  function PromptText(n: Node): string
  {
    Trim(CollapseNewlines(TextContent(StripNoise(n))))
  }

  /** `cleanContent(node, 'prompt')`. */
  function CleanPrompt(n: Node): string
  {
    EscapeHtml(PromptText(n))
  }

  /**
   * The cleaned prompt holds no raw `<` or `>`, no blank line, and decoding
   * its three character references recovers the collapsed, trimmed text.
   */
  lemma CleanPromptProperties(n: Node)
    ensures '<' !in CleanPrompt(n) && '>' !in CleanPrompt(n)
    ensures NoBlankLine(CleanPrompt(n))
    ensures UnescapeHtml(CleanPrompt(n)) == PromptText(n)
  {
    var c := CollapseNewlines(TextContent(StripNoise(n)));
    var k := TrimIsSlice(c);
    NoBlankLineSlice(c, k, k + |Trim(c)|);
    EscapeKeepsNoBlankLine(PromptText(n));
    UnescapeEscape(PromptText(n));
  }

  // ---------------------------------------------------------------------
  // Thinking cleaner
  // ---------------------------------------------------------------------

  predicate IsP(c: char) { c == 'p' || c == 'P' }

  /** `replace(/<\/p>/gi, '\n')`. */
  function ReplaceParagraphEnds(s: string): string
  {
    if |s| == 0 then ""
    else if |s| >= 4 && s[0] == '<' && s[1] == '/' && IsP(s[2]) && s[3] == '>' then "\n" + ReplaceParagraphEnds(s[4..])
    else [s[0]] + ReplaceParagraphEnds(s[1..])
  }

  /** The number of leading characters matched by `\s*`. */
  function WhitespaceRun(s: string): (k: nat)
    ensures k <= |s|
    ensures forall i :: 0 <= i < k ==> IsJsWhitespace(s[i])
    ensures k < |s| ==> !IsJsWhitespace(s[k])
  {
    if |s| > 0 && IsJsWhitespace(s[0]) then 1 + WhitespaceRun(s[1..]) else 0
  }

  /** The length of a match of `<br\s*\/?>` (case-insensitive) at the start of `s`, or 0 when none starts there. */
  function BreakTagLength(s: string): (m: nat)
    ensures m <= |s|
    ensures m > 0 ==> m >= 4 && s[0] == '<' && s[m - 1] == '>'
  {
    if |s| >= 3 && s[0] == '<' && (s[1] == 'b' || s[1] == 'B') && (s[2] == 'r' || s[2] == 'R') then
      var k := 3 + WhitespaceRun(s[3..]);
      if k < |s| && s[k] == '>' then k + 1
      else if k + 1 < |s| && s[k] == '/' && s[k + 1] == '>' then k + 2
      else 0
    else 0
  }

  /** `replace(/<br\s*\/?>/gi, '\n')`. */
  function ReplaceBreaks(s: string): string
    decreases |s|
  {
    if |s| == 0 then ""
    else if BreakTagLength(s) > 0 then "\n" + ReplaceBreaks(s[BreakTagLength(s)..])
    else [s[0]] + ReplaceBreaks(s[1..])
  }

  /**
   * `replace(/<\/?[^>]+>/g, '')`: a `<` followed by at least one character
   * and then the first `>` is deleted together with everything between.
   * (`\/?` adds nothing: a `/` is itself one of the `[^>]` characters.)
   */
  function StripTags(s: string): (r: string)
    ensures forall c :: c in r ==> c in s
  {
    if |s| == 0 then ""
    else if s[0] == '<' && 1 <= IndexOf(s[1..], '>') < |s| - 1 then StripTags(s[IndexOf(s[1..], '>') + 2..])
    else [s[0]] + StripTags(s[1..])
  }

  /** The tag pattern matches at position `i` of `s`. */
  predicate TagAt(s: string, i: nat)
    requires i < |s|
  {
    s[i] == '<' && i + 1 < |s| && s[i + 1] != '>' && '>' in s[i + 2..]
  }

  /** After the tag pass, the pattern matches nowhere: no tag survives it. */
  lemma {:induction false} StripTagsLeavesNoTag(s: string)
    ensures forall i :: 0 <= i < |StripTags(s)| ==> !TagAt(StripTags(s), i)
  {
    if |s| > 0 {
      var j := IndexOf(s[1..], '>');
      if s[0] == '<' && 1 <= j < |s| - 1 {
        StripTagsLeavesNoTag(s[j + 2..]);
      } else {
        StripTagsLeavesNoTag(s[1..]);
        var rest := StripTags(s[1..]);
        if s[0] == '<' && |s| > 1 {
          if j == 0 {
            assert s[1] == '>';
            assert rest[0] == '>';
          } else {
            assert '>' !in s[1..];
            assert '>' !in rest;
          }
        }
        NoTagAfter(s[0], rest);
      }
    }
  }

  /** A character put in front of tag-free text starts no tag unless it is a `<` followed by a `>` further on. */
  lemma NoTagAfter(c: char, rest: string)
    requires forall i :: 0 <= i < |rest| ==> !TagAt(rest, i)
    requires c == '<' ==> rest == [] || rest[0] == '>' || '>' !in rest
    ensures forall i :: 0 <= i < |[c] + rest| ==> !TagAt([c] + rest, i)
  {
    var r := [c] + rest;
    forall i | 0 <= i < |r| ensures !TagAt(r, i) {
      if i > 0 {
        assert r[i..] == rest[i - 1..];
        if i + 1 < |r| {
          assert r[i + 2..] == rest[i + 1..];
        }
        assert TagAt(r, i) == TagAt(rest, i - 1);
      } else if c == '<' && |rest| > 0 && rest[0] != '>' {
        assert r[2..] == rest[1..];
      }
    }
  }

  /** Text without a `<` passes through the tag pass unchanged. */
  lemma {:induction false} StripTagsKeepsPlainText(s: string)
    requires '<' !in s
    ensures StripTags(s) == s
  {
    if |s| > 0 {
      StripTagsKeepsPlainText(s[1..]);
      assert [s[0]] + s[1..] == s;
    }
  }

  /** `</p>`, in either case, becomes one newline. */
  lemma ParagraphEndBecomesNewline(p: char, s: string)
    requires IsP(p)
    ensures ReplaceParagraphEnds(['<', '/', p, '>'] + s) == "\n" + ReplaceParagraphEnds(s)
  {
    assert (['<', '/', p, '>'] + s)[4..] == s;
  }

  /** Text without `<` passes the paragraph-end pass unchanged. */
  lemma {:induction false} ParagraphEndsKeepPlainText(s: string)
    requires '<' !in s
    ensures ReplaceParagraphEnds(s) == s
  {
    if |s| > 0 {
      ParagraphEndsKeepPlainText(s[1..]);
      assert [s[0]] + s[1..] == s;
    }
  }

  predicate IsB(c: char) { c == 'b' || c == 'B' }
  predicate IsR(c: char) { c == 'r' || c == 'R' }

  /** The break tags `<br>`, `<BR/>`, `<br  />`, …: `<br`, white space, an optional `/`, then `>`. */
  function BreakTag(b: char, r: char, space: string, slash: bool): string
  {
    ['<', b, r] + space + (if slash then "/>" else ">")
  }

  /** Every break tag is recognised at the start of the text, whatever follows it, and the match is the whole tag. */
  lemma BreakTagMatched(b: char, r: char, space: string, slash: bool, rest: string)
    requires IsB(b) && IsR(r) && forall i :: 0 <= i < |space| ==> IsJsWhitespace(space[i])
    ensures BreakTagLength(BreakTag(b, r, space, slash) + rest) == |BreakTag(b, r, space, slash)|
  {
    var tag := BreakTag(b, r, space, slash);
    var s := tag + rest;
    var tail := if slash then "/>" else ">";
    assert s[3..] == space + (tail + rest);
    WhitespaceRunOver(space, tail + rest);
    assert s[3 + |space|] == tail[0];
    if slash {
      assert s[3 + |space| + 1] == '>';
    }
  }

  /** `\s*` runs to the end of a white-space prefix when a non-white-space character follows. */
  lemma {:induction false} WhitespaceRunOver(space: string, rest: string)
    requires forall i :: 0 <= i < |space| ==> IsJsWhitespace(space[i])
    requires |rest| > 0 && !IsJsWhitespace(rest[0])
    ensures WhitespaceRun(space + rest) == |space|
  {
    if |space| > 0 {
      assert (space + rest)[1..] == space[1..] + rest;
      WhitespaceRunOver(space[1..], rest);
    } else {
      assert space + rest == rest;
    }
  }

  /** A break tag becomes one newline. */
  lemma BreakBecomesNewline(b: char, r: char, space: string, slash: bool, rest: string)
    requires IsB(b) && IsR(r) && forall i :: 0 <= i < |space| ==> IsJsWhitespace(space[i])
    ensures ReplaceBreaks(BreakTag(b, r, space, slash) + rest) == "\n" + ReplaceBreaks(rest)
  {
    var tag := BreakTag(b, r, space, slash);
    BreakTagMatched(b, r, space, slash, rest);
    assert (tag + rest)[|tag|..] == rest;
  }

  /** Text without `<` passes the break pass unchanged. */
  lemma {:induction false} BreaksKeepPlainText(s: string)
    requires '<' !in s
    ensures ReplaceBreaks(s) == s
  {
    if |s| > 0 {
      BreaksKeepPlainText(s[1..]);
      assert [s[0]] + s[1..] == s;
    }
  }

  /** `b` is what is left of `s` after deleting some of its characters. */
  predicate IsSubsequence(b: string, s: string)
    decreases |s|
  {
    |b| == 0 || (|s| > 0 && ((b[0] == s[0] && IsSubsequence(b[1..], s[1..])) || IsSubsequence(b, s[1..])))
  }

  lemma {:induction false} SubsequenceOfSuffix(b: string, s: string, k: nat)
    requires k <= |s| && IsSubsequence(b, s[k..])
    ensures IsSubsequence(b, s)
    decreases k
  {
    if k > 0 {
      assert s[k..] == s[1..][k - 1..];
      SubsequenceOfSuffix(b, s[1..], k - 1);
    }
  }

  /** The tag pass only deletes characters: what is left is a subsequence of the input. */
  lemma {:induction false} StripTagsDeletesOnly(s: string)
    ensures IsSubsequence(StripTags(s), s)
  {
    if |s| > 0 {
      var j := IndexOf(s[1..], '>');
      if s[0] == '<' && 1 <= j < |s| - 1 {
        StripTagsDeletesOnly(s[j + 2..]);
        SubsequenceOfSuffix(StripTags(s), s, j + 2);
      } else {
        StripTagsDeletesOnly(s[1..]);
        assert ([s[0]] + StripTags(s[1..]))[1..] == StripTags(s[1..]);
      }
    }
  }

  /** A tag `<t>`, with `t` not empty and free of `>`, is deleted whole. */
  lemma StripTagsDeletesTag(tag: string, s: string)
    requires |tag| > 0 && '>' !in tag
    ensures StripTags("<" + tag + ">" + s) == StripTags(s)
  {
    var x := "<" + tag + ">" + s;
    var u := x[1..];
    assert u == tag + (">" + s);
    assert u[|tag|] == '>';
    assert forall i :: 0 <= i < |tag| ==> u[i] == tag[i];
    assert IndexOf(u, '>') == |tag|;
    assert x[|tag| + 2..] == s;
  }

  /** A character other than `<` is kept. */
  lemma StripTagsKeepsChar(c: char, s: string)
    requires c != '<'
    ensures StripTags([c] + s) == [c] + StripTags(s)
  {
    assert ([c] + s)[1..] == s;
  }

  /** `cleanContent(node, 'thinking')`: the clone's `innerHTML` through the five replacements and `trim`. */
  function CleanThinking(n: Node): string
    requires n.Element?
  {
    Trim(CollapseNewlines(StripTags(ReplaceBreaks(ReplaceParagraphEnds(InnerHtml(StripNoise(n)))))))
  }

  /** The cleaned thinking text has no blank line and no white space at either end. */
  lemma CleanThinkingShape(n: Node)
    requires n.Element?
    ensures NoBlankLine(CleanThinking(n))
    ensures CleanThinking(n) == [] || (!IsJsWhitespace(CleanThinking(n)[0]) && !IsJsWhitespace(CleanThinking(n)[|CleanThinking(n)| - 1]))
  {
    var c := CollapseNewlines(StripTags(ReplaceBreaks(ReplaceParagraphEnds(InnerHtml(StripNoise(n))))));
    assert CleanThinking(n) == Trim(c);
    TrimKeepsNoBlankLine(c);
    TrimEdges(c);
  }

  /** Trimming cuts a slice, so it adds no blank line. */
  lemma TrimKeepsNoBlankLine(c: string)
    requires NoBlankLine(c)
    ensures NoBlankLine(Trim(c))
  {
    var k := TrimIsSlice(c);
    NoBlankLineSlice(c, k, k + |Trim(c)|);
  }

  // ---------------------------------------------------------------------
  // Response cleaner
  // ---------------------------------------------------------------------

  /**
   * `cleanContent(node, 'response')`: the clone's `innerHTML`. The string
   * is parsed again before it is converted, so it is kept here as the tree
   * the parser gives back: the stripped children with adjacent text nodes
   * joined and empty ones dropped. Both serialize to the same string.
   */
  function CleanResponse(n: Node): (r: seq<Node>)
    requires n.Element?
    ensures SerializeAll(r, n.tag) == InnerHtml(StripNoise(n))
    ensures NormalTrees(r)
  {
    var cs := StripNoise(n).children;
    SerializeNormalizeAll(cs, n.tag);
    NormalizeAllIsNormal(cs);
    NormalizeAll(cs)
  }
}
