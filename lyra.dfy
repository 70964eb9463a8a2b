/**
 * The string utilities of the Lyra exporter: the file-name sanitiser, the
 * platform the page belongs to, the label lookup, the Markdown transcript
 * its direct exporter writes, and the name the exported file gets.
 *
 * JavaScript strings are sequences of UTF-16 code units, and the sanitiser's
 * regular expression (no `u` flag) and `slice` count in code units, so the
 * sanitiser and the file name work on `CodeUnit`s; the other operations
 * never measure a string and work on `string`.
 */
module Lyra {
  import opened Wrappers
  import opened Strings

  // ---------------------------------------------------------------------
  // UTF-16
  // ---------------------------------------------------------------------

  newtype CodeUnit = x: int | 0 <= x < 0x1_0000

  const Underscore: CodeUnit := 0x5F

  /** The units of a character: itself, or a surrogate pair above the basic plane. */
  function EncodeChar(c: char): (r: seq<CodeUnit>)
    ensures |r| == (if c as int < 0x1_0000 then 1 else 2)
  {
    var v := c as int;
    if v < 0x1_0000 then [v as CodeUnit]
    else [(0xD800 + (v - 0x1_0000) / 0x400) as CodeUnit, (0xDC00 + (v - 0x1_0000) % 0x400) as CodeUnit]
  }

  /** The JavaScript string holding the characters of `s`. */
  function Utf16(s: string): (r: seq<CodeUnit>)
    ensures |r| >= |s|
  {
    if |s| == 0 then [] else EncodeChar(s[0]) + Utf16(s[1..])
  }

  lemma {:induction false} Utf16Append(a: string, b: string)
    ensures Utf16(a + b) == Utf16(a) + Utf16(b)
  {
    if |a| > 0 {
      assert (a + b)[1..] == a[1..] + b;
      assert (a + b)[0] == a[0];
      Utf16Append(a[1..], b);
    } else {
      assert a + b == b;
    }
  }

  // ---------------------------------------------------------------------
  // Utils.sanitize
  // ---------------------------------------------------------------------

  /** A unit the class `[a-z0-9]` with the `i` flag matches: an ASCII letter of either case or a digit. */
  predicate IsAlnum(u: CodeUnit)
  {
    (0x30 <= u <= 0x39) || (0x41 <= u <= 0x5A) || (0x61 <= u <= 0x7A)
  }

  /** A unit a sanitised name may hold. */
  predicate IsNameUnit(u: CodeUnit)
  {
    IsAlnum(u) || u == Underscore
  }

  /** `s.replace(/[^a-z0-9]/gi, '_')`: every unit outside the class becomes one `_`. */
  function ReplaceOthers(s: seq<CodeUnit>): (r: seq<CodeUnit>)
    ensures |r| == |s|
    ensures forall i :: 0 <= i < |s| ==> r[i] == (if IsAlnum(s[i]) then s[i] else Underscore)
  {
    if |s| == 0 then []
    else [if IsAlnum(s[0]) then s[0] else Underscore] + ReplaceOthers(s[1..])
  }

  const MaxNameLength := 100

  /** `Utils.sanitize(name)`: the replacement, then `slice(0, 100)`. */
  function Sanitize(name: seq<CodeUnit>): seq<CodeUnit>
  {
    var replaced := ReplaceOthers(name);
    if |replaced| <= MaxNameLength then replaced else replaced[..MaxNameLength]
  }

  /**
   * A sanitised name holds only letters, digits and `_`; it is as long as
   * the name up to 100 units; and each unit is the name's unit when that is
   * a letter or a digit and `_` otherwise.
   */
  lemma SanitizeShape(name: seq<CodeUnit>)
    ensures var r := Sanitize(name);
      |r| == (if |name| <= MaxNameLength then |name| else MaxNameLength)
      && (forall i :: 0 <= i < |r| ==> IsNameUnit(r[i]))
      && (forall i :: 0 <= i < |r| ==> (IsAlnum(name[i]) <==> r[i] == name[i] && r[i] != Underscore))
  {
  }

  /** A name that is already letters, digits and `_`, and short enough, is left as it is. */
  lemma SanitizeKeepsClean(name: seq<CodeUnit>)
    requires |name| <= MaxNameLength
    requires forall i :: 0 <= i < |name| ==> IsNameUnit(name[i])
    ensures Sanitize(name) == name
  {
    var r := ReplaceOthers(name);
    assert forall i :: 0 <= i < |name| ==> r[i] == name[i];
  }

  /** Sanitising twice is sanitising once. */
  lemma SanitizeIdempotent(name: seq<CodeUnit>)
    ensures Sanitize(Sanitize(name)) == Sanitize(name)
  {
    SanitizeShape(name);
    SanitizeKeepsClean(Sanitize(name));
  }

  /** A character above the basic plane is two code units and becomes two underscores. */
  lemma AstralCharacter(c: char)
    requires c as int >= 0x1_0000
    ensures Sanitize(Utf16([c])) == [Underscore, Underscore]
  {
    assert [c][1..] == [];
    var units := EncodeChar(c);
    assert Utf16([c]) == units + [];
    assert units + [] == units;
    assert !IsAlnum(units[0]) && !IsAlnum(units[1]);
  }

  // ---------------------------------------------------------------------
  // State.platform
  // ---------------------------------------------------------------------

  datatype Platform = Claude | ChatGpt | Grok | Gemini | NotebookLm | AiStudio

  /** The string `State.platform` holds for each platform. */
  function PlatformName(p: Platform): string
  {
    match p
    case Claude => "claude"
    case ChatGpt => "chatgpt"
    case Grok => "grok"
    case Gemini => "gemini"
    case NotebookLm => "notebooklm"
    case AiStudio => "aistudio"
  }

  /** The classifier run once at start-up on `location.hostname` and `location.pathname`. */
  function PlatformOf(host: string, path: string): Option<Platform>
  {
    if Includes(host, "claude.ai") || Includes(host, "easychat.top") then Some(Claude)
    else if Includes(host, "chatgpt") || Includes(host, "openai") then Some(ChatGpt)
    else if Includes(host, "grok.com") || (Includes(host, "x.com") && Includes(path, "/i/grok")) then Some(Grok)
    else if Includes(host, "gemini") then Some(Gemini)
    else if Includes(host, "notebooklm") then Some(NotebookLm)
    else if Includes(host, "aistudio") then Some(AiStudio)
    else None
  }

  /** The test each platform's rule applies, on its own. */
  predicate Matches(p: Platform, host: string, path: string)
  {
    match p
    case Claude => Includes(host, "claude.ai") || Includes(host, "easychat.top")
    case ChatGpt => Includes(host, "chatgpt") || Includes(host, "openai")
    case Grok => Includes(host, "grok.com") || (Includes(host, "x.com") && Includes(path, "/i/grok"))
    case Gemini => Includes(host, "gemini")
    case NotebookLm => Includes(host, "notebooklm")
    case AiStudio => Includes(host, "aistudio")
  }

  /** The rules in the order they are tried. */
  const RuleOrder: seq<Platform> := [Claude, ChatGpt, Grok, Gemini, NotebookLm, AiStudio]

  /** A priority list of rules: the first one whose test holds decides. */
  function FirstMatch(rules: seq<Platform>, host: string, path: string): Option<Platform>
  {
    if |rules| == 0 then None
    else if Matches(rules[0], host, path) then Some(rules[0])
    else FirstMatch(rules[1..], host, path)
  }

  /**
   * The rule list picks nothing exactly when no rule's test holds, and
   * otherwise a rule whose test holds while the test of every rule before it
   * fails.
   */
  lemma {:induction false} FirstMatchChoice(rules: seq<Platform>, host: string, path: string)
    ensures var r := FirstMatch(rules, host, path);
      (r.None? <==> forall k :: 0 <= k < |rules| ==> !Matches(rules[k], host, path))
      && (r.Some? ==> exists k :: 0 <= k < |rules| && rules[k] == r.value && Matches(r.value, host, path)
                        && forall j :: 0 <= j < k ==> !Matches(rules[j], host, path))
  {
    if |rules| > 0 && !Matches(rules[0], host, path) {
      var tail := rules[1..];
      FirstMatchChoice(tail, host, path);
      var r := FirstMatch(tail, host, path);
      if r.Some? {
        var k :| 0 <= k < |tail| && tail[k] == r.value && Matches(r.value, host, path)
                 && forall j :: 0 <= j < k ==> !Matches(tail[j], host, path);
        assert rules[k + 1] == r.value;
        forall j | 0 <= j < k + 1 ensures !Matches(rules[j], host, path) {
          if j > 0 {
            assert rules[j] == tail[j - 1];
          }
        }
      } else {
        forall k | 0 <= k < |rules| ensures !Matches(rules[k], host, path) {
          if k > 0 {
            assert rules[k] == tail[k - 1];
          }
        }
      }
    }
  }

  /** The classifier is the first-match rule list, tried in the source's order. */
  lemma PlatformIsFirstMatch(host: string, path: string)
    ensures PlatformOf(host, path) == FirstMatch(RuleOrder, host, path)
  {
    assert FirstMatch([AiStudio], host, path) == (if Matches(AiStudio, host, path) then Some(AiStudio) else None) by {
      assert [AiStudio][1..] == [];
    }
    RuleStep([NotebookLm, AiStudio], host, path);
    RuleStep([Gemini, NotebookLm, AiStudio], host, path);
    RuleStep([Grok, Gemini, NotebookLm, AiStudio], host, path);
    RuleStep([ChatGpt, Grok, Gemini, NotebookLm, AiStudio], host, path);
    RuleStep(RuleOrder, host, path);
  }

  lemma RuleStep(rules: seq<Platform>, host: string, path: string)
    requires |rules| > 0
    ensures FirstMatch(rules, host, path)
            == if Matches(rules[0], host, path) then Some(rules[0]) else FirstMatch(rules[1..], host, path)
  {
  }

  /** A string does not contain a longer needle. */
  lemma {:induction false} TooShort(s: string, needle: string)
    requires |needle| > |s|
    ensures !Includes(s, needle)
    decreases |s|
  {
    if |s| > 0 {
      TooShort(s[1..], needle);
    }
  }

  /** On `x.com` the Grok path is recognised... */
  lemma XComGrokPath()
    ensures PlatformOf("x.com", "/i/grok") == Some(Grok)
  {
    NoLongerNeedle();
    assert "x.com"[..5] == "x.com";
    assert "/i/grok"[..7] == "/i/grok";
  }

  /** ... and no other path is. */
  lemma XComOtherPath()
    ensures PlatformOf("x.com", "/home") == None
  {
    NoLongerNeedle();
    TooShort("/home", "/i/grok");
  }

  lemma NoLongerNeedle()
    ensures !Includes("x.com", "claude.ai") && !Includes("x.com", "easychat.top")
    ensures !Includes("x.com", "chatgpt") && !Includes("x.com", "openai") && !Includes("x.com", "grok.com")
    ensures !Includes("x.com", "gemini") && !Includes("x.com", "notebooklm") && !Includes("x.com", "aistudio")
  {
    TooShort("x.com", "claude.ai");
    TooShort("x.com", "easychat.top");
    TooShort("x.com", "chatgpt");
    TooShort("x.com", "openai");
    TooShort("x.com", "grok.com");
    TooShort("x.com", "gemini");
    TooShort("x.com", "notebooklm");
    TooShort("x.com", "aistudio");
  }

  /** `${State.platform}`: the name, or `null` on a page no rule recognises. */
  function PlatformText(p: Option<Platform>): string
  {
    match p
    case Some(q) => PlatformName(q)
    case None => "null"
  }

  // ---------------------------------------------------------------------
  // i18n.t
  // ---------------------------------------------------------------------

  /** The labels of the object literal `i18n.t` indexes. */
  const Labels: map<string, string> := map[
    "loading" := "Loading...", "exporting" := "Exporting...", "compressing" := "Compressing...",
    "preview" := "Preview", "exportCurrent" := "Export Current", "exportAll" := "Export All",
    "includeImages" := "Images", "realtime" := "Realtime", "format" := "Format",
    "json" := "JSON", "markdown" := "Markdown", "pdf" := "PDF", "png" := "Long PNG",
    "noContent" := "No content found", "uuidNotFound" := "Conversation ID not found"]

  /** The properties every object literal inherits from `Object.prototype`. */
  const PrototypeNames: set<string> := {
    "constructor", "hasOwnProperty", "isPrototypeOf", "propertyIsEnumerable", "toString",
    "toLocaleString", "valueOf", "__proto__", "__defineGetter__", "__defineSetter__",
    "__lookupGetter__", "__lookupSetter__"}

  /** What indexing the literal yields: a string, or an inherited built-in (a function, or the prototype object). */
  datatype JsValue = Str(s: string) | Builtin(name: string)

  /** Truthiness for `|| key`: only the empty string among these values is falsy. */
  predicate Truthy(v: JsValue)
  {
    v.Builtin? || v.s != ""
  }

  /** `i18n.t(key)` as written: `({...})[key] || key`, with the prototype chain the indexing consults. */
  function TranslateAsWritten(key: string): JsValue
  {
    var found :=
      if key in Labels then Str(Labels[key])
      else if key in PrototypeNames then Builtin(key)
      else Str("");
    if Truthy(found) then found else Str(key)
  }

  /** `i18n.t(key)` as evidently intended: the label for a key of the table, the key itself otherwise. */
  function Translate(key: string): string
  {
    if key in Labels then Labels[key] else key
  }

  /** No label equals its key, so a key comes back unchanged exactly when the table lacks it. */
  lemma TranslateFallback(key: string)
    ensures Translate(key) == key <==> key !in Labels
    ensures key in Labels ==> Translate(key) == Labels[key] && Translate(key) != ""
  {
  }

  /** Off the prototype's names the source's lookup is the intended one. */
  lemma AsWrittenAgrees(key: string)
    requires key !in PrototypeNames
    ensures TranslateAsWritten(key) == Str(Translate(key))
  {
  }

  /** `i18n.t('toString')` yields the inherited function instead of the string `'toString'`. */
  lemma InheritedNameLeaks()
    ensures TranslateAsWritten("toString") == Builtin("toString")
    ensures Translate("toString") == "toString"
  {
    assert "toString" !in Labels;
  }

  // ---------------------------------------------------------------------
  // Exporters.markdown
  // ---------------------------------------------------------------------

  /** One turn: `turn.human?.text` and `turn.assistant?.text`, absent when the role or its text is. */
  datatype Turn = Turn(human: Option<string>, assistant: Option<string>)

  /**
   * What `getConversationData` resolves to: an object with an optional
   * title and an optional `conversation` array, or a bare array of turns.
   */
  datatype ConversationData =
    | Record(title: Option<string>, conversation: Option<seq<Turn>>)
    | Turns(turns: seq<Turn>)

  /** A present, non-empty text. */
  predicate Given(t: Option<string>)
  {
    t.Some? && t.value != ""
  }

  /** `data.conversation || data`, when it is iterable: an object without a `conversation` array is not. */
  function TurnsOf(data: ConversationData): Result<seq<Turn>, string>
  {
    match data
    case Record(_, Some(c)) => Success(c)
    case Record(_, None) => Failure("data is not iterable")
    case Turns(ts) => Success(ts)
  }

  /** What the loop appends for one turn. */
  function TurnText(t: Turn): string
  {
    (if Given(t.human) then "**User:** " + t.human.value + "\n\n" else "")
    + (if Given(t.assistant) then t.assistant.value + "\n\n" else "")
  }

  /** The first `count` turns, in order. */
  function TurnsText(turns: seq<Turn>, count: nat): string
    requires count <= |turns|
  {
    if count == 0 then "" else TurnsText(turns, count - 1) + TurnText(turns[count - 1])
  }

  /** The Markdown text the exporter puts in its Blob, or the error the loop throws. */
  function MarkdownExport(data: ConversationData, title: string): Result<string, string>
  {
    match TurnsOf(data)
    case Success(ts) => Success("# " + title + "\n\n" + TurnsText(ts, |ts|))
    case Failure(e) => Failure(e)
  }

  /** `Exporters.markdown(data, title)`, up to the Blob it wraps the text in. */
  method ExportMarkdown(data: ConversationData, title: string) returns (r: Result<string, string>)
    ensures r == MarkdownExport(data, title)
  {
    var source := TurnsOf(data);
    if source.Failure? {
      return Failure(source.error);
    }
    var turns := source.value;
    var head := "# " + title + "\n\n";
    var md := head;
    var i := 0;
    while i < |turns|
      invariant 0 <= i <= |turns|
      invariant md == head + TurnsText(turns, i)
    {
      var turn := turns[i];
      var user := "";
      if turn.human.Some? && turn.human.value != "" {
        user := "**User:** " + turn.human.value + "\n\n";
      }
      var answer := "";
      if turn.assistant.Some? && turn.assistant.value != "" {
        answer := turn.assistant.value + "\n\n";
      }
      assert user + answer == TurnText(turn);
      ExportStep(head, turns, i, md, user + answer);
      md := md + (user + answer);
      i := i + 1;
    }
    return Success(md);
  }

  /** Appending the text of turn `i` extends the export by that turn. */
  lemma ExportStep(head: string, turns: seq<Turn>, i: nat, md: string, text: string)
    requires i < |turns| && md == head + TurnsText(turns, i) && text == TurnText(turns[i])
    ensures md + text == head + TurnsText(turns, i + 1)
  {
    TurnsTextStep(turns, i);
    AppendAssoc(head, TurnsText(turns, i), text);
  }

  lemma TurnsTextStep(turns: seq<Turn>, i: nat)
    requires i < |turns|
    ensures TurnsText(turns, i + 1) == TurnsText(turns, i) + TurnText(turns[i])
  {
  }

  /** Only an object without a `conversation` array makes the export throw. */
  lemma ExportFailsOnlyWithoutTurns(data: ConversationData, title: string)
    ensures MarkdownExport(data, title).Failure? <==> data.Record? && data.conversation.None?
  {
  }

  /** A turn whose texts are both missing or empty adds nothing. */
  lemma SilentTurn(t: Turn)
    ensures TurnText(t) == "" <==> !Given(t.human) && !Given(t.assistant)
  {
  }

  /** The text so far is a prefix of the text with more turns. */
  lemma {:induction false} TurnsTextPrefix(turns: seq<Turn>, j: nat, k: nat)
    requires j <= k <= |turns|
    ensures TurnsText(turns, j) <= TurnsText(turns, k)
    decreases k - j
  {
    if j < k {
      TurnsTextPrefix(turns, j, k - 1);
      TurnsTextStep(turns, k - 1);
      PrefixOfSum(TurnsText(turns, j), TurnsText(turns, k - 1), TurnText(turns[k - 1]), TurnsText(turns, k));
    }
  }

  /** The export opens with the title heading. */
  lemma ExportOpensWithTitle(data: ConversationData, title: string)
    requires MarkdownExport(data, title).Success?
    ensures "# " + title + "\n\n" <= MarkdownExport(data, title).value
  {
    var ts := TurnsOf(data).value;
    PrefixAppend("# " + title + "\n\n", "# " + title + "\n\n", TurnsText(ts, |ts|));
  }

  /** Every turn's text appears in the export right after the turns before it. */
  lemma ExportTurnInOrder(data: ConversationData, title: string, i: nat)
    requires MarkdownExport(data, title).Success? && i < |TurnsOf(data).value|
    ensures var ts := TurnsOf(data).value;
      "# " + title + "\n\n" + TurnsText(ts, i) + TurnText(ts[i]) <= MarkdownExport(data, title).value
  {
    var ts := TurnsOf(data).value;
    var head := "# " + title + "\n\n";
    TurnsTextPrefix(ts, i + 1, |ts|);
    AppendAssoc(head, TurnsText(ts, i), TurnText(ts[i]));
    PrefixConcat(head, TurnsText(ts, i + 1), TurnsText(ts, |ts|));
  }

  // ---------------------------------------------------------------------
  // exportCurrent: title and file name
  // ---------------------------------------------------------------------

  /** `data.title || `${State.platform}_chat``. */
  function ExportTitle(data: ConversationData, platform: Option<Platform>): string
  {
    if data.Record? && Given(data.title) then data.title.value
    else PlatformText(platform) + "_chat"
  }

  /** `${Utils.sanitize(title)}.${State.format}`. */
  function ExportFileName(title: string, format: string): seq<CodeUnit>
  {
    Sanitize(Utf16(title)) + Utf16("." + format)
  }

  /**
   * The file name is a stem of letters, digits and `_`, at most 100 units
   * long, followed by `.` and the format.
   */
  lemma FileNameShape(title: string, format: string)
    ensures var name := ExportFileName(title, format);
      var stem := Sanitize(Utf16(title));
      name == stem + Utf16("." + format)
      && |stem| <= MaxNameLength
      && |stem| == (if |Utf16(title)| <= MaxNameLength then |Utf16(title)| else MaxNameLength)
      && forall i :: 0 <= i < |stem| ==> IsNameUnit(stem[i])
  {
    SanitizeShape(Utf16(title));
  }

  /** A string of ASCII letters, digits and `_` is one unit per character, each a name unit. */
  lemma {:induction false} AsciiName(s: string)
    requires forall i :: 0 <= i < |s| ==> ('a' <= s[i] <= 'z') || ('0' <= s[i] <= '9') || s[i] == '_'
    ensures |Utf16(s)| == |s|
    ensures forall i :: 0 <= i < |Utf16(s)| ==> IsNameUnit(Utf16(s)[i])
  {
    if |s| > 0 {
      AsciiName(s[1..]);
      var rest := Utf16(s[1..]);
      assert Utf16(s) == [s[0] as int as CodeUnit] + rest;
      forall i | 0 <= i < |Utf16(s)| ensures IsNameUnit(Utf16(s)[i]) {
        if i > 0 {
          assert Utf16(s)[i] == rest[i - 1];
        }
      }
    }
  }

  /** The fallback title is short and made of name characters only. */
  lemma PlatformStem(platform: Option<Platform>)
    ensures var stem := PlatformText(platform) + "_chat";
      |Utf16(stem)| <= MaxNameLength && forall i :: 0 <= i < |Utf16(stem)| ==> IsNameUnit(Utf16(stem)[i])
  {
    var stem := PlatformText(platform) + "_chat";
    assert forall i :: 0 <= i < |stem| ==> ('a' <= stem[i] <= 'z') || ('0' <= stem[i] <= '9') || stem[i] == '_';
    AsciiName(stem);
  }

  /** Without a title the file is named after the platform: `claude_chat.markdown`, `null_chat.json`. */
  lemma FallbackFileName(data: ConversationData, platform: Option<Platform>, format: string)
    requires !(data.Record? && Given(data.title))
    ensures ExportFileName(ExportTitle(data, platform), format) == Utf16(PlatformText(platform) + "_chat." + format)
  {
    var stem := PlatformText(platform) + "_chat";
    PlatformStem(platform);
    SanitizeKeepsClean(Utf16(stem));
    Utf16Append(stem, "." + format);
    assert stem + ("." + format) == PlatformText(platform) + "_chat." + format;
  }
}
