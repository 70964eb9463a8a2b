/**
 * The part of the browser DOM the exporters read: element and text nodes,
 * attributes, class lists, `textContent`, descendant queries in document
 * order, and the `innerHTML` serialization of an element's children.
 *
 * Element tag names are the lower-case local names the HTML parser gives
 * them, so the source's tests on `nodeName.toUpperCase()` and `matches('x')`
 * both become a comparison of `tag` with a lower-case name.
 */
module Dom {
  import opened Wrappers
  import opened Strings

  datatype Attr = Attr(name: string, value: string)

  datatype Node =
    | Text(data: string)
    | Element(tag: string, attrs: seq<Attr>, children: seq<Node>)

  /** `getAttribute(name)`: the first attribute of that name, if any. */
  function GetAttribute(attrs: seq<Attr>, name: string): (r: Option<string>)
    ensures r.Some? <==> exists i :: 0 <= i < |attrs| && attrs[i].name == name
    ensures r.Some? ==> exists i :: 0 <= i < |attrs| && attrs[i] == Attr(name, r.value)
  {
    if |attrs| == 0 then None
    else if attrs[0].name == name then Some(attrs[0].value)
    else GetAttribute(attrs[1..], name)
  }

  /** `n.getAttribute(name)` on any node: a text node carries no attribute. */
  function Attribute(n: Node, name: string): Option<string>
  {
    if n.Text? then None else GetAttribute(n.attrs, name)
  }

  /** `el.getAttribute(name) || ''`: a missing attribute reads as the empty string. */
  function AttrOrEmpty(n: Node, name: string): (r: string)
    ensures n.Element? && GetAttribute(n.attrs, name).Some? ==> r == GetAttribute(n.attrs, name).value
    ensures n.Text? || GetAttribute(n.attrs, name).None? ==> r == ""
  {
    if n.Text? then ""
    else match GetAttribute(n.attrs, name)
      case Some(v) => v
      case None => ""
  }

  /** The ASCII white space that separates the tokens of a `class` attribute. */
  predicate IsAsciiWhitespace(c: char) {
    c == '\t' || c == '\n' || c == '\U{C}' || c == '\r' || c == ' '
  }

  /** The leading run of non-white-space characters. */
  function TokenPrefix(s: string): (t: string)
    ensures |t| <= |s| && t == s[..|t|]
    ensures forall i :: 0 <= i < |t| ==> !IsAsciiWhitespace(t[i])
    ensures |t| < |s| ==> IsAsciiWhitespace(s[|t|])
  {
    if |s| == 0 || IsAsciiWhitespace(s[0]) then "" else [s[0]] + TokenPrefix(s[1..])
  }

  /** The class list of a `class` attribute value: its white-space separated tokens, in order. */
  function ClassTokens(s: string): (r: seq<string>)
    ensures forall k :: 0 <= k < |r| ==> |r[k]| > 0 && forall j :: 0 <= j < |r[k]| ==> !IsAsciiWhitespace(r[k][j])
    decreases |s|
  {
    if |s| == 0 then []
    else if IsAsciiWhitespace(s[0]) then ClassTokens(s[1..])
    else
      var t := TokenPrefix(s);
      [t] + ClassTokens(s[|t|..])
  }

  /** `c` occurs in `s` at position `i` as a maximal run of non-white-space characters. */
  ghost predicate IsRunAt(s: string, c: string, i: nat) {
    0 < |c| && i + |c| <= |s| && s[i..i + |c|] == c
    && (i == 0 || IsAsciiWhitespace(s[i - 1]))
    && (i + |c| == |s| || IsAsciiWhitespace(s[i + |c|]))
    && forall j :: 0 <= j < |c| ==> !IsAsciiWhitespace(c[j])
  }

  ghost predicate IsRun(s: string, c: string) {
    exists i :: 0 <= i < |s| && IsRunAt(s, c, i)
  }

  /** A name is in the class list exactly when it is a maximal non-white-space run of the attribute value. */
  lemma {:induction false} ClassTokensAreRuns(s: string, c: string)
    ensures c in ClassTokens(s) <==> IsRun(s, c)
    decreases |s|
  {
    if |s| > 0 {
      if IsAsciiWhitespace(s[0]) {
        ClassTokensAreRuns(s[1..], c);
        SkipWhitespace(s, c);
      } else {
        var t := TokenPrefix(s);
        ClassTokensAreRuns(s[|t|..], c);
        RunAtStart(s, c);
        SkipToken(s, c);
      }
    }
  }

  /** No run starts on a white-space character. */
  lemma NoRunAtWhitespace(s: string, c: string, i: nat)
    requires i < |s| && IsAsciiWhitespace(s[i])
    ensures !IsRunAt(s, c, i)
  {
    if 0 < |c| && i + |c| <= |s| {
      assert s[i..i + |c|][0] == s[i];
    }
  }

  /** A run of `s` at `i` past position `d` is a run of `s[d..]` at `i - d`, and back. */
  lemma RunShift(s: string, d: nat, c: string, i: nat)
    requires 0 < d <= i < |s|
    requires i > d || IsAsciiWhitespace(s[d - 1])
    ensures IsRunAt(s, c, i) <==> IsRunAt(s[d..], c, i - d)
  {
    var u := s[d..];
    if i + |c| <= |s| {
      assert u[i - d..i - d + |c|] == s[i..i + |c|];
    }
    if i > d {
      assert u[i - d - 1] == s[i - 1];
    }
    if i + |c| < |s| {
      assert u[i - d + |c|] == s[i + |c|];
    }
  }

  /** The only run at the start of a string that starts with a token is that token. */
  lemma RunAtStart(s: string, c: string)
    requires |s| > 0 && !IsAsciiWhitespace(s[0])
    ensures IsRunAt(s, c, 0) <==> c == TokenPrefix(s)
  {
    var t := TokenPrefix(s);
    TokenChars(s);
    RunPrefixChars(s, c);
    if c == t {
      assert s[0..|c|] == s[..|t|];
    }
  }

  /** The characters of the leading token are not white space. */
  lemma TokenChars(s: string)
    ensures forall j :: 0 <= j < |TokenPrefix(s)| ==> !IsAsciiWhitespace(s[j])
  {
    var t := TokenPrefix(s);
    forall j | 0 <= j < |t| ensures !IsAsciiWhitespace(s[j]) {
      assert s[j] == s[..|t|][j];
    }
  }

  /** A run at the start is the prefix of its own length, made of non-white-space characters. */
  lemma RunPrefixChars(s: string, c: string)
    ensures IsRunAt(s, c, 0) ==> c == s[..|c|] && forall j :: 0 <= j < |c| ==> !IsAsciiWhitespace(s[j])
  {
    if IsRunAt(s, c, 0) {
      assert s[0..|c|] == s[..|c|];
      forall j | 0 <= j < |c| ensures !IsAsciiWhitespace(s[j]) {
        assert s[j] == s[..|c|][j];
      }
    }
  }

  /** Leading white space starts no run. */
  lemma SkipWhitespace(s: string, c: string)
    requires |s| > 0 && IsAsciiWhitespace(s[0])
    ensures IsRun(s, c) <==> IsRun(s[1..], c)
  {
    if IsRun(s, c) {
      var i :| 0 <= i < |s| && IsRunAt(s, c, i);
      NoRunAtWhitespace(s, c, 0);
      RunShift(s, 1, c, i);
      assert IsRunAt(s[1..], c, i - 1);
    }
    if IsRun(s[1..], c) {
      var j :| 0 <= j < |s| - 1 && IsRunAt(s[1..], c, j);
      RunShift(s, 1, c, j + 1);
      assert IsRunAt(s, c, j + 1);
    }
  }

  /** The runs of a string that starts with a token are that token and the runs after it. */
  lemma SkipToken(s: string, c: string)
    requires |s| > 0 && !IsAsciiWhitespace(s[0])
    ensures IsRun(s, c) <==> IsRunAt(s, c, 0) || IsRun(s[|TokenPrefix(s)|..], c)
  {
    if IsRun(s, c) {
      RunInTokenOrAfter(s, c);
    }
    if IsRun(s[|TokenPrefix(s)|..], c) {
      RunAfterToken(s, c);
    }
  }

  /** A run either starts the string or lies after its leading token. */
  lemma RunInTokenOrAfter(s: string, c: string)
    requires |s| > 0 && !IsAsciiWhitespace(s[0]) && IsRun(s, c)
    ensures IsRunAt(s, c, 0) || IsRun(s[|TokenPrefix(s)|..], c)
  {
    var d := |TokenPrefix(s)|;
    var i :| 0 <= i < |s| && IsRunAt(s, c, i);
    TokenChars(s);
    if i > d {
      RunShift(s, d, c, i);
      assert IsRunAt(s[d..], c, i - d);
    }
  }

  /** A run after the leading token is a run of the whole string. */
  lemma RunAfterToken(s: string, c: string)
    requires |s| > 0 && !IsAsciiWhitespace(s[0])
    requires IsRun(s[|TokenPrefix(s)|..], c)
    ensures IsRun(s, c)
  {
    var d := |TokenPrefix(s)|;
    var j :| 0 <= j < |s| - d && IsRunAt(s[d..], c, j);
    NoRunAtWhitespace(s[d..], c, 0);
    RunShift(s, d, c, d + j);
    assert IsRunAt(s, c, d + j);
  }

  /** `classList.contains(c)`, or the selector `.c` matching the node; text nodes carry no classes. */
  predicate HasClass(n: Node, c: string) {
    n.Element? && match GetAttribute(n.attrs, "class")
      case Some(v) => c in ClassTokens(v)
      case None => false
  }

  predicate IsTag(n: Node, tag: string) {
    n.Element? && n.tag == tag
  }

  /** `node.textContent`: the data of every descendant text node, in document order. */
  function TextContent(n: Node): string
  {
    match n
    case Text(d) => d
    case Element(_, _, cs) => TextContentAll(cs)
  }

  function TextContentAll(cs: seq<Node>): string
  {
    if |cs| == 0 then "" else TextContent(cs[0]) + TextContentAll(cs[1..])
  }

  lemma {:induction false} TextContentAllAppend(a: seq<Node>, b: seq<Node>)
    ensures TextContentAll(a + b) == TextContentAll(a) + TextContentAll(b)
  {
    if |a| > 0 {
      assert (a + b)[1..] == a[1..] + b;
      TextContentAllAppend(a[1..], b);
    } else {
      assert a + b == b;
    }
  }

  /** The number of nodes in a subtree; every recursion over the tree decreases it. */
  function Size(n: Node): (r: nat)
    ensures r >= 1
  {
    match n
    case Text(_) => 1
    case Element(_, _, cs) => 1 + SizeAll(cs)
  }

  function SizeAll(cs: seq<Node>): (r: nat)
    ensures forall i :: 0 <= i < |cs| ==> Size(cs[i]) <= r
  {
    if |cs| == 0 then 0 else Size(cs[0]) + SizeAll(cs[1..])
  }

  /** `node.childNodes`: a text node has none. */
  function Children(n: Node): (r: seq<Node>)
    ensures SizeAll(r) < Size(n)
  {
    match n
    case Text(_) => []
    case Element(_, _, cs) => cs
  }

  /** The proper descendants of a node, in document (pre-)order. */
  function Descendants(n: Node): (r: seq<Node>)
    ensures forall i :: 0 <= i < |r| ==> Size(r[i]) < Size(n)
  {
    match n
    case Text(_) => []
    case Element(_, _, cs) => DescendantsAll(cs)
  }

  function DescendantsAll(cs: seq<Node>): (r: seq<Node>)
    ensures forall i :: 0 <= i < |r| ==> Size(r[i]) <= SizeAll(cs)
  {
    if |cs| == 0 then []
    else [cs[0]] + Descendants(cs[0]) + DescendantsAll(cs[1..])
  }

  function Filter(s: seq<Node>, p: Node -> bool): (r: seq<Node>)
    ensures forall i :: 0 <= i < |r| ==> p(r[i])
    ensures SizeAll(r) <= SizeAll(s)
  {
    if |s| == 0 then []
    else if p(s[0]) then [s[0]] + Filter(s[1..], p)
    else Filter(s[1..], p)
  }

  /** Filtering keeps exactly the members that satisfy the test. */
  lemma {:induction false} FilterMembers(s: seq<Node>, p: Node -> bool)
    ensures forall x :: x in Filter(s, p) ==> x in s && p(x)
    ensures forall x :: x in s && p(x) ==> x in Filter(s, p)
  {
    if |s| > 0 {
      FilterMembers(s[1..], p);
      assert forall x :: x in s <==> x == s[0] || x in s[1..];
    }
  }

  /** Filtering a list with one more node at the end keeps that node exactly when it matches. */
  lemma {:induction false} FilterSnoc(s: seq<Node>, x: Node, p: Node -> bool)
    ensures Filter(s + [x], p) == Filter(s, p) + (if p(x) then [x] else [])
  {
    if |s| > 0 {
      assert (s + [x])[1..] == s[1..] + [x];
      FilterSnoc(s[1..], x, p);
    } else {
      assert s + [x] == [x];
    }
  }

  /** `n.querySelectorAll(sel)` for a selector given as a predicate: matching descendants, in document order. */
  function QueryAll(n: Node, p: Node -> bool): (r: seq<Node>)
    ensures forall i :: 0 <= i < |r| ==> p(r[i]) && Size(r[i]) < Size(n)
  {
    var ds := Descendants(n);
    FilterMembers(ds, p);
    Filter(ds, p)
  }

  /** `n.querySelector(sel)`: the first matching descendant, if any. */
  function Query(n: Node, p: Node -> bool): (r: Option<Node>)
    ensures r.Some? ==> p(r.value) && Size(r.value) < Size(n)
    ensures r.None? <==> forall d :: d in Descendants(n) ==> !p(d)
  {
    FilterMembers(Descendants(n), p);
    var all := QueryAll(n, p);
    if |all| == 0 then None else Some(all[0])
  }

  /** `document.querySelector(sel)` with the document element as root: the root itself or its first matching descendant. */
  function QueryDocument(root: Node, p: Node -> bool): (r: Option<Node>)
    ensures r.Some? ==> p(r.value)
    ensures r.None? <==> !p(root) && forall d :: d in Descendants(root) ==> !p(d)
  {
    if p(root) then Some(root) else Query(root, p)
  }

  /** `x` is the first node of `s` that passes `p`. */
  ghost predicate FirstMatchIn(s: seq<Node>, p: Node -> bool, x: Node) {
    exists i :: 0 <= i < |s| && s[i] == x && p(x) && forall j :: 0 <= j < i ==> !p(s[j])
  }

  lemma FirstMatchCons(y: Node, s: seq<Node>, p: Node -> bool, x: Node)
    requires !p(y) && FirstMatchIn(s, p, x)
    ensures FirstMatchIn([y] + s, p, x)
  {
    var i :| 0 <= i < |s| && s[i] == x && p(x) && forall j :: 0 <= j < i ==> !p(s[j]);
    var t := [y] + s;
    assert t[i + 1] == x;
    forall j | 0 <= j < i + 1 ensures !p(t[j]) {
      if j > 0 {
        assert t[j] == s[j - 1];
      }
    }
  }

  /** The head of a filtered list is the first member of the list that passes. */
  lemma {:induction false} FilterHead(s: seq<Node>, p: Node -> bool)
    requires |Filter(s, p)| > 0
    ensures FirstMatchIn(s, p, Filter(s, p)[0])
  {
    if p(s[0]) {
      assert s[0] == Filter(s, p)[0];
    } else {
      FilterHead(s[1..], p);
      FirstMatchCons(s[0], s[1..], p, Filter(s, p)[0]);
      assert [s[0]] + s[1..] == s;
    }
  }

  lemma {:induction false} FilterAppend(a: seq<Node>, b: seq<Node>, p: Node -> bool)
    ensures Filter(a + b, p) == Filter(a, p) + Filter(b, p)
  {
    if |a| > 0 {
      assert (a + b)[1..] == a[1..] + b;
      FilterAppend(a[1..], b, p);
    } else {
      assert a + b == b;
    }
  }

  /** `querySelectorAll` finds a node exactly when it is a descendant that matches. */
  lemma QueryAllMembers(n: Node, p: Node -> bool, x: Node)
    ensures x in QueryAll(n, p) <==> x in Descendants(n) && p(x)
  {
    FilterMembers(Descendants(n), p);
  }

  /**
   * `querySelectorAll` lists its matches in document order: the first
   * child when it matches, then the matches inside it, then those under
   * the later children.
   */
  lemma QueryAllSplit(tag: string, attrs: seq<Attr>, c: Node, cs: seq<Node>, p: Node -> bool)
    ensures QueryAll(Element(tag, attrs, [c] + cs), p)
            == (if p(c) then [c] else []) + QueryAll(c, p) + QueryAll(Element(tag, attrs, cs), p)
  {
    assert ([c] + cs)[1..] == cs;
    var ds := DescendantsAll([c] + cs);
    assert ds == [c] + Descendants(c) + DescendantsAll(cs);
    FilterAppend([c] + Descendants(c), DescendantsAll(cs), p);
    FilterAppend([c], Descendants(c), p);
    assert [c][1..] == [];
  }

  /** `querySelector` gives the first descendant in document order that matches. */
  lemma QueryFirst(n: Node, p: Node -> bool)
    ensures Query(n, p).Some? ==> FirstMatchIn(Descendants(n), p, Query(n, p).value)
  {
    if Query(n, p).Some? {
      FilterHead(Descendants(n), p);
    }
  }

  /** `document.querySelector` gives the first matching node of the document in document order, the root first. */
  lemma QueryDocumentFirst(root: Node, p: Node -> bool)
    ensures QueryDocument(root, p).Some? ==> FirstMatchIn([root] + Descendants(root), p, QueryDocument(root, p).value)
  {
    if p(root) {
      assert ([root] + Descendants(root))[0] == root;
    } else if Query(root, p).Some? {
      QueryFirst(root, p);
      FirstMatchCons(root, Descendants(root), p, Query(root, p).value);
    }
  }

  // ---------------------------------------------------------------------
  // innerHTML: the HTML fragment serialization algorithm
  // ---------------------------------------------------------------------

  /** Elements serialized without children or an end tag. */
  const VoidElements: set<string> :=
    {"area", "base", "basefont", "bgsound", "br", "col", "embed", "frame", "hr", "img",
     "input", "keygen", "link", "meta", "param", "source", "track", "wbr"}

  /** Elements whose text children are serialized without escaping (`noscript` too, as scripting is enabled where the script runs). */
  const RawTextElements: set<string> :=
    {"style", "script", "xmp", "iframe", "noembed", "noframes", "plaintext", "noscript"}

  /** Text escaping: `&`, no-break space, `<` and `>` become character references. */
  function EscapeText(s: string): (r: string)
    ensures |r| >= |s|
  {
    if |s| == 0 then "" else EscapeTextChar(s[0]) + EscapeText(s[1..])
  }

  function EscapeTextChar(c: char): (r: string)
    ensures |r| >= 1
  {
    if c == '&' then "&amp;"
    else if c == '\U{A0}' then "&nbsp;"
    else if c == '<' then "&lt;"
    else if c == '>' then "&gt;"
    else [c]
  }

  /** Attribute-value escaping: `&`, no-break space, `"`, `<` and `>` become character references. */
  function EscapeAttrValue(s: string): string
  {
    if |s| == 0 then ""
    else
      (if s[0] == '&' then "&amp;"
       else if s[0] == '\U{A0}' then "&nbsp;"
       else if s[0] == '"' then "&quot;"
       else if s[0] == '<' then "&lt;"
       else if s[0] == '>' then "&gt;"
       else [s[0]]) + EscapeAttrValue(s[1..])
  }

  function SerializeAttrs(attrs: seq<Attr>): string
  {
    if |attrs| == 0 then ""
    else " " + attrs[0].name + "=\"" + EscapeAttrValue(attrs[0].value) + "\"" + SerializeAttrs(attrs[1..])
  }

  /** The serialization of one node whose parent element has tag `parent`. */
  function Serialize(n: Node, parent: string): (r: string)
    ensures n.Element? ==> |r| > 0 && r[0] == '<'
    ensures n.Text? ==> (r == "" <==> n.data == "")
  {
    match n
    case Text(d) => if parent in RawTextElements then d else EscapeText(d)
    case Element(tag, attrs, cs) =>
      "<" + tag + SerializeAttrs(attrs) + ">"
      + (if tag in VoidElements then "" else SerializeAll(cs, tag) + "</" + tag + ">")
  }

  function SerializeAll(cs: seq<Node>, parent: string): string
  {
    if |cs| == 0 then "" else Serialize(cs[0], parent) + SerializeAll(cs[1..], parent)
  }

  /** `el.innerHTML`. */
  function InnerHtml(el: Node): string
    requires el.Element?
  {
    SerializeAll(el.children, el.tag)
  }

  /** An element's `innerHTML` is empty exactly when all its children are empty text nodes. */
  lemma {:induction false} SerializeAllEmpty(cs: seq<Node>, parent: string)
    ensures SerializeAll(cs, parent) == "" <==> forall k :: 0 <= k < |cs| ==> cs[k] == Text("")
  {
    if |cs| > 0 {
      SerializeAllEmpty(cs[1..], parent);
      assert forall k :: 1 <= k < |cs| ==> cs[k] == cs[1..][k - 1];
    }
  }

  // ---------------------------------------------------------------------
  // Re-parsing: the tree the HTML parser builds from an `innerHTML` string
  // ---------------------------------------------------------------------

  /**
   * `node.normalize()`: adjacent text nodes become one and empty text
   * nodes go. The HTML parser never produces either, so parsing a
   * serialization back gives the normalized tree.
   */
  function Normalize(n: Node): (r: Node)
    ensures n.Text? ==> r == n
    ensures n.Element? ==> r.Element? && r.tag == n.tag && r.attrs == n.attrs
    decreases Size(n), 1
  {
    match n
    case Text(_) => n
    case Element(tag, attrs, cs) => Element(tag, attrs, NormalizeAll(cs))
  }

  function NormalizeAll(cs: seq<Node>): seq<Node>
    decreases SizeAll(cs), 2
  {
    if |cs| == 0 then [] else MergeText(Normalize(cs[0]), NormalizeAll(cs[1..]))
  }

  /** Put `x` in front of `rest`: an empty text is dropped, a text before a text is joined with it. */
  function MergeText(x: Node, rest: seq<Node>): seq<Node>
  {
    if x == Text("") then rest
    else if x.Text? && |rest| > 0 && rest[0].Text? then [Text(x.data + rest[0].data)] + rest[1..]
    else [x] + rest
  }

  /** No empty text node and no two text nodes side by side. */
  predicate TextsMerged(cs: seq<Node>) {
    (forall i :: 0 <= i < |cs| ==> cs[i] != Text(""))
    && forall i :: 0 < i < |cs| ==> !(cs[i - 1].Text? && cs[i].Text?)
  }

  /** Every child list in the tree has its texts merged. */
  predicate NormalTree(n: Node)
    decreases Size(n), 1
  {
    n.Text? || NormalTrees(n.children)
  }

  predicate NormalTrees(cs: seq<Node>)
    decreases SizeAll(cs), 2
  {
    TextsMerged(cs) && forall i :: 0 <= i < |cs| ==> NormalTree(cs[i])
  }

  lemma {:induction false} EscapeTextAppend(a: string, b: string)
    ensures EscapeText(a + b) == EscapeText(a) + EscapeText(b)
  {
    if |a| > 0 {
      assert (a + b)[0] == a[0] && (a + b)[1..] == a[1..] + b;
      EscapeTextAppend(a[1..], b);
      AppendAssoc(EscapeTextChar(a[0]), EscapeText(a[1..]), EscapeText(b));
    } else {
      assert a + b == b;
    }
  }

  /** Joining two texts does not change what they serialize to. */
  lemma SerializeJoinedText(a: string, b: string, parent: string)
    ensures Serialize(Text(a + b), parent) == Serialize(Text(a), parent) + Serialize(Text(b), parent)
  {
    EscapeTextAppend(a, b);
  }

  lemma SerializeMerge(x: Node, rest: seq<Node>, parent: string)
    ensures SerializeAll(MergeText(x, rest), parent) == Serialize(x, parent) + SerializeAll(rest, parent)
  {
    if x == Text("") {
    } else if x.Text? && |rest| > 0 && rest[0].Text? {
      var m := Text(x.data + rest[0].data);
      SerializeJoinedText(x.data, rest[0].data, parent);
      assert ([m] + rest[1..])[1..] == rest[1..];
      AppendAssoc(Serialize(x, parent), Serialize(rest[0], parent), SerializeAll(rest[1..], parent));
    } else {
      assert ([x] + rest)[1..] == rest;
    }
  }

  /** Normalizing leaves the serialization unchanged: `innerHTML` cannot tell the two trees apart. */
  lemma {:induction false} SerializeNormalize(n: Node, parent: string)
    ensures Serialize(Normalize(n), parent) == Serialize(n, parent)
    decreases Size(n), 1
  {
    if n.Element? {
      SerializeNormalizeAll(n.children, n.tag);
    }
  }

  lemma {:induction false} SerializeNormalizeAll(cs: seq<Node>, parent: string)
    ensures SerializeAll(NormalizeAll(cs), parent) == SerializeAll(cs, parent)
    decreases SizeAll(cs), 2
  {
    if |cs| > 0 {
      SerializeNormalize(cs[0], parent);
      SerializeNormalizeAll(cs[1..], parent);
      SerializeMerge(Normalize(cs[0]), NormalizeAll(cs[1..]), parent);
    }
  }

  /** Normalizing gives a tree with every child list merged. */
  lemma {:induction false} NormalizeIsNormal(n: Node)
    ensures NormalTree(Normalize(n))
    decreases Size(n), 1
  {
    if n.Element? {
      NormalizeAllIsNormal(n.children);
    }
  }

  lemma {:induction false} NormalizeAllIsNormal(cs: seq<Node>)
    ensures NormalTrees(NormalizeAll(cs))
    decreases SizeAll(cs), 2
  {
    if |cs| > 0 {
      NormalizeIsNormal(cs[0]);
      NormalizeAllIsNormal(cs[1..]);
      MergeKeepsNormal(Normalize(cs[0]), NormalizeAll(cs[1..]));
    }
  }

  lemma MergeKeepsNormal(x: Node, rest: seq<Node>)
    requires NormalTree(x) && NormalTrees(rest)
    ensures NormalTrees(MergeText(x, rest))
  {
    var r := MergeText(x, rest);
    if x == Text("") {
    } else if x.Text? && |rest| > 0 && rest[0].Text? {
      assert r[0] == Text(x.data + rest[0].data);
      assert forall i :: 1 <= i < |r| ==> r[i] == rest[i];
    } else {
      assert forall i :: 1 <= i < |r| ==> r[i] == rest[i - 1];
    }
  }

  /** A normal tree is left as it is: normalizing is idempotent. */
  lemma {:induction false} NormalizeKeepsNormal(n: Node)
    requires NormalTree(n)
    ensures Normalize(n) == n
    decreases Size(n), 1
  {
    if n.Element? {
      NormalizeAllKeepsNormal(n.children);
    }
  }

  lemma {:induction false} NormalizeAllKeepsNormal(cs: seq<Node>)
    requires NormalTrees(cs)
    ensures NormalizeAll(cs) == cs
    decreases SizeAll(cs), 2
  {
    if |cs| > 0 {
      NormalizeKeepsNormal(cs[0]);
      assert NormalTrees(cs[1..]) by {
        assert forall i :: 0 <= i < |cs| - 1 ==> cs[1..][i] == cs[i + 1];
      }
      NormalizeAllKeepsNormal(cs[1..]);
      assert cs[0] != Text("");
      assert |cs| > 1 ==> !(cs[0].Text? && cs[1].Text?);
      assert [cs[0]] + cs[1..] == cs;
    }
  }

  lemma NormalizeIdempotent(cs: seq<Node>)
    ensures NormalizeAll(NormalizeAll(cs)) == NormalizeAll(cs)
  {
    NormalizeAllIsNormal(cs);
    NormalizeAllKeepsNormal(NormalizeAll(cs));
  }
}
