/**
 * The JavaScript string operations the exporters rely on: `trim`, `split`,
 * `join`, `includes`, `repeat` and number-to-string conversion, written out
 * character by character.
 */
module Strings {

  /** The characters JavaScript's `trim` and the regular expression class `\s` treat as white space. */
  predicate IsJsWhitespace(c: char) {
    c == '\t' || c == '\n' || c == '\U{B}' || c == '\U{C}' || c == '\r' || c == ' '
    || c == '\U{A0}' || c == '\U{1680}' || ('\U{2000}' <= c <= '\U{200A}')
    || c == '\U{2028}' || c == '\U{2029}' || c == '\U{202F}' || c == '\U{205F}'
    || c == '\U{3000}' || c == '\U{FEFF}'
  }

  /** True when `s` holds at least one character that is not white space (JavaScript's `s.trim()` is truthy). */
  predicate HasNonWhitespace(s: string) {
    exists i :: 0 <= i < |s| && !IsJsWhitespace(s[i])
  }

  function TrimStart(s: string): (r: string)
    ensures |r| <= |s|
    ensures r == [] || !IsJsWhitespace(r[0])
    ensures forall i :: 0 <= i < |s| - |r| ==> IsJsWhitespace(s[i])
  {
    if |s| > 0 && IsJsWhitespace(s[0]) then TrimStart(s[1..]) else s
  }

  function TrimEnd(s: string): (r: string)
    ensures |r| <= |s|
    ensures r == [] || !IsJsWhitespace(r[|r| - 1])
    ensures forall i :: |r| <= i < |s| ==> IsJsWhitespace(s[i])
  {
    if |s| > 0 && IsJsWhitespace(s[|s| - 1]) then TrimEnd(s[..|s| - 1]) else s
  }

  /** What `TrimStart` keeps is a suffix of its input. */
  lemma {:induction false} TrimStartSuffix(s: string)
    ensures TrimStart(s) == s[|s| - |TrimStart(s)|..]
  {
    if |s| > 0 && IsJsWhitespace(s[0]) {
      TrimStartSuffix(s[1..]);
    }
  }

  /** What `TrimEnd` keeps is a prefix of its input. */
  lemma {:induction false} TrimEndPrefix(s: string)
    ensures TrimEnd(s) == s[..|TrimEnd(s)|]
  {
    if |s| > 0 && IsJsWhitespace(s[|s| - 1]) {
      TrimEndPrefix(s[..|s| - 1]);
    }
  }

  /** JavaScript's `String.prototype.trim`. */
  function Trim(s: string): (r: string)
  {
    TrimEnd(TrimStart(s))
  }

  /** The trimmed string is a slice of the input with no white space at either end, and all that was cut is white space. */
  lemma TrimIsSlice(s: string) returns (k: nat)
    ensures k + |Trim(s)| <= |s| && Trim(s) == s[k..k + |Trim(s)|]
    ensures Trim(s) == [] || (!IsJsWhitespace(Trim(s)[0]) && !IsJsWhitespace(Trim(s)[|Trim(s)| - 1]))
    ensures forall i :: 0 <= i < k ==> IsJsWhitespace(s[i])
    ensures forall i :: k + |Trim(s)| <= i < |s| ==> IsJsWhitespace(s[i])
  {
    var a := TrimStart(s);
    k := |s| - |a|;
    var r := TrimEnd(a);
    TrimStartSuffix(s);
    TrimEndPrefix(a);
    SliceOfSlice(s, a, r, k);
    TrimEdges(s);
  }

  /** `s.trim()` is empty exactly when `s` is all white space. */
  lemma TrimEmptyIff(s: string)
    ensures Trim(s) == [] <==> !HasNonWhitespace(s)
  {
    var k := TrimIsSlice(s);
    var r := Trim(s);
    if r == [] {
      forall i | 0 <= i < |s| ensures IsJsWhitespace(s[i]) {
        if i >= k {
          assert k + |r| <= i;
        }
      }
    } else {
      assert s[k] == r[0];
    }
  }

  /** Neither end of a trimmed string is white space. */
  lemma TrimEdges(s: string)
    ensures Trim(s) == [] || (!IsJsWhitespace(Trim(s)[0]) && !IsJsWhitespace(Trim(s)[|Trim(s)| - 1]))
  {
    var a := TrimStart(s);
    var r := TrimEnd(a);
    TrimEndPrefix(a);
    if r != [] {
      assert r[0] == a[0];
    }
  }

  lemma SliceOfSlice(s: string, a: string, r: string, k: nat)
    requires k <= |s| && a == s[k..] && |r| <= |a| && r == a[..|r|]
    requires forall i :: |r| <= i < |a| ==> IsJsWhitespace(a[i])
    ensures r == s[k..k + |r|]
    ensures forall i :: k + |r| <= i < |s| ==> IsJsWhitespace(s[i])
  {
    forall i | k + |r| <= i < |s| ensures IsJsWhitespace(s[i]) {
      assert s[i] == a[i - k];
    }
  }

  /** Trimming a string that is already white-space free at both ends changes nothing. */
  lemma TrimNoEdgeWhitespace(s: string)
    requires s == [] || (!IsJsWhitespace(s[0]) && !IsJsWhitespace(s[|s| - 1]))
    ensures Trim(s) == s
  {
  }

  /** Trimming removes a white-space prefix and suffix around a core whose ends are not white space. */
  lemma TrimAround(pre: string, core: string, post: string)
    requires forall i :: 0 <= i < |pre| ==> IsJsWhitespace(pre[i])
    requires forall i :: 0 <= i < |post| ==> IsJsWhitespace(post[i])
    requires |core| > 0 && !IsJsWhitespace(core[0]) && !IsJsWhitespace(core[|core| - 1])
    ensures Trim(pre + core + post) == core
  {
    var s := pre + core + post;
    var k := TrimIsSlice(s);
    var r := Trim(s);
    assert forall i :: 0 <= i < |pre| ==> s[i] == pre[i];
    assert forall i :: |pre| + |core| <= i < |s| ==> s[i] == post[i - |pre| - |core|];
    assert s[|pre|] == core[0];
    assert s[|pre| + |core| - 1] == core[|core| - 1];
    assert k == |pre| && |r| == |core|;
    assert s[|pre|..|pre| + |core|] == core;
  }

  /** JavaScript's `s.split('\n')`: the pieces between newlines; always at least one piece. */
  function SplitLines(s: string): (r: seq<string>)
    ensures |r| >= 1
    ensures forall k :: 0 <= k < |r| ==> '\n' !in r[k]
  {
    if |s| == 0 then [""]
    else
      var rest := SplitLines(s[1..]);
      if s[0] == '\n' then [""] + rest
      else [[s[0]] + rest[0]] + rest[1..]
  }

  /** JavaScript's `parts.join(sep)`. */
  function Join(parts: seq<string>, sep: string): string
  {
    if |parts| == 0 then ""
    else if |parts| == 1 then parts[0]
    else parts[0] + sep + Join(parts[1..], sep)
  }

  /** Joining the lines of a string with newlines gives the string back. */
  lemma {:induction false} JoinSplitLines(s: string)
    ensures Join(SplitLines(s), "\n") == s
  {
    if |s| > 0 {
      JoinSplitLines(s[1..]);
      var rest := SplitLines(s[1..]);
      if s[0] == '\n' {
        assert s == "\n" + s[1..];
      } else if |rest| == 1 {
        assert s == [s[0]] + s[1..];
      } else {
        assert Join(rest, "\n") == rest[0] + "\n" + Join(rest[1..], "\n");
        assert s == [s[0]] + s[1..];
      }
    }
  }

  /** Splitting a newline-joined list of newline-free pieces gives the pieces back. */
  lemma {:induction false} SplitLinesJoin(parts: seq<string>)
    requires |parts| >= 1
    requires forall k :: 0 <= k < |parts| ==> '\n' !in parts[k]
    ensures SplitLines(Join(parts, "\n")) == parts
  {
    if |parts| == 1 {
      SplitLinesNoNewline(parts[0]);
    } else {
      SplitLinesJoin(parts[1..]);
      SplitLinesAppend(parts[0], Join(parts[1..], "\n"));
    }
  }

  lemma {:induction false} SplitLinesNoNewline(s: string)
    requires '\n' !in s
    ensures SplitLines(s) == [s]
  {
    if |s| > 0 {
      SplitLinesNoNewline(s[1..]);
      assert s == [s[0]] + s[1..];
    }
  }

  lemma {:induction false} SplitLinesAppend(a: string, b: string)
    requires '\n' !in a
    ensures SplitLines(a + "\n" + b) == [a] + SplitLines(b)
  {
    if |a| == 0 {
      assert a + "\n" + b == "\n" + b;
      assert ("\n" + b)[1..] == b;
    } else {
      assert (a + "\n" + b)[1..] == a[1..] + "\n" + b;
      SplitLinesAppend(a[1..], b);
      assert [a[0]] + a[1..] == a;
    }
  }

  /** JavaScript's `s.includes(needle)`. */
  predicate Includes(s: string, needle: string)
    decreases |s|
  {
    (|needle| <= |s| && s[..|needle|] == needle) || (|s| > 0 && Includes(s[1..], needle))
  }

  /** `s.repeat(n)`. */
  function Repeat(s: string, n: nat): string
  {
    if n == 0 then "" else s + Repeat(s, n - 1)
  }

  /** `s.repeat(n)` has `n` times the length of `s`. */
  lemma {:induction false} RepeatLength(s: string, n: nat)
    ensures |Repeat(s, n)| == |s| * n
  {
    if n > 0 {
      RepeatLength(s, n - 1);
    }
  }

  /** The decimal digits of a natural number, as `String(n)` prints it. */
  function NatToString(n: nat): (r: string)
    ensures |r| >= 1
    ensures forall i :: 0 <= i < |r| ==> '0' <= r[i] <= '9'
  {
    if n < 10 then [Digit(n)] else NatToString(n / 10) + [Digit(n % 10)]
  }

  function Digit(d: nat): (c: char)
    requires d < 10
    ensures '0' <= c <= '9'
  {
    "0123456789"[d]
  }

  /** `String(i)` for an integer-valued JavaScript number. */
  function IntToString(i: int): string
  {
    if i < 0 then "-" + NatToString(-i) else NatToString(i)
  }

  /** `s.indexOf(c)`, with `|s|` standing for "not found". */
  function IndexOf(s: string, c: char): (r: nat)
    ensures r <= |s|
    ensures forall i :: 0 <= i < r ==> s[i] != c
    ensures r < |s| ==> s[r] == c
  {
    if |s| == 0 || s[0] == c then 0 else 1 + IndexOf(s[1..], c)
  }

  /** Every character of `s` is `c`. */
  lemma {:induction false} RepeatChar(c: char, n: nat)
    ensures |Repeat([c], n)| == n && forall i :: 0 <= i < n ==> Repeat([c], n)[i] == c
  {
    if n > 0 {
      RepeatChar(c, n - 1);
    }
  }

  /** The number of occurrences of a character. */
  function Count(s: string, c: char): nat
  {
    if |s| == 0 then 0 else (if s[0] == c then 1 else 0) + Count(s[1..], c)
  }

  lemma EmptyAppend(s: string)
    ensures "" + s == s
  {
  }

  lemma AppendAssoc(a: string, b: string, c: string)
    ensures (a + b) + c == a + (b + c)
  {
  }

  /** A prefix `a + t` of `b` stays a prefix of `b` behind a common head, written left to right. */
  lemma PrefixBehindHead(h: string, a: string, t: string, at: string, b: string)
    requires at == a + t && at <= b
    ensures h + a + t <= h + b
  {
    AppendAssoc(h, a, t);
    PrefixConcat(h, at, b);
  }

  /** A prefix of `c` is a prefix of any `s` that is `c` followed by something. */
  lemma PrefixOfSum(a: string, c: string, d: string, s: string)
    requires a <= c && s == c + d
    ensures a <= s
  {
    PrefixAppend(a, c, d);
  }

  /** A prefix of `c` is a prefix of `c` followed by anything. */
  lemma PrefixAppend(a: string, c: string, d: string)
    requires a <= c
    ensures a <= c + d
  {
    assert (c + d)[..|c|] == c;
  }

  /** A prefix stays a prefix behind a common head. */
  lemma PrefixConcat(h: string, a: string, b: string)
    requires a <= b
    ensures h + a <= h + b
  {
    assert (h + b)[..|h + a|] == h + b[..|a|];
  }

  /** The first `count` elements of `xs`, each rendered by `f` with its position, concatenated in order (a `forEach` that appends). */
  function ConcatIndexed<T>(xs: seq<T>, f: (T, nat) -> string, count: nat): string
    requires count <= |xs|
  {
    if count == 0 then "" else ConcatIndexed(xs, f, count - 1) + f(xs[count - 1], count - 1)
  }

  /** Appending the next piece to the first `count - 1` pieces gives the first `count`. */
  lemma ConcatIndexedExtend<T>(xs: seq<T>, f: (T, nat) -> string, count: nat, x: T, prev: string, piece: string, cur: string)
    requires 0 < count <= |xs| && x == xs[count - 1]
    requires prev == ConcatIndexed(xs, f, count - 1) && piece == f(x, count - 1)
    requires cur == prev + piece
    ensures cur == ConcatIndexed(xs, f, count)
  {
  }

  /** Rendering more elements only appends: the text for the first `j` is a prefix of the text for the first `k`. */
  lemma {:induction false} ConcatIndexedPrefix<T>(xs: seq<T>, f: (T, nat) -> string, j: nat, k: nat)
    requires j <= k <= |xs|
    ensures ConcatIndexed(xs, f, j) <= ConcatIndexed(xs, f, k)
    decreases k
  {
    if j < k {
      ConcatIndexedPrefix(xs, f, j, k - 1);
      var b := ConcatIndexed(xs, f, k - 1);
      PrefixAppend(ConcatIndexed(xs, f, j), b, f(xs[k - 1], k - 1));
    }
  }

  /** Behind any head, the first `i` pieces followed by piece `i` are a prefix of all the pieces. */
  lemma ConcatIndexedEntryPrefix<T>(h: string, xs: seq<T>, f: (T, nat) -> string, i: nat)
    requires i < |xs|
    ensures h + ConcatIndexed(xs, f, i) + f(xs[i], i) <= h + ConcatIndexed(xs, f, |xs|)
  {
    ConcatIndexedPrefix(xs, f, i + 1, |xs|);
    PrefixBehindHead(h, ConcatIndexed(xs, f, i), f(xs[i], i), ConcatIndexed(xs, f, i + 1), ConcatIndexed(xs, f, |xs|));
  }

  lemma {:induction false} CountAppend(a: string, b: string, c: char)
    ensures Count(a + b, c) == Count(a, c) + Count(b, c)
  {
    if |a| > 0 {
      assert (a + b)[1..] == a[1..] + b;
      CountAppend(a[1..], b, c);
    } else {
      assert a + b == b;
    }
  }

  lemma {:induction false} CountAbsent(s: string, c: char)
    requires c !in s
    ensures Count(s, c) == 0
  {
    if |s| > 0 {
      CountAbsent(s[1..], c);
    }
  }
}
