/** Character classes and string scanning primitives shared by both tokenizers
    and the selector engine. A `char` is a Unicode scalar value, where
    JavaScript strings hold UTF-16 code units; the two agree on the Basic
    Multilingual Plane, and every class below only matches characters there. */
module Chars {

  /** JavaScript's `\s` class; `String.prototype.trim` strips exactly this set. */
  predicate IsSpace(c: char) {
    || c == ' ' || c == '\t' || c == '\n' || c == '\r'
    || c == '\U{000B}' || c == '\U{000C}' || c == '\U{00A0}' || c == '\U{1680}'
    || ('\U{2000}' <= c <= '\U{200A}')
    || c == '\U{2028}' || c == '\U{2029}' || c == '\U{202F}' || c == '\U{205F}'
    || c == '\U{3000}' || c == '\U{FEFF}'
  }

  /** The class `[a-zA-Z0-9]` of tag names. */
  predicate IsAlnum(c: char) {
    ('a' <= c <= 'z') || ('A' <= c <= 'Z') || ('0' <= c <= '9')
  }

  /** The class `[a-zA-Z0-9-]` of attribute names. */
  predicate IsNameChar(c: char) {
    IsAlnum(c) || c == '-'
  }

  predicate IsQuote(c: char) {
    c == '\'' || c == '"'
  }

  /** `toLowerCase` restricted to the characters that can lower-case to an
      ASCII letter of "doctype" (the only use made of it). */
  function LowerAscii(c: char): char {
    if 'A' <= c <= 'Z' then (c as int + 32) as char else c
  }

  /** A character lower-cases to the small letter `l` exactly when it is `l`
      or the capital of `l`. */
  lemma LowerAsciiLetter(c: char, l: char)
    requires 'a' <= l <= 'z'
    ensures LowerAscii(c) == l <==> c == l || c as int == l as int - 32
  {
  }

  /** `toLowerCase` on a string, character by character. */
  function LowerAll(s: string): string {
    seq(|s|, k requires 0 <= k < |s| => LowerAscii(s[k]))
  }

  /** Every character of `s` is in the class `p`. */
  predicate All(s: string, p: char -> bool) {
    forall k :: 0 <= k < |s| ==> p(s[k])
  }

  /** The end of the maximal run of characters in the class `p` that starts at
      `i`: the scanning loop `while (i < s.length && p(s[i])) i++`. */
  function Span(s: string, i: nat, p: char -> bool): (j: nat)
    requires i <= |s|
    ensures
      && i <= j <= |s|
      && (forall k {:trigger p(s[k])} :: i <= k < j ==> p(s[k]))
      && (j == |s| || !p(s[j]))
    decreases |s| - i
  {
    if i == |s| || !p(s[i]) then i else Span(s, i + 1, p)
  }

  /** The start of the maximal run of characters in the class `p` that ends
      just before `j`. */
  function SpanBack(s: string, j: nat, p: char -> bool): (i: nat)
    requires j <= |s|
    ensures
      && i <= j
      && (forall k {:trigger p(s[k])} :: i <= k < j ==> p(s[k]))
      && (i == 0 || !p(s[i - 1]))
  {
    if j == 0 || !p(s[j - 1]) then j else SpanBack(s, j - 1, p)
  }

  /** JavaScript's `s.startsWith(t, i)`. */
  predicate StartsAt(s: string, i: nat, t: string) {
    i + |t| <= |s| && s[i..i + |t|] == t
  }

  /** Where the loop `while (i < s.length && !s.startsWith(t, i)) i++` stops:
      the first occurrence of `t` at or after `i`, or the end of `s`. */
  function Find(s: string, i: nat, t: string): (j: nat)
    requires i <= |s|
    ensures i <= j <= |s|
    ensures j == |s| || StartsAt(s, j, t)
    ensures forall k :: i <= k < j ==> !StartsAt(s, k, t)
    decreases |s| - i
  {
    if i == |s| || StartsAt(s, i, t) then i else Find(s, i + 1, t)
  }

  /** `Find` stops at the first occurrence. */
  lemma FindIs(s: string, i: nat, t: string, j: nat)
    requires i <= j <= |s|
    requires j == |s| || StartsAt(s, j, t)
    requires forall k :: i <= k < j ==> !StartsAt(s, k, t)
    ensures Find(s, i, t) == j
  {
  }

  /** Looking for `t` inside a copy of `w` placed at offset `o` of `s`. */
  lemma StartsAtShift(s: string, o: nat, w: string, k: nat, t: string)
    requires o + |w| <= |s| && s[o..o + |w|] == w
    requires k + |t| <= |w|
    ensures StartsAt(s, o + k, t) <==> StartsAt(w, k, t)
  {
    forall i | k <= i < k + |t|
      ensures s[o + i] == w[i]
    {
      assert s[o..o + |w|][i] == s[o + i];
    }
    var a, b := s[o + k..o + k + |t|], w[k..k + |t|];
    assert forall m :: 0 <= m < |t| ==> a[m] == b[m];
  }

  /** The tail of a string found at `pos` is found further along. */
  lemma StartsAtSuffix(s: string, pos: nat, w: string, i: nat)
    requires StartsAt(s, pos, w) && i <= |w|
    ensures StartsAt(s, pos + i, w[i..])
  {
    assert s[pos + i..pos + |w|] == s[pos..pos + |w|][i..];
  }

  /** The first `n` characters of a string found at `pos`. */
  lemma StartsAtPrefix(s: string, pos: nat, w: string, n: nat)
    requires StartsAt(s, pos, w) && n <= |w|
    ensures s[pos..pos + n] == w[..n] && StartsAt(s, pos, w[..n])
  {
    assert s[pos..pos + n] == s[pos..pos + |w|][..n];
  }

  /** Where a copy of `v` sits at offset `o` of `s`, no `t` starts in `s` at
      the first `n` positions of that copy when none starts there in `v`. */
  lemma NoneBefore(s: string, o: nat, v: string, n: nat, t: string)
    requires StartsAt(s, o, v) && n + |t| <= |v|
    requires forall k :: 0 <= k < n ==> !StartsAt(v, k, t)
    ensures forall k :: o <= k < o + n ==> !StartsAt(s, k, t)
  {
    forall k | o <= k < o + n
      ensures !StartsAt(s, k, t)
    {
      StartsAtShift(s, o, v, k - o, t);
    }
  }

  /** A string found at `pos` begins with each of its prefixes. */
  lemma StartsAtFirst(s: string, pos: nat, a: string, b: string)
    requires StartsAt(s, pos, a + b)
    ensures StartsAt(s, pos, a)
  {
    assert s[pos..pos + |a|] == s[pos..pos + |a + b|][..|a|];
  }

  /** One character of a string found at offset `pos`. */
  lemma CharAt(s: string, pos: nat, w: string, m: nat)
    requires StartsAt(s, pos, w) && m < |w|
    ensures s[pos + m] == w[m]
  {
    assert s[pos..pos + |w|][m] == s[pos + m];
  }

  /** The characters of a string found at offset `pos`. */
  lemma CharsAt(s: string, pos: nat, w: string)
    requires StartsAt(s, pos, w)
    ensures forall m :: 0 <= m < |w| ==> s[pos + m] == w[m]
  {
    forall m | 0 <= m < |w|
      ensures s[pos + m] == w[m]
    {
      assert s[pos..pos + |w|][m] == s[pos + m];
    }
  }

  /** `w` spelled out in `s` from offset `pos`, one character at a time. */
  predicate Spelled(s: string, pos: nat, w: string) {
    pos + |w| <= |s| && forall m :: 0 <= m < |w| ==> s[pos + m] == w[m]
  }

  /** A string found at offset `pos` is spelled out there, and so is each of
      its prefixes. */
  lemma SpelledPrefix(s: string, pos: nat, w: string, n: nat)
    requires StartsAt(s, pos, w) && n <= |w|
    ensures Spelled(s, pos, w[..n])
  {
    CharsAt(s, pos, w);
    forall m | 0 <= m < n
      ensures s[pos + m] == w[..n][m]
    {
      assert w[..n][m] == w[m];
    }
  }

  /** A string is not found where its first character is not. */
  lemma NotStartsAt(s: string, pos: nat, w: string)
    requires pos < |s| && w != [] && s[pos] != w[0]
    ensures !StartsAt(s, pos, w)
  {
    if pos + |w| <= |s| {
      assert s[pos..pos + |w|][0] == s[pos];
    }
  }

  /** Two descriptions of the first `c` from `q` name the same index: one
      that ends a `c`-free stretch, and one that holds `c` with no `c`
      before it. */
  lemma FirstCharUnique(s: string, q: nat, c: char, j: nat, m: nat)
    requires q <= j <= |s| && (j == |s| || s[j] == c) && c !in s[q..j]
    requires q <= m < |s| && s[m] == c && forall k :: q <= k < m ==> s[k] != c
    ensures j == m
  {
    assert forall k :: q <= k < j ==> s[k] == s[q..j][k - q];
  }

  /** A string spelled out at `pos` is found there. */
  lemma SpelledStarts(s: string, pos: nat, w: string)
    requires Spelled(s, pos, w)
    ensures StartsAt(s, pos, w)
  {
    assert forall m :: 0 <= m < |w| ==> s[pos..pos + |w|][m] == w[m];
  }

  /** `Span` stops at the first character outside the class. */
  lemma {:induction false} SpanIs(s: string, i: nat, p: char -> bool, j: nat)
    requires i <= j <= |s|
    requires forall k :: i <= k < j ==> p(s[k])
    requires j == |s| || !p(s[j])
    ensures Span(s, i, p) == j
    decreases j - i
  {
    if i < j {
      SpanIs(s, i + 1, p, j);
    }
  }

  /** The run of class `p` starting at `i` is exactly `w` when `w` is in the
      class and the character after it is not. */
  lemma SpanAt(s: string, i: nat, p: char -> bool, w: string, c: char)
    requires StartsAt(s, i, w + [c])
    requires All(w, p) && !p(c)
    ensures Span(s, i, p) == i + |w| && s[i..i + |w|] == w && s[i + |w|] == c
  {
    var v := w + [c];
    var j := i + |w|;
    CharsAt(s, i, v);
    assert s[j] == v[|w|];
    forall k | i <= k < j
      ensures p(s[k])
    {
      assert s[k] == v[k - i] == w[k - i];
    }
    SpanIs(s, i, p, j);
    StartsAtPrefix(s, i, v, |w|);
    assert v[..|w|] == w;
  }

  /** The first position at or after `i` holding `c`, or `|s|`: the loop
      `while (i < s.length && s[i] !== c) i++`. */
  function IndexOf(s: string, i: nat, c: char): (j: nat)
    requires i <= |s|
    ensures i <= j <= |s| && c !in s[i..(j)] && (j == |s| || s[j] == c)
    decreases |s| - i
  {
    if i == |s| || s[i] == c then
      i
    else
      var j := IndexOf(s, i + 1, c);
      assert s[i..j] == [s[i]] + s[i + 1..j];
      j
  }

  /** `IndexOf` stops at the first copy of `c`. */
  lemma {:induction false} IndexOfIs(s: string, i: nat, c: char, j: nat)
    requires i <= j <= |s|
    requires forall k :: i <= k < j ==> s[k] != c
    requires j == |s| || s[j] == c
    ensures IndexOf(s, i, c) == j
    decreases j - i
  {
    if i < j {
      IndexOfIs(s, i + 1, c, j);
    }
  }

  /** Searching for a one-character target is a search for that character. */
  lemma {:induction false} FindChar(s: string, i: nat, c: char)
    requires i <= |s|
    ensures Find(s, i, [c]) == IndexOf(s, i, c)
    decreases |s| - i
  {
    if i < |s| {
      assert StartsAt(s, i, [c]) <==> s[i] == c by {
        assert s[i..i + 1] == [s[i]];
      }
      if s[i] != c {
        FindChar(s, i + 1, c);
      }
    }
  }

  /** Searching for one character stops at that character, with no copy of it
      before. */
  lemma FindCharAt(s: string, i: nat, c: char)
    requires i <= |s|
    ensures
      var j := Find(s, i, [c]);
      (j == |s| || s[j] == c) && c !in s[i..j]
  {
    FindChar(s, i, c);
    var j := Find(s, i, [c]);
    assert forall k :: 0 <= k < j - i ==> s[i..j][k] == s[i + k];
  }

  /** Every character of `s` is whitespace. */
  predicate Blank(s: string) {
    forall k :: 0 <= k < |s| ==> IsSpace(s[k])
  }

  /** JavaScript's `String.prototype.trim`. */
  function Trim(s: string): (r: string)
    ensures |r| <= |s|
    ensures r != [] ==> !IsSpace(r[0]) && !IsSpace(r[|r| - 1])
    ensures r != [] ==> exists i :: TrimmedAt(s, i, r)
  {
    var a := Span(s, 0, IsSpace);
    if a == |s| then
      []
    else
      var b := SpanBack(s, |s|, IsSpace);
      assert !IsSpace(s[a]);
      assert a < b;
      assert TrimmedAt(s, a, s[a..b]);
      s[a..b]
  }

  /** `trim` gives the empty string exactly when the input is all whitespace. */
  lemma TrimBlank(s: string)
    ensures Trim(s) == [] <==> Blank(s)
  {
    var a := Span(s, 0, IsSpace);
    if a < |s| {
      assert !IsSpace(s[a]);
    }
  }

  /** `trim` leaves a string that starts and ends with non-whitespace unchanged. */
  lemma TrimKeeps(s: string)
    requires s != [] && !IsSpace(s[0]) && !IsSpace(s[|s| - 1])
    ensures Trim(s) == s
  {
    assert Span(s, 0, IsSpace) == 0;
    assert SpanBack(s, |s|, IsSpace) == |s|;
  }

  /** `r` sits at offset `i` of `s` with only whitespace around it. */
  ghost predicate TrimmedAt(s: string, i: nat, r: string) {
    && i + |r| <= |s|
    && s[i..i + |r|] == r
    && (forall k :: 0 <= k < i ==> IsSpace(s[k]))
    && (forall k :: i + |r| <= k < |s| ==> IsSpace(s[k]))
  }

  /** A string that `trim` leaves unchanged at its end. */
  predicate NoTrailingSpace(s: string) {
    s == [] || !IsSpace(s[|s| - 1])
  }

  /** JavaScript's `s.split(sep)` for a one-character separator: every piece,
      empty ones included, in order. */
  function Split(s: string, sep: char): (parts: seq<string>)
    ensures |parts| >= 1 && Join(parts, sep) == s
    ensures sep in s <==> |parts| >= 2
    ensures forall k :: 0 <= k < |parts| ==> sep !in parts[k]
    decreases |s|
  {
    var j := IndexOf(s, 0, sep);
    if j == |s| then
      assert s[..j] == s;
      [s]
    else
      var rest := Split(s[j + 1..], sep);
      assert s == s[..j] + [sep] + s[j + 1..];
      [s[..j]] + rest
  }

  /** JavaScript's `parts.join(sep)`. */
  function Join(parts: seq<string>, sep: char): string
    requires |parts| >= 1
  {
    if |parts| == 1 then parts[0] else parts[0] + [sep] + Join(parts[1..], sep)
  }

  /** Splitting is the inverse of joining pieces that do not contain the separator. */
  lemma {:induction false} SplitJoin(parts: seq<string>, sep: char)
    requires |parts| >= 1
    requires forall k :: 0 <= k < |parts| ==> sep !in parts[k]
    ensures Split(Join(parts, sep), sep) == parts
  {
    var s := Join(parts, sep);
    var j := IndexOf(s, 0, sep);
    if |parts| == 1 {
    } else {
      var p0 := parts[0];
      assert s == p0 + [sep] + Join(parts[1..], sep);
      assert s[|p0|] == sep;
      assert forall k :: 0 <= k < |p0| ==> s[k] == p0[k];
      assert j == |p0|;
      assert s[j + 1..] == Join(parts[1..], sep);
      SplitJoin(parts[1..], sep);
      assert s[..j] == p0;
    }
  }

  /** A string without the separator is one piece. */
  lemma SplitNone(s: string, sep: char)
    requires sep !in s
    ensures Split(s, sep) == [s]
  {
  }

  /** The first piece ends at the first separator. */
  lemma SplitFirst(t: string, sep: char, rest: string)
    requires sep !in t
    ensures Split(t + [sep] + rest, sep) == [t] + Split(rest, sep)
  {
    var s := t + [sep] + rest;
    forall k | 0 <= k < |t|
      ensures s[k] != sep
    {
      assert s[k] == t[k];
    }
    IndexOfIs(s, 0, sep, |t|);
    assert s[..|t|] == t && s[|t| + 1..] == rest;
  }

  /** Joining strings of a class with a separator of that class stays in it. */
  lemma {:induction false} JoinAll(parts: seq<string>, sep: char, p: char -> bool)
    requires |parts| >= 1 && p(sep)
    requires forall w :: w in parts ==> All(w, p)
    ensures All(Join(parts, sep), p)
  {
    if |parts| > 1 {
      JoinAll(parts[1..], sep, p);
      var a := parts[0] + [sep];
      var s := Join(parts, sep);
      assert s == a + Join(parts[1..], sep);
      assert All(parts[0], p);
      forall k | 0 <= k < |s|
        ensures p(s[k])
      {
        if k < |parts[0]| {
          assert s[k] == parts[0][k];
        } else if k > |parts[0]| {
          assert s[k] == Join(parts[1..], sep)[k - |a|];
        }
      }
    }
  }

  /** `s.replace(/['"]/g, '')`. */
  function RemoveQuotes(s: string): (r: string)
    ensures forall k :: 0 <= k < |r| ==> !IsQuote(r[k])
    ensures |r| <= |s|
    ensures (forall k :: 0 <= k < |s| ==> !IsQuote(s[k])) ==> r == s
  {
    if s == [] then []
    else if IsQuote(s[0]) then RemoveQuotes(s[1..])
    else [s[0]] + RemoveQuotes(s[1..])
  }

  /** Quotes are removed piece by piece: what survives of `a + b` is what
      survives of `a` followed by what survives of `b`. */
  lemma {:induction false} RemoveQuotesAppend(a: string, b: string)
    ensures RemoveQuotes(a + b) == RemoveQuotes(a) + RemoveQuotes(b)
  {
    if a == [] {
      assert a + b == b;
    } else {
      var ab := a + b;
      assert ab[0] == a[0] && ab[1..] == a[1..] + b;
      RemoveQuotesAppend(a[1..], b);
      var x, y := RemoveQuotes(a[1..]), RemoveQuotes(b);
      if IsQuote(a[0]) {
        assert RemoveQuotes(ab) == RemoveQuotes(ab[1..]);
      } else {
        assert RemoveQuotes(ab) == [a[0]] + RemoveQuotes(ab[1..]);
        assert [a[0]] + (x + y) == ([a[0]] + x) + y;
      }
    }
  }

  /** A single character survives exactly when it is not a quote. */
  lemma RemoveQuotesOne(c: char)
    ensures RemoveQuotes([c]) == if IsQuote(c) then [] else [c]
  {
    assert [c][1..] == [];
  }

  /** `s.slice(0, -1)`: everything but the last character. */
  function DropLast(s: string): (r: string)
    ensures s != [] ==> s == r + [s[|s| - 1]]
    ensures s == [] ==> r == []
  {
    if s == [] then [] else s[..|s| - 1]
  }
}
