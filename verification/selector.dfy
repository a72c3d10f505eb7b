/** `matchesSelector` of `src/html-parser.mjs`, and the split of a selector
    string into components by `querySelector`. */
module Selector {
  import opened Chars
  import opened Outcomes
  import opened Tokens
  import opened Dom

  /** `classAttr && classAttr.split(' ').includes(c)`: a missing or empty
      `class` attribute holds no class. */
  predicate HasClass(n: Node, c: string) {
    var v := Lookup(n.attributes, "class");
    v.Some? && v.value != [] && c in Split(v.value, ' ')
  }

  /** The component is tested by its first character (`#id`, `.class`). */
  predicate Prefixed(sel: string) {
    sel != [] && (sel[0] == '#' || sel[0] == '.')
  }

  /** The tag of a `tag[attr=value]` component: the text before the first `[`. */
  function TagOf(sel: string): string {
    Split(sel, '[')[0]
  }

  /** `attrPair.slice(0, -1).split('=')`: the pieces of the text between the
      first `[` and the next `[` (or the end), without its last character. */
  function PairOf(sel: string): (r: seq<string>)
    requires '[' in sel
    ensures |r| >= 1
  {
    Split(DropLast(Split(sel, '[')[1]), '=')
  }

  /** The attribute test is reached: no leading `#` or `.`, no `.`, and both
      `[` and `=` occur. */
  predicate AttrTest(sel: string) {
    !Prefixed(sel) && '.' !in sel && '[' in sel && '=' in sel
  }

  /** An attribute test whose first bracket pair holds no `=`: `value` is
      `undefined`. */
  predicate Throws(sel: string) {
    AttrTest(sel) && |PairOf(sel)| < 2
  }

  /** `matchesSelector(node, selector)`, `None` being the `TypeError` of
      `value.replace` on `undefined`, which the `&&` only reaches when the
      node carries the tag name. */
  function Match(n: Node, sel: string): (r: Option<bool>)
    ensures r.None? <==> Throws(sel) && n.name == TagOf(sel)
  {
    if sel != [] && sel[0] == '#' then
      Some(Lookup(n.attributes, "id") == Some(sel[1..]))
    else if sel != [] && sel[0] == '.' then
      Some(HasClass(n, sel[1..]))
    else if '.' in sel then
      var ps := Split(sel, '.');
      Some(n.name == ps[0] && HasClass(n, ps[1]))
    else if '[' in sel && '=' in sel then
      var pair := PairOf(sel);
      if n.name != TagOf(sel) then Some(false)
      else if |pair| < 2 then None
      else Some(Lookup(n.attributes, pair[0]) == Some(RemoveQuotes(pair[1])))
    else
      Some(n.name == sel)
  }

  /** `#x` holds exactly when the first `id` attribute is `x`; it never throws. */
  lemma IdForm(n: Node, x: string)
    ensures Match(n, "#" + x).Some?
    ensures Match(n, "#" + x).value <==> Lookup(n.attributes, "id") == Some(x)
  {
    assert ("#" + x)[1..] == x;
  }

  /** `.x` holds exactly when the `class` attribute is present, non-empty, and
      has `x` among its pieces between single spaces. */
  lemma ClassForm(n: Node, x: string)
    ensures Match(n, "." + x).Some?
    ensures Match(n, "." + x).value <==>
      var v := Lookup(n.attributes, "class");
      v.Some? && v.value != [] && x in Split(v.value, ' ')
  {
    assert ("." + x)[1..] == x;
  }

  /** A `class` attribute written as names joined by single spaces matches
      exactly those names. */
  lemma ClassList(n: Node, names: seq<string>, c: string)
    requires |names| >= 1 && names[0] != []
    requires forall k :: 0 <= k < |names| ==> ' ' !in names[k]
    requires Lookup(n.attributes, "class") == Some(Join(names, ' '))
    ensures Match(n, "." + c) == Some(c in names)
  {
    assert ("." + c)[1..] == c;
    SplitJoin(names, ' ');
    var v := Join(names, ' ');
    if |names| == 1 {
      assert v == names[0];
    } else {
      assert v == names[0] + [' '] + Join(names[1..], ' ');
    }
  }

  /** `t.c` holds exactly when the node is named `t` and has the class made
      of what follows the `.` up to the next `.`. */
  lemma TagClassForm(n: Node, t: string, c: string)
    requires t != [] && t[0] != '#' && '.' !in t
    ensures Match(n, t + "." + c) == Some(n.name == t && HasClass(n, Split(c, '.')[0]))
  {
    var sel := t + "." + c;
    assert sel[0] == t[0] && sel[|t|] == '.';
    SplitFirst(t, '.', c);
  }

  lemma NoBracketInPair(a: string, v: string)
    requires '[' !in a && '[' !in v
    ensures '[' !in a + "=" + v + "]"
  {
    var inner := a + "=" + v + "]";
    forall k | 0 <= k < |inner|
      ensures inner[k] != '['
    {
      if k < |a| {
        assert inner[k] == a[k];
      } else if |a| < k < |a| + 1 + |v| {
        assert inner[k] == v[k - |a| - 1];
      }
    }
  }

  /** The bracket part `a=v]` of `t[a=v]` splits into `a` and `v`. */
  lemma PairPieces(a: string, v: string)
    requires '=' !in a && '=' !in v
    ensures Split(DropLast(a + "=" + v + "]"), '=') == [a, v]
  {
    assert DropLast(a + "=" + v + "]") == a + "=" + v;
    SplitFirst(a, '=', v);
    SplitNone(v, '=');
  }

  /** The pieces of `t[a=v]`: tag `t`, attribute `a`, value `v`. */
  lemma AttrPieces(t: string, a: string, v: string)
    requires '[' !in t && '[' !in a && '[' !in v
    requires '=' !in a && '=' !in v
    ensures var sel := t + "[" + a + "=" + v + "]";
      '[' in sel && TagOf(sel) == t && PairOf(sel) == [a, v]
  {
    var inner := a + "=" + v + "]";
    var sel := t + "[" + inner;
    assert sel == t + "[" + a + "=" + v + "]";
    assert sel[|t|] == '[';
    SplitFirst(t, '[', inner);
    NoBracketInPair(a, v);
    SplitNone(inner, '[');
    assert Split(sel, '[') == [t, inner];
    PairPieces(a, v);
  }

  /** `t[a=v]` without a `.` and a leading `#` reaches the attribute test. */
  lemma AttrFormIs(t: string, a: string, v: string)
    requires t == [] || t[0] != '#'
    requires '.' !in t && '.' !in a && '.' !in v
    ensures AttrTest(t + "[" + a + "=" + v + "]")
  {
    var sel := t + "[" + a + "=" + v + "]";
    assert sel[|t|] == '[' && sel[|t| + 1 + |a|] == '=';
    assert sel[0] != '.' by {
      if t == [] {
        assert sel[0] == '[';
      } else {
        assert sel[0] == t[0];
      }
    }
    forall k | 0 <= k < |sel|
      ensures sel[k] != '.'
    {
      if k < |t| {
        assert sel[k] == t[k];
      } else if |t| < k < |t| + 1 + |a| {
        assert sel[k] == a[k - |t| - 1];
      } else if |t| + 1 + |a| < k < |sel| - 1 {
        assert sel[k] == v[k - |t| - 2 - |a|];
      }
    }
  }

  /** `t[a=v]` holds exactly when the node is named `t` and its first
      attribute `a` equals `v` with every quote removed; it never throws. */
  lemma AttrForm(n: Node, t: string, a: string, v: string)
    requires t == [] || t[0] != '#'
    requires '.' !in t && '.' !in a && '.' !in v
    requires '[' !in t && '[' !in a && '[' !in v
    requires '=' !in a && '=' !in v
    ensures Match(n, t + "[" + a + "=" + v + "]") ==
      Some(n.name == t && Lookup(n.attributes, a) == Some(RemoveQuotes(v)))
  {
    AttrPieces(t, a, v);
    AttrFormIs(t, a, v);
  }

  /** Any other component compares the node's `name`, whatever kind of node
      it is, so a text node matches its own text. */
  lemma NameForm(n: Node, sel: string)
    requires !Prefixed(sel) && '.' !in sel && !('[' in sel && '=' in sel)
    ensures Match(n, sel) == Some(n.name == sel)
  {
  }

  /** The `.` test comes before the bracket test, so `a[href=x.html]` is read
      as tag `a[href=x` with class `html]`. */
  lemma DotBeforeBracket(n: Node)
    ensures Match(n, "a[href=x.html]") == Some(n.name == "a[href=x" && HasClass(n, "html]"))
  {
    var t, c := "a[href=x", "html]";
    assert t + "." + c == "a[href=x.html]";
    TagClassForm(n, t, c);
    SplitNone(c, '.');
  }

  /** A component that reaches the attribute test compares the tag first. */
  lemma AttrBranch(n: Node, sel: string)
    requires AttrTest(sel)
    ensures Match(n, sel) ==
      if n.name != TagOf(sel) then Some(false)
      else if |PairOf(sel)| < 2 then None
      else Some(Lookup(n.attributes, PairOf(sel)[0]) == Some(RemoveQuotes(PairOf(sel)[1])))
  {
  }

  /** The pieces of `t[b]` when neither `t` nor `b` holds a `[` and `b`
      holds no `=`: tag `t`, one piece `b`. */
  lemma BracketPieces(t: string, b: string)
    requires '[' !in t && '[' !in b && '=' !in b
    ensures '[' in t + "[" + b + "]"
    ensures TagOf(t + "[" + b + "]") == t && PairOf(t + "[" + b + "]") == [b]
  {
    var inner := b + "]";
    var sel := t + "[" + inner;
    assert sel == t + "[" + b + "]";
    assert sel[|t|] == '[';
    assert '[' !in inner by {
      forall k | 0 <= k < |b|
        ensures inner[k] != '['
      {
        assert inner[k] == b[k];
      }
    }
    SplitFirst(t, '[', inner);
    SplitNone(inner, '[');
    assert DropLast(inner) == b;
    SplitNone(b, '=');
  }

  /** The pieces of `a=b[c]`: tag `a=b`, and brackets without `=`. */
  lemma EqualsOutsidePieces()
    ensures AttrTest("a=b[c]") && TagOf("a=b[c]") == "a=b" && PairOf("a=b[c]") == ["c"]
  {
    var sel := "a=b[c]";
    assert sel == "a=b" + "[" + "c" + "]";
    BracketPieces("a=b", "c");
    assert sel[1] == '=';
  }

  /** In `a=b[c]` the `=` lies before the brackets: on a node named `a=b` the
      value is `undefined` and the test throws; on any other node it is false. */
  lemma EqualsOutsideBrackets(n: Node)
    ensures Match(n, "a=b[c]") == if n.name == "a=b" then None else Some(false)
  {
    EqualsOutsidePieces();
    AttrBranch(n, "a=b[c]");
  }

  /** Brackets alone do not reach the attribute test: `a[b]` has no `=`, so
      it is compared with the node's name as a whole and never throws. */
  lemma NoEqualsFallsThrough(n: Node)
    ensures Match(n, "a[b]") == Some(n.name == "a[b]")
  {
    var sel := "a[b]";
    assert '=' !in sel && '.' !in sel && sel[0] == 'a';
    NameForm(n, sel);
  }

  /** Only the first bracket pair is read: in `a[b][c=d]` it is `[b]`, which
      holds no `=`, so the test throws on a node named `a` although a later
      pair holds one. */
  lemma LaterPairThrows(n: Node)
    ensures Match(n, "a[b][c=d]") == if n.name == "a" then None else Some(false)
  {
    LaterPairPieces();
    AttrBranch(n, "a[b][c=d]");
  }

  /** The pieces of `a[b][c=d]`: tag `a`, and the first pair `b` alone. */
  lemma LaterPairPieces()
    ensures AttrTest("a[b][c=d]") && TagOf("a[b][c=d]") == "a" && PairOf("a[b][c=d]") == ["b"]
  {
    LaterPairTest("a[b][c=d]");
    LaterPairSplit("a[b][c=d]");
  }

  /** `a[b][c=d]` reaches the attribute test. */
  lemma LaterPairTest(sel: string)
    requires sel == "a[b][c=d]"
    ensures AttrTest(sel)
  {
    assert sel[0] == 'a' && sel[1] == '[' && sel[6] == '=';
    assert '.' !in sel;
  }

  /** The tag and the first pair of `a[b][c=d]`. */
  lemma LaterPairSplit(sel: string)
    requires sel == "a[b][c=d]"
    ensures '[' in sel && TagOf(sel) == "a" && PairOf(sel) == ["b"]
  {
    assert sel == "a" + "[" + "b" + "][" + "c=d]";
    FirstPair("a", "b", "c=d]");
    SplitNone("b", '=');
  }

  /** With more than one bracket pair, the tag is the text before the first
      `[` and the pair is read from the first brackets only. */
  lemma FirstPair(t: string, b: string, rest: string)
    requires '[' !in t && '[' !in b
    ensures '[' in t + "[" + b + "][" + rest
    ensures TagOf(t + "[" + b + "][" + rest) == t
    ensures PairOf(t + "[" + b + "][" + rest) == Split(b, '=')
  {
    var inner := b + "]";
    var sel := t + "[" + b + "][" + rest;
    assert sel == t + ['['] + (inner + ['['] + rest);
    assert sel[|t|] == '[';
    assert '[' !in inner by {
      forall k | 0 <= k < |b|
        ensures inner[k] != '['
      {
        assert inner[k] == b[k];
      }
    }
    SplitFirst(t, '[', inner + ['['] + rest);
    SplitFirst(inner, '[', rest);
    assert DropLast(inner) == b;
  }

  /** Any character other than `[` and `]`. */
  predicate NotBracket(c: char) {
    c != '[' && c != ']'
  }

  /** The lookahead `(?![^\[]*\])` fails at `k`: the first bracket at or after
      `k` is a `]`, so `k` lies inside brackets. */
  predicate Enclosed(s: string, k: nat)
    requires k <= |s|
  {
    var j := Span(s, k, NotBracket);
    j < |s| && s[j] == ']'
  }

  /** A whitespace character of `/\s+(?![^\[]*\])/` that separates
      components. Whitespace is no bracket, so the lookahead gives the same
      answer at every position of a run. */
  predicate Cuts(s: string, k: nat)
    requires k < |s|
  {
    IsSpace(s[k]) && !Enclosed(s, k)
  }

  /** The first separating whitespace at or after `k`, or the end. */
  function FirstCut(s: string, k: nat): (c: nat)
    requires k <= |s|
    ensures k <= c <= |s|
    ensures c < |s| ==> Cuts(s, c)
    ensures forall m :: k <= m < c ==> !Cuts(s, m)
    decreases |s| - k
  {
    if k == |s| || Cuts(s, k) then k else FirstCut(s, k + 1)
  }

  /** `s.split(/\s+(?![^\[]*\])/)`: the text between maximal separating
      whitespace runs, including an empty first or last piece when a run
      starts or ends the string. */
  function Components(s: string): (r: seq<string>)
    ensures |r| >= 1
    ensures (forall k :: 0 <= k < |s| ==> !IsSpace(s[k])) ==> r == [s]
    decreases |s|
  {
    var c := FirstCut(s, 0);
    if c == |s| then [s]
    else
      var e := Span(s, c, IsSpace);
      [s[..c]] + Components(s[e..])
  }

  /** One separating run: the text before it, then the components after it. */
  lemma ComponentsStep(s: string, c: nat, e: nat)
    requires c < |s| && FirstCut(s, 0) == c && Span(s, c, IsSpace) == e
    ensures Components(s) == [s[..c]] + Components(s[e..])
  {
  }

  /** `selector.trim().split(/\s+(?![^\[]*\])/)`. */
  function SplitSelector(sel: string): (r: seq<string>)
    ensures |r| >= 1
    ensures (forall k :: 0 <= k < |Trim(sel)| ==> !IsSpace(Trim(sel)[k])) ==> r == [Trim(sel)]
  {
    Components(Trim(sel))
  }

  /** A word without whitespace and brackets. */
  predicate Plain(c: char) {
    !IsSpace(c) && NotBracket(c)
  }

  predicate PlainOrSpace(c: char) {
    c == ' ' || Plain(c)
  }

  /** A plain word, one space, and a rest starting with a plain character
      and free of brackets: the word is the first component. */
  lemma JoinStep(w: string, t: string)
    requires w != [] && All(w, Plain)
    requires t != [] && Plain(t[0]) && All(t, PlainOrSpace)
    ensures Components(w + [' '] + t) == [w] + Components(t)
  {
    var s := w + [' '] + t;
    SpanIs(s, |w|, NotBracket, |s|) by {
      forall k | |w| <= k < |s|
        ensures NotBracket(s[k])
      {
        if k > |w| {
          assert s[k] == t[k - |w| - 1] && PlainOrSpace(t[k - |w| - 1]);
        }
      }
    }
    assert Cuts(s, |w|);
    forall m | 0 <= m < |w|
      ensures !Cuts(s, m)
    {
      assert s[m] == w[m] && Plain(w[m]);
    }
    FirstCutIs(s, 0, |w|);
    assert s[|w| + 1] == t[0];
    SpanIs(s, |w|, IsSpace, |w| + 1);
    assert s[..|w|] == w && s[|w| + 1..] == t;
  }

  /** Non-empty words without whitespace and brackets, joined by single
      spaces, split back into exactly those words. */
  lemma {:induction false} SplitSelectorWords(words: seq<string>)
    requires |words| >= 1
    requires forall w :: w in words ==> w != [] && All(w, Plain)
    ensures Components(Join(words, ' ')) == words
    decreases |words|
  {
    var w := words[0];
    assert w in words;
    if |words| == 1 {
      assert Join(words, ' ') == w;
      assert forall k :: 0 <= k < |w| ==> !IsSpace(w[k]) by {
        forall k | 0 <= k < |w|
          ensures !IsSpace(w[k])
        {
          assert Plain(w[k]);
        }
      }
    } else {
      var rest := words[1..];
      var t := Join(rest, ' ');
      assert Join(words, ' ') == w + [' '] + t;
      forall x | x in rest
        ensures x != [] && All(x, Plain) && All(x, PlainOrSpace)
      {
        assert x in words;
      }
      assert rest[0] in rest;
      assert rest[0] != [] && All(rest[0], Plain);
      if |rest| == 1 {
        assert t == rest[0];
      } else {
        assert t == rest[0] + [' '] + Join(rest[1..], ' ');
      }
      assert t != [] && t[0] == rest[0][0];
      JoinAll(rest, ' ', PlainOrSpace);
      JoinStep(w, t);
      SplitSelectorWords(rest);
      assert words == [w] + rest;
    }
  }

  /** Any position with no cut before it and a cut (or the end) at it is the
      first cut. */
  lemma {:induction false} FirstCutIs(s: string, k: nat, c: nat)
    requires k <= c <= |s|
    requires c < |s| ==> Cuts(s, c)
    requires forall m :: k <= m < c ==> !Cuts(s, m)
    ensures FirstCut(s, k) == c
    decreases c - k
  {
    if k < c {
      FirstCutIs(s, k + 1, c);
    }
  }

  /** Whitespace followed by a `]` before any `[` lies inside brackets and
      does not separate components. */
  lemma BracketedComponent(s: string, k: nat, p: nat)
    requires k < p < |s| && s[p] == ']'
    requires forall m :: k <= m < p ==> NotBracket(s[m])
    ensures !Cuts(s, k)
  {
    SpanIs(s, k, NotBracket, p);
  }

  /** The first cut of `div a[x = 1]` is the space after `div`. */
  lemma SpaceBeforeBracketCut()
    ensures FirstCut("div a[x = 1]", 0) == 3
  {
    var s := "div a[x = 1]";
    assert s[5] == '[' && !NotBracket(s[5]);
    SpanIs(s, 3, NotBracket, 5);
    assert Cuts(s, 3);
    FirstCutIs(s, 0, 3);
  }

  /** `a[x = 1]` has no cut: both spaces lie inside the brackets. */
  lemma BracketedNoCut()
    ensures FirstCut("a[x = 1]", 0) == 8
  {
    var s := "a[x = 1]";
    assert s[7] == ']';
    BracketedComponent(s, 3, 7);
    BracketedComponent(s, 5, 7);
    FirstCutIs(s, 0, 8);
  }

  /** `a[x = 1]` is one component. */
  lemma BracketedOne()
    ensures Components("a[x = 1]") == ["a[x = 1]"]
  {
    BracketedNoCut();
  }

  /** `div a[x = 1]` splits into `div` and `a[x = 1]` before trimming. */
  lemma SpaceInsideBracketsRaw()
    ensures Components("div a[x = 1]") == ["div", "a[x = 1]"]
  {
    var s := "div a[x = 1]";
    SpaceBeforeBracketCut();
    SpanIs(s, 3, IsSpace, 4);
    ComponentsStep(s, 3, 4);
    assert s[..3] == "div" && s[4..] == "a[x = 1]";
    BracketedOne();
  }

  /** `div a[x = 1]` splits into `div` and `a[x = 1]`. */
  lemma SpaceInsideBrackets()
    ensures SplitSelector("div a[x = 1]") == ["div", "a[x = 1]"]
  {
    var s := "div a[x = 1]";
    assert s[0] == 'd' && s[|s| - 1] == ']';
    TrimKeeps(s);
    SpaceInsideBracketsRaw();
  }
}
