/** The older tokenizer of `src/html-tokenizer.js`. Nothing imports it. It
    does not trim its input, has no doctype or self-closing path and throws
    no error of its own. Every loop is bounded by the length of the input.
    The whitespace skip of `getNextToken` is a recursive call per character,
    which here has no depth limit. */
module LegacyTokenizer {
  import opened Chars
  import opened Tokens
  import opened Outcomes

  /** `consumeText`: text up to the next `<` or the end. */
  function ConsumeText(s: string, i: nat): (r: Scanned<Token>)
    requires i <= |s|
    ensures
      var j := r.next;
      && r.value.Text?
      && i <= j <= |s|
      && s[i..j] == r.value.value
      && '<' !in r.value.value
      && (j == |s| || s[j] == '<')
  {
    var j := IndexOf(s, i, '<');
    Scanned(Text(s[i..j]), j)
  }

  /** `consumeEndTag`, with the cursor on the `<` of `</`: the maximal
      `[a-zA-Z0-9]` run, then one character skipped unconditionally. */
  function ConsumeEndTag(s: string, i: nat): (r: Scanned<Token>)
    requires i + 2 <= |s|
    ensures r.value.TagClose?
    ensures
      var j := r.next - 1;
      && i + 2 <= j <= |s|
      && s[i + 2..j] == r.value.name
      && All(r.value.name, IsAlnum)
      && (j == |s| || !IsAlnum(s[j]))
  {
    var j := Span(s, i + 2, IsAlnum);
    Scanned(TagClose(s[i + 2..j]), j + 1)
  }

  /** `consumeAttribute`: the maximal `[a-zA-Z0-9-]` run, one skipped
      character, then a value only when `"` follows; the value runs to the
      next `"` or, when there is none, to the end of the input. */
  function ConsumeAttribute(s: string, i: nat): (r: Scanned<Attribute>)
    requires i <= |s|
    ensures AttrShaped(r.value)
    ensures
      var a := r.value;
      var j := i + |a.name|;
      && j <= |s|
      && s[i..j] == a.name
      && (j == |s| || !IsNameChar(s[j]))
      && (if j + 1 < |s| && s[j + 1] == '"' then
            var q := j + 2 + |a.value|;
            && q <= |s|
            && s[j + 2..q] == a.value
            && (q == |s| || s[q] == '"')
            && r.next == q + 1
          else
            a.value == [] && r.next == j + 1)
  {
    var j := Span(s, i, IsNameChar);
    var k := j + 1;
    if k < |s| && s[k] == '"' then
      var q := IndexOf(s, k + 1, '"');
      Scanned(Attribute(s[i..j], s[k + 1..q]), q + 1)
    else
      Scanned(Attribute(s[i..j], []), k)
  }

  /** The attribute loop of `consumeStartTag`: whitespace is skipped one
      character at a time and attributes are read up to a `>` or the end. */
  function ConsumeAttributes(s: string, i: nat): (r: Scanned<seq<Attribute>>)
    ensures i <= r.next
    ensures r.next >= |s| || s[r.next] == '>'
    ensures AttrsShaped(r.value)
    decreases |s| - i
  {
    if i >= |s| || s[i] == '>' then
      Scanned([], i)
    else if IsSpace(s[i]) then
      ConsumeAttributes(s, i + 1)
    else
      var a := ConsumeAttribute(s, i);
      var rest := ConsumeAttributes(s, a.next);
      Scanned([a.value] + rest.value, rest.next)
  }

  /** `consumeStartTag`, with the cursor on the `<`: exactly one open token,
      named by the maximal `[a-zA-Z0-9]` run after the `<`; the `>` (or
      whatever ends the attributes) is skipped. */
  function ConsumeStartTag(s: string, i: nat): (r: Scanned<Token>)
    requires i < |s|
    ensures r.value.TagOpen? && WellShaped(r.value) && i + 1 < r.next
    ensures
      var j := i + 1 + |r.value.name|;
      && j <= |s|
      && s[i + 1..j] == r.value.name
      && (j == |s| || !IsAlnum(s[j]))
  {
    var j := Span(s, i + 1, IsAlnum);
    var a := ConsumeAttributes(s, j);
    Scanned(TagOpen(s[i + 1..j], a.value), a.next + 1)
  }

  /** `consumeComment`, with the cursor on the `!` of `!--`: four characters
      are skipped, so the one after `!--` is lost; the value runs to the first
      `-->` or the end; then three characters are skipped. */
  function ConsumeComment(s: string, i: nat): (r: Scanned<Token>)
    ensures r.value.Comment?
    ensures i + 4 <= |s| ==>
      var j := i + 4 + |r.value.value|;
      && j <= |s|
      && s[i + 4..j] == r.value.value
      && (j == |s| || StartsAt(s, j, "-->"))
      && (forall k :: i + 4 <= k < j ==> !StartsAt(s, k, "-->"))
      && r.next == j + 3
    ensures i + 4 > |s| ==> r.value.value == [] && r.next == i + 7
  {
    if i + 4 <= |s| then
      var j := Find(s, i + 4, "-->");
      Scanned(Comment(s[i + 4..j]), j + 3)
    else
      Scanned(Comment([]), i + 7)
  }

  /** `getNextToken`: `null` at the end; whitespace is skipped by a recursive
      call per character; then a tag, a bare `!--` comment, or text. */
  function NextToken(s: string, i: nat): (r: Option<Scanned<Token>>)
    ensures r.None? ==> forall k :: i <= k < |s| ==> IsSpace(s[k])
    ensures r.Some? ==> i < |s| && i < r.value.next && WellShaped(r.value.value)
    decreases |s| - i
  {
    if i >= |s| then
      None
    else if IsSpace(s[i]) then
      NextToken(s, i + 1)
    else if s[i] == '<' then
      if i + 1 < |s| && s[i + 1] == '/' then Some(ConsumeEndTag(s, i)) else Some(ConsumeStartTag(s, i))
    else if s[i] == '!' && i + 2 < |s| && s[i + 1] == '-' && s[i + 2] == '-' then
      Some(ConsumeComment(s, i))
    else
      Some(ConsumeText(s, i))
  }

  /** The loop of `tokenize`: tokens until `getNextToken` returns `null`. */
  function Run(s: string, i: nat): (r: seq<Token>)
    ensures i + |r| <= |s| || r == []
    ensures AllShaped(r)
    decreases |s| - i
  {
    match NextToken(s, i)
    case None => []
    case Some(t) => [t.value] + Run(s, t.next)
  }

  /** `new HTMLTokenizer(html).tokenize()`, without trimming; call-stack
      depth is not modelled, so it returns on every input. */
  function Tokenize(html: string): (r: seq<Token>)
    ensures |r| <= |html|
    ensures AllShaped(r)
    ensures forall t :: t in r && t.Text? ==> t.value != [] && !IsSpace(t.value[0]) && '<' !in t.value
  {
    var r := Run(html, 0);
    assert forall t :: t in r ==> WellShaped(t);
    r
  }
}

/** Quirks of the older tokenizer, stated on inputs of a given form. */
module LegacyFacts {
  import opened Chars
  import opened Tokens
  import opened Outcomes
  import opened LegacyTokenizer
  import Tokenizer
  import TokenizerFacts

  /** No token comes out exactly when only whitespace remains: whitespace at
      the end of the input yields nothing, without any trimming. */
  lemma {:induction false} TrailingSpaceGivesNothing(s: string, i: nat)
    ensures NextToken(s, i).None? <==> forall k :: i <= k < |s| ==> IsSpace(s[k])
    decreases |s| - i
  {
    if i < |s| && IsSpace(s[i]) {
      TrailingSpaceGivesNothing(s, i + 1);
    }
  }

  /** `<!` (so `<!DOCTYPE` and `<!--` too) opens a tag with an empty name. */
  lemma BangOpensNamelessTag(s: string, i: nat)
    requires i + 1 < |s| && s[i] == '<' && s[i + 1] == '!'
    ensures
      var r := NextToken(s, i);
      r.Some? && r.value.value.TagOpen? && r.value.value.name == []
  {
  }

  /** At `/>` the attribute loop reads one attribute with empty name and
      value (the `/` is the skipped character) and stops at the `>`. */
  lemma SlashAttributes(s: string, i: nat)
    requires StartsAt(s, i, "/>")
    ensures ConsumeAttributes(s, i) == Scanned([Attribute([], [])], i + 1)
  {
    CharsAt(s, i, "/>");
    SpanIs(s, i, IsNameChar, i);
    assert ConsumeAttribute(s, i) == Scanned(Attribute([], []), i + 1);
    assert ConsumeAttributes(s, i + 1) == Scanned([], i + 1);
    assert [Attribute([], [])] + [] == [Attribute([], [])];
  }

  /** One ` name="value"` in front of the attribute loop's cursor `i`: the
      space is skipped by the loop, and `consumeAttribute` at the next
      character reads back exactly that attribute, leaving the cursor `k`
      after the closing quote. */
  lemma AttributeRoundTrip(s: string, i: nat, a: Attribute, k: nat)
    requires AttrShaped(a) && AttrLaid(s, i, a) && k == i + AttrWidth(a)
    ensures AttributeAt(s, i, a, k)
  {
    var j, n := i + 1, |a.name|;
    TokenizerFacts.AttributeStart(s, i, a);
    NameSpan(s, j, a.name, j + n);
    ValueQuote(s, j + n + 2, a.value, k - 1);
    AttributeFrom(s, j, a, j + n, k - 1, k);
  }

  /** A name of name characters followed by `=` is exactly the span the
      attribute scanner takes. */
  lemma NameSpan(s: string, j: nat, name: string, p: nat)
    requires Spelled(s, j, name) && p == j + |name| && p < |s| && s[p] == '='
    requires All(name, IsNameChar)
    ensures Span(s, j, IsNameChar) == p && s[j..p] == name
  {
    forall x | j <= x < p
      ensures IsNameChar(s[x])
    {
      assert s[j + (x - j)] == name[x - j];
    }
    SpanIs(s, j, IsNameChar, p);
    SpelledStarts(s, j, name);
  }

  /** A value free of `"` followed by `"` ends at that quote. */
  lemma ValueQuote(s: string, q: nat, value: string, p: nat)
    requires Spelled(s, q, value) && p == q + |value| && p < |s| && s[p] == '"'
    requires '"' !in value
    ensures IndexOf(s, q, '"') == p && s[q..p] == value
  {
    forall x | q <= x < p
      ensures s[x] != '"'
    {
      assert s[q + (x - q)] == value[x - q];
    }
    IndexOfIs(s, q, '"', p);
    SpelledStarts(s, q, value);
  }

  /** `consumeAttribute` put together from the name span ending at `p`, the
      skipped character, an opening quote and the closing quote at `q`. */
  lemma AttributeFrom(s: string, j: nat, a: Attribute, p: nat, q: nat, k: nat)
    requires j <= p && p + 1 < |s| && s[p + 1] == '"'
    requires Span(s, j, IsNameChar) == p && s[j..p] == a.name
    requires p + 2 <= q && IndexOf(s, p + 2, '"') == q && s[p + 2..q] == a.value
    requires k == q + 1
    ensures ConsumeAttribute(s, j) == Scanned(a, k)
  {
  }

  /** One pass of the attribute loop at `i`, one whitespace character and then
      an attribute: `s[i]` is a space, the next character neither `>` nor
      whitespace, and `consumeAttribute` there gives `a` and leaves `k`. */
  predicate AttributeAt(s: string, i: nat, a: Attribute, k: nat) {
    && i + 1 < |s| && IsSpace(s[i]) && s[i] != '>'
    && s[i + 1] != '>' && !IsSpace(s[i + 1])
    && ConsumeAttribute(s, i + 1) == Scanned(a, k)
  }

  /** The attribute loop reads back the list it was written from: on
      ` n1="v1" … nk="vk">` it yields exactly those attributes and stops on
      the `>`, at `e`. */
  lemma AttributesRoundTrip(s: string, i: nat, attrs: seq<Attribute>, e: nat)
    requires AttrsShaped(attrs)
    requires StartsAt(s, i, AttrsText(attrs) + ">") && e == i + |AttrsText(attrs)|
    ensures ConsumeAttributes(s, i) == Scanned(attrs, e)
  {
    AttrsLaidOut(s, i, attrs);
    AttrsTextWidth(attrs);
    AttributesRead(s, i, attrs, e);
  }

  /** The attribute loop over the layout of an attribute list, which ends
      at `e`. */
  lemma {:induction false} AttributesRead(s: string, i: nat, attrs: seq<Attribute>, e: nat)
    requires AttrsShaped(attrs) && AttrsLaid(s, i, attrs) && e == i + AttrsWidth(attrs)
    ensures ConsumeAttributes(s, i) == Scanned(attrs, e)
    decreases |attrs|
  {
    if attrs != [] {
      var k := i + AttrWidth(attrs[0]);
      AttrsTail(attrs);
      AttrsWidthStep(i, k, attrs);
      AttributeRoundTrip(s, i, attrs[0], k);
      AttributesRead(s, k, attrs[1..], e);
      AttributesFirst(s, i, attrs, k, e);
    }
  }

  /** The attribute loop over a list whose first attribute it reads after
      the space at `i` and whose tail it reads from `k`. */
  lemma AttributesFirst(s: string, i: nat, attrs: seq<Attribute>, k: nat, e: nat)
    requires attrs != [] && AttributeAt(s, i, attrs[0], k)
    requires ConsumeAttributes(s, k) == Scanned(attrs[1..], e)
    ensures ConsumeAttributes(s, i) == Scanned(attrs, e)
  {
    AttrsSplit(attrs);
    AttributesStep(s, i, attrs[0], k, attrs[1..], e);
  }

  /** One pass of the attribute loop: a space, then an attribute in front of
      the rest of the list. */
  lemma AttributesStep(s: string, i: nat, a: Attribute, k: nat, rest: seq<Attribute>, e: nat)
    requires AttributeAt(s, i, a, k)
    requires ConsumeAttributes(s, k) == Scanned(rest, e)
    ensures ConsumeAttributes(s, i) == Scanned([a] + rest, e)
  {
    assert ConsumeAttributes(s, i) == ConsumeAttributes(s, i + 1);
  }

  /** A start tag written as `<name n1="v1" … nk="vk">` is read back as the
      open token it was written from, and the cursor lands after its `>`,
      at `e`. */
  lemma StartTagRoundTrip(s: string, i: nat, name: string, attrs: seq<Attribute>, e: nat)
    requires All(name, IsAlnum) && AttrsShaped(attrs)
    requires StartsAt(s, i, "<" + name + AttrsText(attrs) + ">")
    requires e == i + |name| + |AttrsText(attrs)| + 2
    ensures ConsumeStartTag(s, i) == Scanned(TagOpen(name, attrs), e)
  {
    var rest := AttrsText(attrs) + ">";
    assert "<" + name + AttrsText(attrs) + ">" == "<" + name + rest;
    if attrs != [] {
      assert rest[0] == AttrText(attrs[0])[0] == ' ';
    }
    AttrsTextWidth(attrs);
    TokenizerFacts.StartTagName(s, i, name, rest);
    AttrsLaidOut(s, i + 1 + |name|, attrs);
    StartTagLaid(s, i, name, attrs, e);
  }

  /** A start tag whose name has been read and whose attributes are laid
      out up to the closing `>`. */
  lemma StartTagLaid(s: string, i: nat, name: string, attrs: seq<Attribute>, e: nat)
    requires Tokenizer.ConsumeTagName(s, i + 1) == Ok(Scanned(name, i + 1 + |name|))
    requires AttrsShaped(attrs) && AttrsLaid(s, i + 1 + |name|, attrs)
    requires e == i + |name| + AttrsWidth(attrs) + 2
    ensures ConsumeStartTag(s, i) == Scanned(TagOpen(name, attrs), e)
  {
    TagSpan(s, i + 1, name);
    AttributesRead(s, i + 1 + |name|, attrs, e - 1);
    StartTagFrom(s, i, name, attrs, e);
  }

  /** The name the `.mjs` tag-name scanner reads is the alphanumeric span the
      legacy scanner takes. */
  lemma TagSpan(s: string, j: nat, name: string)
    requires Tokenizer.ConsumeTagName(s, j) == Ok(Scanned(name, j + |name|))
    ensures Span(s, j, IsAlnum) == j + |name| && s[j..j + |name|] == name
  {
    forall x | j <= x < j + |name|
      ensures IsAlnum(s[x])
    {
      assert s[x] == name[x - j];
    }
    SpanIs(s, j, IsAlnum, j + |name|);
  }

  /** `consumeStartTag` put together from the name span and the attribute
      loop, which stops one short of `e`. */
  lemma StartTagFrom(s: string, i: nat, name: string, attrs: seq<Attribute>, e: nat)
    requires i + 1 + |name| <= |s| && Span(s, i + 1, IsAlnum) == i + 1 + |name|
    requires s[i + 1..i + 1 + |name|] == name
    requires 0 < e && ConsumeAttributes(s, i + 1 + |name|) == Scanned(attrs, e - 1)
    ensures ConsumeStartTag(s, i) == Scanned(TagOpen(name, attrs), e)
  {
  }

  /** `<name/>` is one open token carrying one attribute with empty name and
      value; no close token follows. */
  lemma SlashIsNamelessAttribute(s: string, i: nat, name: string)
    requires StartsAt(s, i, "<" + name + "/>")
    requires All(name, IsAlnum)
    ensures ConsumeStartTag(s, i) == Scanned(TagOpen(name, [Attribute([], [])]), i + |name| + 3)
  {
    var j := i + 1 + |name|;
    SlashAfterName(s, i, name);
    SlashAttributes(s, j);
    assert s[i + 1..j] == name;
  }

  /** The facts about `<name/>` the scan of the name needs. */
  lemma SlashAfterName(s: string, i: nat, name: string)
    requires StartsAt(s, i, "<" + name + "/>")
    requires All(name, IsAlnum)
    ensures i < |s| && Span(s, i + 1, IsAlnum) == i + 1 + |name|
    ensures s[i + 1..i + 1 + |name|] == name
    ensures StartsAt(s, i + 1 + |name|, "/>")
  {
    var w := "<" + name + "/>";
    StartsAtSuffix(s, i, w, 1);
    assert w[1..] == name + "/>";
    StartsAtPrefix(s, i + 1, name + "/>", |name| + 1);
    assert (name + "/>")[..|name| + 1] == name + ['/'];
    SpanAt(s, i + 1, IsAlnum, name, '/');
    StartsAtSuffix(s, i, w, 1 + |name|);
    assert w[1 + |name|..] == "/>";
  }

  /** On `!--` + c + body + `-->` the value is `body`: the character right
      after `!--` is lost, and the cursor moves past the `-->`. */
  lemma CommentScan(s: string, i: nat, c: char, body: string)
    requires StartsAt(s, i, "!--" + [c] + body + "-->")
    requires TokenizerFacts.NoTerminator(body)
    ensures ConsumeComment(s, i) == Scanned(Comment(body), i + |body| + 7)
  {
    var w := "!--" + [c] + body + "-->";
    var v := body + "-->";
    assert w[4..] == v;
    StartsAtSuffix(s, i, w, 4);
    StartsAtSuffix(s, i + 4, v, |body|);
    assert v[|body|..] == "-->";
    NoneBefore(s, i + 4, v, |body|, "-->");
    FindIs(s, i + 4, "-->", i + 4 + |body|);
    StartsAtPrefix(s, i + 4, v, |body|);
    assert v[..|body|] == body;
  }

  /** A bare `!--` outside a tag starts such a comment. */
  lemma CommentDropsFirstChar(s: string, i: nat, c: char, body: string)
    requires StartsAt(s, i, "!--" + [c] + body + "-->")
    requires TokenizerFacts.NoTerminator(body)
    ensures NextToken(s, i) == Some(Scanned(Comment(body), i + |body| + 7))
  {
    var w := "!--" + [c] + body + "-->";
    CharsAt(s, i, w);
    assert s[i] == w[0] && s[i + 1] == w[1] && s[i + 2] == w[2];
    CommentScan(s, i, c, body);
  }
}
